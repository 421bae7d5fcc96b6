# stream-file-processing-go: a Dafny model of the file service

The file service moves CSV exports from an origin bucket to a destination
bucket. It works in three steps:

1. **Selection.** It lists the origin bucket and keeps each non-empty
   `X.csv.gz` archive for which the listing also holds a completion marker
   `X.done`.
2. **Watermark.** It keeps only the archives whose modification time, as a
   string, is strictly greater than the newest modification time in the
   destination bucket.
3. **Processing.** For each kept archive it reads the 5- or 6-column rows and
   maps each row into a fixed 19-column record. It drops rows whose phone
   number does not parse as a 64-bit integer or whose full name is empty. The
   surviving records are written through csv.Writer, an in-memory buffer and
   the storage writer `wc` into an object named
   `dPrefix + yyyyMMdd-HHmmss + ".csv"`.

The model replaces every external part with plain values:

- a bucket listing is a sequence of entries, each an object or an iterator error;
- a source file is a sequence of read outcomes, each a parsed record or a reader error;
- CSV encoding of a record is a function parameter (`Staging.Encoder`);
- `log.Fatal` becomes a `Fatal` result.

The Go operations that update state step by step are Dafny methods with
loops:

- the two loops of `GetCsvFiles`;
- the in-place descending sort and the filter loop of `GetFilesToBeProcessed`;
- the read loop of `ProcessCsvFile`, which works through a `CsvPipeline` object.

`CsvPipeline` has three fields:

- `pending`: csv.Writer's internal buffer;
- `buf`: the `bytes.Buffer`;
- `sink`: what `wc` has received.

The loops of `GetCsvFiles` and `ProcessCsvFile` and the filter of
`GetFilesToBeProcessed` are proved against specification functions, whose
properties are proved as lemmas. `SortDescending` (sorted and a permutation),
`IndexOfLatest` (the position of a greatest element), the `CsvPipeline`
methods and `GetTimestampFromLatestUploadedFiles` state their results
directly.

Files and modules:

- `wrappers.dfy` (`Wrappers`): `Option` and `Result`.
- `models.dfy` (`Models`): `FileMetadata`, timestamps, listing entries, read outcomes, fatal errors.
- `gostrings.dfy` (`GoStrings`): `strings.HasSuffix`, `strings.CutSuffix`, `strings.TrimSpace`, and Go's string order.
- `gostrconv.dfy` (`GoStrconv`): `strconv.ParseInt(s, 10, 64)`.
- `selection.dfy` (`Selection`): `GetCsvFiles`, `GetTimestampFromLatestUploadedFiles`.
- `watermark.dfy` (`Watermark`): `GetFilesToBeProcessed`.
- `transform.dfy` (`Transform`): the destination key, the row switch and the validation test.
- `staging.dfy` (`Staging`): the write path of `ProcessCsvFile`.

Two behaviours of the code worth knowing:

- **Marker naming.** The code strips `.done` from a marker and `.csv.gz` from
  an archive and compares the stems, so `a.done` qualifies `a.csv.gz` and
  `a.csv.gz.done` does not; `Selection.MarkerNamingExample` proves both cases.
- **Staging lag.** See "## Findings".

## Model

| member | source | states |
|---|---|---|
| Selection.GetCsvFiles | internal/fileservice/service/service.go:32-74 | Fatal exactly when the listing yields an error. Otherwise the result is the candidate list of the listed objects. |
| Selection.StageListing | internal/fileservice/service/service.go:38-63 | The first loop: it fails exactly when the listing yields an error; otherwise `filesMetadata` and `doneFiles` are the staged objects and the marker stems of the whole listing. |
| Selection.CandidatesIff | internal/fileservice/service/service.go:49-70 | An object is a candidate iff it is in the listing, its name ends in `.csv.gz`, its size is positive, and the listing holds some object named stem + `.done`, of any size. |
| Selection.PairedStagedIsEligible | internal/fileservice/service/service.go:49-70 | The two loops together, staging `.done`/`.gz` objects and then pairing archives with marker stems, compute exactly the eligible archives in listing order. |
| Selection.MarkerBasesIff | internal/fileservice/service/service.go:58-61 | A stem is in `doneFiles` iff the listing holds an object named stem + `.done`. |
| Selection.ArchiveIsNotMarker | internal/fileservice/service/service.go:49 | A `.csv.gz` name also ends in `.gz` and never in `.done`. |
| Selection.SelectEligibleMembers | internal/fileservice/service/service.go:66-70 | An element is selected iff it occurs in the input and is eligible. |
| Selection.SelectEligibleSubsequence | internal/fileservice/service/service.go:66-70 | The selection is a subsequence of its input. |
| Selection.CandidatesInListingOrder | internal/fileservice/service/service.go:51-55 | The candidates are a subsequence of the listing, in listing order, with every record copied unchanged. |
| Selection.MarkerNamingExample | internal/fileservice/service/service.go:58-68 | `a.csv.gz.done` does not qualify `a.csv.gz`, but `a.done` does. |
| Selection.EmptyArchiveExcluded | internal/fileservice/service/service.go:49 | A zero-size archive is never a candidate. |
| Selection.ListingStep | internal/fileservice/service/service.go:38-45 | Reading one more object appends it to the listed objects, still with no listing error. |
| Selection.StagedStep | internal/fileservice/service/service.go:49-61 | One more object is appended to `filesMetadata` exactly when it passes the staging test, and its stem to `doneFiles` exactly when it is a marker. |
| Selection.Staged | internal/fileservice/service/service.go:49 | The staging test admits every non-empty `.csv.gz` archive, since such a name also ends in `.gz`. |
| Selection.PairedStep | internal/fileservice/service/service.go:66-70 | One more staged object is appended to the result exactly when its `.csv.gz` stem is in `doneFiles`. |
| Selection.GetTimestampFromLatestUploadedFiles | internal/fileservice/service/service.go:76-94 | Fatal exactly when the listing yields an error. Otherwise there is one string per object, in order, each being the object's `Updated.String()`. |
| Watermark.GetFilesToBeProcessed | internal/fileservice/service/service.go:96-121 | The result is the watermark filter of the candidates against the original stamps. The caller's stamp slice is left sorted descending and a permutation of itself. |
| Watermark.FilesToBeProcessedIff | internal/fileservice/service/service.go:107-112 | With stamps present, a candidate is kept iff it is strictly greater than every stamp. The result keeps the candidates' order. |
| Watermark.EmptyDestinationKeepsAll | internal/fileservice/service/service.go:115-118 | With no stamps, the result is the candidate list itself. |
| Watermark.RerunIsNoOp | internal/fileservice/service/service.go:107-112 | When every candidate is at most some stamp (ties included), nothing is returned. |
| Watermark.KeepNewerMembers | internal/fileservice/service/service.go:108-112 | An element is kept iff it occurs in the input and is strictly newer than the watermark. |
| Watermark.KeepNewerSubsequence | internal/fileservice/service/service.go:108-112 | The kept elements are a subsequence of the input. |
| Watermark.Latest | internal/fileservice/service/service.go:107 | The watermark is one of the stamps and no stamp is greater. |
| Watermark.LatestUnique | internal/fileservice/service/service.go:107 | Any stamp that no other stamp exceeds is the watermark. |
| Watermark.SortDescending | internal/fileservice/service/service.go:103-105 | In place: the array ends sorted descending and is a permutation of its old contents. |
| Watermark.IndexOfLatest | internal/fileservice/service/service.go:103-105 | Returns a position in the unsorted suffix whose element no element of the suffix exceeds. |
| Watermark.SelectStep | internal/fileservice/service/service.go:103-105 | Swapping a greatest remaining element into place extends the sorted prefix by one and keeps the multiset. |
| Watermark.SortedHeadIsLatest | internal/fileservice/service/service.go:107 | After the sort, element 0 is the greatest original stamp. |
| GoStrings.LexLessIrreflexive | internal/fileservice/service/service.go:104 | Go's `<` on strings is irreflexive. |
| GoStrings.LexLessAsymmetric | internal/fileservice/service/service.go:104 | It is asymmetric. |
| GoStrings.LexLessTransitive | internal/fileservice/service/service.go:104 | It is transitive. |
| GoStrings.LexLessTotal | internal/fileservice/service/service.go:104 | It is total on distinct strings. |
| GoStrings.LexLess | internal/fileservice/service/service.go:104-109 | Go's `>` on strings, read with the operands swapped: a string is never less than itself, and a proper prefix is less than the longer string. |
| GoStrings.CutSuffix | internal/fileservice/service/service.go:58 | The flag holds iff the suffix is present. If so, stem + suffix is the input; otherwise the input comes back unchanged. |
| GoStrings.HasSuffix | internal/fileservice/service/service.go:49 | A suffix is never longer than the string it ends, and every string ends in the empty suffix. |
| GoStrings.SuffixStem | internal/fileservice/service/service.go:67 | Cutting the suffix yields stem `b` iff the name is `b` + suffix. |
| GoStrings.CutSuffixOfAppend | internal/fileservice/service/service.go:58 | `b` + suffix cuts back to `b`. |
| GoStrings.TrimSpace | internal/fileservice/service/service.go:184-185 | The result is no longer than the input. When non-empty, it begins and ends with a non-space. It is empty iff the input is all white space. |
| GoStrings.TrimSpaceIsSlice | internal/fileservice/service/service.go:184-185 | The result is a contiguous slice of the input with only white space cut on either side. |
| GoStrings.TrimSpaceKeeps | internal/fileservice/service/service.go:188 | A non-empty string with no white space at either end is its own trim. |
| Transform.JoinName | internal/fileservice/service/service.go:188 | The full name is at most the two names plus the separating space, and it neither starts nor ends with white space. |
| GoStrconv.ParseInt64 | internal/fileservice/service/service.go:206 | An accepted phone has an optional sign and then only digits, with at least one digit. Its value is in the int64 range, and its sign follows a leading `-`. |
| GoStrconv.ParseSignedDigits | internal/fileservice/service/service.go:206 | Every optional sign followed by one or more digits, leading zeros included, is accepted exactly when its signed value fits in int64, and then with that value. |
| GoStrconv.ParseFormatRoundTrip | internal/fileservice/service/service.go:206 | The decimal rendering of `n` parses back to `n` exactly when `n` is in the int64 range, and is rejected otherwise. |
| GoStrconv.ParseRejectsNonDigit | internal/fileservice/service/service.go:206 | Any character that is not a digit is rejected, except a leading sign. |
| Transform.DestinationKey | internal/fileservice/service/service.go:148-149 | The key is `dPrefix`, then the 15-character stamp, then `.csv`: it begins with the prefix and ends with `.csv`. |
| Transform.FormatStamp | internal/fileservice/service/service.go:21 | The stamp has the shape of `DateLayout`: 15 characters, digits exactly where the layout has digits, and `-` at index 8. |
| Transform.StampRoundTrip | internal/fileservice/service/service.go:148 | Reading the stamp back gives exactly the calendar fields, so each field is zero-padded to its width. |
| Transform.DestinationKeyStamp | internal/fileservice/service/service.go:148-149 | The 15 characters after the prefix read back as the modification time. |
| Transform.DestinationKeyInjective | internal/fileservice/service/service.go:148-149 | Two files get the same key only when their modification times agree to the second. |
| Transform.DestinationKeyExample | internal/fileservice/service/service.go:148-149 | 2024-03-05 10:00:00 under `out/` gives `out/20240305-100000.csv`. |
| Transform.StampExample | internal/fileservice/service/service.go:21 | 2024-03-05 10:00:00 renders as `20240305-100000`. |
| Transform.HeaderColumns | internal/fileservice/service/service.go:124-126 | The header has 19 names. Each named position holds its column name, and the twelve middle names run from `address` to `subSource`. |
| Transform.TargetRecord | internal/fileservice/service/service.go:189 | The record has 19 fields: phone, full name, first and last name in front, twelve empty fields, then action, category and isBusiness. |
| Transform.MapRow | internal/fileservice/service/service.go:180-203 | Ok iff the row has 5 or 6 columns, and the record then has 19 fields. Any other count is fatal and reports that count. |
| Transform.MapRowColumns | internal/fileservice/service/service.go:180-199 | With `o` leading action columns (0 or 1), each source column lands at its target position. Names are trimmed, full name is the trimmed join, and action is `"A"` or the first column. |
| Transform.FiveColumnsDefaultAction | internal/fileservice/service/service.go:181-199 | A 5-column row and the same row preceded by `"A"` map identically. |
| Transform.KeptIff | internal/fileservice/service/service.go:206-207 | A mapped row is kept iff the phone parses as an int64 and first and last name are not both all white space. |
| Transform.IsValid | internal/fileservice/service/service.go:206-207 | A mapped record is written only when its phone is a non-empty string of digits after an optional sign, and its full name is non-empty. |
| Transform.AllSpaceTrimmed | internal/fileservice/service/service.go:184-185 | A trimmed name is all white space iff the raw name is. |
| Transform.JoinNameEmpty | internal/fileservice/service/service.go:188 | The full name is empty iff both raw names are all white space. |
| Transform.NonNumericPhoneDropped | internal/fileservice/service/service.go:206-207 | A row whose phone is `abc` is dropped. |
| Transform.BlankNameDropped | internal/fileservice/service/service.go:206-207 | A row whose names are blank is dropped. |
| Transform.ExamplePhoneParses | internal/fileservice/service/service.go:206 | `555` parses as 555. |
| Transform.NamedRowKept | internal/fileservice/service/service.go:206-207 | The row `555, Jo, Doe, cat, false` is kept with full name `Jo Doe`. |
| Transform.SourceHeaderRowDropped | internal/fileservice/service/service.go:174 | A source header row maps without error and is dropped, because `phone_number` does not parse. |
| Staging.CsvPipeline.constructor | internal/fileservice/service/service.go:153-154 | All three buffers start empty. |
| Staging.CsvPipeline.Write | internal/fileservice/service/service.go:157 | The encoded record goes into csv.Writer's buffer only. |
| Staging.CsvPipeline.CopyToSink | internal/fileservice/service/service.go:158-160 | `wc` receives all of `buf`, which is left empty. |
| Staging.CsvPipeline.Flush | internal/fileservice/service/service.go:161 | csv.Writer's buffer moves to the end of `buf`. |
| Staging.CsvPipeline.Stage | internal/fileservice/service/service.go:209-213 | Write, Copy, Flush: `wc` receives what `buf` held before, and `buf` now holds this record. |
| Staging.CsvPipeline.StageFlushed | internal/fileservice/service/service.go:209-213 | Write, Flush, Copy: `wc` receives this record and `buf` stays empty. |
| Staging.ProcessCsvFile | internal/fileservice/service/service.go:123-224 | Fatal exactly when some row is a reader error or has a bad column count, and the first such row decides the error. Otherwise the object is named by the destination key and holds the encoded header and kept records except the last one written. |
| Staging.StageRows | internal/fileservice/service/service.go:164-215 | The read loop stops at the first fatal row. If no row is fatal, `wc` holds the header and every kept record except the last, `buf` holds the last (the header when no row was kept), and csv.Writer's buffer is empty. |
| Staging.LagStep | internal/fileservice/service/service.go:209-213 | Staging one more record delivers the one held in `buf` and holds the new one. |
| Staging.DeliveredAllButLast | internal/fileservice/service/service.go:218 | What `wc` holds at Close is every staged record but the last. |
| Staging.DeliveredContent | internal/fileservice/service/service.go:209-218 | With no kept row, `wc` gets nothing, not even the header. Otherwise it gets the header and all kept records but the last, and the missing piece is exactly the last record's encoding. |
| Staging.SingleValidRowIsLost | internal/fileservice/service/service.go:209-213 | A file with one valid 5-column row yields only the header, which is strictly less than the intended output. |
| Staging.KeptRowsStep | internal/fileservice/service/service.go:205-214 | A well-formed row adds nothing to the fatal condition. It is appended to the kept records exactly when it passes validation. |
| Staging.FirstErrorAt | internal/fileservice/service/service.go:169-171 | The first row that raises a fatal condition decides the error of the whole file. |
| Staging.FirstErrorPrefix | internal/fileservice/service/service.go:201-202 | A fatal condition in a prefix is the fatal condition of the whole file. |
| Staging.FlushedStep | internal/fileservice/service/service.go:209-213 | In the corrected order, staging one more record appends exactly its bytes to `wc`. |
| Staging.ProcessCsvFileFlushed | internal/fileservice/service/service.go:123-224 | The corrected order has the same fatal conditions and key, and `wc` receives the header and every kept record in input order. |
| Staging.StageRowsFlushed | internal/fileservice/service/service.go:164-215 | The corrected read loop stops at the first fatal row. If no row is fatal, `wc` holds the header and every kept record, and both buffers are empty. |

## Left out

- The storage client (internal/fileservice/client/store_gcs.go) is not part of this model. Listings are input sequences. The object reader and `wc` are replaced by the row sequence and the `sink` field.
- The orchestration in main.go is not part of this model: configuration, client construction, the ascending sort of candidates by `Updated`, and the calls in sequence.
- `IsCsvCompressed` is only passed to the storage client, so it has no modelled effect. gzip decompression and opening the object reader are left out as library I/O. Their failures are not modelled.
- CSV parsing and quoting from encoding/csv. Rows arrive parsed, and record encoding is the uninterpreted `Staging.Encoder`. For a record whose field count differs from the first record's, csv.Reader returns `ErrFieldCount`, and the service's error check (internal/fileservice/service/service.go:169-171) makes that fatal. The model covers it only as a `Malformed` read outcome, not by counting fields.
- `time.Time`. `Updated.String()` is an opaque string compared by Go's string order. `Format(DateLayout)` is modelled on calendar fields with the year in 0..9999. Years outside that range and invalid dates are not modelled.
- Logging, and csv.Writer's automatic flush when one record overflows its 4096-byte buffer. Every record is assumed to fit, so a Write never reaches `buf` by itself.
- Errors from `io.Copy` and `wc.Close` are not modelled. The model assumes both succeed.
- `FileMetadata.Size` is an `int64` in Go and an unbounded `int` here. Only its sign is ever tested.
- Go compares strings by UTF-8 bytes, and the model compares them by code points. The two orders agree on valid UTF-8. Invalid byte sequences are not modelled.
- Watermark.SortDescending: a selection sort stands in for `sort.Slice`. The contract (sorted descending, a permutation) fixes the result completely, except for the order of equal strings, which are indistinguishable.

## Findings

| source | as written | input that shows it | evidently intended | confidence | as-written member | corrected member |
|---|---|---|---|---|---|---|
| internal/fileservice/service/service.go:157-161 | Each record is written with `writer.Write`, then `io.Copy(wc, buf)`, then `writer.Flush()`. The copy therefore sends the previous record, and the bytes flushed after the last record never reach `wc`. | A file with one valid 5-column row: the destination object holds only the header. With no valid rows it is empty, without even the header. | Flush before `io.Copy`, so that `wc` receives the header and every kept record. | not executed | Staging.SingleValidRowIsLost | Staging.ProcessCsvFileFlushed |
