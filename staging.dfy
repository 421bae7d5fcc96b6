/**
 * `ProcessCsvFile` (internal/fileservice/service/service.go): the read loop
 * that maps and validates each source row and pushes each kept record through
 * csv.Writer's internal buffer, the in-memory `buf` and the destination writer `wc`.
 */
module Staging {
  import opened Wrappers
  import opened Models
  import opened GoStrconv
  import opened Transform

  /** Bytes encoding one CSV record; csv.Writer's quoting rules are not modelled, so the encoder is a parameter. */
  type Encoder = seq<string> -> seq<byte>

  /** The bytes of a sequence of records, one encoded record after another. */
  function Encoded(records: seq<seq<string>>, encode: Encoder): seq<byte>
  {
    if |records| == 0 then [] else Encoded(records[..|records| - 1], encode) + encode(records[|records| - 1])
  }

  /** All elements but the last. */
  function AllButLast<T>(s: seq<T>): seq<T>
  {
    if |s| == 0 then [] else s[..|s| - 1]
  }

  /** The fatal condition a row raises, if any: a reader error or a column count other than 5 or 6. */
  function RowError(row: ReadOutcome): Option<FatalError>
  {
    match row
    case Malformed => Some(ReadFailed)
    case Record(fields) => if |fields| == 5 || |fields| == 6 then None else Some(ColumnCount(|fields|))
  }

  /** The fatal condition of the first row that raises one. */
  function FirstError(rows: seq<ReadOutcome>): Option<FatalError>
  {
    if |rows| == 0 then None
    else if FirstError(rows[..|rows| - 1]).Some? then FirstError(rows[..|rows| - 1])
    else RowError(rows[|rows| - 1])
  }

  /** The mapped records that pass validation, in input order. */
  function KeptRows(rows: seq<ReadOutcome>): seq<seq<string>>
  {
    if |rows| == 0 then []
    else
      var last := rows[|rows| - 1];
      KeptRows(rows[..|rows| - 1]) +
        (if last.Record? && MapRow(last.fields).Ok? && IsValid(MapRow(last.fields).value)
         then [MapRow(last.fields).value] else [])
  }

  /** A destination object: its name and the bytes `wc` received before it was closed. */
  datatype Upload = Upload(key: string, content: seq<byte>)

  /**
   * The three buffers of the write path. `pending` is csv.Writer's internal
   * buffer, `buf` the `bytes.Buffer` it flushes into, `sink` what has been copied
   * into the storage writer `wc`. Every record is assumed to fit csv.Writer's
   * buffer, so a `Write` never reaches `buf` by itself.
   */
  class CsvPipeline {
    const encode: Encoder
    var pending: seq<byte>
    var buf: seq<byte>
    var sink: seq<byte>

    constructor (encode: Encoder)
      ensures this.encode == encode
      ensures pending == [] && buf == [] && sink == []
    {
      this.encode := encode;
      pending, buf, sink := [], [], [];
    }

    /** `writer.Write(record)`: the encoded record goes into csv.Writer's buffer and no further. */
    method Write(record: seq<string>)
      modifies this
      ensures pending == old(pending) + encode(record)
      ensures buf == old(buf) && sink == old(sink)
    {
      pending := pending + encode(record);
    }

    /** `io.Copy(wc, buf)`: everything in `buf` moves to `wc`, leaving `buf` empty. */
    method CopyToSink()
      modifies this
      ensures sink == old(sink) + old(buf)
      ensures buf == [] && pending == old(pending)
    {
      sink := sink + buf;
      buf := [];
    }

    /**
     * The three statements the source runs for the header and for each kept
     * row, in its order: `writer.Write(record)`, `io.Copy(wc, buf)`,
     * `writer.Flush()`. `wc` receives the previous record; this one waits in `buf`.
     */
    method Stage(record: seq<string>)
      requires pending == []
      modifies this
      ensures sink == old(sink) + old(buf)
      ensures buf == encode(record) && pending == []
    {
      Write(record);
      CopyToSink();
      Flush();
    }

    /** The same three steps with Flush before `io.Copy`: the record reaches `wc` at once. */
    method StageFlushed(record: seq<string>)
      requires pending == [] && buf == []
      modifies this
      ensures sink == old(sink) + encode(record)
      ensures buf == [] && pending == []
    {
      Write(record);
      Flush();
      assert buf == encode(record);
      CopyToSink();
    }

    /** `writer.Flush()`: csv.Writer's buffer moves to `buf`. */
    method Flush()
      modifies this
      ensures buf == old(buf) + old(pending)
      ensures pending == [] && sink == old(sink)
    {
      buf := buf + pending;
      pending := [];
    }
  }

  lemma EncodedSnoc(records: seq<seq<string>>, r: seq<string>, encode: Encoder)
    ensures Encoded(records + [r], encode) == Encoded(records, encode) + encode(r)
  {
    assert (records + [r])[..|records|] == records;
  }

  /**
   * What the as-written staging order has delivered to `wc` once `kept` has
   * been staged after the header: nothing while only the header is staged,
   * otherwise the header and every kept record but the last.
   */
  function Delivered(kept: seq<seq<string>>, encode: Encoder): seq<byte>
  {
    if |kept| == 0 then [] else Encoded([Header] + kept[..|kept| - 1], encode)
  }

  /** What it still holds in `buf`: the last record staged. */
  function Held(kept: seq<seq<string>>, encode: Encoder): seq<byte>
  {
    if |kept| == 0 then encode(Header) else encode(kept[|kept| - 1])
  }

  /** Staging one more record moves the previous one from `buf` to `wc`. */
  lemma LagStep(kept: seq<seq<string>>, r: seq<string>, encode: Encoder)
    ensures Delivered(kept + [r], encode) == Delivered(kept, encode) + Held(kept, encode)
    ensures Held(kept + [r], encode) == encode(r)
  {
    assert (kept + [r])[..|kept|] == kept;
    if |kept| == 0 {
      assert [Header] + kept == [] + [Header];
      EncodedSnoc([], Header, encode);
    } else {
      var n := |kept|;
      assert [Header] + kept == ([Header] + kept[..n - 1]) + [kept[n - 1]];
      EncodedSnoc([Header] + kept[..n - 1], kept[n - 1], encode);
    }
  }

  /** The delivered bytes are the encoding of every record staged but the last. */
  lemma DeliveredAllButLast(kept: seq<seq<string>>, encode: Encoder)
    ensures Delivered(kept, encode) == Encoded(AllButLast([Header] + kept), encode)
  {
    if |kept| == 0 {
      assert AllButLast([Header] + kept) == [];
    } else {
      assert AllButLast([Header] + kept) == [Header] + kept[..|kept| - 1];
    }
  }

  /** Staging one more record in the corrected order appends exactly its encoding to `wc`. */
  lemma FlushedStep(kept: seq<seq<string>>, r: seq<string>, encode: Encoder)
    ensures Encoded([Header] + (kept + [r]), encode) == Encoded([Header] + kept, encode) + encode(r)
  {
    assert [Header] + (kept + [r]) == ([Header] + kept) + [r];
    EncodedSnoc([Header] + kept, r, encode);
  }

  /** Once some prefix of the rows raises a fatal condition, that condition is the first one of all the rows. */
  lemma {:induction false} FirstErrorPrefix(rows: seq<ReadOutcome>, k: nat)
    requires k <= |rows| && FirstError(rows[..k]).Some?
    ensures FirstError(rows) == FirstError(rows[..k])
    decreases |rows| - k
  {
    if k < |rows| {
      assert rows[..k + 1][..k] == rows[..k];
      FirstErrorPrefix(rows, k + 1);
    } else {
      assert rows[..k] == rows;
    }
  }

  /** The first row that raises a fatal condition decides the error. */
  lemma FirstErrorAt(rows: seq<ReadOutcome>, i: nat)
    requires i < |rows| && FirstError(rows[..i]).None? && RowError(rows[i]).Some?
    ensures FirstError(rows) == RowError(rows[i])
  {
    assert rows[..i + 1][..i] == rows[..i];
    FirstErrorPrefix(rows, i + 1);
  }

  /** One more well-formed row: the row is appended to the kept rows exactly when it passes validation. */
  lemma KeptRowsStep(rows: seq<ReadOutcome>, i: nat)
    requires i < |rows| && rows[i].Record? && MapRow(rows[i].fields).Ok?
    ensures FirstError(rows[..i + 1]) == FirstError(rows[..i])
    ensures IsValid(MapRow(rows[i].fields).value) ==>
      KeptRows(rows[..i + 1]) == KeptRows(rows[..i]) + [MapRow(rows[i].fields).value]
    ensures !IsValid(MapRow(rows[i].fields).value) ==> KeptRows(rows[..i + 1]) == KeptRows(rows[..i])
  {
    assert rows[..i + 1][..i] == rows[..i];
  }

  /**
   * `ProcessCsvFile` as written: header and kept rows each go Write, then
   * `io.Copy(wc, buf)`, then Flush. So `wc` always lags one record behind, and
   * when `wc` is closed it holds every record written except the last. A reader
   * error or a row with the wrong column count is fatal and nothing is uploaded.
   */
  method ProcessCsvFile(dPrefix: string, f: FileMetadata, rows: seq<ReadOutcome>, encode: Encoder)
    returns (r: Result<Upload, FatalError>)
    requires InLayoutRange(f.Updated.clock)
    ensures r.Ok? <==> FirstError(rows).None?
    ensures r.Fatal? ==> r.error == FirstError(rows).value
    ensures r.Ok? ==> r.value.key == DestinationKey(dPrefix, f.Updated)
    ensures r.Ok? ==> r.value.content == Encoded(AllButLast([Header] + KeptRows(rows)), encode)
  {
    var key := DestinationKey(dPrefix, f.Updated);
    var writer := new CsvPipeline(encode);

    writer.Stage(Header);

    var failure := StageRows(writer, rows);
    if failure.Some? {
      return Fatal(failure.value);
    }
    DeliveredAllButLast(KeptRows(rows), encode);
    return Ok(Upload(key, writer.sink));
  }

  /**
   * The read loop of `ProcessCsvFile` as written, after the header has been
   * staged: each row is read, mapped and validated, and each kept record is
   * staged. It stops at the first row that raises a fatal condition.
   */
  method StageRows(writer: CsvPipeline, rows: seq<ReadOutcome>) returns (failure: Option<FatalError>)
    requires writer.pending == [] && writer.buf == writer.encode(Header) && writer.sink == []
    modifies writer
    ensures failure == FirstError(rows)
    ensures failure.None? ==> writer.sink == Delivered(KeptRows(rows), writer.encode)
    ensures failure.None? ==> writer.pending == [] && writer.buf == Held(KeptRows(rows), writer.encode)
  {
    ghost var kept: seq<seq<string>> := [];
    var i := 0;
    while i < |rows|
      invariant 0 <= i <= |rows|
      invariant FirstError(rows[..i]).None?
      invariant kept == KeptRows(rows[..i])
      invariant writer.pending == []
      invariant writer.buf == Held(kept, writer.encode)
      invariant writer.sink == Delivered(kept, writer.encode)
    {
      if rows[i].Malformed? {
        FirstErrorAt(rows, i);
        return Some(ReadFailed);
      }
      var mapped := MapRow(rows[i].fields);
      if mapped.Fatal? {
        FirstErrorAt(rows, i);
        return Some(mapped.error);
      }
      var data := mapped.value;
      KeptRowsStep(rows, i);
      if IsValid(data) {
        writer.Stage(data);
        LagStep(kept, data, writer.encode);
        kept := kept + [data];
      }
      i := i + 1;
    }
    assert rows[..i] == rows;
    return None;
  }

  /**
   * What `wc` holds when it is closed: nothing at all when no row was kept (not
   * even the header), otherwise the header followed by every kept record except
   * the last.
   */
  lemma DeliveredContent(kept: seq<seq<string>>, encode: Encoder)
    ensures Encoded(AllButLast([Header] + kept), encode) ==
      if kept == [] then [] else encode(Header) + Encoded(kept[..|kept| - 1], encode)
    ensures var w := [Header] + kept;
      Encoded(AllButLast(w), encode) + encode(w[|w| - 1]) == Encoded(w, encode)
  {
    if kept != [] {
      var w := ([Header] + kept)[..|kept|];
      assert w == [Header] + kept[..|kept| - 1];
      EncodedPrepend(Header, kept[..|kept| - 1], encode);
    }
  }

  lemma {:induction false} EncodedPrepend(r: seq<string>, records: seq<seq<string>>, encode: Encoder)
    ensures Encoded([r] + records, encode) == encode(r) + Encoded(records, encode)
  {
    if records != [] {
      var init := records[..|records| - 1];
      assert ([r] + records)[..|records|] == [r] + init;
      EncodedPrepend(r, init, encode);
    } else {
      assert [r][..0] == [];
    }
  }

  /**
   * The discrepancy on one input: a file with a single valid row yields a
   * destination object holding only the header, without the row.
   */
  lemma SingleValidRowIsLost(row: seq<string>, encode: Encoder)
    requires |row| == 5 && IsValid(MapRow(row).value)
    requires |encode(MapRow(row).value)| > 0
    ensures KeptRows([Record(row)]) == [MapRow(row).value]
    ensures Encoded(AllButLast([Header] + KeptRows([Record(row)])), encode) == encode(Header)
    ensures |Encoded([Header] + KeptRows([Record(row)]), encode)| > |encode(Header)|
  {
    var kept := KeptRows([Record(row)]);
    assert [Record(row)][..0] == [];
    DeliveredContent(kept, encode);
    assert kept[..0] == [];
    EncodedPrepend(Header, kept, encode);
    EncodedSnoc([], kept[0], encode);
  }

  /**
   * The evidently intended staging order, Write then Flush then `io.Copy`: `wc`
   * receives the header and every kept record, in input order.
   */
  method ProcessCsvFileFlushed(dPrefix: string, f: FileMetadata, rows: seq<ReadOutcome>, encode: Encoder)
    returns (r: Result<Upload, FatalError>)
    requires InLayoutRange(f.Updated.clock)
    ensures r.Ok? <==> FirstError(rows).None?
    ensures r.Fatal? ==> r.error == FirstError(rows).value
    ensures r.Ok? ==> r.value.key == DestinationKey(dPrefix, f.Updated)
    ensures r.Ok? ==> r.value.content == Encoded([Header] + KeptRows(rows), encode)
  {
    var key := DestinationKey(dPrefix, f.Updated);
    var writer := new CsvPipeline(encode);

    writer.StageFlushed(Header);

    var failure := StageRowsFlushed(writer, rows);
    if failure.Some? {
      return Fatal(failure.value);
    }
    return Ok(Upload(key, writer.sink));
  }

  /** The read loop with the corrected staging order: `wc` holds the header and every record kept so far. */
  method StageRowsFlushed(writer: CsvPipeline, rows: seq<ReadOutcome>) returns (failure: Option<FatalError>)
    requires writer.pending == [] && writer.buf == [] && writer.sink == writer.encode(Header)
    modifies writer
    ensures failure == FirstError(rows)
    ensures failure.None? ==> writer.sink == Encoded([Header] + KeptRows(rows), writer.encode)
    ensures failure.None? ==> writer.pending == [] && writer.buf == []
  {
    ghost var kept: seq<seq<string>> := [];
    assert writer.sink == Encoded([Header] + kept, writer.encode) by {
      assert [Header] + kept == [] + [Header];
      EncodedSnoc([], Header, writer.encode);
    }
    var i := 0;
    while i < |rows|
      invariant 0 <= i <= |rows|
      invariant FirstError(rows[..i]).None?
      invariant writer.pending == [] && writer.buf == []
      invariant kept == KeptRows(rows[..i])
      invariant writer.sink == Encoded([Header] + kept, writer.encode)
    {
      if rows[i].Malformed? {
        FirstErrorAt(rows, i);
        return Some(ReadFailed);
      }
      var mapped := MapRow(rows[i].fields);
      if mapped.Fatal? {
        FirstErrorAt(rows, i);
        return Some(mapped.error);
      }
      var data := mapped.value;
      KeptRowsStep(rows, i);
      if IsValid(data) {
        writer.StageFlushed(data);
        FlushedStep(kept, data, writer.encode);
        kept := kept + [data];
      }
      i := i + 1;
    }
    assert rows[..i] == rows;
    return None;
  }
}
