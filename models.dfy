/** The data carried between the steps of the job (pkg/models/models.go). */
module Models {

  /** A byte of an object's body. */
  newtype byte = x: int | 0 <= x < 256

  /** The calendar fields of a `time.Time`, as `Format` reads them. */
  datatype DateTime = DateTime(year: int, month: int, day: int, hour: int, minute: int, second: int)

  /**
   * An object's last-modified time. `clock` is what `Format(DateLayout)` renders;
   * `text` is the value of `Updated.String()`, which the model treats as an opaque
   * string supplied with the record.
   */
  datatype Timestamp = Timestamp(clock: DateTime, text: string)

  /** One object of a listing: name, size in bytes, last-modified time. */
  datatype FileMetadata = FileMetadata(Name: string, Size: int, Updated: Timestamp)

  /** What one call of the listing iterator's `Next()` yields before `iterator.Done`. */
  datatype ListEntry = Object(attrs: FileMetadata) | ListError

  /** What one call of `csvReader.Read()` yields before `io.EOF`. */
  datatype ReadOutcome = Record(fields: seq<string>) | Malformed

  /** The conditions under which the service calls `log.Fatal`. */
  datatype FatalError =
    | ListingFailed              // the listing iterator returned an error
    | ReadFailed                 // the CSV reader returned an error
    | ColumnCount(columns: nat)  // a row with neither 5 nor 6 columns
}
