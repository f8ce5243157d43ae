/** Values shared by every part of the table model: bytes, the Option and
    Result wrappers, the errors the table code raises, and the typed values
    that a decoded column holds. */
module Common {

  /** One byte of a record, as read from the table file in binary mode. */
  type byte = b: int | 0 <= b < 256

  type Bytes = seq<byte>

  datatype Option<+T> = None | Some(value: T)

  /** The errors the table code raises (ValueError, IOError, KeyError, ...),
      one constructor per distinct condition. */
  datatype Error =
    | NotFixedLength                       // RECORD_TYPE is not FIXED_LENGTH
    | NoTablePointer                       // no ^...TABLE pointer in the label
    | MissingKey(key: string)              // a label or table key is absent
    | NotAscii                             // INTERCHANGE_FORMAT is not ASCII
    | UnsupportedDataType(tag: string)     // unknown column data type
    | DuplicateColumn(name: string)        // two columns share a name
    | NoTableFileName                      // PDS4 label names no table file
    | RowCountMismatch(found: int, expected: int)
    | BadRowDescription                    // the record view does not fit the rows
    | UnknownColumn(name: string)          // a requested column is not in the label
    | RowNotFound                          // single-result lookup found nothing
    | UnknownKey(key: string)              // filename key has no rows
    | NoFileSpecColumn                     // no file-specification column
    | EmptyTable                           // lookup needs a first row
    | NotComparable                        // substring test on a non-string
    | NotIterable                          // a number where a collection is expected
    | NotAPath                             // a path operation on a non-string
    | RowOutOfRange(row: int)              // a row past the decoded records
    | NegativeSeek                         // a row range starting before the file

  datatype Result<+T> = Ok(value: T) | Err(error: Error)

  /** A value held in a decoded column, or given by a caller as a match
      value, replacement or invalid value. Time values are stored as
      FloatV seconds. BytesV only occurs as a caller-supplied key. */
  datatype Value =
    | IntV(i: int)
    | FloatV(r: real)
    | StrV(s: string)
    | BoolV(b: bool)
    | BytesV(bs: Bytes)
  {
    /** Python's numbers (bool, int, float) compare by numeric value. */
    predicate IsNumber() { IntV? || FloatV? || BoolV? }

    function AsReal(): real
      requires IsNumber()
    {
      match this
      case IntV(i) => i as real
      case FloatV(r) => r
      case BoolV(b) => if b then 1.0 else 0.0
    }
  }

  /** Python's == on two values: numbers compare numerically (so 3 == 3.0
      and True == 1), strings and byte strings compare by content, and a
      string never equals a byte string or a number. */
  predicate ValueEq(a: Value, b: Value)
  {
    if a.IsNumber() && b.IsNumber() then a.AsReal() == b.AsReal()
    else if a.StrV? && b.StrV? then a.s == b.s
    else if a.BytesV? && b.BytesV? then a.bs == b.bs
    else false
  }

  /** Python's `v in s` for a set of values: membership up to ==. */
  predicate InValues(v: Value, s: set<Value>)
  {
    exists w | w in s :: ValueEq(v, w)
  }
}
