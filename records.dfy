/** The fixed-width view of a table file (pdstable/__init__.py:245-282).
    The lines read from the file become a numpy byte-string array, which
    pads every line with NUL bytes to the longest one; that array is then
    reinterpreted through the structured dtype of the table's fields, so
    that each column is a fixed slice of each record, and a multi-item
    column is reinterpreted again so that each item is a fixed slice of the
    column. Reading an element of a byte-string array drops its trailing
    NUL bytes. */
module Records {
  import opened Common
  import opened Schema

  const NUL: byte := 0

  /** The length of the longest line; numpy gives an array of empty
      strings an item size of one byte. */
  function LineWidth(lines: seq<Bytes>): (m: nat)
    ensures m >= 1
    ensures forall i :: 0 <= i < |lines| ==> |lines[i]| <= m
    ensures m == 1 || exists i :: 0 <= i < |lines| && |lines[i]| == m
  {
    if |lines| == 0 then 1
    else
      var m := LineWidth(lines[..|lines| - 1]);
      var last := |lines[|lines| - 1]|;
      assert forall i :: 0 <= i < |lines| - 1 ==> lines[..|lines| - 1][i] == lines[i];
      if last > m then last else m
  }

  /** A line as an element of a byte-string array of item size m. */
  function Pad(line: Bytes, m: nat): (r: Bytes)
    requires |line| <= m
    ensures |r| == m && r[..|line|] == line
    ensures forall i :: |line| <= i < m ==> r[i] == NUL
  {
    line + seq(m - |line|, _ => NUL)
  }

  /** The bytes of consecutive array elements laid end to end. */
  function Flatten(ls: seq<Bytes>): Bytes
  {
    if |ls| == 0 then [] else ls[0] + Flatten(ls[1..])
  }

  /** Every line padded to the width of the longest. */
  function PadAll(lines: seq<Bytes>, m: nat): (r: seq<Bytes>)
    requires forall i :: 0 <= i < |lines| ==> |lines[i]| <= m
    ensures |r| == |lines|
    ensures forall i :: 0 <= i < |r| ==> r[i] == Pad(lines[i], m)
  {
    seq(|lines|, i requires 0 <= i < |lines| => Pad(lines[i], m))
  }

  /** Consecutive d-byte records of a byte string whose length is a
      multiple of d. */
  function Chunks(b: Bytes, d: nat): (r: seq<Bytes>)
    requires d > 0
    ensures forall i :: 0 <= i < |r| ==> |r[i]| == d
    decreases |b|
  {
    if |b| < d then [] else [b[..d]] + Chunks(b[d..], d)
  }

  /** The bytes left over after cutting d-byte records off the front:
      empty exactly when the length is a multiple of d. */
  function Leftover(b: Bytes, d: nat): (r: Bytes)
    requires d > 0
    ensures |r| < d && |r| <= |b| && r == b[|b| - |r|..]
    decreases |b|
  {
    if |b| < d then b else Leftover(b[d..], d)
  }

  /** The item size of a structured dtype: the end of its furthest field. */
  function RecordSize(fields: seq<Field>): (d: int)
    ensures forall i :: 0 <= i < |fields| ==> fields[i].offset + fields[i].width <= d
    ensures |fields| == 0 ==> d == 0
    ensures |fields| > 0 ==> exists i :: 0 <= i < |fields| && fields[i].offset + fields[i].width == d
  {
    if |fields| == 0 then 0
    else
      var rest := RecordSize(fields[..|fields| - 1]);
      var f := fields[|fields| - 1];
      assert forall i :: 0 <= i < |fields| - 1 ==> fields[..|fields| - 1][i] == fields[i];
      if |fields| == 1 || f.offset + f.width > rest then f.offset + f.width else rest
  }

  /** numpy accepts the fields of a structured dtype: offsets are not
      negative and every field holds at least one byte. */
  predicate WellFormed(fields: seq<Field>)
  {
    |fields| > 0 && forall i :: 0 <= i < |fields| ==> fields[i].offset >= 0 && fields[i].width >= 1
  }

  /** Assigning the structured dtype to the array of lines: the records of
      RecordSize(fields) bytes that the padded lines are cut into, or an
      error when the dtype is refused or the bytes do not divide into
      whole records. No lines give no records. */
  function Records(lines: seq<Bytes>, fields: seq<Field>): (r: Result<seq<Bytes>>)
    ensures r.Ok? ==> forall k :: 0 <= k < |r.value| ==> |r.value[k]| == RecordSize(fields)
    ensures r.Err? ==> r.error == BadRowDescription
  {
    if !WellFormed(fields) then Err(BadRowDescription)
    else if |lines| == 0 then Ok([])
    else
      var m := LineWidth(lines);
      var d := RecordSize(fields);
      var flat := Flatten(PadAll(lines, m));
      if Leftover(flat, d) == [] then Ok(Chunks(flat, d)) else Err(BadRowDescription)
  }

  /** An element of a byte-string array read back: its trailing NUL bytes
      are gone. */
  function StripNul(b: Bytes): (r: Bytes)
    ensures |r| <= |b| && r == b[..|r|]
    ensures r == [] || r[|r| - 1] != NUL
    ensures forall i :: |r| <= i < |b| ==> b[i] == NUL
  {
    if |b| == 0 || b[|b| - 1] != NUL then b else StripNul(b[..|b| - 1])
  }

  /** A field fits in a record of `size` bytes. */
  predicate FitsIn(f: Field, size: int)
  {
    0 <= f.offset && 0 <= f.width && f.offset + f.width <= size
  }

  /** The raw bytes of field f of a record. */
  function FieldBytes(rec: Bytes, f: Field): (r: Bytes)
    requires FitsIn(f, |rec|)
    ensures |r| == f.width
    ensures forall j :: 0 <= j < f.width ==> r[j] == rec[f.offset + j]
  {
    rec[f.offset..f.offset + f.width]
  }

  /** numpy accepts dtype1 as a view of the column's bytes exactly when
      its item size is the column's width (a field of a record is not
      contiguous, so its item size cannot change). */
  predicate ItemsFit(c: ColumnInfo)
  {
    c.dtype1.Some? ==> WellFormed(c.dtype1.value) && RecordSize(c.dtype1.value) == c.bytes
  }

  /** The raw bytes of item i of a multi-item column. */
  function ItemBytes(rec: Bytes, c: ColumnInfo, i: int): (r: Bytes)
    requires FitsIn(c.dtype0, |rec|) && ItemsFit(c) && c.dtype1.Some?
    requires 0 <= i < |c.dtype1.value| && c.dtype0.width == c.bytes
  {
    FieldBytes(FieldBytes(rec, c.dtype0), c.dtype1.value[i])
  }

  /** Lines that already have the record size are the records. */
  lemma RecordsOfExactLines(lines: seq<Bytes>, fields: seq<Field>)
    requires WellFormed(fields) && |lines| > 0
    requires forall k :: 0 <= k < |lines| ==> |lines[k]| == RecordSize(fields)
    ensures Records(lines, fields) == Ok(lines)
  {
    var d := RecordSize(fields);
    assert fields[0].offset + fields[0].width <= d;
    var m := LineWidth(lines);
    assert |lines[0]| == d <= m;
    if m != 1 {
      var i :| 0 <= i < |lines| && |lines[i]| == m;
    }
    var padded := PadAll(lines, m);
    forall k | 0 <= k < |lines| ensures padded[k] == lines[k] {
      assert Pad(lines[k], m) == lines[k] + [];
    }
    assert padded == lines;
    ChunksOfFlatten(lines, d);
  }

  /** The bytes of records of d bytes each, cut back into d-byte records,
      are those records. */
  lemma {:induction false} ChunksOfFlatten(ls: seq<Bytes>, d: nat)
    requires d > 0 && forall k :: 0 <= k < |ls| ==> |ls[k]| == d
    ensures Chunks(Flatten(ls), d) == ls && Leftover(Flatten(ls), d) == []
  {
    if |ls| > 0 {
      ChunksOfFlatten(ls[1..], d);
      FlattenLength(ls[1..], d);
      var b := Flatten(ls);
      assert b == ls[0] + Flatten(ls[1..]);
      assert b[..d] == ls[0];
      assert b[d..] == Flatten(ls[1..]);
      assert ls == [ls[0]] + ls[1..];
    }
  }

  lemma {:induction false} FlattenLength(ls: seq<Bytes>, d: nat)
    requires forall k :: 0 <= k < |ls| ==> |ls[k]| == d
    ensures |Flatten(ls)| == |ls| * d
  {
    if |ls| > 0 {
      FlattenLength(ls[1..], d);
    }
  }

  /** The last two bytes of a record of RECORD_BYTES bytes are the line
      terminator field ("crlf") every table records. */
  lemma TerminatorIsLastTwoBytes(rec: Bytes, rowBytes: int)
    requires |rec| == rowBytes >= 2
    ensures FitsIn(Terminator(rowBytes), |rec|)
    ensures FieldBytes(rec, Terminator(rowBytes)) == rec[|rec| - 2..]
  {
  }

  /** The field of a column described by START_BYTE and BYTES is the
      record's bytes [START_BYTE-1, START_BYTE-1+BYTES). */
  lemma ColumnField(rec: Bytes, c: ColumnInfo)
    requires c.dtype0 == Field(c.bytes, c.startByte - 1) && FitsIn(c.dtype0, |rec|)
    ensures FieldBytes(rec, c.dtype0) == rec[c.startByte - 1..c.startByte - 1 + c.bytes]
  {
  }

  /** Item i of a multi-item column is the record's bytes starting
      i*ITEM_OFFSET into the column's field, ITEM_BYTES long. */
  lemma ItemWithinRecord(rec: Bytes, c: ColumnInfo, i: int)
    requires FitsIn(c.dtype0, |rec|) && ItemsFit(c) && c.dtype1.Some?
    requires 0 <= i < |c.dtype1.value| && c.dtype0.width == c.bytes
    requires c.dtype1.value[i] == Field(c.itemBytes, i * c.itemOffset)
    ensures 0 <= c.dtype0.offset + i * c.itemOffset
    ensures c.dtype0.offset + i * c.itemOffset + c.itemBytes <= |rec|
    ensures ItemBytes(rec, c, i) == rec[c.dtype0.offset + i * c.itemOffset..c.dtype0.offset + i * c.itemOffset + c.itemBytes]
  {
    var f := c.dtype1.value[i];
    assert f.offset + f.width <= RecordSize(c.dtype1.value);
    assert f.offset >= 0 && f.width >= 1;
  }
}
