/** Reading the table file's lines (pdstable/__init__.py:208-240). A full
    read takes every line and must find exactly the label's ROWS. A read
    of the row range (a, b) seeks to row a, asks the file for lines
    totalling just under (b-a)*RECORD_BYTES bytes, keeps the first b-a of
    them and fails when there are fewer. */
module Rows {
  import opened Common

  /** The lines a binary file's readlines(hint) returns for a positive
      hint: lines are read until their total size exceeds the hint, the
      line that passes it included. */
  function TakeLines(ls: seq<Bytes>, hint: int): (r: seq<Bytes>)
    ensures |r| <= |ls| && r == ls[..|r|]
  {
    if |ls| == 0 then []
    else if |ls[0]| > hint then [ls[0]]
    else [ls[0]] + TakeLines(ls[1..], hint - |ls[0]|)
  }

  /** readlines(hint): every line when the hint is not positive. */
  function ReadLines(ls: seq<Bytes>, hint: int): (r: seq<Bytes>)
    ensures |r| <= |ls| && r == ls[..|r|]
  {
    if hint <= 0 then ls else TakeLines(ls, hint)
  }

  /** The lines after seeking to row a of a file of fixed-length
      records. */
  function Seek(file: seq<Bytes>, a: int): seq<Bytes>
    requires a >= 0
  {
    if a <= |file| then file[a..] else []
  }

  /** lines[:n] for any n, counted from the end when negative. */
  function Truncate(ls: seq<Bytes>, n: int): (r: seq<Bytes>)
    ensures |r| <= |ls| && r == ls[..|r|]
  {
    if n >= 0 then (if |ls| > n then ls[..n] else ls)
    else if |ls| + n > 0 then ls[..|ls| + n] else []
  }

  /** The rows a table reads: (first, rows, lines). Without a row range,
      all lines, which must number ROWS; with the range (a, b), the lines
      of rows a to b-1, which must all be there. */
  function ReadRows(file: seq<Bytes>, rowRange: Option<(int, int)>, labelRows: int, recordBytes: int)
    : (r: Result<(int, int, seq<Bytes>)>)
    ensures rowRange.None? ==>
      (r.Ok? <==> |file| == labelRows) && (r.Ok? ==> r.value == (0, labelRows, file))
    ensures rowRange.Some? && r.Ok? ==>
      var (a, b) := rowRange.value;
      0 <= a <= b && (a == b || b <= |file|) &&
      r.value == (a, b - a, if a == b then [] else file[a..b])
    ensures r.Err? ==> r.error.RowCountMismatch? || r.error == NegativeSeek
  {
    match rowRange
    case None =>
      if |file| != labelRows then Err(RowCountMismatch(|file|, labelRows)) else Ok((0, labelRows, file))
    case Some((a, b)) =>
      if a < 0 then Err(NegativeSeek)
      else
        var rows := b - a;
        var read := ReadLines(Seek(file, a), rows * recordBytes - 1);
        var lines := Truncate(read, rows);
        if |lines| != rows then Err(RowCountMismatch(|lines|, rows))
        else
          assert lines == read[..rows] && read == Seek(file, a)[..|read|];
          assert rows > 0 ==> a < |file| && lines == file[a..b];
          Ok((a, rows, lines))
  }

  /** When every line is one record of RECORD_BYTES bytes, the hint reads
      exactly the requested lines: the total size passes (b-a)*RECORD_BYTES
      - 1 with the (b-a)-th line and not before. */
  lemma {:induction false} TakeFixedLines(ls: seq<Bytes>, n: nat, recordBytes: nat, hint: int)
    requires recordBytes >= 1 && 1 <= n <= |ls|
    requires forall k :: 0 <= k < |ls| ==> |ls[k]| == recordBytes
    requires hint + 1 == n * recordBytes
    ensures TakeLines(ls, hint) == ls[..n]
    decreases n
  {
    if n > 1 {
      assert hint - recordBytes + 1 == (n - 1) * recordBytes;
      assert |ls[0]| <= hint;
      TakeFixedLines(ls[1..], n - 1, recordBytes, hint - recordBytes);
      assert ls[..n] == [ls[0]] + ls[1..][..n - 1];
    }
  }

  /** A row range within a file of fixed-length records reads exactly
      those rows: row 0 of the result is row a of the file. */
  lemma RangeOfFixedRecords(file: seq<Bytes>, a: int, b: int, recordBytes: nat)
    requires 0 <= a <= b <= |file| && recordBytes >= 1
    requires forall k :: 0 <= k < |file| ==> |file[k]| == recordBytes
    ensures ReadRows(file, Some((a, b)), 0, recordBytes) == Ok((a, b - a, file[a..b]))
  {
    var rest := file[a..];
    var rows := b - a;
    if rows > 0 {
      assert forall k :: 0 <= k < |rest| ==> rest[k] == file[a + k];
      assert Seek(file, a) == rest;
      var hint := rows * recordBytes - 1;
      if hint > 0 {
        TakeFixedLines(rest, rows, recordBytes, hint);
      }
      var read := ReadLines(rest, hint);
      assert |read| >= rows;
      assert Truncate(read, rows) == rest[..rows] == file[a..b];
    } else {
      assert rows * recordBytes - 1 == -1;
      assert Truncate(ReadLines(Seek(file, a), -1), 0) == [] == file[a..b];
    }
  }
}
