/** The column decode pipeline of PdsTable (pdstable/__init__.py:291-471).
    Each item of a column is an array holding one byte string per row.
    For each array, in order:
      - the column's callback rewrites each row's text;
      - the string-to-string replacements are applied;
      - string columns (and time columns not asked for as times) are
        stripped unless the column is in `nostrip`;
      - other columns are converted all at once. When any row refuses the
        conversion, every row is converted on its own instead: a row that
        fails keeps its (stripped) text, is masked and is counted, and the
        first such text is kept as the example;
      - rows whose value is an invalid value, or a number outside the valid
        range, are masked.
    The items of a multi-item column are then put back together row by row,
    and one warning per column reports the rows that failed.
    Float and time parsing are parameters of the model (Converters). */
module Decode {
  import opened Common
  import opened Text
  import opened Utils
  import opened Schema

  /** Bytes read as Latin-1 text. */
  function Latin1(b: Bytes): (t: string)
    ensures |t| == |b|
    ensures forall i :: 0 <= i < |b| ==> t[i] as int == b[i]
  {
    seq(|b|, i requires 0 <= i < |b| => b[i] as char)
  }

  /** The conversions that live outside this code: float(), the time
      library's tai_from_iso and numpy's reading of booleans. */
  datatype Converters = Converters(
    parseFloat: string -> Option<real>,
    parseTime: string -> Option<real>,
    parseBool: string -> Option<bool>)

  /** The caller's options and the column's schema, as they apply to one
      column: its type, whether it is one of the `times` columns, whether
      it is stripped, its callback, its replacement pairs in dictionary
      order, its invalid values, its valid range and the byte width of
      its item field (the width of the 'S' arrays the column is cut into). */
  datatype Options = Options(
    kind: Kind,
    asTime: bool,
    strip: bool,
    callback: Option<string -> string>,
    replacements: seq<(Value, Value)>,
    invalid: set<Value>,
    validRange: Option<Range>,
    width: int)

  /** The column is kept as text: a string column, or a time column that
      was not asked for as times. */
  predicate TextColumn(opt: Options)
  {
    opt.kind.StringK? || (opt.kind.TimeK? && !opt.asTime)
  }

  predicate IsText(v: Value)
  {
    v.StrV? || v.BytesV?
  }

  /** A string or byte string as the text the table compares it with. */
  function TextOf(v: Value): string
    requires IsText(v)
  {
    if v.StrV? then v.s else Latin1(v.bs)
  }

  /** A replacement pair of two strings, which applies to the raw text. */
  predicate TextPair(p: (Value, Value))
  {
    IsText(p.0) && IsText(p.1)
  }

  /** A text stored into an 'S' array `width` bytes wide: numpy cuts it
      to the width. */
  function Fit(s: string, width: int): (r: string)
    ensures |r| <= |s| && r == s[..|r|]
    ensures width >= |s| ==> r == s
    ensures 0 <= width < |s| ==> |r| == width
  {
    if 0 <= width < |s| then s[..width] else s
  }

  /** The text pairs of the replacement dictionary, applied one after the
      other to an array `width` bytes wide: a row equal to a pair's key
      takes that pair's value, cut to the width. */
  function ReplaceText(t: string, pairs: seq<(Value, Value)>, width: int): (r: string)
    decreases |pairs|
    ensures r == t || exists k :: 0 <= k < |pairs| && TextPair(pairs[k]) && r == Fit(TextOf(pairs[k].1), width)
  {
    if |pairs| == 0 then t
    else
      var p := pairs[0];
      var t' := if TextPair(p) && TextOf(p.0) == t then Fit(TextOf(p.1), width) else t;
      var r := ReplaceText(t', pairs[1..], width);
      assert r != t' ==> exists k :: 1 <= k < |pairs| && TextPair(pairs[k]) && r == Fit(TextOf(pairs[k].1), width);
      r
  }

  /** A row that fits the array still fits it after the replacements. */
  lemma {:induction false} ReplaceTextFits(t: string, pairs: seq<(Value, Value)>, width: int)
    requires 0 <= width && |t| <= width
    ensures |ReplaceText(t, pairs, width)| <= width
    decreases |pairs|
  {
    if |pairs| > 0 {
      var p := pairs[0];
      var t' := if TextPair(p) && TextOf(p.0) == t then Fit(TextOf(p.1), width) else t;
      ReplaceTextFits(t', pairs[1..], width);
    }
  }

  /** A replacement longer than the array is cut: with a 3-byte field,
      "N/A" replaced by "-999" becomes "-99". */
  lemma ReplacementCut(before: string, after: string, width: int)
    requires 0 <= width < |after|
    ensures ReplaceText(before, [(StrV(before), StrV(after))], width) == after[..width]
  {
    var pairs := [(StrV(before), StrV(after))];
    assert pairs[1..] == [];
  }

  /** The row texts of an item array after the callback. */
  function Called(cells: seq<Bytes>, opt: Options): (called: seq<string>)
    ensures |called| == |cells|
  {
    seq(|cells|, k requires 0 <= k < |cells| =>
      if opt.callback.Some? then opt.callback.value(Latin1(cells[k])) else Latin1(cells[k]))
  }

  /** The length of the longest text, and at least 1: the width numpy gives
      an array made of those texts. */
  function MaxLength(ts: seq<string>): (m: int)
    ensures m >= 1 && forall k :: 0 <= k < |ts| ==> |ts[k]| <= m
    ensures m == 1 || exists k :: 0 <= k < |ts| && |ts[k]| == m
  {
    if |ts| == 0 then 1
    else
      var m := MaxLength(ts[..|ts| - 1]);
      assert forall k :: 0 <= k < |ts| - 1 ==> ts[k] == ts[..|ts| - 1][k];
      if |ts[|ts| - 1]| > m then |ts[|ts| - 1]| else m
  }

  /** The width of the array the text replacements write into: the item
      field's width, or, after a callback, the longest of its results. */
  function ArrayWidth(cells: seq<Bytes>, opt: Options): int
  {
    if opt.callback.Some? then MaxLength(Called(cells, opt)) else opt.width
  }

  /** A row's text as the column keeps it when it stays text. */
  function Kept(t: string, opt: Options): string
  {
    if opt.strip then Strip(t) else t
  }

  /** The column's scalar_func applied to one row: int(text) or
      int_from_base2/8/16 for integers, float() for reals, tai_from_iso for
      times. Booleans have no scalar function, so every row fails. */
  function ScalarConvert(t: string, kind: Kind, conv: Converters): Option<Value>
  {
    match kind
    case IntK(b) =>
      if 2 <= b <= 36 then
        (match ParseInt(t, b) case Some(i) => Some(IntV(i)) case None => None)
      else None
    case FloatK =>
      (match conv.parseFloat(t) case Some(x) => Some(FloatV(x)) case None => None)
    case TimeK =>
      (match conv.parseTime(t) case Some(x) => Some(FloatV(x)) case None => None)
    case BoolK => None
    case StringK => None
  }

  /** The whole-array conversion (astype(dtype2), then tai_from_iso for
      times) on one row, as the table code does it: an integer column is
      read as a decimal integer whatever radix its type declares. */
  function BulkConvertAsWritten(t: string, kind: Kind, conv: Converters): Option<Value>
  {
    match kind
    case IntK(_) =>
      (match IntFromDecimal(t) case Some(i) => Some(IntV(i)) case None => None)
    case BoolK =>
      (match conv.parseBool(t) case Some(b) => Some(BoolV(b)) case None => None)
    case _ => ScalarConvert(t, kind, conv)
  }

  /** The whole-array conversion as evidently intended: an integer column
      is read in the radix its type declares, like its scalar function. */
  function BulkConvert(t: string, kind: Kind, conv: Converters): Option<Value>
  {
    match kind
    case IntK(b) =>
      if 2 <= b <= 36 then
        (match ParseInt(t, b) case Some(i) => Some(IntV(i)) case None => None)
      else None
    case BoolK =>
      (match conv.parseBool(t) case Some(b) => Some(BoolV(b)) case None => None)
    case _ => ScalarConvert(t, kind, conv)
  }

  /** The typed replacement pairs applied one after the other to a
      converted array: a value equal to a pair's key takes its value. */
  function ReplaceTyped(v: Value, pairs: seq<(Value, Value)>): Value
    decreases |pairs|
  {
    if |pairs| == 0 then v
    else ReplaceTyped(if ValueEq(v, pairs[0].0) then pairs[0].1 else v, pairs[1..])
  }

  /** repdict.get(v, v): the value of the pair whose key equals v. */
  function Lookup(v: Value, pairs: seq<(Value, Value)>): (r: Value)
    ensures r == v || exists k :: 0 <= k < |pairs| && ValueEq(v, pairs[k].0) && r == pairs[k].1
  {
    if |pairs| == 0 then v
    else if ValueEq(v, pairs[0].0) then pairs[0].1
    else
      var r := Lookup(v, pairs[1..]);
      assert r != v ==> ValueEq(v, pairs[1..][0].0) || exists k :: 1 <= k < |pairs| && ValueEq(v, pairs[k].0) && r == pairs[k].1;
      r
  }

  /** A number below the low end or above the high end of the valid
      range (both ends are valid). */
  predicate OutOfRange(v: Value, range: Option<Range>)
  {
    range.Some? && v.IsNumber() && (v.AsReal() < range.value.lo || v.AsReal() > range.value.hi)
  }

  /** The decoded values of one item array, its mask, the number of rows
      that failed to convert and the first of them. */
  datatype ItemResult = ItemResult(values: seq<Value>, mask: seq<bool>, failures: nat, example: Option<string>)

  /** One row of the row-by-row conversion. */
  datatype RowOutcome = Converted(v: Value) | Failed(text: string)

  function FallbackRow(t: string, opt: Options, conv: Converters): RowOutcome
  {
    match ScalarConvert(t, opt.kind, conv)
    case Some(v) => Converted(Lookup(v, opt.replacements))
    case None => Failed(Kept(t, opt))
  }

  predicate RowFails(t: string, opt: Options, conv: Converters)
  {
    ScalarConvert(t, opt.kind, conv).None?
  }

  function OutcomeValue(o: RowOutcome): Value
  {
    if o.Converted? then o.v else StrV(o.text)
  }

  /** A failed row is masked; any row whose value is invalid is masked; a
      converted row outside the valid range is masked. */
  predicate OutcomeMasked(o: RowOutcome, opt: Options)
  {
    o.Failed? || InValues(OutcomeValue(o), opt.invalid) || (o.Converted? && OutOfRange(o.v, opt.validRange))
  }

  /** The row-by-row conversion of the texts, row after row. */
  function Fallback(ts: seq<string>, opt: Options, conv: Converters): (r: ItemResult)
    ensures |r.values| == |ts| && |r.mask| == |ts|
  {
    if |ts| == 0 then ItemResult([], [], 0, None)
    else
      var prev := Fallback(ts[..|ts| - 1], opt, conv);
      var o := FallbackRow(ts[|ts| - 1], opt, conv);
      ItemResult(prev.values + [OutcomeValue(o)], prev.mask + [OutcomeMasked(o, opt)],
                 if o.Failed? then prev.failures + 1 else prev.failures,
                 if prev.example.None? && o.Failed? then Some(o.text) else prev.example)
  }

  /** Every row converts in the whole-array conversion. */
  predicate AllBulk(ts: seq<string>, kind: Kind, conv: Converters)
  {
    forall k :: 0 <= k < |ts| ==> BulkConvert(ts[k], kind, conv).Some?
  }

  /** The value of a row after the whole-array conversion: the typed
      replacements apply, except to times. */
  function BulkValue(t: string, opt: Options, conv: Converters): Value
    requires BulkConvert(t, opt.kind, conv).Some?
  {
    var v := BulkConvert(t, opt.kind, conv).value;
    if opt.kind.TimeK? then v else ReplaceTyped(v, opt.replacements)
  }

  /** The array mask: an invalid value or a number out of range. */
  predicate ValueMasked(v: Value, opt: Options)
  {
    InValues(v, opt.invalid) || OutOfRange(v, opt.validRange)
  }

  function Bulk(ts: seq<string>, opt: Options, conv: Converters): (r: ItemResult)
    requires AllBulk(ts, opt.kind, conv)
  {
    var values := seq(|ts|, k requires 0 <= k < |ts| => BulkValue(ts[k], opt, conv));
    ItemResult(values, seq(|ts|, k requires 0 <= k < |ts| => ValueMasked(values[k], opt)), 0, None)
  }

  /** A text column: the (stripped) texts, masked where invalid. A valid
      range is numeric and does not apply to text. */
  function TextItem(ts: seq<string>, opt: Options): (r: ItemResult)
  {
    var values := seq(|ts|, k requires 0 <= k < |ts| => StrV(Kept(ts[k], opt)));
    ItemResult(values, seq(|ts|, k requires 0 <= k < |ts| => InValues(values[k], opt.invalid)), 0, None)
  }

  /** The text of each row once the callback and the text replacements
      have been applied. */
  function Prepared(cells: seq<Bytes>, opt: Options): (ts: seq<string>)
    ensures |ts| == |cells|
  {
    var called := Called(cells, opt);
    var width := ArrayWidth(cells, opt);
    seq(|cells|, k requires 0 <= k < |cells| => ReplaceText(called[k], opt.replacements, width))
  }

  /** What one item array decodes to. */
  function DecodedItem(cells: seq<Bytes>, opt: Options, conv: Converters): (r: ItemResult)
    ensures |r.values| == |cells| && |r.mask| == |cells|
  {
    var ts := Prepared(cells, opt);
    if TextColumn(opt) then TextItem(ts, opt)
    else if AllBulk(ts, opt.kind, conv) then Bulk(ts, opt, conv)
    else Fallback(ts, opt, conv)
  }

  /** Row k of an item array failed to convert: the whole-array
      conversion was refused and the row's own conversion failed too. */
  predicate RowFailed(cells: seq<Bytes>, opt: Options, conv: Converters, k: int)
    requires 0 <= k < |cells|
  {
    var ts := Prepared(cells, opt);
    !TextColumn(opt) && !AllBulk(ts, opt.kind, conv) && RowFails(ts[k], opt, conv)
  }

  /** Decode one item array: apply the callback row by row, the text
      replacements, then keep the texts, convert the whole array, or
      convert row by row counting the failures. */
  method DecodeItem(cells: seq<Bytes>, opt: Options, conv: Converters) returns (res: ItemResult)
    ensures res == DecodedItem(cells, opt, conv)
  {
    var called: seq<string> := [];
    var k := 0;
    while k < |cells|
      invariant 0 <= k <= |cells| && called == Called(cells, opt)[..k]
    {
      var t := Latin1(cells[k]);
      if opt.callback.Some? {
        t := opt.callback.value(t);
      }
      called := called + [t];
      k := k + 1;
    }
    assert called == Called(cells, opt);
    var width := if opt.callback.Some? then MaxLength(called) else opt.width;
    var ts := seq(|called|, j requires 0 <= j < |called| => ReplaceText(called[j], opt.replacements, width));
    assert ts == Prepared(cells, opt);
    if TextColumn(opt) {
      return TextItem(ts, opt);
    }
    if AllBulk(ts, opt.kind, conv) {
      return Bulk(ts, opt, conv);
    }
    res := FallbackLoop(ts, opt, conv);
  }

  /** The row-by-row conversion (the `except` branch). */
  method FallbackLoop(ts: seq<string>, opt: Options, conv: Converters) returns (res: ItemResult)
    ensures res == Fallback(ts, opt, conv)
  {
    var values: seq<Value> := [];
    var mask: seq<bool> := [];
    var errorCount := 0;
    var errorExample: Option<string> := None;
    var k := 0;
    while k < |ts|
      invariant 0 <= k <= |ts|
      invariant ItemResult(values, mask, errorCount, errorExample) == Fallback(ts[..k], opt, conv)
    {
      var item: Value;
      var failed := false;
      match ScalarConvert(ts[k], opt.kind, conv) {
        case Some(v) =>
          item := Lookup(v, opt.replacements);
        case None =>
          failed := true;
          errorCount := errorCount + 1;
          var text := if opt.strip then Strip(ts[k]) else ts[k];
          item := StrV(text);
          if errorExample.None? {
            errorExample := Some(text);
          }
      }
      var invalid := failed || InValues(item, opt.invalid);
      if !failed && opt.validRange.Some? {
        invalid := invalid || OutOfRange(item, opt.validRange);
      }
      values := values + [item];
      mask := mask + [invalid];
      assert ts[..k + 1][..k] == ts[..k];
      k := k + 1;
    }
    assert ts[..k] == ts;
    res := ItemResult(values, mask, errorCount, errorExample);
  }

  /** Row k of the row-by-row conversion holds the row's converted (and
      replaced) value, or its kept text when it failed, and is masked as
      OutcomeMasked says. */
  lemma {:induction false} FallbackRows(ts: seq<string>, opt: Options, conv: Converters, k: int)
    requires 0 <= k < |ts|
    ensures Fallback(ts, opt, conv).values[k] == OutcomeValue(FallbackRow(ts[k], opt, conv))
    ensures Fallback(ts, opt, conv).mask[k] == OutcomeMasked(FallbackRow(ts[k], opt, conv), opt)
  {
    if k < |ts| - 1 {
      FallbackRows(ts[..|ts| - 1], opt, conv, k);
      assert ts[..|ts| - 1][k] == ts[k];
    }
  }

  /** The rows of ts whose own conversion fails. */
  function FailingRows(ts: seq<string>, opt: Options, conv: Converters): set<int>
  {
    set k | 0 <= k < |ts| && RowFails(ts[k], opt, conv)
  }

  /** Row k is the first row whose conversion fails. */
  predicate FirstFailure(ts: seq<string>, opt: Options, conv: Converters, k: int)
  {
    0 <= k < |ts| && RowFails(ts[k], opt, conv) &&
    forall j :: 0 <= j < k ==> !RowFails(ts[j], opt, conv)
  }

  /** The last row of the row-by-row conversion adds one failure when
      its conversion fails, and supplies the example when none came
      before. */
  lemma FallbackLast(ts: seq<string>, opt: Options, conv: Converters)
    requires |ts| > 0
    ensures var prev := Fallback(ts[..|ts| - 1], opt, conv);
      var fails := RowFails(ts[|ts| - 1], opt, conv);
      Fallback(ts, opt, conv).failures == (if fails then prev.failures + 1 else prev.failures) &&
      Fallback(ts, opt, conv).example ==
        (if prev.example.None? && fails then Some(Kept(ts[|ts| - 1], opt)) else prev.example)
  {
  }

  /** error_count is the number of rows that fail. */
  lemma {:induction false} FallbackCount(ts: seq<string>, opt: Options, conv: Converters)
    ensures Fallback(ts, opt, conv).failures == |FailingRows(ts, opt, conv)|
  {
    if |ts| > 0 {
      var n := |ts| - 1;
      var prefix := ts[..n];
      FallbackCount(prefix, opt, conv);
      FallbackLast(ts, opt, conv);
      FailingRowsLast(ts, opt, conv);
    }
  }

  /** The failing rows of ts are those of its prefix, plus the last row
      when it fails. */
  lemma FailingRowsLast(ts: seq<string>, opt: Options, conv: Converters)
    requires |ts| > 0
    ensures var n := |ts| - 1;
      |FailingRows(ts, opt, conv)| ==
        |FailingRows(ts[..n], opt, conv)| + (if RowFails(ts[n], opt, conv) then 1 else 0)
  {
    var n := |ts| - 1;
    var before := FailingRows(ts[..n], opt, conv);
    var after := FailingRows(ts, opt, conv);
    var last: set<int> := if RowFails(ts[n], opt, conv) then {n} else {};
    forall k
      ensures k in after <==> k in before + last
    {
      if 0 <= k < n {
        assert ts[..n][k] == ts[k];
      }
    }
    assert after == before + last;
    assert n !in before;
  }

  /** No row fails exactly when error_count is zero. */
  lemma FallbackClean(ts: seq<string>, opt: Options, conv: Converters)
    ensures Fallback(ts, opt, conv).failures == 0 <==> forall k :: 0 <= k < |ts| ==> !RowFails(ts[k], opt, conv)
  {
    FallbackCount(ts, opt, conv);
    var failing := FailingRows(ts, opt, conv);
    if failing == {} {
      forall k | 0 <= k < |ts|
        ensures !RowFails(ts[k], opt, conv)
      {
        assert k !in failing;
      }
    } else {
      var k :| k in failing;
      assert 0 <= k < |ts| && RowFails(ts[k], opt, conv);
    }
  }

  /** error_example is the kept text of the first failing row, and there
      is one exactly when some row fails. */
  lemma {:induction false} FallbackExample(ts: seq<string>, opt: Options, conv: Converters)
    ensures Fallback(ts, opt, conv).example.None? <==> Fallback(ts, opt, conv).failures == 0
    ensures Fallback(ts, opt, conv).example.Some? ==>
      exists k :: FirstFailure(ts, opt, conv, k) && Fallback(ts, opt, conv).example.value == Kept(ts[k], opt)
  {
    if |ts| > 0 {
      var n := |ts| - 1;
      var prefix := ts[..n];
      FallbackExample(prefix, opt, conv);
      FallbackClean(prefix, opt, conv);
      FallbackLast(ts, opt, conv);
      assert forall k :: 0 <= k < n ==> prefix[k] == ts[k];
      var prev := Fallback(prefix, opt, conv);
      var r := Fallback(ts, opt, conv);
      if prev.example.Some? {
        var k :| FirstFailure(prefix, opt, conv, k) && prev.example.value == Kept(prefix[k], opt);
        assert FirstFailure(ts, opt, conv, k) && r.example.value == Kept(ts[k], opt);
      } else if RowFails(ts[n], opt, conv) {
        assert FirstFailure(ts, opt, conv, n) && r.example.value == Kept(ts[n], opt);
      }
    }
  }

  /** No two replacement pairs chain: no pair's value equals any key. */
  predicate Settled(pairs: seq<(Value, Value)>)
  {
    forall i, j :: 0 <= i < |pairs| && 0 <= j < |pairs| ==> !ValueEq(pairs[i].1, pairs[j].0)
  }

  /** A value equal to no key is left alone by both kinds of replacement. */
  lemma {:induction false} NoKeyUnchanged(v: Value, pairs: seq<(Value, Value)>)
    requires forall j :: 0 <= j < |pairs| ==> !ValueEq(v, pairs[j].0)
    ensures ReplaceTyped(v, pairs) == v && Lookup(v, pairs) == v
    decreases |pairs|
  {
    if |pairs| > 0 {
      NoKeyUnchanged(v, pairs[1..]);
    }
  }

  /** With settled pairs, replacing pair after pair is one dictionary
      lookup. */
  lemma {:induction false} ReplaceTypedIsLookup(v: Value, pairs: seq<(Value, Value)>)
    requires Settled(pairs)
    ensures ReplaceTyped(v, pairs) == Lookup(v, pairs)
    decreases |pairs|
  {
    if |pairs| > 0 {
      var rest := pairs[1..];
      assert forall j :: 0 <= j < |rest| ==> rest[j] == pairs[j + 1];
      if ValueEq(v, pairs[0].0) {
        NoKeyUnchanged(pairs[0].1, rest);
      } else {
        ReplaceTypedIsLookup(v, rest);
      }
    }
  }

  /** Without the radix defect, the whole-array conversion of a number
      column agrees with its scalar function row by row. */
  lemma BulkAgreesWithScalar(t: string, kind: Kind, conv: Converters)
    requires !kind.BoolK?
    ensures BulkConvert(t, kind, conv) == ScalarConvert(t, kind, conv)
  {
  }

  /** A number or time column whose replacement pairs the whole-array
      path and the row-by-row path apply alike. */
  predicate ReplacedAlike(opt: Options)
  {
    !TextColumn(opt) && !opt.kind.BoolK? && Settled(opt.replacements) &&
    (opt.kind.TimeK? ==> forall j :: 0 <= j < |opt.replacements| ==> !opt.replacements[j].0.IsNumber())
  }

  /** One row that converts in the whole array converts on its own to
      the same value, and is masked alike. */
  lemma BulkRowIsFallbackRow(t: string, opt: Options, conv: Converters)
    requires ReplacedAlike(opt) && BulkConvert(t, opt.kind, conv).Some?
    ensures !RowFails(t, opt, conv)
    ensures OutcomeValue(FallbackRow(t, opt, conv)) == BulkValue(t, opt, conv)
    ensures OutcomeMasked(FallbackRow(t, opt, conv), opt) == ValueMasked(BulkValue(t, opt, conv), opt)
  {
    BulkAgreesWithScalar(t, opt.kind, conv);
    var v := BulkConvert(t, opt.kind, conv).value;
    if opt.kind.TimeK? {
      NoKeyUnchanged(v, opt.replacements);
    } else {
      ReplaceTypedIsLookup(v, opt.replacements);
    }
  }

  /** When every row converts, the whole-array conversion gives what the
      row-by-row conversion would: no failures, and the same values and
      mask (given replacement pairs that do not chain, and, for times,
      no numeric key, since times are not replaced in the array). */
  lemma BulkIsFallbackWithoutFailures(ts: seq<string>, opt: Options, conv: Converters)
    requires ReplacedAlike(opt) && AllBulk(ts, opt.kind, conv)
    ensures Bulk(ts, opt, conv) == Fallback(ts, opt, conv)
  {
    var b := Bulk(ts, opt, conv);
    var f := Fallback(ts, opt, conv);
    forall k | 0 <= k < |ts|
      ensures b.values[k] == f.values[k] && b.mask[k] == f.mask[k] && !RowFails(ts[k], opt, conv)
    {
      FallbackRows(ts, opt, conv, k);
      BulkRowIsFallbackRow(ts[k], opt, conv);
    }
    assert b.values == f.values && b.mask == f.mask;
    FallbackExample(ts, opt, conv);
    FallbackClean(ts, opt, conv);
  }

  /** The radix defect: "101" in a base-2 column is read as one hundred
      and one by the whole-array conversion as written, while the
      column's own scalar function (and the corrected conversion) read
      it as five. */
  lemma BaseTwoReadAsDecimal(conv: Converters)
    ensures BulkConvertAsWritten("101", IntK(2), conv) == Some(IntV(101))
    ensures ScalarConvert("101", IntK(2), conv) == Some(IntV(5))
    ensures BulkConvert("101", IntK(2), conv) == Some(IntV(5))
  {
    var s := "101";
    assert AllDigits(s, 10) && AllDigits(s, 2);
    ParseIntOfDigits(s, 10);
    ParseIntOfDigits(s, 2);
    DigitsOf101();
  }

  /** The digits "101" read in base ten and in base two; kept apart from
      the lemma above so that its unfolding of DigitsValue stays small. */
  lemma DigitsOf101()
    ensures DigitsValue("101", 10) == 101 && DigitsValue("101", 2) == 5
  {
    assert "101"[..2] == "10" && "10"[..1] == "1" && "1"[..0] == "";
  }

  /** Row k of a decoded item array. A text column keeps the row's
      (stripped) text, masked when it is an invalid value. Otherwise the
      row is masked exactly when it failed to convert or its value is
      invalid or out of range; a failed row keeps its kept text, and any
      other row holds its converted value after replacement. */
  lemma DecodedRow(cells: seq<Bytes>, opt: Options, conv: Converters, k: int)
    requires 0 <= k < |cells|
    ensures var r := DecodedItem(cells, opt, conv);
            var t := Prepared(cells, opt)[k];
            (TextColumn(opt) ==> r.values[k] == StrV(Kept(t, opt)) && (r.mask[k] <==> InValues(r.values[k], opt.invalid))) &&
            (!TextColumn(opt) ==> (r.mask[k] <==> RowFailed(cells, opt, conv, k) || ValueMasked(r.values[k], opt))) &&
            (RowFailed(cells, opt, conv, k) ==> r.values[k] == StrV(Kept(t, opt))) &&
            (!TextColumn(opt) && AllBulk(Prepared(cells, opt), opt.kind, conv) ==> r.values[k] == BulkValue(t, opt, conv)) &&
            (!TextColumn(opt) && !RowFailed(cells, opt, conv, k) && !AllBulk(Prepared(cells, opt), opt.kind, conv) ==>
               r.values[k] == Lookup(ScalarConvert(t, opt.kind, conv).value, opt.replacements))
  {
    var ts := Prepared(cells, opt);
    if !TextColumn(opt) && !AllBulk(ts, opt.kind, conv) {
      FallbackRows(ts, opt, conv, k);
    }
  }

  /** The rows of an item array that failed to convert. */
  function FailedRows(cells: seq<Bytes>, opt: Options, conv: Converters): set<int>
  {
    set k | 0 <= k < |cells| && RowFailed(cells, opt, conv, k)
  }

  /** Row k is the first row of the item array that failed to convert. */
  predicate FirstFailed(cells: seq<Bytes>, opt: Options, conv: Converters, k: int)
  {
    0 <= k < |cells| && RowFailed(cells, opt, conv, k) &&
    forall j :: 0 <= j < k ==> !RowFailed(cells, opt, conv, j)
  }

  /** An item array's failure count is the number of rows that failed to
      convert, and its example, present exactly when some row failed, is
      the kept text of the first of them. */
  lemma DecodedFailures(cells: seq<Bytes>, opt: Options, conv: Converters)
    ensures DecodedItem(cells, opt, conv).failures == |FailedRows(cells, opt, conv)|
    ensures DecodedItem(cells, opt, conv).example.None? <==> DecodedItem(cells, opt, conv).failures == 0
    ensures DecodedItem(cells, opt, conv).example.Some? ==>
      exists k :: FirstFailed(cells, opt, conv, k) &&
        DecodedItem(cells, opt, conv).example.value == Kept(Prepared(cells, opt)[k], opt)
  {
    var ts := Prepared(cells, opt);
    if TextColumn(opt) || AllBulk(ts, opt.kind, conv) {
      assert FailedRows(cells, opt, conv) == {};
    } else {
      FallbackCount(ts, opt, conv);
      FallbackExample(ts, opt, conv);
      FallbackClean(ts, opt, conv);
      assert FailedRows(cells, opt, conv) == FailingRows(ts, opt, conv);
      if DecodedItem(cells, opt, conv).example.Some? {
        var k :| FirstFailure(ts, opt, conv, k) && Fallback(ts, opt, conv).example.value == Kept(ts[k], opt);
        assert FirstFailed(cells, opt, conv, k);
      }
    }
  }

  /** A decoded cell: one value, or a tuple with one value per item. */
  datatype Cell = Single(v: Value) | Tuple(vs: seq<Value>)

  /** A column's mask: one bit per row, or one bit per row and item. */
  datatype Mask = RowMask(bits: seq<bool>) | ItemMask(rowBits: seq<seq<bool>>)

  /** The warning a column raises: its data type, its name, how many
      values failed to convert and the first of them. */
  datatype Diagnostic = Diagnostic(dataType: string, column: string, count: nat, example: string)

  datatype ColumnResult = ColumnResult(values: seq<Cell>, mask: Mask, warning: Option<Diagnostic>)

  /** Each item array of a column, decoded by `decode`, item after item. */
  function MapItems(itemCells: seq<seq<Bytes>>, decode: seq<Bytes> -> ItemResult): (r: seq<ItemResult>)
    ensures |r| == |itemCells|
    ensures forall i :: 0 <= i < |r| ==> r[i] == decode(itemCells[i])
  {
    if |itemCells| == 0 then []
    else
      var n := |itemCells| - 1;
      var prev := MapItems(itemCells[..n], decode);
      var r := prev + [decode(itemCells[n])];
      assert forall i :: 0 <= i < n ==> r[i] == prev[i] && itemCells[..n][i] == itemCells[i];
      r
  }

  /** The decoded item arrays of a column, item after item. */
  function DecodedItems(itemCells: seq<seq<Bytes>>, opt: Options, conv: Converters): (r: seq<ItemResult>)
    ensures |r| == |itemCells|
    ensures forall i :: 0 <= i < |r| ==> r[i] == DecodedItem(itemCells[i], opt, conv)
  {
    MapItems(itemCells, cells => DecodedItem(cells, opt, conv))
  }

  /** error_count of a column: the failures of all its items. */
  function TotalFailures(items: seq<ItemResult>): nat
  {
    if |items| == 0 then 0 else TotalFailures(items[..|items| - 1]) + items[|items| - 1].failures
  }

  /** error_example of a column: the first example in item order. */
  function FirstExample(items: seq<ItemResult>): Option<string>
  {
    if |items| == 0 then None
    else
      var prev := FirstExample(items[..|items| - 1]);
      if prev.Some? then prev else items[|items| - 1].example
  }

  /** Every item array has one value and one mask bit per row. */
  predicate HasRows(items: seq<ItemResult>, rows: nat)
  {
    forall i :: 0 <= i < |items| ==> |items[i].values| == rows && |items[i].mask| == rows
  }

  /** The column's values: a lone item's values as they are, or one tuple
      per row holding each item's value. */
  function CombinedValues(items: seq<ItemResult>, rows: nat): (r: seq<Cell>)
    requires |items| >= 1 && HasRows(items, rows)
    ensures |r| == rows
  {
    if |items| == 1 then seq(rows, k requires 0 <= k < rows => Single(items[0].values[k]))
    else seq(rows, k requires 0 <= k < rows => Tuple(seq(|items|, i requires 0 <= i < |items| => items[i].values[k])))
  }

  /** The column's mask: a lone item's mask; with merge_masks, a row is
      masked when any of its items is; otherwise one bit per item. */
  function CombinedMask(items: seq<ItemResult>, rows: nat, merge: bool): Mask
    requires |items| >= 1 && HasRows(items, rows)
  {
    if |items| == 1 then RowMask(items[0].mask)
    else if merge then RowMask(seq(rows, k requires 0 <= k < rows => exists i :: 0 <= i < |items| && items[i].mask[k]))
    else ItemMask(seq(rows, k requires 0 <= k < rows => seq(|items|, i requires 0 <= i < |items| => items[i].mask[k])))
  }

  function Warning(items: seq<ItemResult>, kind: Kind, name: string): Option<Diagnostic>
  {
    var total := TotalFailures(items);
    var example := FirstExample(items);
    if total > 0 && example.Some? then Some(Diagnostic(kind.Name(), name, total, Strip(example.value))) else None
  }

  /** What a column decodes to, from the raw cells of each of its items. */
  function DecodedColumn(name: string, itemCells: seq<seq<Bytes>>, rows: nat, opt: Options, conv: Converters,
                         merge: bool): ColumnResult
    requires |itemCells| >= 1 && forall i :: 0 <= i < |itemCells| ==> |itemCells[i]| == rows
  {
    var items := DecodedItems(itemCells, opt, conv);
    ColumnResult(CombinedValues(items, rows), CombinedMask(items, rows, merge), Warning(items, opt.kind, name))
  }

  /** After decoding the first i item arrays: their results, the
      failures counted so far and the first example so far. */
  predicate ItemsScanned(itemCells: seq<seq<Bytes>>, i: int, opt: Options, conv: Converters,
                         items: seq<ItemResult>, errorCount: nat, errorExample: Option<string>)
  {
    0 <= i <= |itemCells| && items == DecodedItems(itemCells[..i], opt, conv) &&
    errorCount == TotalFailures(items) && errorExample == FirstExample(items)
  }

  lemma ItemsScannedStep(itemCells: seq<seq<Bytes>>, i: int, opt: Options, conv: Converters,
                         items: seq<ItemResult>, errorCount: nat, errorExample: Option<string>)
    requires ItemsScanned(itemCells, i, opt, conv, items, errorCount, errorExample) && i < |itemCells|
    ensures var r := DecodedItem(itemCells[i], opt, conv);
            ItemsScanned(itemCells, i + 1, opt, conv, items + [r], errorCount + r.failures,
                         if errorExample.None? then r.example else errorExample)
  {
    var r := DecodedItem(itemCells[i], opt, conv);
    assert itemCells[..i + 1][..i] == itemCells[..i];
    assert (items + [r])[..|items|] == items;
  }

  /** Decode every item array of a column, counting the failures and
      keeping the first example across items, then put the items back
      together. */
  method DecodeColumn(name: string, itemCells: seq<seq<Bytes>>, rows: nat, opt: Options, conv: Converters,
                      merge: bool) returns (res: ColumnResult)
    requires |itemCells| >= 1 && forall i :: 0 <= i < |itemCells| ==> |itemCells[i]| == rows
    ensures res == DecodedColumn(name, itemCells, rows, opt, conv, merge)
  {
    var items: seq<ItemResult> := [];
    var errorCount: nat := 0;
    var errorExample: Option<string> := None;
    var i := 0;
    while i < |itemCells|
      invariant ItemsScanned(itemCells, i, opt, conv, items, errorCount, errorExample)
    {
      var r := DecodeItem(itemCells[i], opt, conv);
      ItemsScannedStep(itemCells, i, opt, conv, items, errorCount, errorExample);
      items := items + [r];
      errorCount := errorCount + r.failures;
      errorExample := if errorExample.None? then r.example else errorExample;
      i := i + 1;
    }
    ScannedColumn(name, itemCells, rows, opt, conv, merge, items, errorCount, errorExample);
    var warning := if errorCount > 0 && errorExample.Some?
      then Some(Diagnostic(opt.kind.Name(), name, errorCount, Strip(errorExample.value))) else None;
    res := ColumnResult(CombinedValues(items, rows), CombinedMask(items, rows, merge), warning);
  }

  /** Once every item array is decoded, the counts and the first example
      give the column's warning. */
  lemma ScannedColumn(name: string, itemCells: seq<seq<Bytes>>, rows: nat, opt: Options, conv: Converters,
                      merge: bool, items: seq<ItemResult>, errorCount: nat, errorExample: Option<string>)
    requires |itemCells| >= 1 && forall i :: 0 <= i < |itemCells| ==> |itemCells[i]| == rows
    requires ItemsScanned(itemCells, |itemCells|, opt, conv, items, errorCount, errorExample)
    ensures |items| >= 1 && HasRows(items, rows)
    ensures DecodedColumn(name, itemCells, rows, opt, conv, merge) ==
      ColumnResult(CombinedValues(items, rows), CombinedMask(items, rows, merge),
                   if errorCount > 0 && errorExample.Some?
                   then Some(Diagnostic(opt.kind.Name(), name, errorCount, Strip(errorExample.value))) else None)
  {
    assert itemCells[..|itemCells|] == itemCells;
    assert HasRows(DecodedItems(itemCells, opt, conv), rows);
  }

  /** The column's error count is positive exactly when some item's is. */
  lemma {:induction false} TotalFailuresPositive(items: seq<ItemResult>)
    ensures TotalFailures(items) > 0 <==> exists i :: 0 <= i < |items| && items[i].failures > 0
  {
    if |items| > 0 {
      var n := |items| - 1;
      TotalFailuresPositive(items[..n]);
      assert forall i :: 0 <= i < n ==> items[..n][i] == items[i];
    }
  }

  /** The column's example is the example of the first item that has one. */
  lemma {:induction false} FirstExampleIsFirst(items: seq<ItemResult>)
    ensures FirstExample(items).None? <==> forall i :: 0 <= i < |items| ==> items[i].example.None?
    ensures FirstExample(items).Some? ==>
      exists i :: 0 <= i < |items| && FirstExample(items) == items[i].example &&
        forall j :: 0 <= j < i ==> items[j].example.None?
  {
    if |items| > 0 {
      var n := |items| - 1;
      FirstExampleIsFirst(items[..n]);
      assert forall i :: 0 <= i < n ==> items[..n][i] == items[i];
      if FirstExample(items[..n]).None? && items[n].example.Some? {
        assert FirstExample(items) == items[n].example;
      }
    }
  }

  /** The rows that failed to convert, summed over the items. */
  function FailedInItems(itemCells: seq<seq<Bytes>>, opt: Options, conv: Converters): nat
  {
    if |itemCells| == 0 then 0
    else FailedInItems(itemCells[..|itemCells| - 1], opt, conv) + |FailedRows(itemCells[|itemCells| - 1], opt, conv)|
  }

  lemma {:induction false} TotalIsFailedInItems(itemCells: seq<seq<Bytes>>, opt: Options, conv: Converters)
    ensures TotalFailures(DecodedItems(itemCells, opt, conv)) == FailedInItems(itemCells, opt, conv)
  {
    if |itemCells| > 0 {
      var n := |itemCells| - 1;
      TotalIsFailedInItems(itemCells[..n], opt, conv);
      DecodedFailures(itemCells[n], opt, conv);
      var items := DecodedItems(itemCells, opt, conv);
      assert items[..n] == DecodedItems(itemCells[..n], opt, conv);
    }
  }

  /** Item i of a column, in terms of its failed rows. */
  lemma ItemFailures(itemCells: seq<seq<Bytes>>, opt: Options, conv: Converters, i: int)
    requires 0 <= i < |itemCells|
    ensures var r := DecodedItems(itemCells, opt, conv)[i];
            (r.example.None? <==> FailedRows(itemCells[i], opt, conv) == {}) &&
            (r.example.Some? ==>
              exists k :: FirstFailed(itemCells[i], opt, conv, k) && r.example.value == Kept(Prepared(itemCells[i], opt)[k], opt))
  {
    DecodedFailures(itemCells[i], opt, conv);
  }

  /** A column warns exactly when some row of some item failed to
      convert. */
  lemma ColumnWarns(name: string, itemCells: seq<seq<Bytes>>, rows: nat, opt: Options, conv: Converters,
                    merge: bool)
    requires |itemCells| >= 1 && forall i :: 0 <= i < |itemCells| ==> |itemCells[i]| == rows
    ensures DecodedColumn(name, itemCells, rows, opt, conv, merge).warning.Some? <==>
            exists i :: 0 <= i < |itemCells| && FailedRows(itemCells[i], opt, conv) != {}
  {
    var items := DecodedItems(itemCells, opt, conv);
    TotalIsFailedInItems(itemCells, opt, conv);
    TotalFailuresPositive(items);
    FirstExampleIsFirst(items);
    forall i | 0 <= i < |itemCells|
      ensures items[i].example.None? <==> items[i].failures == 0
      ensures items[i].example.None? <==> FailedRows(itemCells[i], opt, conv) == {}
    {
      DecodedFailures(itemCells[i], opt, conv);
      ItemFailures(itemCells, opt, conv, i);
    }
  }

  /** The warning names the column and its data type, counts every failed
      row of every item, and quotes (stripped) the first failed row of the
      first item that has one. */
  lemma ColumnWarning(name: string, itemCells: seq<seq<Bytes>>, rows: nat, opt: Options, conv: Converters,
                      merge: bool)
    requires |itemCells| >= 1 && forall i :: 0 <= i < |itemCells| ==> |itemCells[i]| == rows
    requires DecodedColumn(name, itemCells, rows, opt, conv, merge).warning.Some?
    ensures var w := DecodedColumn(name, itemCells, rows, opt, conv, merge).warning.value;
            w.dataType == opt.kind.Name() && w.column == name && w.count == FailedInItems(itemCells, opt, conv)
    ensures var w := DecodedColumn(name, itemCells, rows, opt, conv, merge).warning.value;
            exists i, k :: 0 <= i < |itemCells| && FirstFailed(itemCells[i], opt, conv, k) &&
              (forall j :: 0 <= j < i ==> FailedRows(itemCells[j], opt, conv) == {}) &&
              w.example == Strip(Kept(Prepared(itemCells[i], opt)[k], opt))
  {
    var items := DecodedItems(itemCells, opt, conv);
    TotalIsFailedInItems(itemCells, opt, conv);
    FirstExampleIsFirst(items);
    var i :| 0 <= i < |items| && FirstExample(items) == items[i].example &&
             forall j :: 0 <= j < i ==> items[j].example.None?;
    ItemFailures(itemCells, opt, conv, i);
    var k :| FirstFailed(itemCells[i], opt, conv, k) && items[i].example.value == Kept(Prepared(itemCells[i], opt)[k], opt);
    forall j | 0 <= j < i ensures FailedRows(itemCells[j], opt, conv) == {} {
      ItemFailures(itemCells, opt, conv, j);
    }
  }

  /** With merge_masks, row k of a multi-item number column is masked
      exactly when one of its items failed to convert or holds an
      invalid or out-of-range value; without it, each item of the row
      keeps its own bit. */
  lemma ColumnMask(name: string, itemCells: seq<seq<Bytes>>, rows: nat, opt: Options, conv: Converters,
                   merge: bool, k: int)
    requires |itemCells| > 1 && forall i :: 0 <= i < |itemCells| ==> |itemCells[i]| == rows
    requires !TextColumn(opt) && 0 <= k < rows
    ensures var m := DecodedColumn(name, itemCells, rows, opt, conv, merge).mask;
            (merge ==> (m.RowMask? && |m.bits| == rows &&
              (m.bits[k] <==>
                 (exists i :: 0 <= i < |itemCells| &&
                    (RowFailed(itemCells[i], opt, conv, k) || ValueMasked(DecodedItem(itemCells[i], opt, conv).values[k], opt)))))) &&
            (!merge ==> (m.ItemMask? && |m.rowBits| == rows && |m.rowBits[k]| == |itemCells| &&
              (forall i :: 0 <= i < |itemCells| ==>
                (m.rowBits[k][i] <==> RowFailed(itemCells[i], opt, conv, k) || ValueMasked(DecodedItem(itemCells[i], opt, conv).values[k], opt)))))
  {
    forall i | 0 <= i < |itemCells|
      ensures DecodedItem(itemCells[i], opt, conv).mask[k] <==>
        RowFailed(itemCells[i], opt, conv, k) || ValueMasked(DecodedItem(itemCells[i], opt, conv).values[k], opt)
    {
      DecodedRow(itemCells[i], opt, conv, k);
    }
  }
}
