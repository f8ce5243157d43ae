/** pdstable/utils.py and the integer converters of pdstable/pds4table.py:
    the PDS4 label test and Python's int(text, base) for the bases a
    table can declare (2, 8, 10 and 16). */
module Utils {
  import opened Common
  import opened Text

  /** The file extensions that mark a PDS4 (XML) label. */
  const Pds4LabelExtensions: seq<string> := [".xml", ".lblx"]

  /** The first loop of is_pds4_label: does `name` end with one of `exts`? */
  function EndsWithAny(name: string, exts: seq<string>): (r: bool)
    ensures r <==> exists k :: 0 <= k < |exts| && EndsWith(name, exts[k])
  {
    if |exts| == 0 then false
    else if EndsWith(name, exts[0]) then true
    else
      var r := EndsWithAny(name, exts[1..]);
      assert forall k :: 1 <= k < |exts| ==> exts[k] == exts[1..][k - 1];
      r
  }

  /** is_pds4_label: true exactly when the name ends with ".xml" or
      ".lblx", compared case-sensitively. */
  function IsPds4Label(name: string): (r: bool)
    ensures r <==> EndsWith(name, ".xml") || EndsWith(name, ".lblx")
  {
    assert Pds4LabelExtensions[0] == ".xml" && Pds4LabelExtensions[1] == ".lblx";
    EndsWithAny(name, Pds4LabelExtensions)
  }

  /** The digit value Python's int() gives a character: 0..9 for decimal
      digits, 10..35 for letters in either case, and 36 for anything
      else (no base accepts it). */
  function DigitValue(c: char): (d: nat)
    ensures d <= 36
  {
    if '0' <= c <= '9' then c as int - '0' as int
    else if 'a' <= c <= 'z' then c as int - 'a' as int + 10
    else if 'A' <= c <= 'Z' then c as int - 'A' as int + 10
    else 36
  }

  predicate AllDigits(w: string, base: nat)
  {
    forall i :: 0 <= i < |w| ==> DigitValue(w[i]) < base
  }

  /** The value of a digit string, most significant digit first. The
      underscores that group the digits add nothing to it. */
  function DigitsValue(w: string, base: nat): nat
  {
    if |w| == 0 then 0
    else if w[|w| - 1] == '_' then DigitsValue(w[..|w| - 1], base)
    else DigitsValue(w[..|w| - 1], base) * base + DigitValue(w[|w| - 1])
  }

  /** Digits of the base in groups separated by single underscores: at
      least one digit, and no leading, trailing or doubled underscore. */
  predicate Grouped(w: string, base: nat)
  {
    |w| > 0 && DigitValue(w[0]) < base && DigitValue(w[|w| - 1]) < base &&
    (forall i :: 0 <= i < |w| ==> DigitValue(w[i]) < base || w[i] == '_') &&
    (forall i :: 0 <= i < |w| - 1 && w[i] == '_' ==> w[i + 1] != '_')
  }

  /** The radix prefix int() accepts for an explicit base ("0b", "0o",
      "0x", in either case), none for base 10. */
  function RadixPrefix(base: nat): string
  {
    if base == 2 then "0b" else if base == 8 then "0o" else if base == 16 then "0x" else ""
  }

  /** The whitespace int() skips around the digits of a byte string:
      space, tab, line feed, vertical tab, form feed and carriage return. */
  predicate IsAsciiSpace(c: char)
  {
    c == ' ' || '\t' <= c <= '\r'
  }

  /** bytes.lstrip() */
  function StripAsciiLeft(s: string): (r: string)
    ensures |r| <= |s| && r == s[|s| - |r|..]
    ensures r == [] || !IsAsciiSpace(r[0])
    ensures forall i :: 0 <= i < |s| - |r| ==> IsAsciiSpace(s[i])
  {
    if |s| > 0 && IsAsciiSpace(s[0]) then StripAsciiLeft(s[1..]) else s
  }

  /** bytes.rstrip() */
  function StripAsciiRight(s: string): (r: string)
    ensures |r| <= |s| && r == s[..|r|]
    ensures r == [] || !IsAsciiSpace(r[|r| - 1])
    ensures forall i :: |r| <= i < |s| ==> IsAsciiSpace(s[i])
  {
    if |s| > 0 && IsAsciiSpace(s[|s| - 1]) then StripAsciiRight(s[..|s| - 1]) else s
  }

  /** bytes.strip(): only ASCII whitespace is removed, and neither end of
      the result is ASCII whitespace. */
  function StripAscii(s: string): (r: string)
    ensures r == [] || (!IsAsciiSpace(r[0]) && !IsAsciiSpace(r[|r| - 1]))
  {
    var left := StripAsciiLeft(s);
    var r := StripAsciiRight(left);
    assert r != [] ==> r[0] == left[0];
    r
  }

  /** Python's int(text, base) on a byte string: surrounding ASCII
      whitespace is ignored, then come one optional sign, the base's
      optional radix prefix with at most one underscore after it, and
      digits below the base grouped by single underscores. Any other text
      is a ValueError (None). */
  function ParseInt(s: string, base: nat): (r: Option<int>)
    requires 2 <= base <= 36
    ensures r.Some? ==> forall i :: 0 <= i < |s| ==> AllowedChar(s[i], base)
  {
    var t := StripAscii(s);
    var neg := |t| > 0 && t[0] == '-';
    var u := DropSign(t);
    var w := DropPrefix(u, base);
    if Grouped(w, base) then
      ParsedCharsAllowed(s, t, u, w, base);
      var magnitude: int := DigitsValue(w, base);
      Some(if neg then -magnitude else magnitude)
    else
      None
  }

  /** The text after one leading '+' or '-', if there is one. */
  function DropSign(t: string): string
  {
    if |t| > 0 && (t[0] == '-' || t[0] == '+') then t[1..] else t
  }

  /** The text after the base's radix prefix and one underscore following
      it, if it starts with that prefix. */
  function DropPrefix(u: string, base: nat): string
  {
    var p := RadixPrefix(base);
    if |p| > 0 && |u| >= 2 && Lower(u[..2]) == p then
      (if |u| > 2 && u[2] == '_' then u[3..] else u[2..])
    else u
  }

  /** A character that can occur in text that int(text, base) accepts. */
  predicate AllowedChar(c: char, base: nat)
  {
    IsAsciiSpace(c) || c == '+' || c == '-' || c == '_' || DigitValue(c) < base ||
    (base == 2 && (c == 'b' || c == 'B')) ||
    (base == 8 && (c == 'o' || c == 'O')) ||
    (base == 16 && (c == 'x' || c == 'X'))
  }

  /** Every character of `x` is allowed. */
  predicate AllAllowed(x: string, base: nat)
  {
    forall i :: 0 <= i < |x| ==> AllowedChar(x[i], base)
  }

  lemma ParsedCharsAllowed(s: string, t: string, u: string, w: string, base: nat)
    requires t == StripAscii(s) && u == DropSign(t) && w == DropPrefix(u, base)
    requires Grouped(w, base)
    ensures AllAllowed(s, base)
  {
    PrefixAllowed(u, w, base);
    SignAllowed(t, u, base);
    StripAllowed(s, t, base);
  }

  /** A radix prefix, and the underscore after it, are allowed characters. */
  lemma PrefixAllowed(u: string, w: string, base: nat)
    requires w == DropPrefix(u, base) && Grouped(w, base)
    ensures AllAllowed(u, base)
  {
    var k := |u| - |w|;
    forall i | 0 <= i < |u| ensures AllowedChar(u[i], base) {
      if i >= k {
        assert u[i] == w[i - k];
      } else if i < 2 {
        assert Lower(u[..2]) == RadixPrefix(base);
        assert LowerChar(u[i]) == RadixPrefix(base)[i];
      }
    }
  }

  /** A sign is an allowed character. */
  lemma SignAllowed(t: string, u: string, base: nat)
    requires u == DropSign(t) && AllAllowed(u, base)
    ensures AllAllowed(t, base)
  {
    forall i | 0 <= i < |t| ensures AllowedChar(t[i], base) {
      if u != t && i >= 1 { assert t[i] == u[i - 1]; }
      if u == t { assert t[i] == u[i]; }
    }
  }

  /** Surrounding whitespace is made of allowed characters. */
  lemma StripAllowed(s: string, t: string, base: nat)
    requires t == StripAscii(s) && AllAllowed(t, base)
    ensures AllAllowed(s, base)
  {
    var left := StripAsciiLeft(s);
    var a := |s| - |left|;
    forall i | 0 <= i < |s| ensures AllowedChar(s[i], base) {
      if a <= i < a + |t| {
        assert s[i] == left[i - a] == t[i - a];
      } else if i >= a + |t| {
        assert s[i] == left[i - a];
      }
    }
  }

  /** Leading ASCII whitespace is dropped up to the first other character. */
  lemma {:induction false} StripAsciiLeftPadded(p: string, x: string)
    requires forall i :: 0 <= i < |p| ==> IsAsciiSpace(p[i])
    requires x == [] || !IsAsciiSpace(x[0])
    ensures StripAsciiLeft(p + x) == x
    decreases |p|
  {
    if |p| > 0 {
      assert (p + x)[0] == p[0] && (p + x)[1..] == p[1..] + x;
      StripAsciiLeftPadded(p[1..], x);
    } else {
      assert p + x == x;
    }
  }

  /** Trailing ASCII whitespace is dropped back to the last other character. */
  lemma {:induction false} StripAsciiRightPadded(x: string, q: string)
    requires forall i :: 0 <= i < |q| ==> IsAsciiSpace(q[i])
    requires x == [] || !IsAsciiSpace(x[|x| - 1])
    ensures StripAsciiRight(x + q) == x
    decreases |q|
  {
    if |q| > 0 {
      var q' := q[..|q| - 1];
      assert (x + q)[|x + q| - 1] == q[|q| - 1] && (x + q)[..|x + q| - 1] == x + q';
      StripAsciiRightPadded(x, q');
    } else {
      assert x + q == x;
    }
  }

  /** bytes.strip() removes exactly the ASCII whitespace padding. */
  lemma StripAsciiPadded(p: string, x: string, q: string)
    requires forall i :: 0 <= i < |p| ==> IsAsciiSpace(p[i])
    requires forall i :: 0 <= i < |q| ==> IsAsciiSpace(q[i])
    requires |x| > 0 && !IsAsciiSpace(x[0]) && !IsAsciiSpace(x[|x| - 1])
    ensures StripAscii(p + x + q) == x
  {
    assert p + x + q == p + (x + q);
    assert (x + q)[0] == x[0];
    StripAsciiLeftPadded(p, x + q);
    StripAsciiRightPadded(x, q);
  }

  /** Stripping twice is stripping once. */
  lemma StripAsciiIdempotent(s: string)
    ensures StripAscii(StripAscii(s)) == StripAscii(s)
  {
    var t := StripAscii(s);
    if |t| > 0 {
      StripAsciiUnchanged(t);
    }
  }

  /** int() reads the stripped text: surrounding ASCII whitespace never
      changes the result. */
  lemma ParseIntOfStripped(s: string, base: nat)
    requires 2 <= base <= 36
    ensures ParseInt(s, base) == ParseInt(StripAscii(s), base)
  {
    StripAsciiIdempotent(s);
  }

  /** A signed digit string: "-" negates the digits' value, "+" keeps it. */
  lemma ParseIntOfSigned(sign: char, d: string, base: nat)
    requires TableBase(base)
    requires sign == '-' || sign == '+'
    requires |d| > 0 && AllDigits(d, base)
    ensures ParseInt([sign] + d, base) == Some(if sign == '-' then -(DigitsValue(d, base) as int) else DigitsValue(d, base) as int)
  {
    var s := [sign] + d;
    assert DigitValue(d[0]) < base && DigitValue(d[|d| - 1]) < base;
    assert s[0] == sign && s[|s| - 1] == d[|d| - 1];
    StripAsciiUnchanged(s);
    assert DropSign(s) == d by { assert s[1..] == d; }
    DropPrefixUnchanged(d, base);
    ParseIntOfParts(s, s, d, d, base);
  }

  /** ParseInt from the pieces it cuts the text into. */
  lemma ParseIntOfParts(s: string, t: string, u: string, w: string, base: nat)
    requires 2 <= base <= 36
    requires t == StripAscii(s) && u == DropSign(t) && w == DropPrefix(u, base) && Grouped(w, base)
    ensures ParseInt(s, base) == Some(if |t| > 0 && t[0] == '-' then -(DigitsValue(w, base) as int) else DigitsValue(w, base) as int)
  {
  }

  /** A right-justified field, as a fixed-width table holds a number: the
      blanks before the text do not matter, so b"   -42" reads as -42. */
  lemma ParseIntOfRightJustified(p: string, x: string, base: nat)
    requires 2 <= base <= 36
    requires forall i :: 0 <= i < |p| ==> IsAsciiSpace(p[i])
    requires |x| > 0 && !IsAsciiSpace(x[0]) && !IsAsciiSpace(x[|x| - 1])
    ensures ParseInt(p + x, base) == ParseInt(x, base)
  {
    var s := p + x;
    assert StripAscii(s) == x by {
      StripAsciiLeftPadded(p, x);
      assert StripAsciiRight(x) == x;
    }
    ParseIntOfStripped(s, base);
  }

  /** A right-justified signed number: b"   -42" reads as -42. */
  lemma ParseIntOfPaddedSigned(p: string, sign: char, d: string, base: nat)
    requires TableBase(base)
    requires forall i :: 0 <= i < |p| ==> IsAsciiSpace(p[i])
    requires sign == '-' || sign == '+'
    requires |d| > 0 && AllDigits(d, base)
    ensures ParseInt(p + [sign] + d, base) == Some(if sign == '-' then -(DigitsValue(d, base) as int) else DigitsValue(d, base) as int)
  {
    var x := [sign] + d;
    assert p + [sign] + d == p + x;
    assert x[0] == sign && x[|x| - 1] == d[|d| - 1] && DigitValue(d[|d| - 1]) < base;
    ParseIntOfRightJustified(p, x, base);
    ParseIntOfSigned(sign, d, base);
  }

  /** Text made of digits and underscores that starts with a digit is
      read as it stands: no whitespace, sign or prefix to remove. */
  lemma ParseIntOfPlain(s: string, base: nat)
    requires TableBase(base)
    requires |s| > 0 && DigitValue(s[0]) < base
    requires forall i :: 0 <= i < |s| ==> DigitValue(s[i]) < base || s[i] == '_'
    ensures ParseInt(s, base) == if Grouped(s, base) then Some(DigitsValue(s, base)) else None
  {
    StripAsciiUnchanged(s);
    assert DropSign(s) == s;
    DropPrefixUnchanged(s, base);
  }

  /** Text that neither starts nor ends with ASCII whitespace is unchanged
      by bytes.strip(). */
  lemma StripAsciiUnchanged(s: string)
    requires |s| > 0 && !IsAsciiSpace(s[0]) && !IsAsciiSpace(s[|s| - 1])
    ensures StripAscii(s) == s
  {
    assert StripAsciiLeft(s) == s;
  }

  /** Text whose second character is a digit of the base or an underscore
      has no radix prefix. */
  lemma DropPrefixUnchanged(s: string, base: nat)
    requires TableBase(base)
    requires |s| < 2 || DigitValue(s[1]) < base || s[1] == '_'
    ensures DropPrefix(s, base) == s
  {
    if |s| >= 2 && base != 10 {
      var p := RadixPrefix(base);
      assert DigitValue(p[1]) >= base;
      assert Lower(s[..2])[1] == LowerChar(s[1]);
      assert LowerChar(s[1]) != p[1];
    }
  }

  /** A plain digit string parses to its digit value. */
  lemma ParseIntOfDigits(s: string, base: nat)
    requires TableBase(base)
    requires |s| > 0 && AllDigits(s, base)
    ensures ParseInt(s, base) == Some(DigitsValue(s, base))
  {
    ParseIntOfPlain(s, base);
  }

  /** An underscore between digits only groups them. */
  lemma {:induction false} DigitsValueSkipsUnderscore(x: string, y: string, base: nat)
    ensures DigitsValue(x + "_" + y, base) == DigitsValue(x + y, base)
    decreases |y|
  {
    if |y| == 0 {
      assert (x + "_" + y)[..|x|] == x;
      assert x + y == x;
    } else {
      var y' := y[..|y| - 1];
      assert (x + "_" + y)[..|x + "_" + y| - 1] == x + "_" + y';
      assert (x + y)[..|x + y| - 1] == x + y';
      DigitsValueSkipsUnderscore(x, y', base);
    }
  }

  /** Digits joined by a run of underscores are digits and underscores. */
  lemma JoinedDigits(a: string, sep: string, b: string, base: nat)
    requires AllDigits(a, base) && AllDigits(b, base)
    requires forall i :: 0 <= i < |sep| ==> sep[i] == '_'
    ensures forall i :: 0 <= i < |a + sep + b| ==>
      DigitValue((a + sep + b)[i]) < base || (a + sep + b)[i] == '_'
  {
    var s := a + sep + b;
    forall i | 0 <= i < |s| ensures DigitValue(s[i]) < base || s[i] == '_' {
      if i < |a| { assert s[i] == a[i]; }
      else if i < |a| + |sep| { assert s[i] == sep[i - |a|]; }
      else { assert s[i] == b[i - |a| - |sep|]; }
    }
  }

  /** int(a + "_" + b, base) reads the digits of a and b as one number,
      as int("1_000") == 1000. */
  lemma UnderscoreGroupsDigits(a: string, b: string, base: nat)
    requires TableBase(base)
    requires |a| > 0 && |b| > 0 && AllDigits(a, base) && AllDigits(b, base)
    ensures ParseInt(a + "_" + b, base) == Some(DigitsValue(a + b, base))
  {
    var s := a + "_" + b;
    JoinedDigits(a, "_", b, base);
    assert s[0] == a[0] && s[|s| - 1] == b[|b| - 1];
    assert Grouped(s, base) by {
      forall i | 0 <= i < |s| - 1 && s[i] == '_' ensures s[i + 1] != '_' {
        assert i == |a|;
        assert s[i + 1] == b[0];
      }
    }
    ParseIntOfPlain(s, base);
    DigitsValueSkipsUnderscore(a, b, base);
  }

  /** A leading underscore is a ValueError. */
  lemma LeadingUnderscore(a: string, base: nat)
    requires TableBase(base)
    requires |a| > 0 && AllDigits(a, base)
    ensures ParseInt("_" + a, base).None?
  {
    var s := "_" + a;
    assert s[0] == '_' && s[|s| - 1] == a[|a| - 1];
    StripAsciiUnchanged(s);
    assert DropSign(s) == s;
    assert s[1] == a[0];
    DropPrefixUnchanged(s, base);
  }

  /** A trailing underscore is a ValueError. */
  lemma TrailingUnderscore(a: string, base: nat)
    requires TableBase(base)
    requires |a| > 0 && AllDigits(a, base)
    ensures ParseInt(a + "_", base).None?
  {
    var s := a + "_";
    assert s[0] == a[0] && s[|s| - 1] == '_';
    StripAsciiUnchanged(s);
    assert DropSign(s) == s;
    assert |a| == 1 || s[1] == a[1];
    DropPrefixUnchanged(s, base);
  }

  /** A doubled underscore is a ValueError. */
  lemma DoubledUnderscore(a: string, b: string, base: nat)
    requires TableBase(base)
    requires |a| > 0 && |b| > 0 && AllDigits(a, base) && AllDigits(b, base)
    ensures ParseInt(a + "__" + b, base).None?
  {
    var s := a + "__" + b;
    JoinedDigits(a, "__", b, base);
    assert s[0] == a[0] && s[|a|] == '_' && s[|a| + 1] == '_';
    ParseIntOfPlain(s, base);
  }

  /** After the radix prefix of base 2, 8 or 16, with or without one
      underscore, come the digits: int("0b_101", 2) == 5. */
  lemma RadixPrefixSkipped(d: string, sep: string, base: nat)
    requires base == 2 || base == 8 || base == 16
    requires sep == "" || sep == "_"
    requires |d| > 0 && AllDigits(d, base)
    ensures ParseInt(RadixPrefix(base) + sep + d, base) == Some(DigitsValue(d, base))
  {
    var s := RadixPrefix(base) + sep + d;
    assert s[0] == '0' && s[|s| - 1] == d[|d| - 1];
    StripAsciiUnchanged(s);
    assert DropSign(s) == s;
    DropRadixPrefix(d, sep, base);
  }

  lemma DropRadixPrefix(d: string, sep: string, base: nat)
    requires base == 2 || base == 8 || base == 16
    requires sep == "" || sep == "_"
    requires |d| > 0 && d[0] != '_'
    ensures DropPrefix(RadixPrefix(base) + sep + d, base) == d
  {
    var p := RadixPrefix(base);
    var s := p + sep + d;
    assert s[..2] == p;
    assert Lower(p) == p;
    if sep == "" {
      assert s[2..] == d;
    } else {
      assert s[2] == '_' && s[3..] == d;
    }
  }

  /** int_from_base2 (utils.py, pds4table.py) */
  function IntFromBase2(s: string): (r: Option<int>)
    ensures r.Some? ==> '2' !in s
  {
    assert !AllowedChar('2', 2);
    ParseInt(s, 2)
  }

  /** int_from_base8: octal digits only, so '8' and '9' are rejected. */
  function IntFromBase8(s: string): (r: Option<int>)
    ensures r.Some? ==> '8' !in s && '9' !in s
  {
    assert !AllowedChar('8', 8) && !AllowedChar('9', 8);
    ParseInt(s, 8)
  }

  /** int_from_base16: hexadecimal digits a-f and A-F are accepted. */
  function IntFromBase16(s: string): (r: Option<int>)
    ensures r.Some? ==> 'g' !in s && 'G' !in s
  {
    assert !AllowedChar('g', 16) && !AllowedChar('G', 16);
    ParseInt(s, 16)
  }

  /** Python's int(text): base 10. */
  function IntFromDecimal(s: string): (r: Option<int>)
    ensures r.Some? ==> forall i :: 0 <= i < |s| ==> AllowedChar(s[i], 10)
  {
    ParseInt(s, 10)
  }

  /** The lower-case digit for a value below 36 (format(n, 'x') style). */
  function DigitChar(d: nat): (c: char)
    requires d < 36
    ensures DigitValue(c) == d
  {
    if d < 10 then ('0' as int + d) as char else ('a' as int + d - 10) as char
  }

  /** The bases a table column can declare for its integers. */
  predicate TableBase(base: nat)
  {
    base == 2 || base == 8 || base == 10 || base == 16
  }

  /** Division by a table base shrinks any number at least as large as it.
      The case split keeps the divisor a literal, which the arithmetic
      solver handles without nonlinear reasoning. */
  lemma DivLess(n: nat, base: nat)
    requires TableBase(base) && base <= n
    ensures n / base < n
    ensures (n / base) * base + n % base == n && n % base < base
  {
    if base == 2 { assert n / 2 < n; }
    else if base == 8 { assert n / 8 < n; }
    else if base == 10 { assert n / 10 < n; }
    else { assert n / 16 < n; }
  }

  /** The digits of n in the given base, most significant first, as
      bin(), oct() and hex() print them without their prefix. */
  function Format(n: nat, base: nat): (r: string)
    requires TableBase(base)
    ensures |r| > 0 && AllDigits(r, base)
    decreases n
  {
    if n < base then [DigitChar(n)]
    else
      DivLess(n, base);
      var f := Format(n / base, base);
      var c := DigitChar(n % base);
      assert forall i :: 0 <= i < |f| ==> (f + [c])[i] == f[i];
      f + [c]
  }

  /** Reading back the digits Format writes gives the number. */
  lemma {:induction false} DigitsValueOfFormat(n: nat, base: nat)
    requires TableBase(base)
    ensures DigitsValue(Format(n, base), base) == n
    decreases n
  {
    if n >= base {
      DivLess(n, base);
      var q, d := n / base, n % base;
      var f := Format(q, base);
      var c := DigitChar(d);
      assert Format(n, base) == f + [c];
      DigitsValueOfFormat(q, base);
      DigitsValueSnoc(f, c, base);
    }
  }

  lemma DigitsValueSnoc(f: string, c: char, base: nat)
    requires c != '_'
    ensures DigitsValue(f + [c], base) == DigitsValue(f, base) * base + DigitValue(c)
  {
    assert (f + [c])[..|f|] == f;
  }

  /** Round trip: formatting n >= 0 in base 2, 8, 10 or 16 and parsing it
      back with int(text, base) yields n. */
  lemma ParseFormat(n: nat, base: nat)
    requires TableBase(base)
    ensures ParseInt(Format(n, base), base) == Some(n)
  {
    DigitsValueOfFormat(n, base);
    ParseIntOfDigits(Format(n, base), base);
  }

  lemma IntFromBaseRoundTrip(n: nat)
    ensures IntFromBase2(Format(n, 2)) == Some(n)
    ensures IntFromBase8(Format(n, 8)) == Some(n)
    ensures IntFromBase16(Format(n, 16)) == Some(n)
    ensures IntFromDecimal(Format(n, 10)) == Some(n)
  {
    ParseFormat(n, 2);
    ParseFormat(n, 8);
    ParseFormat(n, 16);
    ParseFormat(n, 10);
  }
}
