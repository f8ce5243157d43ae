/** Finding rows of a decoded table (pdstable/__init__.py:499-979): the
    per-row dictionaries, the search by column values, the file-name key
    and index, the columns located by their usual names, and the
    normalisation of a file specification before it is looked up. Every
    function here is pure; the Table class keeps their results in its
    caches. */
module Lookup {
  import opened Common
  import opened Text
  import opened Decode

  // ---------------------------------------------------------------------
  // lowercase_value (pdstable/__init__.py:958-979)

  /** A value lower-cased when it is a string. */
  function LowerValue(v: Value): Value
  {
    if v.StrV? then StrV(Lower(v.s)) else v
  }

  /** lowercase_value: a string is lower-cased, so is every string item of
      a tuple; numbers are left alone. */
  function LowerCell(c: Cell): Cell
  {
    match c
    case Single(v) => Single(LowerValue(v))
    case Tuple(vs) => Tuple(seq(|vs|, i requires 0 <= i < |vs| => LowerValue(vs[i])))
  }

  /** What lowercase_value does to a cell: it keeps its shape, leaves
      every non-string value as it was and leaves every string with no
      upper-case letter; doing it again changes nothing. */
  lemma LowerCellSpec(c: Cell)
    ensures LowerCell(LowerCell(c)) == LowerCell(c)
    ensures c.Single? <==> LowerCell(c).Single?
    ensures c.Single? ==> (LowerCell(c).v.StrV? <==> c.v.StrV?) && (!c.v.StrV? ==> LowerCell(c).v == c.v)
    ensures c.Tuple? ==> (
      |LowerCell(c).vs| == |c.vs| &&
      forall i :: 0 <= i < |c.vs| ==>
        (!c.vs[i].StrV? ==> LowerCell(c).vs[i] == c.vs[i]) &&
        (c.vs[i].StrV? ==> LowerCell(c).vs[i].StrV? && Lower(LowerCell(c).vs[i].s) == LowerCell(c).vs[i].s))
  {
    match c
    case Single(v) =>
      if v.StrV? {
        LowerIdempotent(v.s);
      }
    case Tuple(vs) =>
      forall i | 0 <= i < |vs| && vs[i].StrV?
        ensures Lower(Lower(vs[i].s)) == Lower(vs[i].s)
      {
        LowerIdempotent(vs[i].s);
      }
  }

  // ---------------------------------------------------------------------
  // filename_key (pdstable/__init__.py:697-706)

  /** The key of a file name: its base name without the extension, cut to
      filename_keylen characters when that is set and the key is longer;
      a negative length cuts from the end, as a Python slice does. */
  function FilenameKey(filename: string, keylen: int): (r: string)
    ensures var stem := SplitExt(Basename(filename)).0;
      |r| <= |stem| && r == stem[..|r|] &&
      (keylen == 0 ==> r == stem) &&
      (keylen > 0 ==> |r| == if |stem| > keylen then keylen else |stem|)
    ensures '/' !in r
  {
    var base := Basename(filename);
    var key := SplitExt(base).0;
    var r := Truncated(key, keylen);
    NoSlashInKey(base, key, r);
    r
  }

  /** A prefix of a prefix of a name with no slash has no slash. */
  lemma NoSlashInKey(base: string, key: string, r: string)
    requires forall j :: 0 <= j < |base| ==> base[j] != '/'
    requires key + SplitExt(base).1 == base && |r| <= |key| && r == key[..|r|]
    ensures '/' !in r
  {
    assert forall j :: 0 <= j < |r| ==> r[j] == key[j] == base[j];
  }

  /** key[:keylen] when keylen is set and the key is longer. */
  function Truncated(key: string, keylen: int): (r: string)
    ensures |r| <= |key| && r == key[..|r|]
    ensures keylen == 0 ==> r == key
    ensures keylen > 0 ==> |r| == if |key| > keylen then keylen else |key|
  {
    if keylen != 0 && |key| > keylen then
      (if keylen >= 0 then key[..keylen] else if |key| + keylen > 0 then key[..|key| + keylen] else "")
    else key
  }

  /** os.path.basename of a directory part followed by a name is the name. */
  lemma {:induction false} BasenameOfPath(dir: string, name: string)
    requires dir == "" || dir[|dir| - 1] == '/'
    requires '/' !in name
    ensures Basename(dir + name) == name
    decreases |name|
  {
    if |name| > 0 {
      var p := dir + name;
      var n := |name| - 1;
      assert p[..|p| - 1] == dir + name[..n];
      BasenameOfPath(dir, name[..n]);
      assert name == name[..n] + [name[n]];
    } else {
      assert dir + name == dir;
    }
  }

  /** A proper file name: a stem holding some character other than a dot,
      and an extension of one dot followed by no dot; neither holds a
      slash. */
  predicate ProperName(stem: string, ext: string)
  {
    '/' !in stem && '/' !in ext && |ext| > 0 && ext[0] == '.' && '.' !in ext[1..] &&
    exists j :: 0 <= j < |stem| && stem[j] != '.'
  }

  /** The key of dir/stem.ext, with no key length, is stem. */
  lemma FilenameKeyOfPath(dir: string, stem: string, ext: string)
    requires dir == "" || dir[|dir| - 1] == '/'
    requires ProperName(stem, ext)
    ensures FilenameKey(dir + stem + ext, 0) == stem
  {
    assert '/' !in stem + ext;
    assert dir + stem + ext == dir + (stem + ext);
    BasenameOfPath(dir, stem + ext);
    SplitExtOfName(stem, ext);
  }

  // ---------------------------------------------------------------------
  // Columns found by their usual names (pdstable/__init__.py:78-99, 708-743)

  const FileSpecificationColumnNames: seq<string> := [
    "FILE_SPECIFICATION_NAME", "FILE SPECIFICATION NAME", "FILE_NAME", "FILE NAME",
    "FILENAME", "PRODUCT_ID", "PRODUCT ID", "STSCI_GROUP_ID"]

  const VolumeIdColumnNames: seq<string> := ["VOLUME_ID", "VOLUME ID", "VOLUME_NAME", "VOLUME NAME"]

  /** Every name lower-cased. */
  function LowerAll(names: seq<string>): (r: seq<string>)
    ensures |r| == |names|
    ensures forall i :: 0 <= i < |names| ==> r[i] == Lower(names[i])
  {
    seq(|names|, i requires 0 <= i < |names| => Lower(names[i]))
  }

  /** list.index for a name known to be present, or -1. */
  function IndexOf(s: seq<string>, x: string): (r: int)
    ensures -1 <= r < |s|
    ensures r >= 0 ==> s[r] == x && x !in s[..r]
    ensures r < 0 <==> x !in s
  {
    if |s| == 0 then -1
    else if s[0] == x then 0
    else
      var k := IndexOf(s[1..], x);
      if k < 0 then -1
      else
        assert s[..k + 1] == [s[0]] + s[1..][..k];
        k + 1
  }

  /** The first of the guesses that is a (lower-cased) key: its column
      index and the guess; -1 and "" when none is. */
  function FirstGuess(guesses: seq<string>, keysLc: seq<string>): (r: (int, string))
    ensures -1 <= r.0 < |keysLc|
    ensures r.0 < 0 <==> forall j :: 0 <= j < |guesses| ==> guesses[j] !in keysLc
    ensures r.0 < 0 ==> r.1 == ""
    ensures r.0 >= 0 ==> (
      keysLc[r.0] == r.1 && r.1 !in keysLc[..r.0] && r.1 in guesses &&
      forall i :: 0 <= i < IndexOf(guesses, r.1) ==> guesses[i] !in keysLc)
  {
    if |guesses| == 0 then (-1, "")
    else if guesses[0] in keysLc then (IndexOf(keysLc, guesses[0]), guesses[0])
    else
      var r := FirstGuess(guesses[1..], keysLc);
      assert forall j :: 1 <= j < |guesses| ==> guesses[j] == guesses[1..][j - 1];
      r
  }

  /** The loop over the guesses in volume_column_index and
      filespec_column_index: the first guess among the keys wins. */
  method FindGuess(guesses: seq<string>, keysLc: seq<string>) returns (k: int, guess: string)
    ensures (k, guess) == FirstGuess(guesses, keysLc)
  {
    var i := 0;
    while i < |guesses|
      invariant 0 <= i <= |guesses|
      invariant FirstGuess(guesses[i..], keysLc) == FirstGuess(guesses, keysLc)
    {
      assert guesses[i..][1..] == guesses[i + 1..];
      if guesses[i] in keysLc {
        k := IndexOf(keysLc, guesses[i]);
        guess := guesses[i];
        return;
      }
      i := i + 1;
    }
    k, guess := -1, "";
  }

  // ---------------------------------------------------------------------
  // File specification normalisation (pdstable/__init__.py:766-806)

  /** The VMS form of a path: the directories joined by dots inside
      brackets, then the name. */
  function VmsPath(filespec: string): string
  {
    var parts := Split(filespec, '/');
    "[" + Join(".", parts[..|parts| - 1]) + "]" + parts[|parts| - 1]
  }

  /** The table's first file specification can steer the search: a
      string, or, in substring mode, where its extension is not needed, a
      tuple of items. */
  predicate UsableExample(example: Cell, substring: bool)
  {
    (example.Single? && example.v.StrV?) || (example.Tuple? && substring)
  }

  /** `ch in example`: a character of a string, or an item of a tuple
      equal to the one-character string. */
  predicate ExampleHas(example: Cell, ch: char)
  {
    match example
    case Single(v) => v.StrV? && ch in v.s
    case Tuple(vs) => StrV([ch]) in vs
  }

  /** The file specification that find_row_indices_by_volume_filespec
      looks for, given the table's first file specification `example`:
      rewritten in VMS form when the example holds '[', reduced to its
      base name when the example holds no '/', then given the example's
      extension in place of its own (only its own is dropped in substring
      mode), and lower-cased. */
  function NormalizeFilespec(filespec: string, example: Cell, substring: bool): (r: string)
    requires UsableExample(example, substring)
    ensures Lower(r) == r
  {
    var path := if ExampleHas(example, '[') then VmsPath(filespec)
      else if !ExampleHas(example, '/') then Basename(filespec)
      else filespec;
    var stem := SplitExt(path).0;
    var full := if substring then stem else stem + SplitExt(example.v.s).1;
    LowerIdempotent(full);
    Lower(full)
  }

  /** Splitting slash-joined parts that hold no slash gives the parts. */
  lemma {:induction false} SplitJoin(parts: seq<string>)
    requires |parts| >= 1 && forall i :: 0 <= i < |parts| ==> '/' !in parts[i]
    ensures Split(Join("/", parts), '/') == parts
    decreases |parts|
  {
    if |parts| == 1 {
      assert Join("/", parts) == parts[0];
    } else {
      var rest := parts[1..];
      SplitJoin(rest);
      assert Join("/", parts) == parts[0] + "/" + Join("/", rest);
      SplitCons(parts[0], Join("/", rest));
      assert parts == [parts[0]] + rest;
    }
  }

  lemma SplitCons(head: string, tail: string)
    requires '/' !in head
    ensures Split(head + "/" + tail, '/') == [head] + Split(tail, '/')
  {
    var s := head + "/" + tail;
    assert s[..|head|] == head;
    FindAt(s, '/', |head|);
    assert s[|head| + 1..] == tail;
  }

  /** The first occurrence of c is at k when s[k] is c and no earlier
      character is. */
  lemma FindAt(s: string, c: char, k: int)
    requires 0 <= k < |s| && s[k] == c && c !in s[..k]
    ensures Find(s, c) == k
  {
    var r := Find(s, c);
    assert forall i :: 0 <= i < k ==> s[..k][i] == s[i];
    assert r >= 0 ==> forall i :: 0 <= i < r ==> s[..r][i] == s[i];
  }

  /** dir1/dir2/.../name is rewritten as [dir1.dir2....]name. */
  lemma VmsPathOf(dirs: seq<string>, name: string)
    requires '/' !in name && forall i :: 0 <= i < |dirs| ==> '/' !in dirs[i]
    ensures VmsPath(Join("/", dirs + [name])) == "[" + Join(".", dirs) + "]" + name
  {
    var parts := dirs + [name];
    SplitJoin(parts);
    assert parts[..|parts| - 1] == dirs;
  }

  /** A path dir/stem.ext looked up in a table whose first file
      specification is a plain file name estem.eext becomes stem with the
      table's extension, lower-cased; in substring mode the extension is
      left off. */
  lemma NormalizeFileName(dir: string, stem: string, ext: string, estem: string, eext: string, substring: bool)
    requires dir == "" || dir[|dir| - 1] == '/'
    requires ProperName(stem, ext) && ProperName(estem, eext)
    requires '[' !in estem + eext
    ensures NormalizeFilespec(dir + stem + ext, Single(StrV(estem + eext)), substring) ==
      Lower(if substring then stem else stem + eext)
  {
    assert '/' !in stem + ext && '/' !in estem + eext;
    assert dir + stem + ext == dir + (stem + ext);
    BasenameOfPath(dir, stem + ext);
    SplitExtOfName(stem, ext);
    SplitExtOfName(estem, eext);
  }

  // ---------------------------------------------------------------------
  // Row dictionaries (pdstable/__init__.py:499-556)

  /** One row of dicts_by_row: the values under their keys, and the mask
      bits of the row (one per item) under each "<key>_mask". */
  datatype RowDict = RowDict(values: map<string, Cell>, masks: map<string, seq<bool>>)

  /** The number of rows a mask covers. */
  function MaskRows(m: Mask): nat
  {
    match m
    case RowMask(bits) => |bits|
    case ItemMask(rowBits) => |rowBits|
  }

  /** The mask bits of one row: one bit, or one bit per item. */
  function MaskRow(m: Mask, row: nat): seq<bool>
    requires row < MaskRows(m)
  {
    match m
    case RowMask(bits) => [bits[row]]
    case ItemMask(rowBits) => rowBits[row]
  }

  /** A column name with its blanks turned into underscores. */
  function Underscored(name: string): string
  {
    ReplaceChar(name, ' ', '_')
  }

  /** The entries one key of a column adds to a row dictionary: the value
      and mask under the key, again under the lower-cased key when
      lowercase[0] is set, and the lower-cased value under "<key>_lower"
      (and "<key_lc>_lower") when lowercase[1] is set. */
  function AddKey(d: RowDict, key: string, cell: Cell, bits: seq<bool>, lc: (bool, bool)): RowDict
  {
    var klc := Lower(key);
    var d1 := RowDict(d.values[key := cell], d.masks[key + "_mask" := bits]);
    var d2 := if lc.0 then RowDict(d1.values[klc := cell], d1.masks[klc + "_mask" := bits]) else d1;
    if !lc.1 then d2
    else
      var low := LowerCell(cell);
      var d3 := RowDict(d2.values[key + "_lower" := low], d2.masks);
      if lc.0 then RowDict(d3.values[klc + "_lower" := low], d3.masks) else d3
  }

  /** The entries of one column: under its name and, when that has
      blanks, under its underscored name. Both take the column's own
      mask. */
  function AddColumn(d: RowDict, name: string, cell: Cell, bits: seq<bool>, lc: (bool, bool)): RowDict
  {
    var d1 := AddKey(d, name, cell, bits, lc);
    var u := Underscored(name);
    if u == name then d1 else AddKey(d1, u, cell, bits, lc)
  }

  /** The value keys AddKey writes. */
  function KeyVariants(key: string, lc: (bool, bool)): set<string>
  {
    {key} + (if lc.0 then {Lower(key)} else {}) + (if lc.1 then {key + "_lower"} else {}) +
    (if lc.0 && lc.1 then {Lower(key) + "_lower"} else {})
  }

  /** The mask keys AddKey writes. */
  function MaskVariants(key: string, lc: (bool, bool)): set<string>
  {
    {key + "_mask"} + (if lc.0 then {Lower(key) + "_mask"} else {})
  }

  /** The value keys of a column. */
  function ValueKeys(name: string, lc: (bool, bool)): set<string>
  {
    KeyVariants(name, lc) + KeyVariants(Underscored(name), lc)
  }

  /** The mask keys of a column. */
  function MaskKeys(name: string, lc: (bool, bool)): set<string>
  {
    MaskVariants(name, lc) + MaskVariants(Underscored(name), lc)
  }

  /** Every named column has a value and a mask bit for the row. */
  predicate HasRow(names: seq<string>, values: map<string, seq<Cell>>, masks: map<string, Mask>, row: nat)
  {
    forall i :: 0 <= i < |names| ==>
      names[i] in values && names[i] in masks && row < |values[names[i]]| && row < MaskRows(masks[names[i]])
  }

  /** The dictionary of one row: the columns in order, a later column's
      entries replacing an earlier one's under the same key. */
  function RowDictOf(row: nat, names: seq<string>, values: map<string, seq<Cell>>, masks: map<string, Mask>,
                     lc: (bool, bool)): RowDict
    requires HasRow(names, values, masks, row)
  {
    if |names| == 0 then RowDict(map[], map[])
    else
      var n := |names| - 1;
      var name := names[n];
      assert forall i :: 0 <= i < n ==> names[..n][i] == names[i];
      AddColumn(RowDictOf(row, names[..n], values, masks, lc), name, values[name][row], MaskRow(masks[name], row), lc)
  }

  /** The value entries one key adds: the value under the key and its
      lower-cased form, the lower-cased value under the `_lower` keys. */
  lemma AddKeyValue(d: RowDict, key: string, cell: Cell, bits: seq<bool>, lc: (bool, bool), k: string)
    requires k in KeyVariants(key, lc)
    ensures var r := AddKey(d, key, cell, bits, lc);
      k in r.values && r.values[k] == if |k| == |key| then cell else LowerCell(cell)
  {
    var klc := Lower(key);
    assert |klc| == |key|;
    assert |key + "_lower"| != |key| && |klc + "_lower"| != |key|;
  }

  /** The mask entries one key adds: the mask bits under every mask key. */
  lemma AddKeyMask(d: RowDict, key: string, cell: Cell, bits: seq<bool>, lc: (bool, bool), mk: string)
    requires mk in MaskVariants(key, lc)
    ensures var r := AddKey(d, key, cell, bits, lc);
      mk in r.masks && r.masks[mk] == bits
  {
  }

  /** A value key AddKey does not write keeps its entry. */
  lemma AddKeyKeepsValue(d: RowDict, key: string, cell: Cell, bits: seq<bool>, lc: (bool, bool), k: string)
    requires k !in KeyVariants(key, lc)
    ensures var r := AddKey(d, key, cell, bits, lc);
      (k in r.values <==> k in d.values) && (k in d.values ==> r.values[k] == d.values[k])
  {
  }

  /** A mask key AddKey does not write keeps its entry. */
  lemma AddKeyKeepsMask(d: RowDict, key: string, cell: Cell, bits: seq<bool>, lc: (bool, bool), mk: string)
    requires mk !in MaskVariants(key, lc)
    ensures var r := AddKey(d, key, cell, bits, lc);
      (mk in r.masks <==> mk in d.masks) && (mk in d.masks ==> r.masks[mk] == d.masks[mk])
  {
  }

  /** The value entries of a column: its value under its name and its
      underscored name (and their lower-cased forms when asked), and the
      lower-cased value under their `_lower` keys. */
  lemma AddColumnValue(d: RowDict, name: string, cell: Cell, bits: seq<bool>, lc: (bool, bool), k: string)
    requires k in ValueKeys(name, lc)
    ensures var r := AddColumn(d, name, cell, bits, lc);
      k in r.values && r.values[k] == if |k| == |name| then cell else LowerCell(cell)
  {
    var u := Underscored(name);
    var d1 := AddKey(d, name, cell, bits, lc);
    if k in KeyVariants(u, lc) && u != name {
      AddKeyValue(d1, u, cell, bits, lc, k);
    } else {
      AddKeyValue(d, name, cell, bits, lc, k);
      if u != name {
        AddKeyKeepsValue(d1, u, cell, bits, lc, k);
      }
    }
  }

  /** The mask entries of a column: its own mask under every one of its
      mask keys, the underscored ones included. */
  lemma AddColumnMask(d: RowDict, name: string, cell: Cell, bits: seq<bool>, lc: (bool, bool), mk: string)
    requires mk in MaskKeys(name, lc)
    ensures var r := AddColumn(d, name, cell, bits, lc);
      mk in r.masks && r.masks[mk] == bits
  {
    var u := Underscored(name);
    var d1 := AddKey(d, name, cell, bits, lc);
    if mk in MaskVariants(u, lc) && u != name {
      AddKeyMask(d1, u, cell, bits, lc, mk);
    } else {
      AddKeyMask(d, name, cell, bits, lc, mk);
      if u != name {
        AddKeyKeepsMask(d1, u, cell, bits, lc, mk);
      }
    }
  }

  /** A key a column does not write keeps its entry. */
  lemma AddColumnKeeps(d: RowDict, name: string, cell: Cell, bits: seq<bool>, lc: (bool, bool), k: string, mk: string)
    requires k !in ValueKeys(name, lc) && mk !in MaskKeys(name, lc)
    ensures SameEntries(AddColumn(d, name, cell, bits, lc), d, k, mk)
  {
    var u := Underscored(name);
    var d1 := AddKey(d, name, cell, bits, lc);
    AddKeyKeepsValue(d, name, cell, bits, lc, k);
    AddKeyKeepsMask(d, name, cell, bits, lc, mk);
    AddKeyKeepsValue(d1, u, cell, bits, lc, k);
    AddKeyKeepsMask(d1, u, cell, bits, lc, mk);
  }

  /** Two dictionaries agree on the value key k and the mask key mk. */
  predicate SameEntries(a: RowDict, b: RowDict, k: string, mk: string)
  {
    (k in a.values <==> k in b.values) && (k in b.values ==> a.values[k] == b.values[k]) &&
    (mk in a.masks <==> mk in b.masks) && (mk in b.masks ==> a.masks[mk] == b.masks[mk])
  }

  lemma SameEntriesTrans(a: RowDict, b: RowDict, c: RowDict, k: string, mk: string)
    requires SameEntries(a, b, k, mk) && SameEntries(b, c, k, mk)
    ensures SameEntries(a, c, k, mk)
  {
  }

  /** The dictionary of a row is that of all columns but the last, with
      the last column added. */
  lemma RowDictOfLast(row: nat, names: seq<string>, values: map<string, seq<Cell>>, masks: map<string, Mask>,
                      lc: (bool, bool))
    requires HasRow(names, values, masks, row) && |names| > 0
    ensures HasRow(names[..|names| - 1], values, masks, row)
    ensures var n := |names| - 1;
      RowDictOf(row, names, values, masks, lc) ==
        AddColumn(RowDictOf(row, names[..n], values, masks, lc), names[n], values[names[n]][row],
                  MaskRow(masks[names[n]], row), lc)
  {
    var n := |names| - 1;
    assert forall j :: 0 <= j < n ==> names[..n][j] == names[j];
  }

  /** A key the last column does not write keeps the entry it had before
      that column. */
  lemma LastColumnKeeps(row: nat, names: seq<string>, values: map<string, seq<Cell>>, masks: map<string, Mask>,
                        lc: (bool, bool), k: string, mk: string)
    requires HasRow(names, values, masks, row) && |names| > 0
    requires k !in ValueKeys(names[|names| - 1], lc) && mk !in MaskKeys(names[|names| - 1], lc)
    ensures HasRow(names[..|names| - 1], values, masks, row)
    ensures SameEntries(RowDictOf(row, names, values, masks, lc), RowDictOf(row, names[..|names| - 1], values, masks, lc), k, mk)
  {
    var n := |names| - 1;
    RowDictOfLast(row, names, values, masks, lc);
    AddColumnKeeps(RowDictOf(row, names[..n], values, masks, lc), names[n], values[names[n]][row],
                   MaskRow(masks[names[n]], row), lc, k, mk);
  }

  /** A key that no later column writes keeps the entry it had after the
      first i+1 columns. */
  lemma {:induction false} LaterColumnsKeep(row: nat, names: seq<string>, values: map<string, seq<Cell>>,
                                            masks: map<string, Mask>, lc: (bool, bool), i: int, k: string, mk: string)
    requires HasRow(names, values, masks, row) && 0 <= i < |names|
    requires forall j :: i < j < |names| ==> k !in ValueKeys(names[j], lc) && mk !in MaskKeys(names[j], lc)
    ensures HasRow(names[..i + 1], values, masks, row)
    ensures SameEntries(RowDictOf(row, names, values, masks, lc), RowDictOf(row, names[..i + 1], values, masks, lc), k, mk)
    decreases |names|
  {
    assert forall j :: 0 <= j < i + 1 ==> names[..i + 1][j] == names[j];
    if i + 1 < |names| {
      var init := names[..|names| - 1];
      LastColumnKeeps(row, names, values, masks, lc, k, mk);
      LaterColumnsKeep(row, init, values, masks, lc, i, k, mk);
      assert init[..i + 1] == names[..i + 1];
      SameEntriesTrans(RowDictOf(row, names, values, masks, lc), RowDictOf(row, init, values, masks, lc),
                       RowDictOf(row, names[..i + 1], values, masks, lc), k, mk);
    } else {
      assert names[..i + 1] == names;
    }
  }

  /** A column whose keys no later column writes can be read back from
      the row dictionary: its value of the row under its name (and its
      underscored name), its lower-cased value under "<name>_lower" when
      asked, and its mask bits of the row under "<name>_mask" (and the
      underscored "<name>_mask"). */
  lemma RowDictColumn(row: nat, names: seq<string>, values: map<string, seq<Cell>>, masks: map<string, Mask>,
                      lc: (bool, bool), i: int, k: string, mk: string)
    requires HasRow(names, values, masks, row) && 0 <= i < |names|
    requires k in ValueKeys(names[i], lc) && mk in MaskKeys(names[i], lc)
    requires forall j :: i < j < |names| ==> k !in ValueKeys(names[j], lc) && mk !in MaskKeys(names[j], lc)
    ensures var d := RowDictOf(row, names, values, masks, lc); var cell := values[names[i]][row];
      k in d.values && d.values[k] == (if |k| == |names[i]| then cell else LowerCell(cell)) &&
      mk in d.masks && d.masks[mk] == MaskRow(masks[names[i]], row)
  {
    var name := names[i];
    LaterColumnsKeep(row, names, values, masks, lc, i, k, mk);
    var pre := names[..i + 1];
    assert pre[..i] == names[..i] && pre[i] == name;
    var d := RowDictOf(row, pre[..i], values, masks, lc);
    AddColumnValue(d, name, values[name][row], MaskRow(masks[name], row), lc, k);
    AddColumnMask(d, name, values[name][row], MaskRow(masks[name], row), lc, mk);
  }

  /** The dictionaries of the first `rows` rows. */
  function RowDicts(rows: nat, names: seq<string>, values: map<string, seq<Cell>>, masks: map<string, Mask>,
                    lc: (bool, bool)): (r: seq<RowDict>)
    requires forall row :: 0 <= row < rows ==> HasRow(names, values, masks, row)
    ensures |r| == rows
  {
    seq(rows, row requires 0 <= row < rows => RowDictOf(row, names, values, masks, lc))
  }

  /** dicts_by_row: for each row, the entries of each column in turn. */
  method BuildRowDicts(rows: nat, names: seq<string>, values: map<string, seq<Cell>>, masks: map<string, Mask>,
                       lc: (bool, bool)) returns (dicts: seq<RowDict>)
    requires forall row :: 0 <= row < rows ==> HasRow(names, values, masks, row)
    ensures dicts == RowDicts(rows, names, values, masks, lc)
  {
    dicts := [];
    var row := 0;
    while row < rows
      invariant 0 <= row <= rows && |dicts| == row
      invariant forall r :: 0 <= r < row ==> dicts[r] == RowDictOf(r, names, values, masks, lc)
    {
      assert HasRow(names, values, masks, row);
      var d := RowDict(map[], map[]);
      var j := 0;
      while j < |names|
        invariant 0 <= j <= |names| && HasRow(names[..j], values, masks, row)
        invariant d == RowDictOf(row, names[..j], values, masks, lc)
      {
        var name := names[j];
        assert names[..j + 1][..j] == names[..j];
        d := AddColumn(d, name, values[name][row], MaskRow(masks[name], row), lc);
        j := j + 1;
      }
      assert names[..j] == names;
      dicts := dicts + [d];
      row := row + 1;
    }
  }

  // ---------------------------------------------------------------------
  // find_row_indices and find_row_index (pdstable/__init__.py:575-665)

  /** One test of find_row_indices: the dictionary key, the value sought,
      whether containing it suffices, and the key of the mask to check. */
  datatype Test = Test(key: string, value: Value, substring: bool, maskKey: string)

  /** The test for one keyword argument. A key ending in "_lower" looks
      for the lower-cased value, checks the mask of the key it was made
      from, and is a substring test when either key is listed. */
  function TestOf(key: string, value: Value, substrings: seq<string>): Test
  {
    if EndsWith(key, "_lower") then
      var base := key[..|key| - 6];
      Test(key, LowerValue(value), key in substrings || base in substrings, base + "_mask")
    else
      Test(key, value, key in substrings, key + "_mask")
  }

  /** The tests for all keyword arguments, in order. */
  function Tests(params: seq<(string, Value)>, substrings: seq<string>): (r: seq<Test>)
    ensures |r| == |params|
  {
    seq(|params|, i requires 0 <= i < |params| => TestOf(params[i].0, params[i].1, substrings))
  }

  /** A "_lower" key checks the same mask as the key it was made from,
      looks for the lower-cased value, and is a substring test when
      either key is listed. */
  lemma LowerKeyTest(key: string, value: Value, substrings: seq<string>)
    requires !EndsWith(key, "_lower")
    ensures var t := TestOf(key + "_lower", value, substrings);
      t.maskKey == TestOf(key, value, substrings).maskKey && t.value == LowerValue(value) &&
      (t.substring <==> key + "_lower" in substrings || key in substrings)
  {
    var k := key + "_lower";
    assert EndsWith(k, "_lower");
    assert k[..|k| - 6] == key;
  }

  /** numpy.any over a row's mask bits. */
  predicate AnyTrue(bits: seq<bool>)
  {
    exists i :: 0 <= i < |bits| && bits[i]
  }

  /** The values of a cell, one per item. */
  function ItemsOf(c: Cell): seq<Value>
  {
    match c
    case Single(v) => [v]
    case Tuple(vs) => vs
  }

  /** One test on one row: a missing key is an error; a masked row fails;
      a substring test needs strings (a number is not iterable, and a
      non-string inside a tuple cannot hold a string); otherwise every
      item must equal the value. */
  function TestResult(d: RowDict, t: Test): Result<bool>
  {
    if t.maskKey !in d.masks then Err(MissingKey(t.maskKey))
    else if AnyTrue(d.masks[t.maskKey]) then Ok(false)
    else if t.key !in d.values then Err(MissingKey(t.key))
    else
      var cell := d.values[t.key];
      if t.substring then
        match cell
        case Single(v) =>
          if !v.StrV? then Err(NotIterable)
          else if !t.value.StrV? then Err(NotComparable)
          else Ok(Contains(t.value.s, v.s))
        case Tuple(vs) =>
          if |vs| > 0 && (!t.value.StrV? || exists i :: 0 <= i < |vs| && !vs[i].StrV?) then Err(NotComparable)
          else Ok(forall i :: 0 <= i < |vs| ==> Contains(t.value.s, vs[i].s))
      else
        var items := ItemsOf(cell);
        Ok(forall i :: 0 <= i < |items| ==> ValueEq(t.value, items[i]))
  }

  /** The tests on one row, in order, stopping at the first that fails. */
  function RowMatch(d: RowDict, tests: seq<Test>): Result<bool>
  {
    if |tests| == 0 then Ok(true)
    else
      match TestResult(d, tests[0])
      case Err(e) => Err(e)
      case Ok(pass) => if !pass then Ok(false) else RowMatch(d, tests[1..])
  }

  /** A row matches exactly when it passes every test. */
  lemma {:induction false} RowMatchAll(d: RowDict, tests: seq<Test>)
    ensures RowMatch(d, tests) == Ok(true) <==> forall i :: 0 <= i < |tests| ==> TestResult(d, tests[i]) == Ok(true)
  {
    if |tests| > 0 {
      RowMatchAll(d, tests[1..]);
      assert forall i :: 1 <= i < |tests| ==> tests[1..][i - 1] == tests[i];
    }
  }

  /** A row fails to match exactly when it fails some test after passing
      all earlier ones. */
  lemma {:induction false} RowMatchFirstFailure(d: RowDict, tests: seq<Test>)
    ensures RowMatch(d, tests) == Ok(false) <==>
      exists i :: 0 <= i < |tests| && TestResult(d, tests[i]) == Ok(false) &&
        forall j :: 0 <= j < i ==> TestResult(d, tests[j]) == Ok(true)
  {
    if |tests| > 0 && TestResult(d, tests[0]) == Ok(true) {
      var rest := tests[1..];
      RowMatchFirstFailure(d, rest);
      assert forall i :: 1 <= i < |tests| ==> rest[i - 1] == tests[i];
      if RowMatch(d, rest) == Ok(false) {
        var i :| 0 <= i < |rest| && TestResult(d, rest[i]) == Ok(false) &&
          forall j :: 0 <= j < i ==> TestResult(d, rest[j]) == Ok(true);
        assert TestResult(d, tests[i + 1]) == Ok(false) &&
          forall j :: 0 <= j < i + 1 ==> TestResult(d, tests[j]) == Ok(true);
      }
      if exists i :: 0 <= i < |tests| && TestResult(d, tests[i]) == Ok(false) &&
           forall j :: 0 <= j < i ==> TestResult(d, tests[j]) == Ok(true) {
        var i :| 0 <= i < |tests| && TestResult(d, tests[i]) == Ok(false) &&
          forall j :: 0 <= j < i ==> TestResult(d, tests[j]) == Ok(true);
        assert i >= 1 && TestResult(d, rest[i - 1]) == Ok(false);
      }
    }
  }

  /** The loop over the tests of one row. */
  method MatchRow(d: RowDict, tests: seq<Test>) returns (r: Result<bool>)
    ensures r == RowMatch(d, tests)
  {
    var i := 0;
    while i < |tests|
      invariant 0 <= i <= |tests| && RowMatch(d, tests[i..]) == RowMatch(d, tests)
    {
      var t := TestResult(d, tests[i]);
      if t.Err? {
        return Err(t.error);
      }
      if !t.value {
        return Ok(false);
      }
      assert tests[i..][1..] == tests[i + 1..];
      i := i + 1;
    }
    return Ok(true);
  }

  /** The search stops once it holds `limit` matches; a negative limit is
      reached by the first match, and 0 (or no limit) is never reached. */
  predicate Stopped(m: seq<int>, limit: int)
  {
    limit != 0 && |m| >= 1 && |m| >= limit
  }

  /** find_row_indices over the first n rows: the rows that pass every
      test, in order, until the limit is reached; the first error of a
      row's tests is the search's. */
  function Search(dicts: seq<RowDict>, tests: seq<Test>, limit: int, n: nat): Result<seq<int>>
    requires n <= |dicts|
  {
    if n == 0 then Ok([])
    else
      match Search(dicts, tests, limit, n - 1)
      case Err(e) => Err(e)
      case Ok(m) =>
        if Stopped(m, limit) then Ok(m)
        else
          match RowMatch(dicts[n - 1], tests)
          case Err(e) => Err(e)
          case Ok(hit) => Ok(if hit then m + [n - 1] else m)
  }

  /** Every row among the first n that matches, in order. */
  function Matching(dicts: seq<RowDict>, tests: seq<Test>, n: nat): (r: seq<int>)
    requires n <= |dicts|
    ensures forall i :: 0 <= i < |r| ==> 0 <= r[i] < n
    ensures forall i, j :: 0 <= i < j < |r| ==> r[i] < r[j]
    ensures forall k :: k in r <==> 0 <= k < n && RowMatch(dicts[k], tests) == Ok(true)
  {
    if n == 0 then []
    else
      var m := Matching(dicts, tests, n - 1);
      if RowMatch(dicts[n - 1], tests) == Ok(true) then m + [n - 1] else m
  }

  /** Once the search has failed or stopped, later rows change nothing. */
  lemma {:induction false} SearchSettled(dicts: seq<RowDict>, tests: seq<Test>, limit: int, k: nat, n: nat)
    requires k <= n <= |dicts|
    requires Search(dicts, tests, limit, k).Err? || Stopped(Search(dicts, tests, limit, k).value, limit)
    ensures Search(dicts, tests, limit, n) == Search(dicts, tests, limit, k)
    decreases n
  {
    if n > k {
      SearchSettled(dicts, tests, limit, k, n - 1);
    }
  }

  /** The search fails only on a row whose tests fail with an error, and
      then it fails with the first such error before the limit. */
  lemma {:induction false} SearchErrors(dicts: seq<RowDict>, tests: seq<Test>, limit: int, n: nat)
    requires n <= |dicts|
    ensures Search(dicts, tests, limit, n).Err? ==> exists k :: 0 <= k < n && RowMatch(dicts[k], tests).Err?
    ensures (forall k :: 0 <= k < n ==> RowMatch(dicts[k], tests).Ok?) ==> Search(dicts, tests, limit, n).Ok?
    decreases n
  {
    if n > 0 {
      SearchErrors(dicts, tests, limit, n - 1);
    }
  }

  /** What find_row_indices returns: the first matching rows in ascending
      order, all of them when there is no limit, at most `limit` of them
      for a positive limit and at most one for a negative limit; when it
      returns fewer than all, it has reached the limit. */
  lemma {:induction false} SearchFindsFirstMatches(dicts: seq<RowDict>, tests: seq<Test>, limit: int, n: nat)
    requires n <= |dicts| && Search(dicts, tests, limit, n).Ok?
    ensures var m := Search(dicts, tests, limit, n).value; var all := Matching(dicts, tests, n);
      |m| <= |all| && m == all[..|m|] &&
      (m == all || Stopped(m, limit)) &&
      (limit > 0 ==> |m| <= limit) && (limit < 0 ==> |m| <= 1) && (limit == 0 ==> m == all)
    decreases n
  {
    if n > 0 {
      var prev := Search(dicts, tests, limit, n - 1);
      assert prev.Ok?;
      SearchFindsFirstMatches(dicts, tests, limit, n - 1);
      var all := Matching(dicts, tests, n - 1);
      if !Stopped(prev.value, limit) && RowMatch(dicts[n - 1], tests) == Ok(true) {
        assert (all + [n - 1])[..|prev.value| + 1] == prev.value + [n - 1];
      } else if RowMatch(dicts[n - 1], tests) == Ok(true) {
        assert (all + [n - 1])[..|prev.value|] == all[..|prev.value|];
      }
    }
  }

  /** The loop of find_row_indices: test each row in turn, keep the
      matches, return as soon as the limit is reached. */
  method SearchRows(dicts: seq<RowDict>, tests: seq<Test>, limit: int) returns (r: Result<seq<int>>)
    ensures r == Search(dicts, tests, limit, |dicts|)
  {
    var matches: seq<int> := [];
    var k := 0;
    while k < |dicts|
      invariant 0 <= k <= |dicts| && Search(dicts, tests, limit, k) == Ok(matches) && !Stopped(matches, limit)
    {
      var hit := MatchRow(dicts[k], tests);
      if hit.Err? {
        SearchSettled(dicts, tests, limit, k + 1, |dicts|);
        return Err(hit.error);
      }
      if hit.value {
        matches := matches + [k];
        if Stopped(matches, limit) {
          SearchSettled(dicts, tests, limit, k + 1, |dicts|);
          return Ok(matches);
        }
      }
      k := k + 1;
    }
    return Ok(matches);
  }

  /** find_row_index: the first index found, or "row not found". */
  function FirstFound(found: Result<seq<int>>): (r: Result<int>)
  {
    match found
    case Err(e) => Err(e)
    case Ok(m) => if |m| == 0 then Err(RowNotFound) else Ok(m[0])
  }

  /** find_row_index gives the first matching row, and "row not found"
      exactly when no row matches. */
  lemma FirstFoundIsFirstMatch(dicts: seq<RowDict>, tests: seq<Test>)
    requires Search(dicts, tests, 1, |dicts|).Ok?
    ensures var r := FirstFound(Search(dicts, tests, 1, |dicts|));
      (r == Err(RowNotFound) <==> forall k :: 0 <= k < |dicts| ==> RowMatch(dicts[k], tests) != Ok(true)) &&
      (r.Ok? ==> (
        0 <= r.value < |dicts| && RowMatch(dicts[r.value], tests) == Ok(true) &&
        forall k :: 0 <= k < r.value ==> RowMatch(dicts[k], tests) != Ok(true)))
  {
    SearchFindsFirstMatches(dicts, tests, 1, |dicts|);
    var all := Matching(dicts, tests, |dicts|);
    if |all| > 0 {
      assert all[0] in all;
    }
  }

  /** What a row must hold to pass a test: no true mask bit for the key,
      and every item of its value equal to the value sought, or, for a
      substring test, every item a string containing it. */
  predicate Satisfies(d: RowDict, t: Test)
  {
    t.maskKey in d.masks && !AnyTrue(d.masks[t.maskKey]) && t.key in d.values &&
    var items := ItemsOf(d.values[t.key]);
    forall i :: 0 <= i < |items| ==>
      if t.substring then t.value.StrV? && items[i].StrV? && Contains(t.value.s, items[i].s)
      else ValueEq(t.value, items[i])
  }

  /** Every row find_row_indices returns satisfies every test. */
  lemma SearchSound(dicts: seq<RowDict>, tests: seq<Test>, limit: int)
    requires Search(dicts, tests, limit, |dicts|).Ok?
    ensures var m := Search(dicts, tests, limit, |dicts|).value;
      forall i, j :: 0 <= i < |m| && 0 <= j < |tests| ==> 0 <= m[i] < |dicts| && Satisfies(dicts[m[i]], tests[j])
  {
    SearchFindsFirstMatches(dicts, tests, limit, |dicts|);
    var m := Search(dicts, tests, limit, |dicts|).value;
    var all := Matching(dicts, tests, |dicts|);
    forall i, j | 0 <= i < |m| && 0 <= j < |tests|
      ensures 0 <= m[i] < |dicts| && Satisfies(dicts[m[i]], tests[j])
    {
      assert m[i] == all[i] && all[i] in all;
      RowMatchAll(dicts[m[i]], tests);
      PassedTest(dicts[m[i]], tests[j]);
    }
  }

  lemma PassedTest(d: RowDict, t: Test)
    requires TestResult(d, t) == Ok(true)
    ensures Satisfies(d, t)
  {
  }

  // ---------------------------------------------------------------------
  // index_rows_by_filename_key and row_indices_by_filename_key
  // (pdstable/__init__.py:908-942)

  /** The filename index: the rows of each lower-cased key, and the keys
      in their original case in the order they were first seen. */
  datatype FileIndex = FileIndex(rowsByKey: map<string, seq<int>>, keys: seq<string>)

  /** A row's file specification is a string. */
  predicate IsFileName(c: Cell)
  {
    c.Single? && c.v.StrV?
  }

  /** The lower-cased key a row is filed under. */
  function RowKey(specs: seq<Cell>, k: int, keyOf: string -> string): string
    requires 0 <= k < |specs| && IsFileName(specs[k])
  {
    Lower(keyOf(specs[k].v.s))
  }

  /** Row k filed under `key` (as written): a new lower-cased key gets a
      list of its own and is recorded, a known one gets k appended. */
  function AddRow(idx: FileIndex, key: string, k: int): FileIndex
  {
    var klc := Lower(key);
    if klc !in idx.rowsByKey then FileIndex(idx.rowsByKey[klc := [k]], idx.keys + [key])
    else FileIndex(idx.rowsByKey[klc := idx.rowsByKey[klc] + [k]], idx.keys)
  }

  /** The index of the first n rows: a masked row is skipped; any other
      row is filed under its key. A file specification that is not a
      string is an error. */
  function FilenameIndex(specs: seq<Cell>, masked: seq<bool>, keyOf: string -> string, n: nat): Result<FileIndex>
    requires n <= |specs| == |masked|
  {
    if n == 0 then Ok(FileIndex(map[], []))
    else
      match FilenameIndex(specs, masked, keyOf, n - 1)
      case Err(e) => Err(e)
      case Ok(idx) =>
        var k := n - 1;
        if masked[k] then Ok(idx)
        else if !IsFileName(specs[k]) then Err(NotComparable)
        else Ok(AddRow(idx, keyOf(specs[k].v.s), k))
  }

  /** The rows listed under `key` are rows before n, unmasked, filed
      under that key, in ascending order. */
  predicate Listed(rows: seq<int>, key: string, specs: seq<Cell>, masked: seq<bool>, keyOf: string -> string, n: nat)
    requires n <= |specs| == |masked|
  {
    |rows| > 0 &&
    (forall i :: 0 <= i < |rows| ==>
      0 <= rows[i] < n && !masked[rows[i]] && IsFileName(specs[rows[i]]) && RowKey(specs, rows[i], keyOf) == key) &&
    (forall i, j :: 0 <= i < j < |rows| ==> rows[i] < rows[j])
  }

  /** Every list of the index is sound for the first n rows. */
  ghost predicate ListsSound(idx: FileIndex, specs: seq<Cell>, masked: seq<bool>, keyOf: string -> string, n: nat)
    requires n <= |specs| == |masked|
  {
    forall key :: key in idx.rowsByKey ==> Listed(idx.rowsByKey[key], key, specs, masked, keyOf, n)
  }

  /** Every unmasked row among the first n is in the list of its key. */
  ghost predicate AllFiled(idx: FileIndex, specs: seq<Cell>, masked: seq<bool>, keyOf: string -> string, n: nat)
    requires n <= |specs| == |masked|
  {
    forall k :: 0 <= k < n && !masked[k] ==>
      IsFileName(specs[k]) && RowKey(specs, k, keyOf) in idx.rowsByKey && k in idx.rowsByKey[RowKey(specs, k, keyOf)]
  }

  /** The recorded keys are the index's keys, each as written in the
      first row filed under it, in the order of those first rows. */
  ghost predicate KeysFirstSeen(idx: FileIndex, specs: seq<Cell>, keyOf: string -> string)
  {
    (forall key :: key in idx.rowsByKey <==> key in LowerAll(idx.keys)) &&
    (forall key :: key in idx.rowsByKey ==> |idx.rowsByKey[key]| > 0 && 0 <= idx.rowsByKey[key][0] < |specs|) &&
    (forall i :: 0 <= i < |idx.keys| ==> (
      Lower(idx.keys[i]) in idx.rowsByKey && IsFileName(specs[idx.rowsByKey[Lower(idx.keys[i])][0]]) &&
      idx.keys[i] == keyOf(specs[idx.rowsByKey[Lower(idx.keys[i])][0]].v.s))) &&
    (forall i, j :: 0 <= i < j < |idx.keys| ==>
      Lower(idx.keys[i]) in idx.rowsByKey && Lower(idx.keys[j]) in idx.rowsByKey &&
      idx.rowsByKey[Lower(idx.keys[i])][0] < idx.rowsByKey[Lower(idx.keys[j])][0])
  }

  /** The index describes the first n rows. */
  ghost predicate Describes(idx: FileIndex, specs: seq<Cell>, masked: seq<bool>, keyOf: string -> string, n: nat)
    requires n <= |specs| == |masked|
  {
    ListsSound(idx, specs, masked, keyOf, n) && AllFiled(idx, specs, masked, keyOf, n) &&
    KeysFirstSeen(idx, specs, keyOf)
  }

  lemma ListsSoundStep(idx: FileIndex, specs: seq<Cell>, masked: seq<bool>, keyOf: string -> string, k: nat)
    requires k < |specs| == |masked| && ListsSound(idx, specs, masked, keyOf, k)
    requires !masked[k] && IsFileName(specs[k])
    ensures ListsSound(AddRow(idx, keyOf(specs[k].v.s), k), specs, masked, keyOf, k + 1)
  {
    var klc := RowKey(specs, k, keyOf);
    var next := AddRow(idx, keyOf(specs[k].v.s), k);
    forall key | key in next.rowsByKey
      ensures Listed(next.rowsByKey[key], key, specs, masked, keyOf, k + 1)
    {
      if key != klc {
        assert next.rowsByKey[key] == idx.rowsByKey[key];
        assert Listed(idx.rowsByKey[key], key, specs, masked, keyOf, k);
      } else if klc in idx.rowsByKey {
        assert Listed(idx.rowsByKey[key], key, specs, masked, keyOf, k);
      }
    }
  }

  lemma AllFiledStep(idx: FileIndex, specs: seq<Cell>, masked: seq<bool>, keyOf: string -> string, k: nat)
    requires k < |specs| == |masked| && AllFiled(idx, specs, masked, keyOf, k)
    requires !masked[k] && IsFileName(specs[k])
    ensures AllFiled(AddRow(idx, keyOf(specs[k].v.s), k), specs, masked, keyOf, k + 1)
  {
    var klc := RowKey(specs, k, keyOf);
    var next := AddRow(idx, keyOf(specs[k].v.s), k);
    forall j | 0 <= j < k + 1 && !masked[j]
      ensures IsFileName(specs[j]) && RowKey(specs, j, keyOf) in next.rowsByKey &&
        j in next.rowsByKey[RowKey(specs, j, keyOf)]
    {
      if j < k && RowKey(specs, j, keyOf) == klc {
        assert j in idx.rowsByKey[klc];
      }
    }
  }

  lemma KeysFirstSeenStep(idx: FileIndex, specs: seq<Cell>, masked: seq<bool>, keyOf: string -> string, k: nat)
    requires k < |specs| == |masked| && KeysFirstSeen(idx, specs, keyOf) && ListsSound(idx, specs, masked, keyOf, k)
    requires !masked[k] && IsFileName(specs[k])
    ensures KeysFirstSeen(AddRow(idx, keyOf(specs[k].v.s), k), specs, keyOf)
  {
    if Lower(keyOf(specs[k].v.s)) !in idx.rowsByKey {
      forall i | 0 <= i < |idx.keys|
        ensures idx.rowsByKey[Lower(idx.keys[i])][0] < k
      {
        assert Listed(idx.rowsByKey[Lower(idx.keys[i])], Lower(idx.keys[i]), specs, masked, keyOf, k);
      }
      KeysFirstSeenNewKey(idx, specs, keyOf, k);
    } else {
      KeysFirstSeenOldKey(idx, specs, keyOf, k);
    }
  }

  /** A key not seen before is recorded after all others, with row k first. */
  lemma KeysFirstSeenNewKey(idx: FileIndex, specs: seq<Cell>, keyOf: string -> string, k: nat)
    requires k < |specs| && KeysFirstSeen(idx, specs, keyOf) && IsFileName(specs[k])
    requires Lower(keyOf(specs[k].v.s)) !in idx.rowsByKey
    requires forall i :: 0 <= i < |idx.keys| ==> idx.rowsByKey[Lower(idx.keys[i])][0] < k
    ensures KeysFirstSeen(AddRow(idx, keyOf(specs[k].v.s), k), specs, keyOf)
  {
    var key := keyOf(specs[k].v.s);
    var next := AddRow(idx, key, k);
    assert LowerAll(next.keys) == LowerAll(idx.keys) + [Lower(key)];
    assert next.keys[|idx.keys|] == key;
  }

  /** A key seen before keeps its first row and its place. */
  lemma KeysFirstSeenOldKey(idx: FileIndex, specs: seq<Cell>, keyOf: string -> string, k: nat)
    requires k < |specs| && KeysFirstSeen(idx, specs, keyOf) && IsFileName(specs[k])
    requires Lower(keyOf(specs[k].v.s)) in idx.rowsByKey
    ensures KeysFirstSeen(AddRow(idx, keyOf(specs[k].v.s), k), specs, keyOf)
  {
    var next := AddRow(idx, keyOf(specs[k].v.s), k);
    assert next.keys == idx.keys;
    forall key' | key' in idx.rowsByKey
      ensures next.rowsByKey[key'][0] == idx.rowsByKey[key'][0]
    {
    }
  }

  /** The filename index fails only on an unmasked row whose file
      specification is not a string. */
  lemma {:induction false} FilenameIndexFails(specs: seq<Cell>, masked: seq<bool>, keyOf: string -> string, n: nat)
    requires n <= |specs| == |masked|
    ensures FilenameIndex(specs, masked, keyOf, n).Ok? <==> forall k :: 0 <= k < n && !masked[k] ==> IsFileName(specs[k])
    decreases n
  {
    if n > 0 {
      FilenameIndexFails(specs, masked, keyOf, n - 1);
    }
  }

  /** Otherwise it describes the rows: every list is sound, every
      unmasked row is filed under its key, and the keys are recorded as
      first seen. */
  lemma {:induction false} FilenameIndexSpec(specs: seq<Cell>, masked: seq<bool>, keyOf: string -> string, n: nat)
    requires n <= |specs| == |masked| && FilenameIndex(specs, masked, keyOf, n).Ok?
    ensures Describes(FilenameIndex(specs, masked, keyOf, n).value, specs, masked, keyOf, n)
    decreases n
  {
    if n > 0 {
      var k := n - 1;
      var prev := FilenameIndex(specs, masked, keyOf, k);
      assert prev.Ok?;
      FilenameIndexSpec(specs, masked, keyOf, k);
      var idx := prev.value;
      if !masked[k] {
        ListsSoundStep(idx, specs, masked, keyOf, k);
        AllFiledStep(idx, specs, masked, keyOf, k);
        KeysFirstSeenStep(idx, specs, masked, keyOf, k);
      } else {
        MaskedRowSkipped(idx, specs, masked, keyOf, k);
      }
    }
  }

  lemma MaskedRowSkipped(idx: FileIndex, specs: seq<Cell>, masked: seq<bool>, keyOf: string -> string, k: nat)
    requires k < |specs| == |masked| && Describes(idx, specs, masked, keyOf, k) && masked[k]
    ensures Describes(idx, specs, masked, keyOf, k + 1)
  {
    forall key | key in idx.rowsByKey
      ensures Listed(idx.rowsByKey[key], key, specs, masked, keyOf, k + 1)
    {
      assert Listed(idx.rowsByKey[key], key, specs, masked, keyOf, k);
    }
  }

  /** Every unmasked row is in exactly one list: the list of its own key. */
  lemma FiledOnce(specs: seq<Cell>, masked: seq<bool>, keyOf: string -> string, k: int, key: string)
    requires |specs| == |masked| && FilenameIndex(specs, masked, keyOf, |specs|).Ok?
    requires 0 <= k < |specs| && !masked[k]
    ensures var idx := FilenameIndex(specs, masked, keyOf, |specs|).value;
      IsFileName(specs[k]) &&
      (key in idx.rowsByKey && k in idx.rowsByKey[key] <==> key == RowKey(specs, k, keyOf))
  {
    FilenameIndexSpec(specs, masked, keyOf, |specs|);
    var idx := FilenameIndex(specs, masked, keyOf, |specs|).value;
    assert AllFiled(idx, specs, masked, keyOf, |specs|);
    if key in idx.rowsByKey && k in idx.rowsByKey[key] {
      var rows := idx.rowsByKey[key];
      assert Listed(rows, key, specs, masked, keyOf, |specs|);
      var i :| 0 <= i < |rows| && rows[i] == k;
    }
  }

  /** The loop of index_rows_by_filename_key. */
  method IndexFilenames(specs: seq<Cell>, masked: seq<bool>, keyOf: string -> string) returns (r: Result<FileIndex>)
    requires |specs| == |masked|
    ensures r == FilenameIndex(specs, masked, keyOf, |specs|)
  {
    var rowsByFilename: map<string, seq<int>> := map[];
    var filenameKeys: seq<string> := [];
    var k := 0;
    while k < |specs|
      invariant 0 <= k <= |specs|
      invariant FilenameIndex(specs, masked, keyOf, k) == Ok(FileIndex(rowsByFilename, filenameKeys))
    {
      if masked[k] {
        k := k + 1;
        continue;
      }
      if !IsFileName(specs[k]) {
        IndexSettled(specs, masked, keyOf, k + 1, |specs|);
        return Err(NotComparable);
      }
      ghost var before := FileIndex(rowsByFilename, filenameKeys);
      var key := keyOf(specs[k].v.s);
      var keyLc := Lower(key);
      ghost var isNew := keyLc !in rowsByFilename;
      if keyLc !in rowsByFilename {
        rowsByFilename := rowsByFilename[keyLc := []];
        filenameKeys := filenameKeys + [key];
      }
      rowsByFilename := rowsByFilename[keyLc := rowsByFilename[keyLc] + [k]];
      if isNew {
        assert [] + [k] == [k];
        assert rowsByFilename == before.rowsByKey[keyLc := [k]];
      } else {
        assert rowsByFilename == before.rowsByKey[keyLc := before.rowsByKey[keyLc] + [k]];
      }
      assert FileIndex(rowsByFilename, filenameKeys) == AddRow(before, key, k);
      k := k + 1;
    }
    return Ok(FileIndex(rowsByFilename, filenameKeys));
  }

  /** Once the index has failed, later rows change nothing. */
  lemma {:induction false} IndexSettled(specs: seq<Cell>, masked: seq<bool>, keyOf: string -> string, k: nat, n: nat)
    requires k <= n <= |specs| == |masked| && FilenameIndex(specs, masked, keyOf, k).Err?
    ensures FilenameIndex(specs, masked, keyOf, n) == FilenameIndex(specs, masked, keyOf, k)
    decreases n
  {
    if n > k {
      IndexSettled(specs, masked, keyOf, k, n - 1);
    }
  }

  /** row_indices_by_filename_key: the rows of the lower-cased key; an
      unknown key is an error. */
  function RowsOfKey(idx: FileIndex, key: string): (r: Result<seq<int>>)
    ensures r.Ok? <==> Lower(key) in idx.rowsByKey
  {
    var klc := Lower(key);
    if klc in idx.rowsByKey then Ok(idx.rowsByKey[klc]) else Err(UnknownKey(key))
  }

  /** Looking a key up in any case finds the rows filed under it: exactly
      the unmasked rows whose file name gives that key up to case. */
  lemma RowsOfKeyFindsRows(specs: seq<Cell>, masked: seq<bool>, keyOf: string -> string, key: string, k: int)
    requires |specs| == |masked| && FilenameIndex(specs, masked, keyOf, |specs|).Ok?
    requires 0 <= k < |specs| && !masked[k]
    ensures var r := RowsOfKey(FilenameIndex(specs, masked, keyOf, |specs|).value, key);
      IsFileName(specs[k]) && (r.Ok? && k in r.value <==> Lower(key) == RowKey(specs, k, keyOf))
  {
    FiledOnce(specs, masked, keyOf, k, Lower(key));
  }
}
