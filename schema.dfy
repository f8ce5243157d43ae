/** The schema shared by PDS3 and PDS4 tables: the byte geometry of a
    column (its field within a record and the items within that field),
    its logical type, its set of invalid values and its valid range.
    pdstable/__init__.py (PdsColumnInfo) and pdstable/pds4table.py
    (Pds4ColumnInfo) build the same record from differently named label
    fields; the label-specific parts live in modules Pds3 and Pds4. */
module Schema {
  import opened Common

  /** A fixed-width byte-string field ('S<width>') at a byte offset. */
  datatype Field = Field(width: int, offset: int)

  /** The logical type of a column. IntK carries the radix its scalar
      converter reads (10 for plain integers). */
  datatype Kind = StringK | IntK(base: nat) | FloatK | TimeK | BoolK
  {
    /** The data_type name the table code reports. */
    function Name(): string
    {
      match this
      case StringK => "string"
      case IntK(_) => "int"
      case FloatK => "float"
      case TimeK => "time"
      case BoolK => "boolean"
    }
  }

  /** An inclusive range of valid numeric values (VALID_RANGE). */
  datatype Range = Range(lo: real, hi: real)

  /** What a caller gives as the invalid values of a column: a lone number
      or string, or a collection of values. */
  datatype InvalidSpec = Scalar(v: Value) | Many(vs: set<Value>)

  /** The label's description of one column, after label parsing. The
      optional entries are the ones the code reads with a default;
      `constants` holds whichever label keywords the column defines, of
      which only the ten in ConstantKeys matter. */
  datatype ColumnNode = ColumnNode(
    name: string,
    startByte: int,
    bytes: int,
    items: Option<int>,
    itemBytes: Option<int>,
    itemOffset: Option<int>,
    dataType: string,
    validRange: Option<Range>,
    constants: map<string, Value>)

  /** The attributes of one column, as PdsColumnInfo and Pds4ColumnInfo
      hold them. dtype0 isolates the column in a record; dtype1 (absent
      for a single item) isolates each item within the column. */
  datatype ColumnInfo = ColumnInfo(
    name: string,
    colno: int,
    startByte: int,
    bytes: int,
    items: int,
    itemBytes: int,
    itemOffset: int,
    dtype0: Field,
    dtype1: Option<seq<Field>>,
    kind: Kind,
    validRange: Option<Range>,
    invalidValues: set<Value>)

  /** The attributes of a table and its columns. dtype0 maps each column
      name (and the record terminator "crlf") to its field. */
  datatype TableInfo = TableInfo(
    tableFileName: string,
    rows: int,
    columns: int,
    rowBytes: int,
    columnList: seq<ColumnInfo>,
    columnDict: map<string, ColumnInfo>,
    dtype0: map<string, Field>)

  /** The caller's per-column validity options, keyed by column name;
      the invalid entry "default" applies to columns not named. */
  datatype Validity = Validity(invalid: map<string, InvalidSpec>, validRanges: map<string, Range>)

  /** The label keywords whose values mark a column entry as invalid. */
  const ConstantKeys: set<string> := {
    "INVALID_CONSTANT", "MISSING_CONSTANT", "UNKNOWN_CONSTANT",
    "NOT_APPLICABLE_CONSTANT", "NULL_CONSTANT",
    "INVALID", "MISSING", "UNKNOWN", "NOT_APPLICABLE", "NULL"}

  /** The record terminator: two bytes at the end of every record. */
  function Terminator(rowBytes: int): (f: Field)
    ensures f.width == 2 && f.offset + f.width == rowBytes
  {
    Field(2, rowBytes - 2)
  }

  /** The field of item i: item_bytes wide, at i * item_offset. */
  function ItemField(i: int, itemBytes: int, itemOffset: int): Field
  {
    Field(itemBytes, i * itemOffset)
  }

  /** The loop that builds dtype1: byte0 starts at 0 and advances by
      item_offset after each item. */
  method ItemFields(items: int, itemBytes: int, itemOffset: int) returns (fields: seq<Field>)
    ensures |fields| == (if items > 0 then items else 0)
    ensures forall i :: 0 <= i < |fields| ==> fields[i] == ItemField(i, itemBytes, itemOffset)
  {
    fields := [];
    var byte0 := 0;
    var i := 0;
    while i < items
      invariant 0 <= i <= (if items > 0 then items else 0) && |fields| == i
      invariant byte0 == i * itemOffset
      invariant forall j :: 0 <= j < i ==> fields[j] == ItemField(j, itemBytes, itemOffset)
    {
      fields := fields + [Field(itemBytes, byte0)];
      byte0 := byte0 + itemOffset;
      i := i + 1;
    }
  }

  /** The caller's invalid values: a lone number or string becomes a
      one-element set. */
  function CallerInvalid(spec: InvalidSpec): (r: set<Value>)
    ensures spec.Scalar? ==> r == {spec.v}
    ensures spec.Many? ==> r == spec.vs
  {
    match spec
    case Scalar(v) => {v}
    case Many(vs) => vs
  }

  /** The values the label's constant keywords give a column. */
  function LabelInvalid(constants: map<string, Value>): (r: set<Value>)
    ensures forall k :: k in ConstantKeys && k in constants ==> constants[k] in r
    ensures forall v :: v in r ==> exists k :: k in ConstantKeys && k in constants && constants[k] == v
  {
    set k | k in constants && k in ConstantKeys :: constants[k]
  }

  /** invalid_values: the caller's values together with the label's
      constants. Absent keywords contribute nothing (the code adds None
      and then removes it). */
  function InvalidValues(spec: InvalidSpec, constants: map<string, Value>): (r: set<Value>)
    ensures CallerInvalid(spec) <= r
    ensures forall k :: k in ConstantKeys && k in constants ==> constants[k] in r
    ensures forall v :: v in r ==> v in CallerInvalid(spec) || exists k :: k in ConstantKeys && k in constants && constants[k] == v
  {
    CallerInvalid(spec) + LabelInvalid(constants)
  }

  /** valid_range: the caller's range if one is given, else the label's. */
  function ValidRange(caller: Option<Range>, node: ColumnNode): (r: Option<Range>)
    ensures caller.Some? ==> r == caller
    ensures caller.None? ==> r == node.validRange
  {
    if caller.Some? then caller else node.validRange
  }

  /** `c` is the column that `node` describes, numbered `colno`, of type
      `kind`, with the caller's invalid values and valid range applied:
      the field is `bytes` wide at start_byte - 1; items defaults to 1 and
      item_bytes and item_offset to the field width; a multi-item column
      has one item field per item, item i at i * item_offset. */
  predicate Describes(c: ColumnInfo, node: ColumnNode, colno: int, kind: Kind, invalid: InvalidSpec, validRange: Option<Range>)
  {
    c.name == node.name && c.colno == colno && c.kind == kind &&
    c.startByte == node.startByte && c.bytes == node.bytes &&
    c.items == (if node.items.Some? then node.items.value else 1) &&
    c.itemBytes == (if node.itemBytes.Some? then node.itemBytes.value else node.bytes) &&
    c.itemOffset == (if node.itemOffset.Some? then node.itemOffset.value else node.bytes) &&
    c.dtype0 == Field(node.bytes, node.startByte - 1) &&
    (c.items == 1 <==> c.dtype1.None?) &&
    (c.dtype1.Some? ==>
      |c.dtype1.value| == (if c.items > 0 then c.items else 0) &&
      forall i :: 0 <= i < |c.dtype1.value| ==> c.dtype1.value[i] == ItemField(i, c.itemBytes, c.itemOffset)) &&
    c.validRange == ValidRange(validRange, node) &&
    c.invalidValues == InvalidValues(invalid, node.constants)
  }

  /** The column attributes common to both label flavours. */
  method NewColumnInfo(node: ColumnNode, colno: int, kind: Kind, invalid: InvalidSpec, validRange: Option<Range>)
    returns (c: ColumnInfo)
    ensures Describes(c, node, colno, kind, invalid, validRange)
  {
    var items := if node.items.Some? then node.items.value else 1;
    var itemBytes := if node.itemBytes.Some? then node.itemBytes.value else node.bytes;
    var itemOffset := if node.itemOffset.Some? then node.itemOffset.value else node.bytes;
    var dtype1: Option<seq<Field>> := None;
    if items != 1 {
      var fields := ItemFields(items, itemBytes, itemOffset);
      dtype1 := Some(fields);
    }
    c := ColumnInfo(node.name, colno, node.startByte, node.bytes, items, itemBytes, itemOffset,
                    Field(node.bytes, node.startByte - 1), dtype1, kind,
                    ValidRange(validRange, node), InvalidValues(invalid, node.constants));
  }

  /** set(invalid.get("default", [])): a collection is used as it is; a
      string or byte string is iterated (giving its characters or byte
      values); a number cannot be iterated. */
  function DefaultInvalid(invalid: map<string, InvalidSpec>): (r: Result<set<Value>>)
    ensures "default" !in invalid ==> r == Ok({})
    ensures "default" in invalid && invalid["default"].Many? ==> r == Ok(invalid["default"].vs)
    ensures r.Err? <==> "default" in invalid && invalid["default"].Scalar? && invalid["default"].v.IsNumber()
  {
    if "default" !in invalid then Ok({})
    else match invalid["default"]
      case Many(vs) => Ok(vs)
      case Scalar(v) =>
        match v
        case StrV(s) => Ok(set c | c in s :: StrV([c]))
        case BytesV(bs) => Ok(set b | b in bs :: IntV(b))
        case _ => Err(NotIterable)
  }

  /** invalid.get(name, default_invalid) */
  function ColumnInvalid(invalid: map<string, InvalidSpec>, name: string, default: set<Value>): (r: InvalidSpec)
    ensures name in invalid ==> r == invalid[name]
    ensures name !in invalid ==> CallerInvalid(r) == default
  {
    if name in invalid then invalid[name] else Many(default)
  }

  /** valid_ranges.get(name, None) */
  function ColumnRange(ranges: map<string, Range>, name: string): Option<Range>
  {
    if name in ranges then Some(ranges[name]) else None
  }

  /** Column i is the last column in `list` named `n`. */
  predicate LastNamed(list: seq<ColumnInfo>, n: string, i: int)
  {
    0 <= i < |list| && list[i].name == n &&
    forall j :: i < j < |list| ==> list[j].name != n
  }

  /** column_info_dict after registering `list` in order: every name is a
      key, and each key holds the last column registered under it. */
  ghost predicate IndexedByName(list: seq<ColumnInfo>, dict: map<string, ColumnInfo>)
  {
    (forall i :: 0 <= i < |list| ==> list[i].name in dict) &&
    (forall n :: n in dict ==> exists i :: LastNamed(list, n, i) && dict[n] == list[i])
  }

  /** The dtype0 map: "crlf" and every registered name, each column at its
      own field; "crlf" keeps the terminator unless a column takes it. */
  ghost predicate Dtype0Of(dict: map<string, ColumnInfo>, dtype0: map<string, Field>, rowBytes: int)
  {
    dtype0.Keys == {"crlf"} + dict.Keys &&
    (forall n :: n in dict ==> dtype0[n] == dict[n].dtype0) &&
    ("crlf" !in dict ==> dtype0["crlf"] == Terminator(rowBytes))
  }

  /** Registering one more column keeps the dictionary and the dtype0
      map in step with the list. */
  lemma RegisterStep(list: seq<ColumnInfo>, dict: map<string, ColumnInfo>, dtype0: map<string, Field>,
                     rowBytes: int, col: ColumnInfo)
    requires IndexedByName(list, dict) && Dtype0Of(dict, dtype0, rowBytes)
    ensures IndexedByName(list + [col], dict[col.name := col])
    ensures Dtype0Of(dict[col.name := col], dtype0[col.name := col.dtype0], rowBytes)
  {
    IndexStep(list, dict, col);
    Dtype0Step(dict, dtype0, rowBytes, col);
  }

  /** The dictionary of one more column: the new name holds it, every
      other name keeps its last column. */
  lemma IndexStep(list: seq<ColumnInfo>, dict: map<string, ColumnInfo>, col: ColumnInfo)
    requires IndexedByName(list, dict)
    ensures IndexedByName(list + [col], dict[col.name := col])
  {
    var list' := list + [col];
    var dict' := dict[col.name := col];
    assert LastNamed(list', col.name, |list|);
    forall i | 0 <= i < |list'|
      ensures list'[i].name in dict'
    {
      if i < |list| {
        assert list'[i] == list[i];
      }
    }
    forall n | n in dict'
      ensures exists i :: LastNamed(list', n, i) && dict'[n] == list'[i]
    {
      if n != col.name {
        var i :| LastNamed(list, n, i) && dict[n] == list[i];
        assert list'[i] == list[i];
        assert LastNamed(list', n, i);
      } else {
        assert dict'[n] == list'[|list|];
      }
    }
  }

  /** The dtype0 map of one more column: its field under its name. */
  lemma Dtype0Step(dict: map<string, ColumnInfo>, dtype0: map<string, Field>, rowBytes: int, col: ColumnInfo)
    requires Dtype0Of(dict, dtype0, rowBytes)
    ensures Dtype0Of(dict[col.name := col], dtype0[col.name := col.dtype0], rowBytes)
  {
  }

  /** With distinct names, the dictionary entry of each column is that
      column. */
  lemma DistinctIndexed(list: seq<ColumnInfo>, dict: map<string, ColumnInfo>, k: int)
    requires IndexedByName(list, dict) && 0 <= k < |list|
    requires forall i, j :: 0 <= i < j < |list| ==> list[i].name != list[j].name
    ensures dict[list[k].name] == list[k]
  {
    var i :| LastNamed(list, list[k].name, i) && dict[list[k].name] == list[i];
  }
}
