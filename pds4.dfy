/** PDS4 labels (pdstable/pds4table.py, Pds4TableInfo and
    Pds4ColumnInfo): the mapping from PDS4 character data types to column
    types, and the loop that registers each Field_Character of the table,
    where a repeated "Target" column is kept under "Target_Specific". The
    label arrives already parsed. */
module Pds4 {
  import opened Common
  import opened Schema

  /** PDS4_CHR_DATA_TYPE_MAPPING: the logical type of each PDS4 character
      data type. The three Numeric_Base types are integers read in their
      radix. */
  const DataTypes: map<string, Kind> := map[
    "ASCII_Date_DOY" := TimeK,
    "ASCII_Date_Time_DOY" := TimeK,
    "ASCII_Date_Time_DOY_UTC" := TimeK,
    "ASCII_Date_Time_YMD" := TimeK,
    "ASCII_Date_Time_YMD_UTC" := TimeK,
    "ASCII_Date_YMD" := TimeK,
    "ASCII_Time" := TimeK,
    "ASCII_Integer" := IntK(10),
    "ASCII_NonNegative_Integer" := IntK(10),
    "ASCII_Real" := FloatK,
    "ASCII_AnyURI" := StringK,
    "ASCII_Directory_Path_Name" := StringK,
    "ASCII_DOI" := StringK,
    "ASCII_File_Name" := StringK,
    "ASCII_File_Specification_Name" := StringK,
    "ASCII_LID" := StringK,
    "ASCII_LIDVID" := StringK,
    "ASCII_LIDVID_LID" := StringK,
    "ASCII_MD5_Checksum" := StringK,
    "ASCII_String" := StringK,
    "ASCII_VID" := StringK,
    "UTF8_String" := StringK,
    "ASCII_Boolean" := BoolK,
    "ASCII_Numeric_Base2" := IntK(2),
    "ASCII_Numeric_Base8" := IntK(8),
    "ASCII_Numeric_Base16" := IntK(16)]

  /** The column type of a PDS4 data type; one absent from the mapping is
      an unsupported data type. */
  function Classify(dataType: string): (r: Result<Kind>)
    ensures dataType in DataTypes ==> r == Ok(DataTypes[dataType])
    ensures dataType !in DataTypes ==> r == Err(UnsupportedDataType(dataType))
  {
    if dataType in DataTypes then Ok(DataTypes[dataType]) else Err(UnsupportedDataType(dataType))
  }

  /** Every integer type reads one of the radixes int() is given here. */
  lemma IntegerRadixes(dataType: string)
    requires dataType in DataTypes && DataTypes[dataType].IntK?
    ensures DataTypes[dataType].base in {2, 8, 10, 16}
  {
  }

  /** The Numeric_Base types read binary, octal and hexadecimal, the two
      Integer types decimal; Boolean and Real are not integers. */
  lemma NumericTypes()
    ensures Classify("ASCII_Numeric_Base2") == Ok(IntK(2))
    ensures Classify("ASCII_Numeric_Base8") == Ok(IntK(8))
    ensures Classify("ASCII_Numeric_Base16") == Ok(IntK(16))
    ensures Classify("ASCII_Integer") == Ok(IntK(10))
    ensures Classify("ASCII_NonNegative_Integer") == Ok(IntK(10))
    ensures Classify("ASCII_Boolean") == Ok(BoolK)
    ensures Classify("ASCII_Real") == Ok(FloatK)
    ensures Classify("ASCII_Numeric_Base10").Err?
  {
  }

  /** One Field_Character of the label: its column description (with
      field_location as start byte and field_length as width) and its
      field_number. */
  datatype FieldNode = FieldNode(column: ColumnNode, fieldNumber: int)

  /** A parsed PDS4 label: the table file name (if the File area names
      one), the header and record sizes, and the fields in label order. */
  datatype Label = Label(
    fileName: Option<string>,
    headerBytes: int,
    rows: int,
    columns: int,
    rowBytes: int,
    fields: seq<FieldNode>)

  /** The name a column is registered under, given the names registered
      before it: a repeated "Target" becomes "Target_Specific". */
  function KeyedName(keys: set<string>, name: string): (r: string)
    ensures name != "Target" ==> r == name
    ensures name == "Target" ==> (r == "Target" <==> "Target" !in keys)
  {
    if name == "Target" && "Target" in keys then "Target_Specific" else name
  }

  /** The names registered after the first i fields, had they all been
      accepted. */
  function KeysAfter(fields: seq<FieldNode>, i: int): set<string>
    requires 0 <= i <= |fields|
  {
    if i == 0 then {}
    else KeysAfter(fields, i - 1) + {KeyedName(KeysAfter(fields, i - 1), fields[i - 1].column.name)}
  }

  /** Field k can be registered: its data type is in the mapping, and its
      name is new unless it is "Target". */
  predicate Registrable(fields: seq<FieldNode>, k: int)
    requires 0 <= k < |fields|
  {
    Classify(fields[k].column.dataType).Ok? &&
    (fields[k].column.name == "Target" || fields[k].column.name !in KeysAfter(fields, k))
  }

  /** The error raised at field k: the data type is looked up before the
      name is checked. */
  function RegistrationError(fields: seq<FieldNode>, k: int): Error
    requires 0 <= k < |fields|
  {
    if Classify(fields[k].column.dataType).Err? then UnsupportedDataType(fields[k].column.dataType)
    else DuplicateColumn(fields[k].column.name)
  }

  /** Column `c` is what field i describes, under the name it is
      registered by and numbered by its field_number, with the caller's
      validity options for the field's own name. */
  ghost predicate DescribesField(fields: seq<FieldNode>, default: set<Value>, validity: Validity, c: ColumnInfo, i: int)
    requires 0 <= i < |fields|
  {
    var node := fields[i].column;
    Classify(node.dataType) == Ok(c.kind) &&
    Describes(c, node.(name := KeyedName(KeysAfter(fields, i), node.name)), fields[i].fieldNumber, c.kind,
              ColumnInvalid(validity.invalid, node.name, default),
              ColumnRange(validity.validRanges, node.name))
  }

  /** Column i of `list` is what field i describes. */
  ghost predicate Described(fields: seq<FieldNode>, default: set<Value>, validity: Validity, list: seq<ColumnInfo>)
  {
    |list| <= |fields| &&
    forall i :: 0 <= i < |list| ==> DescribesField(fields, default, validity, list[i], i)
  }

  /** The outcome of Pds4TableInfo: no file name is an error; otherwise
      the outcome of the field loop. */
  ghost predicate Resolved(lab: Label, validity: Validity, r: Result<TableInfo>)
  {
    if lab.fileName.None? then r == Err(NoTableFileName)
    else if DefaultInvalid(validity.invalid).Err? then r == Err(DefaultInvalid(validity.invalid).error)
    else FieldsResolved(lab, DefaultInvalid(validity.invalid).value, validity, r)
  }

  /** The field loop succeeds exactly when every field can be registered,
      and then the table holds them all in order, keyed by their
      registered names; otherwise it fails with the error of the first
      field that cannot be. */
  ghost predicate FieldsResolved(lab: Label, default: set<Value>, validity: Validity, r: Result<TableInfo>)
    requires lab.fileName.Some?
  {
    var fields := lab.fields;
    (r.Ok? <==> forall k :: 0 <= k < |fields| ==> Registrable(fields, k)) &&
    (r.Ok? ==>
      r.value.tableFileName == lab.fileName.value && r.value.rows == lab.rows &&
      r.value.columns == lab.columns && r.value.rowBytes == lab.rowBytes &&
      |r.value.columnList| == |fields| &&
      Described(fields, default, validity, r.value.columnList) &&
      IndexedByName(r.value.columnList, r.value.columnDict) &&
      Dtype0Of(r.value.columnDict, r.value.dtype0, lab.rowBytes)) &&
    (r.Err? ==>
      exists k :: 0 <= k < |fields| && !Registrable(fields, k) &&
        (forall j :: 0 <= j < k ==> Registrable(fields, j)) && r.error == RegistrationError(fields, k))
  }

  /** Each of the first n fields can be registered. */
  predicate AllRegistrable(fields: seq<FieldNode>, n: int)
    requires 0 <= n <= |fields|
  {
    n == 0 || (AllRegistrable(fields, n - 1) && Registrable(fields, n - 1))
  }

  lemma {:induction false} AllRegistrableSpec(fields: seq<FieldNode>, n: int)
    requires 0 <= n <= |fields|
    ensures AllRegistrable(fields, n) <==> forall k :: 0 <= k < n ==> Registrable(fields, k)
  {
    if n > 0 {
      AllRegistrableSpec(fields, n - 1);
    }
  }

  /** After registering fields[..|list|]: the names registered are the
      dictionary's keys, and every field so far was registrable. */
  ghost predicate Scanned(fields: seq<FieldNode>, default: set<Value>, validity: Validity, rowBytes: int,
                          list: seq<ColumnInfo>, dict: map<string, ColumnInfo>, dtype0: map<string, Field>)
  {
    |list| <= |fields| &&
    dict.Keys == KeysAfter(fields, |list|) &&
    AllRegistrable(fields, |list|) &&
    Described(fields, default, validity, list) &&
    IndexedByName(list, dict) && Dtype0Of(dict, dtype0, rowBytes)
  }

  /** Pds4TableInfo: find the table file name, then register each field
      in label order. */
  method ResolveTable(lab: Label, validity: Validity) returns (r: Result<TableInfo>)
    ensures Resolved(lab, validity, r)
  {
    if lab.fileName.None? {
      return Err(NoTableFileName);
    }
    var defaultResult := DefaultInvalid(validity.invalid);
    if defaultResult.Err? {
      return Err(defaultResult.error);
    }
    r := RegisterFields(lab, defaultResult.value, validity);
  }

  /** The field loop of Pds4TableInfo. */
  method RegisterFields(lab: Label, default: set<Value>, validity: Validity) returns (r: Result<TableInfo>)
    requires lab.fileName.Some?
    ensures FieldsResolved(lab, default, validity, r)
  {
    var fields := lab.fields;
    var list: seq<ColumnInfo> := [];
    var dict: map<string, ColumnInfo> := map[];
    var dtype0: map<string, Field> := map["crlf" := Terminator(lab.rowBytes)];
    while |list| < |fields|
      invariant Scanned(fields, default, validity, lab.rowBytes, list, dict, dtype0)
      decreases |fields| - |list|
    {
      var res := RegisterField(fields, default, validity, list, dict);
      if res.Err? {
        AllRegistrableSpec(fields, |list|);
        return Err(res.error);
      }
      var col := res.value;
      ScannedStep(fields, default, validity, lab.rowBytes, list, dict, dtype0, col);
      list := list + [col];
      dict := dict[col.name := col];
      dtype0 := dtype0[col.name := col.dtype0];
    }
    AllRegistrableSpec(fields, |fields|);
    return Ok(TableInfo(lab.fileName.value, lab.rows, lab.columns, lab.rowBytes, list, dict, dtype0));
  }

  /** Registering the column of the next field keeps the scan
      invariant. */
  lemma ScannedStep(fields: seq<FieldNode>, default: set<Value>, validity: Validity, rowBytes: int,
                    list: seq<ColumnInfo>, dict: map<string, ColumnInfo>, dtype0: map<string, Field>,
                    col: ColumnInfo)
    requires Scanned(fields, default, validity, rowBytes, list, dict, dtype0) && |list| < |fields|
    requires Registrable(fields, |list|)
    requires col.name == KeyedName(dict.Keys, fields[|list|].column.name)
    requires Described(fields, default, validity, list + [col])
    ensures Scanned(fields, default, validity, rowBytes, list + [col], dict[col.name := col], dtype0[col.name := col.dtype0])
  {
    RegisterStep(list, dict, dtype0, rowBytes, col);
    KeysStep(fields, |list|, dict.Keys, col.name);
  }

  /** Registering field i under its keyed name extends the key set. */
  lemma KeysStep(fields: seq<FieldNode>, i: int, keys: set<string>, name: string)
    requires 0 <= i < |fields| && keys == KeysAfter(fields, i)
    requires name == KeyedName(keys, fields[i].column.name)
    ensures KeysAfter(fields, i + 1) == keys + {name}
  {
  }

  /** One pass of the loop body: build the column info (numbered by
      field_number), reject an unsupported data type or a repeated name
      other than "Target", and rename a repeated "Target". */
  method RegisterField(fields: seq<FieldNode>, default: set<Value>, validity: Validity,
                       list: seq<ColumnInfo>, dict: map<string, ColumnInfo>)
    returns (res: Result<ColumnInfo>)
    requires |list| < |fields| && dict.Keys == KeysAfter(fields, |list|)
    requires Described(fields, default, validity, list)
    ensures res.Err? ==> !Registrable(fields, |list|) && res.error == RegistrationError(fields, |list|)
    ensures res.Ok? ==>
      Registrable(fields, |list|) &&
      res.value.name == KeyedName(dict.Keys, fields[|list|].column.name) &&
      Described(fields, default, validity, list + [res.value])
  {
    var node := fields[|list|].column;
    var name := node.name;
    var kind := Classify(node.dataType);
    if kind.Err? {
      return Err(UnsupportedDataType(node.dataType));
    }
    var col := NewColumnInfo(node, fields[|list|].fieldNumber, kind.value,
                             ColumnInvalid(validity.invalid, name, default),
                             ColumnRange(validity.validRanges, name));
    if name in dict && name != "Target" {
      return Err(DuplicateColumn(name));
    }
    ghost var described := col;
    if col.name in dict && col.name == "Target" {
      col := col.(name := col.name + "_Specific");
    }
    RenamedDescribes(described, col, node, KeyedName(dict.Keys, name), fields[|list|].fieldNumber, kind.value,
                     ColumnInvalid(validity.invalid, name, default), ColumnRange(validity.validRanges, name));
    DescribedStep(fields, default, validity, list, col);
    return Ok(col);
  }

  /** Renaming a column to `newName` makes it describe the same node
      under that name. */
  lemma RenamedDescribes(c: ColumnInfo, c': ColumnInfo, node: ColumnNode, newName: string, colno: int, kind: Kind,
                         invalid: InvalidSpec, validRange: Option<Range>)
    requires Describes(c, node, colno, kind, invalid, validRange)
    requires c' == c.(name := newName)
    ensures Describes(c', node.(name := newName), colno, kind, invalid, validRange)
  {
  }

  /** Appending the column that field |list| describes keeps the list
      described. */
  lemma DescribedStep(fields: seq<FieldNode>, default: set<Value>, validity: Validity,
                      list: seq<ColumnInfo>, col: ColumnInfo)
    requires |list| < |fields| && Described(fields, default, validity, list)
    requires DescribesField(fields, default, validity, col, |list|)
    ensures Described(fields, default, validity, list + [col])
  {
    var list' := list + [col];
    forall i | 0 <= i < |list'|
      ensures DescribesField(fields, default, validity, list'[i], i)
    {
      if i < |list| {
        assert list'[i] == list[i];
      }
    }
  }
}
