/** PDS3 labels (pdstable/__init__.py, PdsTableInfo and PdsColumnInfo):
    the checks on the label's header, the choice of the table pointer,
    the classification of column data types and the loop that registers
    each COLUMN object of the table. The label arrives already parsed. */
module Pds3 {
  import opened Common
  import opened Text
  import opened Schema

  /** One entry of a TABLE object, in label order: a COLUMN object,
      another object, or a plain attribute (which the loop skips). */
  datatype Member = ColumnObj(node: ColumnNode) | OtherObj | Attribute

  /** The TABLE object's attributes the code reads, and its members. */
  datatype TableObject = TableObject(
    interchangeFormat: Option<string>,
    interchangeFormat1: Option<string>,
    rows: Option<int>,
    columns: Option<int>,
    rowBytes: Option<int>,
    members: seq<Member>)

  /** A parsed PDS3 label: RECORD_TYPE, the top-level keywords in label
      order (a pointer's value is the table file name), and the objects
      by name. */
  datatype Label = Label(
    recordType: Option<string>,
    keywords: seq<(string, string)>,
    objects: map<string, TableObject>)

  /** The header facts PdsTableInfo reads before its column loop. */
  datatype Header = Header(
    fileName: string,
    table: TableObject,
    rows: int,
    columns: int,
    rowBytes: int,
    defaultInvalid: set<Value>)

  /** A keyword that points to a table: "^" first, "TABLE" last. */
  predicate IsTablePointer(key: string)
  {
    |key| > 0 && key[0] == '^' && EndsWith(key, "TABLE")
  }

  /** The index of the first table pointer among the keywords. */
  function FirstPointer(keywords: seq<(string, string)>): (r: Option<nat>)
    ensures r.Some? ==>
      (r.value < |keywords| && IsTablePointer(keywords[r.value].0) &&
       forall j :: 0 <= j < r.value ==> !IsTablePointer(keywords[j].0))
    ensures r.None? ==> forall j :: 0 <= j < |keywords| ==> !IsTablePointer(keywords[j].0)
  {
    if |keywords| == 0 then None
    else if IsTablePointer(keywords[0].0) then Some(0)
    else match FirstPointer(keywords[1..])
      case None => None
      case Some(i) => Some(i + 1)
  }

  /** INTERCHANGE_FORMAT if present and non-empty, else
      INTERCHANGE_FORMAT_1, which must then exist. */
  function InterchangeFormat(t: TableObject): (r: Result<string>)
    ensures t.interchangeFormat.Some? && t.interchangeFormat.value != "" ==> r == Ok(t.interchangeFormat.value)
    ensures r.Err? <==> (t.interchangeFormat.None? || t.interchangeFormat.value == "") && t.interchangeFormat1.None?
  {
    if t.interchangeFormat.Some? && t.interchangeFormat.value != "" then Ok(t.interchangeFormat.value)
    else if t.interchangeFormat1.Some? then Ok(t.interchangeFormat1.value)
    else Err(MissingKey("INTERCHANGE_FORMAT_1"))
  }

  /** The header part of PdsTableInfo, in the order the code checks it. */
  function ReadHeader(lab: Label, validity: Validity): (r: Result<Header>)
    ensures lab.recordType.None? ==> r == Err(MissingKey("RECORD_TYPE"))
    ensures lab.recordType.Some? && lab.recordType.value != "FIXED_LENGTH" ==> r == Err(NotFixedLength)
    ensures lab.recordType == Some("FIXED_LENGTH") && FirstPointer(lab.keywords).None? ==> r == Err(NoTablePointer)
    ensures r.Ok? ==>
      lab.recordType == Some("FIXED_LENGTH") &&
      FirstPointer(lab.keywords).Some? &&
      r.value.fileName == lab.keywords[FirstPointer(lab.keywords).value].1 &&
      InterchangeFormat(r.value.table) == Ok("ASCII")
  {
    if lab.recordType.None? then Err(MissingKey("RECORD_TYPE"))
    else if lab.recordType.value != "FIXED_LENGTH" then Err(NotFixedLength)
    else match FirstPointer(lab.keywords)
      case None => Err(NoTablePointer)
      case Some(i) =>
        var (key, fileName) := lab.keywords[i];
        var objectName := key[1..];
        if objectName !in lab.objects then Err(MissingKey(objectName))
        else
          var t := lab.objects[objectName];
          match InterchangeFormat(t)
          case Err(e) => Err(e)
          case Ok(format) =>
            if format != "ASCII" then Err(NotAscii)
            else if t.rows.None? then Err(MissingKey("ROWS"))
            else if t.columns.None? then Err(MissingKey("COLUMNS"))
            else if t.rowBytes.None? then Err(MissingKey("ROW_BYTES"))
            else match DefaultInvalid(validity.invalid)
              case Err(e) => Err(e)
              case Ok(default) =>
                Ok(Header(fileName, t, t.rows.value, t.columns.value, t.rowBytes.value, default))
  }

  /** A time column: the data type names TIME or DATE, or the column
      name ends with "_TIME" or "_DATE". */
  predicate IsTimeColumn(dataType: string, name: string)
  {
    Contains("TIME", dataType) || Contains("DATE", dataType) ||
    EndsWith(name, "_TIME") || EndsWith(name, "_DATE")
  }

  /** The logical type of a PDS3 column (PdsColumnInfo): the first of
      INTEGER, REAL, time and CHAR that applies; any other data type is
      unsupported. ClassifyPriority states the order. */
  function Classify(dataType: string, name: string): (r: Result<Kind>)
    ensures r.Err? ==> r == Err(UnsupportedDataType(dataType))
  {
    if Contains("INTEGER", dataType) then Ok(IntK(10))
    else if Contains("REAL", dataType) then Ok(FloatK)
    else if IsTimeColumn(dataType, name) then Ok(TimeK)
    else if Contains("CHAR", dataType) then Ok(StringK)
    else Err(UnsupportedDataType(dataType))
  }

  /** Each type applies exactly when its own test passes and no earlier
      test does, and a data type that passes none is an error. */
  lemma ClassifyPriority(dataType: string, name: string)
    ensures Classify(dataType, name) == Ok(IntK(10)) <==> Contains("INTEGER", dataType)
    ensures Classify(dataType, name) == Ok(FloatK) <==>
      !Contains("INTEGER", dataType) && Contains("REAL", dataType)
    ensures Classify(dataType, name) == Ok(TimeK) <==>
      !Contains("INTEGER", dataType) && !Contains("REAL", dataType) && IsTimeColumn(dataType, name)
    ensures Classify(dataType, name) == Ok(StringK) <==>
      !Contains("INTEGER", dataType) && !Contains("REAL", dataType) && !IsTimeColumn(dataType, name) &&
      Contains("CHAR", dataType)
    ensures Classify(dataType, name).Err? <==>
      !Contains("INTEGER", dataType) && !Contains("REAL", dataType) && !IsTimeColumn(dataType, name) &&
      !Contains("CHAR", dataType)
  {
  }

  /** The type tag outranks the column name: a REAL column named like a
      time stays a float. */
  lemma ClassifyRealTime()
    ensures Classify("ASCII_REAL", "START_TIME") == Ok(FloatK)
  {
    assert OccursAt("REAL", "ASCII_REAL", 6);
    NotContainedChar("INTEGER", "ASCII_REAL", 'G');
  }

  /** A CHARACTER column named "..._TIME" is a time column. */
  lemma ClassifyCharacterTime()
    ensures Classify("CHARACTER", "STOP_TIME") == Ok(TimeK)
  {
    NotContainedChar("INTEGER", "CHARACTER", 'G');
    NotContainedChar("REAL", "CHARACTER", 'L');
    assert EndsWith("STOP_TIME", "_TIME");
  }

  /** The COLUMN objects among a table's members, in label order. */
  function ColumnNodes(members: seq<Member>): (r: seq<ColumnNode>)
    ensures |r| <= |members|
  {
    if |members| == 0 then []
    else
      var last := members[|members| - 1];
      ColumnNodes(members[..|members| - 1]) + (if last.ColumnObj? then [last.node] else [])
  }

  /** Column k can be registered: its data type is supported and no
      earlier column has its name. */
  predicate Registrable(nodes: seq<ColumnNode>, k: int)
    requires 0 <= k < |nodes|
  {
    Classify(nodes[k].dataType, nodes[k].name).Ok? &&
    forall j :: 0 <= j < k ==> nodes[j].name != nodes[k].name
  }

  /** The error the loop raises at column k: an unsupported data type is
      found before the duplicate-name test. */
  function RegistrationError(nodes: seq<ColumnNode>, k: int): Error
    requires 0 <= k < |nodes|
  {
    if Classify(nodes[k].dataType, nodes[k].name).Err? then UnsupportedDataType(nodes[k].dataType)
    else DuplicateColumn(nodes[k].name)
  }

  /** Column i of `list` is what the i-th COLUMN object describes: it is
      numbered i, has the type Classify gives it, and carries the caller's
      validity options for its name. */
  ghost predicate Described(nodes: seq<ColumnNode>, h: Header, validity: Validity, list: seq<ColumnInfo>)
  {
    |list| <= |nodes| &&
    forall i :: 0 <= i < |list| ==>
      Classify(nodes[i].dataType, nodes[i].name) == Ok(list[i].kind) &&
      Describes(list[i], nodes[i], i, list[i].kind,
                ColumnInvalid(validity.invalid, nodes[i].name, h.defaultInvalid),
                ColumnRange(validity.validRanges, nodes[i].name))
  }

  predicate DistinctNames(list: seq<ColumnInfo>)
  {
    forall i, j :: 0 <= i < j < |list| ==> list[i].name != list[j].name
  }

  /** PdsTableInfo: check the header, then register the table's COLUMN
      objects. */
  method ResolveTable(lab: Label, validity: Validity) returns (r: Result<TableInfo>)
    ensures ReadHeader(lab, validity).Err? ==> r == Err(ReadHeader(lab, validity).error)
    ensures ReadHeader(lab, validity).Ok? ==> Resolved(ReadHeader(lab, validity).value, validity, r)
  {
    var header := ReadHeader(lab, validity);
    if header.Err? {
      return Err(header.error);
    }
    r := RegisterColumns(header.value, validity);
  }

  /** The outcome of the column loop: it succeeds exactly when every
      COLUMN object can be registered, and then the table holds them all
      in order; otherwise it fails with the error of the first column
      that cannot be. */
  ghost predicate Resolved(h: Header, validity: Validity, r: Result<TableInfo>)
  {
    var nodes := ColumnNodes(h.table.members);
    (r.Ok? <==> forall k :: 0 <= k < |nodes| ==> Registrable(nodes, k)) &&
    (r.Ok? ==>
      r.value.tableFileName == h.fileName && r.value.rows == h.rows &&
      r.value.columns == h.columns && r.value.rowBytes == h.rowBytes &&
      |r.value.columnList| == |nodes| &&
      Described(nodes, h, validity, r.value.columnList) &&
      DistinctNames(r.value.columnList) &&
      IndexedByName(r.value.columnList, r.value.columnDict) &&
      Dtype0Of(r.value.columnDict, r.value.dtype0, h.rowBytes)) &&
    (r.Err? ==>
      exists k :: 0 <= k < |nodes| && !Registrable(nodes, k) &&
        (forall j :: 0 <= j < k ==> Registrable(nodes, j)) && r.error == RegistrationError(nodes, k))
  }

  /** The column loop of PdsTableInfo: each COLUMN object, in label
      order, is registered by RegisterOne and added to the list, the
      dictionary and the dtype0 map. */
  method RegisterColumns(h: Header, validity: Validity) returns (r: Result<TableInfo>)
    ensures Resolved(h, validity, r)
  {
    var members := h.table.members;
    ghost var nodes := ColumnNodes(members);
    ColumnNodesPrefix(members, 0);
    var list: seq<ColumnInfo> := [];
    var dict: map<string, ColumnInfo> := map[];
    var dtype0: map<string, Field> := map["crlf" := Terminator(h.rowBytes)];
    var m := 0;
    while m < |members|
      invariant 0 <= m <= |members|
      invariant Scanned(members, m, nodes, h, validity, list, dict, dtype0)
    {
      NextMember(members, m, nodes, |list|);
      if members[m].ColumnObj? {
        var res := RegisterOne(nodes, h, validity, list, dict, members[m].node);
        if res.Err? {
          ScannedFails(members, m, nodes, h, validity, list, dict, dtype0, res.error);
          return Err(res.error);
        }
        var col := res.value;
        ScannedStep(members, m, nodes, h, validity, list, dict, dtype0, col);
        list := list + [col];
        dict := dict[col.name := col];
        dtype0 := dtype0[col.name := col.dtype0];
      }
      m := m + 1;
    }
    r := Ok(TableInfo(h.fileName, h.rows, h.columns, h.rowBytes, list, dict, dtype0));
    ScannedAll(members, nodes, h, validity, list, dict, dtype0, r);
  }

  /** A failure to register the next COLUMN object is the outcome the
      column loop promises. */
  lemma ScannedFails(members: seq<Member>, m: int, nodes: seq<ColumnNode>, h: Header, validity: Validity,
                     list: seq<ColumnInfo>, dict: map<string, ColumnInfo>, dtype0: map<string, Field>, e: Error)
    requires members == h.table.members && nodes == ColumnNodes(members)
    requires 0 <= m < |members| && Scanned(members, m, nodes, h, validity, list, dict, dtype0)
    requires |list| < |nodes| && !Registrable(nodes, |list|) && e == RegistrationError(nodes, |list|)
    ensures Resolved(h, validity, Err(e))
  {
  }

  /** Once every member is scanned, the table built from the loop state
      is the outcome the column loop promises. */
  lemma ScannedAll(members: seq<Member>, nodes: seq<ColumnNode>, h: Header, validity: Validity,
                   list: seq<ColumnInfo>, dict: map<string, ColumnInfo>, dtype0: map<string, Field>,
                   r: Result<TableInfo>)
    requires members == h.table.members && nodes == ColumnNodes(members)
    requires Scanned(members, |members|, nodes, h, validity, list, dict, dtype0)
    requires r == Ok(TableInfo(h.fileName, h.rows, h.columns, h.rowBytes, list, dict, dtype0))
    ensures Resolved(h, validity, r)
  {
    assert members[..|members|] == members;
  }

  /** After scanning members[..m]: the COLUMN objects seen so far are
      all registered, in order. */
  ghost predicate Scanned(members: seq<Member>, m: int, nodes: seq<ColumnNode>, h: Header, validity: Validity,
                          list: seq<ColumnInfo>, dict: map<string, ColumnInfo>, dtype0: map<string, Field>)
    requires 0 <= m <= |members|
  {
    |list| <= |nodes| && ColumnNodes(members[..m]) == nodes[..|list|] &&
    (forall k :: 0 <= k < |list| ==> Registrable(nodes, k)) &&
    Described(nodes, h, validity, list) && DistinctNames(list) &&
    IndexedByName(list, dict) && Dtype0Of(dict, dtype0, h.rowBytes)
  }

  /** Registering the next COLUMN object, found at member m, keeps the
      scan invariant over members[..m + 1]. */
  lemma ScannedStep(members: seq<Member>, m: int, nodes: seq<ColumnNode>, h: Header, validity: Validity,
                    list: seq<ColumnInfo>, dict: map<string, ColumnInfo>, dtype0: map<string, Field>,
                    col: ColumnInfo)
    requires 0 <= m < |members| && Scanned(members, m, nodes, h, validity, list, dict, dtype0)
    requires |list| < |nodes| && ColumnNodes(members[..m + 1]) == nodes[..|list| + 1]
    requires Registrable(nodes, |list|) && col.name !in dict
    requires Described(nodes, h, validity, list + [col]) && DistinctNames(list + [col])
    ensures Scanned(members, m + 1, nodes, h, validity, list + [col], dict[col.name := col],
                    dtype0[col.name := col.dtype0])
  {
    RegisterStep(list, dict, dtype0, h.rowBytes, col);
  }

  /** One pass of the loop body for a COLUMN object: build its column
      info, numbered by the count so far (the code's counter), then
      reject an unsupported data type or a name already registered. */
  method RegisterOne(ghost nodes: seq<ColumnNode>, h: Header, validity: Validity,
                     list: seq<ColumnInfo>, dict: map<string, ColumnInfo>, node: ColumnNode)
    returns (res: Result<ColumnInfo>)
    requires Described(nodes, h, validity, list) && DistinctNames(list) && IndexedByName(list, dict)
    requires |list| < |nodes| && nodes[|list|] == node
    ensures res.Err? ==> !Registrable(nodes, |list|) && res.error == RegistrationError(nodes, |list|)
    ensures res.Ok? ==>
      Registrable(nodes, |list|) && res.value.name == node.name && res.value.name !in dict &&
      Described(nodes, h, validity, list + [res.value]) && DistinctNames(list + [res.value])
  {
    var name := node.name;
    var kind := Classify(node.dataType, name);
    if kind.Err? {
      return Err(UnsupportedDataType(node.dataType));
    }
    var col := NewColumnInfo(node, |list|, kind.value,
                             ColumnInvalid(validity.invalid, name, h.defaultInvalid),
                             ColumnRange(validity.validRanges, name));
    if name in dict {
      DuplicateNotRegistrable(nodes, h, validity, list, dict, |list|);
      return Err(DuplicateColumn(name));
    }
    NewNameRegistrable(nodes, h, validity, list, dict, col);
    return Ok(col);
  }

  /** The member at m either is the next COLUMN object or adds none. */
  lemma NextMember(members: seq<Member>, m: int, nodes: seq<ColumnNode>, counter: int)
    requires 0 <= m < |members| && nodes == ColumnNodes(members)
    requires 0 <= counter <= |nodes| && ColumnNodes(members[..m]) == nodes[..counter]
    ensures members[m].ColumnObj? ==>
      counter < |nodes| && nodes[counter] == members[m].node &&
      ColumnNodes(members[..m + 1]) == nodes[..counter + 1]
    ensures !members[m].ColumnObj? ==> ColumnNodes(members[..m + 1]) == nodes[..counter]
  {
    ColumnNodesStep(members, m);
    ColumnNodesPrefix(members, m + 1);
    var next := ColumnNodes(members[..m + 1]);
    assert next == nodes[..|next|];
    if members[m].ColumnObj? {
      assert next == nodes[..counter] + [members[m].node];
      assert |next| == counter + 1;
      assert nodes[counter] == next[counter];
    } else {
      assert next == nodes[..counter];
    }
  }

  /** A name already in the dictionary belongs to an earlier column, so
      the column at k cannot be registered. */
  lemma DuplicateNotRegistrable(nodes: seq<ColumnNode>, h: Header, validity: Validity,
                                list: seq<ColumnInfo>, dict: map<string, ColumnInfo>, k: int)
    requires Described(nodes, h, validity, list) && IndexedByName(list, dict)
    requires k == |list| < |nodes| && nodes[k].name in dict
    requires Classify(nodes[k].dataType, nodes[k].name).Ok?
    ensures !Registrable(nodes, k) && RegistrationError(nodes, k) == DuplicateColumn(nodes[k].name)
  {
    var i :| LastNamed(list, nodes[k].name, i) && dict[nodes[k].name] == list[i];
    assert nodes[i].name == list[i].name;
  }

  /** A column whose name is not yet in the dictionary can be
      registered, and the registered columns stay described and
      distinct. */
  lemma NewNameRegistrable(nodes: seq<ColumnNode>, h: Header, validity: Validity,
                           list: seq<ColumnInfo>, dict: map<string, ColumnInfo>, col: ColumnInfo)
    requires Described(nodes, h, validity, list) && DistinctNames(list) && IndexedByName(list, dict)
    requires |list| < |nodes| && col.name == nodes[|list|].name && col.name !in dict
    requires Classify(nodes[|list|].dataType, nodes[|list|].name) == Ok(col.kind)
    requires Describes(col, nodes[|list|], |list|, col.kind,
                       ColumnInvalid(validity.invalid, nodes[|list|].name, h.defaultInvalid),
                       ColumnRange(validity.validRanges, nodes[|list|].name))
    ensures Registrable(nodes, |list|)
    ensures Described(nodes, h, validity, list + [col]) && DistinctNames(list + [col])
  {
    FreshNameRegistrable(nodes, list, dict, col.name);
    DescribedStep(nodes, h, validity, list, col);
    DistinctStep(list, dict, col);
  }

  /** A name not yet in the dictionary is not the name of any earlier
      column. */
  lemma FreshNameRegistrable(nodes: seq<ColumnNode>, list: seq<ColumnInfo>, dict: map<string, ColumnInfo>,
                             name: string)
    requires |list| < |nodes| && IndexedByName(list, dict)
    requires forall i :: 0 <= i < |list| ==> nodes[i].name == list[i].name
    requires name == nodes[|list|].name && name !in dict
    requires Classify(nodes[|list|].dataType, name).Ok?
    ensures Registrable(nodes, |list|)
  {
    forall j | 0 <= j < |list|
      ensures nodes[j].name != name
    {
      assert list[j].name in dict;
    }
  }

  /** Appending the description of the next COLUMN object keeps the
      list described. */
  lemma DescribedStep(nodes: seq<ColumnNode>, h: Header, validity: Validity, list: seq<ColumnInfo>,
                      col: ColumnInfo)
    requires Described(nodes, h, validity, list) && |list| < |nodes|
    requires Classify(nodes[|list|].dataType, nodes[|list|].name) == Ok(col.kind)
    requires Describes(col, nodes[|list|], |list|, col.kind,
                       ColumnInvalid(validity.invalid, nodes[|list|].name, h.defaultInvalid),
                       ColumnRange(validity.validRanges, nodes[|list|].name))
    ensures Described(nodes, h, validity, list + [col])
  {
    var ext := list + [col];
    forall i | 0 <= i < |ext|
      ensures Classify(nodes[i].dataType, nodes[i].name) == Ok(ext[i].kind) &&
        Describes(ext[i], nodes[i], i, ext[i].kind,
                  ColumnInvalid(validity.invalid, nodes[i].name, h.defaultInvalid),
                  ColumnRange(validity.validRanges, nodes[i].name))
    {
      if i < |list| {
        assert ext[i] == list[i];
      }
    }
  }

  /** Appending a column whose name is not in the dictionary keeps the
      names distinct. */
  lemma DistinctStep(list: seq<ColumnInfo>, dict: map<string, ColumnInfo>, col: ColumnInfo)
    requires DistinctNames(list) && IndexedByName(list, dict) && col.name !in dict
    ensures DistinctNames(list + [col])
  {
    var ext := list + [col];
    forall i, j | 0 <= i < j < |ext|
      ensures ext[i].name != ext[j].name
    {
      assert ext[i] == list[i];
      if j < |list| {
        assert ext[j] == list[j];
      } else {
        assert list[i].name in dict;
      }
    }
  }

  /** Extending the scanned prefix by one member extends the COLUMN
      objects found by at most that member. */
  lemma ColumnNodesStep(members: seq<Member>, m: int)
    requires 0 <= m < |members|
    ensures ColumnNodes(members[..m + 1]) ==
      ColumnNodes(members[..m]) + (if members[m].ColumnObj? then [members[m].node] else [])
  {
    assert members[..m + 1][..m] == members[..m];
  }

  /** The COLUMN objects of a prefix of the members are a prefix of all
      the COLUMN objects. */
  lemma {:induction false} ColumnNodesPrefix(members: seq<Member>, m: int)
    requires 0 <= m <= |members|
    ensures |ColumnNodes(members[..m])| <= |ColumnNodes(members)|
    ensures ColumnNodes(members[..m]) == ColumnNodes(members)[..|ColumnNodes(members[..m])|]
    decreases |members| - m
  {
    if m == |members| {
      assert members[..m] == members;
    } else {
      ColumnNodesPrefix(members, m + 1);
      ColumnNodesStep(members, m);
    }
  }
}
