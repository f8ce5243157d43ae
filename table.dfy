/** A loaded table (pdstable/__init__.py, class PdsTable): the constructor
    that reads the rows, views them as records and decodes the selected
    columns, and the lookups that work on the decoded columns, with the
    caches the table fills on first use. */
module Tables {
  import opened Common
  import opened Text
  import opened Schema
  import opened Records
  import opened Rows
  import opened Decode
  import opened Lookup

  // ---------------------------------------------------------------------
  // Loading (pdstable/__init__.py:114-490)

  /** The constructor's options, once the label has been resolved:
      the columns to keep (all when empty), the `times` and `nostrip`
      columns, the per-column callbacks and replacement pairs,
      merge_masks, filename_keylen and row_range. */
  datatype Request = Request(
    columns: seq<string>,
    times: seq<string>,
    nostrip: seq<string>,
    callbacks: map<string, string -> string>,
    replacements: map<string, seq<(Value, Value)>>,
    mergeMasks: bool,
    filenameKeylen: int,
    rowRange: Option<(int, int)>)

  /** The decoded columns: values and masks by key, and the warnings in
      key order. */
  datatype ColumnSet = ColumnSet(values: map<string, seq<Cell>>, masks: map<string, Mask>, warnings: seq<Diagnostic>)

  /** What the constructor leaves in a table: its keys, the index of its
      first row in the file, its row count, the number of records the
      rows were cut into, and the decoded columns. */
  datatype Contents = Contents(
    keys: seq<string>,
    first: nat,
    rows: nat,
    records: nat,
    columns: ColumnSet)

  /** The keys: every column of the label in order, or the requested ones. */
  function SelectedKeys(info: TableInfo, columns: seq<string>): seq<string>
  {
    if |columns| == 0 then seq(|info.columnList|, i requires 0 <= i < |info.columnList| => info.columnList[i].name)
    else columns
  }

  /** The structured dtype of a record: the terminator and each column's
      field. */
  function Layout(info: TableInfo): seq<Field>
  {
    [Terminator(info.rowBytes)] + seq(|info.columnList|, i requires 0 <= i < |info.columnList| => info.columnList[i].dtype0)
  }

  /** The options that decode the column stored under `key`. */
  function ColumnOptions(key: string, c: ColumnInfo, req: Request): Options
  {
    Options(c.kind, key in req.times, key !in req.nostrip,
            if key in req.callbacks then Some(req.callbacks[key]) else None,
            if key in req.replacements then req.replacements[key] else [],
            c.invalidValues, c.validRange, if c.items > 1 then c.itemBytes else c.bytes)
  }

  /** Every record has `size` bytes. */
  predicate Sized(recs: seq<Bytes>, size: int)
  {
    forall k :: 0 <= k < |recs| ==> |recs[k]| == size
  }

  /** numpy accepts dtype1 as a view of a column within records of
      `size` bytes. */
  predicate ItemView(c: ColumnInfo, size: int)
  {
    FitsIn(c.dtype0, size) && c.dtype1.Some? && ItemsFit(c) && c.dtype0.width == c.bytes
  }

  /** The raw cells of a column, one array per item: the column's field of
      each record or, for more than one item, each item's field within it,
      read back without trailing NULs. A view that does not fit is a bad
      row description. */
  function ItemCells(recs: seq<Bytes>, c: ColumnInfo, size: int): (r: Result<seq<seq<Bytes>>>)
    requires Sized(recs, size)
    ensures r.Ok? ==> |r.value| >= 1 && forall i :: 0 <= i < |r.value| ==> |r.value[i]| == |recs|
    ensures r.Err? ==> r.error == BadRowDescription
  {
    if !FitsIn(c.dtype0, size) then Err(BadRowDescription)
    else if c.items <= 1 then
      Ok([seq(|recs|, k requires 0 <= k < |recs| => StripNul(FieldBytes(recs[k], c.dtype0)))])
    else if !ItemView(c, size) then Err(BadRowDescription)
    else
      var fs := c.dtype1.value;
      Ok(seq(|fs|, i requires 0 <= i < |fs| =>
        seq(|recs|, k requires 0 <= k < |recs| => StripNul(ItemBytes(recs[k], c, i)))))
  }

  /** The cells of a column are its field of each record, and those of
      a multi-item column each item's field within it, NULs dropped; the
      view fails only when a field does not fit. */
  lemma ItemCellsContent(recs: seq<Bytes>, c: ColumnInfo, size: int)
    requires Sized(recs, size)
    ensures var r := ItemCells(recs, c, size);
      (r.Err? <==> !FitsIn(c.dtype0, size) || (c.items > 1 && !ItemView(c, size))) &&
      (r.Ok? && c.items <= 1 ==> (
        FitsIn(c.dtype0, size) &&
        r.value == [seq(|recs|, k requires 0 <= k < |recs| => StripNul(FieldBytes(recs[k], c.dtype0)))])) &&
      (r.Ok? && c.items > 1 ==> (
        ItemView(c, size) && |r.value| == |c.dtype1.value| &&
        forall i, k :: 0 <= i < |r.value| && 0 <= k < |recs| ==> r.value[i][k] == StripNul(ItemBytes(recs[k], c, i))))
  {
  }

  /** A decoded column has a value and a mask entry for every row. */
  lemma DecodedShape(name: string, itemCells: seq<seq<Bytes>>, rows: nat, opt: Options, conv: Converters, merge: bool)
    requires |itemCells| >= 1 && forall i :: 0 <= i < |itemCells| ==> |itemCells[i]| == rows
    ensures var col := DecodedColumn(name, itemCells, rows, opt, conv, merge);
      |col.values| == rows && MaskRows(col.mask) == rows
  {
    var items := DecodedItems(itemCells, opt, conv);
    assert HasRows(items, rows);
  }

  /** The column stored under `key`, decoded from its raw cells. */
  function DecodedCells(key: string, c: ColumnInfo, cells: seq<seq<Bytes>>, rows: nat, req: Request, conv: Converters)
    : (col: ColumnResult)
    requires |cells| >= 1 && forall i :: 0 <= i < |cells| ==> |cells[i]| == rows
    ensures |col.values| == rows && MaskRows(col.mask) == rows
  {
    DecodedShape(c.name, cells, rows, ColumnOptions(key, c, req), conv, req.mergeMasks);
    DecodedColumn(c.name, cells, rows, ColumnOptions(key, c, req), conv, req.mergeMasks)
  }

  /** The decoded column stored under `key`: an error when the label has
      no such column or its view does not fit. */
  function ColumnOf(key: string, info: TableInfo, recs: seq<Bytes>, size: int, req: Request, conv: Converters)
    : (r: Result<ColumnResult>)
    requires Sized(recs, size)
    ensures key !in info.columnDict ==> r == Err(UnknownColumn(key))
    ensures r.Ok? ==> |r.value.values| == |recs| && MaskRows(r.value.mask) == |recs|
  {
    if key !in info.columnDict then Err(UnknownColumn(key))
    else
      var c := info.columnDict[key];
      match ItemCells(recs, c, size)
      case Err(e) => Err(e)
      case Ok(cells) => Ok(DecodedCells(key, c, cells, |recs|, req, conv))
  }

  /** A column stored under its key; its warning, if any, follows the
      earlier ones. */
  function Stored(s: ColumnSet, key: string, col: ColumnResult): ColumnSet
  {
    ColumnSet(s.values[key := col.values], s.masks[key := col.mask],
              s.warnings + (if col.warning.Some? then [col.warning.value] else []))
  }

  /** Each key's column, in the order of the keys. */
  function ColumnsOf(keys: seq<string>, info: TableInfo, recs: seq<Bytes>, size: int, req: Request, conv: Converters)
    : (cols: seq<Result<ColumnResult>>)
    requires Sized(recs, size)
    ensures |cols| == |keys| && ColumnsShaped(cols, |recs|) && Consistent(keys, cols)
  {
    seq(|keys|, i requires 0 <= i < |keys| => ColumnOf(keys[i], info, recs, size, req, conv))
  }

  /** Every column that decodes has a value and a mask entry per row. */
  predicate ColumnsShaped(cols: seq<Result<ColumnResult>>, rows: nat)
  {
    forall i :: 0 <= i < |cols| && cols[i].Ok? ==>
      |cols[i].value.values| == rows && MaskRows(cols[i].value.mask) == rows
  }

  /** A key given twice has the same column both times. */
  predicate Consistent(keys: seq<string>, cols: seq<Result<ColumnResult>>)
    requires |keys| == |cols|
  {
    forall j, k :: 0 <= j < |keys| && 0 <= k < |keys| && keys[j] == keys[k] ==> cols[j] == cols[k]
  }

  /** The columns of the first n keys stored in order; the first key whose
      column fails is the error. */
  function LoadColumns(keys: seq<string>, cols: seq<Result<ColumnResult>>, n: nat): Result<ColumnSet>
    requires n <= |keys| == |cols|
  {
    if n == 0 then Ok(ColumnSet(map[], map[], []))
    else
      match LoadColumns(keys, cols, n - 1)
      case Err(e) => Err(e)
      case Ok(s) =>
        match cols[n - 1]
        case Err(e) => Err(e)
        case Ok(col) => Ok(Stored(s, keys[n - 1], col))
  }

  /** The table the constructor builds from the resolved label, the lines
      of the table file and the label's RECORD_BYTES (read only for a row
      range). */
  function Loaded(info: TableInfo, file: seq<Bytes>, recordBytes: Option<int>, req: Request, conv: Converters)
    : Result<Contents>
  {
    var keys := SelectedKeys(info, req.columns);
    var read: Result<(int, int, seq<Bytes>)> := if req.rowRange.Some? && recordBytes.None? then Err(MissingKey("RECORD_BYTES"))
      else ReadRows(file, req.rowRange, info.rows, if recordBytes.Some? then recordBytes.value else 0);
    match read
    case Err(e) => Err(e)
    case Ok((first, rows, lines)) =>
      var layout := Layout(info);
      match Records.Records(lines, layout)
      case Err(e) => Err(e)
      case Ok(recs) =>
        match LoadColumns(keys, ColumnsOf(keys, info, recs, RecordSize(layout), req, conv), |keys|)
        case Err(e) => Err(e)
        case Ok(s) => Ok(Contents(keys, first, rows, |recs|, s))
  }

  /** Every key has a column of one value and one mask entry per record. */
  predicate Shaped(keys: seq<string>, s: ColumnSet, records: nat)
  {
    forall i :: 0 <= i < |keys| ==>
      keys[i] in s.values && keys[i] in s.masks &&
      |s.values[keys[i]]| == records && MaskRows(s.masks[keys[i]]) == records
  }

  /** The columns load exactly when every key's column does. */
  lemma LoadColumnsOk(keys: seq<string>, cols: seq<Result<ColumnResult>>, n: nat)
    requires n <= |keys| == |cols| && Consistent(keys, cols)
    ensures LoadColumns(keys, cols, n).Ok? <==> forall i :: 0 <= i < n ==> cols[i].Ok?
  {
    if LoadColumns(keys, cols, n).Ok? {
      forall i | 0 <= i < n
        ensures cols[i].Ok?
      {
        LoadColumnsHold(keys, cols, n, i);
      }
    } else {
      LoadColumnsFails(keys, cols, n);
    }
  }

  /** A failure is that of the first key whose column fails. */
  lemma {:induction false} LoadColumnsFails(keys: seq<string>, cols: seq<Result<ColumnResult>>, n: nat)
    requires n <= |keys| == |cols| && Consistent(keys, cols) && LoadColumns(keys, cols, n).Err?
    ensures exists i :: (
      0 <= i < n && cols[i] == Err(LoadColumns(keys, cols, n).error) &&
      forall j :: 0 <= j < i ==> cols[j].Ok?)
  {
    if LoadColumns(keys, cols, n - 1).Err? {
      LoadColumnsFails(keys, cols, n - 1);
    } else {
      forall j | 0 <= j < n - 1
        ensures cols[j].Ok?
      {
        LoadColumnsHold(keys, cols, n - 1, j);
      }
      assert cols[n - 1].Err?;
    }
  }

  /** Each key of loaded columns holds its own decoded column: a key
      given twice decodes to the same column. */
  lemma {:induction false} LoadColumnsHold(keys: seq<string>, cols: seq<Result<ColumnResult>>, n: nat, i: nat)
    requires i < n <= |keys| == |cols| && LoadColumns(keys, cols, n).Ok?
    requires Consistent(keys, cols)
    ensures var s := LoadColumns(keys, cols, n).value;
      cols[i].Ok? && keys[i] in s.values && keys[i] in s.masks &&
      s.values[keys[i]] == cols[i].value.values && s.masks[keys[i]] == cols[i].value.mask
  {
    if i < n - 1 {
      LoadColumnsHold(keys, cols, n - 1, i);
    }
  }

  /** Loaded columns are shaped: a value and a mask entry per record. */
  lemma LoadColumnsShaped(keys: seq<string>, cols: seq<Result<ColumnResult>>, rows: nat)
    requires |keys| == |cols| && Consistent(keys, cols) && ColumnsShaped(cols, rows)
    requires LoadColumns(keys, cols, |keys|).Ok?
    ensures Shaped(keys, LoadColumns(keys, cols, |keys|).value, rows)
    ensures forall i :: 0 <= i < |keys| ==> cols[i].Ok?
  {
    forall i | 0 <= i < |keys|
      ensures var s := LoadColumns(keys, cols, |keys|).value;
        cols[i].Ok? && keys[i] in s.values && keys[i] in s.masks &&
        |s.values[keys[i]]| == rows && MaskRows(s.masks[keys[i]]) == rows
    {
      LoadColumnsHold(keys, cols, |keys|, i);
    }
  }

  /** ReadRows gives one line per row. */
  lemma ReadRowsCount(file: seq<Bytes>, rowRange: Option<(int, int)>, labelRows: int, recordBytes: int)
    requires ReadRows(file, rowRange, labelRows, recordBytes).Ok?
    ensures var (_, rows, lines) := ReadRows(file, rowRange, labelRows, recordBytes).value; |lines| == rows
  {
  }

  /** Row accounting of the constructor: a full read starts at row 0 and
      holds the label's ROWS, which must be the number of lines in the
      file; a read of the range (a, b) starts at row a and holds b - a
      rows; the keys are the requested columns, or all of the label's. */
  lemma LoadedRows(info: TableInfo, file: seq<Bytes>, recordBytes: Option<int>, req: Request, conv: Converters)
    ensures var r := Loaded(info, file, recordBytes, req, conv);
      (req.rowRange.None? && |file| != info.rows ==> r == Err(RowCountMismatch(|file|, info.rows))) &&
      (r.Ok? && req.rowRange.None? ==> r.value.first == 0 && r.value.rows == info.rows == |file|) &&
      (r.Ok? && req.rowRange.Some? ==>
        recordBytes.Some? && r.value.first == req.rowRange.value.0 &&
        r.value.rows == req.rowRange.value.1 - req.rowRange.value.0) &&
      (r.Ok? ==> r.value.keys == SelectedKeys(info, req.columns))
  {
  }

  /** Every key of a loaded table is a column of the label, with a value
      and a mask entry for every record. */
  lemma LoadedShape(info: TableInfo, file: seq<Bytes>, recordBytes: Option<int>, req: Request, conv: Converters)
    requires Loaded(info, file, recordBytes, req, conv).Ok?
    ensures var t := Loaded(info, file, recordBytes, req, conv).value;
      Shaped(t.keys, t.columns, t.records) &&
      forall i :: 0 <= i < |t.keys| ==> t.keys[i] in info.columnDict
  {
    var keys := SelectedKeys(info, req.columns);
    var rb := if recordBytes.Some? then recordBytes.value else 0;
    var (first, rows, lines) := ReadRows(file, req.rowRange, info.rows, rb).value;
    var recs := Records.Records(lines, Layout(info)).value;
    var cols := ColumnsOf(keys, info, recs, RecordSize(Layout(info)), req, conv);
    LoadColumnsShaped(keys, cols, |recs|);
    forall i | 0 <= i < |keys|
      ensures keys[i] in info.columnDict
    {
      assert cols[i] == ColumnOf(keys[i], info, recs, RecordSize(Layout(info)), req, conv);
    }
    assert Loaded(info, file, recordBytes, req, conv) == Ok(Contents(keys, first, rows, |recs|, LoadColumns(keys, cols, |keys|).value));
  }

  /** When every line read is one whole record, each row is one record. */
  lemma ExactLinesAreRecords(info: TableInfo, file: seq<Bytes>, recordBytes: Option<int>, req: Request, conv: Converters)
    requires Loaded(info, file, recordBytes, req, conv).Ok?
    requires forall k :: 0 <= k < |file| ==> |file[k]| == RecordSize(Layout(info))
    ensures Loaded(info, file, recordBytes, req, conv).value.records == Loaded(info, file, recordBytes, req, conv).value.rows
  {
    var rb := if recordBytes.Some? then recordBytes.value else 0;
    LoadedCounts(info, file, recordBytes, req, conv);
    var (first, rows, lines) := ReadRows(file, req.rowRange, info.rows, rb).value;
    ReadRowsCount(file, req.rowRange, info.rows, rb);
    if |lines| > 0 {
      forall k | 0 <= k < |lines|
        ensures |lines[k]| == RecordSize(Layout(info))
      {
        if req.rowRange.Some? {
          var (a, b) := req.rowRange.value;
          assert lines[k] == file[a + k];
        }
      }
      RecordsOfExactLines(lines, Layout(info));
    }
  }

  /** A loaded table counts the rows read and the records cut from them. */
  lemma LoadedCounts(info: TableInfo, file: seq<Bytes>, recordBytes: Option<int>, req: Request, conv: Converters)
    requires Loaded(info, file, recordBytes, req, conv).Ok?
    ensures var read := ReadRows(file, req.rowRange, info.rows, if recordBytes.Some? then recordBytes.value else 0);
      var c := Loaded(info, file, recordBytes, req, conv).value;
      read.Ok? && Records.Records(read.value.2, Layout(info)).Ok? &&
      c.rows == read.value.1 && c.records == |Records.Records(read.value.2, Layout(info)).value|
  {
  }

  /** A settled failure: once a key has failed, later keys change nothing. */
  lemma {:induction false} LoadSettled(keys: seq<string>, cols: seq<Result<ColumnResult>>, k: nat, n: nat)
    requires k <= n <= |keys| == |cols| && LoadColumns(keys, cols, k).Err?
    ensures LoadColumns(keys, cols, n) == LoadColumns(keys, cols, k)
    decreases n
  {
    if n > k {
      LoadSettled(keys, cols, k, n - 1);
    }
  }

  /** A key whose column decodes adds that column to the ones before it. */
  lemma LoadStep(keys: seq<string>, cols: seq<Result<ColumnResult>>, i: nat, s: ColumnSet, col: ColumnResult)
    requires i < |keys| == |cols| && LoadColumns(keys, cols, i) == Ok(s) && cols[i] == Ok(col)
    ensures LoadColumns(keys, cols, i + 1) == Ok(Stored(s, keys[i], col))
  {
  }

  // ---------------------------------------------------------------------
  // The table and its lookups (pdstable/__init__.py:483-490, 499-942)

  /** The lowercase argument: one flag standing for both, or the pair
      (lower-cased keys, lower-cased values). */
  datatype Lowercase = Both(flag: bool) | Pair(keys: bool, values: bool)

  /** The pair a lowercase argument stands for: one flag is duplicated. */
  function Flags(lc: Lowercase): (r: (bool, bool))
    ensures lc.Both? ==> r == (lc.flag, lc.flag)
    ensures lc.Pair? ==> r == (lc.keys, lc.values)
  {
    match lc
    case Both(b) => (b, b)
    case Pair(k, v) => (k, v)
  }

  const VolumeGuesses: seq<string> := LowerAll(VolumeIdColumnNames)
  const FilespecGuesses: seq<string> := LowerAll(FileSpecificationColumnNames)

  /** filename_key with the table's filename_keylen. */
  function KeyOf(keylen: int): string -> string
  {
    s => FilenameKey(s, keylen)
  }

  class Table {
    const keys: seq<string>
    const keysLc: seq<string>
    const first: nat
    const rows: nat
    const records: nat
    const columnValues: map<string, seq<Cell>>
    const columnMasks: map<string, Mask>
    const warnings: seq<Diagnostic>
    const filenameKeylen: int

    /** _dicts_by_row, keyed by the lowercase pair. */
    var dictsCache: map<(bool, bool), seq<RowDict>>
    /** The volume and file specification columns once looked for: the
        column index (-1 when absent) and the lower-cased name. */
    var volumeColumn: Option<(int, string)>
    var filespecColumn: Option<(int, string)>
    /** _rows_by_filename and filename_keys once built. */
    var filenameIndex: Option<FileIndex>

    /** The decoded columns are in place. */
    predicate Decoded()
    {
      keysLc == LowerAll(keys) && Shaped(keys, ColumnSet(columnValues, columnMasks, warnings), records)
    }

    /** The table holds these contents. */
    predicate Holds(c: Contents)
    {
      keys == c.keys && first == c.first && rows == c.rows && records == c.records &&
      columnValues == c.columns.values && columnMasks == c.columns.masks && warnings == c.columns.warnings
    }

    /** Every cache holds what it stands for. */
    ghost predicate Valid()
      reads this
    {
      Decoded() &&
      (forall lc :: lc in dictsCache ==> Dicts(lc) == Ok(dictsCache[lc])) &&
      (volumeColumn.Some? ==> volumeColumn.value == FirstGuess(VolumeGuesses, keysLc)) &&
      (filespecColumn.Some? ==> filespecColumn.value == FirstGuess(FilespecGuesses, keysLc)) &&
      (filenameIndex.Some? ==> ByFilename() == Ok(filenameIndex.value))
    }

    /** A table holding the constructor's contents, with empty caches. */
    constructor (c: Contents, keylen: int)
      requires Shaped(c.keys, c.columns, c.records)
      ensures Valid() && Holds(c) && filenameKeylen == keylen
      ensures dictsCache == map[] && volumeColumn.None? && filespecColumn.None? && filenameIndex.None?
    {
      keys := c.keys;
      keysLc := LowerAll(c.keys);
      first := c.first;
      rows := c.rows;
      records := c.records;
      columnValues := c.columns.values;
      columnMasks := c.columns.masks;
      warnings := c.columns.warnings;
      filenameKeylen := keylen;
      dictsCache := map[];
      volumeColumn := None;
      filespecColumn := None;
      filenameIndex := None;
    }

    /** Every row below `rows` is in every column, unless some column is
        shorter. */
    lemma RowsPresent()
      requires Decoded() && (|keys| == 0 || rows <= records)
      ensures forall row :: 0 <= row < rows ==> HasRow(keys, columnValues, columnMasks, row)
    {
    }

    /** dicts_by_row: a row past the decoded records is an error. */
    function Dicts(lc: (bool, bool)): Result<seq<RowDict>>
      requires Decoded()
    {
      if |keys| > 0 && records < rows then Err(RowOutOfRange(records))
      else
        RowsPresent();
        Ok(RowDicts(rows, keys, columnValues, columnMasks, lc))
    }

    /** find_row_indices (a limit of 0 stands for no limit). */
    function Found(lc: (bool, bool), limit: int, substrings: seq<string>, params: seq<(string, Value)>)
      : Result<seq<int>>
      requires Decoded()
    {
      match Dicts(lc)
      case Err(e) => Err(e)
      case Ok(ds) => Search(ds, Tests(params, substrings), limit, |ds|)
    }

    /** The filename index of the file specification column: its
        unmasked rows (a row with several mask bits is masked when any is
        set) filed under their filename keys. */
    function ByFilename(): Result<FileIndex>
      requires Decoded()
    {
      var (k, _) := FirstGuess(FilespecGuesses, keysLc);
      if k < 0 then Err(NoFileSpecColumn)
      else
        var name := keys[k];
        FilenameIndex(columnValues[name], MaskedRows(name), KeyOf(filenameKeylen), records)
    }

    /** The masked rows of a column. */
    function MaskedRows(name: string): (r: seq<bool>)
      requires Decoded() && name in keys
      ensures |r| == records
    {
      var mask := columnMasks[name];
      seq(records, row requires 0 <= row < records => AnyTrue(MaskRow(mask, row)))
    }

    /** find_row_indices_by_volume_filespec: with one argument it is the
        file specification; the search is on the lower-cased file
        specification column, with the name normalised after the first
        row's entry, and on the volume column too when the table has one
        and the volume is not blank. */
    function ByVolumeFilespec(volumeId: string, filespec: Option<string>, limit: int, substring: bool)
      : Result<seq<int>>
      requires Decoded()
    {
      match Dicts((true, true))
      case Err(e) => Err(e)
      case Ok(ds) =>
        if |ds| == 0 then Err(EmptyTable)
        else
          var (vol, spec) := if filespec.None? then ("", volumeId) else (volumeId, filespec.value);
          var (vk, vlc) := FirstGuess(VolumeGuesses, keysLc);
          var (fk, flc) := FirstGuess(FilespecGuesses, keysLc);
          if fk < 0 then Err(NoFileSpecColumn)
          else if flc !in ds[0].values then Err(MissingKey(flc))
          else if !UsableExample(ds[0].values[flc], substring) then
            Err(if ds[0].values[flc].Single? then NotIterable else NotAPath)
          else
            Found((true, true), limit, if substring then [flc + "_lower"] else [],
                  SearchParams(vk, vlc, flc, vol, NormalizeFilespec(spec, ds[0].values[flc], substring)))
    }

    /** dicts_by_row: the cached dictionaries for the lowercase pair, or
        built and cached on first request. */
    method DictsByRow(lowercase: Lowercase) returns (r: Result<seq<RowDict>>)
      requires Valid()
      modifies this
      ensures Valid() && r == Dicts(Flags(lowercase))
      ensures r.Ok? ==> dictsCache == old(dictsCache)[Flags(lowercase) := r.value]
      ensures r.Err? ==> dictsCache == old(dictsCache)
      ensures Flags(lowercase) in old(dictsCache) ==> dictsCache == old(dictsCache)
      ensures volumeColumn == old(volumeColumn) && filespecColumn == old(filespecColumn)
      ensures filenameIndex == old(filenameIndex)
    {
      var lc := Flags(lowercase);
      if lc in dictsCache {
        return Ok(dictsCache[lc]);
      }
      if |keys| > 0 && records < rows {
        return Err(RowOutOfRange(records));
      }
      RowsPresent();
      var dicts := BuildRowDicts(rows, keys, columnValues, columnMasks, lc);
      dictsCache := dictsCache[lc := dicts];
      return Ok(dicts);
    }

    /** find_row_indices: the rows whose dictionaries pass every test,
        up to the limit (0 for none). */
    method FindRowIndices(lowercase: Lowercase, limit: int, substrings: seq<string>, params: seq<(string, Value)>)
      returns (r: Result<seq<int>>)
      requires Valid()
      modifies this
      ensures Valid() && r == Found(Flags(lowercase), limit, substrings, params)
      ensures Flags(lowercase) in old(dictsCache) ==> dictsCache == old(dictsCache)
      ensures volumeColumn == old(volumeColumn) && filespecColumn == old(filespecColumn)
      ensures filenameIndex == old(filenameIndex)
    {
      var dicts := DictsByRow(lowercase);
      if dicts.Err? {
        return Err(dicts.error);
      }
      r := SearchRows(dicts.value, Tests(params, substrings), limit);
    }

    /** find_row_index: the first row found, or "row not found". */
    method FindRowIndex(lowercase: Lowercase, substrings: seq<string>, params: seq<(string, Value)>)
      returns (r: Result<int>)
      requires Valid()
      modifies this
      ensures Valid() && r == FirstFound(Found(Flags(lowercase), 1, substrings, params))
      ensures volumeColumn == old(volumeColumn) && filespecColumn == old(filespecColumn)
      ensures filenameIndex == old(filenameIndex)
    {
      var matches := FindRowIndices(lowercase, 1, substrings, params);
      r := FirstFound(matches);
    }

    /** volume_column_index: the first of the usual volume column names
        among the keys, looked for once. */
    method VolumeColumnIndex() returns (k: int)
      requires Valid()
      modifies this
      ensures Valid() && k == FirstGuess(VolumeGuesses, keysLc).0
      ensures volumeColumn == Some(FirstGuess(VolumeGuesses, keysLc))
      ensures dictsCache == old(dictsCache) && filespecColumn == old(filespecColumn)
      ensures filenameIndex == old(filenameIndex)
    {
      if volumeColumn.None? {
        var index, guess := FindGuess(VolumeGuesses, keysLc);
        volumeColumn := Some((index, guess));
      }
      return volumeColumn.value.0;
    }

    /** filespec_column_index: the first of the usual file specification
        column names among the keys, looked for once; -1 when none is. */
    method FilespecColumnIndex() returns (k: int)
      requires Valid()
      modifies this
      ensures Valid() && k == FirstGuess(FilespecGuesses, keysLc).0
      ensures filespecColumn == Some(FirstGuess(FilespecGuesses, keysLc))
      ensures dictsCache == old(dictsCache) && volumeColumn == old(volumeColumn)
      ensures filenameIndex == old(filenameIndex)
    {
      if filespecColumn.None? {
        var index, guess := FindGuess(FilespecGuesses, keysLc);
        filespecColumn := Some((index, guess));
      }
      return filespecColumn.value.0;
    }

    /** find_row_indices_by_volume_filespec. */
    method FindRowIndicesByVolumeFilespec(volumeId: string, filespec: Option<string>, limit: int, substring: bool)
      returns (r: Result<seq<int>>)
      requires Valid()
      modifies this
      ensures Valid() && r == ByVolumeFilespec(volumeId, filespec, limit, substring)
      ensures filenameIndex == old(filenameIndex)
      ensures dictsCache == old(dictsCache) ||
        (Dicts((true, true)).Ok? && dictsCache == old(dictsCache)[(true, true) := Dicts((true, true)).value])
      ensures volumeColumn == old(volumeColumn) || volumeColumn == Some(FirstGuess(VolumeGuesses, keysLc))
      ensures filespecColumn == old(filespecColumn) || filespecColumn == Some(FirstGuess(FilespecGuesses, keysLc))
    {
      var dicts := DictsByRow(Pair(true, true));
      if dicts.Err? {
        return Err(dicts.error);
      }
      if |dicts.value| == 0 {
        return Err(EmptyTable);
      }
      ghost var cached := dictsCache;
      assert cached == old(dictsCache) ||
        (Dicts((true, true)).Ok? && cached == old(dictsCache)[(true, true) := Dicts((true, true)).value]);
      var vol, spec := volumeId, "";
      if filespec.None? {
        vol, spec := "", volumeId;
      } else {
        spec := filespec.value;
      }
      var vk := VolumeColumnIndex();
      var fk := FilespecColumnIndex();
      var vlc := volumeColumn.value.1;
      var flc := filespecColumn.value.1;
      if fk < 0 {
        return Err(NoFileSpecColumn);
      }
      var row := dicts.value[0];
      if flc !in row.values {
        return Err(MissingKey(flc));
      }
      var example := row.values[flc];
      if !UsableExample(example, substring) {
        return Err(if example.Single? then NotIterable else NotAPath);
      }
      var target := NormalizeFilespec(spec, example, substring);
      var substrings := if substring then [flc + "_lower"] else [];
      r := FindRowIndices(Pair(true, true), limit, substrings, SearchParams(vk, vlc, flc, vol, target));
    }

    /** index_rows_by_filename_key: build and cache the filename index of
        the file specification column, once. */
    method IndexRowsByFilenameKey() returns (r: Result<()>)
      requires Valid()
      modifies this
      ensures Valid() && (r.Ok? <==> ByFilename().Ok?) && (r.Err? ==> r.error == ByFilename().error)
      ensures r.Ok? ==> filenameIndex == Some(ByFilename().value)
      ensures r.Err? ==> filenameIndex == old(filenameIndex)
      ensures dictsCache == old(dictsCache)
      ensures volumeColumn == old(volumeColumn) || volumeColumn == Some(FirstGuess(VolumeGuesses, keysLc))
      ensures filespecColumn == old(filespecColumn) || filespecColumn == Some(FirstGuess(FilespecGuesses, keysLc))
    {
      if filenameIndex.None? {
        var _ := VolumeColumnIndex();
        var k := FilespecColumnIndex();
        if k < 0 {
          return Err(NoFileSpecColumn);
        }
        var name := keys[k];
        var index := IndexFilenames(columnValues[name], MaskedRows(name), KeyOf(filenameKeylen));
        if index.Err? {
          return Err(index.error);
        }
        filenameIndex := Some(index.value);
      }
      return Ok(());
    }

    /** row_indices_by_filename_key: the rows filed under the key, in any
        case. */
    method RowIndicesByFilenameKey(key: string) returns (r: Result<seq<int>>)
      requires Valid()
      modifies this
      ensures Valid() && r == (match ByFilename() case Err(e) => Err(e) case Ok(idx) => RowsOfKey(idx, key))
      ensures filenameIndex == old(filenameIndex) || (ByFilename().Ok? && filenameIndex == Some(ByFilename().value))
      ensures dictsCache == old(dictsCache)
      ensures volumeColumn == old(volumeColumn) || volumeColumn == Some(FirstGuess(VolumeGuesses, keysLc))
      ensures filespecColumn == old(filespecColumn) || filespecColumn == Some(FirstGuess(FilespecGuesses, keysLc))
    {
      var built := IndexRowsByFilenameKey();
      if built.Err? {
        return Err(built.error);
      }
      r := RowsOfKey(filenameIndex.value, key);
    }

    /** The test of one column's own key on one row: it fails on a set
        mask bit, and otherwise passes when every item equals the value. */
    lemma ValueTestOnRow(lc: (bool, bool), i: int, v: Value, row: nat)
      requires Decoded() && 0 <= i < |keys| && row < records && !EndsWith(keys[i], "_lower")
      requires forall j :: i < j < |keys| ==> keys[i] !in ValueKeys(keys[j], lc) && keys[i] + "_mask" !in MaskKeys(keys[j], lc)
      ensures var d := RowDictOf(row, keys, columnValues, columnMasks, lc);
        var items := ItemsOf(columnValues[keys[i]][row]);
        RowMatch(d, Tests([(keys[i], v)], [])) ==
          Ok(!AnyTrue(MaskRow(columnMasks[keys[i]], row)) && forall k :: 0 <= k < |items| ==> ValueEq(v, items[k]))
    {
      var key := keys[i];
      assert key in KeyVariants(key, lc) && key + "_mask" in MaskVariants(key, lc);
      RowDictColumn(row, keys, columnValues, columnMasks, lc, i, key, key + "_mask");
      var tests := Tests([(key, v)], []);
      assert tests == [Test(key, v, false, key + "_mask")];
      assert tests[1..] == [];
    }

    /** find_row_indices on the value of one column, with no limit: the
        rows in ascending order whose mask bits are all clear and whose
        every item equals the value, provided no later column writes the
        same dictionary keys. */
    lemma FindByValue(lc: (bool, bool), i: int, v: Value)
      requires Decoded() && 0 <= i < |keys| && rows <= records && !EndsWith(keys[i], "_lower")
      requires forall j :: i < j < |keys| ==> keys[i] !in ValueKeys(keys[j], lc) && keys[i] + "_mask" !in MaskKeys(keys[j], lc)
      ensures var r := Found(lc, 0, [], [(keys[i], v)]);
        r.Ok? && (forall a, b :: 0 <= a < b < |r.value| ==> r.value[a] < r.value[b]) &&
        forall row :: row in r.value <==> (
          0 <= row < rows && !AnyTrue(MaskRow(columnMasks[keys[i]], row)) &&
          var items := ItemsOf(columnValues[keys[i]][row]);
          forall k :: 0 <= k < |items| ==> ValueEq(v, items[k]))
    {
      RowsPresent();
      var ds := RowDicts(rows, keys, columnValues, columnMasks, lc);
      var tests := Tests([(keys[i], v)], []);
      assert Dicts(lc) == Ok(ds);
      forall row | 0 <= row < rows
        ensures var items := ItemsOf(columnValues[keys[i]][row]);
          RowMatch(ds[row], tests) ==
            Ok(!AnyTrue(MaskRow(columnMasks[keys[i]], row)) && forall k :: 0 <= k < |items| ==> ValueEq(v, items[k]))
      {
        ValueTestOnRow(lc, i, v, row);
      }
      SearchErrors(ds, tests, 0, rows);
      SearchFindsFirstMatches(ds, tests, 0, rows);
    }

    /** Every row find_row_indices returns is a row of the table whose
        dictionary satisfies every keyword test. */
    lemma FoundSound(lc: (bool, bool), limit: int, substrings: seq<string>, params: seq<(string, Value)>)
      requires Decoded() && Found(lc, limit, substrings, params).Ok?
      ensures var m := Found(lc, limit, substrings, params).value; var ds := Dicts(lc).value;
        forall a, j :: 0 <= a < |m| && 0 <= j < |params| ==>
          0 <= m[a] < rows && Satisfies(ds[m[a]], TestOf(params[j].0, params[j].1, substrings))
    {
      var ds := Dicts(lc).value;
      var tests := Tests(params, substrings);
      assert Found(lc, limit, substrings, params) == Search(ds, tests, limit, |ds|);
      SearchSound(ds, tests, limit);
      assert forall j :: 0 <= j < |params| ==> tests[j] == TestOf(params[j].0, params[j].1, substrings);
    }

    /** Every row of the volume and file specification search has the
        file specification sought in its lower-cased column (as a part of
        it for a substring search) with no mask bit set, and the volume
        too when the table has a volume column and the volume is not
        blank. */
    lemma ByVolumeFilespecSound(volumeId: string, filespec: Option<string>, limit: int, substring: bool)
      requires Decoded() && ByVolumeFilespec(volumeId, filespec, limit, substring).Ok?
      ensures var ds := Dicts((true, true)).value;
        var (vk, vlc) := FirstGuess(VolumeGuesses, keysLc);
        var flc := FirstGuess(FilespecGuesses, keysLc).1;
        var (vol, spec) := if filespec.None? then ("", volumeId) else (volumeId, filespec.value);
        var subs := if substring then [flc + "_lower"] else [];
        |ds| > 0 && flc in ds[0].values && UsableExample(ds[0].values[flc], substring) &&
        var target := NormalizeFilespec(spec, ds[0].values[flc], substring);
        var m := ByVolumeFilespec(volumeId, filespec, limit, substring).value;
        forall a :: 0 <= a < |m| ==> (
          0 <= m[a] < rows && Satisfies(ds[m[a]], TestOf(flc + "_lower", StrV(target), subs)) &&
          (vk >= 0 && Lower(vol) != "" ==> Satisfies(ds[m[a]], TestOf(vlc + "_lower", StrV(Lower(vol)), subs))))
    {
      var ds := Dicts((true, true)).value;
      var (vk, vlc) := FirstGuess(VolumeGuesses, keysLc);
      var flc := FirstGuess(FilespecGuesses, keysLc).1;
      var (vol, spec) := if filespec.None? then ("", volumeId) else (volumeId, filespec.value);
      var subs := if substring then [flc + "_lower"] else [];
      var target := NormalizeFilespec(spec, ds[0].values[flc], substring);
      var params := SearchParams(vk, vlc, flc, vol, target);
      assert ByVolumeFilespec(volumeId, filespec, limit, substring) == Found((true, true), limit, subs, params);
      FoundSound((true, true), limit, subs, params);
    }

    /** Looking up a filename key, in any case, finds an unmasked row of
        the file specification column exactly when the key is that row's
        filename key; it never finds a masked row. */
    lemma FilenameKeyFindsRow(key: string, row: int)
      requires Decoded() && ByFilename().Ok? && 0 <= row < records
      ensures var name := keys[FirstGuess(FilespecGuesses, keysLc).0];
        var spec := columnValues[name][row];
        var r := RowsOfKey(ByFilename().value, key);
        (!MaskedRows(name)[row] ==> IsFileName(spec)) &&
        (r.Ok? && row in r.value <==>
          !MaskedRows(name)[row] && IsFileName(spec) && Lower(key) == Lower(FilenameKey(spec.v.s, filenameKeylen)))
    {
      var name := keys[FirstGuess(FilespecGuesses, keysLc).0];
      var specs := columnValues[name];
      var masked := MaskedRows(name);
      var keyOf := KeyOf(filenameKeylen);
      if !masked[row] {
        RowsOfKeyFindsRows(specs, masked, keyOf, key, row);
      } else {
        FilenameIndexSpec(specs, masked, keyOf, |specs|);
      }
    }
  }

  /** The keyword arguments of the volume and file specification search:
      the file specification, then the volume when there is a volume
      column and the volume is not blank. */
  function SearchParams(vk: int, vlc: string, flc: string, vol: string, target: string): (r: seq<(string, Value)>)
    ensures |r| >= 1 && r[0] == (flc + "_lower", StrV(target))
    ensures |r| == 2 <==> vk >= 0 && Lower(vol) != ""
    ensures |r| == 2 ==> r[1] == (vlc + "_lower", StrV(Lower(vol)))
    ensures |r| <= 2
  {
    var vcol := if vk < 0 then "" else vlc + "_lower";
    var v := Lower(vol);
    if vcol != "" && v != "" then [(flc + "_lower", StrV(target)), (vcol, StrV(v))]
    else [(flc + "_lower", StrV(target))]
  }

  /** The column of key i: cut out of the records, then decoded. */
  method DecodeKey(keys: seq<string>, i: nat, info: TableInfo, recs: seq<Bytes>, size: int, req: Request,
                   conv: Converters) returns (r: Result<ColumnResult>)
    requires i < |keys| && Sized(recs, size)
    ensures r == ColumnsOf(keys, info, recs, size, req, conv)[i]
  {
    var key := keys[i];
    if key !in info.columnDict {
      return Err(UnknownColumn(key));
    }
    var c := info.columnDict[key];
    var cells := ItemCells(recs, c, size);
    if cells.Err? {
      return Err(cells.error);
    }
    var col := DecodeColumn(c.name, cells.value, |recs|, ColumnOptions(key, c, req), conv, req.mergeMasks);
    return Ok(col);
  }

  /** The loops of the constructor over the keys: cut out each key's
      column, then decode it. */
  method DecodeColumns(keys: seq<string>, info: TableInfo, recs: seq<Bytes>, size: int, req: Request,
                       conv: Converters) returns (r: Result<ColumnSet>)
    requires Sized(recs, size)
    ensures r == LoadColumns(keys, ColumnsOf(keys, info, recs, size, req, conv), |keys|)
  {
    ghost var cols := ColumnsOf(keys, info, recs, size, req, conv);
    var columns := ColumnSet(map[], map[], []);
    var i := 0;
    while i < |keys|
      invariant 0 <= i <= |keys| && LoadColumns(keys, cols, i) == Ok(columns)
    {
      var col := DecodeKey(keys, i, info, recs, size, req, conv);
      if col.Err? {
        LoadSettled(keys, cols, i + 1, |keys|);
        return Err(col.error);
      }
      LoadStep(keys, cols, i, columns, col.value);
      columns := Stored(columns, keys[i], col.value);
      i := i + 1;
    }
    return Ok(columns);
  }

  /** PdsTable's constructor, from the resolved label on: read the rows,
      view them as records, then cut out and decode each key's column in
      turn. */
  method Load(info: TableInfo, file: seq<Bytes>, recordBytes: Option<int>, req: Request, conv: Converters)
    returns (r: Result<Table>)
    ensures r.Err? <==> Loaded(info, file, recordBytes, req, conv).Err?
    ensures r.Err? ==> r.error == Loaded(info, file, recordBytes, req, conv).error
    ensures r.Ok? ==> (
      fresh(r.value) && r.value.Valid() && r.value.filenameKeylen == req.filenameKeylen &&
      r.value.dictsCache == map[] && r.value.filenameIndex.None? &&
      r.value.Holds(Loaded(info, file, recordBytes, req, conv).value))
  {
    var keys := SelectedKeys(info, req.columns);
    if req.rowRange.Some? && recordBytes.None? {
      return Err(MissingKey("RECORD_BYTES"));
    }
    var read := ReadRows(file, req.rowRange, info.rows, if recordBytes.Some? then recordBytes.value else 0);
    if read.Err? {
      return Err(read.error);
    }
    var (first, rows, lines) := read.value;
    var layout := Layout(info);
    var records := Records.Records(lines, layout);
    if records.Err? {
      return Err(records.error);
    }
    var recs := records.value;
    var columns := DecodeColumns(keys, info, recs, RecordSize(layout), req, conv);
    if columns.Err? {
      return Err(columns.error);
    }
    LoadColumnsShaped(keys, ColumnsOf(keys, info, recs, RecordSize(layout), req, conv), |recs|);
    var c := Contents(keys, first, rows, |recs|, columns.value);
    assert Loaded(info, file, recordBytes, req, conv) == Ok(c);
    var table := new Table(c, req.filenameKeylen);
    return Ok(table);
  }
}
