# pdstable in Dafny

A model of the core of `pdstable`, the library that reads fixed-width
ASCII tables described by PDS3 or PDS4 labels. It covers three parts:

- **Schema resolution.** `PdsTableInfo` and `PdsColumnInfo` read a PDS3
  label; `Pds4TableInfo` and `Pds4ColumnInfo` read a PDS4 label. Each
  turns the label into a table description: its file name, its rows and
  its row bytes. Each column gets a name, a number, a byte field, item
  fields, a logical type, invalid values and a valid range.
- **Loading.** The `PdsTable` constructor reads the table file's lines
  and views each line as a record. It cuts every selected column out of
  the records, item by item. Each item then goes through the decode
  pipeline: callback, text replacements, a whole-array conversion with a
  row-by-row fallback, masks for invalid and out-of-range values, and a
  warning that counts the rows that failed.
- **Lookup.** On the loaded table the model covers:
  - the per-row dictionaries, `dicts_by_row`;
  - the searches `find_row_indices` and `find_row_index`;
  - the volume and file-specification search, with its normalisation of
    file names (VMS paths, base names, extensions, case);
  - the filename-key index and its cache;
  - the utilities: `is_pds4_label`, the base-2/8/16 integer readers and
    `lowercase_value`.

The project is eleven modules, one file each:

- `Common`: bytes, `Option`/`Result`, the errors, and Python-like values
  whose equality is numeric-aware.
- `Text`: the Python string operations the code relies on.
- `Utils`: the helpers of `utils.py`.
- `Schema`: column and table descriptions.
- `Pds3` and `Pds4`: the two label readers, as methods with loops.
- `Records`: the fixed-width record view.
- `Rows`: reading lines, and row ranges.
- `Decode`: the decode pipeline.
- `Lookup`: row dictionaries, searching and the filename index.
- `Tables`: the constructor, and a `Table` class whose caches the lookup
  methods fill.

The loops of the source are methods proved against specification
functions. Those functions carry the lemmas that state what the source
promises.

Label parsing is not part of this model. A PDS3 label arrives as a
`Pds3.Label`: RECORD_TYPE, the keywords in order, and the TABLE object
with its members in order. A PDS4 label arrives as a `Pds4.Label`: the
file name, the sizes, and the `Field_Character` nodes. Three conversions
arrive as a `Converters` parameter: `float()`, the ISO time parser
`julian.tai_from_iso`, and numpy's reading of booleans. The caller's
callbacks arrive with the other options in `Tables.Request`, and reach
each column through `Decode.Options`. The file contents arrive as a
sequence of lines.

Where the source has a defect, the model follows the evident intent; the
defects are listed here:

- `pdstable/__init__.py:239` names an undefined `count` in the row-range
  mismatch message. The model raises `RowCountMismatch` with the lines
  read and the rows requested.
- `pdstable/__init__.py:1151` names an undefined `data_type` in the
  unsupported-type error. The model raises `UnsupportedDataType` with
  the label's tag.
- `pdstable/__init__.py:731-733`: `filespec_column_index` sets attributes
  without the leading underscore, so its "not found" state is never
  cached. The model caches the result of the search, as
  `volume_column_index` does.
- `pdstable/__init__.py:778-781`: the volume column name is tested
  against `None`, which never happens once the search has run. As
  written, a table without a volume column searches the key `_lower` when
  a volume is given. The model ignores the volume in that case, as the
  docstring at 752-754 promises.
- `pdstable/__init__.py:529-531` reads the mask of the underscored key,
  which has no mask of its own. The model gives the underscored key the
  column's mask.
- `pdstable/__init__.py:407-410` compares a row that failed to convert
  (a string) with the numeric valid range. That comparison would raise.
  The model masks the failed row and does not compare it.
- `pdstable/__init__.py:424-431` compares a text column with its valid
  range. A range is numeric (the docstrings at 161-163 and 1103-1104), and
  numpy refuses to order text against a number, so this would raise. The
  comment at 426 shows the authors expected such mismatched comparisons to
  be harmless. The model applies no range to a text column.
- `pdstable/__init__.py:966` lower-cases a tuple item only when its type
  is exactly `str`. The items of a multi-item text column are numpy
  strings (445-447), so they would keep their case. The model lower-cases
  every string item, as the docstring at 958-959 promises for tuples and
  as the array branch at 970-973 does.
- `pdstable/__init__.py:632-635`: a numpy integer scalar is neither
  `int` nor iterable, so the source would raise. The model compares it
  as a single value.
- `pdstable/__init__.py:245-251` views the lines through the dtype0
  dictionary. The model lays out the terminator field, then each column
  field in label order; a layout numpy would refuse gives
  `BadRowDescription`.
- `pdstable/__init__.py:256-471` extracts every column, then decodes
  every column. The model does both for one key before it moves to the
  next. The outcome is the same, and the first failing key gives the
  error.
- `pdstable/__init__.py:644`: a limit of `None` or `0` means no limit.
  The model has no `None` and takes 0 for it. A negative limit stops the
  search at the first match, in the model as in the source.
- `pdstable/__init__.py:908-934`: `index_rows_by_filename_key` returns
  nothing. The model returns `Result<()>` so that its error paths are
  explicit.

## Model

| member | source | states |
|---|---|---|
| Utils.EndsWithAny | pdstable/utils.py:20-23 | true exactly when some extension in the list ends the name |
| Utils.IsPds4Label | pdstable/utils.py:11-24 | a label is PDS4 exactly when its name ends with ".xml" or ".lblx" |
| Utils.DigitValue | pdstable/utils.py:40-49 | the digit value int() gives a character never exceeds 36 |
| Utils.StripAsciiLeft | pdstable/utils.py:40-73 | the leading ASCII whitespace int() skips is removed, and nothing more |
| Utils.StripAsciiRight | pdstable/utils.py:40-73 | the trailing ASCII whitespace int() skips is removed, and nothing more |
| Utils.StripAsciiUnchanged | pdstable/utils.py:40-73 | text that neither starts nor ends with ASCII whitespace is unchanged by the strip |
| Utils.StripAscii | pdstable/utils.py:40-73 | the text int() reads neither starts nor ends with ASCII whitespace |
| Utils.StripAsciiLeftPadded | pdstable/utils.py:40-73 | leading ASCII whitespace before text that starts with no whitespace is all removed |
| Utils.StripAsciiRightPadded | pdstable/utils.py:40-73 | trailing ASCII whitespace after text that ends with no whitespace is all removed |
| Utils.StripAsciiPadded | pdstable/utils.py:40-73 | whitespace on both sides of text with no whitespace at its ends strips to that text |
| Utils.StripAsciiIdempotent | pdstable/utils.py:40-73 | stripping twice is stripping once |
| Utils.ParseIntOfStripped | pdstable/utils.py:40-73 | int() of text is int() of the text with its surrounding ASCII whitespace removed |
| Utils.ParseIntOfParts | pdstable/utils.py:40-73 | once the whitespace, the sign and the radix prefix are removed from the text, well-grouped digits give their value, negated after a minus sign |
| Utils.ParseIntOfSigned | pdstable/utils.py:40-73 | int("-" + d) is minus the value of the digits d, and int("+" + d) is their value |
| Utils.ParseIntOfRightJustified | pdstable/utils.py:40-73 | a right-justified field reads as its text without the padding, as int("   42") == 42 |
| Utils.ParseIntOfPaddedSigned | pdstable/utils.py:40-73 | a padded signed field reads as its signed digits, as int("  -42") == -42 |
| Utils.ParseInt | pdstable/utils.py:40-73 | int(text, base) succeeds only on text made of ASCII whitespace, a sign, the radix prefix, underscores and digits of the base |
| Utils.ParsedCharsAllowed | pdstable/utils.py:40-73 | whatever int() accepts after stripping, dropping the sign, the prefix and its underscore consists of allowed characters |
| Utils.DropPrefixUnchanged | pdstable/utils.py:40-73 | text whose second character is a digit of the base or an underscore has no radix prefix to drop |
| Utils.ParseIntOfPlain | pdstable/utils.py:40-73 | text of digits and underscores starting with a digit parses to its digit value exactly when its underscores are single and inner |
| Utils.ParseIntOfDigits | pdstable/utils.py:40-73 | a plain digit string of the base parses to its positional value |
| Utils.DigitsValueSkipsUnderscore | pdstable/utils.py:40-73 | an underscore between digits adds nothing to their value |
| Utils.JoinedDigits | pdstable/utils.py:40-73 | digits joined by underscores are made of digits and underscores only |
| Utils.UnderscoreGroupsDigits | pdstable/utils.py:40-73 | int(a + "_" + b, base) is the value of the digits a + b, as int("1_000") == 1000 |
| Utils.LeadingUnderscore | pdstable/utils.py:40-73 | a leading underscore is a ValueError |
| Utils.TrailingUnderscore | pdstable/utils.py:40-73 | a trailing underscore is a ValueError |
| Utils.DoubledUnderscore | pdstable/utils.py:40-73 | a doubled underscore between digits is a ValueError |
| Utils.DropRadixPrefix | pdstable/utils.py:40-73 | the radix prefix of base 2, 8 or 16 and one underscore after it are dropped before the digits |
| Utils.RadixPrefixSkipped | pdstable/utils.py:40-73 | int("0b_101", 2) == 5: with or without one underscore after the prefix, the digits after it give the value |
| Utils.IntFromBase2 | pdstable/utils.py:40-49 | a base-2 read never accepts the digit 2 |
| Utils.IntFromBase8 | pdstable/utils.py:52-61 | a base-8 read never accepts the digits 8 or 9 |
| Utils.IntFromBase16 | pdstable/utils.py:64-73 | a base-16 read never accepts g or G |
| Utils.IntFromDecimal | pdstable/pds4table.py:44-71 | int() of a decimal column accepts only allowed characters |
| Utils.DigitChar | pdstable/utils.py:64-73 | the digit written for a value reads back as that value |
| Utils.Format | pdstable/utils.py:40-73 | the digits of n in a table base form a non-empty digit string of that base |
| Utils.DigitsValueOfFormat | pdstable/utils.py:40-73 | reading back the digits of n gives n |
| Utils.ParseFormat | pdstable/utils.py:40-73 | int(format(n, base), base) == n for bases 2, 8, 10, 16 |
| Utils.IntFromBaseRoundTrip | pdstable/pds4table.py:33-40 | int_from_base2/8/16 and int() read back the digits of any n >= 0 |
| Text.StripLeft | pdstable/__init__.py:356-357 | lstrip removes exactly the leading whitespace |
| Text.StripRight | pdstable/__init__.py:356-357 | rstrip removes exactly the trailing whitespace |
| Text.Strip | pdstable/__init__.py:356-357 | strip keeps the stretch between leading and trailing whitespace, which neither starts nor ends with whitespace |
| Text.StripUnchanged | pdstable/__init__.py:400-401 | text without surrounding whitespace is unchanged by strip |
| Text.StripIdempotent | pdstable/__init__.py:469-471 | stripping twice is stripping once (the warning strips the stripped example) |
| Text.Lower | pdstable/__init__.py:958-979 | lower-casing maps each character on its own and keeps the length |
| Text.LowerIdempotent | pdstable/__init__.py:805-806 | lower-casing twice is lower-casing once |
| Text.Contains | pdstable/__init__.py:627-631 | `needle in hay` holds exactly when the needle occurs at some index |
| Text.NotContainedChar | pdstable/__init__.py:1133-1146 | a tag lacking a character of a type name does not contain that name |
| Text.RFind | pdstable/__init__.py:701 | the last index of a character, or -1 when it is absent |
| Text.Basename | pdstable/__init__.py:701 | the base name is the slash-free tail of the path after its last slash |
| Text.SplitExt | pdstable/__init__.py:702 | stem + extension is the path; the extension is empty or a dot followed by no dot or slash |
| Text.SplitExtOfName | pdstable/__init__.py:799-802 | splitext of stem + ".ext" gives back the stem and the extension |
| Text.ReplaceChar | pdstable/__init__.py:529 | replace(' ', '_') changes exactly the blanks |
| Text.Split | pdstable/__init__.py:791 | split always gives at least one piece |
| Text.Find | pdstable/__init__.py:791 | the first index of a character, or -1 exactly when it is absent |
| Text.SplitFound | pdstable/__init__.py:791 | split at the first separator gives the head, then the split of the rest |
| Text.JoinSplit | pdstable/__init__.py:791-792 | joining the pieces of a split with the separator gives the text back |
| Schema.Terminator | pdstable/__init__.py:1061 | the crlf field is two bytes ending at ROW_BYTES |
| Schema.ItemFields | pdstable/__init__.py:1121-1129 | the dtype1 loop gives one field per item, item i at i * item_offset, item_bytes wide |
| Schema.CallerInvalid | pdstable/__init__.py:1156-1159 | a lone invalid number or string becomes a singleton; a collection is used as it is |
| Schema.LabelInvalid | pdstable/__init__.py:1161-1171 | the label's values are exactly those of the ten constant keywords the column defines |
| Schema.InvalidValues | pdstable/__init__.py:1156-1171 | invalid_values is the caller's values together with exactly the label's constants |
| Schema.ValidRange | pdstable/__init__.py:1154 | the caller's range wins; otherwise the label's VALID_RANGE |
| Schema.NewColumnInfo | pdstable/__init__.py:1107-1129 | the column describes its node: name, number, field at START_BYTE - 1, items defaulting to 1 and item sizes to BYTES, item fields, range, invalid values |
| Schema.DefaultInvalid | pdstable/__init__.py:1063 | the default invalid set is empty when absent, the collection when one is given, and an error exactly for a lone number |
| Schema.ColumnInvalid | pdstable/__init__.py:1071 | a column's own invalid values, else the default set |
| Schema.RegisterStep | pdstable/__init__.py:1078-1080 | adding a column keeps the dictionary indexed by name and dtype0 holding each column's field |
| Schema.IndexStep | pdstable/__init__.py:1079 | after adding a column, each name in the dictionary is that of the last column so named |
| Schema.Dtype0Step | pdstable/__init__.py:1080 | after adding a column, dtype0 holds its field under its name, and crlf stays |
| Schema.DistinctIndexed | pdstable/__init__.py:1075-1079 | with distinct names, each column is its own dictionary entry |
| Pds3.FirstPointer | pdstable/__init__.py:1028-1038 | the first keyword that starts with "^" and ends with "TABLE", and none before it; none when no keyword is a pointer |
| Pds3.InterchangeFormat | pdstable/__init__.py:1047-1048 | INTERCHANGE_FORMAT when non-empty, else INTERCHANGE_FORMAT_1; an error exactly when both are missing |
| Pds3.ReadHeader | pdstable/__init__.py:1022-1054 | missing RECORD_TYPE, a record type other than FIXED_LENGTH and a missing pointer fail in that order; a header read names the first pointer's file and an ASCII table |
| Pds3.Classify | pdstable/__init__.py:1132-1151 | an unsupported data type is the only error |
| Pds3.ClassifyPriority | pdstable/__init__.py:1133-1151 | INTEGER, then REAL, then a TIME/DATE tag or a "_TIME"/"_DATE" name, then CHAR: each type applies exactly when its test passes and no earlier one does; otherwise the type is unsupported |
| Pds3.ClassifyRealTime | pdstable/__init__.py:1137-1143 | a REAL column named START_TIME is a float column |
| Pds3.ClassifyCharacterTime | pdstable/__init__.py:1141-1146 | a CHARACTER column named STOP_TIME is a time column |
| Pds3.ColumnNodes | pdstable/__init__.py:1065-1068 | the COLUMN objects are a subsequence of the table's members |
| Pds3.ColumnNodesPrefix | pdstable/__init__.py:1065-1068 | the COLUMN objects of a prefix of the members are a prefix of all of them |
| Pds3.ResolveTable | pdstable/__init__.py:1022-1080 | a header error is the result; otherwise the table resolves exactly when every COLUMN object can be registered, with the first failure as the error |
| Pds3.RegisterColumns | pdstable/__init__.py:1063-1080 | the loop succeeds exactly when every column has a supported type and a new name; the list, dictionary and dtype0 then describe every column in label order |
| Pds3.RegisterOne | pdstable/__init__.py:1069-1080 | one COLUMN object: an unsupported type, then a duplicate name, is the error; otherwise the column describes the node and keeps names distinct |
| Pds3.NextMember | pdstable/__init__.py:1065-1068 | the member at m is the next COLUMN object or adds none |
| Pds3.DuplicateNotRegistrable | pdstable/__init__.py:1075-1076 | a name already registered raises the duplicate-column error |
| Pds3.NewNameRegistrable | pdstable/__init__.py:1069-1079 | a new name with a supported type is registered and keeps the list described and distinct |
| Pds3.ScannedStep | pdstable/__init__.py:1064-1080 | registering the next COLUMN object keeps the loop invariant |
| Pds3.ScannedFails | pdstable/__init__.py:1070-1076 | a failure at the next COLUMN object is the table's outcome |
| Pds3.ScannedAll | pdstable/__init__.py:1064-1080 | once all members are scanned, the built table is the outcome |
| Pds4.Classify | pdstable/pds4table.py:206-213 | a data type in the mapping gives its type; any other is an unsupported-type error |
| Pds4.IntegerRadixes | pdstable/pds4table.py:44-71 | every integer type of the mapping reads base 2, 8, 10 or 16 |
| Pds4.NumericTypes | pdstable/pds4table.py:44-71 | the Numeric_Base2/8/16 types read binary, octal, hexadecimal; Integer and NonNegative_Integer decimal; Boolean and Real map as listed; Numeric_Base10 is unsupported |
| Pds4.KeyedName | pdstable/pds4table.py:140-150 | a name is kept, except that a repeated "Target" becomes "Target_Specific" |
| Pds4.AllRegistrableSpec | pdstable/pds4table.py:129-152 | the recursive check is the same as "each of the first n fields can be registered" |
| Pds4.ResolveTable | pdstable/pds4table.py:106-152 | no table file name is an error; otherwise the fields are registered |
| Pds4.RegisterFields | pdstable/pds4table.py:120-152 | the loop succeeds exactly when every field has a known type and a name not already registered (other than Target); the first failure is the error; the columns describe the fields in order |
| Pds4.RegisterField | pdstable/pds4table.py:130-151 | one field: an unknown type, then a duplicate, is the error; otherwise the column describes the field under its keyed name |
| Pds4.ScannedStep | pdstable/pds4table.py:144-152 | registering the next field keeps the loop invariant |
| Pds4.KeysStep | pdstable/pds4table.py:149-151 | registering a field adds exactly its keyed name to the keys |
| Pds4.RenamedDescribes | pdstable/pds4table.py:149-150 | a renamed column describes the node under the new name |
| Pds4.DescribedStep | pdstable/pds4table.py:144 | appending the next field's column keeps the list described |
| Records.LineWidth | pdstable/__init__.py:245 | np.array(lines, 'S') is as wide as the longest line, and at least one byte |
| Records.Pad | pdstable/__init__.py:245 | a shorter line is padded with NUL bytes to the array width |
| Records.PadAll | pdstable/__init__.py:245 | every line is padded to the same width |
| Records.Chunks | pdstable/__init__.py:247 | the re-viewed bytes are cut into records of the record size |
| Records.Leftover | pdstable/__init__.py:247 | the bytes left over are fewer than one record |
| Records.RecordSize | pdstable/__init__.py:247 | the record size is the end of the furthest field |
| Records.Records | pdstable/__init__.py:245-251 | viewing the lines as records gives records of the record size, or the row-description error |
| Records.StripNul | pdstable/__init__.py:260-282 | reading back an element drops exactly its trailing NUL bytes |
| Records.FieldBytes | pdstable/__init__.py:260 | a field's bytes are the record's bytes at its offset |
| Records.RecordsOfExactLines | pdstable/__init__.py:245-251 | lines that already have the record size are the records |
| Records.ChunksOfFlatten | pdstable/__init__.py:245-251 | records laid end to end and cut back are the same records, with nothing left over |
| Records.FlattenLength | pdstable/__init__.py:245-251 | n records of d bytes are n * d bytes |
| Records.TerminatorIsLastTwoBytes | pdstable/__init__.py:1061 | the crlf field is the record's last two bytes |
| Records.ColumnField | pdstable/__init__.py:1118 | a column's field is BYTES bytes starting at START_BYTE - 1 |
| Records.ItemWithinRecord | pdstable/__init__.py:265-275 | item i of a multi-item column is the record's bytes at START_BYTE - 1 + i * ITEM_OFFSET |
| Rows.TakeLines | pdstable/__init__.py:228 | readlines(hint) returns a prefix of the remaining lines |
| Rows.ReadLines | pdstable/__init__.py:213 | readlines() without a positive hint returns every line |
| Rows.Truncate | pdstable/__init__.py:231-232 | lines[:n] is a prefix |
| Rows.ReadRows | pdstable/__init__.py:208-240 | without a range, the rows are the file's lines and their count must be ROWS; with (a, b) they start at row a, count b - a, and a short read is a mismatch |
| Rows.TakeFixedLines | pdstable/__init__.py:228 | with fixed-length lines, the hint rows * RECORD_BYTES - 1 reads exactly `rows` lines |
| Rows.RangeOfFixedRecords | pdstable/__init__.py:221-240 | a range within a file of fixed-length records reads exactly those records |
| Decode.Latin1 | pdstable/__init__.py:354 | Latin-1 text has one character per byte, of the same code |
| Decode.Fit | pdstable/__init__.py:344-347 | a byte string stored in an 'S' array of a given width is its prefix of that width; a string that fits is kept whole |
| Decode.ReplaceText | pdstable/__init__.py:330-347 | the text pairs leave the text alone or replace it by one pair's value, cut to the array's width |
| Decode.ReplaceTextFits | pdstable/__init__.py:330-347 | text that fits the array's width still fits it after every replacement |
| Decode.ReplacementCut | pdstable/__init__.py:344-347 | a replacement longer than the field is cut to the field, as b"N/A" -> b"-999" in a three-byte field stores b"-99" |
| Decode.Called | pdstable/__init__.py:315-327 | the callback gives one text per row |
| Decode.MaxLength | pdstable/__init__.py:327 | np.array of the callback's results is as wide as its longest result, and at least one byte wide |
| Decode.Lookup | pdstable/__init__.py:390 | repdict.get(v, v) is v or the value of a pair whose key equals v |
| Decode.Fallback | pdstable/__init__.py:379-414 | the row-by-row conversion has one value and one mask bit per row |
| Decode.Prepared | pdstable/__init__.py:315-347 | the callback and text replacements keep one text per row; replacements are cut to the field's width, or to the longest callback result's |
| Decode.DecodedItem | pdstable/__init__.py:311-434 | a decoded item array has one value and one mask bit per row |
| Decode.DecodeItem | pdstable/__init__.py:311-434 | the per-item body computes the decoded item array |
| Decode.FallbackLoop | pdstable/__init__.py:382-414 | the `except` loop computes the row-by-row conversion |
| Decode.FallbackRows | pdstable/__init__.py:383-412 | row k holds its own converted value and mask: failed, invalid or out of range |
| Decode.FallbackCount | pdstable/__init__.py:393-396 | error_count is the number of rows that fail to convert |
| Decode.FallbackClean | pdstable/__init__.py:393-396 | error_count is zero exactly when no row fails |
| Decode.FallbackExample | pdstable/__init__.py:397-404 | error_example is absent exactly when nothing failed, and is otherwise the kept text of the first failing row |
| Decode.NoKeyUnchanged | pdstable/__init__.py:368-371 | a value equal to no key is left alone by both kinds of replacement |
| Decode.ReplaceTypedIsLookup | pdstable/__init__.py:368-371 | with settled pairs, replacing pair after pair is one dictionary lookup |
| Decode.BulkAgreesWithScalar | pdstable/__init__.py:364-387 | the corrected whole-array conversion agrees with the scalar conversion on every row |
| Decode.BulkRowIsFallbackRow | pdstable/__init__.py:364-412 | a row the whole array converts converts on its own to the same value and mask |
| Decode.BulkIsFallbackWithoutFailures | pdstable/__init__.py:364-414 | when every row converts, the whole-array path equals the row-by-row path |
| Decode.BaseTwoReadAsDecimal | pdstable/__init__.py:364-365 | as written, "101" in a base-2 column reads as one hundred and one; row by row, and corrected, it reads 5 |
| Decode.DecodedRow | pdstable/__init__.py:352-431 | row k of an item array: the kept text of a text column, else the whole-array value or the row's fallback value, masked when invalid or out of range |
| Decode.DecodedFailures | pdstable/__init__.py:393-404 | an item array counts exactly its failed rows, and its example is the first failed row's text |
| Decode.MapItems | pdstable/__init__.py:311 | the item arrays decoded in order, one result per item |
| Decode.DecodedItems | pdstable/__init__.py:311-434 | result i is item array i decoded |
| Decode.CombinedValues | pdstable/__init__.py:437-451 | the combined column has one cell per row |
| Decode.ItemsScannedStep | pdstable/__init__.py:305-434 | the item loop keeps its count and first example |
| Decode.DecodeColumn | pdstable/__init__.py:291-471 | the column loop computes the decoded column: values, mask, warning |
| Decode.ScannedColumn | pdstable/__init__.py:437-471 | once every item is decoded, the counts and the example give the column's warning |
| Decode.TotalFailuresPositive | pdstable/__init__.py:461 | a column's error count is positive exactly when some item's is |
| Decode.FirstExampleIsFirst | pdstable/__init__.py:403-404 | the column's example is that of the first item that has one |
| Decode.TotalIsFailedInItems | pdstable/__init__.py:396 | the column's error count is the number of failed rows over all items |
| Decode.ItemFailures | pdstable/__init__.py:396-404 | item i counts its failed rows |
| Decode.ColumnWarns | pdstable/__init__.py:461-471 | a column warns exactly when some row of some item failed |
| Decode.ColumnWarning | pdstable/__init__.py:461-471 | the warning names the data type and the column, counts every failed row, and quotes the stripped first example |
| Decode.ColumnMask | pdstable/__init__.py:453-458 | with merge_masks a row is masked when any item is; without, each item keeps its own bit |
| Lookup.LowerCellSpec | pdstable/__init__.py:958-979 | lowercase_value is idempotent, keeps a value's shape, lower-cases exactly the strings |
| Lookup.FilenameKey | pdstable/__init__.py:697-706 | the key is the base name's stem, cut to filename_keylen when set, and holds no slash |
| Lookup.Truncated | pdstable/__init__.py:703-704 | key[:keylen] only when keylen is set and the key is longer |
| Lookup.BasenameOfPath | pdstable/__init__.py:701 | the base name of dir/name is name |
| Lookup.FilenameKeyOfPath | pdstable/__init__.py:697-706 | the key of dir/stem.ext is stem |
| Lookup.LowerAll | pdstable/__init__.py:205 | keys_lc lower-cases each key in place |
| Lookup.IndexOf | pdstable/__init__.py:718 | list.index gives the first position of the name |
| Lookup.FirstGuess | pdstable/__init__.py:716-721 | the first usual name that is a lower-cased key, with its first position; -1 and "" when none is |
| Lookup.FindGuess | pdstable/__init__.py:716-721 | the guess loop computes the first guess |
| Lookup.NormalizeFilespec | pdstable/__init__.py:789-806 | the normalised file specification is lower case; it is defined for a text example, and for a tuple example in a substring search, where `in` tests the tuple's items |
| Lookup.SplitJoin | pdstable/__init__.py:791 | splitting slash-joined slash-free parts gives the parts |
| Lookup.VmsPathOf | pdstable/__init__.py:789-792 | dir1/.../name becomes [dir1. ... ]name |
| Lookup.NormalizeFileName | pdstable/__init__.py:789-806 | dir/stem.ext looked up in a table of stem.ext names becomes the lower-cased stem with the table's extension (or the stem for a substring search) |
| Lookup.AddKeyValue | pdstable/__init__.py:534-549 | one key writes the value under the key and its lower-cased variants, and the lower-cased value under the "_lower" keys |
| Lookup.AddKeyMask | pdstable/__init__.py:535-541 | one key writes the mask bits under its mask keys |
| Lookup.AddKeyKeepsValue | pdstable/__init__.py:534-549 | a value key one key does not write keeps its entry |
| Lookup.AddKeyKeepsMask | pdstable/__init__.py:535-541 | a mask key one key does not write keeps its entry |
| Lookup.AddColumnValue | pdstable/__init__.py:529-549 | a column writes its value under its name and its underscored name |
| Lookup.AddColumnMask | pdstable/__init__.py:529-541 | a column writes its mask under each of its mask keys |
| Lookup.AddColumnKeeps | pdstable/__init__.py:528-549 | keys a column does not write keep their entries |
| Lookup.RowDictOfLast | pdstable/__init__.py:528-549 | a row's dictionary is that of all but the last column, with the last column's entries added |
| Lookup.LastColumnKeeps | pdstable/__init__.py:528-549 | a key the last column does not write keeps its entry |
| Lookup.LaterColumnsKeep | pdstable/__init__.py:528-549 | a key no later column writes keeps the entry it had after its own column |
| Lookup.RowDictColumn | pdstable/__init__.py:523-551 | a column whose keys no later column overwrites reads back as its row's cell and mask bits |
| Lookup.RowDicts | pdstable/__init__.py:523-551 | one dictionary per row |
| Lookup.BuildRowDicts | pdstable/__init__.py:523-556 | the dicts_by_row loop computes the row dictionaries |
| Lookup.Tests | pdstable/__init__.py:596-606 | one test per keyword argument, in order |
| Lookup.LowerKeyTest | pdstable/__init__.py:598-604 | a "_lower" key checks the mask of its base key, lower-cases the value, and is a substring test when either name is listed |
| Lookup.RowMatchAll | pdstable/__init__.py:615-640 | a row matches exactly when it passes every test |
| Lookup.RowMatchFirstFailure | pdstable/__init__.py:615-640 | a row fails exactly when some test fails after all earlier tests passed |
| Lookup.MatchRow | pdstable/__init__.py:615-640 | the test loop computes the row's match |
| Lookup.Matching | pdstable/__init__.py:611-643 | the matching rows, ascending, exactly the rows that pass every test |
| Lookup.SearchSettled | pdstable/__init__.py:644-645 | once the search has failed or reached the limit, later rows change nothing |
| Lookup.SearchErrors | pdstable/__init__.py:618-626 | the search fails only on a row whose tests raise, and fails on none when no row's tests raise |
| Lookup.SearchFindsFirstMatches | pdstable/__init__.py:608-647 | the search returns the first `limit` matching rows in ascending order, or all of them without a limit |
| Lookup.SearchRows | pdstable/__init__.py:608-647 | the row loop computes the search |
| Lookup.FirstFoundIsFirstMatch | pdstable/__init__.py:649-665 | find_row_index gives the first matching row, and "row not found" exactly when none matches |
| Lookup.SearchSound | pdstable/__init__.py:611-647 | every returned row satisfies every test |
| Lookup.PassedTest | pdstable/__init__.py:618-640 | a passed test means no mask bit is set and the value equals (or contains) the one sought |
| Lookup.ListsSoundStep | pdstable/__init__.py:922-931 | filing a row keeps every list sound |
| Lookup.AllFiledStep | pdstable/__init__.py:922-931 | filing a row keeps every unmasked row filed |
| Lookup.KeysFirstSeenStep | pdstable/__init__.py:925-931 | filing a row keeps the keys in order of first appearance |
| Lookup.KeysFirstSeenNewKey | pdstable/__init__.py:926-931 | a new key is recorded after all others, with its row first |
| Lookup.KeysFirstSeenOldKey | pdstable/__init__.py:926-931 | a known key keeps its first row and its place |
| Lookup.FilenameIndexFails | pdstable/__init__.py:917-931 | the index fails exactly when an unmasked row holds no file name |
| Lookup.FilenameIndexSpec | pdstable/__init__.py:908-934 | the index lists each unmasked row under its lower-cased key, and the keys as first written |
| Lookup.MaskedRowSkipped | pdstable/__init__.py:923 | a masked row leaves the index alone |
| Lookup.FiledOnce | pdstable/__init__.py:908-934 | an unmasked row is in exactly one list, that of its own key |
| Lookup.IndexFilenames | pdstable/__init__.py:917-934 | the index loop computes the filename index |
| Lookup.IndexSettled | pdstable/__init__.py:922-931 | once the index has failed, later rows change nothing |
| Lookup.RowsOfKey | pdstable/__init__.py:936-942 | a key is found exactly when its lower-cased form is in the index |
| Lookup.RowsOfKeyFindsRows | pdstable/__init__.py:936-942 | a row's key, in any case, finds a list holding that row |
| Tables.ItemCells | pdstable/__init__.py:258-282 | each column gives at least one item array with one cell per record, or the row-description error |
| Tables.ItemCellsContent | pdstable/__init__.py:258-282 | the cells are the column's field of each record, or each item's bytes within it, NUL-stripped |
| Tables.DecodedShape | pdstable/__init__.py:437-458 | a decoded column has one value and one mask entry per row |
| Tables.DecodedCells | pdstable/__init__.py:291-471 | the column under a key has one value and one mask entry per row |
| Tables.ColumnOf | pdstable/__init__.py:258-471 | an unknown key is an error; a column that decodes has one value and mask entry per record |
| Tables.ColumnsOf | pdstable/__init__.py:258-471 | one column per key, shaped, the same column for a repeated key |
| Tables.LoadColumnsOk | pdstable/__init__.py:258-471 | the columns load exactly when every key's column does |
| Tables.LoadColumnsFails | pdstable/__init__.py:258-471 | a failure is that of the first key whose column fails |
| Tables.LoadColumnsHold | pdstable/__init__.py:438-458 | each key holds its own decoded values and mask |
| Tables.LoadColumnsShaped | pdstable/__init__.py:258-471 | loaded columns have a value and a mask entry per record |
| Tables.ReadRowsCount | pdstable/__init__.py:208-240 | a successful read gives one line per row |
| Tables.LoadedRows | pdstable/__init__.py:198-240 | a full read starts at row 0 and must find ROWS lines; a range (a, b) starts at a and holds b - a rows; the keys are the requested columns or all of them |
| Tables.LoadedShape | pdstable/__init__.py:198-471 | every key is a column of the label, with a value and a mask entry per record |
| Tables.ExactLinesAreRecords | pdstable/__init__.py:245-251 | when every line is one record, the records are the rows |
| Tables.LoadSettled | pdstable/__init__.py:258-471 | once a key has failed, later keys change nothing |
| Tables.Flags | pdstable/__init__.py:513-514 | a lone boolean stands for both flags |
| Tables.SearchParams | pdstable/__init__.py:805-820 | the file specification is always searched, and the volume only when there is a volume column and the volume is not blank |
| Tables.DecodeKey | pdstable/__init__.py:258-471 | the body for one key computes that key's column |
| Tables.LoadStep | pdstable/__init__.py:258-471 | a key whose column decodes adds that column, mask and warning to those of the keys before it |
| Tables.DecodeColumns | pdstable/__init__.py:256-471 | the key loops compute the loaded columns |
| Tables.Load | pdstable/__init__.py:198-486 | the constructor fails exactly when the specification does, with its error; otherwise the table holds the loaded contents, with empty caches |
| Tables.Table.constructor | pdstable/__init__.py:474-486 | a new table holds its contents, with every cache empty |
| Tables.Table.RowsPresent | pdstable/__init__.py:523-531 | every row below `rows` is in every column |
| Tables.Table.MaskedRows | pdstable/__init__.py:918-923 | one "any mask bit" flag per record |
| Tables.Table.DictsByRow | pdstable/__init__.py:499-556 | the row dictionaries, taken from the cache or built and cached under the flag pair; nothing else changes |
| Tables.Table.FindRowIndices | pdstable/__init__.py:575-647 | the search over the row dictionaries; only the dictionary cache changes |
| Tables.Table.FindRowIndex | pdstable/__init__.py:649-665 | the first row found with limit 1, or "row not found" |
| Tables.Table.VolumeColumnIndex | pdstable/__init__.py:708-724 | the first usual volume column name among the lower-cased keys, cached |
| Tables.Table.FilespecColumnIndex | pdstable/__init__.py:726-743 | the first usual file-specification column name among the lower-cased keys, cached |
| Tables.Table.FindRowIndicesByVolumeFilespec | pdstable/__init__.py:745-820 | the search on the normalised, lower-cased file specification, and the volume when there is a volume column; a numeric example is a TypeError, and so is a tuple example outside a substring search; the filename index is untouched and the other caches are kept or filled |
| Tables.Table.IndexRowsByFilenameKey | pdstable/__init__.py:908-934 | the filename index is built once and cached; its errors are the index's and leave it as it was; the row dictionaries are untouched |
| Tables.Table.RowIndicesByFilenameKey | pdstable/__init__.py:936-942 | the rows of the lower-cased key, after building the index; the row dictionaries are untouched |
| Tables.Table.ValueTestOnRow | pdstable/__init__.py:618-640 | a key's test fails on a masked row and otherwise compares the row's value |
| Tables.Table.FindByValue | pdstable/__init__.py:575-647 | with no limit, the rows found are exactly the unmasked rows whose value equals the one sought |
| Tables.Table.FoundSound | pdstable/__init__.py:575-647 | every row found is a row of the table that passes every test |
| Tables.Table.ByVolumeFilespecSound | pdstable/__init__.py:745-820 | every row found has the normalised file specification, and the volume when one was searched |
| Tables.Table.FilenameKeyFindsRow | pdstable/__init__.py:908-942 | a row's filename key, in any case, finds that row |

## Left out

- Label parsing (the PDS3 label parser and the PDS4 XML reader): the labels are inputs, already parsed.
- File I/O: the table file is a sequence of lines; `os.path.join` for `table_file_path` is not part of this model. `Rows.Seek` skips the first row's number of lines, where the source seeks that many times RECORD_BYTES bytes (`pdstable/__init__.py:226-227`); the two agree only when every line is RECORD_BYTES long, which `Rows.RangeOfFixedRecords` states.
- The warning about a pointer that is not a simple pointer, and every other `warnings.warn` effect: the model returns the column warning as a value.
- `float()`, `julian.tai_from_iso` and numpy's reading of booleans: they are the `Converters` parameter, not modelled code.
- The caller's callbacks: they are functions in `Tables.Request`; what they compute is the caller's, and a callback that raises is not modelled.
- Utils.ParseInt: it reads text as int() reads a byte string, so only ASCII whitespace may surround the number. When a callback hands int() a `str`, Python also skips the other Unicode whitespace (0x1c-0x1f, 0x85, 0xa0); the model does not.
- Decode.DecodedItem: a valid range holds numbers only, so a caller's range of strings, which the source would compare with a text column's values in lexicographic order, is not modelled.
- Decode.DecodedRow: as for DecodedItem.
- `table_callback`: the model takes the lines after the callback.
- The Python 2 and Python 3 encoding switch: text is always Latin-1.
- Floating point: real values are exact `real`s.
- numpy dtype casts and the numeric promotion of `np.stack`: items keep their own values. The one width cut modelled is that of the text replacements (Decode.Fit).
- Decode.Called: a callback result holding characters outside ASCII, which `astype('S')` refuses, is not modelled.
- The 64-bit range of `astype('int')`: integers are unbounded.
- Non-ASCII case folding: `Text.Lower` folds Latin-1 only.
- Key collisions between a column's "_mask" or "_lower" keys and another column's name: the row-dictionary lemmas assume no later column writes the key.
- Multi-item masks in the filename index: a row counts as masked when any item is.
- Requested columns named twice: the model decodes the raw cells again for each occurrence, while the source would decode its already-decoded values a second time.
- `find_rows`, `find_row`, `find_row_index_by_volume_filespec`, `find_rows_by_volume_filespec`, `find_row_by_volume_filespec` and `rows_by_filename_key`: each only wraps a modelled search and indexes `dicts_by_row`.
- `get_column`, `get_column_mask`, `get_keys` and `pdslabel`: these are plain accessors.
- `pds_table_info.py`, the command-line entry points and the tests are not part of this model.
- Utils.IntFromBase2: its own contract states only the rejected digit; the value it reads is stated by Utils.IntFromBaseRoundTrip and Utils.ParseIntOfDigits.
- Utils.IntFromBase8: as for IntFromBase2.
- Utils.IntFromBase16: as for IntFromBase2.
- Lookup.NormalizeFilespec: its own contract states only lower case; the normalised name is stated by Lookup.NormalizeFileName, for proper file names only.

## Findings

| source | as written | input that shows it | evidently intended | confidence | as-written member | corrected member |
|---|---|---|---|---|---|---|
| pdstable/pds4table.py:44-71 with pdstable/__init__.py:364-365 | the whole-array conversion of an ASCII_Numeric_Base2/8/16 column is `astype('int')`, which reads decimal digits | "101" in an ASCII_Numeric_Base2 column: read as 101, where int_from_base2 gives 5 | read every row in the column's radix, as the row-by-row path does with int_from_base2/8/16 | not executed | Decode.BaseTwoReadAsDecimal | Decode.BulkAgreesWithScalar |
