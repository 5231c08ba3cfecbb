# pghelper in Dafny

A model of the schema and value layer of `pghelper`, a Go helper library for
PostgreSQL, with proofs about it. The model covers:

- **Type names.** The column type descriptor (`PGType`) prints its
  PostgreSQL type name (`DBString`) and reads one back (`SetDBType`).
- **Codec.** `EncodeString` and `DecodeString` render a Go value as the text
  PostgreSQL accepts for a column and read it back. Nullable columns get the
  `Null*` wrappers.
- **Value wrappers.** The `Int64Slice` and `Bytea` wrappers with their
  `Scan`, `Value`, `GetValue` and `SetValue` methods, and the `PGUrl`
  key-value connection string.
- **Tables in memory.** `DataColumn` and `DataTable`: column construction,
  cloning, the NULL-to-nil conversion, row maps and the tab-separated dump.
- **`PgMeta`.** The newest generation of the schema helpers:
  - the kind to type-name mapping and back;
  - the NOT NULL default literals;
  - the escape-string writer;
  - the catalog row mapping of `GetColumns`;
  - `ParamPlaceholder`;
  - the statements that alter, add and create columns, tables and indexes.
- **The two generations of `UpdateStruct`.** Both bring a live table
  definition in line with a desired one:
  - the one in `pghelper.go`, which takes both definitions, uses `PGDesc`
    maps and has its own statement helpers;
  - the one in `pghelp.go`, which reads the live definition from the catalog
    (`Table`) and uses string descriptions.
- **`Merge`.** Its argument checks and the list of columns it updates.

## How the model is built

Statement execution is an `Exec.Engine`. It is a class holding the log of
statements the database has received and an oracle that says whether the
database accepts the next statement, given the ones it received before.

Every statement helper passes through a gate before the engine sees the
statement:
- `Send` sends the statement;
- `Skip` reports success without sending, as `ExecuteSql` does for blank text;
- `Refuse` fails before anything is sent, as `dropConstraint` does on an empty
  name.

The function `Exec.Run` is the fail-fast execution of a statement list. Each
statement-issuing method mirrors the Go code's loops and early returns, and is
proved to leave the engine exactly where `Run` of a plan function leaves it.
The properties are then proved about the plan functions:
- which statements are issued and when;
- in what order;
- that an unchanged definition issues nothing.

The differ's plan (`DiffPlan.Body`) is split into stages:
0. key drop;
1. column drops;
2. pair alterations;
3. column additions;
4. key creation;
5. indexes;
6. table comment.

`DiffPlan.BodyOrdered` proves the plan never goes back a stage. The two
generations share this plan. They differ in the description type, in how the
live definition is obtained and in the gate.

A `*DataColumn` pointer that `UpdateStruct` compares by identity is modelled
by the column's position in its table. Go map iteration order is a parameter:
any sequence that lists each key once (`DiffOps.Enumerates`). Every lemma
holds for every such order.

Pairs are visited in desired-column order (`Pairing.PairsSorted`), so when
the key column comes first, its type change precedes the rename of a later
column. A renamed column also receives a comment, because its origin name
lives in its description, which therefore differs.

## Model

| member | source | states |
|---|---|---|
| Decimal.IntRoundTrip | pgtype.go:362-363 | `strconv.ParseInt` of `fmt.Sprint(x)` gives `x` back with no error, for every int64 |
| Decimal.DigitsNoSyntaxError | pgtype.go:209 | a non-empty digit string parses or overflows (range error); it is never a syntax error |
| Strs.SplitJoin | pgurl.go:13-25 | splitting a join at its separator gives back the parts when no part holds the separator |
| Strs.JoinSplit | pgurl.go:13 | joining the pieces of a split with the separator gives back the text |
| Values.SafeToString | datatable.go:61-75 | nil gives "", a string gives itself, a []byte gives a string of at most as many characters that re-encodes to the same bytes whenever they are UTF-8, anything else its `%v` text |
| Values.SafeToStringBytes | datatable.go:61-75 | the []byte of any string converts back to exactly that string |
| Strs.DecodeEncode | bytea.go:14-16 | decoding the head of a character's UTF-8 encoding gives back the character and the encoding's length |
| Strs.StringRoundTrip | bytea.go:14-16 | `string([]byte(s)) == s` for every string |
| Strs.EncodingIsValid | bytea.go:14-16 | `[]byte(s)` is always valid UTF-8 |
| Strs.EncodeDecode | datatable.go:69-70 | a validly encoded head re-encodes to exactly the bytes it was decoded from |
| Strs.BytesRoundTrip | datatable.go:69-70 | `[]byte(string(b)) == b` whenever `b` is valid UTF-8 |
| TypeNames.DBStringNotNull | pgtype.go:52-56 | the printed type name ends in " NOT NULL" exactly when the column is NOT NULL |
| TypeNames.DBStringStringKinds | pgtype.go:72-83 | String and StringSlice print `text`/`text[]` for MaxSize 0 and `character varying(n)`/`character varying(n)[]` otherwise |
| TypeNames.SetDBTypeRoundTrip | pgtype.go:52-96 | reading back the printed name of a nullable column restores its kind without error, and for the string kinds its non-negative MaxSize |
| TypeNames.NegativeSizeRejected | pgtype.go:72-83 | a string column with a negative MaxSize prints a name that SetDBType rejects, leaving the receiver unchanged |
| TypeNames.SetDBTypeKeepsNotNull | pgtype.go:185-236 | SetDBType never changes NotNull; it answers DataTypeInvalid exactly for the names it does not know, and then leaves the receiver unchanged |
| TypeNames.SetDBTypeNormalises | pgtype.go:218-231 | timestamps with or without time zone and `date` read as Time, json and jsonb as JSON, and their `[]` forms as the slice kinds |
| TypeNames.VarcharRoundTrip | pgtype.go:205-217 | a printed `character varying(n)` or `character varying(n)[]` name reads back as the string kind with MaxSize n |
| PgType.PGType.constructor | pgtype.go:43-45 | the new object holds the given kind, size and NOT NULL flag |
| PgType.PGType.Clone | pgtype.go:46-50 | a fresh object with the same fields |
| PgType.PGType.DBString | pgtype.go:52-96 | the printed name ends in " NOT NULL" exactly when the column is NOT NULL |
| PgType.PGType.SetDBType | pgtype.go:185-236 | the receiver and error afterwards are those of reading the name (`ApplyDBType`), about which the TypeNames lemmas prove the round trip, the normalisation and the rejection of unknown names |
| PgType.PGType.EncodeString | pgtype.go:237-348 | the text equals the encoding function `Codec.Encode`, whose empty-text cases, scalar texts and round trips are proved below |
| PgType.PGType.DecodeString | pgtype.go:349-559 | the value and error equal `Codec.Decode`, about which the decoding lemmas below speak |
| PgType.ParseIntSlice | pgtype.go:393-406 | the element loop equals `ParseInts`: the parsed slice, or the first failing element's error |
| Codec.HexRoundTrip | pgtype.go:274 | decoding the lower-case hex of any byte string gives it back |
| Codec.HexDecode | pgtype.go:371-373 | `hex.Decode` succeeds exactly on an even-length text of hex digits, giving half as many bytes |
| Codec.EncodeEmptyCases | pgtype.go:237-302 | the empty text, without error, for nil, a NULL wrapper, an empty string, bytea or slice |
| Codec.EncodeScalars | pgtype.go:257-265 | booleans encode as `t`/`f`, int64 as its decimal text, bare or wrapped |
| Codec.DecodeEmpty | pgtype.go:350-352 | decoding "" gives nil and no error for every column, never a NULL wrapper |
| Codec.Int64RoundTrip | pgtype.go:264-265 | decoding the text of an int64 gives it back, bare or wrapped |
| Codec.BoolRoundTrip | pgtype.go:356-361 | a boolean's text decodes back to it; any other non-empty text reads as false |
| Codec.ByteaRoundTrip | pgtype.go:270-274 | a non-empty bytea encodes as `\x` plus hex and decodes back |
| Codec.ByteaDecodeFailures | pgtype.go:368-379 | text without `\x` is an error; a bad hex body gives no value and no error (a NULL wrapper for a nullable column) |
| Codec.ValidNullByteaEncodePanics | pgtype.go:241-274 | a valid NullBytea yields a []byte that the Bytea branch's type assertion rejects: encoding panics |
| Codec.ValidNullInt64SliceEncodePanics | pgtype.go:241-302 | a valid non-empty NullInt64Slice yields its array text, which the Int64Slice branch rejects: encoding panics |
| Codec.ParseIntsFirstError | pgtype.go:393-406 | the element parse fails iff some element fails, reporting the first failing element's error; on success each value is that element's |
| Codec.Int64SliceDecode | pgtype.go:393-406 | an int64-slice column decodes to one value per element, or to the first error and no value |
| Codec.DecodeWraps | pgtype.go:461-556 | a nullable column decodes non-empty text to a wrapper of its kind, Valid iff the bare decode gave a value, except JSONSlice which keeps the bare result |
| Codec.Int64ErrorStillValid | pgtype.go:362-363 | a nullable int64 column decodes bad text to a Valid wrapper holding ParseInt's value, together with the error |
| Codec.Int64SliceRoundTrip | pgtype.go:294-302 | a non-empty int64 slice decodes back from its text whenever the array helpers invert each other |
| Codec.SliceValueParses | int64slice.go:37-46 | the text of a non-empty Int64Slice is `{`, comma-separated decimals and `}`, and parses back to the slice |
| Int64Slices.Value | int64slice.go:37-46 | the value equals `SliceValue`: nil for an empty slice, otherwise the braced decimal text (see `Codec.SliceValueParses`) |
| Int64Slices.ScanResult | int64slice.go:12-36 | array text is parsed element by element and leaves the slice unchanged on the first failing element; an Int64Slice or []int64 is stored; anything else is a conversion error |
| Int64Slices.NullValue | int64slice.go:67-73 | nil when not Valid, otherwise the inner slice's Value |
| Int64Slices.GetValue | int64slice.go:74-80 | the slice when Valid, nil otherwise |
| Int64Slices.Scan | int64slice.go:12-36 | the slice and error are those of `ScanResult` |
| Int64Slices.ScanNull | int64slice.go:53-66 | another NullInt64Slice is copied; nil makes it NULL with an empty slice; anything else makes it Valid and then stores exactly the slice and returns exactly the error `Int64Slice.Scan` gives, even if the scan fails |
| Int64Slices.SetValue | int64slice.go:81-89 | after nil GetValue is nil; after an Int64Slice GetValue returns it; anything else panics after Valid was set |
| Byteas.Scan | bytea.go:9-24 | equals `ScanResult`: a []byte, string or Bytea stores the same bytes; anything else is a conversion error leaving the Bytea alone |
| Byteas.ByteaValue | bytea.go:25-27 | Value returns exactly the stored bytes as a []byte |
| Byteas.ScanRoundTrip | bytea.go:9-27 | scanning a Bytea's Value restores it; any scanned string is stored as valid UTF-8 bytes that read back as the string; Scan succeeds iff the value is a []byte, string or Bytea |
| Byteas.NullValue | bytea.go:44-49 | nil exactly when not Valid, otherwise the stored bytes |
| Byteas.GetValue | bytea.go:50-56 | the stored bytes when Valid, nil otherwise |
| Byteas.ScanNull | bytea.go:34-43 | never an error; a []byte makes the wrapper Valid with those bytes; nil or any other value (a string) makes it NULL |
| Byteas.SetValue | bytea.go:57-65 | after nil GetValue is nil; after a Bytea GetValue returns its bytes; anything else panics after Valid was set |
| Nullable.Nullable.constructor | bytea.go:29-32 | a declared wrapper is NULL and holds the content type's nil |
| Nullable.Nullable.GetValue | bytea.go:50-56 | some content exactly when Valid, and then the stored content |
| Nullable.Nullable.SetValue | int64slice.go:81-89 | Valid iff a value is given; the content is that value or nil; GetValue afterwards returns what was set |
| PgUrl.PGUrl.constructor | pgurl.go:28 | a new PGUrl has no entries |
| PgUrl.PGUrl.Parse | pgurl.go:9-19 | the entries afterwards are exactly those `Parsed` builds from the space-separated tokens, whatever the map held before |
| PgUrl.PGUrl.String | pgurl.go:20-26 | one `k=v` per entry, each key once in some iteration order, joined by single spaces |
| PgUrl.NewPGUrl | pgurl.go:27-31 | a fresh PGUrl holding what Parse builds from the text |
| PgUrl.ParseEmpty | pgurl.go:9-19 | parsing the empty text gives no entries |
| PgUrl.ParsedLastWins | pgurl.go:13-18 | a later token overwrites an earlier one with the same key; a token that does not split into exactly two parts changes nothing |
| PgUrl.StringParseRoundTrip | pgurl.go:9-31 | parsing the printed text gives back the map, in any printing order, when no key or value holds a space or `=` |
| DataColumns.ColumnParams | datacolumn.go:36-53 | no parameters give NotNull false, MaxSize 0 and default ""; parameters 0, 1 and 2 set NotNull, MaxSize and the default; more than three are an error |
| DataColumns.NewColumn | datacolumn.go:36-53 | succeeds exactly when the parameters are well typed and at most three; the fresh column has the name, a fresh PGType of the kind with the given NotNull and MaxSize, and the default |
| DataColumns.DataColumn.constructor | datacolumn.go:27-35 | the column holds the name, the given PGType object itself, the default and a new empty description |
| DataColumns.DataColumn.OriginName | datacolumn.go:17-19 | "" when the description has no "OriginName" entry, otherwise that entry rendered by safeToString |
| DataColumns.DataColumn.Clone | datacolumn.go:21-26 | a fresh column with a fresh PGType holding the same fields, sharing the description map |
| DataColumns.DataColumn.String | datacolumn.go:54-56 | exactly the column type's EncodeString |
| DataColumns.DataColumn.Parse | datacolumn.go:57-59 | exactly the column type's DecodeString |
| DataColumns.DataColumn.Null2Nil | datacolumn.go:62-150 | a NOT NULL column passes the value through; a nullable one succeeds iff the value is a Null* wrapper, giving its content when Valid and nil otherwise |
| DataColumns.Null2NilAfterParse | datacolumn.go:57-150 | unwrapping what Parse produced on a nullable column gives back the bare decoded value, except for JSONSlice |
| DataColumns.Null2NilOfEmptyParse | datacolumn.go:57-150 | Parse("") gives nil, which Null2Nil on a nullable column rejects as no wrapper |
| DataTables.NewIndex | datatable.go:32-34 | an index with the definition and an empty description |
| DataTables.StringInSlice | datatable.go:95-102 | true exactly when the string occurs in the list |
| DataTables.Unnull | datatable.go:76-94 | a NullString, NullInt64 or NullBool becomes nil when NULL and its content otherwise; every other value, other Null* wrappers included, passes through unchanged |
| DataTables.UnnullIsValue | string.go:24-33 | on the three `IsNull` wrappers Unnull is exactly their `Value()`, which never fails; unwrapping twice changes nothing more |
| DataTables.NullToNil | datatable.go:76-94 | one entry per value, each that value unwrapped by `Unnull`, in order |
| DataTables.RowMapLookup | datatable.go:190-197 | in the row map a column name is bound to the value at its last position |
| DataTables.RowMapKeys | datatable.go:190-197 | the row map has no key that is not a column name |
| DataTables.LineFieldsAll | datatable.go:113-124 | without a selection a line has one field per column, in column order, nil shown as "" |
| DataTables.LineFieldsCount | datatable.go:113-124 | with a selection a line has one field per selected column position |
| DataTables.DataTable.constructor | datatable.go:36-43 | a new table has the name, no columns, no indexes and no description |
| DataTables.DataTable.AddColumn | datatable.go:230-235 | the column is appended at the end and returned; indexes and description are unchanged |
| DataTables.DataTable.GetSequenceValues | datatable.go:168-179 | succeeds iff every column name is in the row map, giving one value per column in column order; otherwise a panic |
| DataTables.DataTable.GetRow | datatable.go:190-197 | the map binds each column name to the value at that column's position (see `DataTables.RowMapLookup`) |
| DataTables.DataTable.TabLine | datatable.go:113-125 | the line is the selected fields of the row, in column order, joined by tabs |
| DataTables.DataTable.TabLines | datatable.go:111-126 | one line per row, in row order |
| DataTables.DataTable.AsTabText | datatable.go:104-128 | the header (the selection, or all column names, tab-joined) followed by one line per row, joined by newlines |
| PgMeta.ColumnDefine | pgmeta.go:49-72 | a column type is defined exactly for the kinds the mapper knows, other kinds panic; a string column is `character varying(n)` for a positive size and `text` otherwise |
| PgMeta.DefaultOf | pgmeta.go:100-113 | the default is `NULL` exactly for the kinds other than string, bool, int64, float64 and time |
| PgMeta.ColumnDefineRoundTrip | pgmeta.go:49-72 | the catalog type switch reads every written type name back as the same kind, and for strings as the same size (zero for text) |
| PgMeta.CatalogTimeNames | pgmeta.go:345-348 | the three timestamp and date names the catalog reports all read as the time kind |
| PgMeta.StringExpress | pgmeta.go:73-99 | the constant is `E'`, the escaped body, and a closing quote |
| PgMeta.EscapeRoundTrip | pgmeta.go:76-97 | reading the escaped body with the escape-string rules gives back the text (when no NUL is followed by an octal digit) |
| PgMeta.QuotesEscaped | pgmeta.go:76-97 | every quote in the escaped body is immediately preceded by a backslash |
| PgMeta.ColumnOfRow | pgmeta.go:324-363 | a catalog row maps to a column exactly when its type is known and its comment is a string; the column has the row's name, kind, size and NOT NULL flag |
| PgMeta.UncommentedColumnPanics | pgmeta.go:359-363 | a column without a comment makes the mapping panic |
| PgMeta.ColumnOfRowFixedProperties | pgmeta.go:359-363 | with the comment test corrected, every row of known type maps, a nil comment gives an empty description, and the result agrees with the written mapping wherever that succeeds |
| PgMeta.GetColumns | pgmeta.go:321-366 | one column per row in row order exactly when every row maps; otherwise the error of the first failing row |
| PgMeta.ParamPlaceholder | pgmeta.go:22-31 | no parameters leave the text unchanged; a negative count panics; otherwise each verb receives the next placeholder |
| PgMeta.FillExact | pgmeta.go:30 | with as many placeholders as verbs, each verb is filled in order |
| PgMeta.FirstPlaceholderIsNoParameter | pgmeta.go:26-29 | the first verb receives `$0`, which refers to no PostgreSQL parameter |
| PgMeta.PlaceholdersFixedRefer | pgmeta.go:26-29 | with placeholders numbered from one, the k-th verb refers to the k-th parameter |
| PgMeta.CommentOn | pgmeta.go:139-149 | a comment statement is `IS NULL` for an empty description and the escape-string constant of it otherwise |
| PgMeta.RetypeColumn | pgmeta.go:120-124 | the type change is issued only when kind or size differ, and panics for a kind the mapper does not know |
| PgMeta.ChangeNotNull | pgmeta.go:125-138 | becoming NOT NULL issues SET DEFAULT then SET NOT NULL; becoming nullable issues DROP NOT NULL; the first failure stops it |
| PgMeta.CommentColumn | pgmeta.go:139-149 | the comment is issued only when the description changed |
| PgMeta.AlterColumn | pgmeta.go:114-151 | the log grows by the rename, type, NOT NULL and comment statements in that order, stopping at the first failure |
| PgMeta.AlterColumnNothingToDo | pgmeta.go:114-151 | nothing is issued exactly when name, kind, size, NOT NULL flag and description all agree |
| PgMeta.AlterColumnDefaultBeforeNotNull | pgmeta.go:125-133 | a column made NOT NULL gets SET DEFAULT with the kind's default immediately before SET NOT NULL |
| PgMeta.AlterColumnUnknownKindStops | pgmeta.go:120-124 | retyping to an unknown kind fails, and at most the rename reaches the database |
| PgMeta.AddColumnStmts | pgmeta.go:218-233 | one ADD COLUMN statement, plus a comment only for a non-empty description; NOT NULL columns end with their default; an unknown kind panics |
| PgMeta.AddColumn | pgmeta.go:218-233 | the log grows by the ADD COLUMN statements, stopping at the first failure |
| PgMeta.AlterTableDesc | pgmeta.go:152-161 | one COMMENT ON TABLE statement is issued |
| PgMeta.UniqueIndexGlued | pgmeta.go:176 | a unique index is requested with `CREATE UNIQUEINDEX ` |
| PgMeta.CreateIndexSqlFixedForm | pgmeta.go:171-176 | with the space restored, the statement starts `CREATE UNIQUE INDEX ` or `CREATE INDEX ` and names index, table and columns in that order |
| PgMeta.CreateIndex | pgmeta.go:171-186 | the CREATE statement and then always the comment, stopping at the first failure |
| PgMeta.AlterIndex | pgmeta.go:162-170 | drop the index, then create it anew, stopping at the first failure |
| PgMeta.IndexStatementsSent | pgmeta.go:162-186 | when the database accepts everything, creating sends two statements and re-creating three, the drop first |
| PgMeta.RunAccepted | pgmeta.go:114-237 | statements without panics that the database accepts all reach it, in order, without error |
| PgMeta.Creates | pgmeta.go:188-195 | the column clauses exist exactly when every column's kind is known, one per column in order; otherwise the unknown-kind panic |
| PgMeta.CreateTable | pgmeta.go:187-217 | exactly one CREATE statement is issued; the comment statements after the return are never reached |
| PgMeta.CreatesFailPrefix | pgmeta.go:188-195 | a column list with a failing prefix fails |
| PgMeta.CreateTableForm | pgmeta.go:196-205 | the statement is temporary with ON COMMIT DROP exactly for a temporary table, and lists the column clauses then the primary key |
| Exec.RunConcat | pghelper.go:387-579 | running two statement lists one after the other is running their concatenation; a failure in the first ends the run there |
| Exec.RunSentPrefix | pghelper.go:275-290 | when every statement is sent, the engine receives exactly a prefix of them, in order |
| Exec.RunSucceedsIff | pghelper.go:275-290 | when every statement is sent, the run succeeds exactly when the engine accepts every statement after its predecessors |
| Exec.RunFailsAtLast | pghelper.go:275-290 | a failed run failed at the last statement the engine received, which it refused |
| Exec.RunAppends | pghelper.go:387-579 | a run only appends to the log, and only statements of the run |
| Exec.Advance | pghelper.go:387-579 | an error from a first group of statements is the outcome of the whole run; otherwise the rest continues from where the group left off |
| Exec.Engine.constructor | pghelper.go:54-56 | a new engine has received nothing |
| Exec.Engine.Exec | pghelper.go:284-288 | the statement is appended to the log; the result is an SQL error exactly when the database refuses it |
| Exec.Issue | pghelper.go:275-290 | a statement helper either sends the statement, skips a blank one without error, or refuses with its own error before anything is sent |
| Exec.Emit | pghelper.go:387-579 | issuing the next planned statement either ends the planned run with its outcome or leaves the remaining plan to be run from the new log |
| Exec.EmitThen | pghelper.go:387-579 | the same for a statement followed by a known rest |
| KeyCheck.ColumnIndex | pghelper.go:412 | the position of the first column with the name, or -1 exactly when no column has it |
| KeyCheck.KeyTypesFromIff | pghelper.go:407-417 | with every key name resolved, the type loop reports a change exactly when some key column's type differs |
| KeyCheck.KeyChangedIff | pghelper.go:403-417 | with every key name resolved, the key counts as changed exactly when the key lists differ or some key column's type does |
| KeyCheck.KeyUnresolvedPanics | pghelper.go:411-412 | a key name that names no column, reached before any type difference, panics with an index out of range |
| KeyCheck.KeyChange | pghelper.go:403-417 | the flag and loop compute the key-change decision, panics included |
| Pairing.ColumnPairs | pghelper.go:436-447 | every pair joins a live column to a desired one by positions in range |
| Pairing.PairsSound | pghelper.go:436-447 | every pair joins a live name to the desired column's lookup name |
| Pairing.PairsComplete | pghelper.go:436-447 | every live column whose name equals a desired column's lookup name is paired with it |
| Pairing.PairsSorted | pghelper.go:436-447 | pairs come in desired-column order, and for one desired column in live-column order |
| Pairing.OldPairedIff | pghelper.go:449-463 | a live column is paired exactly when some desired column looks it up |
| Pairing.NewPairedIff | pghelper.go:512-519 | a desired column is paired exactly when some live column has its lookup name |
| Pairing.TwoPairsOneOld | pghelper.go:436-447 | two desired columns can pair with the same live column, one by name and one by origin name |
| Pairing.FindPairs | pghelper.go:436-447 | the nested loops build the pairing |
| Pairing.FoundOld | pghelper.go:450-456 | the scan finds a live column exactly when it is in some pair |
| Pairing.FoundNew | pghelper.go:513-519 | the scan finds a desired column exactly when it is in some pair |
| ColumnPlan.DropsFromIff | pghelper.go:448-463 | a column is dropped exactly when it is a live column that no desired column pairs with |
| ColumnPlan.ColumnOpsEmptyIff | pghelper.go:466-510 | a pair issues nothing exactly when the two columns agree on name, type, NOT NULL flag, default and description |
| ColumnPlan.ColumnOpsExclusive | pghelper.go:480-503 | a pair never both drops and sets NOT NULL, nor both drops and sets the default |
| ColumnPlan.RenameFirst | pghelper.go:467-472 | a pair's first statement is the rename exactly when the names differ |
| ColumnPlan.AddsComplete | pghelper.go:511-531 | every unpaired desired column is created with its type name and default clause |
| ColumnPlan.AddsSound | pghelper.go:511-531 | every column created is an unpaired desired column |
| ColumnPlan.DropUnpaired | pghelper.go:448-463 | the drop loop issues the drops of the unpaired live columns in order, stopping at the first failure |
| ColumnPlan.AlterDefault | pghelper.go:492-509 | one pair's default and comment statements, stopping at the first failure |
| ColumnPlan.AlterPair | pghelper.go:466-510 | one pair's rename, type, NOT NULL, default and comment statements in that order, stopping at the first failure |
| ColumnPlan.AlterPairs | pghelper.go:465-510 | the pair loop issues each pair's statements in pairing order |
| ColumnPlan.AddOne | pghelper.go:520-529 | `createColumn` for the column, then its comment when it has a description |
| ColumnPlan.AddUnpaired | pghelper.go:511-531 | the add loop creates the unpaired desired columns in order |
| ColumnPlan.SyncColumns | pghelper.go:424-531 | the pairing is built, then drops, pair statements and additions are issued in that order |
| IndexPlan.SyncIndex | pghelper.go:541-559 | a live index the desired table lacks is dropped; otherwise a changed definition is dropped and re-run, then a changed description commented |
| IndexPlan.SyncIndexes | pghelper.go:540-560 | the live-index loop in the map's iteration order |
| IndexPlan.AddIndex | pghelper.go:563-570 | a desired index the live table lacks has its define text run, then its comment |
| IndexPlan.CreateIndexes | pghelper.go:562-571 | the desired-index loop in the map's iteration order |
| IndexPlan.SyncAllIndexes | pghelper.go:538-571 | the live-index loop, then the desired-index loop |
| IndexPlan.OldIndexOpsFromHas | pghelper.go:540-560 | a statement comes from the live-index loop exactly when it comes from some live index in the iteration order |
| IndexPlan.NewIndexOpsFromHas | pghelper.go:562-571 | a statement comes from the desired-index loop exactly when it comes from some desired index |
| IndexPlan.OldIndexOpsHas | pghelper.go:541-559 | the statements one live index can issue, one by one |
| IndexPlan.NewIndexOpsHas | pghelper.go:563-570 | the statements one desired index can issue, one by one |
| IndexPlan.DropIndexIff | pghelper.go:540-560 | an index is dropped exactly when it is live and the desired table lacks it or defines it differently |
| IndexPlan.ExecDefineIff | pghelper.go:540-571 | a define text runs exactly for a desired index that is new or defined differently, verbatim |
| IndexPlan.IndexCommentIff | pghelper.go:540-571 | an index comment is issued exactly for a desired index that is new or whose description differs, with the desired description |
| DiffPlan.BandConcat | pghelper.go:387-579 | two parts of one stage joined stay in that stage |
| DiffPlan.LoToConcat | pghelper.go:387-579 | two parts that end by a stage joined end by it |
| DiffPlan.DropsInBand | pghelper.go:448-463 | column drops belong to the drop stage |
| DiffPlan.WhenInBand | pghelper.go:387-579 | a conditional statement keeps its stage |
| DiffPlan.ColumnOpsInBand | pghelper.go:466-510 | pair statements belong to the pair stage |
| DiffPlan.PairOpsInBand | pghelper.go:465-510 | the pair loop's statements belong to the pair stage |
| DiffPlan.AddOpsInBand | pghelper.go:520-529 | one added column's statements belong to the add stage |
| DiffPlan.AddsInBand | pghelper.go:511-531 | the add loop's statements belong to the add stage |
| DiffPlan.OldIndexInBand | pghelper.go:540-560 | the live-index loop's statements belong to the index stage |
| DiffPlan.NewIndexInBand | pghelper.go:562-571 | the desired-index loop's statements belong to the index stage |
| DiffPlan.IndexPhasesInBand | pghelper.go:538-571 | both index loops' statements belong to the index stage |
| DiffPlan.Prepend | pghelper.go:387-579 | a part of one stage before an ordered rest of that stage or later stays ordered |
| DiffPlan.Join | pghelper.go:387-579 | two ordered parts, the first ending by the stage the second starts from, stay ordered |
| DiffPlan.ColumnPhasesOrdered | pghelper.go:424-531 | drops come before pair statements, which come before additions |
| DiffPlan.PartsOrdered | pghelper.go:387-579 | the five parts of the plan in their stages, joined in order, are ordered |
| DiffPlan.KeyPartsInBand | pghelper.go:418-577 | the key drop, key creation and table comment each belong to their stage |
| DiffPlan.BodyOrdered | pghelper.go:418-577 | the plan never goes back a stage: key drop, columns, key creation, indexes, table comment |
| DiffPlan.ApplyBody | pghelper.go:418-578 | everything after the key check is issued as the plan lists it, stopping at the first failure |
| DiffPlan.ReconcileTables | pghelper.go:402-578 | the key check, then the plan; a panic in the key check issues nothing |
| DiffFacts.NotInPart | pghelper.go:387-579 | a statement outside the stages a part may hold is not in it |
| DiffFacts.KeyOpsInParts | pghelper.go:418-537 | a key drop can only come from the key-drop part and a key creation only from the key-creation part |
| DiffFacts.KeyStatementsIff | pghelper.go:418-537 | the key is dropped exactly when it changed and the live table has one, created exactly when it changed and the desired table has one; a drop is the first statement |
| DiffFacts.OrderedColumnWork | pghelper.go:387-579 | in an ordered plan a key drop precedes all column work, and key creation, index and table statements follow it |
| DiffFacts.ColumnWorkBetweenKeys | pghelper.go:418-537 | in the plan a key drop precedes all column work and key creation, index and table statements follow it |
| DiffFacts.SelfPairs | pghelper.go:436-447 | a definition with distinct names and no renames pairs each column with itself only |
| DiffFacts.NoDrops | pghelper.go:448-463 | with every live column paired, nothing is dropped |
| DiffFacts.NoAdds | pghelper.go:511-531 | with every desired column paired, nothing is added |
| DiffFacts.NoPairOps | pghelper.go:465-510 | pairs of identical columns issue nothing |
| DiffFacts.NoOldIndexOps | pghelper.go:540-560 | the live-index loop over identical index maps issues nothing |
| DiffFacts.NoNewIndexOps | pghelper.go:562-571 | the desired-index loop over identical index maps issues nothing |
| DiffFacts.SelfDiffIssuesNothing | pghelper.go:387-579 | diffing a definition against an identical copy issues no statement and succeeds |
| DiffFacts.NoLiveColumns | pghelper.go:424-531 | with no live columns every desired column is added, and nothing else happens to columns |
| DiffFacts.NoLiveKey | pghelper.go:403-417 | against a table without a key, the key counts as changed exactly when the desired table has one |
| DiffFacts.FromEmptyTable | pghelper.go:392-400 | against an empty table, every desired column is added, then the key, indexes and table comment |
| HelperDiff.HelperGate | pghelper.go:275-345 | `dropConstraint` refuses an empty table or constraint name before sending; a blank define text is skipped without error; everything else is sent |
| HelperDiff.UpdateStruct | pghelper.go:387-579 | the log and result are those of `UpdateStruct`: the name check, the table creation for a missing live definition, the key check, then the plan, stopping at the first failure |
| HelperDiff.EmptyNameIssuesNothing | pghelper.go:388-390 | an empty table name is refused and nothing is issued |
| HelperDiff.MissingTableAddsAll | pghelper.go:392-400 | without a live definition the table is created whatever the database answers, then every desired column is added in order, the key created when there is one, every index created and commented, and the table commented when it has a description |
| HelperDiff.UnnamedConstraintRefused | pghelper.go:328-337 | a changed key on a live table whose key constraint has no name fails before any statement |
| HelperDiff.IndexIgnoresOrigins | pghelper.go:412 | column lookup by name is unaffected by origin names |
| HelperDiff.UnchangedTableIssuesNothing | pghelper.go:387-579 | diffing a live definition against an identical one issues nothing and succeeds |
| HelperDiff.WithoutIff | pghelper.go:636-649 | a name is in the update list exactly when it is a column and not a key name, and the list is no longer than the columns |
| HelperDiff.WithoutNothing | pghelper.go:636-649 | with no key names among the columns, every column is updated, in order |
| HelperDiff.Merge | pghelper.go:580-649 | an empty key list, then an empty column list, is an error; otherwise the update list of the non-key columns in order |
| HelpDiff.ReadAllOk | pghelp.go:219-229 | the rows are read exactly when each row is, one result per row in order |
| HelpDiff.ReadAllFirstError | pghelp.go:219-229 | a failed read reports the error of the first row that fails |
| HelpDiff.ReadAllErrExtends | pghelp.go:219-229 | once a prefix fails, every longer prefix fails the same way |
| HelpDiff.IndexesOfKeys | pghelp.go:246-252 | the index map's keys are exactly the rows' description column values |
| HelpDiff.IndexesOfLastWins | pghelp.go:246-252 | the last row with a given key decides its entry, an index named by the row with an empty description |
| HelpDiff.TableOfIff | pghelp.go:206-255 | reading succeeds exactly when the table exists and every query and column type is accepted; a missing table is `NotFoundTable` |
| HelpDiff.Table | pghelp.go:206-255 | the loops over the catalog rows compute the live definition or the first error |
| HelpDiff.ReadColumns | pghelp.go:219-229 | the column loop reads each row in turn, a refused type ending it |
| HelpDiff.ReadIndexes | pghelp.go:246-252 | the index loop builds the index map |
| HelpDiff.UpdateStruct | pghelp.go:356-549 | the log and result are those of `UpdateStruct`: the name check, the catalog read, the table creation for a missing table, the key check, then the plan |
| HelpDiff.MissingTablePanics | pghelp.go:361-376 | a missing table is created and the key check then dereferences the nil definition: the call panics after CREATE TABLE |
| HelpDiff.ReadErrorIssuesNothing | pghelp.go:362-366 | any other failure to read the live definition is returned before any statement |
| HelpDiff.MissingTableCreatesAll | pghelp.go:361-371 | with the missing table diffed as an empty one, it is created and every desired column, the key, the indexes and the comment follow |
| HelpDiff.UnchangedTableIssuesNothing | pghelp.go:356-549 | applying the definition just read from the catalog issues nothing and succeeds |

## Left out

- Floating-point, time and JSON values: their text formatting and parsing (`%.17f`, `ParseFloat`, RFC 3339, `json.Marshal`/`Unmarshal`) are parameters of the codec (`Codec.Foreign`). Their values carry only their kind.
- `parsePGArray` and `encodePGArray`, whose code is not part of this model, are parameters. `Codec.Int64SliceRoundTrip` assumes they invert each other.
- The `Value()` methods of the `BoolSlice`, `StringSlice` and other wrappers outside the core files are a parameter (`Codec.Foreign.valueOf`).
- `PGDesc` is modelled as a map of strings, compared by map equality. Its JSON form is not modelled. `dbhelper.DBDesc` in `PgMeta` is represented by its text.
- The row store of `datatable.DataTable` is not part of this model. The row helpers take the rows a caller reads as parameters. `GetValue`, `GetColumnValues`, `GetColumnStrings`, `AddRow`, `NewRow`, `Rows`, `UpdateRow`, `AddValues`, `SetValues`, `GetValues`, `PrimaryKeys` and `Index.Clone` are left out with it.
- Reflection-based code (`ReflectType`, `SetReflectType`, `Nil2NULL`, `nilToNULL`, `NewPtrValues`): it works on Go's runtime type information.
- The SQL text of the `SQL_*` constants behind the `pghelper.go` and `pghelp.go` statement helpers is not part of this model. Those statements are operations carrying the helpers' arguments (`DiffOps.Op`).
- `HasPrimaryKey` of the embedded table is read as "the key list is not empty".
- The catalog queries (`Schema`, `TableExists`, `GetIndexes`, `GetPrimaryKeys`, the query of `GetColumns`, `getTableDesc`): their answers are parameters (`PgMeta.CatalogRow`, `HelpDiff.Catalog`). Only the row-to-definition mappings are modelled.
- `DropPrimaryKey`, `DropIndex` and `AddPrimaryKey` of `PgMeta` each send one fixed statement and are not modelled separately.
- HelpDiff.Table: the row type assertions of `pghelp.go` (`.(string)`, `.(bool)`) cannot fail in the model, because the catalog rows are typed. The JSON unmarshal of the define column into a fresh index's description is left out: it is handed the string by value, so it cannot change it, and its error is discarded.
- Connection and transaction plumbing (`RunAtTrans`, `Query*`, `GetDataTable*`, `Get*`, panic recovery, `SqlError` wrapping): the database is the engine's acceptance oracle, and a failure is one `SqlError`.
- `Merge`'s statement template (`text/template` rendering) is left out. `HelperDiff.Merge` stops at the update-column list the template receives.
- PgMeta.ParamPlaceholder: requires that the pieces of the format hold no `%`, so that `%s` verbs are the only verbs. Other verbs in the format text are not modelled.
- PgMeta.EscapeRoundTrip: requires that no NUL is followed by an octal digit. PostgreSQL would read that digit as part of the NUL's octal escape, so the round trip does not hold there.
- `reflect.DeepEqual` on key lists is sequence equality. It does not distinguish a nil list from an empty one as Go does.
- Duplicate pairings are not rejected, because the code does not reject them. `Pairing.TwoPairsOneOld` shows two desired columns pairing with one live column.
- `dbtable.go` and the wrappers in `float64.go` and `time.go` are not part of this model. Of `string.go`, `int64.go` and `bool.go`, only the `Value` and `IsNull` methods are modelled (`DataTables.Unnull`). Their `Scan` methods are not.
- Values.SafeToString: a Go string holds any bytes, but a model string is a sequence of characters. A []byte that is not valid UTF-8 therefore reads as one U+FFFD per invalid byte, as `range` over the Go string would read it. The bytes come back only when they are valid UTF-8 (`Strs.BytesRoundTrip`). Int64Slices.Scan reads array bytes the same way.
- HelpDiff.UpdateStruct: the key type check of pghelp.go:379-386 reads `PrimaryKeys()[i].PGType` through the row store of the embedded table, which is not part of this model. It is modelled by looking each key name up among the columns (`KeyCheck.ColumnIndex`). A key name that names no column is modelled as a panic at that lookup (`KeyCheck.IndexPanic`). The embedded table may fail elsewhere in that case.

## Findings

| source | as written | input that shows it | evidently intended | confidence | as-written member | corrected member |
|---|---|---|---|---|---|---|
| pgmeta.go:176 | `CREATE %sINDEX` with `UNIQUE` glues the words into `CREATE UNIQUEINDEX` | `CreateIndex("t", "i", ["a"], true, "")` | `CREATE UNIQUE INDEX i ON t(a)` | not executed | PgMeta.UniqueIndexGlued | PgMeta.CreateIndexSqlFixedForm |
| pgmeta.go:359 | the comment test `!= nil \|\| .(string) != ""` type-asserts a nil comment, so any column without a comment panics | a catalog row with `column_desc` NULL | `!= nil && .(string) != ""`: a missing comment gives an empty description | not executed | PgMeta.UncommentedColumnPanics | PgMeta.ColumnOfRowFixedProperties |
| pgmeta.go:28 | the placeholders are numbered from `$0`, but PostgreSQL numbers parameters from `$1` | `ParamPlaceholder("a=%s", 1)` gives `a=$0` | `a=$1`: the k-th verb refers to parameter k | not executed | PgMeta.FirstPlaceholderIsNoParameter | PgMeta.PlaceholdersFixedRefer |
| pghelp.go:361-376 | for a missing table `oldStruct` stays nil after `createTable`, and `oldStruct.GetPK()` dereferences it | `UpdateStruct` of any named table that does not exist | diff against an empty table, as pghelper.go:399 does | not executed | HelpDiff.MissingTablePanics | HelpDiff.MissingTableCreatesAll |
