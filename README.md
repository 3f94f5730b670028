# CSV import dialog: schema inference, file matching and the transactional loader

A Dafny model of the import logic of `ImportCsvDialog` (DB Browser for SQLite). The
dialog imports one or more CSV files into SQLite tables. The model covers:

- **Schema inference** (`generateFieldList`): a fold over at most 20 parsed rows that grows
  a field list to the widest row. In header mode, fields are named from row 0's cells,
  with the characters `` ` ``, space, `"`, `'`, `,` and `;` stripped. Otherwise the name is
  `field<i+1>`.
- **File matching** (`matchSimilar`): in a multi-file import, each file picker item is
  checked, unchecked or left alone by comparing its file's field list with the current
  file's. This goes with the OK-button predicate of `checkInput`.
- **The loader** (`importCsv` and the `rollback` helper), as a state machine over an
  abstract store, in this order:
  - choose the table name;
  - take the three early exits;
  - set a savepoint;
  - create the table, or compute the empty-cell substitutes of an existing one;
  - build the `INSERT` text;
  - run the per-row bind / step / reset / clear-bindings cycle;
  - keep the result, or revert to the savepoint with the right warning.
- **The dialect selectors**: `currentQuoteChar`, `currentSeparatorChar` and `currentEncoding`.

Files:

- `text.dfy` (module `Text`): decimal rendering of numbers, as used in generated names,
  placeholders and record numbers.
- `csv_parse.dfy` (`CsvParse`): the parser as an input. It gives the rows the tokenizer
  delivers, the result when every row is accepted, and the result after a refused row,
  which is never success.
- `field_list.dfy` (`FieldList`): schema inference.
- `schema_match.dfy` (`SchemaMatch`): the file picker.
- `dialog_inputs.dfy` (`DialogInputs`): the selectors and the table-name choice.
- `store.dfy` (`Store`): the database and the prepared statement.
  - A `Database` class holds the named objects, the savepoint stack and the last error text.
  - A `Statement` class holds an array of bindings.
- `loader.dfy` (`Loader`): `importCsv`.
  - Specification: the functions `Import`, `Transact` and `Keep`, and their lemmas.
  - Implementation: the methods `ImportCsv`, `ImportWithSavepoint` and `LoadAndCommit`,
    proved equal to that specification.

The parser is not modelled. A `ParseInput` stands for what the parser delivers for one
file; the same value feeds both the capped scan of the inference (its first 20 rows) and
the full parse of the import. The row function of
the full parse is `ImportRow`. Its effect over the whole file is the function `Load`, and
`ParseAndInsert` is proved to produce exactly `Load`.

## Model

| member | source | states |
|---|---|---|
| CsvParse.Sample | src/ImportCsvDialog.cpp:377 | the inference parse sees the first min(n, 20) rows, in order |
| Text.NatToString | src/ImportCsvDialog.cpp:367 | `arg` of a number: non-empty decimal digits, starting with 0 only for 0, read back exactly by `ParseDecimal` (`ParseNatToString`) |
| FieldList.SanitizeName | src/ImportCsvDialog.cpp:355-362 | the six `replace` calls in order; `SanitizeIsFilter` proves it equals the reference filter |
| FieldList.RemoveAll | src/ImportCsvDialog.cpp:357-362 | one `replace(c, "")`: no occurrence of c is left and the text does not grow |
| FieldList.KeepValid | src/ImportCsvDialog.cpp:357-362 | the reference filter: its result contains none of the six stripped characters |
| FieldList.SanitizeIsFilter | src/ImportCsvDialog.cpp:355-362 | the six successive replacements equal dropping every stripped character in one filter |
| FieldList.RemoveAllConcat | src/ImportCsvDialog.cpp:357-362 | removing a character distributes over concatenation |
| FieldList.SanitizeChar | src/ImportCsvDialog.cpp:355-362 | one character comes through the six replacements unchanged unless it is a stripped character, which they remove |
| FieldList.SanitizeConcat | src/ImportCsvDialog.cpp:355-362 | sanitising distributes over concatenation |
| FieldList.KeepValidIdentity | src/ImportCsvDialog.cpp:357-362 | a cell is left unchanged exactly when it has none of the stripped characters |
| FieldList.SanitizeIdempotent | src/ImportCsvDialog.cpp:355-362 | sanitising a sanitised name changes nothing |
| FieldList.DefaultName | src/ImportCsvDialog.cpp:366-367 | the generated name is "field" followed by decimal digits that read back as i+1 (no leading zero: `DefaultNameNoLeadingZero`) |
| FieldList.DefaultNameNoLeadingZero | src/ImportCsvDialog.cpp:366-367 | the number after "field" has no leading zero |
| FieldList.DefaultNameInjective | src/ImportCsvDialog.cpp:366-367 | different positions get different generated names |
| Text.NatToStringInjective | src/ImportCsvDialog.cpp:367 | the decimal rendering of `arg` is injective; it is read back exactly (`ParseNatToString`) |
| FieldList.FieldNameAt | src/ImportCsvDialog.cpp:350-367 | a new field's name is never empty |
| FieldList.FieldNameCases | src/ImportCsvDialog.cpp:353-367 | the stripped cell names the field only for row 0 in header mode when something is left; otherwise `field<i+1>` |
| FieldList.Extend | src/ImportCsvDialog.cpp:346-370 | one row: the list grows to max(old length, row width); old entries are kept as a prefix; each new entry at i is named by `FieldNameAt` |
| FieldList.ExtendFieldList | src/ImportCsvDialog.cpp:346-370 | the index loop from `fieldList.size()` to `data.size()` computes `Extend` |
| FieldList.InferFields | src/ImportCsvDialog.cpp:343-377 | the row function's effect over the rows, in order: a fold of `Extend`; characterised by `InferredSchema` |
| FieldList.ScanIsInferFields | src/ImportCsvDialog.cpp:346-377 | calling the row function on rows 0 … n-1 in order yields the field list inferred from the first n rows |
| FieldList.FileSchema | src/ImportCsvDialog.cpp:341-380 | the field list of a file: the fold over its capped sample |
| FieldList.GenerateFieldList | src/ImportCsvDialog.cpp:341-380 | the method's list equals the fold of `Extend` over the capped sample (`FileSchema`) |
| FieldList.MaxWidth | src/ImportCsvDialog.cpp:346 | the widest row: an upper bound on every row width that some row reaches |
| FieldList.FirstReaching | src/ImportCsvDialog.cpp:346 | the first row wider than i: it reaches i and no earlier row does |
| FieldList.FirstReachingUnique | src/ImportCsvDialog.cpp:346 | any row with that property is the first reaching row |
| FieldList.InferredSchema | src/ImportCsvDialog.cpp:341-380 | the inferred list is exactly as wide as the widest sampled row; field i is the one created by the first row reaching i |
| FieldList.PrefixStable | src/ImportCsvDialog.cpp:346-370 | the list only grows: the list after a prefix of the rows is a prefix of the final list, so no entry is renamed |
| FieldList.NamesNonEmpty | src/ImportCsvDialog.cpp:366-367 | every inferred name is non-empty |
| FieldList.EmptySchema | src/ImportCsvDialog.cpp:346-407 | the list is empty exactly when every sampled row is empty |
| FieldList.HeaderModeNames | src/ImportCsvDialog.cpp:353-367 | fields within row 0's width are named by the stripped cell in header mode when that is non-empty, else `field<i+1>`; wider fields always get `field<i+1>` |
| FieldList.NoHeaderNames | src/ImportCsvDialog.cpp:353-367 | without a header row every field i is `field<i+1>` |
| FieldList.DuplicateHeaderNamesKept | src/ImportCsvDialog.cpp:353-370 | names are not made unique: the header `a,a` gives two fields named `a` |
| SchemaMatch.SameNames | src/ImportCsvDialog.cpp:302-307 | the count test and `std::equal` over the names, position by position |
| SchemaMatch.MatchedState | src/ImportCsvDialog.cpp:302-317 | the state an item is left in; its three cases are stated by `MatchedStateCases` |
| SchemaMatch.MatchSimilar | src/ImportCsvDialog.cpp:291-321 | each item's new state is that of `MatchedState` against the current file's list, from its own old state alone; the current item ends checked |
| SchemaMatch.MatchItem | src/ImportCsvDialog.cpp:300-317 | item `i` takes `MatchedState` of its old state (checked on equal names, unchanged on a same-length mismatch, unchecked on a different length); every other item is unchanged |
| SchemaMatch.MatchedStateCases | src/ImportCsvDialog.cpp:302-317 | another length: unchecked; same names in order: checked; same length with other names: state unchanged; checked only with the same length |
| SchemaMatch.NoHeaderMatchesByWidth | src/ImportCsvDialog.cpp:302-312 | without headers two files match exactly when their widest sampled rows have the same width |
| SchemaMatch.SameHeaderRowMatches | src/ImportCsvDialog.cpp:302-312 | in header mode, files with the same header row, when that row is the widest of each file's sample, match |
| SchemaMatch.AllowImporting | src/ImportCsvDialog.cpp:237-246 | import is allowed iff the table name is non-empty and, when the picker is shown, some item is checked |
| DialogInputs.Latin1 | src/ImportCsvDialog.cpp:567 | `toLatin1`: the character itself below 256, else 0 |
| DialogInputs.CurrentQuoteChar | src/ImportCsvDialog.cpp:563-573 | the quote is a Latin-1 character |
| DialogInputs.QuoteCharDefault | src/ImportCsvDialog.cpp:563-573 | quoting is off (0) exactly when the chosen text is empty or starts with NUL or a non-Latin-1 character; otherwise it is the first character |
| DialogInputs.CurrentSeparatorChar | src/ImportCsvDialog.cpp:591-598 | a Latin-1 character: for "Other" the custom text's first character or 0 when it is empty; '\t' for "Tab"; else the combo text's first character |
| DialogInputs.SeparatorLikeQuote | src/ImportCsvDialog.cpp:563-598 | apart from "Tab", the separator and the quote selectors read the same character from the same inputs |
| DialogInputs.CurrentEncoding | src/ImportCsvDialog.cpp:615-622 | the combo text for a listed entry; the custom text, or "UTF-8" when it is empty, for "Other" |
| DialogInputs.EncodingDefault | src/ImportCsvDialog.cpp:618-619 | the custom entry yields "UTF-8" exactly when it is empty or says UTF-8 |
| DialogInputs.FileNamePart | src/ImportCsvDialog.cpp:395-396 | the part after the last `/`: a suffix of the path with no `/`, preceded by `/` when shorter |
| DialogInputs.UpToFirstDot | src/ImportCsvDialog.cpp:395-396 | the prefix before the first `.`: no `.` in it, followed by `.` when shorter |
| DialogInputs.BaseName | src/ImportCsvDialog.cpp:395-396 | `QFileInfo::baseName`: the file name part cut at its first `.` |
| DialogInputs.ChooseTableName | src/ImportCsvDialog.cpp:391-402 | the table name of one file; stated by `TableNameFromFile` and `TableNameShared` |
| DialogInputs.TableNameFromFile | src/ImportCsvDialog.cpp:391-397 | a table named after its file has no directory and no `.`, and begins its file name |
| DialogInputs.TableNameShared | src/ImportCsvDialog.cpp:391-402 | one file, or several into one table, always goes to the typed name |
| Store.AppendRow | src/ImportCsvDialog.cpp:508 | a successful step adds the row at the end of its table and touches no other object |
| Store.LastNamed | src/ImportCsvDialog.cpp:100 | the most recent savepoint of a name: it has that name and none above it does |
| Store.Database.constructor | src/ImportCsvDialog.cpp:32 | the database handle the dialog keeps (`pdb`): a store with the given objects, no savepoint and the given last error |
| Store.Database.SetSavepoint | src/ImportCsvDialog.cpp:434-436 | an accepted savepoint is pushed with the current objects; nothing else changes |
| Store.Database.RevertToSavepoint | src/ImportCsvDialog.cpp:100 | restores the savepoint's objects and pops it and everything above it; no-op for an unknown name |
| Store.NameFreeAbsent | src/ImportCsvDialog.cpp:442-443 | a name free in every ASCII case is not a key of the objects, so `createTable` can add it |
| Store.Database.CreateTable | src/ImportCsvDialog.cpp:442-443 | fails iff an existing object's name equals the new one or two columns share a name, both ignoring ASCII case; otherwise adds an empty table with the given columns |
| Store.Statement.Prepare | src/ImportCsvDialog.cpp:470-471 | one NULL binding per placeholder |
| Store.Statement.BindText | src/ImportCsvDialog.cpp:495-504 | binds slot index-1; an index outside 1..n changes nothing |
| Store.Statement.Step | src/ImportCsvDialog.cpp:508-509 | appends the bindings iff the table takes them (right width, no NULL in a NOT NULL column) |
| Store.Statement.ClearBindings | src/ImportCsvDialog.cpp:513-514 | every binding back to NULL |
| Loader.BuildNullValues | src/ImportCsvDialog.cpp:449-461 | one entry per column, in order: "0" for integer NOT NULL, NULL for nullable integer, "" otherwise |
| Loader.CellValue | src/ImportCsvDialog.cpp:491-505 | the value one slot holds after the binding loop; its cases are stated by `RaggedRow` and `ExistingTableContents` |
| Loader.RowValues | src/ImportCsvDialog.cpp:490-505 | one value per placeholder for a row |
| Loader.RaggedRow | src/ImportCsvDialog.cpp:490-514 | columns a short row lacks are NULL; cells past the field count are dropped; into a new table each cell goes in as its text |
| Loader.FullRowFitsExistingTable | src/ImportCsvDialog.cpp:449-500 | a full-width row never puts NULL into a NOT NULL column of an existing table |
| Loader.NullableTableTakesAll | src/ImportCsvDialog.cpp:442-509 | a table of nullable columns, such as a created one, takes every row |
| Loader.ImportRow | src/ImportCsvDialog.cpp:475-521 | header row 0 is skipped; otherwise the row binds `RowValues` (substitutes only for empty cells within `nullValues`, NULL substitutes bind nothing), the row is appended iff the table takes it, a failed step refuses, and after success all bindings are cleared |
| Loader.BuildInsertQuery | src/ImportCsvDialog.cpp:465-469 | exactly `INSERT INTO <name> VALUES(?1,...,?n)` for n ≥ 1; the chop yields `VALUES)` for n = 0 |
| Loader.AppendPlaceholders | src/ImportCsvDialog.cpp:466-467 | appends `?1,` … `?n,` to the head: the head plus the placeholder list and one trailing comma, or the head alone for n = 0 |
| Loader.PlaceholdersShape | src/ImportCsvDialog.cpp:466-468 | n question marks, n-1 commas, and a digit last: no trailing comma |
| Loader.ErrorText | src/ImportCsvDialog.cpp:94-97 | the warning text; `ErrorTextMark` and `RecordNumberUnambiguous` state how it shows the record number |
| Loader.RollbackWarning | src/ImportCsvDialog.cpp:84-101 | a warning is shown iff the message is non-empty |
| Loader.ErrorTextMark | src/ImportCsvDialog.cpp:95-97 | " from record number" follows "Error importing data" iff the record number is non-zero |
| Loader.RecordNumberUnambiguous | src/ImportCsvDialog.cpp:95-97 | different record numbers give different warnings |
| Loader.RecordDigits | src/ImportCsvDialog.cpp:94-97 | for a nonzero record number, the warning text holds exactly that number's decimal digits at a fixed offset, ending at the first non-digit |
| Loader.Rollback | src/ImportCsvDialog.cpp:84-101 | the warning is `RollbackWarning`, and the store reverts to the named savepoint |
| Loader.Load | src/ImportCsvDialog.cpp:475-521 | the full parse's effect row by row; characterised by `LoadShape` and `LoadRefusalFinal` |
| Loader.LoadRefusalFinal | src/ImportCsvDialog.cpp:508-509 | after a refused row nothing more is inserted |
| Loader.LoadShape | src/ImportCsvDialog.cpp:475-521 | the inserted rows are the data rows' `RowValues`, in order, up to the first refused row; `lastRowNum` is the last row seen, including header row 0 |
| Loader.NullableTableLoadsAll | src/ImportCsvDialog.cpp:475-521 | no row is refused by a table of nullable columns |
| Loader.TableColumns | src/ImportCsvDialog.cpp:442 | a created table has one untyped, nullable column per inferred field, in order |
| Loader.ParseAndInsert | src/ImportCsvDialog.cpp:474-521 | the full parse with the row function refuses, stops and appends exactly as `Load` says |
| Loader.Import | src/ImportCsvDialog.cpp:382-546 | the specification of one file's import: the early exits, then `Transact` |
| Loader.Transact | src/ImportCsvDialog.cpp:434-546 | from the savepoint on: a refused savepoint or table creation reverts with its warning, else `Keep` |
| Loader.Keep | src/ImportCsvDialog.cpp:474-546 | the full parse and its ending: keep on success, otherwise revert with the result's warning |
| Loader.EarlyExits | src/ImportCsvDialog.cpp:405-430 | an empty schema, a width mismatch (with its warning) or a No answer leave the store unchanged; a changed store implies a schema, a savepoint, and a free name or an agreed same-width table |
| Loader.AllOrNothing | src/ImportCsvDialog.cpp:382-546 | a warning means the store is unchanged; a change means no warning, one more savepoint holding the old objects, only the target table changed, and that table holds its old rows (none when new) followed by one row per data row of the file |
| Loader.ImportIsRevertible | src/ImportCsvDialog.cpp:434-436 | after a changing import, the import's savepoint holds the prior objects and sits right above the prior stack |
| Loader.ParseOutcome | src/ImportCsvDialog.cpp:524-533 | for a new or an existing table: the store changes iff the parse is reached and succeeds; a failed parse leaves the store unchanged; a cancel shows no warning; an error shows "Inserting row failed" with the last row number seen; a refused row leaves the store unchanged, and a changed store means no row was refused and every data row was loaded |
| Loader.RefusedRowRevertsFile | src/ImportCsvDialog.cpp:524-533 | a file whose second row an existing NOT NULL table refuses leaves the store unchanged, its first row included, with no warning on Cancelled and "Inserting row failed" at record 1 on Error |
| Loader.RefusedRowLoad | src/ImportCsvDialog.cpp:475-509 | the parse of that file loads row 0, refuses row 1 and never reaches row 2, with last row number 1 |
| Loader.CaseCollisionFails | src/ImportCsvDialog.cpp:440-443 | with a table `t` present, importing into `T` fails at table creation and reverts with that warning |
| Loader.NewTableContents | src/ImportCsvDialog.cpp:440-521 | a successful import into a new table (free name, distinct field names) inserts one row per data row, in order, with cell text, NULL for missing cells and no cells beyond the field count |
| Loader.NewTableRows | src/ImportCsvDialog.cpp:475-521 | into untyped nullable columns no row is refused, and the loaded rows are the file's data rows in order, each cell its text and NULL where the row is short |
| Loader.ExistingTableAppends | src/ImportCsvDialog.cpp:444-509 | an import into an existing table keeps its columns and old rows and appends only rows the table takes |
| Loader.ExistingTableContents | src/ImportCsvDialog.cpp:444-521 | a successful import into an existing table appends exactly the loaded rows after the old ones; each cell is its text, the column's substitute when empty ("0", NULL or ""), or NULL when missing; all data rows when none is refused |
| Loader.DuplicateHeaderSchema | src/ImportCsvDialog.cpp:353-370 | the header `a,a` gives two fields named `a` |
| Loader.DuplicateHeaderImportFails | src/ImportCsvDialog.cpp:440-443 | importing that file into a new table fails at table creation and reverts with "Creating the table failed" |
| Loader.HeaderFileSchema | src/ImportCsvDialog.cpp:341-380 | the header file `a,b / 1,2 / 3,4` gives the fields `a`, `b` |
| Loader.NewTableImport | src/ImportCsvDialog.cpp:382-546 | an import into a name free in every ASCII case, with distinct column names and a successful parse, adds exactly the new table holding the loaded rows and one savepoint, with no warning |
| Loader.HeaderFileExample | src/ImportCsvDialog.cpp:382-546 | importing that file into a new table yields columns `a`, `b` and the rows `1,2` and `3,4` |
| Loader.HeaderFileLoad | src/ImportCsvDialog.cpp:475-521 | the full parse of that file skips header row 0 and loads the rows `1,2` and `3,4` as text, in order, refusing none |
| Loader.ExistingTableExample | src/ImportCsvDialog.cpp:454-500 | an empty cell for an `INTEGER NOT NULL` column is inserted as "0" |
| Loader.ImportCsv | src/ImportCsvDialog.cpp:382-546 | the resulting store and warning are those of the specification `Import` |
| Loader.ImportWithSavepoint | src/ImportCsvDialog.cpp:434-462 | savepoint, table creation or substitutes: the store and warning of `Transact` |
| Loader.LoadAndCommit | src/ImportCsvDialog.cpp:465-537 | statement, full parse, and commit or revert: the store and warning of `Keep` |

## Left out

- The CSV tokenizer is not part of this model: quoting, trimming, separators and line ends.
  - A run of the parser is given as its rows plus two results.
  - One result applies when every row is accepted, the other after a refused row.
  - Which of Cancelled or Error a refusal gives is decided inside the tokenizer, so it is an input.
    It is never Success (`CsvParse.RefusalResult`): a refusal stops the parse short, and importCsv rolls back the whole file.
- Text decoding (`QTextStream` codecs), progress dialogs and event processing are left out.
  The encoding selector is modelled; decoding is not.
- Qt widgets, message boxes and settings persistence are left out:
  - the Yes/No answer is the input `answerYes`;
  - the OK-button state is the result of `AllowImporting`;
  - `accept()`'s loop over several files, the preview and the item background colours are not modelled.
- `sqlb::escapeIdentifier` is a parameter of `ImportCsv`.
- `DBBrowserDB::generateSavepointName` is an input, assumed fresh.
- Whether the engine accepts a savepoint is an input.
- SQLite's return codes, the byte encoding of bound text, and `sqlite3_finalize` are not modelled.
- `Store.Database` objects: views, indexes and triggers are a single `OtherObject`.
- `Store.Database.CreateTable`: fails only on a name taken in any ASCII case or a repeated column name. Other engine errors are not modelled.
- `Store.Statement.Step`: fails only on a width mismatch or a NULL in a NOT NULL column.
  Other constraints (UNIQUE, CHECK, foreign keys, type affinity) are not modelled.
- `Store.Database`: `lastError` is never changed by the modelled operations.
  Warnings therefore quote the error text from before the import; when DBBrowserDB updates it is not part of this model.
- The `CSV_BENCHMARK` timing code is left out.
- `DialogInputs.CurrentSeparatorChar` requires a non-empty combo text when "Other" is not selected.
  `currentSeparatorChar` indexes the text unchecked there.
- The branch at `src/ImportCsvDialog.cpp:422-423` only sets a flag that the Yes/No question that follows sets or makes irrelevant.
  It has no effect of its own and is not modelled separately.
- Inferred field types are always empty. generateFieldList leaves type analysis as a TODO (src/ImportCsvDialog.cpp:373).
- Names are not made unique. The model follows the code: a repeated header cell gives repeated names, as `FieldList.DuplicateHeaderNamesKept` shows. Creating a new table from such a field list fails and the import reverts, as `Loader.DuplicateHeaderImportFails` shows.
- `DialogInputs.FileNamePart` splits a path only at `/`. On Windows `QFileInfo` also splits at `\`; that is not modelled.
- The record number in an error warning is the parser's 0-based row number, as the code passes it. With a header row, data row k is reported as record k.
