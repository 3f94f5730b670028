/** The transactional loader (ImportCsvDialog::importCsv and the rollback helper): infer
    the field list, resolve the target table, set a savepoint, create the table or prepare
    the empty-value substitutes of an existing one, insert every data row through one
    prepared statement, and keep the result or revert to the savepoint. */
module Loader {
  import opened Text
  import opened CsvParse
  import opened FieldList
  import opened DialogInputs
  import opened Store

  datatype Option<T> = None | Some(value: T)

  /** The dialog state importCsv reads: the header and separate-tables check boxes, the
      number of files the dialog was opened with, and the typed table name. */
  datatype DialogState = DialogState(header: bool, separateTables: bool, fileCount: nat, editName: string)

  /** What the environment decides: the user's answer to "import into the existing table?",
      the name generateSavepointName produced, and whether the engine accepts the savepoint. */
  datatype Environment = Environment(answerYes: bool, restorepointName: string, savepointAccepted: bool)

  const ColumnCountWarning: string :=
    "There is already a table of that name and an import into an existing table is only possible if the number of columns match."

  // ---------------------------------------------------------------------------
  // Empty-value substitutes for an existing table

  /** The value bound for an empty cell of a column: "0" for an integer NOT NULL column,
      NULL (None, a null QString) for a nullable integer column, "" for any other. */
  function Substitute(c: Column): Option<string> {
    if c.isInteger && c.notNull then Some("0")
    else if c.isInteger && !c.notNull then None
    else Some("")
  }

  function NullValues(columns: seq<Column>): seq<Option<string>> {
    seq(|columns|, j requires 0 <= j < |columns| => Substitute(columns[j]))
  }

  /** The nullValues loop over the table's columns. */
  method BuildNullValues(columns: seq<Column>) returns (nullValues: seq<Option<string>>)
    ensures |nullValues| == |columns|
    ensures forall j :: 0 <= j < |columns| ==>
      (columns[j].isInteger && columns[j].notNull ==> nullValues[j] == Some("0"))
      && (columns[j].isInteger && !columns[j].notNull ==> nullValues[j] == None)
      && (!columns[j].isInteger ==> nullValues[j] == Some(""))
    ensures nullValues == NullValues(columns)
  {
    nullValues := [];
    var j := 0;
    while j < |columns|
      invariant 0 <= j <= |columns|
      invariant nullValues == NullValues(columns[..j])
    {
      var f := columns[j];
      if f.isInteger && f.notNull {
        nullValues := nullValues + [Some("0")];
      } else if f.isInteger && !f.notNull {
        nullValues := nullValues + [None];
      } else {
        nullValues := nullValues + [Some("")];
      }
      assert columns[..j + 1][..j] == columns[..j];
      j := j + 1;
    }
    assert columns[..j] == columns;
  }

  // ---------------------------------------------------------------------------
  // The values one row binds

  /** The value slot j of the statement holds after the binding loop for `data`,
      starting from cleared bindings. */
  function CellValue(data: Row, j: nat, existing: bool, nullValues: seq<Option<string>>): Value {
    if j >= |data| then Null
    else if existing && data[j] == "" && j < |nullValues| then
      (if nullValues[j].Some? then Text(nullValues[j].value) else Null)
    else Text(data[j])
  }

  /** The row a data row inserts into a table of n columns. */
  function RowValues(n: nat, data: Row, existing: bool, nullValues: seq<Option<string>>): (r: seq<Value>)
    ensures |r| == n
  {
    seq(n, j requires 0 <= j < n => CellValue(data, j, existing, nullValues))
  }

  /** Ragged rows: the columns a short row lacks are NULL, and the cells beyond the
      statement's placeholders are dropped. Into a new table every present cell goes in
      as its literal text. */
  lemma RaggedRow(n: nat, data: Row, existing: bool, nullValues: seq<Option<string>>)
    ensures forall j :: |data| <= j < n ==> RowValues(n, data, existing, nullValues)[j] == Null
    ensures |data| > n ==> RowValues(n, data, existing, nullValues) == RowValues(n, data[..n], existing, nullValues)
    ensures !existing ==> forall j :: 0 <= j < n && j < |data| ==> RowValues(n, data, existing, nullValues)[j] == Text(data[j])
  {
    if |data| > n {
      var a, b := RowValues(n, data, existing, nullValues), RowValues(n, data[..n], existing, nullValues);
      assert forall j :: 0 <= j < n ==> a[j] == b[j];
    }
  }

  /** A row with a cell for every column of an existing table never puts NULL into a
      NOT NULL column: its empty cells get the column's substitute. */
  lemma FullRowFitsExistingTable(columns: seq<Column>, data: Row)
    requires |data| >= |columns|
    ensures Accepts(columns, RowValues(|columns|, data, true, NullValues(columns)))
  {
    var v := RowValues(|columns|, data, true, NullValues(columns));
    forall j | 0 <= j < |columns| ensures !(columns[j].notNull && v[j] == Null) {
      assert v[j] == CellValue(data, j, true, NullValues(columns));
    }
  }

  /** A table made of nullable columns takes any row of the right width. */
  lemma NullableTableTakesAll(columns: seq<Column>, data: Row, existing: bool, nullValues: seq<Option<string>>)
    requires forall j :: 0 <= j < |columns| ==> !columns[j].notNull
    ensures Accepts(columns, RowValues(|columns|, data, existing, nullValues))
  {
  }

  /** The row function of the full parse, for row rowNum with fields `data`: the header
      row is skipped; otherwise every cell is bound, the statement is stepped, and after a
      successful step reset and its bindings cleared; a failed step refuses the row. */
  method ImportRow(stmt: Statement, db: Database, rowNum: nat, data: Row, header: bool,
                   existing: bool, nullValues: seq<Option<string>>) returns (proceed: bool)
    requires stmt.Cleared()
    modifies db, stmt.params
    ensures rowNum == 0 && header ==> proceed && db.objects == old(db.objects) && stmt.Cleared()
    ensures !(rowNum == 0 && header) ==>
      var v := RowValues(stmt.params.Length, data, existing, nullValues);
      && proceed == (IsTable(old(db.objects), stmt.table) && Accepts(old(db.objects)[stmt.table].columns, v))
      && db.objects == if proceed then AppendRow(old(db.objects), stmt.table, v) else old(db.objects)
    ensures proceed ==> stmt.Cleared()
    ensures db.savepoints == old(db.savepoints) && db.lastError == old(db.lastError)
  {
    if rowNum == 0 && header {
      return true;
    }
    var i := 0;
    while i < |data|
      invariant 0 <= i <= |data|
      invariant forall j :: 0 <= j < stmt.params.Length ==>
        stmt.params[j] == if j < i then CellValue(data, j, existing, nullValues) else Null
      invariant db.objects == old(db.objects)
      invariant db.savepoints == old(db.savepoints) && db.lastError == old(db.lastError)
    {
      if existing && data[i] == "" && |nullValues| > i {
        var val := nullValues[i];
        if val.Some? {
          stmt.BindText(i + 1, val.value);
        }
      } else {
        stmt.BindText(i + 1, data[i]);
      }
      i := i + 1;
    }
    assert stmt.params[..] == RowValues(stmt.params.Length, data, existing, nullValues);
    proceed := stmt.Step(db);
    if !proceed {
      return;
    }
    // sqlite3_reset leaves the bindings alone; sqlite3_clear_bindings sets them to NULL.
    stmt.ClearBindings();
  }

  // ---------------------------------------------------------------------------
  // The INSERT statement

  /** "?1,?2,...,?n". */
  function Placeholders(n: nat): string
    requires n >= 1
  {
    if n == 1 then "?1" else Placeholders(n - 1) + ",?" + NatToString(n)
  }

  /** The query importCsv prepares: placeholders appended with a trailing comma each,
      then the last character chopped. With no fields the chop takes the "(" instead. */
  method BuildInsertQuery(escapedName: string, n: nat) returns (query: string)
    ensures n >= 1 ==> query == "INSERT INTO " + escapedName + " VALUES(" + Placeholders(n) + ")"
    ensures n == 0 ==> query == "INSERT INTO " + escapedName + " VALUES)"
  {
    var head := "INSERT INTO " + escapedName + " VALUES(";
    query := AppendPlaceholders(head, n);
    if n >= 1 {
      assert query[..|query| - 1] == head + Placeholders(n);
    } else {
      assert query[..|query| - 1] == "INSERT INTO " + escapedName + " VALUES";
    }
    query := query[..|query| - 1];
    query := query + ")";
  }

  /** What the append loop has added once the placeholders before `i` are in. */
  function Trail(i: nat): string
  {
    if i <= 1 then "" else Placeholders(i - 1) + ","
  }

  /** One round of the append loop extends the trail by "?i,". */
  lemma TrailStep(i: nat)
    requires i >= 1
    ensures Trail(i) + ("?" + NatToString(i) + ",") == Trail(i + 1)
  {
    var d := NatToString(i);
    if i == 1 {
      assert d == "1";
    } else {
      var p := Placeholders(i - 1);
      calc {
        Trail(i) + ("?" + d + ",");
        (p + ",") + ("?" + d + ",");
        (p + ",?" + d) + ",";
        Trail(i + 1);
      }
    }
  }

  /** The append loop of the query: "?i," for i = 1..n after `head`. */
  method AppendPlaceholders(head: string, n: nat) returns (query: string)
    ensures n == 0 ==> query == head
    ensures n >= 1 ==> query == head + (Placeholders(n) + ",")
  {
    query := head;
    var i := 1;
    while i <= n
      invariant 1 <= i <= n + 1 || (n == 0 && i == 1)
      invariant query == head + Trail(i)
    {
      var piece := "?" + NatToString(i) + ",";
      TrailStep(i);
      assert query + piece == head + (Trail(i) + piece);
      query := query + piece;
      i := i + 1;
    }
    assert n >= 1 ==> Trail(n + 1) == Placeholders(n) + ",";
  }

  /** The placeholder list has one "?" per field, one comma fewer, and ends in a digit. */
  lemma {:induction false} PlaceholdersShape(n: nat)
    requires n >= 1
    ensures Count('?', Placeholders(n)) == n
    ensures Count(',', Placeholders(n)) == n - 1
    ensures IsDigit(Placeholders(n)[|Placeholders(n)| - 1])
  {
    if n == 1 {
      assert Placeholders(1) == ['?'] + ['1'];
      CountConcat('?', ['?'], ['1']);
      CountConcat(',', ['?'], ['1']);
    } else {
      PlaceholdersShape(n - 1);
      var p, d := Placeholders(n - 1), NatToString(n);
      CountAbsent('?', d);
      CountAbsent(',', d);
      assert Placeholders(n) == p + (",?" + d);
      CountConcat('?', p, ",?" + d);
      CountConcat(',', p, ",?" + d);
      CountConcat('?', ",?", d);
      CountConcat(',', ",?", d);
      assert Count('?', ",?") == 1 && Count(',', ",?") == 1;
    }
  }

  // ---------------------------------------------------------------------------
  // The rollback helper

  /** The warning text: "Error importing data", " from record number N" only when N is
      not 0, then ".\n" and the message. */
  function ErrorText(nRecord: nat, message: string): string {
    if nRecord != 0 then "Error importing data" + (" from record number " + (NatToString(nRecord) + (".\n" + message)))
    else "Error importing data" + (".\n" + message)
  }

  /** The warning rollback shows: none for an empty message. */
  function RollbackWarning(nRecord: nat, message: string): (w: Option<string>)
    ensures w.None? <==> message == ""
  {
    if message == "" then None else Some(ErrorText(nRecord, message))
  }

  /** The number of leading decimal digits of s. */
  function DigitRun(s: string): (n: nat)
    ensures n <= |s|
  {
    if s == [] || !IsDigit(s[0]) then 0 else 1 + DigitRun(s[1..])
  }

  lemma {:induction false} DigitRunOf(a: string, t: string)
    requires AllDigits(a) && t != [] && !IsDigit(t[0])
    ensures DigitRun(a + t) == |a|
  {
    if a == [] {
      assert a + t == t;
    } else {
      assert (a + t)[1..] == a[1..] + t;
      DigitRunOf(a[1..], t);
    }
  }

  /** The character after "Error importing data" tells whether a record number follows. */
  lemma ErrorTextMark(n: nat, message: string)
    ensures |ErrorText(n, message)| > 20
    ensures ErrorText(n, message)[20] == if n != 0 then ' ' else '.'
  {
  }

  /** The record number of a warning can be read back: after "Error importing data from
      record number " comes the maximal run of digits that renders it. */
  lemma RecordDigits(n: nat, message: string)
    requires n != 0
    ensures var e := ErrorText(n, message);
      40 <= |e| && DigitRun(e[40..]) == |NatToString(n)| && e[40..][..|NatToString(n)|] == NatToString(n)
  {
    var d, t := NatToString(n), ".\n" + message;
    var z := " from record number " + (d + t);
    var e := ErrorText(n, message);
    assert e[20..] == z;
    assert e[40..] == z[20..] == d + t;
    DigitRunOf(d, t);
    assert (d + t)[..|d|] == d;
  }

  /** The warning names the record unambiguously: two record numbers give two texts. */
  lemma RecordNumberUnambiguous(n1: nat, n2: nat, message: string)
    requires message != ""
    ensures RollbackWarning(n1, message) == RollbackWarning(n2, message) ==> n1 == n2
  {
    ErrorTextMark(n1, message);
    ErrorTextMark(n2, message);
    if ErrorText(n1, message) == ErrorText(n2, message) && n1 != 0 && n2 != 0 {
      RecordDigits(n1, message);
      RecordDigits(n2, message);
      NatToStringInjective(n1, n2);
    }
  }

  /** rollback: compute the warning (if any) and revert to the savepoint. */
  method Rollback(db: Database, savepointName: string, nRecord: nat, message: string)
    returns (warning: Option<string>)
    modifies db
    ensures warning == RollbackWarning(nRecord, message)
    ensures db.lastError == old(db.lastError)
    ensures var k := LastNamed(old(db.savepoints), savepointName);
      if k < 0 then db.objects == old(db.objects) && db.savepoints == old(db.savepoints)
      else db.objects == old(db.savepoints)[k].snapshot && db.savepoints == old(db.savepoints)[..k]
  {
    warning := RollbackWarning(nRecord, message);
    db.RevertToSavepoint(savepointName);
  }

  // ---------------------------------------------------------------------------
  // The full parse

  /** What the full parse does to the target table, row by row, up to the first refused row.
      inserted: the rows appended; refused: whether the row function returned false;
      lastRowNum: the last row number the row function saw (0 when it saw none). */
  datatype LoadRun = LoadRun(inserted: seq<seq<Value>>, refused: bool, lastRowNum: nat)

  function Load(rows: seq<Row>, header: bool, columns: seq<Column>, existing: bool,
                nullValues: seq<Option<string>>): LoadRun
    decreases |rows|
  {
    if rows == [] then LoadRun([], false, 0)
    else
      var prev := Load(rows[..|rows| - 1], header, columns, existing, nullValues);
      var k := |rows| - 1;
      if prev.refused then prev
      else if k == 0 && header then LoadRun(prev.inserted, false, k)
      else
        var v := RowValues(|columns|, rows[k], existing, nullValues);
        if Accepts(columns, v) then LoadRun(prev.inserted + [v], false, k)
        else LoadRun(prev.inserted, true, k)
  }

  /** Once a row is refused the parse stops: later rows change nothing. */
  lemma {:induction false} LoadRefusalFinal(rows: seq<Row>, k: nat, header: bool, columns: seq<Column>,
                                            existing: bool, nullValues: seq<Option<string>>)
    requires k <= |rows| && Load(rows[..k], header, columns, existing, nullValues).refused
    ensures Load(rows, header, columns, existing, nullValues) == Load(rows[..k], header, columns, existing, nullValues)
    decreases |rows|
  {
    if k < |rows| {
      var init := rows[..|rows| - 1];
      assert init[..k] == rows[..k];
      LoadRefusalFinal(init, k, header, columns, existing, nullValues);
    } else {
      assert rows[..k] == rows;
    }
  }

  /** The number of leading rows the import skips: the header row, when there is one. */
  function Skip(rows: seq<Row>, header: bool): nat {
    if header && rows != [] then 1 else 0
  }

  /** What the full parse inserts: the data rows, in order, each as RowValues, up to the
      first row the table refuses; lastRowNum is the number of the last row seen. */
  lemma {:induction false} LoadShape(rows: seq<Row>, header: bool, columns: seq<Column>, existing: bool,
                                     nullValues: seq<Option<string>>)
    ensures var run := Load(rows, header, columns, existing, nullValues);
      rows == [] ==> run == LoadRun([], false, 0)
    ensures var run := Load(rows, header, columns, existing, nullValues);
      !run.refused && rows != [] ==> run.lastRowNum == |rows| - 1 && |run.inserted| == |rows| - Skip(rows, header)
    ensures var run := Load(rows, header, columns, existing, nullValues);
      run.refused ==>
        && Skip(rows, header) <= run.lastRowNum < |rows|
        && |run.inserted| == run.lastRowNum - Skip(rows, header)
        && !Accepts(columns, RowValues(|columns|, rows[run.lastRowNum], existing, nullValues))
    ensures var run := Load(rows, header, columns, existing, nullValues);
      forall m :: 0 <= m < |run.inserted| ==>
        m + Skip(rows, header) < |rows|
        && run.inserted[m] == RowValues(|columns|, rows[m + Skip(rows, header)], existing, nullValues)
        && Accepts(columns, run.inserted[m])
    decreases |rows|
  {
    if rows != [] {
      var init := rows[..|rows| - 1];
      LoadShape(init, header, columns, existing, nullValues);
      assert forall j :: 0 <= j < |init| ==> init[j] == rows[j];
      if |rows| == 1 {
        assert init == [];
      }
    }
  }

  /** Into a table of nullable columns, such as one the import creates, no row is refused. */
  lemma {:induction false} NullableTableLoadsAll(rows: seq<Row>, header: bool, columns: seq<Column>,
                                                 existing: bool, nullValues: seq<Option<string>>)
    requires forall j :: 0 <= j < |columns| ==> !columns[j].notNull
    ensures !Load(rows, header, columns, existing, nullValues).refused
    decreases |rows|
  {
    if rows != [] {
      NullableTableLoadsAll(rows[..|rows| - 1], header, columns, existing, nullValues);
    }
  }

  // ---------------------------------------------------------------------------
  // importCsv

  /** The columns of a table created from an inferred field list: untyped and nullable. */
  function TableColumns(fields: seq<Field>): (columns: seq<Column>)
    ensures |columns| == |fields|
    ensures forall j :: 0 <= j < |fields| ==> columns[j] == Column(fields[j].name, false, false)
  {
    seq(|fields|, j requires 0 <= j < |fields| => Column(fields[j].name, false, false))
  }

  /** The store after an import and the warning shown (the Yes/No question is not a warning). */
  datatype Effect = Effect(state: StoreState, warning: Option<string>)

  function TargetTable(dialog: DialogState, fileName: string, name: string): string {
    ChooseTableName(dialog.fileCount, dialog.separateTables, name, fileName, dialog.editName)
  }

  /** The specification of importCsv for one file, decision by decision: the three
      early exits, then the transaction. */
  function Import(st: StoreState, dialog: DialogState, fileName: string, name: string,
                  file: ParseInput, env: Environment): Effect
  {
    var tableName := TargetTable(dialog, fileName, name);
    var fields := FileSchema(file, dialog.header);
    var existing := IsTable(st.objects, tableName);
    if fields == [] then Effect(st, None)
    else if existing && |st.objects[tableName].columns| != |fields| then Effect(st, Some(ColumnCountWarning))
    else if existing && !env.answerYes then Effect(st, None)
    else Transact(st, tableName, fields, existing, file, dialog.header, env)
  }

  /** From the savepoint on: set it, create the table unless importing into an existing
      one, load the rows, and keep the result only when the parse succeeds. */
  function Transact(st: StoreState, tableName: string, fields: seq<Field>, existing: bool,
                    file: ParseInput, header: bool, env: Environment): Effect
    requires existing ==> IsTable(st.objects, tableName)
  {
    if !env.savepointAccepted then
      Effect(st, RollbackWarning(0, "Creating restore point failed: " + st.lastError))
    else if !existing && !(NameFree(st.objects, tableName) && DistinctColumnNames(TableColumns(fields))) then
      Effect(st, RollbackWarning(0, "Creating the table failed: " + st.lastError))
    else
      var columns := if existing then st.objects[tableName].columns else TableColumns(fields);
      var baseRows := if existing then st.objects[tableName].rows else [];
      var nullValues := if existing then NullValues(columns) else [];
      Keep(st, tableName, columns, baseRows, existing, nullValues, file, header, env.restorepointName)
  }

  /** The load into the table and its ending: on success the table holds its old rows
      followed by the loaded ones and the savepoint stays set; otherwise the store is as
      before the savepoint and the warning tells why. */
  function Keep(st: StoreState, tableName: string, columns: seq<Column>, baseRows: seq<seq<Value>>,
                existing: bool, nullValues: seq<Option<string>>, file: ParseInput, header: bool,
                restorepointName: string): Effect
  {
    var run := Load(file.rows, header, columns, existing, nullValues);
    var result := if run.refused then file.onRefusal else file.outcome;
    if result == Success then
      Effect(StoreState(st.objects[tableName := Table(columns, baseRows + run.inserted)],
                        st.savepoints + [Savepoint(restorepointName, st.objects)], st.lastError),
             None)
    else if result == Cancelled then Effect(st, RollbackWarning(0, ""))
    else Effect(st, RollbackWarning(run.lastRowNum, "Inserting row failed: " + st.lastError))
  }

  /** The three early exits return before the savepoint and change nothing: an empty
      field list, an existing table of another width (with a warning), and a No answer.
      Conversely, an import that changes the store had a field list, a savepoint, and
      either no object of the target name or a table of the same width the user agreed
      to import into. */
  lemma EarlyExits(st: StoreState, dialog: DialogState, fileName: string, name: string,
                   file: ParseInput, env: Environment)
    ensures var e := Import(st, dialog, fileName, name, file, env);
      FileSchema(file, dialog.header) == [] ==> e == Effect(st, None)
    ensures var e := Import(st, dialog, fileName, name, file, env);
      var t := TargetTable(dialog, fileName, name);
      (FileSchema(file, dialog.header) != [] && IsTable(st.objects, t)
       && |st.objects[t].columns| != |FileSchema(file, dialog.header)|) ==> e == Effect(st, Some(ColumnCountWarning))
    ensures var e := Import(st, dialog, fileName, name, file, env);
      var t := TargetTable(dialog, fileName, name);
      IsTable(st.objects, t) && !env.answerYes ==> e.state == st
    ensures var e := Import(st, dialog, fileName, name, file, env);
      var t := TargetTable(dialog, fileName, name);
      e.state != st ==>
        && FileSchema(file, dialog.header) != []
        && env.savepointAccepted
        && (t in st.objects ==>
              IsTable(st.objects, t) && |st.objects[t].columns| == |FileSchema(file, dialog.header)| && env.answerYes)
  {
  }

  /** All or nothing: an import either leaves the store exactly as it was, or succeeds
      without a warning, and then changes only the target table, whose rows become its old
      ones (none for a new table) followed by one row per data row of the file, and adds
      one savepoint holding the objects as they were before. */
  lemma AllOrNothing(st: StoreState, dialog: DialogState, fileName: string, name: string,
                     file: ParseInput, env: Environment)
    ensures var e := Import(st, dialog, fileName, name, file, env);
      e.warning.Some? ==> e.state == st
    ensures var e := Import(st, dialog, fileName, name, file, env);
      var t := TargetTable(dialog, fileName, name);
      e.state != st ==>
        && e.warning == None
        && e.state.savepoints == st.savepoints + [Savepoint(env.restorepointName, st.objects)]
        && e.state.lastError == st.lastError
        && e.state.objects.Keys == st.objects.Keys + {t}
        && IsTable(e.state.objects, t)
        && forall other :: other in st.objects && other != t ==> e.state.objects[other] == st.objects[other]
    ensures var e := Import(st, dialog, fileName, name, file, env);
      var t := TargetTable(dialog, fileName, name);
      var run := ParseRun(st, dialog, fileName, name, file);
      e.state != st ==>
        && e.state.objects[t].rows == (if t in st.objects then st.objects[t].rows else []) + run.inserted
        && |e.state.objects[t].rows| == (if t in st.objects then |st.objects[t].rows| else 0)
                                        + |file.rows| - Skip(file.rows, dialog.header)
  {
    ParseOutcome(st, dialog, fileName, name, file, env);
  }

  /** After a changing import, reverting to its savepoint restores the objects as they
      were before it and drops the savepoint. */
  lemma ImportIsRevertible(st: StoreState, dialog: DialogState, fileName: string, name: string,
                           file: ParseInput, env: Environment)
    requires env.restorepointName !in (set sp | sp in st.savepoints :: sp.name)
    ensures var e := Import(st, dialog, fileName, name, file, env);
      var k := LastNamed(e.state.savepoints, env.restorepointName);
      e.state != st ==>
        k == |st.savepoints| && e.state.savepoints[k].snapshot == st.objects && e.state.savepoints[..k] == st.savepoints
  {
    var e := Import(st, dialog, fileName, name, file, env);
    if e.state != st {
      AllOrNothing(st, dialog, fileName, name, file, env);
      assert e.state.savepoints[..|st.savepoints|] == st.savepoints;
    }
  }

  /** The import gets past the early exits, the savepoint and the table creation to
      the full parse: the file has fields, the savepoint is accepted, and the target name
      is either a table of the same width the user agreed to import into, or free and the
      field names are distinct, so that the table can be created. */
  predicate ReachesParse(st: StoreState, dialog: DialogState, fileName: string, name: string,
                         file: ParseInput, env: Environment)
  {
    var t := TargetTable(dialog, fileName, name);
    var fields := FileSchema(file, dialog.header);
    && fields != []
    && env.savepointAccepted
    && if t in st.objects then IsTable(st.objects, t) && |st.objects[t].columns| == |fields| && env.answerYes
       else NameFree(st.objects, t) && DistinctColumnNames(TableColumns(fields))
  }

  /** The columns the rows are loaded into: those of the existing table, or those of
      the table the import creates. */
  function TargetColumns(st: StoreState, t: string, fields: seq<Field>): seq<Column> {
    if IsTable(st.objects, t) then st.objects[t].columns else TableColumns(fields)
  }

  /** The full parse of the file into the target table, as importCsv runs it. */
  function ParseRun(st: StoreState, dialog: DialogState, fileName: string, name: string, file: ParseInput): LoadRun {
    var t := TargetTable(dialog, fileName, name);
    var existing := IsTable(st.objects, t);
    var columns := TargetColumns(st, t, FileSchema(file, dialog.header));
    Load(file.rows, dialog.header, columns, existing, if existing then NullValues(columns) else [])
  }

  /** The parser's result: the result after a refused row, or the one after the last row. */
  function ParseResult(run: LoadRun, file: ParseInput): ParserResult {
    if run.refused then file.onRefusal else file.outcome
  }

  /** The outcome of the full parse decides the import, into a new or an existing table:
      the store changes exactly when the parse is reached and succeeds; a failed parse
      leaves the store as it was; a cancel shows no warning; an error shows the last row
      number seen. */
  lemma ParseOutcome(st: StoreState, dialog: DialogState, fileName: string, name: string,
                     file: ParseInput, env: Environment)
    ensures var e := Import(st, dialog, fileName, name, file, env);
      var result := ParseResult(ParseRun(st, dialog, fileName, name, file), file);
      e.state != st <==> ReachesParse(st, dialog, fileName, name, file, env) && result == Success
    ensures var e := Import(st, dialog, fileName, name, file, env);
      ParseResult(ParseRun(st, dialog, fileName, name, file), file) != Success ==> e.state == st
    ensures var e := Import(st, dialog, fileName, name, file, env);
      (ReachesParse(st, dialog, fileName, name, file, env)
       && ParseResult(ParseRun(st, dialog, fileName, name, file), file) == Cancelled) ==> e == Effect(st, None)
    ensures var e := Import(st, dialog, fileName, name, file, env);
      var run := ParseRun(st, dialog, fileName, name, file);
      ReachesParse(st, dialog, fileName, name, file, env) && ParseResult(run, file) == Error ==>
        e == Effect(st, Some(ErrorText(run.lastRowNum, "Inserting row failed: " + st.lastError)))
    ensures var e := Import(st, dialog, fileName, name, file, env);
      ParseRun(st, dialog, fileName, name, file).refused ==> e.state == st
    ensures var e := Import(st, dialog, fileName, name, file, env);
      var run := ParseRun(st, dialog, fileName, name, file);
      e.state != st ==> !run.refused && |run.inserted| == |file.rows| - Skip(file.rows, dialog.header)
  {
    var e := Import(st, dialog, fileName, name, file, env);
    var run := ParseRun(st, dialog, fileName, name, file);
    var result := ParseResult(run, file);
    if ReachesParse(st, dialog, fileName, name, file, env) && result == Success {
      assert |e.state.savepoints| == |st.savepoints| + 1;
    }
    var t := TargetTable(dialog, fileName, name);
    var existing := IsTable(st.objects, t);
    var columns := TargetColumns(st, t, FileSchema(file, dialog.header));
    LoadShape(file.rows, dialog.header, columns, existing, if existing then NullValues(columns) else []);
  }

  /** The field list of the file "a,a / 1,2" read with a header row repeats the name `a`. */
  lemma DuplicateHeaderSchema(file: ParseInput)
    requires file.rows == [["a", "a"], ["1", "2"]]
    ensures FileSchema(file, true) == [Field("a", ""), Field("a", "")]
  {
    var rows := file.rows;
    assert Sample(rows) == rows;
    HeaderModeNames(rows, true);
    assert KeepValid("a") == "a";
    assert MaxWidth(rows) == 2;
    InferredSchema(rows, true);
  }

  /** So creating the table for that file fails, and the import is reverted with a warning. */
  lemma DuplicateHeaderImportFails(st: StoreState, env: Environment)
    requires "t" !in st.objects && env.savepointAccepted
    ensures var file := ParseInput([["a", "a"], ["1", "2"]], Success, Error);
      Import(st, DialogState(true, false, 1, "t"), "data.csv", "", file, env)
        == Effect(st, Some(ErrorText(0, "Creating the table failed: " + st.lastError)))
  {
    var file := ParseInput([["a", "a"], ["1", "2"]], Success, Error);
    DuplicateHeaderSchema(file);
    var columns := TableColumns([Field("a", ""), Field("a", "")]);
    assert columns[0].name == columns[1].name;
    assert !DistinctColumnNames(columns);
  }

  /** A successful import into a new table: the table has one untyped nullable column per
      inferred field, and one row per data row of the file, in order, each holding the
      row's cells as text, NULL for the cells a short row lacks, and without the cells
      beyond the field count. */
  lemma NewTableContents(st: StoreState, dialog: DialogState, fileName: string, name: string,
                         file: ParseInput, env: Environment)
    requires FileSchema(file, dialog.header) != []
    requires NameFree(st.objects, TargetTable(dialog, fileName, name))
    requires DistinctColumnNames(TableColumns(FileSchema(file, dialog.header)))
    requires env.savepointAccepted && file.outcome == Success
    ensures var e := Import(st, dialog, fileName, name, file, env);
      var t := TargetTable(dialog, fileName, name);
      && e.warning == None
      && t in e.state.objects
      && e.state.objects == st.objects[t := e.state.objects[t]]
      && e.state.objects[t].Table?
      && e.state.objects[t].columns == TableColumns(FileSchema(file, dialog.header))
    ensures var e := Import(st, dialog, fileName, name, file, env);
      var t := TargetTable(dialog, fileName, name);
      t in e.state.objects && e.state.objects[t].Table?
      && RowsFromFile(e.state.objects[t].rows, file.rows, dialog.header, |FileSchema(file, dialog.header)|)
  {
    var fields := FileSchema(file, dialog.header);
    var columns := TableColumns(fields);
    var t := TargetTable(dialog, fileName, name);
    NewTableRows(file.rows, dialog.header, fields);
    NewTableImport(st, dialog, fileName, name, file, env);
    var e := Import(st, dialog, fileName, name, file, env);
    assert e.state.objects[t] == Table(columns, Load(file.rows, dialog.header, columns, false, []).inserted);
  }

  /** The stored rows are the file's data rows, in order, one each, with `width` values
      per row: the cell's text, or NULL for a cell the row lacks. */
  predicate RowsFromFile(stored: seq<seq<Value>>, rows: seq<Row>, header: bool, width: nat) {
    var skip := Skip(rows, header);
    && |stored| == |rows| - skip
    && forall m, j :: 0 <= m < |stored| && 0 <= j < width ==>
         |stored[m]| == width
         && stored[m][j] == (if j < |rows[m + skip]| then Text(rows[m + skip][j]) else Null)
  }

  /** The full parse into a new table refuses no row and loads every data row, each
      with one value per field: the cell's text, or NULL for a cell the row lacks. */
  lemma NewTableRows(rows: seq<Row>, header: bool, fields: seq<Field>)
    ensures !Load(rows, header, TableColumns(fields), false, []).refused
    ensures RowsFromFile(Load(rows, header, TableColumns(fields), false, []).inserted, rows, header, |fields|)
  {
    var columns := TableColumns(fields);
    var run := Load(rows, header, columns, false, []);
    NullableTableLoadsAll(rows, header, columns, false, []);
    LoadShape(rows, header, columns, false, []);
    forall m, j | 0 <= m < |run.inserted| && 0 <= j < |fields|
      ensures |run.inserted[m]| == |fields|
      ensures run.inserted[m][j] == (if j < |rows[m + Skip(rows, header)]| then
                                       Text(rows[m + Skip(rows, header)][j]) else Null)
    {
      assert run.inserted[m] == RowValues(|columns|, rows[m + Skip(rows, header)], false, []);
    }
  }

  /** A successful import into an existing table keeps its rows and appends after them
      rows the table takes: one value per column and no NULL in a NOT NULL column. */
  lemma ExistingTableAppends(st: StoreState, dialog: DialogState, fileName: string, name: string,
                             file: ParseInput, env: Environment)
    requires IsTable(st.objects, TargetTable(dialog, fileName, name))
    ensures var e := Import(st, dialog, fileName, name, file, env);
      var t := TargetTable(dialog, fileName, name);
      && IsTable(e.state.objects, t)
      && e.state.objects[t].columns == st.objects[t].columns
      && st.objects[t].rows <= e.state.objects[t].rows
      && forall m :: |st.objects[t].rows| <= m < |e.state.objects[t].rows| ==>
           Accepts(st.objects[t].columns, e.state.objects[t].rows[m])
  {
    var t := TargetTable(dialog, fileName, name);
    var columns := st.objects[t].columns;
    LoadShape(file.rows, dialog.header, columns, true, NullValues(columns));
  }

  /** A successful import into an existing table appends, after its old rows, the
      loaded rows: one per data row up to the first refused row (all of them when none is
      refused), each with a value per column: the cell's text, the column's substitute for
      an empty cell ("0" under an integer NOT NULL column, NULL under a nullable integer
      column, "" otherwise), and NULL for a cell the row lacks. */
  lemma ExistingTableContents(st: StoreState, dialog: DialogState, fileName: string, name: string,
                              file: ParseInput, env: Environment)
    requires IsTable(st.objects, TargetTable(dialog, fileName, name))
    requires ReachesParse(st, dialog, fileName, name, file, env)
    requires ParseResult(ParseRun(st, dialog, fileName, name, file), file) == Success
    ensures var e := Import(st, dialog, fileName, name, file, env);
      var t := TargetTable(dialog, fileName, name);
      var run := ParseRun(st, dialog, fileName, name, file);
      && e.warning == None
      && t in e.state.objects
      && e.state.objects[t] == Table(st.objects[t].columns, st.objects[t].rows + run.inserted)
    ensures var run := ParseRun(st, dialog, fileName, name, file);
      !run.refused ==> |run.inserted| == |file.rows| - Skip(file.rows, dialog.header)
    ensures var t := TargetTable(dialog, fileName, name);
      var cols := st.objects[t].columns;
      var run := ParseRun(st, dialog, fileName, name, file);
      var skip := Skip(file.rows, dialog.header);
      forall m, j :: 0 <= m < |run.inserted| && 0 <= j < |cols| ==>
        && m + skip < |file.rows|
        && |run.inserted[m]| == |cols|
        && var data := file.rows[m + skip];
           && (j >= |data| ==> run.inserted[m][j] == Null)
           && (j < |data| && data[j] != "" ==> run.inserted[m][j] == Text(data[j]))
           && (j < |data| && data[j] == "" && cols[j].isInteger && cols[j].notNull ==> run.inserted[m][j] == Text("0"))
           && (j < |data| && data[j] == "" && cols[j].isInteger && !cols[j].notNull ==> run.inserted[m][j] == Null)
           && (j < |data| && data[j] == "" && !cols[j].isInteger ==> run.inserted[m][j] == Text(""))
  {
    var t := TargetTable(dialog, fileName, name);
    var cols := st.objects[t].columns;
    LoadShape(file.rows, dialog.header, cols, true, NullValues(cols));
  }

  /** The field list of the file "a,b / 1,2 / 3,4" read with a header row. */
  lemma HeaderFileSchema(file: ParseInput)
    requires file.rows == [["a", "b"], ["1", "2"], ["3", "4"]]
    ensures FileSchema(file, true) == [Field("a", ""), Field("b", "")]
  {
    var rows := file.rows;
    assert Sample(rows) == rows;
    HeaderModeNames(rows, true);
    assert KeepValid("a") == "a" && KeepValid("b") == "b";
    assert MaxWidth(rows) == 2;
    InferredSchema(rows, true);
  }

  /** That file imported with a header row into a new table "t". */
  lemma HeaderFileExample(st: StoreState, env: Environment)
    requires NameFree(st.objects, "t") && env.savepointAccepted
    ensures var file := ParseInput([["a", "b"], ["1", "2"], ["3", "4"]], Success, Error);
      var e := Import(st, DialogState(true, false, 1, "t"), "data.csv", "", file, env);
      "t" in e.state.objects && e.warning == None
      && e.state.objects["t"] == Table([Column("a", false, false), Column("b", false, false)],
                                       [[Text("1"), Text("2")], [Text("3"), Text("4")]])
  {
    var file := ParseInput([["a", "b"], ["1", "2"], ["3", "4"]], Success, Error);
    var fields := [Field("a", ""), Field("b", "")];
    HeaderFileSchema(file);
    HeaderFileLoad();
    var columns := TableColumns(fields);
    assert columns == [Column("a", false, false), Column("b", false, false)];
    assert Lower(columns[0].name)[0] == 'a' && Lower(columns[1].name)[0] == 'b';
    NewTableImport(st, DialogState(true, false, 1, "t"), "data.csv", "", file, env);
  }

  /** An import into a free name whose parse succeeds, in closed form: the store gains
      the new table holding the loaded rows and one savepoint, and no warning is shown. */
  lemma NewTableImport(st: StoreState, dialog: DialogState, fileName: string, name: string,
                       file: ParseInput, env: Environment)
    requires var t := TargetTable(dialog, fileName, name);
      var fields := FileSchema(file, dialog.header);
      var run := Load(file.rows, dialog.header, TableColumns(fields), false, []);
      && fields != [] && env.savepointAccepted && NameFree(st.objects, t)
      && DistinctColumnNames(TableColumns(fields))
      && ParseResult(run, file) == Success
    ensures var t := TargetTable(dialog, fileName, name);
      var columns := TableColumns(FileSchema(file, dialog.header));
      var run := Load(file.rows, dialog.header, columns, false, []);
      Import(st, dialog, fileName, name, file, env)
        == Effect(StoreState(st.objects[t := Table(columns, run.inserted)],
                             st.savepoints + [Savepoint(env.restorepointName, st.objects)], st.lastError),
                  None)
  {
    var t := TargetTable(dialog, fileName, name);
    assert Lower(t) == Lower(t);
    assert t !in st.objects;
    var run := Load(file.rows, dialog.header, TableColumns(FileSchema(file, dialog.header)), false, []);
    assert [] + run.inserted == run.inserted;
  }

  /** The full parse of that file into the new table: row 0 is the header, and the two
      data rows are loaded as text, in order. */
  lemma HeaderFileLoad()
    ensures Load([["a", "b"], ["1", "2"], ["3", "4"]], true, [Column("a", false, false), Column("b", false, false)], false, [])
      == LoadRun([[Text("1"), Text("2")], [Text("3"), Text("4")]], false, 2)
  {
    var rows: seq<Row> := [["a", "b"], ["1", "2"], ["3", "4"]];
    var columns := [Column("a", false, false), Column("b", false, false)];
    assert rows[..1] == [["a", "b"]] && rows[..2] == [["a", "b"], ["1", "2"]];
    assert rows[..1][..0] == [] && rows[..2][..1] == rows[..1];
    assert RowValues(2, rows[1], false, []) == [Text("1"), Text("2")];
    assert RowValues(2, rows[2], false, []) == [Text("3"), Text("4")];
    assert Load(rows[..1], true, columns, false, []) == LoadRun([], false, 0);
    assert Load(rows[..2], true, columns, false, []) == LoadRun([[Text("1"), Text("2")]], false, 1);
  }

  /** An empty cell imported into an existing "id INTEGER NOT NULL, name TEXT" table
      becomes "0" rather than a NULL the table would refuse. */
  lemma ExistingTableExample(st: StoreState, env: Environment)
    requires st.objects == map["p" := Table([Column("id", true, true), Column("name", false, false)], [])]
    requires env.savepointAccepted && env.answerYes
    ensures var file := ParseInput([["", "bob"]], Success, Error);
      var e := Import(st, DialogState(false, false, 1, "p"), "people.csv", "", file, env);
      "p" in e.state.objects && e.warning == None
      && e.state.objects["p"] == Table([Column("id", true, true), Column("name", false, false)],
                                       [[Text("0"), Text("bob")]])
  {
    var rows: seq<Row> := [["", "bob"]];
    assert Sample(rows) == rows;
    InferredSchema(rows, false);
    assert MaxWidth(rows) == 2;
    var columns := [Column("id", true, true), Column("name", false, false)];
    var v := RowValues(2, rows[0], true, NullValues(columns));
    assert v == [Text("0"), Text("bob")];
    assert Load(rows, false, columns, true, NullValues(columns)) == LoadRun([v], false, 0);
  }

  /** A row the table refuses undoes the whole file, including the rows before it: the
      empty second row of this file has no value for a NOT NULL column, so the first row
      is not kept either, whichever result the parser reports after the refusal. */
  lemma RefusedRowRevertsFile(st: StoreState, env: Environment, r: RefusalResult)
    requires st.objects == map["p" := Table([Column("id", true, true)], [])]
    requires env.savepointAccepted && env.answerYes
    ensures var file := ParseInput([["1"], [], ["2"]], Success, r);
      var e := Import(st, DialogState(false, false, 1, "p"), "ids.csv", "", file, env);
      && e.state == st
      && (r == Cancelled ==> e.warning == None)
      && (r == Error ==> e.warning == Some(ErrorText(1, "Inserting row failed: " + st.lastError)))
  {
    var rows: seq<Row> := [["1"], [], ["2"]];
    assert Sample(rows) == rows;
    InferredSchema(rows, false);
    assert MaxWidth(rows) == 1;
    RefusedRowLoad();
  }

  /** The full parse of that file into "p": row 0 is taken, row 1 is refused, and row 2
      is never reached. */
  lemma RefusedRowLoad()
    ensures var columns := [Column("id", true, true)];
      Load([["1"], [], ["2"]], false, columns, true, NullValues(columns)) == LoadRun([[Text("1")]], true, 1)
  {
    var rows: seq<Row> := [["1"], [], ["2"]];
    var columns := [Column("id", true, true)];
    var nulls := NullValues(columns);
    assert RowValues(1, rows[0], true, nulls) == [Text("1")];
    assert RowValues(1, rows[1], true, nulls) == [Null];
    assert rows[..1] == [["1"]] && rows[..2] == [["1"], []];
    assert rows[..1][..0] == [] && rows[..2][..1] == rows[..1];
    assert Accepts(columns, [Text("1")]);
    assert columns[0].notNull && [Null][0] == Null;
    assert Load(rows[..1], false, columns, true, nulls) == LoadRun([[Text("1")]], false, 0);
    assert Load(rows[..2], false, columns, true, nulls) == LoadRun([[Text("1")]], true, 1);
    LoadRefusalFinal(rows, 2, false, columns, true, nulls);
  }

  /** Table names are compared without regard to ASCII case when a table is created: with
      a table "t" present, importing into "T" is not an import into "t" (the lookup is
      exact) and creating "T" fails, so the import is reverted with a warning. */
  lemma CaseCollisionFails(st: StoreState, env: Environment)
    requires "t" in st.objects && "T" !in st.objects && env.savepointAccepted
    ensures var file := ParseInput([["1"]], Success, Error);
      Import(st, DialogState(false, false, 1, "T"), "data.csv", "", file, env)
        == Effect(st, Some(ErrorText(0, "Creating the table failed: " + st.lastError)))
  {
    var rows: seq<Row> := [["1"]];
    assert Sample(rows) == rows;
    InferredSchema(rows, false);
    assert MaxWidth(rows) == 1;
    assert Lower("t") == Lower("T");
  }

  lemma FreshNameNotFound(savepoints: seq<Savepoint>, name: string)
    requires name !in (set sp | sp in savepoints :: sp.name)
    ensures LastNamed(savepoints, name) == -1
  {
    forall j | 0 <= j < |savepoints| ensures savepoints[j].name != name {
      assert savepoints[j] in savepoints;
    }
  }

  /** The full parse (parseCSV without a row cap) with importCsv's row function: rows are
      handed over in order until one is refused; lastRowNum is the last row number seen. */
  method ParseAndInsert(db: Database, stmt: Statement, file: ParseInput, header: bool, existing: bool,
                        nullValues: seq<Option<string>>) returns (refused: bool, lastRowNum: nat)
    requires stmt.Cleared() && IsTable(db.objects, stmt.table)
    requires stmt.params.Length == |db.objects[stmt.table].columns|
    modifies db, stmt.params
    ensures var run := Load(file.rows, header, old(db.objects)[stmt.table].columns, existing, nullValues);
      && refused == run.refused && lastRowNum == run.lastRowNum
      && db.objects == old(db.objects)[stmt.table := Table(old(db.objects)[stmt.table].columns,
                                                          old(db.objects)[stmt.table].rows + run.inserted)]
    ensures db.savepoints == old(db.savepoints) && db.lastError == old(db.lastError)
  {
    ghost var start := db.objects;
    ghost var columns := start[stmt.table].columns;
    ghost var baseRows := start[stmt.table].rows;
    lastRowNum := 0;
    refused := false;
    var rowNum := 0;
    assert file.rows[..0] == [];
    assert baseRows + [] == baseRows;
    assert start[stmt.table := Table(columns, baseRows)] == start;
    while rowNum < |file.rows| && !refused
      invariant rowNum <= |file.rows|
      invariant Load(file.rows[..rowNum], header, columns, existing, nullValues)
        == LoadRun(Load(file.rows[..rowNum], header, columns, existing, nullValues).inserted, refused, lastRowNum)
      invariant db.objects == start[stmt.table := Table(columns, baseRows
        + Load(file.rows[..rowNum], header, columns, existing, nullValues).inserted)]
      invariant !refused ==> stmt.Cleared()
      invariant db.savepoints == old(db.savepoints) && db.lastError == old(db.lastError)
    {
      ghost var before := Load(file.rows[..rowNum], header, columns, existing, nullValues);
      lastRowNum := rowNum;
      var proceed := ImportRow(stmt, db, rowNum, file.rows[rowNum], header, existing, nullValues);
      refused := !proceed;
      assert file.rows[..rowNum + 1][..rowNum] == file.rows[..rowNum];
      assert file.rows[..rowNum + 1][rowNum] == file.rows[rowNum];
      ghost var v := RowValues(|columns|, file.rows[rowNum], existing, nullValues);
      if !(rowNum == 0 && header) && proceed {
        ghost var mid := start[stmt.table := Table(columns, baseRows + before.inserted)];
        assert (baseRows + before.inserted) + [v] == baseRows + (before.inserted + [v]);
        assert AppendRow(mid, stmt.table, v) == start[stmt.table := Table(columns, baseRows + (before.inserted + [v]))];
      }
      rowNum := rowNum + 1;
    }
    if refused {
      LoadRefusalFinal(file.rows, rowNum, header, columns, existing, nullValues);
    } else {
      assert file.rows[..rowNum] == file.rows;
    }
  }

  /** importCsv for one file. The parse of the file is `file`; escapeIdentifier is the
      parameter `escape`. */
  method ImportCsv(db: Database, dialog: DialogState, fileName: string, name: string,
                   file: ParseInput, env: Environment, escape: string -> string)
    returns (warning: Option<string>)
    requires env.restorepointName !in db.SavepointNames()
    modifies db
    ensures db.State() == Import(old(db.State()), dialog, fileName, name, file, env).state
    ensures warning == Import(old(db.State()), dialog, fileName, name, file, env).warning
  {
    var tableName := ChooseTableName(dialog.fileCount, dialog.separateTables, name, fileName, dialog.editName);

    var fieldList := GenerateFieldList(file, dialog.header);
    if |fieldList| == 0 {
      return None;
    }

    var importToExistingTable := false;
    if IsTable(db.objects, tableName) {
      if |db.objects[tableName].columns| != |fieldList| {
        return Some(ColumnCountWarning);
      } else {
        if env.answerYes {
          importToExistingTable := true;
        } else {
          return None;
        }
      }
    }

    warning := ImportWithSavepoint(db, tableName, fieldList, importToExistingTable, file, dialog.header, env, escape);
  }

  /** The part of importCsv from the savepoint to the table being ready. */
  method ImportWithSavepoint(db: Database, tableName: string, fieldList: seq<Field>, importToExistingTable: bool,
                             file: ParseInput, header: bool, env: Environment, escape: string -> string)
    returns (warning: Option<string>)
    requires env.restorepointName !in db.SavepointNames()
    requires importToExistingTable ==> IsTable(db.objects, tableName) && |db.objects[tableName].columns| == |fieldList|
    modifies db
    ensures db.State() == Transact(old(db.State()), tableName, fieldList, importToExistingTable, file, header, env).state
    ensures warning == Transact(old(db.State()), tableName, fieldList, importToExistingTable, file, header, env).warning
  {
    ghost var st := db.State();
    var restorepointName := env.restorepointName;
    FreshNameNotFound(db.savepoints, restorepointName);
    var ok := db.SetSavepoint(restorepointName, env.savepointAccepted);
    if !ok {
      warning := Rollback(db, restorepointName, 0, "Creating restore point failed: " + db.lastError);
      return;
    }

    var nullValues: seq<Option<string>> := [];
    ghost var columns, baseRows;
    if !importToExistingTable {
      columns, baseRows := TableColumns(fieldList), [];
      ok := db.CreateTable(tableName, TableColumns(fieldList));
      if !ok {
        assert LastNamed(db.savepoints, restorepointName) == |st.savepoints|;
        warning := Rollback(db, restorepointName, 0, "Creating the table failed: " + db.lastError);
        return;
      }
    } else {
      columns, baseRows := db.objects[tableName].columns, db.objects[tableName].rows;
      assert st.objects[tableName := Table(columns, baseRows)] == st.objects;
      nullValues := BuildNullValues(db.objects[tableName].columns);
    }
    warning := LoadAndCommit(db, tableName, |fieldList|, importToExistingTable, nullValues, file, header,
                             restorepointName, escape, st, columns, baseRows);
  }

  /** The part of importCsv from preparing the INSERT statement on: the store holds the
      savepoint on top of the state `st` and the target table. */
  method LoadAndCommit(db: Database, tableName: string, n: nat, existing: bool, nullValues: seq<Option<string>>,
                       file: ParseInput, header: bool, restorepointName: string, escape: string -> string,
                       ghost st: StoreState, ghost columns: seq<Column>, ghost baseRows: seq<seq<Value>>)
    returns (warning: Option<string>)
    requires LastNamed(st.savepoints, restorepointName) == -1
    requires db.savepoints == st.savepoints + [Savepoint(restorepointName, st.objects)]
    requires db.objects == st.objects[tableName := Table(columns, baseRows)] && db.lastError == st.lastError
    requires |columns| == n
    modifies db
    ensures db.State() == Keep(st, tableName, columns, baseRows, existing, nullValues, file, header, restorepointName).state
    ensures warning == Keep(st, tableName, columns, baseRows, existing, nullValues, file, header, restorepointName).warning
  {
    assert LastNamed(db.savepoints, restorepointName) == |st.savepoints|;
    var query := BuildInsertQuery(escape(tableName), n);
    var stmt := new Statement.Prepare(query, tableName, n);

    var refused, lastRowNum := ParseAndInsert(db, stmt, file, header, existing, nullValues);

    var result := if refused then file.onRefusal else file.outcome;
    if result != Success {
      if result == Cancelled {
        warning := Rollback(db, restorepointName, 0, "");
      } else {
        warning := Rollback(db, restorepointName, lastRowNum, "Inserting row failed: " + db.lastError);
      }
      return;
    }
    warning := None;
  }
}
