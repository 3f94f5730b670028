/** The table store the importer drives (DBBrowserDB and SQLite), reduced to what the
    import needs: named objects, a stack of savepoints, the last error text, and a
    prepared INSERT statement with one binding slot per placeholder. */
module Store {

  /** A bound or stored value: SQL NULL or text. */
  datatype Value = Null | Text(text: string)

  /** A column of a table: its name, whether its type is an integer type, and NOT NULL. */
  datatype Column = Column(name: string, isInteger: bool, notNull: bool)

  /** A schema object: a table with its columns and rows, or any other kind (view, index, trigger). */
  datatype DbObject = Table(columns: seq<Column>, rows: seq<seq<Value>>) | OtherObject

  /** A savepoint and the objects as they were when it was set. */
  datatype Savepoint = Savepoint(name: string, snapshot: map<string, DbObject>)

  datatype StoreState = StoreState(objects: map<string, DbObject>, savepoints: seq<Savepoint>, lastError: string)

  /** SQLite's ASCII-only case folding of identifiers. */
  function LowerAscii(c: char): (r: char)
    ensures 'A' <= c <= 'Z' ==> r as int == c as int + 32
    ensures !('A' <= c <= 'Z') ==> r == c
  {
    if 'A' <= c <= 'Z' then (c as int + 32) as char else c
  }

  function Lower(s: string): (r: string)
    ensures |r| == |s| && forall i :: 0 <= i < |s| ==> r[i] == LowerAscii(s[i])
  {
    seq(|s|, i requires 0 <= i < |s| => LowerAscii(s[i]))
  }

  /** No two columns share a name, comparing names without regard to ASCII case: SQLite
      refuses a CREATE TABLE that repeats a column name. */
  predicate DistinctColumnNames(columns: seq<Column>) {
    forall i, j :: 0 <= i < j < |columns| ==> Lower(columns[i].name) != Lower(columns[j].name)
  }

  /** No object's name equals `name` without regard to ASCII case: SQLite refuses to create
      a table under a name that an existing table, view or index has in any case. */
  predicate NameFree(objects: map<string, DbObject>, name: string) {
    forall k :: k in objects ==> Lower(k) != Lower(name)
  }

  /** A name free in every case is in particular not taken as written. */
  lemma NameFreeAbsent(objects: map<string, DbObject>, name: string)
    requires NameFree(objects, name)
    ensures name !in objects
  {
    assert Lower(name) == Lower(name);
  }

  predicate IsTable(objects: map<string, DbObject>, name: string) {
    name in objects && objects[name].Table?
  }

  /** Whether a table with these columns takes a row of these values: one value per
      column, and no NULL in a NOT NULL column. */
  predicate Accepts(columns: seq<Column>, values: seq<Value>) {
    |values| == |columns| && forall j :: 0 <= j < |columns| ==> !(columns[j].notNull && values[j] == Null)
  }

  /** The objects after appending a row to table `name`. */
  function AppendRow(objects: map<string, DbObject>, name: string, values: seq<Value>): (r: map<string, DbObject>)
    requires IsTable(objects, name)
    ensures r.Keys == objects.Keys
    ensures r[name] == Table(objects[name].columns, objects[name].rows + [values])
    ensures forall other :: other in objects && other != name ==> r[other] == objects[other]
  {
    objects[name := Table(objects[name].columns, objects[name].rows + [values])]
  }

  /** The position of the most recent savepoint called `name`, if any. */
  function LastNamed(savepoints: seq<Savepoint>, name: string): (k: int)
    ensures -1 <= k < |savepoints|
    ensures k >= 0 ==> savepoints[k].name == name
    ensures forall j :: k < j < |savepoints| ==> savepoints[j].name != name
  {
    if savepoints == [] then -1
    else if savepoints[|savepoints| - 1].name == name then |savepoints| - 1
    else LastNamed(savepoints[..|savepoints| - 1], name)
  }

  class Database {
    var objects: map<string, DbObject>
    var savepoints: seq<Savepoint>
    var lastError: string

    function State(): StoreState
      reads this
    {
      StoreState(objects, savepoints, lastError)
    }

    function SavepointNames(): set<string>
      reads this
    {
      set sp | sp in savepoints :: sp.name
    }

    constructor (objects: map<string, DbObject>, lastError: string)
      ensures State() == StoreState(objects, [], lastError)
    {
      this.objects := objects;
      this.savepoints := [];
      this.lastError := lastError;
    }

    /** setSavepoint: whether the engine accepts the savepoint is not modelled and is
        given as `accepted`; an accepted savepoint records the current objects. */
    method SetSavepoint(name: string, accepted: bool) returns (ok: bool)
      modifies this
      ensures ok == accepted
      ensures objects == old(objects) && lastError == old(lastError)
      ensures savepoints == if ok then old(savepoints) + [Savepoint(name, old(objects))] else old(savepoints)
    {
      ok := accepted;
      if ok {
        savepoints := savepoints + [Savepoint(name, objects)];
      }
    }

    /** revertToSavepoint: undo everything since the most recent savepoint of that name
        and drop it and the savepoints above it; nothing happens for an unknown name. */
    method RevertToSavepoint(name: string)
      modifies this
      ensures lastError == old(lastError)
      ensures var k := LastNamed(old(savepoints), name);
        if k < 0 then objects == old(objects) && savepoints == old(savepoints)
        else objects == old(savepoints)[k].snapshot && savepoints == old(savepoints)[..k]
    {
      var k := LastNamed(savepoints, name);
      if k >= 0 {
        objects := savepoints[k].snapshot;
        savepoints := savepoints[..k];
      }
    }

    /** createTable: a new, empty table; it fails when an object's name equals the new one
        without regard to ASCII case, or when the column list repeats a name. */
    method CreateTable(name: string, columns: seq<Column>) returns (ok: bool)
      modifies this
      ensures ok == (NameFree(old(objects), name) && DistinctColumnNames(columns))
      ensures objects == if ok then old(objects)[name := Table(columns, [])] else old(objects)
      ensures savepoints == old(savepoints) && lastError == old(lastError)
    {
      ok := NameFree(objects, name) && DistinctColumnNames(columns);
      if ok {
        objects := objects[name := Table(columns, [])];
      }
    }
  }

  /** A prepared INSERT statement: the SQL text, the table it writes and one binding slot
      per placeholder. An unbound slot holds NULL. */
  class Statement {
    const sql: string
    const table: string
    const params: array<Value>

    /** All bindings are NULL, as after preparing or clearing the bindings. */
    predicate Cleared()
      reads params
    {
      forall j :: 0 <= j < params.Length ==> params[j] == Null
    }

    constructor Prepare(sql: string, table: string, n: nat)
      ensures this.sql == sql && this.table == table
      ensures fresh(params) && params.Length == n && Cleared()
    {
      this.sql := sql;
      this.table := table;
      params := new Value[n](_ => Null);
    }

    /** sqlite3_bind_text with a 1-based index; an index outside 1..n changes nothing. */
    method BindText(index: int, text: string)
      modifies params
      ensures 1 <= index <= params.Length ==> params[..] == old(params[..])[index - 1 := Text(text)]
      ensures !(1 <= index <= params.Length) ==> params[..] == old(params[..])
    {
      if 1 <= index <= params.Length {
        params[index - 1] := Text(text);
      }
    }

    /** sqlite3_step: append the bound values to the table when it takes them. */
    method Step(db: Database) returns (done: bool)
      modifies db
      ensures done == (IsTable(old(db.objects), table) && Accepts(old(db.objects)[table].columns, params[..]))
      ensures db.objects == if done then AppendRow(old(db.objects), table, params[..]) else old(db.objects)
      ensures db.savepoints == old(db.savepoints) && db.lastError == old(db.lastError)
    {
      done := IsTable(db.objects, table) && Accepts(db.objects[table].columns, params[..]);
      if done {
        db.objects := AppendRow(db.objects, table, params[..]);
      }
    }

    /** sqlite3_clear_bindings: every slot back to NULL. */
    method ClearBindings()
      modifies params
      ensures Cleared()
    {
      var j := 0;
      while j < params.Length
        invariant 0 <= j <= params.Length
        invariant forall m :: 0 <= m < j ==> params[m] == Null
      {
        params[j] := Null;
        j := j + 1;
      }
    }
  }
}
