/**
 The string store simulates a plain database: a catalog of column lists and a map from primary
 key to row. Every statement, and a restart of the process, takes related states to related
 states and answers the same.
 */
module Refinement {
  import opened Common
  import opened Schema
  import opened StringUtils
  import opened KvStore
  import opened Order
  import opened Keys
  import opened Engine

  datatype RowId = RowId(db: string, table: string, key: string)

  /** The plain database. */
  datatype Abs = Abs(
    catalog: map<string, map<string, seq<Column>>>, rows: map<RowId, seq<string>>, cur: string)

  datatype Op =
    | NewDb(db: string)
    | Use(db: string)
    | NewTable(table: string, cols: seq<Column>)
    | InsertRow(table: string, row: seq<Cell>)
    | UpdateRow(table: string, col: string, val: string, key: string)
    | DeleteRow(table: string, key: string)
    | SelectRow(table: string, key: string)
    | Restart

  /** The number of affected rows, a result set, a missing table, or a process that died. */
  datatype Answer = Affected(n: nat) | Rows(rows: seq<seq<Field>>) | NoTable | Died

  /** Which column of each table is its primary key. */
  type KeyCols = (string, string) -> nat

  // ---------------------------------------------------------------- the store

  predicate HasTable(s: State, table: string) { s.cur in s.dbs && table in s.dbs[s.cur] }

  /** The statement stays inside its vectors; outside, the source's behaviour is undefined. */
  predicate Defined(s: State, op: Op) {
    match op
    case NewTable(_, _) => s.cur in s.dbs
    case InsertRow(table, row) => HasTable(s, table) ==> Placeable(s.dbs[s.cur][table], row)
    case UpdateRow(table, col, _, key) => HasTable(s, table) ==> Updatable(s, table, col, key)
    case _ => true
  }

  ghost function Do(s: State, op: Op): (State, Answer)
    requires Defined(s, op)
  {
    match op
    case NewDb(db) => (CreateDb(s, db), Affected(0))
    case Use(db) => (UseDb(s, db), Affected(0))
    case NewTable(table, cols) => (CreateTable(s, table, cols), Affected(1))
    case InsertRow(table, row) =>
      if !HasTable(s, table) then (s, NoTable)
      else (Insert(s, table, row), Affected(if row == [] then 0 else 1))
    case UpdateRow(table, col, val, key) =>
      if !HasTable(s, table) then (s, NoTable)
      else (Update(s, table, col, val, key), Affected(if DataKey(s.cur, table, key) in s.data then 1 else 0))
    case DeleteRow(table, key) =>
      if !HasTable(s, table) then (s, NoTable) else (Delete(s, table, key), Affected(1))
    case SelectRow(table, key) =>
      if !HasTable(s, table) then (s, NoTable) else (s, Rows(SelectEquals(s, table, key)))
    case Restart =>
      match Recover(s.data) case Some(s') => (s', Affected(0)) case None => (s, Died)
  }

  // ---------------------------------------------------------------- the plain database

  function IndexIn(cols: seq<Column>, name: string): (i: nat)
    ensures i <= |cols| && (i < |cols| ==> cols[i].name == name)
  {
    if cols == [] || cols[0].name == name then 0 else 1 + IndexIn(cols[1..], name)
  }

  function ValueOf(row: seq<Cell>, name: string): string {
    if row == [] then "" else if row[0].col == name then row[0].val else ValueOf(row[1..], name)
  }

  /** The row in the table's column order. */
  function RowOf(cols: seq<Column>, row: seq<Cell>): (vals: seq<string>)
    ensures |vals| == |cols|
  {
    seq(|cols|, j requires 0 <= j < |cols| => ValueOf(row, cols[j].name))
  }

  function FieldsOf(cols: seq<Column>, vals: seq<string>): seq<Field> {
    seq(|cols|, j requires 0 <= j < |cols| => Field(cols[j].name, cols[j].ty, if j < |vals| then vals[j] else ""))
  }

  /** The greatest name, which is the last database a recovery scan meets. */
  ghost predicate IsGreatest(db: string, dbs: set<string>) {
    db in dbs && forall d :: d in dbs && d != db ==> Less(d, db)
  }

  lemma GreatestExists(dbs: set<string>)
    requires dbs != {}
    ensures exists db :: IsGreatest(db, dbs)
  {
    var order := InOrder(dbs);
    var d :| d in dbs;
    assert d in order;
    assert IsGreatest(order[|order| - 1], dbs);
  }

  lemma GreatestUnique(d1: string, d2: string, dbs: set<string>)
    requires IsGreatest(d1, dbs) && IsGreatest(d2, dbs)
    ensures d1 == d2
  {
    LessTotal(d1, d2);
  }

  ghost function Greatest(dbs: set<string>): (db: string)
    requires dbs != {}
    ensures IsGreatest(db, dbs)
  {
    GreatestExists(dbs);
    var db :| IsGreatest(db, dbs);
    db
  }

  function Tables(a: Abs): map<string, seq<Column>> { if a.cur in a.catalog then a.catalog[a.cur] else map[] }

  ghost function AbsDo(a: Abs, op: Op): (Abs, Answer) {
    match op
    case NewDb(db) => (a.(catalog := InsertNew(a.catalog, db, map[])), Affected(0))
    case Use(db) => (if db in a.catalog then a.(cur := db) else a, Affected(0))
    case NewTable(table, cols) => (a.(catalog := a.catalog[a.cur := Tables(a)[table := cols]]), Affected(1))
    case Restart => (if a.catalog.Keys == {} then a else a.(cur := Greatest(a.catalog.Keys)), Affected(0))
    case _ => if op.table !in Tables(a) then (a, NoTable) else RowDo(a, op, Tables(a)[op.table])
  }

  function RowDo(a: Abs, op: Op, cols: seq<Column>): (Abs, Answer)
    requires op.InsertRow? || op.UpdateRow? || op.DeleteRow? || op.SelectRow?
  {
    match op
    case InsertRow(table, row) =>
      if row == [] then (a, Affected(0))
      else (a.(rows := a.rows[RowId(a.cur, table, row[0].val) := RowOf(cols, row)]), Affected(1))
    case UpdateRow(table, col, val, key) =>
      var id, i := RowId(a.cur, table, key), IndexIn(cols, col);
      if id !in a.rows then (a, Affected(0)) else
      var vals := a.rows[id];
      (a.(rows := a.rows[id := if i < |vals| then vals[i := val] else vals]), Affected(1))
    case DeleteRow(table, key) => (a.(rows := a.rows - {RowId(a.cur, table, key)}), Affected(1))
    case SelectRow(table, key) =>
      var id := RowId(a.cur, table, key);
      (a, Rows(if id !in a.rows then [] else [FieldsOf(cols, a.rows[id])]))
  }

  // ---------------------------------------------------------------- what callers must respect

  predicate SchemaOk(cols: seq<Column>) {
    cols != [] && Distinct(cols) && forall i :: 0 <= i < |cols| ==> Free(cols[i].name)
  }

  /** The INSERT lists distinct columns of the table, as many as the table has. */
  predicate Permutes(cols: seq<Column>, row: seq<Cell>) {
    && |row| == |cols|
    && (forall i, j :: 0 <= i < j < |row| ==> row[i].col != row[j].col)
    && (forall i :: 0 <= i < |row| ==> IndexIn(cols, row[i].col) < |cols|)
  }

  predicate Enabled(a: Abs, op: Op, pk: KeyCols) {
    var tables := Tables(a);
    match op
    case NewDb(db) => NoUnderscore(db)
    case NewTable(table, cols) => table !in tables && Plain(table) && SchemaOk(cols)
    case InsertRow(table, row) =>
      table in tables ==>
        var cols, k := tables[table], pk(a.cur, table);
        && Permutes(cols, row) && k < |cols| && row[0].col == cols[k].name
        && Clean(RowOf(cols, row))
    case UpdateRow(table, col, val, key) =>
      (table in tables && RowId(a.cur, table, key) in a.rows) ==>
        var cols := tables[table];
        var i := IndexIn(cols, col);
        i < |cols| && i != pk(a.cur, table) && CleanCell(val, i == |cols| - 1)
    case _ => true
  }

  // ---------------------------------------------------------------- the relation

  ghost predicate DbRel(tables: map<string, Table>, catalog: map<string, seq<Column>>) {
    && tables.Keys == catalog.Keys
    && forall t :: t in catalog ==> Plain(t) && SchemaOk(catalog[t]) && tables[t] == MakeTable(t, catalog[t])
  }

  /** The catalog in memory. */
  ghost predicate MemoryRel(s: State, a: Abs) {
    && s.cur == a.cur && a.cur in a.catalog && s.dbs.Keys == a.catalog.Keys
    && forall d :: d in a.catalog ==> NoUnderscore(d) && DbRel(s.dbs[d], a.catalog[d])
  }

  /** What the plain database has to be stored under a key. */
  function Content(a: Abs, key: Key): Option<string> {
    match key
    case OfDb(d) => if d in a.catalog then Some(d) else None
    case OfTable(d, t) => if d in a.catalog && t in a.catalog[d] then Some(Encode(a.catalog[d][t])) else None
    case OfRow(d, t, k) =>
      var id := RowId(d, t, k);
      if id in a.rows then Some(Join(a.rows[id], SEP)) else None
  }

  function Get(data: map<string, string>, k: string): Option<string> {
    if k in data then Some(data[k]) else None
  }

  /** The store holds exactly the contents of the plain database, and else only keys of no kind. */
  ghost predicate Stored(data: map<string, string>, a: Abs) {
    && (forall key {:trigger Text(key)} :: Good(key) ==> Get(data, Text(key)) == Content(a, key))
    && (forall k :: k in data && Ours(k) ==> IsText(k))
  }

  /** A row is a clean row of its table, and its key column is its key. */
  predicate RowOk(a: Abs, id: RowId, pk: KeyCols)
    requires id in a.rows
  {
    && id.db in a.catalog && id.table in a.catalog[id.db]
    && Clean(a.rows[id]) && |a.rows[id]| == |a.catalog[id.db][id.table]|
    && pk(id.db, id.table) < |a.rows[id]| && a.rows[id][pk(id.db, id.table)] == id.key
  }

  ghost predicate Rel(s: State, a: Abs, pk: KeyCols) {
    && MemoryRel(s, a) && Stored(s.data, a)
    && forall id :: id in a.rows ==> RowOk(a, id, pk)
  }

  // ---------------------------------------------------------------- columns and rows

  lemma {:induction false} IndexInFinds(cols: seq<Column>, i: nat)
    requires i < |cols| && Distinct(cols)
    ensures IndexIn(cols, cols[i].name) == i
  {
    if i > 0 {
      assert cols[0].name != cols[i].name;
      assert Distinct(cols[1..]);
      IndexInFinds(cols[1..], i - 1);
    }
  }

  lemma IndexMapIsIndexIn(cols: seq<Column>, name: string)
    requires Distinct(cols)
    ensures name in IndexesOf(cols) <==> IndexIn(cols, name) < |cols|
    ensures name in IndexesOf(cols) ==> IndexesOf(cols)[name] == IndexIn(cols, name)
  {
    IndexesKnow(cols);
    if name in IndexesOf(cols) { IndexInFinds(cols, IndexesOf(cols)[name]); }
    if IndexIn(cols, name) < |cols| { assert cols[IndexIn(cols, name)].name == name; }
  }

  lemma {:induction false} TypeMapKnows(cols: seq<Column>, i: nat)
    requires i < |cols| && Distinct(cols)
    ensures cols[i].name in TypesOf(cols) && TypesOf(cols)[cols[i].name] == cols[i].ty
  {
    if i < |cols| - 1 {
      assert Distinct(cols[..|cols| - 1]);
      TypeMapKnows(cols[..|cols| - 1], i);
    }
  }

  lemma {:induction false} ValueOfFinds(row: seq<Cell>, i: nat)
    requires i < |row| && forall j, k :: 0 <= j < k < |row| ==> row[j].col != row[k].col
    ensures ValueOf(row, row[i].col) == row[i].val
  {
    if i > 0 {
      assert row[0].col != row[i].col;
      ValueOfFinds(row[1..], i - 1);
    }
  }

  lemma {:induction false} ValueOfMisses(row: seq<Cell>, name: string)
    requires forall i :: 0 <= i < |row| ==> row[i].col != name
    ensures ValueOf(row, name) == ""
  {
    if row != [] { ValueOfMisses(row[1..], name); }
  }

  /** Placing the cells one by one through the index map gives the row in column order. */
  lemma PlaceIsRowOf(name: string, cols: seq<Column>, row: seq<Cell>)
    requires Distinct(cols) && Permutes(cols, row)
    ensures Placeable(MakeTable(name, cols), row)
    ensures Place(MakeTable(name, cols), row, |row|) == RowOf(cols, row)
  {
    hide Place, RowOf, Permutes, TypesOf, NamesOf, IndexesOf, Distinct;
    Indexed(name, cols, row);
    var t := MakeTable(name, cols);
    assert |row| == |cols| by { SameLength(cols, row); }
    forall j | 0 <= j < |cols| ensures Place(t, row, |row|)[j] == RowOf(cols, row)[j] { CellPlaced(name, cols, row, j); }
  }

  lemma SameLength(cols: seq<Column>, row: seq<Cell>)
    requires Permutes(cols, row)
    ensures |row| == |cols|
  {}

  /** The index map sends every cell to the position of its column. */
  lemma Indexed(name: string, cols: seq<Column>, row: seq<Cell>)
    requires Distinct(cols) && Permutes(cols, row)
    ensures Placeable(MakeTable(name, cols), row)
    ensures forall i :: 0 <= i < |row| ==> MakeTable(name, cols).indexes[row[i].col] == IndexIn(cols, row[i].col)
  {
    hide TypesOf, NamesOf, IndexesOf, Distinct;
    var t := MakeTable(name, cols);
    forall i | 0 <= i < |row| ensures row[i].col in t.indexes && t.indexes[row[i].col] == IndexIn(cols, row[i].col) < |row| {
      IndexMapIsIndexIn(cols, row[i].col);
    }
  }

  lemma CellPlaced(name: string, cols: seq<Column>, row: seq<Cell>, j: nat)
    requires Distinct(cols) && Permutes(cols, row) && j < |cols| && Placeable(MakeTable(name, cols), row)
    requires forall i :: 0 <= i < |row| ==> MakeTable(name, cols).indexes[row[i].col] == IndexIn(cols, row[i].col)
    ensures Place(MakeTable(name, cols), row, |row|)[j] == RowOf(cols, row)[j]
  {
    hide Place, TypesOf, NamesOf, IndexesOf, Distinct;
    var t := MakeTable(name, cols);
    IndexInFinds(cols, j);
    if i :| 0 <= i < |row| && row[i].col == cols[j].name {
      ValueOfFinds(row, i);
      PlacedAt(t, row, |row|, i);
    } else {
      ValueOfMisses(row, cols[j].name);
      NotPlaced(t, row, |row|, j);
    }
  }

  lemma {:induction false} PlacedAt(t: Table, row: seq<Cell>, n: nat, i: nat)
    requires Placeable(t, row) && i < n <= |row|
    requires forall j :: i < j < n ==> t.indexes[row[j].col] != t.indexes[row[i].col]
    ensures Place(t, row, n)[t.indexes[row[i].col]] == row[i].val
    decreases n
  {
    if i < n - 1 { PlacedAt(t, row, n - 1, i); }
  }

  lemma {:induction false} NotPlaced(t: Table, row: seq<Cell>, n: nat, j: nat)
    requires Placeable(t, row) && n <= |row| && j < |row|
    requires forall i :: 0 <= i < n ==> t.indexes[row[i].col] != j
    ensures Place(t, row, n)[j] == ""
    decreases n
  {
    if n > 0 { NotPlaced(t, row, n - 1, j); }
  }

  /** A clean row of any length decodes cell by cell: each is named and typed by its column, and
      those behind the last column have no name. */
  lemma {:induction false} DecodesAnyLength(name: string, cols: seq<Column>, vals: seq<string>)
    requires Distinct(cols) && Clean(vals)
    ensures var row := DecodeRow(MakeTable(name, cols), Join(vals, SEP));
      && |row| == |vals|
      && (forall i :: 0 <= i < |vals| ==> row[i].val == vals[i])
      && (forall i :: 0 <= i < |vals| && i < |cols| ==> row[i].name == cols[i].name && row[i].ty == cols[i].ty)
      && (forall i :: |cols| <= i < |vals| ==> row[i].name == "")
      && ((forall i :: 0 <= i < |cols| ==> cols[i].name != "") ==> forall i :: |cols| <= i < |vals| ==> row[i].ty == VARCHAR)
  {
    if forall i :: 0 <= i < |cols| ==> cols[i].name != "" { UnknownColumn(name, cols, ""); }
    CleanSplits(vals);
    var t := MakeTable(name, cols);
    forall i | 0 <= i < |cols| ensures t.ColType(t.names[i]) == cols[i].ty { TypeMapKnows(cols, i); }
  }

  /** A clean row decodes to its fields, whatever its cells. */
  lemma {:induction false} DecodesToFields(name: string, cols: seq<Column>, vals: seq<string>)
    requires Distinct(cols) && Clean(vals) && |vals| == |cols|
    ensures DecodeRow(MakeTable(name, cols), Join(vals, SEP)) == FieldsOf(cols, vals)
  {
    CleanSplits(vals);
    var t := MakeTable(name, cols);
    forall i | 0 <= i < |cols| ensures t.ColType(t.names[i]) == cols[i].ty { TypeMapKnows(cols, i); }
  }
}
