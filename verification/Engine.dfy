/**
 The storage engine: meta/dbms.cc, meta/database.cc and the row functions of the executor files, on
 values. `State` is the key/value data with the catalog the process keeps in memory; each
 function below is what one statement does to it.
 */
module Engine {
  import opened Common
  import opened Schema
  import opened StringUtils
  import opened KvStore
  import opened Order
  import opened Keys

  datatype State = State(data: map<string, string>, dbs: map<string, map<string, Table>>, cur: string)

  /** A column name with a value, as an INSERT lists them. */
  datatype Cell = Cell(col: string, val: string)

  /** A column of a selected row. */
  datatype Field = Field(name: string, ty: DataType, val: string)

  // ---------------------------------------------------------------- catalog statements

  /** `unordered_map::insert`: an entry that is there stays. */
  function InsertNew<T>(m: map<string, T>, k: string, v: T): map<string, T> {
    if k in m then m else m[k := v]
  }

  function CreateDb(s: State, db: string): State {
    s.(dbs := InsertNew(s.dbs, db, map[]), data := s.data[DbKey(db) := db])
  }

  function UseDb(s: State, db: string): State {
    if db in s.dbs then s.(cur := db) else s
  }

  function CreateTable(s: State, table: string, cols: seq<Column>): State
    requires s.cur in s.dbs
  {
    s.(dbs := s.dbs[s.cur := InsertNew(s.dbs[s.cur], table, MakeTable(table, cols))],
       data := s.data[TableKey(s.cur, table) := Encode(cols)])
  }

  // ---------------------------------------------------------------- recovery

  /** The name RecoverFromPmemKV takes from a table key: the last piece between underscores. */
  function NameOf(key: string): Option<string> {
    var pieces := Split(key, "_");
    if pieces == [] then None else Some(pieces[|pieces| - 1])
  }

  /** The tables read from a scan; None when a schema text makes `std::stoi` throw or a key has
      no last piece. */
  function RecoverTables(pairs: Pairs): Option<map<string, Table>> {
    if pairs == [] then Some(map[]) else
    var (key, text) := pairs[|pairs| - 1];
    match (RecoverTables(pairs[..|pairs| - 1]), Decode(text), NameOf(key))
    case (Some(tables), Some(cols), Some(name)) => Some(InsertNew(tables, name, MakeTable(name, cols)))
    case _ => None
  }

  /** Of two keys with the same last piece the table of the first one stays; a schema text or a key
      that cannot be read ends the recovery. */
  lemma RecoveredOnce(pairs: Pairs, key: string, text: string)
    requires RecoverTables(pairs).Some?
    ensures var before, r := RecoverTables(pairs).value, RecoverTables(pairs + [(key, text)]);
      if Decode(text).None? || NameOf(key).None? then r.None? else
      && r.Some? && r.value.Keys == before.Keys + {NameOf(key).value}
      && (forall t :: t in before ==> r.value[t] == before[t])
      && (NameOf(key).value !in before ==> r.value[NameOf(key).value].cols == Decode(text).value)
  {
    hide Decode, NameOf;
    assert (pairs + [(key, text)])[..|pairs|] == pairs;
  }

  ghost function RecoverDb(data: map<string, string>, db: string): Option<map<string, Table>> {
    RecoverTables(Scan(data, TablePrefix(db)))
  }

  /** The databases read from a scan, and the last one, which becomes the current one. */
  ghost function RecoverDbs(data: map<string, string>, pairs: Pairs): Option<(map<string, map<string, Table>>, string)> {
    if pairs == [] then Some((map[], "")) else
    var db := pairs[|pairs| - 1].1;
    match (RecoverDbs(data, pairs[..|pairs| - 1]), RecoverDb(data, db))
    case (Some((dbs, _)), Some(tables)) => Some((InsertNew(dbs, db, tables), db))
    case _ => None
  }

  /** No two stored databases have the same name. */
  predicate NamesDiffer(pairs: Pairs) {
    forall i, j :: 0 <= i < j < |pairs| ==> pairs[i].1 != pairs[j].1
  }

  /** What a new process makes of the stored data: the stored databases, or a fresh "default". */
  ghost function Recover(data: map<string, string>): Option<State> {
    var pairs := Scan(data, "database_");
    if pairs == [] then Some(UseDb(CreateDb(State(data, map[], ""), "default"), "default")) else
    match RecoverDbs(data, pairs)
    case Some((dbs, cur)) => Some(State(data, dbs, cur))
    case None => None
  }

  // ---------------------------------------------------------------- row statements

  /** The cells can be placed: every column exists, at an index inside the row. */
  predicate Placeable(t: Table, row: seq<Cell>) {
    forall i :: 0 <= i < |row| ==> row[i].col in t.indexes && t.indexes[row[i].col] < |row|
  }

  /** `vals[index] = col.GetVal()` for each of the first `n` cells. */
  function Place(t: Table, row: seq<Cell>, n: nat): (vals: seq<string>)
    requires Placeable(t, row) && n <= |row|
    ensures |vals| == |row|
  {
    if n == 0 then seq(|row|, _ => "") else
    Place(t, row, n - 1)[t.indexes[row[n - 1].col] := row[n - 1].val]
  }

  function Insert(s: State, table: string, row: seq<Cell>): State
    requires s.cur in s.dbs && table in s.dbs[s.cur] && Placeable(s.dbs[s.cur][table], row)
  {
    if row == [] then s else
    s.(data := s.data[DataKey(s.cur, table, row[0].val) := Join(Place(s.dbs[s.cur][table], row, |row|), SEP)])
  }

  /** The stored row has the column UPDATE overwrites. */
  predicate Updatable(s: State, table: string, col: string, key: string)
    requires s.cur in s.dbs && table in s.dbs[s.cur]
  {
    var k := DataKey(s.cur, table, key);
    k in s.data ==> 0 <= s.dbs[s.cur][table].ColIndex(col) < |Split(s.data[k], SEP)|
  }

  function Update(s: State, table: string, col: string, val: string, key: string): State
    requires s.cur in s.dbs && table in s.dbs[s.cur] && Updatable(s, table, col, key)
  {
    var k := DataKey(s.cur, table, key);
    if k !in s.data then s else
    s.(data := s.data[k := Join(Split(s.data[k], SEP)[s.dbs[s.cur][table].ColIndex(col) := val], SEP)])
  }

  function Delete(s: State, table: string, key: string): State {
    s.(data := s.data - {DataKey(s.cur, table, key)})
  }

  function DecodeRow(t: Table, text: string): (row: seq<Field>) {
    var vals := Split(text, SEP);
    seq(|vals|, i requires 0 <= i < |vals| =>
      var name := if i in t.names then t.names[i] else "";
      Field(name, t.ColType(name), vals[i]))
  }

  function DecodeRows(t: Table, pairs: Pairs): seq<seq<Field>> {
    seq(|pairs|, i requires 0 <= i < |pairs| => DecodeRow(t, pairs[i].1))
  }

  lemma DecodeNoRows(t: Table, pairs: Pairs)
    ensures DecodeRows(t, pairs[..0]) == []
  {}

  lemma DecodeRowsSnoc(t: Table, pairs: Pairs, n: nat)
    ensures n < |pairs| ==> DecodeRows(t, pairs[..n + 1]) == DecodeRows(t, pairs[..n]) + [DecodeRow(t, pairs[n].1)]
  {
    hide DecodeRow;
  }

  function SelectEquals(s: State, table: string, key: string): seq<seq<Field>>
    requires s.cur in s.dbs && table in s.dbs[s.cur]
  {
    var k := DataKey(s.cur, table, key);
    if k in s.data then [DecodeRow(s.dbs[s.cur][table], s.data[k])] else []
  }

  /** A trailing `%` is dropped. */
  function LikePrefix(value: string): string {
    if value != "" && value[|value| - 1] == '%' then value[..|value| - 1] else value
  }

  /** The loop breaks when its index, which steps by two, passes `2 * limit`. */
  function Limited<T>(s: seq<T>, limit: nat): seq<T> {
    if |s| <= limit + 1 then s else s[..limit + 1]
  }

  ghost function SelectLike(s: State, table: string, value: string, limit: nat): seq<seq<Field>>
    requires s.cur in s.dbs && table in s.dbs[s.cur]
  {
    var pairs := Scan(s.data, DataPrefix(s.cur, table) + LikePrefix(value));
    DecodeRows(s.dbs[s.cur][table], if limit == 0 then pairs else Limited(pairs, limit))
  }

  function Above(pairs: Pairs, bound: string): Pairs {
    if pairs == [] then [] else
    Above(pairs[..|pairs| - 1], bound) +
      (if Less(bound, pairs[|pairs| - 1].0) then [pairs[|pairs| - 1]] else [])
  }

  lemma AboveSnoc(t: Table, pairs: Pairs, bound: string, n: nat)
    ensures Above(pairs[..0], bound) == [] && DecodeRows(t, []) == []
    ensures n < |pairs| ==>
      var more := if Less(bound, pairs[n].0) then [DecodeRow(t, pairs[n].1)] else [];
      DecodeRows(t, Above(pairs[..n + 1], bound)) == DecodeRows(t, Above(pairs[..n], bound)) + more
  {
    hide DecodeRow, Less;
    if n < |pairs| { assert pairs[..n + 1][..n] == pairs[..n]; }
  }

  ghost function SelectGreater(s: State, table: string, value: string, limit: nat): seq<seq<Field>>
    requires s.cur in s.dbs && table in s.dbs[s.cur]
  {
    var pairs := Limited(Scan(s.data, DataPrefix(s.cur, table)), limit);
    DecodeRows(s.dbs[s.cur][table], Above(pairs, DataKey(s.cur, table, value)))
  }
}
