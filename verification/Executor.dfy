/**
 The objects of the meta and executor files, which change the store and the catalog in place.
 Each method is proved against its function in Engine.
 */
module Executors {
  import opened Common
  import opened Schema
  import opened StringUtils
  import opened KvStore
  import opened Order
  import opened Keys
  import E = Engine

  /** The connection to the key/value server: SET, GET and DEL. */
  class Store {
    var data: map<string, string>

    constructor (data: map<string, string>)
      ensures this.data == data
    {
      this.data := data;
    }

    method Set(k: string, v: string)
      modifies this
      ensures data == old(data)[k := v]
    {
      data := data[k := v];
    }

    method Get(k: string) returns (r: Option<string>)
      ensures r == if k in data then Some(data[k]) else None
    {
      if k in data { r := Some(data[k]); } else { r := None; }
    }

    method Del(k: string)
      modifies this
      ensures data == old(data) - {k}
    {
      data := data - {k};
    }
  }

  /** `SCAN 0 MATCH prefix*`: the elements the server answers with. */
  type Server = string -> seq<string>

  ghost predicate Serves(server: Server, data: map<string, string>) {
    forall prefix :: server(prefix) == Flat(Scan(data, prefix))
  }

  lemma {:induction false} RecoverFails(pairs: Pairs, n: nat)
    requires n <= |pairs| && E.RecoverTables(pairs[..n]).None?
    ensures E.RecoverTables(pairs).None?
    decreases |pairs|
  {
    if n < |pairs| {
      assert pairs[..|pairs| - 1][..n] == pairs[..n];
      RecoverFails(pairs[..|pairs| - 1], n);
    } else {
      assert pairs[..n] == pairs;
    }
  }

  class DataBase {
    const name: string
    var tables: map<string, Table>
    var tableCount: nat

    constructor (name: string)
      ensures this.name == name && tables == map[] && tableCount == 0
    {
      this.name := name;
      tables, tableCount := map[], 0;
    }

    method CreateTable(store: Store, table: string, cols: seq<Column>)
      modifies this, store
      ensures tables == E.InsertNew(old(tables), table, MakeTable(table, cols)) && tableCount == old(tableCount) + 1
      ensures store.data == old(store.data)[TableKey(name, table) := Encode(cols)]
    {
      var newtable := BuildTable(table, cols);
      if table !in tables { tables := tables[table := newtable]; }
      tableCount := tableCount + 1;
      var value := EncodeColumns(cols);
      store.Set(TableKey(name, table), value);
    }

    /** One stored table; false is the exception `std::stoi` throws, or a key without pieces. */
    method RecoverTable(tablenamekey: string, table: string) returns (ok: bool)
      modifies this
      ensures ok == (Decode(table).Some? && E.NameOf(tablenamekey).Some?)
      ensures ok ==> tableCount == old(tableCount) + 1
      ensures ok ==> tables == E.InsertNew(old(tables), E.NameOf(tablenamekey).value,
                                           MakeTable(E.NameOf(tablenamekey).value, Decode(table).value))
    {
      hide MakeTable;
      var cols := GetColFromStr(table);
      var keySplits := StringSplit(tablenamekey, "_");
      if cols.None? || keySplits == [] { return false; }
      var tablename := keySplits[|keySplits| - 1];
      var newtable := BuildTable(tablename, cols.value);
      if tablename !in tables { tables := tables[tablename := newtable]; }
      tableCount := tableCount + 1;
      ok := true;
    }

    /** Reads the tables back from the elements of a scan. */
    method RecoverFromPmemKV(elements: seq<string>, ghost pairs: Pairs) returns (ok: bool)
      requires elements == Flat(pairs) && tables == map[]
      modifies this
      ensures ok <==> E.RecoverTables(pairs).Some?
      ensures ok ==> tables == E.RecoverTables(pairs).value && tableCount == old(tableCount) + |pairs|
    {
      hide MakeTable, Decode, E.NameOf, E.InsertNew;
      var i := 0;
      assert pairs[..0] == [];
      while i < |elements|
        invariant 0 <= i <= 2 * |pairs| && i % 2 == 0
        invariant E.RecoverTables(pairs[..i / 2]) == Some(tables) && tableCount == old(tableCount) + i / 2
      {
        ghost var n := i / 2;
        var tablenamekey := elements[i];
        i := i + 1;
        var table := elements[i];
        i := i + 1;
        assert pairs[n] == (tablenamekey, table) && pairs[..n + 1][..n] == pairs[..n];
        var recovered := RecoverTable(tablenamekey, table);
        if !recovered {
          RecoverFails(pairs, n + 1);
          return false;
        }
      }
      assert pairs[..i / 2] == pairs;
      ok := true;
    }

    method GetTable(table: string) returns (r: Option<Table>)
      ensures r == if table in tables then Some(tables[table]) else None
    {
      if table in tables { r := Some(tables[table]); } else { r := None; }
    }
  }

  lemma {:induction false} RecoverDbsFails(data: map<string, string>, pairs: Pairs, n: nat)
    requires n <= |pairs| && E.RecoverDbs(data, pairs[..n]).None?
    ensures E.RecoverDbs(data, pairs).None?
    decreases |pairs|
  {
    if n < |pairs| {
      assert pairs[..|pairs| - 1][..n] == pairs[..n];
      RecoverDbsFails(data, pairs[..|pairs| - 1], n);
    } else {
      assert pairs[..n] == pairs;
    }
  }

  class Dbms {
    const store: Store
    var dbs: map<string, DataBase>
    var cur: DataBase?

    /** Every database is its own object under its own name, and the current one is among them. */
    ghost predicate Valid()
      reads this, dbs.Values
    {
      Indexed() && (cur != null ==> cur.name in dbs && dbs[cur.name] == cur)
    }

    ghost predicate Indexed()
      reads this, dbs.Values
    {
      forall d :: d in dbs ==> dbs[d].name == d
    }

    ghost function Tables(): map<string, map<string, Table>>
      reads this, dbs.Values
    {
      map d | d in dbs :: dbs[d].tables
    }

    ghost function State(): E.State
      reads this, store, dbs.Values
    {
      E.State(store.data, Catalog().0, Catalog().1)
    }

    /** The databases with their tables, and the current one. */
    ghost function Catalog(): (map<string, map<string, Table>>, string)
      reads this, dbs.Values
    {
      (Tables(), if cur == null then "" else cur.name)
    }

    constructor (store: Store)
      ensures Valid() && this.store == store && dbs == map[] && cur == null
    {
      this.store := store;
      dbs, cur := map[], null;
    }

    method CreateDataBase(db: string)
      requires Valid()
      modifies this, store
      ensures Valid() && fresh(dbs.Values - old(dbs.Values)) && cur == old(cur)
      ensures State() == E.CreateDb(old(State()), db)
      ensures store.data == old(store.data)[DbKey(db) := db] && dbs.Keys == old(dbs.Keys) + {db}
    {
      hide DbKey, E.InsertNew;
      var newdb := new DataBase(db);
      Register(newdb);
      store.Set(DbKey(db), db);
    }

    /** `dbs_.insert`: a name that is there keeps its object. */
    method Register(newdb: DataBase)
      requires Indexed()
      modifies this`dbs
      ensures Indexed() && dbs == if newdb.name in old(dbs) then old(dbs) else old(dbs)[newdb.name := newdb]
      ensures Tables() == E.InsertNew(old(Tables()), newdb.name, newdb.tables)
    {
      if newdb.name !in dbs { dbs := dbs[newdb.name := newdb]; }
      assert Tables() == E.InsertNew(old(Tables()), newdb.name, newdb.tables);
    }

    method SwitchDB(db: string) returns (ok: bool)
      requires Valid()
      modifies `cur
      ensures Valid() && ok == (db in dbs)
      ensures State() == E.UseDb(old(State()), db)
    {
      ok := db in dbs;
      if ok { cur := dbs[db]; }
    }

    method HasTable(table: string) returns (r: bool)
      requires Valid() && cur != null
      ensures r == (table in cur.tables)
    {
      var t := cur.GetTable(table);
      r := t.Some?;
    }

    /** CREATE TABLE in the current database. */
    method CreateTable(table: string, cols: seq<Column>)
      requires Valid() && cur != null
      modifies cur, store
      ensures Valid() && State() == E.CreateTable(old(State()), table, cols)
    {
      cur.CreateTable(store, table, cols);
      assert Tables() == old(Tables())[cur.name := cur.tables];
    }

    /** What a starting process does: reads the databases and their tables back, or creates the
        default database. False is an exception on the way. A name that is stored twice leaves
        the current database outside the map. */
    method RecoverFromPmemKV(server: Server) returns (ok: bool)
      requires dbs == map[] && cur == null && Serves(server, store.data)
      modifies this, store
      ensures ok <==> E.Recover(old(store.data)).Some?
      ensures ok ==> State() == E.Recover(old(store.data)).value
      ensures ok && E.NamesDiffer(Scan(old(store.data), "database_")) ==> Valid()
    {
      ghost var pairs := Scan(store.data, "database_");
      var elements := server("database_");
      if |elements| == 0 {
        CreateDataBase("default");
        var _ := SwitchDB("default");
        return true;
      }
      ok := RecoverAll(server, elements, pairs);
    }

    method RecoverAll(server: Server, elements: seq<string>, ghost pairs: Pairs) returns (ok: bool)
      requires dbs == map[] && cur == null && elements == Flat(pairs) && Serves(server, store.data)
      modifies this
      ensures ok <==> E.RecoverDbs(store.data, pairs).Some?
      ensures ok ==> Catalog() == E.RecoverDbs(store.data, pairs).value
      ensures ok && E.NamesDiffer(pairs) ==> Valid()
    {
      hide E.RecoverDb, E.RecoverDbs, E.InsertNew, Named, E.NamesDiffer, Serves, Valid, Indexed, Scan, Catalog;
      NothingYet();
      var i := 0;
      NoneRecovered(store.data, pairs);
      while i < |elements|
        invariant 0 <= i <= 2 * |pairs| && i % 2 == 0
        invariant Indexed() && fresh(dbs.Values) && (E.NamesDiffer(pairs) ==> Valid())
        invariant E.RecoverDbs(store.data, pairs[..i / 2]) == Some(Catalog())
        invariant forall d :: d in dbs ==> Named(pairs[..i / 2], d)
      {
        ghost var n := i / 2;
        ghost var before := dbs;
        i := i + 1;
        var dbname := elements[i];
        i := i + 1;
        assert pairs[n].1 == dbname;
        if E.NamesDiffer(pairs) { NotNamed(pairs, n); }
        RecoverDbsStep(store.data, pairs, n);
        var recovered := RecoverNext(server, dbname);
        if !recovered {
          RecoverDbsFails(store.data, pairs, n + 1);
          return false;
        }
        NamedMore(pairs, n);
      }
      assert pairs[..i / 2] == pairs;
      ok := true;
    }

    lemma NothingYet()
      requires dbs == map[] && cur == null
      ensures Indexed() && Valid() && Catalog() == (map[], "")
    {
      assert Tables() == map[];
    }

    /** One stored database. */
    method RecoverNext(server: Server, dbname: string) returns (ok: bool)
      requires Indexed() && Serves(server, store.data)
      modifies this
      ensures ok <==> E.RecoverDb(store.data, dbname).Some?
      ensures ok ==> Indexed() && (dbname !in old(dbs) ==> Valid())
      ensures ok ==> dbs.Keys == old(dbs.Keys) + {dbname} && fresh(dbs.Values - old(dbs.Values))
      ensures ok ==> Catalog() == (E.InsertNew(old(Catalog().0), dbname, E.RecoverDb(store.data, dbname).value), dbname)
    {
      hide E.RecoverDb, E.InsertNew, Serves;
      var newdb;
      ok, newdb := LoadDataBase(server, dbname);
      if ok {
        Register(newdb);
        cur := newdb;
        assert Tables() == E.InsertNew(old(Tables()), dbname, newdb.tables);
      }
    }

    /** `new DataBase(dbname, true)`. */
    method LoadDataBase(server: Server, dbname: string) returns (ok: bool, newdb: DataBase)
      requires Serves(server, store.data)
      ensures fresh(newdb) && newdb.name == dbname
      ensures ok <==> E.RecoverDb(store.data, dbname).Some?
      ensures ok ==> newdb.tables == E.RecoverDb(store.data, dbname).value
    {
      hide TablePrefix, E.RecoverTables;
      newdb := new DataBase(dbname);
      ok := newdb.RecoverFromPmemKV(server(TablePrefix(dbname)), Scan(store.data, TablePrefix(dbname)));
    }
  }

  lemma NoneRecovered(data: map<string, string>, pairs: Pairs)
    ensures E.RecoverDbs(data, pairs[..0]) == Some((map[], ""))
  {}

  lemma RecoverDbsStep(data: map<string, string>, pairs: Pairs, n: nat)
    requires n < |pairs| && E.RecoverDbs(data, pairs[..n]).Some?
    ensures var (r, db) := (E.RecoverDb(data, pairs[n].1), pairs[n].1);
      E.RecoverDbs(data, pairs[..n + 1]) ==
        if r.None? then None else Some((E.InsertNew(E.RecoverDbs(data, pairs[..n]).value.0, db, r.value), db))
  {
    hide E.RecoverDb, E.InsertNew;
    assert pairs[..n + 1][..n] == pairs[..n];
  }

  predicate Named(pairs: Pairs, db: string) { exists k :: 0 <= k < |pairs| && pairs[k].1 == db }

  lemma NotNamed(pairs: Pairs, n: nat)
    requires n < |pairs| && E.NamesDiffer(pairs)
    ensures !Named(pairs[..n], pairs[n].1)
  {}

  lemma NamedMore(pairs: Pairs, n: nat)
    requires n < |pairs|
    ensures Named(pairs[..n + 1], pairs[n].1)
    ensures forall d :: Named(pairs[..n], d) ==> Named(pairs[..n + 1], d)
  {
    assert pairs[..n + 1][n] == pairs[n];
    forall d | Named(pairs[..n], d) ensures Named(pairs[..n + 1], d) {
      var k :| 0 <= k < n && pairs[..n][k].1 == d;
      assert pairs[..n + 1][k].1 == d;
    }
  }

  /** The row functions. */
  class Executor {
    const dbms: Dbms

    constructor (dbms: Dbms)
      ensures this.dbms == dbms
    {
      this.dbms := dbms;
    }

    ghost predicate Ready(table: string)
      reads this, dbms, dbms.dbs.Values
    {
      dbms.Valid() && dbms.cur != null && table in dbms.cur.tables
    }

    method InsertRow(table: string, row: seq<E.Cell>) returns (n: nat)
      requires Ready(table) && E.Placeable(dbms.cur.tables[table], row)
      modifies dbms.store
      ensures dbms.State() == E.Insert(old(dbms.State()), table, row) && n == if row == [] then 0 else 1
    {
      if |row| == 0 { return 0; }
      var key := DataKey(dbms.cur.name, table, row[0].val);
      var vals := PlaceValues(dbms.cur.tables[table], row);
      var value := StringsJoin(vals, SEP);
      dbms.store.Set(key, value);
      n := 1;
    }

    /** `vals[index] = col.GetVal()` for every cell. */
    method PlaceValues(t: Table, row: seq<E.Cell>) returns (vals: seq<string>)
      requires E.Placeable(t, row)
      ensures vals == E.Place(t, row, |row|)
    {
      var a := new string[|row|](_ => "");
      var i := 0;
      while i < |row|
        invariant 0 <= i <= |row| && a[..] == E.Place(t, row, i)
      {
        var index := t.ColIndex(row[i].col);
        a[index] := row[i].val;
        i := i + 1;
      }
      vals := a[..];
    }

    method UpdateRow(table: string, col: string, val: string, key: string) returns (n: nat)
      requires Ready(table) && E.Updatable(dbms.State(), table, col, key)
      modifies dbms.store
      ensures dbms.State() == E.Update(old(dbms.State()), table, col, val, key)
      ensures n == if DataKey(dbms.cur.name, table, key) in old(dbms.store.data) then 1 else 0
    {
      var k := DataKey(dbms.cur.name, table, key);
      var oValue := dbms.store.Get(k);
      if oValue.None? { return 0; }
      var oCols := StringSplit(oValue.value, SEP);
      var index := dbms.cur.tables[table].ColIndex(col);
      oCols := oCols[index := val];
      var nValue := StringsJoin(oCols, SEP);
      dbms.store.Set(k, nValue);
      n := 1;
    }

    method DeleteRows(table: string, key: string) returns (n: nat)
      requires Ready(table)
      modifies dbms.store
      ensures dbms.State() == E.Delete(old(dbms.State()), table, key) && n == 1
    {
      dbms.store.Del(DataKey(dbms.cur.name, table, key));
      n := 1;
    }

    method DecodeRowResult(res: string, table: string) returns (row: seq<E.Field>)
      requires Ready(table)
      ensures row == E.DecodeRow(dbms.cur.tables[table], res)
    {
      var cols := StringSplit(res, SEP);
      var t := dbms.cur.tables[table];
      row := [];
      var i := 0;
      while i < |cols|
        invariant 0 <= i <= |cols| && row == E.DecodeRow(t, res)[..i]
      {
        var name := if i in t.names then t.names[i] else "";
        row := row + [E.Field(name, t.ColType(name), cols[i])];
        i := i + 1;
      }
    }

    method SelectEquals(table: string, key: string) returns (rows: seq<seq<E.Field>>)
      requires Ready(table)
      ensures rows == E.SelectEquals(dbms.State(), table, key)
    {
      rows := [];
      var result := dbms.store.Get(DataKey(dbms.cur.name, table, key));
      if result.None? { return; }
      var row := DecodeRowResult(result.value, table);
      rows := rows + [row];
    }

    method SelectLike(table: string, value: string, limit: nat, server: Server) returns (rows: seq<seq<E.Field>>)
      requires Ready(table) && Serves(server, dbms.store.data)
      ensures rows == E.SelectLike(dbms.State(), table, value, limit)
    {
      hide DataPrefix, E.DecodeRows, E.Limited, Scan;
      var prefix := if value != "" && value[|value| - 1] == '%' then value[..|value| - 1] else value;
      var elements := server(DataPrefix(dbms.cur.name, table) + prefix);
      rows := RowsOf(table, limit, elements, Scan(dbms.store.data, DataPrefix(dbms.cur.name, table) + prefix));
    }

    /** The loop of SelectLike. */
    method RowsOf(table: string, limit: nat, elements: seq<string>, ghost pairs: Pairs) returns (rows: seq<seq<E.Field>>)
      requires Ready(table) && elements == Flat(pairs)
      ensures rows == E.DecodeRows(dbms.cur.tables[table], if limit == 0 then pairs else E.Limited(pairs, limit))
    {
      hide E.DecodeRow, E.DecodeRows;
      ghost var t := dbms.cur.tables[table];
      rows := [];
      E.DecodeNoRows(t, pairs);
      var i := 0;
      while i < |elements|
        invariant 0 <= i <= |elements| && i % 2 == 0 && (limit != 0 ==> i / 2 <= limit + 1)
        invariant rows == E.DecodeRows(t, pairs[..i / 2])
      {
        E.DecodeRowsSnoc(t, pairs, i / 2);
        if limit != 0 && i > limit * 2 { break; }
        i := i + 1;
        var rowVal := elements[i];
        i := i + 1;
        var row := DecodeRowResult(rowVal, table);
        rows := rows + [row];
      }
      assert pairs[..i / 2] == if limit == 0 then pairs else E.Limited(pairs, limit);
    }

    method SelectGreater(table: string, value: string, limit: nat, server: Server) returns (rows: seq<seq<E.Field>>)
      requires Ready(table) && Serves(server, dbms.store.data)
      ensures rows == E.SelectGreater(dbms.State(), table, value, limit)
    {
      hide DataPrefix, DataKey, E.DecodeRows, E.Above, E.Limited, Scan;
      var elements := server(DataPrefix(dbms.cur.name, table));
      var bound := DataKey(dbms.cur.name, table, value);
      rows := RowsAbove(table, bound, limit, elements, Scan(dbms.store.data, DataPrefix(dbms.cur.name, table)));
    }

    /** The loop of SelectGreater. */
    method RowsAbove(table: string, bound: string, limit: nat, elements: seq<string>, ghost pairs: Pairs) returns (rows: seq<seq<E.Field>>)
      requires Ready(table) && elements == Flat(pairs)
      ensures rows == E.DecodeRows(dbms.cur.tables[table], E.Above(E.Limited(pairs, limit), bound))
    {
      hide E.DecodeRow, E.DecodeRows, E.Above, Less;
      ghost var t := dbms.cur.tables[table];
      rows := [];
      E.AboveSnoc(t, pairs, bound, 0);
      var i := 0;
      while i < |elements|
        invariant 0 <= i <= |elements| && i % 2 == 0 && i / 2 <= limit + 1
        invariant rows == E.DecodeRows(t, E.Above(pairs[..i / 2], bound))
      {
        E.AboveSnoc(t, pairs, bound, i / 2);
        if i > limit * 2 + 1 { break; }
        var pkey := elements[i];
        i := i + 1;
        var rowVal := elements[i];
        i := i + 1;
        if Less(bound, pkey) {
          var row := DecodeRowResult(rowVal, table);
          rows := rows + [row];
        }
      }
      assert pairs[..i / 2] == E.Limited(pairs, limit);
    }
  }
}
