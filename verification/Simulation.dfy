/** Every statement on the string store simulates the same statement on the plain database. */
module Simulation {
  import opened Common
  import opened Schema
  import opened StringUtils
  import opened KvStore
  import opened Order
  import opened Keys
  import opened Engine
  import opened Refinement

  // ---------------------------------------------------------------- the catalog in memory

  lemma Current(s: State, a: Abs)
    requires MemoryRel(s, a)
    ensures s.cur == a.cur && a.cur in a.catalog && s.cur in s.dbs && NoUnderscore(a.cur)
    ensures forall table :: HasTable(s, table) <==> table in Tables(a)
  {
    hide SchemaOk, Plain, MakeTable;
    assert DbRel(s.dbs[s.cur], a.catalog[s.cur]);
  }

  lemma SameMemory(s: State, a: Abs, s': State, a': Abs)
    requires MemoryRel(s, a) && s'.dbs == s.dbs && s'.cur == s.cur && a'.catalog == a.catalog && a'.cur == a.cur
    ensures MemoryRel(s', a')
  {
    hide DbRel;
  }

  // ---------------------------------------------------------------- one write

  /** The plain databases differ at one key only. */
  ghost predicate SameBut(a: Abs, a': Abs, key: Key) {
    forall key' :: key' != key ==> Content(a', key') == Content(a, key')
  }

  /** Writing one key, when the plain database changes at that key only. */
  lemma Put(data: map<string, string>, a: Abs, a': Abs, key: Key, v: string)
    requires Stored(data, a) && Good(key) && Content(a', key) == Some(v) && SameBut(a, a', key)
    ensures Stored(data[Text(key) := v], a')
  {
    var data' := data[Text(key) := v];
    forall key' | Good(key') ensures Get(data', Text(key')) == Content(a', key') {
      if Text(key') == Text(key) { TextInjective(key', key); }
    }
    assert IsText(Text(key));
  }

  lemma Remove(data: map<string, string>, a: Abs, a': Abs, key: Key)
    requires Stored(data, a) && Good(key) && Content(a', key) == None && SameBut(a, a', key)
    ensures Stored(data - {Text(key)}, a')
  {
    var data' := data - {Text(key)};
    forall key' | Good(key') ensures Get(data', Text(key')) == Content(a', key') {
      if Text(key') == Text(key) { TextInjective(key', key); }
    }
  }

  // ---------------------------------------------------------------- catalog statements

  lemma NewDbContent(a: Abs, db: string)
    ensures var a' := AbsDo(a, NewDb(db)).0;
      SameBut(a, a', OfDb(db)) && Content(a', OfDb(db)) == Some(db)
  {}

  lemma NewTableContent(a: Abs, table: string, cols: seq<Column>)
    requires a.cur in a.catalog
    ensures var a' := AbsDo(a, NewTable(table, cols)).0;
      SameBut(a, a', OfTable(a.cur, table)) && Content(a', OfTable(a.cur, table)) == Some(Encode(cols))
  {}

  lemma PutContent(a: Abs, id: RowId, vals: seq<string>)
    ensures var a', key := a.(rows := a.rows[id := vals]), OfRow(id.db, id.table, id.key);
      SameBut(a, a', key) && Content(a', key) == Some(Join(vals, SEP))
  {}

  lemma RemoveContent(a: Abs, id: RowId)
    ensures var a', key := a.(rows := a.rows - {id}), OfRow(id.db, id.table, id.key);
      SameBut(a, a', key) && Content(a', key) == None
  {}

  lemma {:induction false} NewDbMemory(s: State, a: Abs, db: string)
    requires MemoryRel(s, a) && NoUnderscore(db)
    ensures MemoryRel(CreateDb(s, db), AbsDo(a, NewDb(db)).0)
  {
    hide DbRel, DbKey;
    NothingIn();
  }

  lemma NothingIn()
    ensures DbRel(map[], map[])
  {
    hide SchemaOk, Plain, MakeTable;
  }

  lemma {:induction false} NewTableMemory(s: State, a: Abs, table: string, cols: seq<Column>, pk: KeyCols)
    requires MemoryRel(s, a) && Enabled(a, NewTable(table, cols), pk)
    ensures MemoryRel(CreateTable(s, table, cols), AbsDo(a, NewTable(table, cols)).0)
  {
    hide DbRel, SchemaOk, Plain, MakeTable, TableKey, Encode, InsertNew;
    TableJoins(s.dbs[s.cur], a.catalog[s.cur], table, cols);
  }

  lemma TableJoins(tables: map<string, Table>, catalog: map<string, seq<Column>>, table: string, cols: seq<Column>)
    requires DbRel(tables, catalog) && table !in catalog && Plain(table) && SchemaOk(cols)
    ensures DbRel(InsertNew(tables, table, MakeTable(table, cols)), catalog[table := cols])
  {
    hide Plain, SchemaOk, MakeTable;
  }

  lemma {:induction false} NewDbRefines(s: State, a: Abs, db: string, pk: KeyCols)
    requires Rel(s, a, pk) && NoUnderscore(db)
    ensures Rel(CreateDb(s, db), AbsDo(a, NewDb(db)).0, pk)
  {
    hide DbRel, Stored, SameBut, Content, DbKey, NoUnderscore, Clean;
    var a' := AbsDo(a, NewDb(db)).0;
    NewDbContent(a, db);
    Put(s.data, a, a', OfDb(db), db);
    NewDbMemory(s, a, db);
    forall id | id in a'.rows ensures RowOk(a', id, pk) { assert RowOk(a, id, pk); }
  }

  lemma {:induction false} NewTableRefines(s: State, a: Abs, table: string, cols: seq<Column>, pk: KeyCols)
    requires Rel(s, a, pk) && Enabled(a, NewTable(table, cols), pk)
    ensures Rel(CreateTable(s, table, cols), AbsDo(a, NewTable(table, cols)).0, pk)
  {
    hide Stored, SameBut, Content, TableKey, Encode, SchemaOk, Plain, MemoryRel, Clean;
    var a' := AbsDo(a, NewTable(table, cols)).0;
    Current(s, a);
    NewTableContent(a, table, cols);
    Put(s.data, a, a', OfTable(s.cur, table), Encode(cols));
    NewTableMemory(s, a, table, cols, pk);
    forall id | id in a'.rows ensures RowOk(a', id, pk) { assert RowOk(a, id, pk); }
  }

  // ---------------------------------------------------------------- row statements

  /** A row is in the plain database exactly when it is stored. */
  lemma {:induction false} StoredExactly(s: State, a: Abs, id: RowId, pk: KeyCols)
    requires Rel(s, a, pk) && NoUnderscore(id.db) && NoUnderscore(id.table)
    ensures DataKey(id.db, id.table, id.key) in s.data <==> id in a.rows
    ensures id in a.rows ==> RowOk(a, id, pk) && s.data[DataKey(id.db, id.table, id.key)] == Join(a.rows[id], SEP)
  {
    hide MemoryRel, Join, NoUnderscore, DataKey;
    var key := OfRow(id.db, id.table, id.key);
    assert Good(key) && Get(s.data, Text(key)) == Content(a, key);
  }

  lemma PlainTable(s: State, a: Abs, table: string)
    requires MemoryRel(s, a) && HasTable(s, table)
    ensures table in Tables(a) && SchemaOk(Tables(a)[table]) && NoUnderscore(table) && NoUnderscore(a.cur)
    ensures s.dbs[s.cur][table] == MakeTable(table, Tables(a)[table])
  {
    assert DbRel(s.dbs[s.cur], a.catalog[s.cur]);
  }

  lemma PutRow(s: State, a: Abs, id: RowId, vals: seq<string>, pk: KeyCols)
    requires Rel(s, a, pk) && NoUnderscore(id.db) && NoUnderscore(id.table)
    requires RowOk(a.(rows := a.rows[id := vals]), id, pk)
    ensures Rel(s.(data := s.data[DataKey(id.db, id.table, id.key) := Join(vals, SEP)]), a.(rows := a.rows[id := vals]), pk)
  {
    hide MemoryRel, Stored, SameBut, Content, DataKey, Clean;
    var a' := a.(rows := a.rows[id := vals]);
    PutContent(a, id, vals);
    SameMemory(s, a, s.(data := s.data[DataKey(id.db, id.table, id.key) := Join(vals, SEP)]), a');
    Put(s.data, a, a', OfRow(id.db, id.table, id.key), Join(vals, SEP));
    forall id' | id' in a'.rows ensures RowOk(a', id', pk) { if id' != id { assert RowOk(a, id', pk); } }
  }

  lemma {:induction false} RemoveRow(s: State, a: Abs, id: RowId, pk: KeyCols)
    requires Rel(s, a, pk) && NoUnderscore(id.db) && NoUnderscore(id.table)
    ensures Rel(s.(data := s.data - {DataKey(id.db, id.table, id.key)}), a.(rows := a.rows - {id}), pk)
  {
    hide MemoryRel, Stored, SameBut, Content, DataKey, Clean;
    var a' := a.(rows := a.rows - {id});
    RemoveContent(a, id);
    SameMemory(s, a, s.(data := s.data - {DataKey(id.db, id.table, id.key)}), a');
    Remove(s.data, a, a', OfRow(id.db, id.table, id.key));
    forall id' | id' in a'.rows ensures RowOk(a', id', pk) { assert RowOk(a, id', pk); }
  }

  lemma InsertRefines(s: State, a: Abs, table: string, row: seq<Cell>, pk: KeyCols)
    requires Rel(s, a, pk) && HasTable(s, table) && Enabled(a, InsertRow(table, row), pk)
    ensures Defined(s, InsertRow(table, row))
    ensures Rel(Do(s, InsertRow(table, row)).0, AbsDo(a, InsertRow(table, row)).0, pk)
  {
    PlainTable(s, a, table);
    var cols, k := Tables(a)[table], pk(s.cur, table);
    PlaceIsRowOf(table, cols, row);
    var id, vals := RowId(s.cur, table, row[0].val), RowOf(cols, row);
    ValueOfFinds(row, 0);
    assert vals[k] == ValueOf(row, cols[k].name) == id.key;
    PutRow(s, a, id, vals, pk);
  }

  lemma {:induction false} UpdateRefines(s: State, a: Abs, table: string, col: string, val: string, key: string, pk: KeyCols)
    requires Rel(s, a, pk) && HasTable(s, table) && Enabled(a, Op.UpdateRow(table, col, val, key), pk)
    ensures Defined(s, Op.UpdateRow(table, col, val, key))
    ensures Rel(Do(s, Op.UpdateRow(table, col, val, key)).0, AbsDo(a, Op.UpdateRow(table, col, val, key)).0, pk)
  {
    hide Stored, MemoryRel, DataKey, CleanCell, Free, Distinct;
    Current(s, a);
    PlainTable(s, a, table);
    var id := RowId(s.cur, table, key);
    StoredExactly(s, a, id, pk);
    if id in a.rows {
      var cols, vals := Tables(a)[table], a.rows[id];
      var i := IndexIn(cols, col);
      IndexMapIsIndexIn(cols, col);
      CleanSplits(vals);
      StaysClean(vals, i, val);
      PutRow(s, a, id, vals[i := val], pk);
    }
  }

  lemma StaysClean(vals: seq<string>, i: nat, val: string)
    requires Clean(vals) && i < |vals| && CleanCell(val, i == |vals| - 1)
    ensures Clean(vals[i := val])
  {
    var vals' := vals[i := val];
    forall j | 0 <= j < |vals'| ensures CleanCell(vals'[j], j == |vals'| - 1) {
      if j != i { assert vals'[j] == vals[j] && CleanCell(vals[j], j == |vals| - 1); }
    }
  }

  lemma SelectRefines(s: State, a: Abs, table: string, key: string, pk: KeyCols)
    requires Rel(s, a, pk) && HasTable(s, table)
    ensures Rows(SelectEquals(s, table, key)) == AbsDo(a, SelectRow(table, key)).1
  {
    hide DbRel, Stored, DecodeRow, FieldsOf, DataKey, Clean, SchemaOk;
    PlainTable(s, a, table);
    var id := RowId(s.cur, table, key);
    StoredExactly(s, a, id, pk);
    if id in a.rows { DecodesToFields(table, Tables(a)[table], a.rows[id]); }
  }

  // ---------------------------------------------------------------- restart

  /** `pairs` are stored tables of one database. */
  ghost predicate TablePairs(pairs: Pairs, db: string, tables: map<string, seq<Column>>) {
    forall i :: 0 <= i < |pairs| ==> IsTablePair(pairs[i], db, tables)
  }

  ghost predicate IsTablePair(pair: (string, string), db: string, tables: map<string, seq<Column>>) {
    exists t :: t in tables && pair == (TableKey(db, t), Encode(tables[t]))
  }

  predicate TablesOk(tables: map<string, seq<Column>>) {
    forall t :: t in tables ==> Plain(t) && SchemaOk(tables[t])
  }

  lemma {:induction false} TablePairReads(pair: (string, string), db: string, tables: map<string, seq<Column>>) returns (t: string)
    requires IsTablePair(pair, db, tables) && TablesOk(tables)
    ensures t in tables && pair == (TableKey(db, t), Encode(tables[t]))
    ensures NameOf(pair.0) == Some(t) && Decode(pair.1) == Some(tables[t])
  {
    t :| t in tables && pair == (TableKey(db, t), Encode(tables[t]));
    assert SchemaOk(tables[t]);
    DecodesEncoded(tables[t], "");
    assert TableKey(db, t) == "table_" + db + "_" + t;
    LastPiece("table_" + db, t);
  }

  /** Recovery reads back exactly the tables of the pairs it scans. */
  lemma {:induction false} RecoversTables(pairs: Pairs, db: string, tables: map<string, seq<Column>>)
    requires TablePairs(pairs, db, tables) && TablesOk(tables)
    ensures RecoverTables(pairs).Some?
    ensures var r := RecoverTables(pairs).value;
      && (forall t :: t in r <==> Answers(pairs, TableKey(db, t)))
      && forall t :: t in r ==> t in tables && r[t] == MakeTable(t, tables[t])
  {
    hide TablesOk, NameOf, Encode, Decode, MakeTable;
    if pairs != [] {
      var n := |pairs| - 1;
      var before := pairs[..n];
      RecoversTables(before, db, tables);
      assert IsTablePair(pairs[n], db, tables);
      var t := TablePairReads(pairs[n], db, tables);
      var r := RecoverTables(pairs).value;
      forall t' ensures t' in r <==> Answers(pairs, TableKey(db, t')) {
        AnswersSnoc(pairs, TableKey(db, t'));
        if TableKey(db, t') == TableKey(db, t) {
          assert t' == TableKey(db, t')[|TablePrefix(db)|..] == t;
        }
      }
    }
  }

  lemma AnswersSnoc(pairs: Pairs, k: string)
    requires pairs != []
    ensures Answers(pairs, k) <==> Answers(pairs[..|pairs| - 1], k) || pairs[|pairs| - 1].0 == k
  {
    var before := pairs[..|pairs| - 1];
    if Answers(before, k) {
      var i :| 0 <= i < |before| && before[i].0 == k;
      assert pairs[i].0 == k;
    }
    if Answers(pairs, k) && pairs[|pairs| - 1].0 != k {
      var i :| 0 <= i < |pairs| && pairs[i].0 == k;
      assert before[i].0 == k;
    }
  }

  /** A restarted process rebuilds one database as it was. */
  lemma RecoversDb(s: State, a: Abs, db: string, pk: KeyCols)
    requires Rel(s, a, pk) && db in a.catalog
    ensures RecoverDb(s.data, db) == Some(s.dbs[db])
  {
    hide Text, MemoryRel, Stored, TablePrefix, TableKey, RecoverTables, MakeTable, SchemaOk, Plain, Encode, RowOk, IsScan;
    var pairs, tables := Scan(s.data, TablePrefix(db)), a.catalog[db];
    OneDb(s, a, db);
    Scanned(s.data, TablePrefix(db));
    forall i | 0 <= i < |pairs| ensures IsTablePair(pairs[i], db, tables) { ScansTables(s, a, db, pairs[i].0); }
    RecoversTables(pairs, db, tables);
    var r := RecoverTables(pairs).value;
    forall t ensures t in r <==> t in s.dbs[db] {
      if t in tables { TableScanned(s, a, db, t); }
    }
    assert r == s.dbs[db];
  }

  lemma OneDb(s: State, a: Abs, db: string)
    requires MemoryRel(s, a) && db in a.catalog
    ensures db in s.dbs && NoUnderscore(db) && TablesOk(a.catalog[db]) && s.dbs[db].Keys == a.catalog[db].Keys
    ensures forall t :: t in a.catalog[db] ==> s.dbs[db][t] == MakeTable(t, a.catalog[db][t])
  {
    hide Plain, SchemaOk, MakeTable;
    assert DbRel(s.dbs[db], a.catalog[db]);
  }

  lemma TableScanned(s: State, a: Abs, db: string, t: string)
    requires Stored(s.data, a) && NoUnderscore(db) && db in a.catalog && t in a.catalog[db]
    ensures Answers(Scan(s.data, TablePrefix(db)), TableKey(db, t))
  {
    hide Encode;
    var key := OfTable(db, t);
    assert Good(key) && Get(s.data, Text(key)) == Content(a, key);
    Kinds(db, t, "");
    assert IsScan(Scan(s.data, TablePrefix(db)), s.data, TablePrefix(db));
  }

  lemma ScansTables(s: State, a: Abs, db: string, k: string)
    requires Stored(s.data, a) && NoUnderscore(db) && db in a.catalog && k in s.data && TablePrefix(db) <= k
    ensures IsTablePair((k, s.data[k]), db, a.catalog[db])
  {
    hide Encode;
    assert "table_" <= k by { assert TablePrefix(db)[..6] == "table_" && k[..6] == TablePrefix(db)[..6]; }
    assert Ours(k) && IsText(k);
    var key :| Good(key) && k == Text(key);
    TextKind(key);
    TableKeyOf(db, key.db, key.table);
    assert Get(s.data, Text(key)) == Content(a, key);
  }

  lemma {:induction false} RecoversDbs(s: State, a: Abs, pairs: Pairs, pk: KeyCols)
    requires Rel(s, a, pk)
    requires forall i :: 0 <= i < |pairs| ==> pairs[i].1 in a.catalog && pairs[i].0 == DbKey(pairs[i].1)
    ensures RecoverDbs(s.data, pairs).Some?
    ensures var (dbs, cur) := RecoverDbs(s.data, pairs).value;
      && (forall d :: d in dbs <==> Answers(pairs, DbKey(d)))
      && (forall d :: d in dbs ==> d in a.catalog && dbs[d] == s.dbs[d])
      && cur == if pairs == [] then "" else pairs[|pairs| - 1].1
    decreases |pairs|
  {
    hide Rel, DbKey, RecoverDb, Answers;
    if pairs == [] {
      forall d ensures !Answers(pairs, DbKey(d)) { NoAnswer(DbKey(d)); }
    } else {
      var n := |pairs| - 1;
      var db := pairs[n].1;
      RecoversDbs(s, a, pairs[..n], pk);
      RecoversDb(s, a, db, pk);
      var (dbs, cur) := RecoverDbs(s.data, pairs).value;
      forall d ensures d in dbs <==> Answers(pairs, DbKey(d)) {
        AnswersSnoc(pairs, DbKey(d));
        if DbKey(d) == DbKey(db) { DbKeyInjective(d, db); }
      }
    }
  }

  lemma NoAnswer(k: string)
    ensures !Answers([], k)
  {}

  /** A restart rebuilds the catalog exactly, and makes the greatest database the current one. */
  lemma RestartRebuilds(s: State, a: Abs, pk: KeyCols)
    requires Rel(s, a, pk)
    ensures Recover(s.data) == Some(s.(cur := Greatest(a.catalog.Keys)))
  {
    hide RecoverDbs, DbKey, DbRel, RowOk, Stored, NamesDiffer, NoUnderscore;
    var pairs := Scan(s.data, "database_");
    DbsScanned(s, a);
    assert Answers(pairs, DbKey(a.cur));
    RecoversDbs(s, a, pairs, pk);
    var (dbs, cur) := RecoverDbs(s.data, pairs).value;
    assert dbs == s.dbs;
    LastIsGreatest(pairs, a.catalog.Keys);
    GreatestUnique(cur, Greatest(a.catalog.Keys), a.catalog.Keys);
  }

  /** The scanned databases are the plain ones; the scan has no name twice. */
  lemma DbsScanned(s: State, a: Abs)
    requires Stored(s.data, a)
    ensures var pairs := Scan(s.data, "database_");
      && (forall i :: 0 <= i < |pairs| ==> pairs[i].1 in a.catalog && pairs[i].0 == DbKey(pairs[i].1))
      && (forall d :: d in a.catalog && NoUnderscore(d) ==> Answers(pairs, DbKey(d)))
      && NamesDiffer(pairs)
  {
    hide Encode, Join;
    var pairs := Scan(s.data, "database_");
    forall i | 0 <= i < |pairs| ensures pairs[i].1 in a.catalog && pairs[i].0 == DbKey(pairs[i].1) {
      assert Ours(pairs[i].0) && IsText(pairs[i].0);
      var key :| Good(key) && pairs[i].0 == Text(key);
      TextKind(key);
      assert Get(s.data, Text(key)) == Content(a, key);
    }
    forall d | d in a.catalog && NoUnderscore(d) ensures Answers(pairs, DbKey(d)) {
      var key := OfDb(d);
      assert Good(key) && Get(s.data, Text(key)) == Content(a, key);
      TextKind(key);
    }
    forall i, j | 0 <= i < j < |pairs| ensures pairs[i].1 != pairs[j].1 {
      assert Less(pairs[i].0, pairs[j].0);
      LessIrreflexive(pairs[i].0);
    }
  }

  lemma LastIsGreatest(pairs: Pairs, dbs: set<string>)
    requires pairs != [] && Ordered(pairs)
    requires forall i :: 0 <= i < |pairs| ==> pairs[i].1 in dbs && pairs[i].0 == DbKey(pairs[i].1)
    requires forall d :: d in dbs ==> Answers(pairs, DbKey(d))
    ensures IsGreatest(pairs[|pairs| - 1].1, dbs)
  {
    var last := pairs[|pairs| - 1].1;
    forall d | d in dbs && d != last ensures Less(d, last) {
      assert Answers(pairs, DbKey(d));
      var i :| 0 <= i < |pairs| && pairs[i].0 == DbKey(d);
      DbKeyInjective(d, pairs[i].1);
      assert Less(DbKey(d), DbKey(last));
      LessBehindPrefix("database_", d, last);
    }
  }

  lemma RestartRefines(s: State, a: Abs, pk: KeyCols)
    requires Rel(s, a, pk)
    ensures Recover(s.data).Some? && Rel(Recover(s.data).value, AbsDo(a, Restart).0, pk)
  {
    hide Recover, DbRel, Stored, RowOk;
    RestartRebuilds(s, a, pk);
    CurrentMoves(s, a, Greatest(a.catalog.Keys), pk);
  }

  lemma {:induction false} CurrentMoves(s: State, a: Abs, db: string, pk: KeyCols)
    requires Rel(s, a, pk) && db in a.catalog
    ensures Rel(s.(cur := db), a.(cur := db), pk)
  {
    hide DbRel, Text, RowOk, Good, Ours, IsText;
    var a' := a.(cur := db);
    forall key ensures Content(a', key) == Content(a, key) {}
    forall id | id in a'.rows ensures RowOk(a', id, pk) { StaysOk(a, a', id, pk); }
  }

  lemma StaysOk(a: Abs, a': Abs, id: RowId, pk: KeyCols)
    requires a'.catalog == a.catalog && a'.rows == a.rows && id in a.rows && RowOk(a, id, pk)
    ensures RowOk(a', id, pk)
  {
    hide Clean;
  }

  /** A restart is unnoticed exactly when the current database has the greatest name. */
  lemma {:induction false} RestartUnnoticedExactly(s: State, a: Abs, pk: KeyCols)
    requires Rel(s, a, pk)
    ensures Recover(s.data) == Some(s) <==> IsGreatest(s.cur, s.dbs.Keys)
  {
    hide Recover, Stored, DbRel, RowOk;
    RestartRebuilds(s, a, pk);
    if IsGreatest(s.cur, s.dbs.Keys) { GreatestUnique(s.cur, Greatest(a.catalog.Keys), a.catalog.Keys); }
  }

  lemma NothingToScan(data: map<string, string>, prefix: string)
    requires forall k :: k in data ==> !(prefix <= k)
    ensures Scan(data, prefix) == []
  {
    ScanUnique(Scan(data, prefix), [], data, prefix);
  }

  /** One empty database, "default". */
  const EMPTY: Abs := Abs(map["default" := map[]], map[], "default")

  /** On a store without its keys a new process starts with the one empty database "default". */
  lemma FreshStart(data: map<string, string>, pk: KeyCols)
    requires forall k :: k in data ==> !Ours(k)
    ensures Recover(data).Some?
    ensures Rel(Recover(data).value, EMPTY, pk)
  {
    hide Encode, Join, Stored, Scan, DbKey;
    NothingToScan(data, "database_");
    FirstStored(data);
    NothingIn();
    assert NoUnderscore("default");
  }

  lemma FirstStored(data: map<string, string>)
    requires forall k :: k in data ==> !Ours(k)
    ensures Stored(data[DbKey("default") := "default"], EMPTY)
  {
    hide Encode, Join, DbKey;
    var a0 := Abs(map[], map[], "");
    forall key | Good(key) ensures Get(data, Text(key)) == Content(a0, key) { TextKind(key); }
    assert AbsDo(a0, NewDb("default")).0.(cur := "default") == EMPTY;
    NewDbContent(a0, "default");
    Put(data, a0, EMPTY, OfDb("default"), "default");
  }

  // ---------------------------------------------------------------- statements and runs

  /** One statement: it stays inside its vectors, answers like the plain database, and the
      states stay related. */
  lemma StepRefines(s: State, a: Abs, op: Op, pk: KeyCols)
    requires Rel(s, a, pk) && Enabled(a, op, pk)
    ensures Defined(s, op)
    ensures Do(s, op).1 == AbsDo(a, op).1
    ensures Rel(Do(s, op).0, AbsDo(a, op).0, pk)
  {
    hide Stored, RowOk, CreateTable, CreateDb, Recover, DbRel;
    match op {
      case NewDb(db) => NewDbRefines(s, a, db, pk);
      case Use(db) => if db in a.catalog { CurrentMoves(s, a, db, pk); }
      case NewTable(table, cols) => NewTableRefines(s, a, table, cols, pk);
      case Restart => RestartRefines(s, a, pk);
      case _ => RowStepRefines(s, a, op, pk);
    }
  }

  lemma RowStepRefines(s: State, a: Abs, op: Op, pk: KeyCols)
    requires Rel(s, a, pk) && Enabled(a, op, pk)
    requires op.InsertRow? || op.UpdateRow? || op.DeleteRow? || op.SelectRow?
    ensures Defined(s, op) && Do(s, op).1 == AbsDo(a, op).1 && Rel(Do(s, op).0, AbsDo(a, op).0, pk)
  {
    hide Stored, RowOk, Permutes, Insert, Update, SelectEquals, Placeable, Updatable, DbRel;
    Current(s, a);
    match op {
      case InsertRow(table, row) => if HasTable(s, table) { InsertRefines(s, a, table, row, pk); }
      case UpdateRow(table, col, val, key) =>
        if HasTable(s, table) {
          UpdateRefines(s, a, table, col, val, key, pk);
          PlainTable(s, a, table);
          StoredExactly(s, a, RowId(s.cur, table, key), pk);
        }
      case DeleteRow(table, key) =>
        if HasTable(s, table) {
          PlainTable(s, a, table);
          RemoveRow(s, a, RowId(s.cur, table, key), pk);
        }
      case SelectRow(table, key) => if HasTable(s, table) { SelectRefines(s, a, table, key, pk); }
    }
  }

  ghost function AbsRun(a: Abs, ops: seq<Op>): (Abs, seq<Answer>) {
    if ops == [] then (a, []) else
    var (before, answers) := AbsRun(a, ops[..|ops| - 1]);
    var (after, answer) := AbsDo(before, ops[|ops| - 1]);
    (after, answers + [answer])
  }

  /** Every statement is one its caller may give in the state it meets. */
  ghost predicate Legal(a: Abs, ops: seq<Op>, pk: KeyCols) {
    ops != [] ==>
      Legal(a, ops[..|ops| - 1], pk) && Enabled(AbsRun(a, ops[..|ops| - 1]).0, ops[|ops| - 1], pk)
  }

  /** The run on the store; None when a statement leaves its vectors. */
  ghost function Run(s: State, ops: seq<Op>): Option<(State, seq<Answer>)> {
    if ops == [] then Some((s, [])) else
    match Run(s, ops[..|ops| - 1])
    case Some((before, answers)) =>
      if !Defined(before, ops[|ops| - 1]) then None else
      var (after, answer) := Do(before, ops[|ops| - 1]);
      Some((after, answers + [answer]))
    case None => None
  }

  /** Whole runs: every legal run on the store is defined and answers what the plain database
      answers. */
  lemma {:induction false} RunRefines(s: State, a: Abs, ops: seq<Op>, pk: KeyCols)
    requires Rel(s, a, pk) && Legal(a, ops, pk)
    ensures Run(s, ops).Some?
    ensures Run(s, ops).value.1 == AbsRun(a, ops).1
    ensures Rel(Run(s, ops).value.0, AbsRun(a, ops).0, pk)
    decreases |ops|
  {
    if ops != [] {
      RunRefines(s, a, ops[..|ops| - 1], pk);
      StepRefines(Run(s, ops[..|ops| - 1]).value.0, AbsRun(a, ops[..|ops| - 1]).0, ops[|ops| - 1], pk);
    }
  }

  /** From the first start on: a process on a store without its keys, and any legal statements and
      restarts after it, answer what the plain database answers from its empty state. */
  lemma ServiceRefines(data: map<string, string>, ops: seq<Op>, pk: KeyCols)
    requires forall k :: k in data ==> !Ours(k)
    requires Legal(EMPTY, ops, pk)
    ensures Recover(data).Some? && Run(Recover(data).value, ops).Some?
    ensures Run(Recover(data).value, ops).value.1 == AbsRun(EMPTY, ops).1
  {
    hide Rel, Legal, Recover, Run, AbsRun;
    FreshStart(data, pk);
    RunRefines(Recover(data).value, EMPTY, ops, pk);
  }

  // ---------------------------------------------------------------- frame

  /** The row a row statement names. */
  function Named(s: State, op: Op): Key
    requires op.InsertRow? || op.UpdateRow? || op.DeleteRow? || op.SelectRow?
  {
    OfRow(s.cur, op.table, if !op.InsertRow? then op.key else if op.row == [] then "" else op.row[0].val)
  }

  /** A row statement changes at most the row it names: no row of another table or key, no stored
      database or table, and nothing in memory. */
  lemma OnlyTheNamedRow(s: State, op: Op, key: Key)
    requires Defined(s, op) && (op.InsertRow? || op.UpdateRow? || op.DeleteRow? || op.SelectRow?)
    requires NoUnderscore(s.cur) && NoUnderscore(op.table) && Good(key) && key != Named(s, op)
    ensures Get(Do(s, op).0.data, Text(key)) == Get(s.data, Text(key))
    ensures Do(s, op).0.dbs == s.dbs && Do(s, op).0.cur == s.cur
  {
    var named := Named(s, op);
    assert Good(named);
    if Text(key) == Text(named) { TextInjective(key, named); }
  }

  /** Creating a table that is there changes nothing in memory, and stores the new columns: memory
      and store disagree afterwards exactly when the columns differ. */
  lemma RecreateDivergesExactly(s: State, a: Abs, table: string, cols: seq<Column>, pk: KeyCols)
    requires Rel(s, a, pk) && table in Tables(a) && SchemaOk(cols)
    ensures CreateTable(s, table, cols).dbs == s.dbs
    ensures Decode(CreateTable(s, table, cols).data[TableKey(s.cur, table)]) == Some(s.dbs[s.cur][table].cols)
        <==> cols == s.dbs[s.cur][table].cols
  {
    hide Stored, RowOk, Plain, TableKey, Encode, Decode, Free, TypesOf, IndexesOf, NamesOf, Distinct;
    assert DbRel(s.dbs[s.cur], a.catalog[s.cur]);
    SchemaRoundTripsExactly(cols);
  }
}
