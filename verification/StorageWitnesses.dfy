/** Inputs that show where the storage layer does less than one would expect of it. */
module StorageWitnesses {
  import opened Common
  import opened Schema
  import opened StringUtils
  import opened KvStore
  import opened Order
  import opened Keys
  import opened Engine
  import opened Refinement
  import opened Simulation
  import opened Queries

  lemma Extend(a: Abs, ops: seq<Op>, op: Op, pk: KeyCols)
    requires Legal(a, ops, pk) && Enabled(AbsRun(a, ops).0, op, pk)
    ensures Legal(a, ops + [op], pk) && AbsRun(a, ops + [op]).0 == AbsDo(AbsRun(a, ops).0, op).0
  {
    hide AbsDo, Enabled;
    assert (ops + [op])[..|ops|] == ops;
  }

  lemma NothingDone(a: Abs, pk: KeyCols)
    ensures Legal(a, [], pk) && AbsRun(a, []).0 == a
  {}

  /** The state a legal run leaves on a store that had none of its keys. */
  lemma Reaches(data: map<string, string>, ops: seq<Op>, pk: KeyCols) returns (s: State)
    requires (forall k :: k in data ==> !Ours(k)) && Legal(EMPTY, ops, pk)
    ensures Recover(data).Some? && Run(Recover(data).value, ops).Some? && s == Run(Recover(data).value, ops).value.0
    ensures Rel(s, AbsRun(EMPTY, ops).0, pk)
  {
    hide Rel, Legal, Recover, Run, AbsRun;
    FreshStart(data, pk);
    RunRefines(Recover(data).value, EMPTY, ops, pk);
    s := Run(Recover(data).value, ops).value.0;
  }

  /** A database named above "default", then a restart: the current database is another one. */
  lemma RestartMovesAway(data: map<string, string>, pk: KeyCols)
    requires forall k :: k in data ==> !Ours(k)
    ensures Legal(EMPTY, [NewDb("shop"), Restart], pk)
    ensures AbsRun(EMPTY, [NewDb("shop")]).0.cur == "default" && AbsRun(EMPTY, [NewDb("shop"), Restart]).0.cur == "shop"
    ensures Recover(data).Some? && Run(Recover(data).value, [NewDb("shop")]).Some?
    ensures var s := Run(Recover(data).value, [NewDb("shop")]).value.0; Recover(s.data) != Some(s)
  {
    hide Rel, Recover, Run, AbsRun, Legal, Greatest;
    var a := ShopFirst(pk);
    var s := Reaches(data, [NewDb("shop")], pk);
    RestartRebuilds(s, a, pk);
    SameCurrent(s, a, pk);
  }

  lemma ShopFirst(pk: KeyCols) returns (a: Abs)
    ensures Legal(EMPTY, [NewDb("shop")], pk) && Legal(EMPTY, [NewDb("shop"), Restart], pk)
    ensures a == AbsRun(EMPTY, [NewDb("shop")]).0 && a.cur == "default" && Greatest(a.catalog.Keys) == "shop"
    ensures AbsRun(EMPTY, [NewDb("shop"), Restart]).0.cur == "shop"
  {
    hide Legal, AbsRun, Greatest;
    NothingDone(EMPTY, pk);
    Extend(EMPTY, [], NewDb("shop"), pk);
    assert [] + [NewDb("shop")] == [NewDb("shop")];
    a := AbsRun(EMPTY, [NewDb("shop")]).0;
    assert a.catalog.Keys == {"default", "shop"} && IsGreatest("shop", a.catalog.Keys);
    GreatestUnique("shop", Greatest(a.catalog.Keys), a.catalog.Keys);
    Extend(EMPTY, [NewDb("shop")], Restart, pk);
    assert [NewDb("shop")] + [Restart] == [NewDb("shop"), Restart];
  }

  lemma SameCurrent(s: State, a: Abs, pk: KeyCols)
    requires Rel(s, a, pk)
    ensures s.cur == a.cur && a.cur in a.catalog
  {
    hide DbRel, Stored, RowOk;
  }

  const COL_A: seq<Column> := [Column("a", INT)]
  const COL_B: seq<Column> := [Column("b", INT)]

  /** The table `t` with the one column `a`. */
  const ONE_TABLE: Abs := Abs(map["default" := map["t" := COL_A]], map[], "default")

  lemma OneTable(pk: KeyCols)
    ensures Legal(EMPTY, [NewTable("t", COL_A)], pk) && AbsRun(EMPTY, [NewTable("t", COL_A)]).0 == ONE_TABLE
  {
    assert Enabled(EMPTY, NewTable("t", COL_A), pk);
    Extend(EMPTY, [], NewTable("t", COL_A), pk);
    assert [] + [NewTable("t", COL_A)] == [NewTable("t", COL_A)];
  }

  /** CREATE TABLE repeated with another column: the process keeps `a`, the store has `b`. */
  lemma RecreateDiverges(data: map<string, string>, pk: KeyCols)
    requires forall k :: k in data ==> !Ours(k)
    ensures Recover(data).Some? && Run(Recover(data).value, [NewTable("t", COL_A)]).Some?
    ensures var s := Run(Recover(data).value, [NewTable("t", COL_A)]).value.0;
      && HasTable(s, "t") && CreateTable(s, "t", COL_B).dbs == s.dbs
      && Decode(CreateTable(s, "t", COL_B).data[TableKey(s.cur, "t")]) != Some(s.dbs[s.cur]["t"].cols)
  {
    hide Rel, Recover, Run, Legal, AbsRun, Decode;
    OneTable(pk);
    var s := Reaches(data, [NewTable("t", COL_A)], pk);
    InMemory(s, pk);
    assert SchemaOk(COL_B);
    RecreateDivergesExactly(s, ONE_TABLE, "t", COL_B, pk);
    assert COL_A[0] != COL_B[0];
  }

  lemma InMemory(s: State, pk: KeyCols)
    requires Rel(s, ONE_TABLE, pk)
    ensures HasTable(s, "t") && s.dbs[s.cur]["t"].cols == COL_A
  {
    hide Stored, RowOk;
    Current(s, ONE_TABLE);
    assert "t" in Tables(ONE_TABLE);
    PlainTable(s, ONE_TABLE, "t");
  }

  /** The only column is the key. */
  const FIRST: KeyCols := (db, table) => 0

  function With(keys: seq<string>): Abs {
    ONE_TABLE.(rows := map id | id in (set k | k in keys :: RowId("default", "t", k)) :: [id.key])
  }

  /** A row of one short cell can be inserted. */
  lemma CanInsert(keys: seq<string>, key: string)
    requires |key| == 1 && key[0] != '$' && !Blank(key[0])
    ensures Enabled(With(keys), InsertRow("t", [Cell("a", key)]), FIRST)
    ensures AbsDo(With(keys), InsertRow("t", [Cell("a", key)])).0 == With(keys + [key])
  {
    var row := [Cell("a", key)];
    assert IndexIn(COL_A, "a") == 0;
    assert RowOf(COL_A, row) == [key];
    assert Find(key, SEP, 0) > |key|;
    assert CleanCell(key, true) && Clean([key]);
    assert Permutes(COL_A, row);
  }

  const THREE: seq<string> := ["1", "2", "3"]

  function Inserts(): seq<Op> {
    [NewTable("t", COL_A), InsertRow("t", [Cell("a", "1")]), InsertRow("t", [Cell("a", "2")]), InsertRow("t", [Cell("a", "3")])]
  }

  lemma ThreeRows()
    ensures Legal(EMPTY, Inserts(), FIRST) && AbsRun(EMPTY, Inserts()).0 == With(THREE)
  {
    hide Legal, AbsRun, AbsDo, Enabled, With;
    var ops := [NewTable("t", COL_A)];
    OneTable(FIRST);
    NoRows();
    CanInsert([], "1");
    Extend(EMPTY, ops, InsertRow("t", [Cell("a", "1")]), FIRST);
    ops := ops + [InsertRow("t", [Cell("a", "1")])];
    CanInsert([] + ["1"], "2");
    Extend(EMPTY, ops, InsertRow("t", [Cell("a", "2")]), FIRST);
    ops := ops + [InsertRow("t", [Cell("a", "2")])];
    CanInsert([] + ["1"] + ["2"], "3");
    Extend(EMPTY, ops, InsertRow("t", [Cell("a", "3")]), FIRST);
    ops := ops + [InsertRow("t", [Cell("a", "3")])];
    assert ops == Inserts() && [] + ["1"] + ["2"] + ["3"] == THREE;
  }

  lemma NoRows()
    ensures With([]) == ONE_TABLE
  {
    assert With([]).rows == map[];
  }

  lemma ThreeListed()
    ensures IsListing(THREE, With(THREE), "t", "")
  {
    assert Less("1", "2") && Less("1", "3") && Less("2", "3");
    forall key ensures key in THREE <==> Matches(With(THREE), "t", "", key) {
      assert RowId("default", "t", key) in With(THREE).rows <==> key in THREE;
      assert "" <= key;
    }
  }

  /** Three rows and LIMIT 1: LIKE answers two of them, and `>` misses a greater one. */
  lemma LimitIsOff(data: map<string, string>) returns (s: State)
    requires forall k :: k in data ==> !Ours(k)
    ensures Recover(data).Some? && Run(Recover(data).value, Inserts()).Some? && s == Run(Recover(data).value, Inserts()).value.0
    ensures HasTable(s, "t") && |SelectLike(s, "t", "%", 1)| > 1
    ensures SelectGreater(s, "t", "0", 1) != RowsAt(With(THREE), "t", KeysAbove(THREE, "0"))
  {
    hide Rel, Recover, Run, Legal, AbsRun, With, SelectLike, SelectGreater, RowsAt, KeysAbove;
    ThreeRows();
    s := Reaches(data, Inserts(), FIRST);
    ThreeListed();
    TableThere(s);
    assert LikePrefix("%") == "";
    LimitExceededExactly(s, With(THREE), "t", "%", 1, THREE, FIRST);
    GreaterIsFilterExactly(s, With(THREE), "t", "0", 1, THREE, FIRST);
    assert Less("0", "3");
  }

  lemma TableThere(s: State)
    requires Rel(s, With(THREE), FIRST)
    ensures HasTable(s, "t")
  {
    hide Stored, RowOk;
    Current(s, With(THREE));
    assert "t" in Tables(With(THREE));
  }
}
