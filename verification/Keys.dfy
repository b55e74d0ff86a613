/** The keys under which databases, tables and rows are stored, and when they cannot collide. */
module Keys {

  function DbKey(db: string): string { "database_" + db }

  function TablePrefix(db: string): string { "table_" + db + "_" }

  function TableKey(db: string, table: string): string { TablePrefix(db) + table }

  function DataPrefix(db: string, table: string): string { "data_" + db + "_" + table + "_p_" }

  function DataKey(db: string, table: string, key: string): string { DataPrefix(db, table) + key }

  predicate NoUnderscore(s: string) { '_' !in s }

  /** The part before the first underscore is determined. */
  lemma CutAtUnderscore(a: string, x: string, b: string, y: string)
    requires NoUnderscore(a) && NoUnderscore(b)
    requires a + "_" + x == b + "_" + y
    ensures a == b && x == y
  {
    var s := a + "_" + x;
    assert s[|a|] == '_' && s[|b|] == '_';
    assert forall i :: 0 <= i < |a| ==> s[i] == a[i] && a[i] in a;
    assert forall i :: 0 <= i < |b| ==> s[i] == b[i] && b[i] in b;
    assert a == s[..|a|] && b == s[..|b|];
    assert x == s[|a| + 1..] && y == s[|b| + 1..];
  }

  /** The three kinds of key never meet. */
  lemma KindsDiffer(k: string)
    ensures !("database_" <= k && "table_" <= k)
    ensures !("database_" <= k && "data_" <= k)
    ensures !("table_" <= k && "data_" <= k)
  {
    if "database_" <= k { assert k[0] == 'd' && k[4] == 'b'; }
    if "table_" <= k { assert k[0] == 't'; }
    if "data_" <= k { assert k[0] == 'd' && k[4] == '_'; }
  }

  lemma Kinds(db: string, table: string, key: string)
    ensures "database_" <= DbKey(db) && "table_" <= TableKey(db, table) && "data_" <= DataKey(db, table, key)
    ensures TablePrefix(db) <= TableKey(db, table) && DataPrefix(db, table) <= DataKey(db, table, key)
  {
    assert TableKey(db, table)[..6] == "table_";
    assert DataKey(db, table, key)[..5] == "data_";
  }

  lemma DbKeyInjective(d1: string, d2: string)
    requires DbKey(d1) == DbKey(d2)
    ensures d1 == d2
  {
    assert d1 == DbKey(d1)[9..] && d2 == DbKey(d2)[9..];
  }

  /** A table key read under the prefix of a database belongs to that database. */
  lemma TableKeyOf(d1: string, d2: string, table: string)
    requires NoUnderscore(d1) && NoUnderscore(d2) && TablePrefix(d1) <= TableKey(d2, table)
    ensures d1 == d2 && TableKey(d2, table)[|TablePrefix(d1)|..] == table
  {
    var k := TableKey(d2, table);
    var rest := k[|TablePrefix(d1)|..];
    assert k == "table_" + (d1 + "_" + rest) && k == "table_" + (d2 + "_" + table);
    assert k[6..] == d1 + "_" + rest && k[6..] == d2 + "_" + table;
    CutAtUnderscore(d1, rest, d2, table);
  }

  lemma TableKeyInjective(d1: string, t1: string, d2: string, t2: string)
    requires NoUnderscore(d1) && NoUnderscore(d2) && TableKey(d1, t1) == TableKey(d2, t2)
    ensures d1 == d2 && t1 == t2
  {
    Kinds(d1, t1, "");
    TableKeyOf(d1, d2, t2);
    assert TableKey(d1, t1)[|TablePrefix(d1)|..] == t1;
  }

  /** A row key read under the prefix of a table belongs to that table. */
  lemma DataKeyOf(d1: string, t1: string, d2: string, t2: string, key: string)
    requires NoUnderscore(d1) && NoUnderscore(d2) && NoUnderscore(t1) && NoUnderscore(t2)
    requires DataPrefix(d1, t1) <= DataKey(d2, t2, key)
    ensures d1 == d2 && t1 == t2 && DataKey(d2, t2, key)[|DataPrefix(d1, t1)|..] == key
  {
    var k := DataKey(d2, t2, key);
    var rest := k[|DataPrefix(d1, t1)|..];
    var x1, x2 := t1 + "_" + ("p_" + rest), t2 + "_" + ("p_" + key);
    assert k == "data_" + (d1 + "_" + x1) && k == "data_" + (d2 + "_" + x2);
    assert k[5..] == d1 + "_" + x1 && k[5..] == d2 + "_" + x2;
    CutAtUnderscore(d1, x1, d2, x2);
    CutAtUnderscore(t1, "p_" + rest, t2, "p_" + key);
    assert ("p_" + rest)[2..] == rest && ("p_" + key)[2..] == key;
  }

  lemma DataKeyInjective(d1: string, t1: string, k1: string, d2: string, t2: string, k2: string)
    requires NoUnderscore(d1) && NoUnderscore(d2) && NoUnderscore(t1) && NoUnderscore(t2)
    requires DataKey(d1, t1, k1) == DataKey(d2, t2, k2)
    ensures d1 == d2 && t1 == t2 && k1 == k2
  {
    Kinds(d1, t1, k1);
    DataKeyOf(d1, t1, d2, t2, k2);
    assert DataKey(d1, t1, k1)[|DataPrefix(d1, t1)|..] == k1;
  }

  // ---------------------------------------------------------------- keys as values

  datatype Key = OfDb(db: string) | OfTable(db: string, table: string) | OfRow(db: string, table: string, key: string)

  function Text(key: Key): string {
    match key
    case OfDb(d) => DbKey(d)
    case OfTable(d, t) => TableKey(d, t)
    case OfRow(d, t, k) => DataKey(d, t, k)
  }

  /** Database names have no underscore, nor have the names of tables with rows. */
  predicate Good(key: Key) { NoUnderscore(key.db) && (key.OfRow? ==> NoUnderscore(key.table)) }

  predicate Ours(k: string) { "database_" <= k || "table_" <= k || "data_" <= k }

  ghost predicate IsText(k: string) { exists key :: Good(key) && k == Text(key) }

  lemma TextKind(key: Key)
    ensures Ours(Text(key))
    ensures "database_" <= Text(key) <==> key.OfDb?
    ensures "table_" <= Text(key) <==> key.OfTable?
    ensures "data_" <= Text(key) <==> key.OfRow?
  {
    KindsDiffer(Text(key));
    match key {
      case OfDb(d) => Kinds(d, "", "");
      case OfTable(d, t) => Kinds(d, t, "");
      case OfRow(d, t, k) => Kinds(d, t, k);
    }
  }

  /** Two good keys are stored under different texts. */
  lemma TextInjective(k1: Key, k2: Key)
    requires Good(k1) && Good(k2) && Text(k1) == Text(k2)
    ensures k1 == k2
  {
    TextKind(k1);
    TextKind(k2);
    match k1 {
      case OfDb(d) => DbKeyInjective(d, k2.db);
      case OfTable(d, t) => TableKeyInjective(d, t, k2.db, k2.table);
      case OfRow(d, t, k) => DataKeyInjective(d, t, k, k2.db, k2.table, k2.key);
    }
  }

  /** Rows of two tables can share a key exactly when one table's key prefix extends the other's. */
  lemma RowsMeetExactly(d1: string, t1: string, d2: string, t2: string)
    ensures (exists k1, k2 :: DataKey(d1, t1, k1) == DataKey(d2, t2, k2))
        <==> DataPrefix(d1, t1) <= DataPrefix(d2, t2) || DataPrefix(d2, t2) <= DataPrefix(d1, t1)
  {
    hide DataPrefix;
    var p1, p2 := DataPrefix(d1, t1), DataPrefix(d2, t2);
    if k1, k2 :| DataKey(d1, t1, k1) == DataKey(d2, t2, k2) {
      var k := p1 + k1;
      assert k[..|p1|] == p1 && k[..|p2|] == p2;
      if |p1| <= |p2| { assert p2[..|p1|] == p1; } else { assert p1[..|p2|] == p2; }
    }
    if p1 <= p2 {
      assert DataKey(d1, t1, p2[|p1|..]) == DataKey(d2, t2, "");
    }
    if p2 <= p1 {
      assert DataKey(d1, t1, "") == DataKey(d2, t2, p1[|p2|..]);
    }
  }

  /** Two such tables of one database, and of two. */
  lemma RowsMeet(db: string, key: string)
    ensures DataKey(db, "a", "p_" + key) == DataKey(db, "a_p", key)
    ensures DataKey(db, "a_b", key) == DataKey(db + "_a", "b", key)
  {
    assert DataPrefix(db, "a") + "p_" == DataPrefix(db, "a_p");
    assert DataPrefix(db, "a_b") == DataPrefix(db + "_a", "b");
  }
}
