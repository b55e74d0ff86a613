/** The scanning queries, LIKE 'p%' and `>`, against filters over the rows of the plain database. */
module Queries {
  import opened Common
  import opened Schema
  import opened StringUtils
  import opened KvStore
  import opened Order
  import opened Keys
  import opened Engine
  import opened Refinement
  import opened Simulation

  /** The key belongs to a row of the table and starts with `p`. */
  predicate Matches(a: Abs, table: string, p: string, key: string) {
    RowId(a.cur, table, key) in a.rows && p <= key
  }

  /** `keys` lists the matching keys of the table, each once, in order. */
  ghost predicate IsListing(keys: seq<string>, a: Abs, table: string, p: string) {
    && (forall i, j :: 0 <= i < j < |keys| ==> Less(keys[i], keys[j]))
    && (forall key :: key in keys <==> Matches(a, table, p, key))
  }

  lemma ListingExists(a: Abs, table: string, p: string)
    ensures exists keys :: IsListing(keys, a, table, p)
  {
    var ids := set id | id in a.rows && id.db == a.cur && id.table == table && p <= id.key;
    var order := InOrder(set id | id in ids :: id.key);
    forall key ensures key in order <==> Matches(a, table, p, key) {
      if Matches(a, table, p, key) { assert RowId(a.cur, table, key) in ids; }
    }
    assert IsListing(order, a, table, p);
  }

  /** The rows under the keys, with their column names and types. */
  function RowsAt(a: Abs, table: string, keys: seq<string>): seq<seq<Field>> {
    var cols := if table in Tables(a) then Tables(a)[table] else [];
    seq(|keys|, i requires 0 <= i < |keys| =>
      var id := RowId(a.cur, table, keys[i]);
      FieldsOf(cols, if id in a.rows then a.rows[id] else []))
  }

  /** The stored pairs under the keys. */
  function PairsAt(s: State, table: string, keys: seq<string>): (r: Pairs)
    ensures |r| == |keys|
  {
    seq(|keys|, i requires 0 <= i < |keys| =>
      var k := DataKey(s.cur, table, keys[i]);
      (k, if k in s.data then s.data[k] else ""))
  }

  function KeysAbove(keys: seq<string>, bound: string): seq<string> {
    if keys == [] then [] else
    KeysAbove(keys[..|keys| - 1], bound) + (if Less(bound, keys[|keys| - 1]) then [keys[|keys| - 1]] else [])
  }

  /** A scan under the key prefix of a table finds the listed rows. */
  lemma ScanFinds(s: State, a: Abs, table: string, p: string, keys: seq<string>, pk: KeyCols)
    requires Rel(s, a, pk) && HasTable(s, table) && IsListing(keys, a, table, p)
    ensures Scan(s.data, DataPrefix(s.cur, table) + p) == PairsAt(s, table, keys)
  {
    hide Rel, HasTable, RowOk;
    var prefix, pairs := DataPrefix(s.cur, table) + p, PairsAt(s, table, keys);
    InTheTable(s, a, table, pk);
    forall i, j | 0 <= i < j < |pairs| ensures Less(pairs[i].0, pairs[j].0) {
      LessBehindPrefix(DataPrefix(s.cur, table), keys[i], keys[j]);
    }
    forall i | 0 <= i < |pairs| ensures prefix <= pairs[i].0 && pairs[i].0 in s.data {
      assert keys[i] in keys;
      StoredExactly(s, a, RowId(s.cur, table, keys[i]), pk);
      PrefixBehind(DataPrefix(s.cur, table), p, keys[i]);
    }
    forall k | k in s.data && prefix <= k ensures Answers(pairs, k) {
      var key := KeyOf(s, a, table, p, k, pk);
      var i :| 0 <= i < |keys| && keys[i] == key;
      assert pairs[i].0 == k;
    }
    ScanUnique(Scan(s.data, prefix), pairs, s.data, prefix);
  }

  lemma InTheTable(s: State, a: Abs, table: string, pk: KeyCols)
    requires Rel(s, a, pk) && HasTable(s, table)
    ensures a.cur == s.cur && NoUnderscore(s.cur) && NoUnderscore(table) && table in Tables(a)
    ensures SchemaOk(Tables(a)[table]) && s.dbs[s.cur][table] == MakeTable(table, Tables(a)[table])
  {
    hide DbRel, Stored, RowOk, SchemaOk, MakeTable;
    Current(s, a);
    PlainTable(s, a, table);
  }

  lemma PrefixBehind(q: string, p: string, k: string)
    ensures q + p <= q + k <==> p <= k
  {
    if p <= k { assert (q + k)[..|q + p|] == q + k[..|p|]; }
    if q + p <= q + k {
      assert p == (q + p)[|q|..] && (q + k)[|q|..|q + p|] == p;
      assert (q + k)[|q|..|q + p|] == k[..|p|];
    }
  }

  /** A stored key under the prefix is a matching row's. */
  lemma {:induction false} KeyOf(s: State, a: Abs, table: string, p: string, k: string, pk: KeyCols) returns (key: string)
    requires Rel(s, a, pk) && HasTable(s, table) && k in s.data && DataPrefix(s.cur, table) + p <= k
    ensures k == DataKey(s.cur, table, key) && Matches(a, table, p, key)
  {
    hide MemoryRel, HasTable, RowOk, DataPrefix;
    InTheTable(s, a, table, pk);
    var q := DataPrefix(s.cur, table);
    key := k[|q|..];
    assert k == q + key;
    PrefixBehind(q, p, key);
    StoredExactly(s, a, RowId(s.cur, table, key), pk);
  }

  /** Decoding the scanned pairs gives the rows. */
  lemma {:induction false} DecodesRows(s: State, a: Abs, table: string, keys: seq<string>, pk: KeyCols)
    requires Rel(s, a, pk) && HasTable(s, table)
    requires forall i :: 0 <= i < |keys| ==> RowId(a.cur, table, keys[i]) in a.rows
    ensures DecodeRows(s.dbs[s.cur][table], PairsAt(s, table, keys)) == RowsAt(a, table, keys)
  {
    hide Rel, DecodeRow, DataKey, MakeTable, SchemaOk, FieldsOf;
    InTheTable(s, a, table, pk);
    var t := s.dbs[s.cur][table];
    forall i | 0 <= i < |keys|
      ensures DecodeRow(t, PairsAt(s, table, keys)[i].1) == RowsAt(a, table, keys)[i]
    {
      DecodesRow(s, a, table, keys[i], pk);
    }
  }

  lemma {:induction false} DecodesRow(s: State, a: Abs, table: string, key: string, pk: KeyCols)
    requires Rel(s, a, pk) && HasTable(s, table) && RowId(a.cur, table, key) in a.rows
    ensures table in Tables(a) && DataKey(s.cur, table, key) in s.data
    ensures DecodeRow(s.dbs[s.cur][table], s.data[DataKey(s.cur, table, key)])
         == FieldsOf(Tables(a)[table], a.rows[RowId(a.cur, table, key)])
  {
    hide Rel, DecodeRow, DataKey, MakeTable, FieldsOf, Join;
    InTheTable(s, a, table, pk);
    var id := RowId(a.cur, table, key);
    StoredExactly(s, a, id, pk);
    DecodesToFields(table, Tables(a)[table], a.rows[id]);
  }

  /** LIKE `p%` answers the rows whose key starts with `p`, in key order: all of them without a
      limit, and the first limit + 1 with one. */
  lemma LikeReturns(s: State, a: Abs, table: string, value: string, limit: nat, keys: seq<string>, pk: KeyCols)
    requires Rel(s, a, pk) && HasTable(s, table) && IsListing(keys, a, table, LikePrefix(value))
    ensures SelectLike(s, table, value, limit) == RowsAt(a, table, if limit == 0 then keys else Limited(keys, limit))
  {
    hide Rel, HasTable, DataPrefix, DecodeRows, PairsAt, RowsAt, LikePrefix;
    ScanFinds(s, a, table, LikePrefix(value), keys, pk);
    var found := if limit == 0 then keys else Limited(keys, limit);
    LimitedPairs(s, table, keys, limit);
    AllMatch(a, table, LikePrefix(value), keys, found);
    DecodesRows(s, a, table, found, pk);
  }

  /** The pattern `p%` and, when it has no `%` at its end, `p` itself both mean the prefix `p`: of
      the matching rows all come back without a limit, and the first limit + 1 with one. */
  lemma LikeIsPrefix(s: State, a: Abs, table: string, p: string, limit: nat, keys: seq<string>, pk: KeyCols)
    requires Rel(s, a, pk) && HasTable(s, table) && IsListing(keys, a, table, p)
    ensures var found := if limit == 0 || |keys| <= limit + 1 then keys else keys[..limit + 1];
      && SelectLike(s, table, p + "%", limit) == RowsAt(a, table, found)
      && (p == "" || p[|p| - 1] != '%' ==> SelectLike(s, table, p, limit) == RowsAt(a, table, found))
  {
    hide Rel, HasTable, SelectLike, IsListing, RowsAt;
    assert LikePrefix(p + "%") == p;
    LikeReturns(s, a, table, p + "%", limit, keys, pk);
    if p == "" || p[|p| - 1] != '%' { LikeReturns(s, a, table, p, limit, keys, pk); }
  }

  lemma AllMatch(a: Abs, table: string, p: string, keys: seq<string>, found: seq<string>)
    requires IsListing(keys, a, table, p) && found <= keys
    ensures forall i :: 0 <= i < |found| ==> RowId(a.cur, table, found[i]) in a.rows
  {
    forall i | 0 <= i < |found| ensures Matches(a, table, p, found[i]) { assert found[i] == keys[i] && keys[i] in keys; }
  }

  lemma LimitedPairs(s: State, table: string, keys: seq<string>, limit: nat)
    ensures Limited(PairsAt(s, table, keys), limit) == PairsAt(s, table, Limited(keys, limit))
    ensures Limited(keys, limit) <= keys
  {
    hide DataKey;
  }

  /** A limit is exceeded exactly when more rows match than it allows. */
  lemma LimitExceededExactly(s: State, a: Abs, table: string, value: string, limit: nat, keys: seq<string>, pk: KeyCols)
    requires Rel(s, a, pk) && HasTable(s, table) && IsListing(keys, a, table, LikePrefix(value)) && limit > 0
    ensures |SelectLike(s, table, value, limit)| > limit <==> |keys| > limit
  {
    hide Rel, HasTable, SelectLike, LikePrefix;
    LikeReturns(s, a, table, value, limit, keys, pk);
  }

  /** Comparing the stored keys is comparing the keys of the rows. */
  lemma {:induction false} AboveIsKeysAbove(s: State, table: string, keys: seq<string>, bound: string)
    ensures Above(PairsAt(s, table, keys), DataKey(s.cur, table, bound)) == PairsAt(s, table, KeysAbove(keys, bound))
    decreases |keys|
  {
    hide DataPrefix, Less;
    if keys != [] {
      var n := |keys| - 1;
      assert PairsAt(s, table, keys)[..n] == PairsAt(s, table, keys[..n]);
      AboveIsKeysAbove(s, table, keys[..n], bound);
      LessBehindPrefix(DataPrefix(s.cur, table), bound, keys[n]);
    }
  }

  lemma {:induction false} KeysAboveAre(keys: seq<string>, bound: string)
    ensures forall key :: key in KeysAbove(keys, bound) <==> key in keys && Less(bound, key)
  {
    if keys != [] {
      KeysAboveAre(keys[..|keys| - 1], bound);
      assert keys == keys[..|keys| - 1] + [keys[|keys| - 1]];
    }
  }

  lemma {:induction false} KeysAboveAppend(ks1: seq<string>, ks2: seq<string>, bound: string)
    ensures KeysAbove(ks1 + ks2, bound) == KeysAbove(ks1, bound) + KeysAbove(ks2, bound)
    decreases |ks2|
  {
    hide Less;
    if ks2 == [] {
      assert ks1 + ks2 == ks1;
    } else {
      var n := |ks2| - 1;
      KeysAboveAppend(ks1, ks2[..n], bound);
      assert (ks1 + ks2)[..|ks1| + n] == ks1 + ks2[..n];
      var last := if Less(bound, ks2[n]) then [ks2[n]] else [];
      Assoc(KeysAbove(ks1, bound), KeysAbove(ks2[..n], bound), last);
    }
  }

  /** `>` answers, of the first limit + 1 rows of the table, those whose key is greater. */
  lemma GreaterReturns(s: State, a: Abs, table: string, value: string, limit: nat, keys: seq<string>, pk: KeyCols)
    requires Rel(s, a, pk) && HasTable(s, table) && IsListing(keys, a, table, "")
    ensures SelectGreater(s, table, value, limit) == RowsAt(a, table, KeysAbove(Limited(keys, limit), value))
  {
    hide Rel, HasTable, DataPrefix, DecodeRows, PairsAt, RowsAt, DataKey, Above, KeysAbove;
    ScanFinds(s, a, table, "", keys, pk);
    assert DataPrefix(s.cur, table) + "" == DataPrefix(s.cur, table);
    LimitedPairs(s, table, keys, limit);
    AboveIsKeysAbove(s, table, Limited(keys, limit), value);
    var found := KeysAbove(Limited(keys, limit), value);
    KeysAboveAre(Limited(keys, limit), value);
    forall i | 0 <= i < |found| ensures Matches(a, table, "", found[i]) {
      assert found[i] in found && found[i] in Limited(keys, limit);
    }
    DecodesRows(s, a, table, found, pk);
  }

  /** `>` answers every row with a greater key exactly when the table has at most limit + 1 rows
      or its last key is not greater. Without a LIMIT clause the limit is 0: one row is looked at. */
  lemma {:induction false} GreaterIsFilterExactly(s: State, a: Abs, table: string, value: string, limit: nat, keys: seq<string>, pk: KeyCols)
    requires Rel(s, a, pk) && HasTable(s, table) && IsListing(keys, a, table, "")
    ensures SelectGreater(s, table, value, limit) == RowsAt(a, table, KeysAbove(keys, value))
        <==> |keys| <= limit + 1 || !Less(value, keys[|keys| - 1])
  {
    hide Rel, HasTable, SelectGreater, KeysAbove, FieldsOf;
    GreaterReturns(s, a, table, value, limit, keys, pk);
    if |keys| > limit + 1 {
      var seen, rest := Limited(keys, limit), keys[limit + 1..];
      assert keys == seen + rest;
      KeysAboveAppend(seen, rest, value);
      KeysAboveAre(rest, value);
      assert rest[|rest| - 1] == keys[|keys| - 1];
      NoneAbove(keys, rest, value);
    }
  }

  lemma NoneAbove(keys: seq<string>, rest: seq<string>, value: string)
    requires forall i, j :: 0 <= i < j < |keys| ==> Less(keys[i], keys[j])
    requires rest != [] && |rest| <= |keys| && rest == keys[|keys| - |rest|..]
    ensures KeysAbove(rest, value) == [] <==> !Less(value, keys[|keys| - 1])
  {
    KeysAboveAre(rest, value);
    var last := keys[|keys| - 1];
    assert rest[|rest| - 1] == last && last in rest;
    if KeysAbove(rest, value) != [] {
      var key := KeysAbove(rest, value)[0];
      assert key in KeysAbove(rest, value);
      var i :| 0 <= i < |rest| && rest[i] == key;
      assert rest[i] == keys[|keys| - |rest| + i];
      if i < |rest| - 1 { LessTransitive(value, key, last); }
    }
  }
}
