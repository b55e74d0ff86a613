/**
 The key/value server the executors talk to: a map from string to string whose
 `SCAN 0 MATCH prefix*` answers every pair under the prefix, in key order, flattened to
 key, value, key, value. The server itself is foreign code; this is what the model assumes of it.
 */
module KvStore {
  import opened Order

  type Pairs = seq<(string, string)>

  predicate Ordered(reply: Pairs) {
    forall i, j :: 0 <= i < j < |reply| ==> Less(reply[i].0, reply[j].0)
  }

  /** `reply` is the answer to a scan of `prefix*`. */
  ghost predicate IsScan(reply: Pairs, data: map<string, string>, prefix: string) {
    && Ordered(reply)
    && (forall i :: 0 <= i < |reply| ==>
          prefix <= reply[i].0 && reply[i].0 in data && data[reply[i].0] == reply[i].1)
    && (forall k :: k in data && prefix <= k ==> Answers(reply, k))
  }

  ghost predicate Answers(reply: Pairs, k: string) { exists i :: 0 <= i < |reply| && reply[i].0 == k }

  /** Every scan has an answer ... */
  lemma ScanExists(data: map<string, string>, prefix: string)
    ensures exists reply :: IsScan(reply, data, prefix)
  {
    var ks := set k | k in data && prefix <= k;
    var order := InOrder(ks);
    var reply: Pairs := seq(|order|, i requires 0 <= i < |order| => (order[i], if order[i] in data then data[order[i]] else ""));
    forall k | k in data && prefix <= k ensures Answers(reply, k) {
      assert k in ks && k in order;
      var i :| 0 <= i < |order| && order[i] == k;
      assert reply[i].0 == k;
    }
    forall i | 0 <= i < |reply| ensures prefix <= reply[i].0 && reply[i].0 in data && data[reply[i].0] == reply[i].1 {
      assert order[i] in order;
    }
    assert IsScan(reply, data, prefix);
  }

  ghost function Scan(data: map<string, string>, prefix: string): (reply: Pairs)
    ensures IsScan(reply, data, prefix)
  {
    ScanExists(data, prefix);
    var reply :| IsScan(reply, data, prefix);
    reply
  }

  lemma Scanned(data: map<string, string>, prefix: string)
    ensures var reply := Scan(data, prefix);
      forall i :: 0 <= i < |reply| ==> prefix <= reply[i].0 && reply[i].0 in data && data[reply[i].0] == reply[i].1
  {}

  /** ... and only one. */
  lemma ScanUnique(r1: Pairs, r2: Pairs, data: map<string, string>, prefix: string)
    requires IsScan(r1, data, prefix) && IsScan(r2, data, prefix)
    ensures r1 == r2
  {
    SamePrefix(r1, r2, data, prefix, if |r1| < |r2| then |r1| else |r2|);
    if |r1| < |r2| { NoMore(r1, r2, data, prefix); }
    if |r2| < |r1| { NoMore(r2, r1, data, prefix); }
  }

  lemma {:induction false} SamePrefix(r1: Pairs, r2: Pairs, data: map<string, string>, prefix: string, n: nat)
    requires IsScan(r1, data, prefix) && IsScan(r2, data, prefix) && n <= |r1| && n <= |r2|
    ensures r1[..n] == r2[..n]
  {
    if n > 0 {
      SamePrefix(r1, r2, data, prefix, n - 1);
      NotLater(r1, r2, data, prefix, n - 1);
      NotLater(r2, r1, data, prefix, n - 1);
      LessTotal(r1[n - 1].0, r2[n - 1].0);
      assert r1[..n] == r1[..n - 1] + [r1[n - 1]] && r2[..n] == r2[..n - 1] + [r2[n - 1]];
    }
  }

  lemma NotLater(r1: Pairs, r2: Pairs, data: map<string, string>, prefix: string, n: nat)
    requires IsScan(r1, data, prefix) && IsScan(r2, data, prefix) && n < |r1| && n < |r2|
    requires r1[..n] == r2[..n]
    ensures !Less(r1[n].0, r2[n].0)
  {
    assert Answers(r2, r1[n].0);
    var j :| 0 <= j < |r2| && r2[j].0 == r1[n].0;
    if j < n {
      assert r2[..n][j] == r1[..n][j] && Less(r1[j].0, r1[n].0);
      LessIrreflexive(r1[n].0);
    } else if j > n {
      LessTotal(r2[n].0, r1[n].0);
    } else {
      LessIrreflexive(r1[n].0);
    }
  }

  lemma NoMore(r1: Pairs, r2: Pairs, data: map<string, string>, prefix: string)
    requires IsScan(r1, data, prefix) && IsScan(r2, data, prefix) && |r1| < |r2|
    ensures r1 != r2[..|r1|]
  {
    var k := r2[|r1|].0;
    assert Answers(r1, k);
    var j :| 0 <= j < |r1| && r1[j].0 == k;
    if r1 == r2[..|r1|] {
      assert Less(r2[j].0, k);
      LessIrreflexive(k);
    }
  }

  /** The `elements` array of the reply: keys and values alternating. */
  function Flat(reply: Pairs): (r: seq<string>)
    ensures |r| == 2 * |reply|
  {
    seq(2 * |reply|, i requires 0 <= i < 2 * |reply| => if i % 2 == 0 then reply[i / 2].0 else reply[i / 2].1)
  }
}
