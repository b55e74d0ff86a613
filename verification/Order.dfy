/** The order of strings: of the server's keys, and of the keys of a `std::map`. */
module Order {
  /** Byte-wise lexicographic order, as `std::string::compare` and the server order keys. */
  predicate Less(a: string, b: string) {
    b != "" && (a == "" || a[0] < b[0] || (a[0] == b[0] && Less(a[1..], b[1..])))
  }

  lemma {:induction false} LessTotal(a: string, b: string)
    ensures Less(a, b) || Less(b, a) || a == b
    ensures !(Less(a, b) && Less(b, a)) && !Less(a, a)
    decreases |a|
  {
    if a != "" { LessIrreflexive(a); }
    if a != "" && b != "" {
      LessTotal(a[1..], b[1..]);
      if a[1..] == b[1..] && a[0] == b[0] { assert a == [a[0]] + a[1..] == b; }
    }
  }

  lemma {:induction false} LessIrreflexive(a: string)
    ensures !Less(a, a)
  {
    if a != "" { LessIrreflexive(a[1..]); }
  }

  lemma {:induction false} LessTransitive(a: string, b: string, c: string)
    requires Less(a, b) && Less(b, c)
    ensures Less(a, c)
    decreases |a|
  {
    if a != "" && a[0] == b[0] == c[0] { LessTransitive(a[1..], b[1..], c[1..]); }
  }

  /** Strings behind a common prefix order like their rests. */
  lemma {:induction false} LessBehindPrefix(p: string, a: string, b: string)
    ensures Less(p + a, p + b) <==> Less(a, b)
  {
    if p == "" {
      assert p + a == a && p + b == b;
    } else {
      assert (p + a)[1..] == p[1..] + a && (p + b)[1..] == p[1..] + b;
      LessBehindPrefix(p[1..], a, b);
    }
  }

  lemma {:induction false} Least(ks: set<string>) returns (m: string)
    requires ks != {}
    ensures m in ks && forall k :: k in ks && k != m ==> Less(m, k)
    decreases |ks|
  {
    m :| m in ks;
    if ks != {m} {
      var m' := Least(ks - {m});
      LessTotal(m, m');
      if Less(m', m) {
        m := m';
      } else {
        forall k | k in ks && k != m ensures Less(m, k) {
          if k != m' { LessTransitive(m, m', k); }
        }
      }
    }
  }

  lemma {:induction false} InOrder(ks: set<string>) returns (order: seq<string>)
    ensures forall i, j :: 0 <= i < j < |order| ==> Less(order[i], order[j])
    ensures forall k :: k in ks <==> k in order
    decreases |ks|
  {
    if ks == {} {
      order := [];
    } else {
      var m := Least(ks);
      var rest := InOrder(ks - {m});
      order := [m] + rest;
      forall k ensures k in ks <==> k in order {
        if k in ks && k != m { assert k in ks - {m}; }
      }
    }
  }
}
