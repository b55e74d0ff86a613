/** Bytes, the 64-bit arithmetic of `std::size_t`, and power-of-two masks. */
module Bytes {
  import opened Common

  type byte = x: int | 0 <= x < 256

  /** One more than the largest `std::size_t`. */
  const SIZE_T: nat := 0x1_0000_0000_0000_0000

  function Flatten<T>(segments: seq<seq<T>>): (all: seq<T>) {
    if segments == [] then [] else segments[0] + Flatten(segments[1..])
  }

  lemma {:induction false} FlattenAppend<T>(a: seq<seq<T>>, b: seq<seq<T>>)
    ensures Flatten(a + b) == Flatten(a) + Flatten(b)
  {
    if a == [] {
      assert a + b == b;
    } else {
      assert (a + b)[1..] == a[1..] + b;
      FlattenAppend(a[1..], b);
    }
  }

  lemma SliceOfPrefix<T>(s: seq<T>, t: seq<T>, a: nat, b: nat)
    requires a <= b <= |t| <= |s| && s[..|t|] == t
    ensures s[a..b] == t[a..b]
  {
    assert s[..|t|][a..b] == s[a..b] by { SliceOfSlice(s, 0, |t|, a, b); }
  }

  lemma Regroup4<T>(w: seq<T>, a: seq<T>, b: seq<T>, c: seq<T>)
    ensures w + (a + b + c) == w + a + b + c
    ensures w + (a + b + c) == (w + a) + (b + c)
    ensures a + b + c == a + (b + c)
  {}

  lemma FlattenOne<T>(a: seq<T>)
    ensures Flatten([a]) == a
  {
    assert [a][1..] == [];
  }

  lemma FlattenTwo<T>(a: seq<T>, b: seq<T>)
    ensures Flatten([a, b]) == a + b
  {
    FlattenOne(b);
    assert [a, b][1..] == [b];
  }

  /** `t` stands in `s` at `at`. */
  predicate Stands<T(==)>(s: seq<T>, at: nat, t: seq<T>) { at + |t| <= |s| && s[at..at + |t|] == t }

  lemma StandsApart<T>(s: seq<T>, at: nat, t1: seq<T>, t2: seq<T>)
    ensures Stands(s, at, t1 + t2) <==> Stands(s, at, t1) && Stands(s, at + |t1|, t2)
  {
    if at + |t1| + |t2| <= |s| {
      var w := s[at..at + |t1| + |t2|];
      assert w == s[at..at + |t1|] + s[at + |t1|..at + |t1| + |t2|];
      assert w[..|t1|] == s[at..at + |t1|] && w[|t1|..] == s[at + |t1|..at + |t1| + |t2|];
      if w == t1 + t2 { assert (t1 + t2)[..|t1|] == t1 && (t1 + t2)[|t1|..] == t2; }
    }
  }

  function Pow2(k: nat): (p: nat)
    ensures p > 0
  {
    if k == 0 then 1 else 2 * Pow2(k - 1)
  }

  ghost predicate IsPow2(n: nat) { exists k: nat :: n == Pow2(k) }

  lemma {:induction false} Pow2Split(k: nat, n: nat)
    requires k <= n
    ensures Pow2(n) == Pow2(k) * Pow2(n - k)
    decreases n
  {
    if k < n {
      Pow2Split(k, n - 1);
      assert Pow2(n) == 2 * (Pow2(k) * Pow2(n - 1 - k)) == Pow2(k) * (2 * Pow2(n - 1 - k));
    }
  }

  lemma {:induction false} Pow2Grows(k: nat, n: nat)
    requires k < n
    ensures Pow2(k) < Pow2(n)
    decreases n
  {
    if k < n - 1 { Pow2Grows(k, n - 1); }
  }

  lemma Pow2Of31()
    ensures IsPow2(0x8000_0000)
  {
    assert Pow2(8) == 0x100 && Pow2(7) == 0x80;
    Pow2Split(8, 15);
    Pow2Split(8, 16);
    Pow2Split(16, 31);
    assert Pow2(31) == 0x8000_0000;
  }

  lemma Pow2Of64()
    ensures Pow2(64) == SIZE_T && Pow2(63) == SIZE_T / 2
  {
    assert Pow2(8) == 0x100;
    Pow2Split(8, 16);
    Pow2Split(16, 32);
    Pow2Split(32, 64);
    assert Pow2(16) == 0x1_0000 && Pow2(32) == 0x1_0000_0000;
  }

  /** Bitwise conjunction of two non-negative machine words. */
  function And(x: nat, y: nat): nat
    decreases x
  {
    if x == 0 || y == 0 then 0 else 2 * And(x / 2, y / 2) + (x % 2) * (y % 2)
  }

  lemma AndOdd(x: nat, h: nat)
    ensures And(x, 2 * h + 1) == 2 * And(x / 2, h) + x % 2
  {
    assert (2 * h + 1) / 2 == h && (2 * h + 1) % 2 == 1;
  }

  /** Masking with one less than a power of two is taking the remainder by it. */
  lemma {:induction false} MaskIsModulo(x: nat, k: nat)
    ensures And(x, Pow2(k) - 1) == x % Pow2(k)
    decreases k
  {
    if k > 0 {
      var p := Pow2(k - 1);
      assert Pow2(k) - 1 == 2 * (p - 1) + 1;
      AndOdd(x, p - 1);
      MaskIsModulo(x / 2, k - 1);
      HalvedModulo(x, p);
    }
  }

  lemma {:induction false} HalvedModulo(x: nat, p: nat)
    requires p > 0
    ensures 2 * ((x / 2) % p) + x % 2 == x % (2 * p)
  {
    var h := x / 2;
    var q, r := h / p, h % p;
    Scale(p, q);
    assert x == (2 * p) * q + (2 * r + x % 2);
    ModuloUnique(x, 2 * p, q, 2 * r + x % 2);
  }

  lemma Scale(p: nat, q: nat)
    ensures (2 * p) * q == 2 * (p * q)
  {}

  lemma {:induction false} QuotientUnique(d: nat, q: int, r: nat, q': int, r': nat)
    requires r < d && r' < d && d * q + r == d * q' + r'
    ensures q == q' && r == r'
  {
    if q > q' { AtLeast(d, q - q'); }
    if q' > q { AtLeast(d, q' - q); }
  }

  lemma AtLeast(d: nat, n: nat)
    requires n > 0
    ensures d * n >= d
  {}

  lemma {:induction false} ModuloUnique(x: int, d: nat, q: int, r: nat)
    requires r < d && x == d * q + r
    ensures x % d == r && x / d == q
  {
    QuotientUnique(d, q, r, x / d, x % d);
  }

  lemma MaskIsRemainder(x: nat, m: nat, q: nat, r: nat)
    requires IsPow2(m) && r < m && x == m * q + r
    ensures And(x, m - 1) == r
  {
    var k: nat :| m == Pow2(k);
    MaskIsModulo(x, k);
    ModuloUnique(x, m, q, r);
  }

  lemma WordsPerRing(m: nat) returns (q: nat)
    requires IsPow2(m) && m <= SIZE_T
    ensures q > 0 && SIZE_T == m * q
  {
    var k: nat :| m == Pow2(k);
    Pow2Of64();
    if k > 64 { Pow2Grows(64, k); }
    Pow2Split(k, 64);
    q := Pow2(64 - k);
  }

  lemma OneLess(m: nat, q: nat)
    requires q > 0
    ensures m * q == m * (q - 1) + m
  {}

  /** `(a - b) & (m - 1)` in `std::size_t`, for positions inside a power-of-two ring. */
  lemma MaskedDistance(a: nat, b: nat, m: nat)
    requires IsPow2(m) && m <= SIZE_T && a < m && b < m
    ensures And((a - b) % SIZE_T, m - 1) == if a >= b then a - b else m + a - b
  {
    hide IsPow2, And, Pow2;
    if a >= b {
      assert (a - b) % SIZE_T == a - b;
      MaskIsRemainder(a - b, m, 0, a - b);
    } else {
      var q := WordsPerRing(m);
      OneLess(m, q);
      MaskIsRemainder(SIZE_T + a - b, m, q - 1, m + a - b);
      assert (a - b) % SIZE_T == SIZE_T + a - b;
    }
  }

  /** `(a + n) & (m - 1)` for a position inside the ring moved by at most its size. */
  lemma MaskedAdvance(a: nat, n: nat, m: nat)
    requires IsPow2(m) && a < m && n <= m
    ensures And(a + n, m - 1) == if a + n < m then a + n else a + n - m
  {
    if a + n < m { MaskIsRemainder(a + n, m, 0, a + n); }
    else { MaskIsRemainder(a + n, m, 1, a + n - m); }
  }
}
