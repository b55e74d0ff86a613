/**
 Trim, StringSplit and StringsJoin of network/string_utils.h: the encoding of a row as one
 string. A `char` of the model stands for one byte.
 */
module StringUtils {
  import opened Common

  predicate At(s: string, d: string, k: nat) { k + |d| <= |s| && s[k..k + |d|] == d }

  /** The first position at or after `from` where `d` occurs in `s`, or |s| + 1 for none. */
  function Find(s: string, d: string, from: nat): (r: nat)
    ensures r <= |s| ==> from <= r && At(s, d, r)
    ensures forall k :: from <= k < r ==> !At(s, d, k)
    ensures r <= |s| + 1
    decreases |s| - from
  {
    if from + |d| > |s| then |s| + 1
    else if s[from..from + |d|] == d then from
    else Find(s, d, from + 1)
  }

  predicate Occurs(s: string, d: string) { Find(s, d, 0) <= |s| }

  lemma OccursAt(s: string, d: string)
    ensures Occurs(s, d) <==> exists k :: At(s, d, k)
  {}

  lemma FindIs(s: string, d: string, k: nat)
    requires At(s, d, k) && forall j :: 0 <= j < k ==> !At(s, d, j)
    ensures Find(s, d, 0) == k
  {}

  /** `s[i] <= 32` on a signed `char`: control characters, the space, and every byte from 128. */
  predicate Blank(c: char) { c as int <= 32 || c as int >= 128 }

  predicate Trimmed(s: string) { s == "" || (!Blank(s[0]) && !Blank(s[|s| - 1])) }

  function TrimLeft(s: string): (r: string)
    ensures |r| <= |s|
  {
    if s != "" && Blank(s[0]) then TrimLeft(s[1..]) else s
  }

  function TrimRight(s: string): (r: string)
    ensures |r| <= |s|
  {
    if s != "" && Blank(s[|s| - 1]) then TrimRight(s[..|s| - 1]) else s
  }

  function Trim(s: string): (r: string)
    ensures |r| <= |s|
  {
    TrimRight(TrimLeft(s))
  }

  lemma {:induction false} TrimLeftIs(s: string, n: nat)
    requires n <= |s| && (n < |s| ==> !Blank(s[n]))
    requires forall k :: 0 <= k < n ==> Blank(s[k])
    ensures TrimLeft(s) == s[n..]
  {
    if n > 0 {
      TrimLeftIs(s[1..], n - 1);
      assert s[1..][n - 1..] == s[n..];
    }
  }

  lemma {:induction false} TrimRightIs(s: string, n: nat)
    requires n <= |s| && (n > 0 ==> !Blank(s[n - 1]))
    requires forall k :: n <= k < |s| ==> Blank(s[k])
    ensures TrimRight(s) == s[..n]
    decreases |s|
  {
    if n < |s| {
      TrimRightIs(s[..|s| - 1], n);
      assert s[..|s| - 1][..n] == s[..n];
    } else {
      assert s[..n] == s;
    }
  }

  /** A trimmed string is left alone. */
  lemma TrimIdentity(s: string)
    requires Trimmed(s)
    ensures Trim(s) == s
  {
    TrimLeftIs(s, 0);
    TrimRightIs(s, |s|);
  }

  /** Trimming cuts a trimmed part out of the string, between blanks. */
  lemma TrimCuts(s: string) returns (i: nat, j: nat)
    ensures i <= j <= |s| && Trim(s) == s[i..j] && Trimmed(s[i..j])
    ensures forall k :: 0 <= k < i || j <= k < |s| ==> Blank(s[k])
  {
    i := 0;
    while i < |s| && Blank(s[i])
      invariant i <= |s| && forall k :: 0 <= k < i ==> Blank(s[k])
    {
      i := i + 1;
    }
    TrimLeftIs(s, i);
    j := |s|;
    while j > i && Blank(s[j - 1])
      invariant i <= j <= |s| && forall k :: j <= k < |s| ==> Blank(s[k])
    {
      j := j - 1;
    }
    TrimRightIs(s[i..], j - i);
    assert s[i..][..j - i] == s[i..j];
  }

  /** What trimming cuts off are control characters, spaces and bytes from 128 up; it stops at the
      first and behind the last character from 33 to 127. */
  lemma TrimExactly(s: string, i: nat, j: nat)
    requires i <= j <= |s|
    requires i < j ==> 33 <= s[i] as int < 128 && 33 <= s[j - 1] as int < 128
    requires forall k :: 0 <= k < i || j <= k < |s| ==> s[k] as int < 33 || s[k] as int >= 128
    ensures Trim(s) == s[i..j]
  {
    TrimIs(s, i, j);
  }

  /** `s.substr(pos, count)` with `count` a `std::size_t` that may have wrapped. */
  function Substr(s: string, pos: nat, count: int): string
    requires pos <= |s|
  {
    if count < 0 || pos + count > |s| then s[pos..] else s[pos..pos + count]
  }

  /** The two index loops find the text between the blanks at both ends. */
  method TrimString(s: string) returns (r: string)
    ensures r == Trim(s)
  {
    hide Blank, Trim;
    var i := 0;
    while i < |s| && Blank(s[i])
      invariant i <= |s| && forall k :: 0 <= k < i ==> Blank(s[k])
    {
      i := i + 1;
    }
    var j := |s|;
    while j > 0 && Blank(s[j - 1])
      invariant 0 <= j <= |s| && forall k :: j <= k < |s| ==> Blank(s[k])
    {
      j := j - 1;
    }
    BetweenBlanks(s, i, j);
    r := Substr(s, i, j - i);
  }

  /** When all is blank the second index ends below the first. */
  lemma BetweenBlanks(s: string, i: nat, j: nat)
    requires i <= |s| && (i < |s| ==> !Blank(s[i])) && forall k :: 0 <= k < i ==> Blank(s[k])
    requires j <= |s| && (j > 0 ==> !Blank(s[j - 1])) && forall k :: j <= k < |s| ==> Blank(s[k])
    ensures Substr(s, i, j - i) == Trim(s)
  {
    hide Blank;
    TrimLeftIs(s, i);
    if i <= j {
      TrimRightIs(s[i..], j - i);
      assert s[i..][..j - i] == s[i..j];
    } else {
      assert i == |s| && s[i..] == "";
    }
  }

  // ---------------------------------------------------------------- split and join

  /** What the loop of StringSplit makes of a remainder. */
  function Pieces(rest: string, d: string): seq<string>
    requires d != ""
    decreases |rest|
  {
    if rest == "" then []
    else if !Occurs(rest, d) then [rest]
    else
      var k := Find(rest, d, 0);
      [Trim(rest[..k])] + Pieces(Trim(rest[k + |d|..]), d)
  }

  function Split(s: string, d: string): seq<string>
    requires d != ""
  {
    Pieces(Trim(s), d)
  }

  function Join(v: seq<string>, d: string): string {
    if v == [] then "" else if |v| == 1 then v[0] else v[0] + d + Join(v[1..], d)
  }

  /** The split loop ends: every round removes a delimiter. (With an empty delimiter it would
      find it at position 0 for ever.) */
  method StringSplit(s: string, d: string) returns (values: seq<string>)
    requires d != ""
    ensures values == Split(s, d)
  {
    hide Trim;
    values := [];
    var remainder := TrimString(s);
    while remainder != ""
      invariant values + Pieces(remainder, d) == Split(s, d)
      decreases |remainder|
    {
      var delimiter := Find(remainder, d, 0);
      if delimiter > |remainder| {
        values := values + [remainder];
        remainder := "";
      } else {
        var piece := TrimString(remainder[..delimiter]);
        var rest := TrimString(remainder[delimiter + |d|..]);
        Assoc(values, [piece], Pieces(rest, d));
        values, remainder := values + [piece], rest;
      }
    }
  }

  method StringsJoin(v: seq<string>, d: string) returns (s: string)
    ensures s == Join(v, d)
  {
    s := "";
    var first, i := true, 0;
    while i < |v|
      invariant i <= |v| && (first <==> i == 0)
      invariant s == Join(v[..i], d)
    {
      if first { first := false; } else { s := s + d; }
      s := s + v[i];
      JoinSnoc(v[..i], v[i], d);
      assert v[..i + 1] == v[..i] + [v[i]];
      i := i + 1;
    }
    assert v[..i] == v;
  }

  lemma {:induction false} JoinSnoc(v: seq<string>, x: string, d: string)
    ensures Join(v + [x], d) == if v == [] then x else Join(v, d) + d + x
  {
    if v == [] {
      assert v + [x] == [x];
    } else {
      JoinSnoc(v[1..], x, d);
      assert (v + [x])[1..] == v[1..] + [x];
      if |v| > 1 {
        assert v[0] + d + (Join(v[1..], d) + d + x) == (v[0] + d + Join(v[1..], d)) + d + x;
      }
    }
  }

  // ---------------------------------------------------------------- the row encoding

  const SEP: string := "$$"

  /** What a cell needs to survive: no blank at its ends, no separator inside, not to run into
      the separator behind it, and, for the last one, not to be empty. */
  predicate CleanCell(x: string, isLast: bool) {
    && Trimmed(x) && !Occurs(x, SEP)
    && if isLast then x != "" else !(x != "" && x[|x| - 1] == '$')
  }

  predicate Clean(v: seq<string>) {
    v != [] && forall i :: 0 <= i < |v| ==> CleanCell(v[i], i == |v| - 1)
  }

  /** Clean but for an empty last cell. */
  predicate CleanButLast(v: seq<string>) {
    && v != [] && v[|v| - 1] == ""
    && forall i :: 0 <= i < |v| - 1 ==> CleanCell(v[i], false)
  }

  lemma AtSep(s: string, k: nat)
    ensures At(s, SEP, k) <==> k + 1 < |s| && s[k] == '$' && s[k + 1] == '$'
  {
    if k + 1 < |s| { assert s[k..k + 2] == [s[k], s[k + 1]]; }
  }

  /** In `x $$ t` the first separator is the one written, unless `x` ends in a dollar. */
  lemma FirstSeparator(x: string, t: string)
    requires !Occurs(x, SEP)
    ensures var at := if x != "" && x[|x| - 1] == '$' then |x| - 1 else |x|;
      Find(x + SEP + t, SEP, 0) == at
  {
    var s := x + SEP + t;
    var at := if x != "" && x[|x| - 1] == '$' then |x| - 1 else |x|;
    forall j | 0 <= j < at ensures !At(s, SEP, j) {
      AtSep(s, j);
      AtSep(x, j);
      OccursAt(x, SEP);
      assert !At(x, SEP, j);
    }
    AtSep(s, at);
    FindIs(s, SEP, at);
  }

  /** A joined row of trimmed cells has no blank at its ends. */
  lemma {:induction false} JoinTrimmed(v: seq<string>)
    requires forall i :: 0 <= i < |v| ==> Trimmed(v[i])
    ensures Trimmed(Join(v, SEP))
    ensures |v| > 1 ==> Join(v, SEP) != "" && !Blank(Join(v, SEP)[|Join(v, SEP)| - 1])
  {
    if |v| > 1 {
      JoinTrimmed(v[1..]);
      var s, t := Join(v, SEP), Join(v[1..], SEP);
      assert s == v[0] + SEP + t;
      if v[0] != "" { assert s[0] == v[0][0]; } else { assert s[0] == '$'; }
      if t != "" { assert s[|s| - 1] == t[|t| - 1]; } else { assert s[|s| - 1] == '$'; }
    }
  }

  /** Splitting `x $$ t` for a clean first cell. */
  lemma SplitFirst(x: string, t: string)
    requires CleanCell(x, false) && Trimmed(t) && Trimmed(x + SEP + t)
    ensures Split(x + SEP + t, SEP) == [x] + Split(t, SEP)
  {
    var s := x + SEP + t;
    FirstSeparator(x, t);
    TrimIdentity(s);
    TrimIdentity(x);
    TrimIdentity(t);
    assert s[..|x|] == x && s[|x| + 2..] == t;
  }

  /** A cell whose separator behind it is the first one in the text: blanks do not matter. */
  predicate Separable(x: string, isLast: bool) {
    !Occurs(x, SEP) && (isLast || x == "" || x[|x| - 1] != '$')
  }

  function TrimAll(v: seq<string>): seq<string> { seq(|v|, i requires 0 <= i < |v| => Trim(v[i])) }

  /** Splitting a joined row of any separable cells trims every cell, and drops the last one when
      nothing is left of it. */
  lemma {:induction false} SplitTrims(v: seq<string>)
    requires v != [] && forall i :: 0 <= i < |v| ==> Separable(v[i], i == |v| - 1)
    ensures Split(Join(v, SEP), SEP) ==
      if Trim(v[|v| - 1]) == "" then TrimAll(v)[..|v| - 1] else TrimAll(v)
  {
    hide Trim, Trimmed, Split, Separable;
    if |v| == 1 {
      assert Separable(v[0], true);
      SplitLast(v[0]);
    } else {
      var t := v[1..];
      forall i | 0 <= i < |t| ensures Separable(t[i], i == |t| - 1) { assert Separable(v[i + 1], i + 1 == |v| - 1); }
      assert Separable(v[0], false);
      SplitTrims(t);
      SplitsOff(v[0], Join(t, SEP));
      assert TrimAll(v) == [Trim(v[0])] + TrimAll(t);
      assert TrimAll(v)[..|v| - 1] == [Trim(v[0])] + TrimAll(t)[..|t| - 1];
    }
  }

  lemma SplitLast(x: string)
    requires Separable(x, true)
    ensures Split(x, SEP) == if Trim(x) == "" then [] else [Trim(x)]
  {
    hide Trim, Trimmed, Occurs;
    TrimmedPart(x, SEP);
  }

  /** The part of a trimmed text in front of its first separator is split off and trimmed. */
  lemma SplitsOff(x: string, t: string)
    requires Separable(x, false)
    ensures Split(x + SEP + t, SEP) == [Trim(x)] + Split(t, SEP)
  {
    hide Trim, Trimmed;
    var x', t' := TrimAround(x, t);
    FirstSeparator(x', t');
    var s := x' + SEP + t';
    assert s[..|x'|] == x' && s[|x'| + 2..] == t';
  }

  /** Trimming around a separator trims the outer ends only. */
  lemma TrimAround(x: string, t: string) returns (x': string, t': string)
    requires Separable(x, false)
    ensures Trim(x + SEP + t) == x' + SEP + t' && Trim(x') == Trim(x) && Trim(t') == Trim(t) && Separable(x', false)
  {
    hide Trim, Blank, Occurs;
    var i := BlankFront(x);
    var b := BlankEnd(t);
    x', t' := x[i..], t[..b];
    var s := x + SEP + t;
    assert s[i..|x| + 2 + b] == x' + SEP + t';
    OuterBlanks(x, t, i, b);
    TrimIs(s, i, |x| + 2 + b);
    OccursAt(x, SEP);
    PartOf(x, i, |x|, SEP);
    assert x[i..|x|] == x';
  }

  lemma OuterBlanks(x: string, t: string, i: nat, b: nat)
    requires i <= |x| && b <= |t| && (i < |x| ==> !Blank(x[i])) && (b > 0 ==> !Blank(t[b - 1]))
    requires (forall k :: 0 <= k < i ==> Blank(x[k])) && forall k :: b <= k < |t| ==> Blank(t[k])
    ensures var s, j := x + SEP + t, |x| + 2 + b;
      && !Blank(s[i]) && !Blank(s[j - 1])
      && forall k :: 0 <= k < i || j <= k < |s| ==> Blank(s[k])
  {}

  /** The blanks in front of a text do not matter ... */
  lemma BlankFront(x: string) returns (i: nat)
    ensures i <= |x| && (i < |x| ==> !Blank(x[i])) && forall k :: 0 <= k < i ==> Blank(x[k])
    ensures Trim(x[i..]) == Trim(x)
  {
    hide Trim, Blank;
    var a, b := TrimCuts(x);
    i := if a == b then |x| else a;
    if a == b {
      TrimIs(x, |x|, |x|);
      TrimIs(x[i..], 0, 0);
    } else {
      assert x[a..b][0] == x[a] && x[a..b][b - a - 1] == x[b - 1];
      TrimIs(x[i..], 0, b - a);
      assert x[i..][0..b - a] == x[a..b];
    }
  }

  /** ... nor do those behind it. */
  lemma BlankEnd(t: string) returns (j: nat)
    ensures j <= |t| && (j > 0 ==> !Blank(t[j - 1])) && forall k :: j <= k < |t| ==> Blank(t[k])
    ensures Trim(t[..j]) == Trim(t)
  {
    hide Trim, Blank;
    var a, b := TrimCuts(t);
    j := if a == b then 0 else b;
    if a == b {
      TrimIs(t, 0, 0);
      TrimIs(t[..j], 0, 0);
    } else {
      assert t[a..b][0] == t[a] && t[a..b][b - a - 1] == t[b - 1];
      TrimIs(t[..j], a, b);
      assert t[..j][a..b] == t[a..b];
    }
  }

  /** The text between the blanks. */
  lemma TrimIs(s: string, i: nat, j: nat)
    requires i <= j <= |s| && (i < j ==> !Blank(s[i]) && !Blank(s[j - 1]))
    requires forall k :: 0 <= k < i || j <= k < |s| ==> Blank(s[k])
    ensures Trim(s) == s[i..j]
  {
    hide Blank;
    if i == j {
      TrimLeftIs(s, |s|);
      TrimRightIs(s[|s|..], 0);
      assert s[|s|..] == "" && s[i..j] == "";
    } else {
      TrimLeftIs(s, i);
      TrimRightIs(s[i..], j - i);
      assert s[i..][..j - i] == s[i..j];
    }
  }

  /** A clean row comes back. */
  lemma CleanSplits(v: seq<string>)
    requires Clean(v)
    ensures Split(Join(v, SEP), SEP) == v
  {
    hide Trimmed, Occurs, Trim, Split;
    forall i | 0 <= i < |v| ensures Separable(v[i], i == |v| - 1) && Trim(v[i]) == v[i] {
      assert CleanCell(v[i], i == |v| - 1);
      TrimIdentity(v[i]);
    }
    assert TrimAll(v) == v;
    SplitTrims(v);
  }

  /** An empty last cell, and only it, is lost. */
  lemma EmptyLastIsDropped(v: seq<string>)
    requires CleanButLast(v)
    ensures Split(Join(v, SEP), SEP) == v[..|v| - 1]
  {
    hide Trimmed, Occurs, Trim, Split;
    EmptyIsSeparable();
    forall i | 0 <= i < |v| ensures Separable(v[i], i == |v| - 1) && Trim(v[i]) == v[i] {
      assert i < |v| - 1 ==> CleanCell(v[i], false);
      TrimIdentity(v[i]);
    }
    assert TrimAll(v) == v;
    SplitTrims(v);
  }

  lemma EmptyIsSeparable()
    ensures Separable("", true) && Trimmed("")
  {}

  /** A part of a string has no occurrence that the string has not. */
  lemma PartOf(s: string, a: nat, b: nat, d: string)
    requires a <= b <= |s| && d != ""
    requires forall j :: a <= j < b ==> !At(s, d, j)
    ensures !Occurs(s[a..b], d)
  {
    var p := s[a..b];
    if Occurs(p, d) {
      var j := Find(p, d, 0);
      assert At(p, d, j);
      assert s[a + j..a + j + |d|] == p[j..j + |d|] by { SliceOfSlice(s, a, b, j, j + |d|); }
      assert At(s, d, a + j);
    }
  }

  lemma TrimmedPart(s: string, d: string)
    requires !Occurs(s, d) && d != ""
    ensures !Occurs(Trim(s), d) && Trimmed(Trim(s))
  {
    var i, j := TrimCuts(s);
    OccursAt(s, d);
    PartOf(s, i, j, d);
  }

  lemma TrimIsTrimmed(s: string)
    ensures Trimmed(Trim(s))
  {
    var _, _ := TrimCuts(s);
  }

  /** Every piece of a split is trimmed and free of the separator. */
  lemma {:induction false} PiecesAreCells(rest: string, d: string)
    requires d != "" && Trimmed(rest)
    ensures forall x :: x in Pieces(rest, d) ==> Trimmed(x) && !Occurs(x, d)
    decreases |rest|
  {
    hide Trim, Trimmed, Occurs, Find;
    if rest != "" && Occurs(rest, d) {
      FirstPiece(rest, d);
      var k := Find(rest, d, 0);
      TrimIsTrimmed(rest[k + |d|..]);
      PiecesAreCells(Trim(rest[k + |d|..]), d);
    }
  }

  lemma FirstPiece(rest: string, d: string)
    requires d != "" && Occurs(rest, d)
    ensures var k := Find(rest, d, 0);
      k + |d| <= |rest| && Trimmed(Trim(rest[..k])) && !Occurs(Trim(rest[..k]), d)
  {
    hide Trim, Trimmed;
    var k := Find(rest, d, 0);
    assert rest[0..k] == rest[..k];
    PartOf(rest, 0, k, d);
    TrimmedPart(rest[..k], d);
  }

  /** The row codec round-trips exactly on clean rows (and on the empty row). */
  lemma {:induction false} RowCodecExactly(v: seq<string>)
    ensures Split(Join(v, SEP), SEP) == v <==> v == [] || Clean(v)
  {
    if Clean(v) { CleanSplits(v); }
    if v != [] && Split(Join(v, SEP), SEP) == v { SplitsOnlyIfClean(v); }
  }

  lemma {:induction false} SplitCells(v: seq<string>)
    requires Split(Join(v, SEP), SEP) == v
    ensures forall i :: 0 <= i < |v| ==> Trimmed(v[i]) && !Occurs(v[i], SEP)
  {
    TrimIsTrimmed(Join(v, SEP));
    PiecesAreCells(Trim(Join(v, SEP)), SEP);
  }

  lemma {:induction false} SplitsOnlyIfClean(v: seq<string>)
    requires v != [] && Split(Join(v, SEP), SEP) == v
    ensures Clean(v)
  {
    SplitCells(v);
    if |v| > 1 {
      var x, t := v[0], v[1..];
      JoinTrimmed(v);
      JoinTrimmed(t);
      FirstCellIsClean(x, Join(t, SEP), v);
      SplitFirst(x, Join(t, SEP));
      assert Split(Join(t, SEP), SEP) == t;
      SplitsOnlyIfClean(t);
      forall i | 0 <= i < |v| ensures CleanCell(v[i], i == |v| - 1) {
        if i > 0 { assert v[i] == t[i - 1] && CleanCell(t[i - 1], i - 1 == |t| - 1); }
      }
    }
  }

  lemma FirstCellIsClean(x: string, t: string, v: seq<string>)
    requires Trimmed(x) && !Occurs(x, SEP) && Trimmed(x + SEP + t)
    requires v != [] && v[0] == x && Split(x + SEP + t, SEP) == v
    ensures CleanCell(x, false)
  {
    var s := x + SEP + t;
    TrimIdentity(s);
    FirstSeparator(x, t);
    var at := Find(s, SEP, 0);
    assert |Trim(s[..at])| <= at;
  }

  // ---------------------------------------------------------------- the last piece of a key

  predicate Plain(name: string) { name != "" && Trimmed(name) && '_' !in name }

  lemma UnderscoreOccurs(s: string)
    ensures Occurs(s, "_") <==> '_' in s
  {
    OccursAt(s, "_");
    if '_' in s {
      var k :| 0 <= k < |s| && s[k] == '_';
      AtUnderscore(s, k);
    }
    if Occurs(s, "_") { AtUnderscore(s, Find(s, "_", 0)); }
  }

  lemma AtUnderscore(s: string, k: nat)
    ensures At(s, "_", k) <==> k < |s| && s[k] == '_'
  {
    if k < |s| { assert s[k..k + 1] == [s[k]]; }
  }

  /** The last piece between underscores of `p _ name` is `name` when it is plain. */
  lemma {:induction false} LastPiece(p: string, name: string)
    requires Plain(name)
    ensures var ps := Split(p + "_" + name, "_"); ps != [] && ps[|ps| - 1] == name
    decreases |p|
  {
    hide Trim, Trimmed, Find;
    var q := TrimKeepsName(p, name);
    var k, x, tail := FirstUnderscore(q, name);
    assert q + "_" + name == x + "_" + tail;
    PieceAt(x, tail);
    if k == |q| {
      TrimIdentity(name);
      UnderscoreOccurs(name);
    } else {
      LastPiece(q[k + 1..], name);
    }
  }

  lemma FirstUnderscore(q: string, name: string) returns (k: nat, x: string, tail: string)
    ensures k <= |q| && x == q[..k] && '_' !in x && q + "_" + name == x + "_" + tail
    ensures tail == if k == |q| then name else q[k + 1..] + "_" + name
  {
    k := 0;
    while k < |q| && q[k] != '_'
      invariant k <= |q| && '_' !in q[..k]
    {
      k := k + 1;
    }
    x := q[..k];
    tail := if k == |q| then name else q[k + 1..] + "_" + name;
    if k < |q| { assert q == x + "_" + q[k + 1..]; }
  }

  lemma TrimKeepsName(p: string, name: string) returns (q: string)
    requires Plain(name)
    ensures Trim(p + "_" + name) == q + "_" + name && |q| <= |p|
  {
    var s := p + "_" + name;
    var i, j := TrimCuts(s);
    assert s[|p|] == '_' && s[|s| - 1] == name[|name| - 1];
    q := p[i..];
    assert s[i..j] == q + "_" + name;
  }

  /** Recovery takes a table's name from the last piece of its key; that is the name exactly
      when the name is plain. */
  lemma KeyNamesTableExactly(db: string, name: string)
    requires Plain(db)
    ensures var ps := Split("table_" + db + "_" + name, "_");
      ps != [] && (ps[|ps| - 1] == name <==> Plain(name))
  {
    var key := "table_" + db + "_" + name;
    if Plain(name) {
      LastPiece("table_" + db, name);
    } else if name == "" {
      assert key == "table_" + db + "_";
      TableAndDb(db);
    } else {
      TrimIsTrimmed(key);
      PiecesAreCells(Trim(key), "_");
      UnderscoreOccurs(name);
      var i, j := TrimCuts(key);
      assert key[0] == 't' && Trim(key) != "";
    }
  }

  lemma TableAndDb(db: string)
    requires Plain(db)
    ensures Split("table_" + db + "_", "_") == ["table", db]
  {
    var key, rest := "table_" + db + "_", db + "_";
    TrimIdentity(key);
    TrimIdentity(rest);
    TrimIdentity("table");
    TrimIdentity(db);
    assert key == "table" + "_" + rest;
    PieceAt("table", rest);
    PieceAt(db, "");
    assert rest == db + "_" + "";
    TrimIdentity("");
  }

  lemma PieceAt(x: string, t: string)
    requires '_' !in x
    ensures var s := x + "_" + t;
      Pieces(s, "_") == [Trim(x)] + Pieces(Trim(t), "_")
  {
    var s := x + "_" + t;
    forall j | 0 <= j < |x| ensures !At(s, "_", j) { AtUnderscore(s, j); assert s[j] == x[j]; }
    AtUnderscore(s, |x|);
    FindIs(s, "_", |x|);
    assert s[..|x|] == x && s[|x| + 1..] == t;
  }
}
