/**
 The RESP request printer of network/common.cc and the resumable parser of
 network/proto_parser.cc. `s` is the stream received so far and a pointer is an index into it; the
 next call sees a longer stream.
 */
module RespProtocol {
  import opened Bytes
  import opened Decimal

  const INT_MAX: int := 0x7FFF_FFFF

  /** `Overflow` is the outcome the source leaves undefined: its `int` arithmetic overflows. */
  datatype ParseResult = Ok | Wait | Error | Overflow

  /** The fields of ProtoParser. */
  datatype Parser = Parser(multi: int, paramLen: int, num: nat, params: seq<string>)

  datatype Outcome = Outcome(p: Parser, ptr: nat, r: ParseResult)

  // ---------------------------------------------------------------- the parser

  /** GetIntUntilCRLF: the pointer, the value and the result. The pointer ends two behind the
      stream when the stream holds three or more digits and nothing else. */
  function GetInt(s: string, pos: nat, val: int): (nat, int, ParseResult)
    requires pos <= |s|
  {
    var rest := s[pos..];
    var n := DigitRun(rest);
    DigitRunDigits(rest);
    if |rest| < 3 then (pos, val, Wait)
    else if Value(rest[..n]) > INT_MAX then (pos, val, Overflow)
    else if n == |rest| then (pos + n + 2, Value(rest[..n]), Ok)
    else if rest[n] != '\r' || (n + 1 < |rest| && rest[n + 1] != '\n') then (pos, val, Error)
    else if n + 1 == |rest| then (pos, val, Wait)
    else (pos + n + 2, Value(rest[..n]), Ok)
  }

  /** The pointer stays behind the `*` when the number is not there yet. */
  function ParseMulti(p: Parser, s: string, ptr: nat): Outcome {
    if |s| - ptr < 3 then Outcome(p, ptr, Wait)
    else if s[ptr] != '*' then Outcome(p, ptr, Error)
    else
      var (pos, v, r) := GetInt(s, ptr + 1, p.multi);
      Outcome(p.(multi := v), pos, r)
  }

  /** The pointer is restored unless the number was read. */
  function ParseStrlen(p: Parser, s: string, ptr: nat): Outcome {
    if |s| - ptr < 3 then Outcome(p, ptr, Wait)
    else if s[ptr] != '$' then Outcome(p, ptr, Error)
    else
      var (pos, v, r) := GetInt(s, ptr + 1, p.paramLen);
      Outcome(p.(paramLen := v), if r == Ok then pos else ptr, r)
  }

  function ParseStrval(p: Parser, s: string, ptr: nat): Outcome
    requires p.paramLen >= 0 && p.num < |p.params|
  {
    var tail := ptr + p.paramLen;
    if p.paramLen + 2 > INT_MAX || |s| - ptr > INT_MAX then Outcome(p, ptr, Overflow)
    else if |s| - ptr < p.paramLen + 2 then Outcome(p, ptr, Wait)
    else if s[tail] != '\r' || s[tail + 1] != '\n' then Outcome(p, ptr, Error)
    else Outcome(p.(params := p.params[p.num := s[ptr..tail]], paramLen := -1), tail + 2, Ok)
  }

  function ParseStr(p: Parser, s: string, ptr: nat): Outcome
    requires p.paramLen >= -1 && p.num < |p.params|
  {
    if p.paramLen == -1 then
      var o := ParseStrlen(p, s, ptr);
      if o.r != Ok then o
      else if o.p.paramLen < 0 then Outcome(o.p.(params := o.p.params[o.p.num := ""]), o.ptr, Ok)
      else ParseStrval(o.p, s, o.ptr)
    else ParseStrval(p, s, ptr)
  }

  /** `std::vector::resize`. */
  function Resize(v: seq<string>, n: nat): (r: seq<string>)
    ensures |r| == n
  {
    seq(n, i requires 0 <= i < n => if i < |v| then v[i] else "")
  }

  /** The parameter about to be read exists. */
  function Grown(p: Parser): (q: Parser)
    ensures q.num < |q.params|
  {
    if |p.params| < p.num + 1 then p.(params := Resize(p.params, p.num + 1)) else p
  }

  function ParseStrlist(p: Parser, s: string, ptr: nat): Outcome
    requires p.paramLen >= -1
    decreases p.multi - p.num
  {
    if p.num < p.multi then
      var o := ParseStr(Grown(p), s, ptr);
      StrKeeps(Grown(p), s, ptr);
      if o.r == Ok then ParseStrlist(o.p.(num := o.p.num + 1), s, o.ptr) else o
    else Outcome(p.(params := Resize(p.params, p.num)), ptr, Ok)
  }

  function ParseRequest(p: Parser, s: string, ptr: nat): Outcome
    requires p.paramLen >= -1
  {
    if p.multi == -1 then
      var o := ParseMulti(p, s, ptr);
      if o.r != Ok then o else ParseStrlist(o.p, s, o.ptr)
    else ParseStrlist(p, s, ptr)
  }

  /** At most three parameters are kept for the next request. */
  function Reset(p: Parser): Parser {
    Parser(-1, -1, 0, if |p.params| > 3 then p.params[..3] else p.params)
  }

  lemma StrKeeps(p: Parser, s: string, ptr: nat)
    requires p.paramLen >= -1 && p.num < |p.params|
    ensures var o := ParseStr(p, s, ptr);
      o.p.paramLen >= -1 && o.p.num == p.num && o.p.multi == p.multi && |o.p.params| == |p.params|
    ensures ParseStr(p, s, ptr).r == Ok ==> ParseStr(p, s, ptr).p.paramLen == -1 || p.paramLen == -1
  {}

  // ---------------------------------------------------------------- the printer

  function Line(c: char, n: nat): string { [c] + Digits(n) + "\r\n" }

  function Bulk(v: string): string { Line('$', |v|) + v + "\r\n" }

  function Bulks(vs: seq<string>): string { if vs == [] then "" else Bulk(vs[0]) + Bulks(vs[1..]) }

  /** A request: the header of PreFormatMultiBulk, then the strings of FormatMultiBulk. */
  function Request(vs: seq<string>): string { Line('*', |vs|) + Bulks(vs) }

  // ---------------------------------------------------------------- reading one line

  lemma StandsFirst(s: string, at: nat, c: char, t: string)
    requires Stands(s, at, [c] + t)
    ensures at + 1 + |t| <= |s| && s[at] == c && Stands(s, at + 1, t)
  {
    StandsApart(s, at, [c], t);
    assert s[at] == s[at..at + 1][0];
  }

  lemma StandsInPrefix(s: string, k: nat, at: nat, t: string)
    requires k <= |s| && at + |t| <= k
    ensures Stands(s[..k], at, t) <==> Stands(s, at, t)
  {
    assert s[..k][at..at + |t|] == s[at..at + |t|];
  }

  /** A number line is read whole. */
  lemma ReadsLine(s: string, pos: nat, n: nat, val: int)
    requires Stands(s, pos, Digits(n) + "\r\n") && n <= INT_MAX
    ensures GetInt(s, pos, val) == (pos + |Digits(n)| + 2, n, Ok)
  {
    var d := Digits(n);
    DigitsAreDigits(n);
    var rest := s[pos..];
    var line := d + "\r\n";
    assert rest[..|line|] == line;
    assert rest[..|d|] == d by { assert rest[..|line|][..|d|] == rest[..|d|]; }
    assert rest[|d|] == line[|d|] == '\r' && rest[|d| + 1] == line[|d| + 1] == '\n';
    DigitRunIs(rest, |d|);
  }

  /** A number line cut short: with fewer than three bytes, or with the CR, the parser waits;
      with three or more digits only it runs past the end. */
  lemma ReadsCutLine(s: string, pos: nat, n: nat, val: int, k: nat)
    requires Stands(s, pos, Digits(n) + "\r\n") && n <= INT_MAX && pos <= k < pos + |Digits(n)| + 2
    ensures var (ptr, v, r) := GetInt(s[..k], pos, val);
      if 3 <= k - pos <= |Digits(n)| then
        ptr == k + 2 && r == Ok && 0 <= v <= n && (k - pos == |Digits(n)| <==> v == n) &&
        AllDigits(Digits(n)) && v == Value(Digits(n)[..k - pos])
      else ptr == pos && v == val && r == Wait
  {
    hide Value;
    var d := Digits(n);
    DigitsAreDigits(n);
    var line := d + "\r\n";
    var rest := s[..k][pos..];
    CutLine(s, pos, line, k);
    if |rest| <= |d| {
      assert rest == d[..|rest|];
      DigitRunIs(rest, |rest|);
      assert rest[..|rest|] == rest;
      ValuePrefix(d, |rest|);
    } else {
      assert rest[..|d|] == d;
      DigitRunIs(rest, |d|);
    }
  }

  lemma CutLine(s: string, pos: nat, line: string, k: nat)
    requires Stands(s, pos, line) && pos <= k <= pos + |line|
    ensures s[..k][pos..] == line[..k - pos]
  {
    assert s[..k][pos..] == s[pos..k] == s[pos..pos + |line|][..k - pos];
  }

  /** A proper prefix of a numeral is worth less, unless it is all zeros and so is the rest. */
  lemma {:induction false} ValuePrefix(d: string, n: nat)
    requires AllDigits(d) && n <= |d|
    ensures Value(d[..n]) <= Value(d)
    ensures n < |d| && Value(d[..n]) > 0 ==> Value(d[..n]) < Value(d)
    decreases |d|
  {
    if n < |d| {
      assert d[..|d| - 1][..n] == d[..n];
      ValuePrefix(d[..|d| - 1], n);
    } else {
      assert d[..n] == d;
    }
  }

  // ---------------------------------------------------------------- whole requests

  /** Ready to read the next parameter of a request. */
  predicate Between(p: Parser) { p.paramLen == -1 && 0 <= p.num <= p.multi && p.num <= |p.params| }

  lemma ReadsBulk(p: Parser, s: string, ptr: nat, v: string)
    requires p.paramLen == -1 && p.num < |p.params| && Stands(s, ptr, Bulk(v)) && |s| <= INT_MAX
    ensures ParseStr(p, s, ptr) == Outcome(p.(params := p.params[p.num := v]), ptr + |Bulk(v)|, Ok)
  {
    hide Digits, GetInt, Bulk;
    var d := Digits(|v|);
    BulkParts(s, ptr, v);
    ReadsLine(s, ptr + 1, |v|, p.paramLen);
    var at := ptr + 1 + |d| + 2;
    assert s[at..at + |v|] == v;
    assert s[at + |v|..at + |v| + 2] == "\r\n";
    assert s[at + |v|] == s[at + |v|..at + |v| + 2][0] && s[at + |v| + 1] == s[at + |v|..at + |v| + 2][1];
  }

  /** Behind digits and another byte a number is read exactly when CR LF follows; a CR at the very
      end waits, and anything else is an error. No digits at all count as 0. */
  lemma NumberExactly(s: string, pos: nat, d: string, val: int)
    requires Stands(s, pos, d) && AllDigits(d) && Value(d) <= INT_MAX && pos + 3 <= |s|
    requires pos + |d| < |s| && !IsDigit(s[pos + |d|])
    ensures var end := s[pos + |d|..];
      GetInt(s, pos, val) ==
        if end[0] == '\r' && |end| == 1 then (pos, val, Wait)
        else if end[0] == '\r' && end[1] == '\n' then (pos + |d| + 2, Value(d), Ok)
        else (pos, val, Error)
  {
    var rest := s[pos..];
    assert rest[..|d|] == d;
    DigitRunIs(rest, |d|);
  }

  /** A string whose length line is there and that is there with two bytes behind it is read
      exactly when those two are CR LF. Otherwise it is an error that stores nothing. */
  lemma StringExactly(p: Parser, s: string, ptr: nat, v: string)
    requires p.paramLen == -1 && p.num < |p.params| && Stands(s, ptr, Line('$', |v|) + v)
    requires ptr + |Line('$', |v|) + v| + 2 <= |s| <= INT_MAX
    ensures var o, at := ParseStr(p, s, ptr), ptr + |Line('$', |v|)|;
      if s[at + |v|] == '\r' && s[at + |v| + 1] == '\n'
      then o == Outcome(p.(params := p.params[p.num := v]), at + |v| + 2, Ok)
      else o == Outcome(p.(paramLen := |v|), at, Error)
  {
    hide Digits, GetInt, Stands;
    var line := Digits(|v|) + "\r\n";
    assert Line('$', |v|) + v == ['$'] + (line + v);
    StandsFirst(s, ptr, '$', line + v);
    StandsApart(s, ptr + 1, line, v);
    ReadsLine(s, ptr + 1, |v|, p.paramLen);
    StandsIs(s, ptr + 1 + |line|, v);
  }

  lemma StandsIs(s: string, at: nat, v: string)
    requires Stands(s, at, v)
    ensures at + |v| <= |s| && s[at..at + |v|] == v
  {}

  /** Three bytes that do not start with their mark are an error. */
  lemma MarkExactly(p: Parser, s: string, ptr: nat)
    requires ptr + 3 <= |s|
    ensures s[ptr] != '*' ==> p.paramLen == -1 && p.multi == -1 ==> ParseRequest(p, s, ptr) == Outcome(p, ptr, Error)
    ensures s[ptr] != '$' ==> p.paramLen == -1 && p.num < |p.params| ==> ParseStr(p, s, ptr) == Outcome(p, ptr, Error)
  {}

  /** Where the parts of an encoded string stand. */
  lemma {:induction false} BulkParts(s: string, ptr: nat, v: string)
    requires Stands(s, ptr, Bulk(v))
    ensures var at := ptr + 1 + |Digits(|v|)| + 2;
      && |Bulk(v)| == 1 + |Digits(|v|)| + 2 + |v| + 2
      && |s| - ptr >= 5 && s[ptr] == '$' && Stands(s, ptr + 1, Digits(|v|) + "\r\n")
      && Stands(s, at, v) && Stands(s, at + |v|, "\r\n")
  {
    hide Stands, Digits;
    var line, rest := Digits(|v|) + "\r\n", v + "\r\n";
    assert Bulk(v) == ['$'] + (line + rest);
    StandsFirst(s, ptr, '$', line + rest);
    StandsApart(s, ptr + 1, line, rest);
    StandsApart(s, ptr + 1 + |line|, v, "\r\n");
  }

  lemma BulksParts(s: string, ptr: nat, vs: seq<string>)
    requires vs != []
    ensures Stands(s, ptr, Bulks(vs)) <==> Stands(s, ptr, Bulk(vs[0])) && Stands(s, ptr + |Bulk(vs[0])|, Bulks(vs[1..]))
    ensures |Bulks(vs)| == |Bulk(vs[0])| + |Bulks(vs[1..])|
  {
    hide Bulk, Stands;
    StandsApart(s, ptr, Bulk(vs[0]), Bulks(vs[1..]));
  }

  /** One round of the loop. */
  lemma StrlistStep(p: Parser, s: string, ptr: nat)
    requires p.paramLen >= -1 && p.num < p.multi
    ensures var o := ParseStr(Grown(p), s, ptr);
      o.p.paramLen >= -1 &&
      ParseStrlist(p, s, ptr) == if o.r == Ok then ParseStrlist(o.p.(num := p.num + 1), s, o.ptr) else o
  {
    hide ParseStr, Grown;
    GrownKeeps(p);
    StrKeeps(Grown(p), s, ptr);
  }

  lemma GrownKeeps(p: Parser)
    ensures var q := Grown(p);
      && q.num == p.num && q.multi == p.multi && q.paramLen == p.paramLen
      && (p.num <= |p.params| ==> q.params[..p.num] == p.params[..p.num])
      && (p.num < |p.params| ==> q == p)
      && |q.params| == (if p.num < |p.params| then |p.params| else p.num + 1)
      && forall i :: |p.params| <= i < |q.params| ==> q.params[i] == ""
  {}

  /** The strings of a request are read one by one, over whatever the parameters held before. */
  lemma {:induction false} ReadsBulks(p: Parser, s: string, ptr: nat, vs: seq<string>)
    requires Between(p) && p.multi == p.num + |vs| && Stands(s, ptr, Bulks(vs)) && |s| <= INT_MAX
    ensures ParseStrlist(p, s, ptr)
         == Outcome(Parser(p.multi, -1, p.multi, p.params[..p.num] + vs), ptr + |Bulks(vs)|, Ok)
    decreases |vs|
  {
    hide ParseStrlist, ParseStr, Stands, Bulk, Bulks, Grown, Resize;
    if vs == [] {
      NothingLeft(p, s, ptr);
    } else {
      var q := Grown(p);
      GrownKeeps(p);
      BulksParts(s, ptr, vs);
      ReadsBulk(q, s, ptr, vs[0]);
      StrlistStep(p, s, ptr);
      var next := q.(params := q.params[p.num := vs[0]], num := p.num + 1);
      ReadsBulks(next, s, ptr + |Bulk(vs[0])|, vs[1..]);
      ParamRead(q.params, p.num, vs);
    }
  }

  lemma ParamRead(params: seq<string>, n: nat, vs: seq<string>)
    requires n < |params| && vs != []
    ensures params[n := vs[0]][..n + 1] + vs[1..] == params[..n] + vs
  {}

  lemma NothingLeft(p: Parser, s: string, ptr: nat)
    requires Between(p) && p.num == p.multi
    ensures ParseStrlist(p, s, ptr) == Outcome(Parser(p.multi, -1, p.multi, p.params[..p.num] + []), ptr + |Bulks([])|, Ok)
  {
    assert Resize(p.params, p.num) == p.params[..p.num] + [];
  }

  lemma {:induction false} HeaderParts(s: string, ptr: nat, vs: seq<string>)
    requires Stands(s, ptr, Request(vs))
    ensures var at := ptr + |Line('*', |vs|)|;
      && |Line('*', |vs|)| == 1 + |Digits(|vs|)| + 2 && |Request(vs)| == |Line('*', |vs|)| + |Bulks(vs)|
      && ptr + |Request(vs)| <= |s| && |s| - ptr >= 4 && s[ptr] == '*' && Stands(s, ptr + 1, Digits(|vs|) + "\r\n") && Stands(s, at, Bulks(vs))
  {
    hide Stands, Digits, Bulks;
    var line := Digits(|vs|) + "\r\n";
    assert Request(vs) == ['*'] + (line + Bulks(vs));
    StandsFirst(s, ptr, '*', line + Bulks(vs));
    StandsApart(s, ptr + 1, line, Bulks(vs));
  }

  lemma {:induction false} CountBelowSize(vs: seq<string>)
    ensures |vs| <= |Bulks(vs)|
  {
    if vs != [] { CountBelowSize(vs[1..]); }
  }

  /** One request: the parser, fresh from a reset, returns exactly its strings and stops right
      behind it, whatever follows and whatever parameters were left. */
  lemma ReadsRequest(p: Parser, s: string, ptr: nat, vs: seq<string>)
    requires p.multi == -1 && p.paramLen == -1 && p.num == 0
    requires Stands(s, ptr, Request(vs)) && |s| <= INT_MAX
    ensures ParseRequest(p, s, ptr) == Outcome(Parser(|vs|, -1, |vs|, vs), ptr + |Request(vs)|, Ok)
  {
    hide Stands, Digits, Bulks, GetInt, ParseStrlist, Line, Request;
    HeaderParts(s, ptr, vs);
    CountBelowSize(vs);
    ReadsLine(s, ptr + 1, |vs|, p.multi);
    var q := p.(multi := |vs|);
    ReadsBulks(q, s, ptr + |Line('*', |vs|)|, vs);
    assert q.params[..0] + vs == vs;
  }

  // ---------------------------------------------------------------- pipelines

  function Requests(vss: seq<seq<string>>): string {
    if vss == [] then "" else Request(vss[0]) + Requests(vss[1..])
  }

  /** Up to `n` calls of ParseRequest with a reset behind each: the requests read, and the pointer. */
  function Serve(p: Parser, s: string, ptr: nat, n: nat): (seq<seq<string>>, nat)
    requires p.paramLen >= -1
    decreases n
  {
    if n == 0 then ([], ptr) else
    var o := ParseRequest(p, s, ptr);
    if o.r != Ok then ([], o.ptr) else
    var (vss, end) := Serve(Reset(o.p), s, o.ptr, n - 1);
    ([o.p.params] + vss, end)
  }

  /** Pipelined requests: every list comes back as it was sent, and none leaks into the next. */
  lemma {:induction false} PipelineRoundTrips(p: Parser, s: string, ptr: nat, vss: seq<seq<string>>)
    requires p.multi == -1 && p.paramLen == -1 && p.num == 0
    requires Stands(s, ptr, Requests(vss)) && |s| <= INT_MAX
    ensures Serve(p, s, ptr, |vss|) == (vss, ptr + |Requests(vss)|)
    decreases |vss|
  {
    hide Stands, Request, ParseRequest;
    if vss != [] {
      StandsApart(s, ptr, Request(vss[0]), Requests(vss[1..]));
      ReadsRequest(p, s, ptr, vss[0]);
      var o := ParseRequest(p, s, ptr);
      PipelineRoundTrips(Reset(o.p), s, o.ptr, vss[1..]);
      assert vss == [vss[0]] + vss[1..];
    }
  }

  // ---------------------------------------------------------------- resuming

  /** A number read inside a prefix reads the same from the whole. */
  lemma SameNumber(s: string, k: nat, pos: nat, val: int)
    requires pos <= k <= |s| && GetInt(s[..k], pos, val).2 == Ok && GetInt(s[..k], pos, val).0 <= k
    ensures GetInt(s, pos, val) == GetInt(s[..k], pos, val)
  {
    var short, rest := s[..k][pos..], s[pos..];
    assert short == rest[..k - pos];
    DigitRunDigits(short);
    var n := DigitRun(short);
    assert rest[..n] == short[..n];
    assert rest[n] == short[n];
    DigitRunIs(rest, n);
  }

  /** One parameter: what a call on a prefix did not finish, the next call resumes. */
  lemma ResumesStr(p: Parser, s: string, k: nat, ptr: nat)
    requires p.paramLen >= -1 && p.num < |p.params| && ptr <= k <= |s| <= INT_MAX
    requires ParseStr(p, s[..k], ptr).ptr <= k
    ensures var o := ParseStr(p, s[..k], ptr);
      && (o.r == Ok ==> ParseStr(p, s, ptr) == o)
      && (o.r == Wait ==> o.p.paramLen >= -1 && o.p.num < |o.p.params| && ParseStr(o.p, s, o.ptr) == ParseStr(p, s, ptr))
  {
    hide ParseStrval;
    var t := s[..k];
    if p.paramLen == -1 && |t| - ptr >= 3 && t[ptr] == '$' {
      assert s[ptr] == t[ptr];
      var o := ParseStrlen(p, t, ptr);
      if o.r == Ok {
        StrvalAhead(o.p, t, o.ptr);
        SameNumber(s, k, ptr + 1, p.paramLen);
        ResumesStrval(o.p, s, k, o.ptr);
      }
    } else if p.paramLen >= 0 {
      ResumesStrval(p, s, k, ptr);
    }
  }

  lemma StrvalAhead(p: Parser, s: string, ptr: nat)
    requires p.paramLen >= 0 && p.num < |p.params|
    ensures ptr <= ParseStrval(p, s, ptr).ptr
  {}

  lemma ResumesStrval(p: Parser, s: string, k: nat, ptr: nat)
    requires p.paramLen >= 0 && p.num < |p.params| && ptr <= k <= |s| <= INT_MAX
    ensures var o := ParseStrval(p, s[..k], ptr);
      && (o.r == Ok ==> ParseStrval(p, s, ptr) == o && o.ptr <= k)
      && (o.r == Wait ==> o.p == p && o.ptr == ptr)
  {
    var o := ParseStrval(p, s[..k], ptr);
    if o.r == Ok {
      var tail := ptr + p.paramLen;
      assert s[..k][ptr..tail] == s[ptr..tail];
      assert s[..k][tail] == s[tail] && s[..k][tail + 1] == s[tail + 1];
    }
  }

  /** Behind the header: when a call on a prefix waits with its pointer inside the prefix, calling
      again on the longer stream is calling once on it. This holds of any bytes at all. */
  lemma {:induction false} Resumes(p: Parser, s: string, k: nat, ptr: nat)
    requires p.paramLen >= -1 && ptr <= k <= |s| <= INT_MAX
    requires ParseStrlist(p, s[..k], ptr).r == Wait && ParseStrlist(p, s[..k], ptr).ptr <= k
    ensures var o := ParseStrlist(p, s[..k], ptr);
      o.p.paramLen >= -1 && o.p.multi == p.multi && ParseStrlist(o.p, s, o.ptr) == ParseStrlist(p, s, ptr)
    decreases p.multi - p.num
  {
    hide ParseStrlist, ParseStr, Grown;
    if p.num >= p.multi { NothingToWaitFor(p, s[..k], ptr); }
    var q := Grown(p);
    GrownKeeps(p);
    var o := ParseStr(q, s[..k], ptr);
    StrKeeps(q, s[..k], ptr);
    StrAdvances(q, s[..k], ptr);
    StrlistStep(p, s[..k], ptr);
    StrlistStep(p, s, ptr);
    ResumesStr(q, s, k, ptr);
    if o.r == Ok {
      Resumes(o.p.(num := p.num + 1), s, k, o.ptr);
    } else {
      GrownKeeps(o.p);
      StrlistStep(o.p, s, o.ptr);
    }
  }

  lemma NothingToWaitFor(p: Parser, s: string, ptr: nat)
    requires p.paramLen >= -1 && p.num >= p.multi
    ensures ParseStrlist(p, s, ptr).r == Ok
  {}

  lemma StrAdvances(p: Parser, s: string, ptr: nat)
    requires p.paramLen >= -1 && p.num < |p.params|
    ensures ParseStr(p, s, ptr).ptr >= ptr
    ensures ParseStr(p, s, ptr).r == Ok ==> ParseStr(p, s, ptr).ptr <= |s|
  {}

  /** Past the end of the stream nothing is read. */
  lemma PastTheEnd(p: Parser, s: string, ptr: nat)
    requires p.paramLen == -1 && ptr > |s| && p.num < p.multi
    ensures ParseStrlist(p, s, ptr) == Outcome(Grown(p), ptr, Wait)
  {}

  lemma NotAString(p: Parser, s: string, ptr: nat)
    requires p.paramLen == -1 && p.num < p.multi && (ptr < |s| ==> s[ptr] != '$')
    ensures ParseStrlist(p, s, ptr).r != Ok
  {}

  lemma GrownSame(p: Parser, s: string, ptr: nat)
    requires p.paramLen == -1 && p.num < p.multi
    ensures ParseStrlist(Grown(p), s, ptr) == ParseStrlist(p, s, ptr)
  {
    hide ParseStrlist, ParseStr, Grown;
    GrownKeeps(p);
    GrownKeeps(Grown(p));
    StrlistStep(p, s, ptr);
    StrlistStep(Grown(p), s, ptr);
  }

  // ---------------------------------------------------------------- pieces

  lemma LineLength(n: nat)
    ensures |Digits(n) + "\r\n"| == |Digits(n)| + 2
  {}

  lemma StandsFits(s: string, at: nat, t: string)
    requires Stands(s, at, t)
    ensures at + |t| <= |s|
  {}

  /** Calls of ParseRequest on a growing stream, one at each of the lengths `cuts`. */
  function Calls(p: Parser, s: string, ptr: nat, cuts: seq<nat>): (o: Outcome)
    requires p.paramLen >= -1 && forall i :: 0 <= i < |cuts| ==> cuts[i] <= |s|
    ensures o.p.paramLen >= -1
  {
    if cuts == [] then Outcome(p, ptr, Wait) else
    var o := Calls(p, s, ptr, cuts[..|cuts| - 1]);
    var o' := ParseRequest(o.p, s[..cuts[|cuts| - 1]], o.ptr);
    RequestKeeps(o.p, s[..cuts[|cuts| - 1]], o.ptr);
    o'
  }

  lemma {:induction false} StrlistKeeps(p: Parser, s: string, ptr: nat)
    requires p.paramLen >= -1
    ensures ParseStrlist(p, s, ptr).p.paramLen >= -1
    decreases p.multi - p.num
  {
    hide ParseStr, Grown;
    if p.num < p.multi {
      GrownKeeps(p);
      StrKeeps(Grown(p), s, ptr);
      var o := ParseStr(Grown(p), s, ptr);
      if o.r == Ok { StrlistKeeps(o.p.(num := o.p.num + 1), s, o.ptr); }
    }
  }

  lemma RequestKeeps(p: Parser, s: string, ptr: nat)
    requires p.paramLen >= -1
    ensures ParseRequest(p, s, ptr).p.paramLen >= -1
  {
    hide ParseStrlist, GetInt;
    if p.multi == -1 {
      var o := ParseMulti(p, s, ptr);
      StrlistKeeps(o.p, s, o.ptr);
    } else {
      StrlistKeeps(p, s, ptr);
    }
  }

  /** The lengths grow and stay inside the stream. */
  predicate Growing(s: string, ptr: nat, cuts: seq<nat>) {
    && (forall i :: 0 <= i < |cuts| ==> ptr <= cuts[i] <= |s|)
    && (forall i, j :: 0 <= i < j < |cuts| ==> cuts[i] <= cuts[j])
  }

  /** Any bytes behind a header, in any pieces: as long as every call but the last waits with its
      pointer inside the stream, the last call ends as one call on the whole would. */
  lemma {:induction false} PiecesDoNotMatter(p: Parser, s: string, ptr: nat, cuts: seq<nat>)
    requires p.paramLen >= -1 && p.multi >= 0 && cuts != [] && Growing(s, ptr, cuts) && |s| <= INT_MAX
    requires forall i :: 0 <= i < |cuts| - 1 ==>
      var o := ParseStrlist(p, s[..cuts[i]], ptr); o.r == Wait && o.ptr <= cuts[i]
    ensures Calls(p, s, ptr, cuts) == ParseRequest(p, s[..cuts[|cuts| - 1]], ptr)
    decreases |cuts|
  {
    hide ParseStrlist;
    var n := |cuts| - 1;
    if n > 0 {
      var k, before := cuts[n - 1], cuts[..n];
      assert Growing(s, ptr, before) && before[n - 1] == k;
      PiecesDoNotMatter(p, s, ptr, before);
      var t := s[..cuts[n]];
      assert t[..k] == s[..k];
      Resumes(p, t, k, ptr);
    }
  }

  /** Once the header is there, the request continues behind it. */
  lemma {:induction false} HeaderRead(p: Parser, s: string, ptr: nat, vs: seq<string>, k: nat)
    requires p.multi == -1 && p.paramLen == -1 && p.num == 0
    requires Stands(s, ptr, Request(vs)) && ptr + |Line('*', |vs|)| <= k <= |s| <= INT_MAX
    ensures ParseRequest(p, s[..k], ptr) == ParseStrlist(p.(multi := |vs|), s[..k], ptr + |Line('*', |vs|)|)
  {
    hide Stands, Digits, Bulks, GetInt, ParseStrlist, Line, Request;
    HeaderParts(s, ptr, vs);
    CountBelowSize(vs);
    LineLength(|vs|);
    StandsInPrefix(s, k, ptr + 1, Digits(|vs|) + "\r\n");
    ReadsLine(s[..k], ptr + 1, |vs|, p.multi);
    assert s[..k][ptr] == s[ptr];
  }

  lemma StartedRequest(p: Parser, s: string, ptr: nat)
    requires p.multi >= 0 && p.paramLen >= -1
    ensures ParseRequest(p, s, ptr) == ParseStrlist(p, s, ptr)
  {}

  lemma {:induction false} CallsBehindHeader(p: Parser, s: string, ptr: nat, vs: seq<string>, cuts: seq<nat>)
    requires p.multi == -1 && p.paramLen == -1 && p.num == 0
    requires Stands(s, ptr, Request(vs)) && |s| <= INT_MAX && cuts != []
    requires Growing(s, ptr + |Line('*', |vs|)|, cuts)
    ensures Calls(p, s, ptr, cuts) == Calls(p.(multi := |vs|), s, ptr + |Line('*', |vs|)|, cuts)
    decreases |cuts|
  {
    hide Stands, ParseStrlist, ParseRequest, Line, Request;
    var n, at, q := |cuts| - 1, ptr + |Line('*', |vs|)|, p.(multi := |vs|);
    if n > 0 {
      assert Growing(s, at, cuts[..n]);
      CallsBehindHeader(p, s, ptr, vs, cuts[..n]);
    } else {
      HeaderRead(p, s, ptr, vs, cuts[0]);
      StartedRequest(q, s[..cuts[0]], at);
    }
  }

  // ---------------------------------------------------------------- cuts between the pieces

  /** A cut `k` bytes into the strings leaves three or more digits of a length, but not all. */
  predicate CutShort(vs: seq<string>, k: nat)
    decreases |vs|
  {
    vs != [] &&
    if k < |Bulk(vs[0])| then 4 <= k < 1 + |Digits(|vs[0]|)| else CutShort(vs[1..], k - |Bulk(vs[0])|)
  }

  /** The cut at `c` is short in the strings that start at `start`. */
  predicate ShortAt(vs: seq<string>, start: nat, c: nat) { start <= c && CutShort(vs, c - start) }

  /** The parser stands before the string `v` at `start`, or behind its length with the length
      remembered. */
  predicate At(p: Parser, ptr: nat, v: string, start: nat) {
    || (p.paramLen == -1 && ptr == start)
    || (p.paramLen == |v| && p.num < |p.params| && ptr == start + |Line('$', |v|)|)
  }

  /** The strings `ws` at `start` are still to be read. */
  predicate OnTrack(p: Parser, s: string, ptr: nat, ws: seq<string>, start: nat) {
    && ws != [] && p.multi == p.num + |ws| && p.num <= |p.params|
    && Stands(s, start, Bulks(ws)) && At(p, ptr, ws[0], start)
  }

  lemma ElementDone(p: Parser, s: string, k: nat, ptr: nat, v: string, start: nat)
    requires p.num < |p.params| && At(p, ptr, v, start) && Stands(s, start, Bulk(v))
    requires start + |Bulk(v)| <= k <= |s| <= INT_MAX
    ensures ParseStr(p, s[..k], ptr) == Outcome(p.(params := p.params[p.num := v], paramLen := -1), start + |Bulk(v)|, Ok)
  {
    hide Digits, GetInt, Bulk;
    StandsInPrefix(s, k, start, Bulk(v));
    if p.paramLen == -1 {
      hide Stands;
      ReadsBulk(p, s[..k], ptr, v);
    } else {
      var t := s[..k];
      BulkParts(t, start, v);
      LineLength(|v|);
      assert t[ptr..ptr + |v|] == v && t[ptr + |v|..ptr + |v| + 2] == "\r\n";
      assert t[ptr + |v|] == t[ptr + |v|..ptr + |v| + 2][0] && t[ptr + |v| + 1] == t[ptr + |v|..ptr + |v| + 2][1];
    }
  }

  /** What a cut inside one string leaves, unless it is short. */
  lemma ElementWaits(p: Parser, s: string, k: nat, ptr: nat, v: string, start: nat)
    requires p.num < |p.params| && At(p, ptr, v, start) && Stands(s, start, Bulk(v)) && |s| <= INT_MAX
    requires start <= k < start + |Bulk(v)| && !(4 <= k - start < 1 + |Digits(|v|)|)
    ensures var o := ParseStr(p, s[..k], ptr);
      o.r == Wait && o.p == p.(paramLen := o.p.paramLen) && At(o.p, o.ptr, v, start)
      && (p.paramLen == -1 || ptr <= k + 2 ==> o.p.paramLen == -1 || o.ptr <= k + 2)
  {
    hide Digits, GetInt, Stands, Bulk;
    BulkParts(s, start, v);
    StandsFits(s, start, Bulk(v));
    LineLength(|v|);
    var d := |Digits(|v|)|;
    if p.paramLen == -1 && k - start >= 3 {
      assert s[..k][start] == s[start];
      if k < start + 1 + d + 2 {
        ReadsCutLine(s, start + 1, |v|, p.paramLen, k);
      } else {
        StandsInPrefix(s, k, start + 1, Digits(|v|) + "\r\n");
        ReadsLine(s[..k], start + 1, |v|, p.paramLen);
      }
    }
  }

  /** A short cut: the parser remembers too small a length and a pointer past the end. */
  lemma ElementDerails(p: Parser, s: string, k: nat, v: string, start: nat)
    requires p.paramLen == -1 && p.num < |p.params| && Stands(s, start, Bulk(v)) && |s| <= INT_MAX
    requires 4 <= k - start < 1 + |Digits(|v|)|
    ensures var o := ParseStr(p, s[..k], start);
      o == Outcome(p.(paramLen := o.p.paramLen), k + 2, Wait) && 0 <= o.p.paramLen < |v|
  {
    hide Digits, GetInt, Stands, Bulk;
    BulkParts(s, start, v);
    StandsFits(s, start, Bulk(v));
    assert s[..k][start] == s[start];
    LineLength(|v|);
    ReadsCutLine(s, start + 1, |v|, p.paramLen, k);
  }

  /** A call on a prefix that is not cut short waits, further down the track. */
  lemma {:induction false} TrackGoesOn(p: Parser, s: string, ptr: nat, ws: seq<string>, start: nat, k: nat)
    returns (ws': seq<string>, start': nat)
    requires OnTrack(p, s, ptr, ws, start) && (p.paramLen == -1 || ptr <= k + 2) && |s| <= INT_MAX
    requires start <= k < start + |Bulks(ws)| && !ShortAt(ws, start, k)
    ensures var o := ParseStrlist(p, s[..k], ptr);
      && o.r == Wait && OnTrack(o.p, s, o.ptr, ws', start') && o.p.multi == p.multi
      && (o.p.paramLen == -1 || o.ptr <= k + 2)
      && o.p.params[..o.p.num] + ws' == p.params[..p.num] + ws
    ensures start' <= k && start' + |Bulks(ws')| == start + |Bulks(ws)|
    ensures |ws'| <= |ws| && forall c :: k <= c ==> ShortAt(ws', start', c) == ShortAt(ws, start, c)
    decreases |ws|
  {
    hide ParseStrlist, ParseStr, Stands, Bulk, Bulks, Grown, Digits, Line;
    var v, q := ws[0], Grown(p);
    GrownKeeps(p);
    BulksParts(s, start, ws);
    StandsFits(s, start, Bulks(ws));
    StrlistStep(p, s[..k], ptr);
    if k < start + |Bulk(v)| {
      ElementWaits(q, s, k, ptr, v, start);
      ws', start' := ws, start;
    } else {
      ElementDone(q, s, k, ptr, v, start);
      var next := q.(params := q.params[p.num := v], num := p.num + 1, paramLen := -1);
      ParamRead(q.params, p.num, ws);
      NextInLine(ws, start, k);
      ws', start' := TrackGoesOn(next, s, start + |Bulk(v)|, ws[1..], start + |Bulk(v)|, k);
    }
  }

  lemma NextInLine(ws: seq<string>, start: nat, k: nat)
    requires ws != [] && start + |Bulk(ws[0])| <= k < start + |Bulks(ws)|
    ensures ws[1..] != []
    ensures forall c :: k <= c ==> ShortAt(ws, start, c) == ShortAt(ws[1..], start + |Bulk(ws[0])|, c)
  {
    hide Bulk;
    assert |Bulks(ws[1..])| > 0;
    NoBulks();
  }

  /** On the whole stream the track is run to its end. */
  lemma TrackEnds(p: Parser, s: string, ptr: nat, ws: seq<string>, start: nat)
    requires OnTrack(p, s, ptr, ws, start) && |s| <= INT_MAX
    ensures ParseStrlist(p, s, ptr)
         == Outcome(Parser(p.multi, -1, p.multi, p.params[..p.num] + ws), start + |Bulks(ws)|, Ok)
  {
    hide ParseStrlist, ParseStr, Stands, Bulk, Bulks, Grown, Digits, Line;
    var v, q := ws[0], Grown(p);
    GrownKeeps(p);
    BulksParts(s, start, ws);
    StandsFits(s, start, Bulk(v));
    assert s[..|s|] == s;
    ElementDone(q, s, |s|, ptr, v, start);
    StrlistStep(p, s, ptr);
    ReadsBulks(q.(params := q.params[p.num := v], num := p.num + 1, paramLen := -1), s, start + |Bulk(v)|, ws[1..]);
    ParamRead(q.params, p.num, ws);
  }

  // ---------------------------------------------------------------- off the track

  /** The `n`-th parameter has less than `size` bytes, or will have. */
  predicate Derailed(p: Parser, n: nat, size: nat) {
    && p.paramLen >= -1 && p.multi > n && n < |p.params|
    && ((p.num == n && 0 <= p.paramLen < size) || (p.num > n && |p.params[n]| < size))
  }

  lemma StrStaysDerailed(p: Parser, s: string, ptr: nat, n: nat, size: nat)
    requires Derailed(p, n, size) && p.num < |p.params|
    ensures var o := ParseStr(p, s, ptr);
      if o.r == Ok then o.p.num == p.num && Derailed(o.p.(num := o.p.num + 1), n, size) else Derailed(o.p, n, size)
  {
    hide GetInt;
    StrKeeps(p, s, ptr);
  }

  lemma GrownDerailed(p: Parser, n: nat, size: nat)
    requires Derailed(p, n, size)
    ensures Derailed(Grown(p), n, size)
  {}

  /** No call, on whatever stream and from wherever, repairs it. */
  lemma {:induction false} StaysDerailed(p: Parser, s: string, ptr: nat, n: nat, size: nat)
    requires Derailed(p, n, size)
    ensures Derailed(ParseStrlist(p, s, ptr).p, n, size) && ParseStrlist(p, s, ptr).p.multi == p.multi
    decreases p.multi - p.num
  {
    hide ParseStr, Grown, GetInt;
    if p.num < p.multi {
      GrownKeeps(p);
      GrownDerailed(p, n, size);
      StrStaysDerailed(Grown(p), s, ptr, n, size);
      StrKeeps(Grown(p), s, ptr);
      var o := ParseStr(Grown(p), s, ptr);
      if o.r == Ok { StaysDerailed(o.p.(num := o.p.num + 1), s, o.ptr, n, size); }
    }
  }

  /** A call on a prefix cut short derails the string it is cut in. */
  lemma {:induction false} TrackDerails(p: Parser, s: string, ptr: nat, ws: seq<string>, start: nat, k: nat)
    returns (i: nat)
    requires OnTrack(p, s, ptr, ws, start) && (p.paramLen == -1 || ptr <= k + 2) && |s| <= INT_MAX
    requires start <= k < start + |Bulks(ws)| && ShortAt(ws, start, k)
    ensures var o := ParseStrlist(p, s[..k], ptr);
      i < |ws| && o.r == Wait && o.p.multi == p.multi && Derailed(o.p, p.num + i, |ws[i]|)
    decreases |ws|
  {
    hide ParseStrlist, ParseStr, Stands, Bulk, Bulks, Grown, Digits, Line;
    var v, q := ws[0], Grown(p);
    GrownKeeps(p);
    BulksParts(s, start, ws);
    StandsFits(s, start, Bulks(ws));
    StrlistStep(p, s[..k], ptr);
    if k < start + |Bulk(v)| {
      LineIs(|v|);
      ElementDerails(q, s, k, v, start);
      i := 0;
    } else {
      ElementDone(q, s, k, ptr, v, start);
      var next := q.(params := q.params[p.num := v], num := p.num + 1, paramLen := -1);
      NextInLine(ws, start, k);
      i := TrackDerails(next, s, start + |Bulk(v)|, ws[1..], start + |Bulk(v)|, k);
      i := i + 1;
    }
  }

  lemma LineIs(n: nat)
    ensures |Line('$', n)| == |Digits(n)| + 3
  {
    hide Digits;
  }

  // ---------------------------------------------------------------- which cuts do no harm

  /** One cut behind the header: the next call makes up for it exactly unless it is short. */
  lemma {:induction false} CutExactly(p: Parser, s: string, ptr: nat, vs: seq<string>, k: nat)
    requires Between(p) && p.multi == p.num + |vs| && Stands(s, ptr, Bulks(vs)) && |s| <= INT_MAX
    requires ptr <= k < ptr + |Bulks(vs)|
    ensures var o := ParseStrlist(p, s[..k], ptr);
      && o.r == Wait && o.p.paramLen >= -1
      && (ParseStrlist(o.p, s, o.ptr) == ParseStrlist(p, s, ptr) <==> !CutShort(vs, k - ptr))
  {
    hide ParseStrlist, Stands, Bulks, CutShort;
    StandsFits(s, ptr, Bulks(vs));
    if vs == [] { NoBulks(); }
    ReadsBulks(p, s, ptr, vs);
    var o := ParseStrlist(p, s[..k], ptr);
    if CutShort(vs, k - ptr) {
      var i := TrackDerails(p, s, ptr, vs, ptr, k);
      StaysDerailed(o.p, s, o.ptr, p.num + i, |vs[i]|);
      assert (p.params[..p.num] + vs)[p.num + i] == vs[i];
    } else {
      var ws, start := TrackGoesOn(p, s, ptr, vs, ptr, k);
      TrackEnds(o.p, s, o.ptr, ws, start);
    }
  }

  lemma NoBulks()
    ensures Bulks([]) == ""
  {}

  /** The cuts of a request, all behind its header. */
  predicate BehindHeader(ptr: nat, vs: seq<string>, cuts: seq<nat>) {
    forall i :: 0 <= i < |cuts| ==> ptr + |Line('*', |vs|)| <= cuts[i] < ptr + |Request(vs)|
  }

  /** No cut leaves three or more digits of a length, but not all of them. */
  predicate NoneShort(ptr: nat, vs: seq<string>, cuts: seq<nat>) {
    forall i :: 0 <= i < |cuts| ==> !ShortAt(vs, ptr + |Line('*', |vs|)|, cuts[i])
  }

  lemma {:induction false} CallsOnTrack(p: Parser, s: string, at: nat, vs: seq<string>, cuts: seq<nat>)
    returns (ws: seq<string>, start: nat)
    requires OnTrack(p, s, at, vs, at) && p.multi >= 0 && p.paramLen == -1 && |s| <= INT_MAX && Growing(s, at, cuts)
    requires forall i :: 0 <= i < |cuts| ==> cuts[i] < at + |Bulks(vs)| && !ShortAt(vs, at, cuts[i])
    ensures var o := Calls(p, s, at, cuts);
      && o.r == Wait && OnTrack(o.p, s, o.ptr, ws, start) && o.p.multi == p.multi
      && (o.p.paramLen == -1 || (cuts != [] && o.ptr <= cuts[|cuts| - 1] + 2))
      && o.p.params[..o.p.num] + ws == p.params[..p.num] + vs
    ensures start + |Bulks(ws)| == at + |Bulks(vs)| && start <= if cuts == [] then at else cuts[|cuts| - 1]
    ensures |ws| <= |vs|
    ensures forall c :: (if cuts == [] then at else cuts[|cuts| - 1]) <= c ==> ShortAt(ws, start, c) == ShortAt(vs, at, c)
    decreases |cuts|
  {
    hide ParseStrlist, ShortAt, Stands, Bulks, At;
    if cuts == [] {
      ws, start := vs, at;
    } else {
      var n := |cuts| - 1;
      assert Growing(s, at, cuts[..n]);
      ws, start := CallsOnTrack(p, s, at, vs, cuts[..n]);
      var o := Calls(p, s, at, cuts[..n]);
      StartedRequest(o.p, s[..cuts[n]], o.ptr);
      ws, start := TrackGoesOn(o.p, s, o.ptr, ws, start, cuts[n]);
    }
  }

  /** The first short cut derails the parser for good. */
  lemma {:induction false} CallsDerail(p: Parser, s: string, at: nat, vs: seq<string>, cuts: seq<nat>, m: nat) returns (i: nat)
    requires OnTrack(p, s, at, vs, at) && p.multi >= 0 && p.paramLen == -1 && |s| <= INT_MAX && Growing(s, at, cuts)
    requires m < |cuts| && cuts[m] < at + |Bulks(vs)| && ShortAt(vs, at, cuts[m])
    requires forall j :: 0 <= j < m ==> cuts[j] < at + |Bulks(vs)| && !ShortAt(vs, at, cuts[j])
    ensures i < |vs| && Derailed(Calls(p, s, at, cuts).p, p.num + i, |vs[i]|) && Calls(p, s, at, cuts).p.multi == p.multi
    decreases |cuts|
  {
    hide ParseStrlist, ParseRequest, Calls, OnTrack, ShortAt, Bulks, Derailed, Growing;
    var n := |cuts| - 1;
    var before, k := cuts[..n], cuts[n];
    GrowingFront(s, at, cuts);
    if m < n {
      i := CallsDerail(p, s, at, vs, before, m);
      StillDerailed(p, s, at, before, k, p.num + i, |vs[i]|);
    } else {
      i := FirstShort(p, s, at, vs, before, k);
    }
  }

  lemma GrowingFront(s: string, at: nat, cuts: seq<nat>)
    requires Growing(s, at, cuts) && cuts != []
    ensures var n := |cuts| - 1;
      && Growing(s, at, cuts[..n]) && cuts == cuts[..n] + [cuts[n]]
      && at <= cuts[n] <= |s| && (n > 0 ==> cuts[n - 1] <= cuts[n])
      && forall i :: 0 <= i < |cuts| ==> cuts[i] <= |s|
  {}

  lemma FirstShortCut(vs: seq<string>, at: nat, cuts: seq<nat>) returns (m: nat)
    requires exists j :: 0 <= j < |cuts| && ShortAt(vs, at, cuts[j])
    ensures m < |cuts| && ShortAt(vs, at, cuts[m]) && forall j :: 0 <= j < m ==> !ShortAt(vs, at, cuts[j])
  {
    hide ShortAt;
    m := 0;
    while !ShortAt(vs, at, cuts[m])
      invariant m < |cuts| && forall j :: 0 <= j < m ==> !ShortAt(vs, at, cuts[j])
      decreases |cuts| - m
    {
      m := m + 1;
    }
  }

  lemma StillDerailed(p: Parser, s: string, at: nat, before: seq<nat>, k: nat, i: nat, len: nat)
    requires p.paramLen >= -1 && Growing(s, at, before) && k <= |s| <= INT_MAX
    requires Derailed(Calls(p, s, at, before).p, i, len) && Calls(p, s, at, before).p.multi >= 0
    ensures Growing(s, at, before) && Derailed(Calls(p, s, at, before + [k]).p, i, len)
    ensures Calls(p, s, at, before + [k]).p.multi == Calls(p, s, at, before).p.multi
  {
    hide ParseStrlist, Derailed;
    var o := Calls(p, s, at, before);
    StartedRequest(o.p, s[..k], o.ptr);
    StaysDerailed(o.p, s[..k], o.ptr, i, len);
    assert (before + [k])[..|before|] == before;
  }

  lemma {:induction false} FirstShort(p: Parser, s: string, at: nat, vs: seq<string>, before: seq<nat>, k: nat) returns (i: nat)
    requires OnTrack(p, s, at, vs, at) && p.multi >= 0 && p.paramLen == -1 && |s| <= INT_MAX
    requires Growing(s, at, before) && k <= |s| && at <= k && (before != [] ==> before[|before| - 1] <= k)
    requires k < at + |Bulks(vs)| && ShortAt(vs, at, k)
    requires forall j :: 0 <= j < |before| ==> before[j] < at + |Bulks(vs)| && !ShortAt(vs, at, before[j])
    ensures i < |vs| && Derailed(Calls(p, s, at, before + [k]).p, p.num + i, |vs[i]|)
    ensures Calls(p, s, at, before + [k]).p.multi == p.multi
  {
    hide ParseStrlist, ShortAt, Stands, Bulks, At, Derailed;
    var ws, start := CallsOnTrack(p, s, at, vs, before);
    var o := Calls(p, s, at, before);
    StartedRequest(o.p, s[..k], o.ptr);
    var j := TrackDerails(o.p, s, o.ptr, ws, start, k);
    i := SameString(p.params[..p.num], vs, o.p.params[..o.p.num], ws, j);
    assert o.p.num + j == p.num + i;
    assert (before + [k])[..|before|] == before;
  }

  lemma SameString(a: seq<string>, vs: seq<string>, b: seq<string>, ws: seq<string>, j: nat) returns (i: nat)
    requires a + vs == b + ws && |a| <= |b| && j < |ws|
    ensures |a| + i == |b| + j && i < |vs| && vs[i] == ws[j]
  {
    i := |b| + j - |a|;
    assert (a + vs)[|b| + j] == vs[i] && (b + ws)[|b| + j] == ws[j];
  }

  /** A valid request delivered in any number of pieces behind its header: the call that sees it
      complete returns its strings and stops behind it exactly when no cut is short, and then
      every earlier call waits. */
  lemma {:induction false} CutInsensitive(p: Parser, s: string, ptr: nat, vs: seq<string>, cuts: seq<nat>)
    requires p.multi == -1 && p.paramLen == -1 && p.num == 0
    requires Stands(s, ptr, Request(vs)) && |s| <= INT_MAX
    requires Growing(s, ptr, cuts) && BehindHeader(ptr, vs, cuts)
    ensures Calls(p, s, ptr, cuts + [|s|]) == Outcome(Parser(|vs|, -1, |vs|, vs), ptr + |Request(vs)|, Ok)
        <==> NoneShort(ptr, vs, cuts)
    ensures NoneShort(ptr, vs, cuts) ==> forall i :: 0 < i <= |cuts| ==> Calls(p, s, ptr, cuts[..i]).r == Wait
  {
    hide Stands, ParseStrlist, ParseRequest, Calls, Line, Request, ShortAt, Bulks, Digits;
    HeaderParts(s, ptr, vs);
    var at, q, all := ptr + |Line('*', |vs|)|, p.(multi := |vs|), cuts + [|s|];
    assert all[..|cuts|] == cuts && Growing(s, at, all) && Growing(s, at, cuts);
    CallsBehindHeader(p, s, ptr, vs, all);
    LastCall(q, s, at, cuts);
    if cuts == [] {
      ReadsRequest(p, s, ptr, vs);
      OneCall(p, s, ptr);
    } else {
      assert cuts[0] < ptr + |Request(vs)|;
      NoBulks();
      if NoneShort(ptr, vs, cuts) {
        PiecesOnTrack(p, s, ptr, vs, cuts);
      } else {
        var m := FirstShortCut(vs, at, cuts);
        var i := CallsDerail(q, s, at, vs, cuts, m);
        var o := Calls(q, s, at, cuts);
        StartedRequest(o.p, s, o.ptr);
        StaysDerailed(o.p, s, o.ptr, i, |vs[i]|);
      }
    }
  }

  /** The last call sees the whole stream. */
  lemma LastCall(q: Parser, s: string, at: nat, cuts: seq<nat>)
    requires q.multi >= 0 && q.paramLen >= -1 && Growing(s, at, cuts)
    ensures var o := Calls(q, s, at, cuts);
      Calls(q, s, at, cuts + [|s|]) == ParseRequest(o.p, s, o.ptr)
  {
    hide ParseRequest;
    assert (cuts + [|s|])[..|cuts|] == cuts && s[..|s|] == s;
  }

  lemma OneCall(p: Parser, s: string, ptr: nat)
    requires p.paramLen >= -1
    ensures Calls(p, s, ptr, [] + [|s|]) == ParseRequest(p, s, ptr)
  {
    hide ParseRequest;
    assert ([] + [|s|])[..0] == [] && s[..|s|] == s;
  }

  lemma {:induction false} PiecesOnTrack(p: Parser, s: string, ptr: nat, vs: seq<string>, cuts: seq<nat>)
    requires p.multi == -1 && p.paramLen == -1 && p.num == 0 && vs != []
    requires Stands(s, ptr, Request(vs)) && |s| <= INT_MAX
    requires Growing(s, ptr, cuts) && BehindHeader(ptr, vs, cuts) && NoneShort(ptr, vs, cuts)
    ensures Calls(p, s, ptr, cuts + [|s|]) == Outcome(Parser(|vs|, -1, |vs|, vs), ptr + |Request(vs)|, Ok)
    ensures forall i :: 0 < i <= |cuts| ==> Calls(p, s, ptr, cuts[..i]).r == Wait
  {
    hide Stands, ParseStrlist, ParseRequest, Calls, Line, Request, ShortAt, Bulks, Digits;
    HeaderParts(s, ptr, vs);
    var at, q, all := ptr + |Line('*', |vs|)|, p.(multi := |vs|), cuts + [|s|];
    assert all[..|cuts|] == cuts && Growing(s, at, all) && Growing(s, at, cuts);
    forall i | 0 < i <= |cuts| ensures Calls(p, s, ptr, cuts[..i]).r == Wait {
      assert Growing(s, at, cuts[..i]);
      CallsBehindHeader(p, s, ptr, vs, cuts[..i]);
      var _, _ := CallsOnTrack(q, s, at, vs, cuts[..i]);
    }
    CallsBehindHeader(p, s, ptr, vs, all);
    LastCall(q, s, at, cuts);
    var ws, start := CallsOnTrack(q, s, at, vs, cuts);
    var o := Calls(q, s, at, cuts);
    TrackEnds(o.p, s, o.ptr, ws, start);
    StartedRequest(o.p, s, o.ptr);
    assert q.params[..0] + vs == vs;
  }

  // ---------------------------------------------------------------- cuts that do harm

  lemma {:induction false} FirstDigit(n: nat)
    requires n >= 1
    ensures Digits(n)[0] != '0'
  {
    if n >= 10 { FirstDigit(n / 10); }
  }

  lemma {:induction false} PositivePrefix(d: string, k: nat)
    requires AllDigits(d) && 0 < k <= |d| && d[0] != '0'
    ensures Value(d[..k]) > 0
    decreases k
  {
    if k > 1 {
      PositivePrefix(d, k - 1);
      assert d[..k][..k - 1] == d[..k - 1];
    } else {
      assert d[..1][..0] == "";
      assert Value(d[..1]) == 10 * Value("") + DigitValue(d[0]);
    }
  }

  lemma HeaderBytes(s: string, ptr: nat, n: nat)
    requires Stands(s, ptr + 1, Digits(n) + "\r\n")
    ensures ptr + |Digits(n)| + 2 < |s|
    ensures forall i :: ptr < i <= ptr + |Digits(n)| + 2 ==> s[i] != '*' && s[i] != '$'
  {
    DigitsAreDigits(n);
    var line := Digits(n) + "\r\n";
    forall i | ptr < i <= ptr + |Digits(n)| + 2 ensures s[i] != '*' && s[i] != '$' {
      assert s[i] == s[ptr + 1..ptr + 1 + |line|][i - 1 - ptr] == line[i - 1 - ptr];
    }
  }

  /** The call that ran past its three or more digits takes them for the whole number. */
  lemma {:induction false} RunsPastEnd(p: Parser, s: string, ptr: nat, vs: seq<string>, k: nat) returns (v: nat)
    requires p.multi == -1 && p.paramLen == -1 && p.num == 0
    requires Stands(s, ptr, Request(vs)) && ptr + 4 <= k <= ptr + 1 + |Digits(|vs|)| && |s| <= INT_MAX
    ensures 0 < v && (v == |vs| <==> k == ptr + 1 + |Digits(|vs|)|)
    ensures ParseRequest(p, s[..k], ptr) == Outcome(Grown(p.(multi := v)), k + 2, Wait)
  {
    hide Stands, Digits, Bulks, GetInt, ParseStrlist, Line, Request, Grown;
    HeaderParts(s, ptr, vs);
    CountBelowSize(vs);
    LineLength(|vs|);
    assert s[..k][ptr] == s[ptr];
    ReadsCutLine(s, ptr + 1, |vs|, p.multi, k);
    v := GetInt(s[..k], ptr + 1, p.multi).1;
    SeveralDigits(|vs|);
    FirstDigit(|vs|);
    PositivePrefix(Digits(|vs|), k - ptr - 1);
    PastTheEnd(p.(multi := v), s[..k], k + 2);
  }

  lemma SeveralDigits(n: nat)
    requires |Digits(n)| >= 2
    ensures n >= 10
  {}

  /** A cut inside the header: harmless exactly when it leaves fewer than three bytes, so that
      nothing was read, or three or more digits and not one digit less than all, when the parser
      runs over the missing CRLF and is right by chance. Any other cut makes the next call fail. */
  lemma {:induction false} HeaderCutExactly(p: Parser, s: string, ptr: nat, vs: seq<string>, k: nat)
    requires p.multi == -1 && p.paramLen == -1 && p.num == 0
    requires Stands(s, ptr, Request(vs)) && ptr <= k < ptr + |Line('*', |vs|)| && |s| <= INT_MAX
    ensures var o := ParseRequest(p, s[..k], ptr);
      && o.r == Wait && o.p.paramLen == -1
      && (ParseRequest(o.p, s, o.ptr) == ParseRequest(p, s, ptr)
          <==> k - ptr < 3 || (k - ptr >= 4 && k - ptr == 1 + |Digits(|vs|)|))
  {
    hide Stands, Digits, Bulks, GetInt, ParseStrlist, ParseRequest, Line, Request, Grown;
    HeaderParts(s, ptr, vs);
    ReadsRequest(p, s, ptr, vs);
    if k - ptr < 3 {
      TooShort(p, s[..k], ptr);
    } else if k - ptr >= 4 && k - ptr <= 1 + |Digits(|vs|)| {
      var v := RunsPastEnd(p, s, ptr, vs, k);
      var q := p.(multi := v);
      GrownKeeps(q);
      StartedRequest(Grown(q), s, k + 2);
      GrownSame(q, s, k + 2);
      if v == |vs| {
        HeaderRead(p, s, ptr, vs, |s|);
        assert s[..|s|] == s;
      } else {
        HeaderBytes(s, ptr, |vs|);
        assert s[k + 2] != '$';
        NotAString(q, s, k + 2);
      }
    } else {
      WaitsBehindStar(p, s, ptr, vs, k);
    }
  }

  lemma TooShort(p: Parser, s: string, ptr: nat)
    requires p.multi == -1 && p.paramLen == -1 && |s| - ptr < 3
    ensures ParseRequest(p, s, ptr) == Outcome(p, ptr, Wait)
  {}

  /** The pointer stays behind the star: the next call meets a digit where it wants a star. */
  lemma {:induction false} WaitsBehindStar(p: Parser, s: string, ptr: nat, vs: seq<string>, k: nat)
    requires p.multi == -1 && p.paramLen == -1 && p.num == 0
    requires Stands(s, ptr, Request(vs)) && ptr + 3 <= k < ptr + |Line('*', |vs|)| && |s| <= INT_MAX
    requires !(4 <= k - ptr <= 1 + |Digits(|vs|)|)
    ensures ParseRequest(p, s[..k], ptr) == Outcome(p, ptr + 1, Wait)
    ensures ParseRequest(p, s, ptr + 1).r == Error
  {
    hide Stands, Digits, Bulks, GetInt, ParseStrlist, Line, Request;
    HeaderParts(s, ptr, vs);
    CountBelowSize(vs);
    LineLength(|vs|);
    assert s[..k][ptr] == s[ptr];
    ReadsCutLine(s, ptr + 1, |vs|, p.multi, k);
    HeaderBytes(s, ptr, |vs|);
    assert s[ptr + 1] != '*';
  }
}

/** ProtoParser and the printer as they run: fields and a buffer updated in place. */
module Resp {
  import opened Decimal
  import opened P = RespProtocol

  /** GetIntUntilCRLF. `nBytes` is what is left of the stream behind `pos`. */
  method GetIntUntilCRLF(s: string, pos: nat, val: int) returns (ptr: nat, v: int, r: ParseResult)
    requires pos <= |s|
    ensures (ptr, v, r) == GetInt(s, pos, val)
  {
    hide Value, DigitRun;
    ptr, v, r := pos, val, Wait;
    var nBytes := |s| - pos;
    if nBytes < 3 { return; }
    ghost var rest := s[pos..];
    ghost var n := DigitRun(rest);
    DigitRunDigits(rest);
    assert rest[..0] == "";
    ValueOfNothing();
    var i, value := 0, 0;
    while i < nBytes
      invariant 0 <= i <= n && value == Value(rest[..i]) && value <= INT_MAX
    {
      if IsDigit(s[pos + i]) {
        NextDigit(rest, i, n);
        ValuePrefix(rest[..n], i + 1);
        assert rest[..n][..i + 1] == rest[..i + 1];
        value := value * 10 + DigitValue(s[pos + i]);
        if value > INT_MAX { r := Overflow; return; }
        i := i + 1;
      } else {
        DigitAt(rest, i, n);
        if s[pos + i] != '\r' || (i + 1 < nBytes && s[pos + i + 1] != '\n') { r := Error; return; }
        if i + 1 == nBytes { return; }
        break;
      }
    }
    ptr, v, r := pos + i + 2, value, Ok;
  }

  lemma DigitAt(rest: string, i: nat, n: nat)
    requires i <= n == DigitRun(rest) && i < |rest|
    ensures IsDigit(rest[i]) <==> i < n
  {
    DigitRunDigits(rest);
    assert i < n ==> rest[i] == rest[..n][i];
  }

  lemma NextDigit(rest: string, i: nat, n: nat)
    requires i < |rest| && IsDigit(rest[i]) && i <= n == DigitRun(rest)
    ensures i < n && AllDigits(rest[..i]) && AllDigits(rest[..n]) && AllDigits(rest[..i + 1])
    ensures Value(rest[..i + 1]) == 10 * Value(rest[..i]) + DigitValue(rest[i])
  {
    DigitRunDigits(rest);
    assert forall k :: 0 <= k < i ==> rest[..i][k] == rest[..n][k];
    assert rest[..i + 1] == rest[..i] + [rest[i]];
    ValueSnoc(rest[..i], rest[i]);
  }

  class ProtoParser {
    var multi: int
    var paramLen: int
    var numOfParam: nat
    var params: seq<string>

    ghost function State(): Parser
      reads this
    {
      Parser(multi, paramLen, numOfParam, params)
    }

    constructor ()
      ensures State() == Parser(-1, -1, 0, [])
    {
      multi, paramLen, numOfParam, params := -1, -1, 0, [];
    }

    method Reset()
      modifies this
      ensures State() == P.Reset(old(State()))
      ensures multi == paramLen == -1 && numOfParam == 0 && params == if |old(params)| > 3 then old(params)[..3] else old(params)
    {
      multi, paramLen, numOfParam := -1, -1, 0;
      while |params| > 3
        invariant multi == -1 && paramLen == -1 && numOfParam == 0
        invariant P.Reset(Parser(-1, -1, 0, params)) == P.Reset(old(State()))
      {
        params := params[..|params| - 1];
      }
    }

    method ParseRequest(s: string, ptr: nat) returns (ptr': nat, r: ParseResult)
      requires paramLen >= -1
      modifies this
      ensures Outcome(State(), ptr', r) == P.ParseRequest(old(State()), s, ptr)
    {
      hide GetInt, P.ParseStrlist;
      ptr' := ptr;
      if multi == -1 {
        ptr', r := ParseMulti(s, ptr');
        if r != Ok { return; }
      }
      ptr', r := ParseStrlist(s, ptr');
    }

    method ParseMulti(s: string, ptr: nat) returns (ptr': nat, r: ParseResult)
      modifies `multi
      ensures Outcome(State(), ptr', r) == P.ParseMulti(old(State()), s, ptr)
    {
      ptr', r := ptr, Wait;
      if |s| - ptr' < 3 { return; }
      if s[ptr'] != '*' { r := Error; return; }
      ptr' := ptr' + 1;
      ptr', multi, r := GetIntUntilCRLF(s, ptr', multi);
    }

    method ParseStrlist(s: string, ptr: nat) returns (ptr': nat, r: ParseResult)
      requires paramLen >= -1
      modifies `paramLen, `numOfParam, `params
      ensures Outcome(State(), ptr', r) == P.ParseStrlist(old(State()), s, ptr)
    {
      hide P.ParseStr;
      ptr' := ptr;
      while numOfParam < multi
        invariant paramLen >= -1
        invariant P.ParseStrlist(State(), s, ptr') == P.ParseStrlist(old(State()), s, ptr)
        decreases multi - numOfParam
      {
        StrKeeps(Grown(State()), s, ptr');
        if |params| < numOfParam + 1 { params := Resize(params, numOfParam + 1); }
        ptr', r := ParseStr(s, ptr');
        if r == Ok { numOfParam := numOfParam + 1; } else { return; }
      }
      params := Resize(params, numOfParam);
      r := Ok;
    }

    method ParseStr(s: string, ptr: nat) returns (ptr': nat, r: ParseResult)
      requires paramLen >= -1 && numOfParam < |params|
      modifies `paramLen, `params
      ensures Outcome(State(), ptr', r) == P.ParseStr(old(State()), s, ptr)
    {
      ptr' := ptr;
      if paramLen == -1 {
        ptr', r := ParseStrlen(s, ptr');
        if r != Ok { return; }
      }
      if paramLen < 0 {
        params, r := params[numOfParam := ""], Ok;
      } else {
        ptr', r := ParseStrval(s, ptr');
      }
    }

    method ParseStrval(s: string, ptr: nat) returns (ptr': nat, r: ParseResult)
      requires paramLen >= 0 && numOfParam < |params|
      modifies `paramLen, `params
      ensures Outcome(State(), ptr', r) == P.ParseStrval(old(State()), s, ptr)
    {
      ptr', r := ptr, Wait;
      if paramLen + 2 > INT_MAX || |s| - ptr > INT_MAX { r := Overflow; return; }
      if |s| - ptr' < paramLen + 2 { return; }
      var tail := ptr' + paramLen;
      if s[tail] != '\r' || s[tail + 1] != '\n' { r := Error; return; }
      params := params[numOfParam := s[ptr'..tail]];
      ptr', paramLen, r := tail + 2, -1, Ok;
    }

    method ParseStrlen(s: string, ptr: nat) returns (ptr': nat, r: ParseResult)
      modifies `paramLen
      ensures Outcome(State(), ptr', r) == P.ParseStrlen(old(State()), s, ptr)
    {
      ptr', r := ptr, Wait;
      if |s| - ptr' < 3 { return; }
      if s[ptr'] != '$' { r := Error; return; }
      ptr' := ptr' + 1;
      ptr', paramLen, r := GetIntUntilCRLF(s, ptr', paramLen);
      if r != Ok { ptr' := ptr' - 1; }
    }
  }

  /** The reply buffer: what the linear buffer holds; PushData appends to it. */
  class Reply {
    var data: string

    constructor ()
      ensures data == ""
    {
      data := "";
    }

    method PushData(t: string)
      modifies this
      ensures data == old(data) + t
    {
      data := data + t;
    }
  }

  method FormatBulk(str: string, reply: Reply) returns (size: nat)
    modifies reply
    ensures reply.data == old(reply.data) + Bulk(str) && size == |Bulk(str)|
  {
    ghost var before := reply.data;
    var oldSize := |reply.data|;
    reply.PushData("$");
    reply.PushData(Digits(|str|) + "\r\n");
    if |str| > 0 { reply.PushData(str); }
    reply.PushData("\r\n");
    size := |reply.data| - oldSize;
    assert reply.data == before + Bulk(str) by { BulkWritten(before, Digits(|str|), str); }
  }

  lemma BulkWritten(before: string, digits: string, str: string)
    ensures before + "$" + (digits + "\r\n") + str + "\r\n" == before + (['$'] + digits + "\r\n" + str + "\r\n")
    ensures str == "" ==> before + "$" + (digits + "\r\n") + "\r\n" == before + (['$'] + digits + "\r\n" + str + "\r\n")
  {}

  method PreFormatMultiBulk(nBulk: nat, reply: Reply) returns (size: nat)
    modifies reply
    ensures reply.data == old(reply.data) + Line('*', nBulk) && size == |Line('*', nBulk)|
  {
    ghost var before := reply.data;
    var oldSize := |reply.data|;
    reply.PushData("*");
    reply.PushData(Digits(nBulk) + "\r\n");
    size := |reply.data| - oldSize;
    assert before + "*" + (Digits(nBulk) + "\r\n") == before + (['*'] + Digits(nBulk) + "\r\n");
  }

  lemma {:induction false} BulksSnoc(vs: seq<string>, v: string)
    ensures Bulks(vs + [v]) == Bulks(vs) + Bulk(v)
  {
    hide Bulk;
    if vs == [] {
      assert vs + [v] == [v] && Bulks([]) == "";
      assert [v][1..] == [];
    } else {
      BulksSnoc(vs[1..], v);
      assert (vs + [v])[1..] == vs[1..] + [v];
      assert Bulk(vs[0]) + (Bulks(vs[1..]) + Bulk(v)) == (Bulk(vs[0]) + Bulks(vs[1..])) + Bulk(v);
    }
  }

  method FormatMultiBulk(vs: seq<string>, reply: Reply) returns (size: nat)
    modifies reply
    ensures reply.data == old(reply.data) + Bulks(vs) && size == |Bulks(vs)|
  {
    hide Bulk;
    size := 0;
    var i := 0;
    while i < |vs|
      invariant 0 <= i <= |vs| && reply.data == old(reply.data) + Bulks(vs[..i]) && size == |Bulks(vs[..i])|
    {
      var n := FormatBulk(vs[i], reply);
      size := size + n;
      BulksSnoc(vs[..i], vs[i]);
      assert vs[..i + 1] == vs[..i] + [vs[i]];
      i := i + 1;
    }
    assert vs[..i] == vs;
  }

  /** A request as a client prints it. */
  method FormatRequest(vs: seq<string>, reply: Reply)
    modifies reply
    ensures reply.data == old(reply.data) + Request(vs)
  {
    hide Line, Bulks;
    var _ := PreFormatMultiBulk(|vs|, reply);
    var _ := FormatMultiBulk(vs, reply);
  }
}
