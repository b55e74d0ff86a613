/** What the printer writes, the parser reads back. */
module TomlRoundTrip {
  import opened Common
  import opened Decimal
  import opened Order
  import opened TomlLexer
  import opened TomlParser
  import opened TomlWriter

  // ---------------------------------------------------------------- values

  predicate Int64(n: int) { -INT64_MAX - 1 <= n <= INT64_MAX }

  /** A value printed on its key's line: a bool, an integer of 64 bits, a string, or an array of
      such values of one type. */
  predicate LeafOk(v: Value)
    decreases v
  {
    match v
    case Bool(_) => true
    case Int(n) => Int64(n)
    case Str(_) => true
    case Arr(vs) => forall i :: 0 <= i < |vs| ==> LeafOk(vs[i]) && SameType(vs[0], vs[i])
    case Tab(_) => false
  }

  /** What may follow a value. */
  predicate Stop(rest: string) {
    rest == "" || (rest[0] == '\n' || rest[0] == ',' || rest[0] == ']' || rest[0] == ' ' || rest[0] == '\t' || rest[0] == '\r' || rest[0] == '#')
  }

  lemma {:induction false} BodyOfDigits(t: string)
    requires AllDigits(t)
    ensures IntBody(t) && RemoveDelimiter(t) == t
  {
    if t != "" {
      assert IsDigit(t[0]);
      assert |t| > 1 ==> IsDigit(t[1]);
      BodyOfDigits(t[1..]);
      assert [t[0]] + t[1..] == t;
    }
  }

  /** Neither a blank, a comment, a mark, a quote nor a letter. */
  predicate Plain(c: char) {
    c != ' ' && c != '\t' && c != '\r' && c != '#' && c != '"' && c != '\'' && Mark(c) == Eof && !Alpha(c)
  }

  lemma IntTextLooks(n: int)
    ensures var t := IntText(n);
      t != "" && (forall i :: 0 <= i < |t| ==> Numeric(t[i])) && Plain(t[0])
  {
    hide Digits;
    var m := if n < 0 then -n else n;
    DigitsAreDigits(m);
    assert IsDigit(Digits(m)[0]);
  }

  lemma IntTextReads(n: int)
    requires Int64(n)
    ensures var t := IntText(n);
      IsInteger(t) && ReadInt(RemoveDelimiter(t)) == n
  {
    hide Digits, Decimal.Value, IntBody;
    var m := if n < 0 then -n else n;
    var d := Digits(m);
    DigitsAreDigits(m);
    BodyOfDigits(d);
    assert IsDigit(d[0]);
    DigitsOnly(d);
    if n < 0 { MinusDigits(d); }
  }

  lemma DigitsOnly(d: string)
    requires AllDigits(d)
    ensures DigitRun(d) == |d| && d[..|d|] == d
  {
    assert d[..|d|] == d;
    DigitRunIs(d, |d|);
  }

  lemma MinusDigits(d: string)
    requires AllDigits(d)
    ensures ("-" + d)[1..] == d && RemoveDelimiter("-" + d) == "-" + d
  {
    BodyOfDigits(d);
    assert ("-" + d)[1..] == d;
  }

  /** An integer up to a stop. */
  lemma ReadsInt(n: int, rest: string)
    requires Int64(n) && Stop(rest)
    ensures Next(IntText(n) + rest, true) == State(IntTok(n), rest)
  {
    hide IsInteger, ReadInt, IntText, RemoveDelimiter;
    var t := IntText(n);
    var s := t + rest;
    IntTextReads(n);
    IntTextLooks(n);
    assert s[0] == t[0];
    RunIs(Alpha, s, 0);
    forall i | 0 <= i < |t| ensures Numeric(s[i]) { assert s[i] == t[i]; }
    assert rest != "" ==> s[|t|] == rest[0];
    RunIs(Numeric, s, |t|);
    assert s[..|t|] == t && s[|t|..] == rest;
  }

  lemma ReadsBool(b: bool, rest: string)
    requires Stop(rest)
    ensures Next((if b then "true" else "false") + rest, true) == State(BoolTok(b), rest)
  {
    hide IsInteger, ReadInt, NextDouble, NextSingle, NextKey;
    var t := if b then "true" else "false";
    var s := t + rest;
    assert rest != "" ==> s[|t|] == rest[0];
    RunIs(Alpha, s, |t|);
    assert s[..|t|] == t && s[|t|..] == rest;
  }

  lemma ReadsString(s: string, rest: string)
    requires Stop(rest)
    ensures Next(Quoted(s) + rest, true) == State(StringTok(s), rest)
  {
    hide NextDouble, EscapeString;
    LiteralRoundTripsExactly(s, rest);
    assert (Quoted(s) + rest)[0] == '"';
  }

  /** A one-character token at the front. */
  lemma ReadsMark(c: char, rest: string, isValue: bool)
    requires Mark(c) != Eof
    ensures Next([c] + rest, isValue) == State(Mark(c), rest)
  {
    assert ([c] + rest)[1..] == rest;
  }

  lemma SkipsSpace(rest: string, isValue: bool)
    ensures Next(" " + rest, isValue) == Next(rest, isValue)
  {
    assert (" " + rest)[1..] == rest;
  }

  /** The value, then the token behind it. */
  lemma {:induction false} ReadsValue(v: Value, prefix: string, indent: int, rest: string)
    requires LeafOk(v) && Stop(rest)
    ensures ParseValue(Next(Write(v, prefix, indent) + rest, true)) == Ok(v, Next(rest, true))
    decreases v, 1
  {
    hide Next, ParseElements, WriteElements, SameType, Quoted, IntText, Stop;
    match v {
      case Bool(b) => ReadsBool(b, rest);
      case Int(n) => ReadsInt(n, rest);
      case Str(s) => ReadsString(s, rest);
      case Arr(vs) =>
        var text := WriteElements(vs, prefix);
        assert Write(v, prefix, indent) + rest == ['['] + (text + ("]" + rest));
        ReadsMark('[', text + ("]" + rest), true);
        ReadsElements(vs, [], prefix, rest);
        assert [] + vs == vs;
    }
  }

  lemma {:induction false} ReadsElements(vs: seq<Value>, a: seq<Value>, prefix: string, rest: string)
    requires forall i :: 0 <= i < |vs| ==> LeafOk(vs[i])
    requires forall i :: 0 <= i < |vs| ==> SameType((a + vs)[0], vs[i])
    ensures ParseElements(Next(WriteElements(vs, prefix) + ("]" + rest), true), a) == Ok(a + vs, Next(rest, true))
    decreases vs, 0
  {
    hide Next, ParseValue, ParseElements, Write, SameType, Tail, WriteElements;
    if vs == [] {
      NothingWritten(prefix, rest);
      NoElements(State(RBracket, rest), a);
      assert a + vs == a;
    } else {
      var tail := Tail(vs, prefix, rest);
      ReadsTail(vs, prefix, rest);
      ReadsValue(vs[0], prefix, -1, tail);
      assert a != [] ==> (a + vs)[0] == a[0];
      OneElement(Next(Write(vs[0], prefix, -1) + tail, true), a, vs[0], Next(tail, true));
      assert (a + [vs[0]]) + vs[1..] == a + vs;
      if |vs| > 1 { ReadsElements(vs[1..], a + [vs[0]], prefix, rest); } else { assert a + [vs[0]] == a + vs; }
    }
  }

  /** What follows the first element. */
  function Tail(vs: seq<Value>, prefix: string, rest: string): string
    requires vs != []
  {
    if |vs| == 1 then "]" + rest else ", " + (WriteElements(vs[1..], prefix) + ("]" + rest))
  }

  lemma ReadsTail(vs: seq<Value>, prefix: string, rest: string)
    requires vs != []
    ensures WriteElements(vs, prefix) + ("]" + rest) == Write(vs[0], prefix, -1) + Tail(vs, prefix, rest)
    ensures Stop(Tail(vs, prefix, rest))
    ensures var p := Next(Tail(vs, prefix, rest), true);
      if |vs| == 1 then p == State(RBracket, rest) && vs[1..] == []
      else p.tok == Comma && Next(p.rest, true) == Next(WriteElements(vs[1..], prefix) + ("]" + rest), true)
  {
    hide Next, Write;
    if |vs| == 1 {
      ReadsMark(']', rest, true);
      assert [']'] + rest == Tail(vs, prefix, rest);
    } else {
      var more := WriteElements(vs[1..], prefix) + ("]" + rest);
      assert Tail(vs, prefix, rest) == [','] + (" " + more);
      ReadsMark(',', " " + more, true);
      SkipsSpace(more, true);
      var x := Write(vs[0], prefix, -1);
      assert x + ", " + WriteElements(vs[1..], prefix) + ("]" + rest) == x + (", " + more);
    }
  }

  lemma NothingWritten(prefix: string, rest: string)
    ensures Next(WriteElements([], prefix) + ("]" + rest), true) == State(RBracket, rest)
  {
    assert WriteElements([], prefix) + ("]" + rest) == [']'] + rest;
    ReadsMark(']', rest, true);
  }

  lemma NoElements(p: State, a: seq<Value>)
    requires p.tok == RBracket
    ensures ParseElements(p, a) == Ok(a, Next(p.rest, true))
  {}

  /** One round of the loop. */
  lemma OneElement(p: State, a: seq<Value>, x: Value, t: State)
    requires ParseValue(p) == Ok(x, t) && (a != [] ==> SameType(a[0], x)) && (t.tok == RBracket || t.tok == Comma)
    ensures ParseElements(p, a) ==
      if t.tok == RBracket then Ok(a + [x], Next(t.rest, true)) else ParseElements(Next(t.rest, true), a + [x])
  {
    hide Next, SameType;
    NotASeparator(p);
  }

  lemma NotASeparator(p: State)
    requires ParseValue(p).Ok?
    ensures p.tok != Eol && p.tok != RBracket
  {}

  // ---------------------------------------------------------------- keys

  lemma {:induction false} ReadsKeyChars(key: string, rest: string, acc: string)
    ensures StringBody(KeyChars(key) + "\"" + rest, false, acc) == (StringTok(acc + key), rest)
    decreases |key|
  {
    hide StringBody;
    if key == "" {
      assert KeyChars(key) + "\"" + rest == "\"" + rest && acc + key == acc;
      ReadsQuote(rest, acc);
    } else {
      var t := KeyChars(key[1..]) + "\"" + rest;
      ReadsKeyChar(key[0], t, acc);
      assert KeyChars(key) + "\"" + rest == (if key[0] == '\\' || key[0] == '"' then ['\\', key[0]] else [key[0]]) + t;
      ReadsKeyChars(key[1..], rest, acc + [key[0]]);
      assert acc + [key[0]] + key[1..] == acc + key;
    }
  }

  lemma ReadsKeyChar(c: char, t: string, acc: string)
    ensures StringBody((if c == '\\' || c == '"' then ['\\', c] else [c]) + t, false, acc) == StringBody(t, false, acc + [c])
  {
    var e := if c == '\\' || c == '"' then ['\\', c] else [c];
    assert (e + t)[|e|..] == t;
  }

  /** The token a written key gives. */
  function KeyToken(key: string): Token { if AllBare(key) then Ident(key) else StringTok(key) }

  /** A written key, in front of a character no bare key has. */
  lemma ReadsKey(key: string, rest: string)
    requires key != "" && rest != "" && !Bare(rest[0]) && rest[0] != '"'
    ensures Next(EscapeKey(key) + rest, false) == State(KeyToken(key), rest)
  {
    hide Next, Bare;
    var s := EscapeKey(key) + rest;
    if AllBare(key) {
      forall i | 0 <= i < |key| ensures Bare(s[i]) { assert s[i] == key[i]; }
      assert s[|key|] == rest[0];
      ReadsBare(s, |key|);
      assert s[..|key|] == key && s[|key|..] == rest;
    } else {
      ReadsQuotedKey(key, rest);
    }
  }

  lemma {:induction false} ReadsBare(s: string, n: nat)
    requires 0 < n <= |s| && (forall i :: 0 <= i < n ==> Bare(s[i])) && (n < |s| ==> !Bare(s[n]))
    ensures Next(s, false) == State(Ident(s[..n]), s[n..])
  {
    assert Bare(s[0]);
    RunIs(Bare, s, n);
  }

  lemma ReadsQuotedKey(key: string, rest: string)
    requires key != ""
    ensures Next("\"" + KeyChars(key) + "\"" + rest, false) == State(StringTok(key), rest)
  {
    hide StringBody, KeyChars;
    var s := "\"" + KeyChars(key) + "\"" + rest;
    ReadsKeyChars(key, rest, "");
    FirstKeyChar(key);
    assert "" + key == key;
    assert s[1..] == KeyChars(key) + "\"" + rest;
    assert s[0] == '"' && s[1] == KeyChars(key)[0];
  }

  lemma FirstKeyChar(key: string)
    requires key != ""
    ensures KeyChars(key) != "" && KeyChars(key)[0] != '"'
  {}

  lemma {:induction false} SkipsSpaces(indent: int, rest: string)
    ensures Next(Spaces(indent) + rest, false) == Next(rest, false)
    decreases indent
  {
    if indent <= 0 {
      assert Spaces(indent) + rest == rest;
    } else {
      assert Spaces(indent) + rest == " " + (Spaces(indent - 1) + rest);
      SkipsSpace(Spaces(indent - 1) + rest, false);
      SkipsSpaces(indent - 1, rest);
    }
  }

  /** A written key is read back as it was, alone in its stream. */
  lemma {:induction false} BareKeyFound(es: seq<Entry>, key: string)
    requires key != "" && AllBare(key)
    ensures Find(es, key) == FindChild(es, key)
  {
    hide FindChild, Bare, NextToken;
    ReadsBare(key, |key|);
    assert key[..|key|] == key && key[|key|..] == "";
    assert Next("", false).tok == Eof by { EofRead(); }
  }

  lemma EofRead()
    ensures Next("", false) == State(Eof, "")
  {}

  // ---------------------------------------------------------------- trees

  lemma {:induction false} FindSet(es: seq<Entry>, key: string, v: Value)
    ensures FindChild(SetChild(es, key, v), key) == Some(v)
  {
    if es != [] && !Less(key, es[0].key) && es[0].key != key { FindSet(es[1..], key, v); }
  }

  lemma {:induction false} SetAgain(es: seq<Entry>, key: string, v: Value, w: Value)
    ensures SetChild(SetChild(es, key, v), key, w) == SetChild(es, key, w)
  {
    LessIrreflexive(key);
    if es != [] && !Less(key, es[0].key) && es[0].key != key {
      SetAgain(es[1..], key, v, w);
    } else if es == [] || Less(key, es[0].key) {
      assert ([Entry(key, v)] + es)[1..] == es;
    } else {
      assert ([Entry(key, v)] + es[1..])[1..] == es[1..];
    }
  }

  lemma RewrapInner(w: Value, t: Value, u: Value)
    requires t.Tab? && u.Tab?
    ensures Inner(Rewrap(w, t)) == Some(t.es) && Rewrap(Rewrap(w, t), u) == Rewrap(w, u)
  {
    if EndsInTable(w) {
      var front := w.vs[..|w.vs| - 1];
      assert (front + [t])[..|front|] == front;
    }
  }

  lemma {:induction false} AtPut(root: Value, path: Path, es: seq<Entry>)
    ensures At(Put(root, path, es), path) == es
    decreases |path|
  {
    if path != [] {
      var child := ChildOf(EntriesOf(root), path[0]);
      var t := Put(Tab(InnerOf(child)), path[1..], es);
      FindSet(EntriesOf(root), path[0], Rewrap(child, t));
      RewrapInner(child, t, t);
      AtPut(Tab(InnerOf(child)), path[1..], es);
    }
  }

  lemma {:induction false} PutPut(root: Value, path: Path, es: seq<Entry>, fs: seq<Entry>)
    ensures Put(Put(root, path, es), path, fs) == Put(root, path, fs)
    decreases |path|
  {
    if path != [] {
      var child := ChildOf(EntriesOf(root), path[0]);
      var inner := Tab(InnerOf(child));
      var t, u := Put(inner, path[1..], es), Put(inner, path[1..], fs);
      FindSet(EntriesOf(root), path[0], Rewrap(child, t));
      RewrapInner(child, t, u);
      PutPut(inner, path[1..], es, fs);
      SetAgain(EntriesOf(root), path[0], Rewrap(child, t), Rewrap(child, u));
    }
  }

  /** Writing a child table is writing its parent's entry. */
  lemma {:induction false} PutDeeper(root: Value, path: Path, es: seq<Entry>, key: string, fs: seq<Entry>)
    ensures Put(Put(root, path, es), path + [key], fs)
         == Put(root, path, SetChild(es, key, Rewrap(ChildOf(es, key), Tab(fs))))
    decreases |path|
  {
    var es' := SetChild(es, key, Rewrap(ChildOf(es, key), Tab(fs)));
    if path == [] {
      assert (path + [key])[1..] == [];
    } else {
      var child := ChildOf(EntriesOf(root), path[0]);
      var inner := Tab(InnerOf(child));
      var t, u := Put(inner, path[1..], es), Put(inner, path[1..], es');
      FindSet(EntriesOf(root), path[0], Rewrap(child, t));
      RewrapInner(child, t, u);
      PutDeeper(inner, path[1..], es, key, fs);
      assert (path + [key])[1..] == path[1..] + [key];
      SetAgain(EntriesOf(root), path[0], Rewrap(child, t), Rewrap(child, u));
    }
  }

  /** Every step of the path leads to a table, or to an array that ends in one. */
  predicate Leads(root: Value, path: Path)
    decreases |path|
  {
    root.Tab? && (path != [] ==>
      var w := FindChild(root.es, path[0]);
      w.Some? && Inner(w.value).Some? && Leads(Tab(InnerOf(w.value)), path[1..]))
  }

  lemma {:induction false} PutLeads(root: Value, path: Path, es: seq<Entry>)
    ensures Leads(Put(root, path, es), path)
    decreases |path|
  {
    if path != [] {
      var child := ChildOf(EntriesOf(root), path[0]);
      var t := Put(Tab(InnerOf(child)), path[1..], es);
      FindSet(EntriesOf(root), path[0], Rewrap(child, t));
      RewrapInner(child, t, t);
      PutLeads(Tab(InnerOf(child)), path[1..], es);
    }
  }

  // ---------------------------------------------------------------- one line

  /** The parser at the start of a line. */
  function Loop(root: Value, cur: Path, s: string): Result { ParseLoop(root, cur, Next(s, false)) }

  function KeyLine(key: string, v: Value, prefix: string, indent: int): string {
    Spaces(indent) + EscapeKey(key) + " = " + Write(v, prefix, Deeper(indent)) + "\n"
  }

  /** A key line adds its entry, unless its key is empty or, lexed as a path, finds a value. */
  lemma {:induction false} ReadsKeyLine(root: Value, cur: Path, key: string, v: Value, prefix: string, indent: int, rest: string)
    requires LeafOk(v)
    ensures Loop(root, cur, KeyLine(key, v, prefix, indent) + rest) ==
      if key == "" || Find(At(root, cur), key).Some? then Bad
      else Loop(Put(root, cur, SetChild(At(root, cur), key, v)), cur, rest)
  {
    hide Next, ParseValue, Write, EscapeKey, Find, Spaces;
    var value := Write(v, prefix, Deeper(indent)) + ("\n" + rest);
    var line := EscapeKey(key) + (" = " + value);
    assert KeyLine(key, v, prefix, indent) + rest == Spaces(indent) + line;
    SkipsSpaces(indent, line);
    ReadsEqual(value);
    if key == "" {
      EmptyKey(" = " + value);
      EqualFails(root, cur, value);
    } else {
      ReadsKey(key, " = " + value);
      ReadsValue(v, prefix, Deeper(indent), "\n" + rest);
      ReadsMark('\n', rest, true);
      assert ['\n'] + rest == "\n" + rest;
      KeyValueRead(root, cur, key, v, State(KeyToken(key), " = " + value), rest);
    }
  }

  lemma ReadsEqual(value: string)
    ensures Next(" = " + value, true) == State(Equal, " " + value) && Next(" = " + value, false) == State(Equal, " " + value)
    ensures Next(" " + value, true) == Next(value, true)
  {
    assert " = " + value == " " + (['='] + (" " + value));
    SkipsSpace(['='] + (" " + value), true);
    SkipsSpace(['='] + (" " + value), false);
    ReadsMark('=', " " + value, true);
    ReadsMark('=', " " + value, false);
    SkipsSpace(value, true);
  }

  lemma EmptyKey(rest: string)
    ensures EscapeKey("") + rest == rest
  {}

  lemma EqualFails(root: Value, cur: Path, value: string)
    requires Next(" = " + value, false) == State(Equal, " " + value)
    ensures Loop(root, cur, " = " + value) == Bad
  {
    hide Next;
  }

  lemma KeyValueRead(root: Value, cur: Path, key: string, v: Value, p: State, rest: string)
    requires p.tok == KeyToken(key)
    requires Next(p.rest, true).tok == Equal
    requires ParseValue(Next(Next(p.rest, true).rest, true)) == Ok(v, State(Eol, rest))
    ensures ParseLoop(root, cur, p) ==
      if Find(At(root, cur), key).Some? then Bad
      else ParseLoop(Put(root, cur, SetChild(At(root, cur), key, v)), cur, Next(rest, false))
  {
    hide Next, ParseValue, Find, Put, At, SetChild, AllBare;
  }

  // ---------------------------------------------------------------- group headers

  /** The dotted key of a path, as the printer builds it going down. */
  function PathText(path: Path): string {
    if path == [] then "" else Dotted(PathText(path[..|path| - 1]), path[|path| - 1])
  }

  predicate Named(path: Path) { forall i :: 0 <= i < |path| ==> path[i] != "" }

  lemma EscapedKeyIsText(key: string)
    requires key != ""
    ensures EscapeKey(key) != ""
  {}

  /** The dotted key from its front. */
  lemma {:induction false} PathFront(path: Path)
    requires path != [] && Named(path[..|path| - 1])
    ensures PathText(path) == if |path| == 1 then EscapeKey(path[0]) else EscapeKey(path[0]) + "." + PathText(path[1..])
    ensures |path| > 1 ==> PathText(path[..|path| - 1]) != ""
    decreases |path|
  {
    hide EscapeKey, PathText;
    var n := |path| - 1;
    PathStep(path);
    if n > 0 {
      var front, tail := path[..n], path[1..];
      assert Named(front[..n - 1]);
      PathFront(front);
      assert front[0] == path[0] && path[0] != "";
      EscapedKeyIsText(path[0]);
      assert tail[..n - 1] == front[1..] && tail[n - 1] == path[n];
      PathStep(tail);
      if n == 1 {
        assert front[1..] == [];
        PathNothing();
      } else {
        assert Named(tail[..n - 1]) by { forall i | 0 <= i < n - 1 ensures tail[i] != "" { assert tail[i] == front[i + 1]; } }
        PathFront(tail);
        assert PathText(tail) == PathText(front[1..]) + "." + EscapeKey(path[n]);
        Glue3(EscapeKey(path[0]), PathText(front[1..]), EscapeKey(path[n]));
      }
    } else {
      PathNothing();
      assert path[..0] == [];
    }
  }

  lemma PathStep(path: Path)
    requires path != []
    ensures PathText(path) == Dotted(PathText(path[..|path| - 1]), path[|path| - 1])
  {}

  lemma PathNothing()
    ensures PathText([]) == ""
  {}

  lemma Glue3(a: string, b: string, c: string)
    ensures (a + "." + b) + "." + c == a + "." + (b + "." + c)
  {}

  /** The end of a header line, and what follows it. */
  function Close(isArray: bool, rest: string): string { (if isArray then "]]\n" else "]\n") + rest }

  /** What is left of a header from the `i`-th key on. */
  function HeaderRest(path: Path, i: nat, isArray: bool, rest: string): string
    requires i < |path|
  {
    PathText(path[i..]) + Close(isArray, rest)
  }

  lemma HeaderRestFront(path: Path, i: nat, isArray: bool, rest: string)
    requires i < |path| && Named(path[..|path| - 1])
    ensures HeaderRest(path, i, isArray, rest) ==
      EscapeKey(path[i]) + if i == |path| - 1 then Close(isArray, rest) else "." + HeaderRest(path, i + 1, isArray, rest)
  {
    hide EscapeKey, PathText, Close;
    var tail := path[i..];
    NamedTail(path, i);
    PathFront(tail);
    assert tail[0] == path[i];
    if i < |path| - 1 {
      assert tail[1..] == path[i + 1..];
      Glue(EscapeKey(path[i]), PathText(path[i + 1..]), Close(isArray, rest));
    }
  }

  lemma NamedTail(path: Path, i: nat)
    requires i < |path| && Named(path[..|path| - 1])
    ensures var tail := path[i..]; Named(tail[..|tail| - 1])
  {
    var tail := path[i..];
    forall j | 0 <= j < |tail| - 1 ensures tail[j] != "" { assert tail[j] == path[..|path| - 1][i + j]; }
  }

  lemma Glue(a: string, b: string, c: string)
    ensures (a + "." + b) + c == a + ("." + (b + c))
  {}

  /** The tables an array header adds to. */
  function Before(es: seq<Entry>, key: string): seq<Value> {
    match FindChild(es, key) case Some(w) => if w.Arr? then w.vs else [] case None => []
  }

  /** The tree with an empty table at the end of the path, pushed on an array for `[[...]]`. */
  function Opened(root: Value, path: Path, isArray: bool): Value
    requires path != []
  {
    var n := |path| - 1;
    var es := At(root, path[..n]);
    Put(root, path[..n], SetChild(es, path[n], if isArray then Arr(Before(es, path[n]) + [Tab([])]) else Tab([])))
  }

  /** The last key of a header is new, or, for `[[...]]`, an array. */
  predicate CanOpen(root: Value, path: Path, isArray: bool)
    requires path != []
  {
    var w := FindChild(At(root, path[..|path| - 1]), path[|path| - 1]);
    w == None || (isArray && w.value.Arr?)
  }

  /** Every step of the path is missing, or leads to a table or an array that ends in one. */
  predicate Passable(es: seq<Entry>, path: Path)
    decreases |path|
  {
    path == [] ||
    match FindChild(es, path[0])
    case None => true
    case Some(w) => Inner(w).Some? && Passable(InnerOf(w), path[1..])
  }

  /** The tree a header leaves: what is missing is made, and a table that is there is entered again;
      None for a step that is neither a table nor an array that ends in one, and for `[[...]]` on
      anything but an array. */
  function Target(root: Value, path: Path, isArray: bool): Option<Value>
    requires path != []
  {
    var front := path[..|path| - 1];
    if !Passable(EntriesOf(root), front) then None
    else if CanOpen(root, path, isArray) then Some(Opened(root, path, isArray))
    else if !isArray && Inner(ChildOf(At(root, front), path[|path| - 1])).Some? then Some(root)
    else None
  }

  /** What a header does from its `i`-th key on. */
  function Headed(root: Value, path: Path, isArray: bool, rest: string): Parsed<Group>
    requires path != []
  {
    if path[|path| - 1] == "" || Target(root, path, isArray) == None then Failed
    else Ok(Group(Target(root, path, isArray).value, path), Next(rest, false))
  }

  lemma {:induction false} ReadsPath(root: Value, path: Path, i: nat, isArray: bool, rest: string)
    requires i < |path| && Named(path[..|path| - 1]) && Leads(root, path[..i])
    ensures ParseGroup(root, path[..i], Next(HeaderRest(path, i, isArray, rest), false), isArray) == Headed(root, path, isArray, rest)
    ensures Next(HeaderRest(path, i, isArray, rest), false).tok != LBracket
    decreases |path| - i
  {
    hide ParseGroup, Next, HeaderRest, Named, EscapeKey, Leads, Target, At, Put, SetChild, FindChild, Inner;
    if i < |path| - 1 {
      ReadsStep(root, path, i, isArray, rest);
      match FindChild(At(root, path[..i]), path[i]) {
        case None =>
          MakesStep(root, path, i, isArray);
          ReadsPath(Put(root, path[..i], SetChild(At(root, path[..i]), path[i], Tab([]))), path, i + 1, isArray, rest);
        case Some(w) =>
          if Inner(w).Some? {
            LeadsMore(root, path, i);
            ReadsPath(root, path, i + 1, isArray, rest);
          } else {
            Blocked(root, path, i, isArray);
          }
      }
    } else {
      HeaderRestFront(path, i, isArray, rest);
      LeadsPass(root, path[..i]);
      LastKey(root, path, isArray, rest);
    }
  }

  /** A key with a dot behind it. */
  lemma ReadsStep(root: Value, path: Path, i: nat, isArray: bool, rest: string)
    requires i < |path| - 1 && Named(path[..|path| - 1])
    ensures ParseGroup(root, path[..i], Next(HeaderRest(path, i, isArray, rest), false), isArray) ==
      match Enter(root, path[..i], path[i])
      case None => Failed
      case Some(root') => ParseGroup(root', path[..i + 1], Next(HeaderRest(path, i + 1, isArray, rest), false), isArray)
    ensures Next(HeaderRest(path, i, isArray, rest), false).tok != LBracket
  {
    hide ParseGroup, Next, HeaderRest, EscapeKey, AllBare, Enter;
    var n, more := |path| - 1, HeaderRest(path, i + 1, isArray, rest);
    HeaderRestFront(path, i, isArray, rest);
    assert path[i] == path[..n][i];
    ReadsKey(path[i], "." + more);
    ReadsMark('.', more, false);
    assert ['.'] + more == "." + more;
    assert path[..i] + [path[i]] == path[..i + 1];
    EntersTable(root, path[..i], path[i], State(KeyToken(path[i]), "." + more), isArray);
  }

  lemma EntersTable(root: Value, cur: Path, key: string, p: State, isArray: bool)
    requires p.tok == KeyToken(key) && Next(p.rest, false).tok == Dot
    ensures ParseGroup(root, cur, p, isArray) ==
      match Enter(root, cur, key)
      case None => Failed
      case Some(root') => ParseGroup(root', cur + [key], Next(Next(p.rest, false).rest, false), isArray)
  {
    hide Next, Enter, AllBare;
  }

  /** A path that leads somewhere can be passed. */
  lemma {:induction false} LeadsPass(root: Value, path: Path)
    requires Leads(root, path)
    ensures Passable(EntriesOf(root), path)
    decreases |path|
  {
    if path != [] { LeadsPass(Tab(InnerOf(FindChild(root.es, path[0]).value)), path[1..]); }
  }

  lemma {:induction false} LeadsMore(root: Value, path: Path, i: nat)
    requires i < |path| && Leads(root, path[..i])
    requires var w := FindChild(At(root, path[..i]), path[i]); w.Some? && Inner(w.value).Some?
    ensures Leads(root, path[..i + 1])
    decreases i
  {
    if i > 0 {
      assert path[..i][1..] == path[1..][..i - 1] && path[..i + 1][1..] == path[1..][..i];
      LeadsMore(Tab(InnerOf(FindChild(root.es, path[0]).value)), path[1..], i - 1);
    }
  }

  lemma {:induction false} Blocked(root: Value, path: Path, i: nat, isArray: bool)
    requires i < |path| - 1 && Leads(root, path[..i])
    requires var w := FindChild(At(root, path[..i]), path[i]); w.Some? && Inner(w.value).None?
    ensures Target(root, path, isArray) == None && !Passable(EntriesOf(root), path[..|path| - 1])
    decreases i
  {
    hide Opened, CanOpen;
    var n := |path| - 1;
    if i > 0 {
      assert path[..i][1..] == path[1..][..i - 1] && path[..n][1..] == path[1..][..n - 1];
      Blocked(Tab(InnerOf(FindChild(root.es, path[0]).value)), path[1..], i - 1, isArray);
    }
  }

  /** Behind a missing step everything is missing. */
  lemma {:induction false} Missing(root: Value, path: Path, i: nat, n: nat)
    requires i < n <= |path| && Leads(root, path[..i]) && FindChild(At(root, path[..i]), path[i]) == None
    ensures Passable(EntriesOf(root), path[..n]) && At(root, path[..n]) == []
    decreases n
  {
    assert path[..n][1..] == path[1..][..n - 1];
    if i > 0 {
      assert path[..i][1..] == path[1..][..i - 1];
      Missing(Tab(InnerOf(FindChild(root.es, path[0]).value)), path[1..], i - 1, n - 1);
    } else {
      AtNothing(path[1..][..n - 1]);
    }
  }

  lemma {:induction false} AtNothing(path: Path)
    ensures At(Tab([]), path) == [] && Passable([], path)
    decreases |path|
  {
    if path != [] { AtNothing(path[1..]); }
  }

  /** Writing a table is writing its parent's entry. */
  lemma {:induction false} PutLast(root: Value, path: Path, key: string, fs: seq<Entry>)
    ensures Put(root, path + [key], fs)
         == Put(root, path, SetChild(At(root, path), key, Rewrap(ChildOf(At(root, path), key), Tab(fs))))
    decreases |path|
  {
    if path == [] {
      assert (path + [key])[1..] == [];
    } else {
      PutLast(Tab(InnerOf(ChildOf(EntriesOf(root), path[0]))), path[1..], key, fs);
      assert (path + [key])[1..] == path[1..] + [key];
    }
  }

  /** Writing what is there first makes no difference to what is written below it. */
  lemma {:induction false} PutThrough(root: Value, q: Path, r: Path, es: seq<Entry>)
    ensures Put(Put(root, q, At(root, q)), q + r, es) == Put(root, q + r, es)
    decreases |q|
  {
    if q == [] {
      assert q + r == r;
    } else {
      var child := ChildOf(EntriesOf(root), q[0]);
      var inner := Tab(InnerOf(child));
      var x := Put(inner, q[1..], At(inner, q[1..]));
      var y := Put(inner, q[1..] + r, es);
      assert (q + r)[1..] == q[1..] + r;
      FindSet(EntriesOf(root), q[0], Rewrap(child, x));
      RewrapInner(child, x, y);
      PutThrough(inner, q[1..], r, es);
      SetAgain(EntriesOf(root), q[0], Rewrap(child, x), Rewrap(child, y));
    }
  }

  /** Making a missing step does not change where the header ends up. */
  lemma {:induction false} MakesStep(root: Value, path: Path, i: nat, isArray: bool)
    requires i < |path| - 1 && Leads(root, path[..i]) && FindChild(At(root, path[..i]), path[i]) == None
    ensures var root' := Put(root, path[..i], SetChild(At(root, path[..i]), path[i], Tab([])));
      Leads(root', path[..i + 1]) && Target(root', path, isArray) == Target(root, path, isArray)
  {
    hide Put, At, SetChild, Leads, Passable;
    var n, q := |path| - 1, path[..i + 1];
    var root' := Put(root, q, []);
    assert path[..i] + [path[i]] == q;
    PutLast(root, path[..i], path[i], []);
    Missing(root, path, i, i + 1);
    Missing(root, path, i, n);
    PutLeads(root, q, []);
    AtPut(root, q, []);
    if i + 1 < n { Missing(root', path, i + 1, n); } else { LeadsPass(root', q); }
    var es := SetChild([], path[n], if isArray then Arr([Tab([])]) else Tab([]));
    assert [] + [Tab([])] == [Tab([])];
    assert q + path[i + 1..n] == path[..n];
    PutThrough(root, q, path[i + 1..n], es);
  }

  /** The closing brackets. */
  lemma ReadsClose(isArray: bool, rest: string)
    ensures var p := Next(Close(isArray, rest), false);
      var q := Next(p.rest, false);
      && Close(isArray, rest)[0] == ']' && p.tok == RBracket
      && if isArray then q.tok == RBracket && Next(q.rest, false) == State(Eol, rest) else q == State(Eol, rest)
  {
    hide Next;
    var line := "\n" + rest;
    ReadsMark('\n', rest, false);
    assert ['\n'] + rest == line;
    ReadsMark(']', line, false);
    if isArray {
      ReadsMark(']', [']'] + line, false);
      assert Close(isArray, rest) == [']'] + ([']'] + line);
    } else {
      assert Close(isArray, rest) == [']'] + line;
    }
  }

  lemma LastKey(root: Value, path: Path, isArray: bool, rest: string)
    requires path != [] && Passable(EntriesOf(root), path[..|path| - 1])
    ensures var p := Next(EscapeKey(path[|path| - 1]) + Close(isArray, rest), false);
      ParseGroup(root, path[..|path| - 1], p, isArray) == Headed(root, path, isArray, rest) && p.tok != LBracket
  {
    hide Next, At, Put, SetChild, FindChild, EscapeKey, Close, Target;
    var n := |path| - 1;
    var key := path[n];
    ReadsClose(isArray, rest);
    if key == "" {
      EmptyKey(Close(isArray, rest));
    } else {
      ReadsKey(key, Close(isArray, rest));
      assert path[..n] + [key] == path;
      OpensLast(root, path[..n], key, State(KeyToken(key), Close(isArray, rest)), isArray, rest);
    }
  }

  lemma OpensLast(root: Value, cur: Path, key: string, p: State, isArray: bool, rest: string)
    requires p.tok == KeyToken(key) && Next(p.rest, false).tok == RBracket && (cur + [key])[..|cur|] == cur
    requires var q := Next(Next(p.rest, false).rest, false);
      if isArray then q.tok == RBracket && Next(q.rest, false) == State(Eol, rest) else q == State(Eol, rest)
    requires key != "" && Passable(EntriesOf(root), cur)
    ensures ParseGroup(root, cur, p, isArray) == Headed(root, cur + [key], isArray, rest)
  {
    hide Next, At, Put, SetChild, FindChild, AllBare, Passable;
    assert [] + [Tab([])] == [Tab([])];
  }

  /** A header line with named steps moves to the table at its path: exactly when its last key is
      not empty and nothing but tables, and arrays that end in one, is in the way. */
  lemma HeaderExactly(root: Value, cur: Path, path: Path, indent: int, isArray: bool, rest: string)
    requires root.Tab? && path != [] && Named(path[..|path| - 1])
    ensures Loop(root, cur, Header(PathText(path), indent, isArray) + rest) ==
      if path[|path| - 1] == "" || Target(root, path, isArray) == None then Bad
      else Loop(Target(root, path, isArray).value, path, rest)
  {
    hide Next, ParseGroup, ParseLoop, PathText, Target, Header, Headed, HeaderRest;
    assert path[0..] == path && path[..0] == [];
    ReadsPath(root, path, 0, isArray, rest);
    RestIs(path, isArray, rest);
    HeaderLine(root, cur, PathText(path), indent, isArray, rest);
    HeadedIs(root, path, isArray, rest);
  }

  lemma HeadedIs(root: Value, path: Path, isArray: bool, rest: string)
    requires path != []
    ensures Headed(root, path, isArray, rest) ==
      if path[|path| - 1] == "" || Target(root, path, isArray) == None then Failed
      else Ok(Group(Target(root, path, isArray).value, path), Next(rest, false))
  {
    hide Target, Next;
  }

  lemma RestIs(path: Path, isArray: bool, rest: string)
    requires path != []
    ensures HeaderRest(path, 0, isArray, rest) == PathText(path) + Close(isArray, rest)
  {
    hide PathText, Close;
    assert path[0..] == path;
  }

  /** The text of a header line up to its key. */
  lemma HeaderLine(root: Value, cur: Path, key: string, indent: int, isArray: bool, rest: string)
    requires Next(key + Close(isArray, rest), false).tok != LBracket
    ensures Loop(root, cur, Header(key, indent, isArray) + rest) ==
      match ParseGroup(root, [], Next(key + Close(isArray, rest), false), isArray)
      case Ok(g, u) => ParseLoop(g.root, g.cur, u)
      case Failed => Bad
      case Outside => Unmodelled
  {
    hide Next, ParseGroup, ParseLoop, Spaces, Header, Close;
    var inner := key + Close(isArray, rest);
    var open := if isArray then ['['] + (['['] + inner) else ['['] + inner;
    HeaderText(key, indent, isArray, rest);
    ReadsMark('\n', Spaces(indent) + open, false);
    SkipsSpaces(indent, open);
    ReadsMark('[', inner, false);
    ReadsMark('[', ['['] + inner, false);
    HeaderRead(root, cur, State(Eol, Spaces(indent) + open), inner, isArray);
  }

  /** A header whose table is missing makes it and moves there. */
  lemma ReadsHeader(root: Value, cur: Path, path: Path, indent: int, isArray: bool, rest: string)
    requires path != [] && Named(path[..|path| - 1]) && Leads(root, path[..|path| - 1]) && CanOpen(root, path, isArray)
    ensures Loop(root, cur, Header(PathText(path), indent, isArray) + rest) ==
      if path[|path| - 1] == "" then Bad else Loop(Opened(root, path, isArray), path, rest)
  {
    hide At, Put, FindChild, Leads, PathText, CanOpen, Opened, Loop, Header, Passable;
    LeadsPass(root, path[..|path| - 1]);
    LeadsFromTable(root, path[..|path| - 1]);
    HeaderExactly(root, cur, path, indent, isArray, rest);
  }

  lemma LeadsFromTable(root: Value, path: Path)
    requires Leads(root, path)
    ensures root.Tab?
  {}

  lemma HeaderText(key: string, indent: int, isArray: bool, rest: string)
    ensures var inner := key + Close(isArray, rest);
      Header(key, indent, isArray) + rest == ['\n'] + (Spaces(indent) + if isArray then ['['] + (['['] + inner) else ['['] + inner)
  {
    hide Spaces;
  }

  lemma {:induction false} HeaderRead(root: Value, cur: Path, p: State, inner: string, isArray: bool)
    requires p.tok == Eol && Next(inner, false).tok != LBracket
    requires var q := Next(p.rest, false);
      q.tok == LBracket && if isArray then Next(q.rest, false) == State(LBracket, inner) else q.rest == inner
    ensures ParseLoop(root, cur, p) ==
      match ParseGroup(root, [], Next(inner, false), isArray)
      case Ok(g, u) => ParseLoop(g.root, g.cur, u)
      case Failed => Bad
      case Outside => Unmodelled
  {
    hide Next, ParseGroup;
    assert SkipEols(p, false) == Next(p.rest, false);
  }

  // ---------------------------------------------------------------- whole tables

  predicate Sorted(es: seq<Entry>) { forall i, j :: 0 <= i < j < |es| ==> Less(es[i].key, es[j].key) }

  /** A table of leaves, such tables, and non-empty arrays of such tables; its keys in order and
      distinct. */
  predicate Shape(es: seq<Entry>)
    decreases es, 1
  {
    Sorted(es) && forall i :: 0 <= i < |es| ==> EntryOk(es[i])
  }

  predicate EntryOk(e: Entry)
    decreases e
  {
    if e.value.Tab? then Shape(e.value.es)
    else if IsGroup(e.value) then forall j :: 0 <= j < |e.value.vs| ==> e.value.vs[j].Tab? && Shape(e.value.vs[j].es)
    else LeafOk(e.value)
  }

  /** No leaf has an empty key, or one that, lexed as a path, finds an earlier leaf of its table. */
  predicate LeavesFresh(before: seq<Entry>, es: seq<Entry>)
    decreases |es|
  {
    es == [] ||
    if IsGroup(es[0].value) then LeavesFresh(before, es[1..])
    else es[0].key != "" && Find(before, es[0].key) == None && LeavesFresh(before + [es[0]], es[1..])
  }

  predicate GroupsFresh(es: seq<Entry>)
    decreases es, 0
  {
    es == [] || ((IsGroup(es[0].value) ==> es[0].key != "" && GroupFresh(es[0].value)) && GroupsFresh(es[1..]))
  }

  predicate GroupFresh(v: Value)
    decreases v, 0
  {
    match v
    case Tab(es) => Fresh(es)
    case Arr(vs) => forall j :: 0 <= j < |vs| ==> vs[j].Tab? ==> Fresh(vs[j].es)
    case _ => true
  }

  predicate Fresh(es: seq<Entry>)
    decreases es, 1
  {
    LeavesFresh([], es) && GroupsFresh(es)
  }

  /** The leaves, and the groups among the first `n` entries. */
  function Keep(es: seq<Entry>, n: nat): seq<Entry> {
    if es == [] then [] else
    (if IsGroup(es[0].value) && n == 0 then [] else [es[0]]) + Keep(es[1..], if n == 0 then 0 else n - 1)
  }

  lemma {:induction false} KeepAll(es: seq<Entry>)
    ensures Keep(es, |es|) == es
  {
    if es != [] { KeepAll(es[1..]); }
  }

  lemma {:induction false} KeepLeaf(es: seq<Entry>, n: nat)
    requires n < |es| && !IsGroup(es[n].value)
    ensures Keep(es, n) == Keep(es, n + 1)
  {
    if n > 0 { KeepLeaf(es[1..], n - 1); }
  }

  lemma {:induction false} KeepKeys(es: seq<Entry>, n: nat, key: string)
    requires forall i :: 0 <= i < |es| ==> Less(key, es[i].key)
    ensures FindChild(Keep(es, n), key) == None
    ensures forall v :: SetChild(Keep(es, n), key, v) == [Entry(key, v)] + Keep(es, n)
    decreases |es|
  {
    if es != [] {
      LessIrreflexive(key);
      assert Less(key, es[0].key);
      var m := if n == 0 then 0 else n - 1;
      KeepKeys(es[1..], m, key);
      if !(IsGroup(es[0].value) && n == 0) {
        assert Keep(es, n)[0] == es[0];
        assert Keep(es, n)[1..] == Keep(es[1..], m);
      } else {
        assert Keep(es, n) == Keep(es[1..], m);
      }
    }
  }

  /** Adding the group at its turn: it was not there, and it takes its place in the order. */
  lemma {:induction false} KeepGroup(es: seq<Entry>, n: nat)
    requires n < |es| && Sorted(es) && IsGroup(es[n].value)
    ensures FindChild(Keep(es, n), es[n].key) == None
    ensures SetChild(Keep(es, n), es[n].key, es[n].value) == Keep(es, n + 1)
    decreases n
  {
    if n == 0 {
      forall i | 0 <= i < |es[1..]| ensures Less(es[0].key, es[1..][i].key) { assert es[1..][i] == es[i + 1]; }
      KeepKeys(es[1..], 0, es[0].key);
      assert Keep(es, 0) == Keep(es[1..], 0);
    } else {
      assert Less(es[0].key, es[n].key);
      LessTotal(es[0].key, es[n].key);
      LessIrreflexive(es[n].key);
      assert es[1..][n - 1] == es[n];
      assert Sorted(es[1..]);
      KeepGroup(es[1..], n - 1);
      assert Keep(es, n)[0] == es[0] && Keep(es, n)[1..] == Keep(es[1..], n - 1);
    }
  }

  lemma {:induction false} SetLast(before: seq<Entry>, key: string, v: Value)
    requires forall i :: 0 <= i < |before| ==> Less(before[i].key, key)
    ensures SetChild(before, key, v) == before + [Entry(key, v)]
  {
    if before != [] {
      assert Less(before[0].key, key);
      LessTotal(before[0].key, key);
      SetLast(before[1..], key, v);
    }
  }

  /** The leaf lines of a table. */
  lemma {:induction false} ReadsLeaves(root: Value, path: Path, before: seq<Entry>, es: seq<Entry>, indent: int, rest: string)
    requires forall i :: 0 <= i < |es| ==> IsGroup(es[i].value) || LeafOk(es[i].value)
    requires Sorted(es) && forall i, j :: 0 <= i < |before| && 0 <= j < |es| ==> Less(before[i].key, es[j].key)
    ensures Loop(Put(root, path, before), path, WriteLeaves(es, PathText(path), indent) + rest) ==
      if LeavesFresh(before, es) then Loop(Put(root, path, before + Keep(es, 0)), path, rest) else Bad
    decreases |es|
  {
    hide Loop, Put, Write, WriteLeaves, KeyLine, PathText, Find, Keep, SetChild;
    LeavesText(es, before, PathText(path), indent, rest);
    if es != [] {
      var more := WriteLeaves(es[1..], PathText(path), indent) + rest;
      var e := es[0];
      assert Sorted(es[1..]);
      if IsGroup(e.value) {
        ReadsLeaves(root, path, before, es[1..], indent, rest);
      } else {
        ReadsKeyLine(Put(root, path, before), path, e.key, e.value, PathText(path), indent, more);
        AtPut(root, path, before);
        SetLast(before, e.key, e.value);
        PutPut(root, path, before, before + [e]);
        OrderKept(before, es);
        ReadsLeaves(root, path, before + [e], es[1..], indent, rest);
      }
    }
  }

  /** The leaf lines, one by one, and the leaves they leave in front of the groups. */
  lemma LeavesText(es: seq<Entry>, before: seq<Entry>, prefix: string, indent: int, rest: string)
    ensures es == [] ==> WriteLeaves(es, prefix, indent) + rest == rest && before + Keep(es, 0) == before
    ensures es != [] ==>
      var e, more := es[0], WriteLeaves(es[1..], prefix, indent) + rest;
      if IsGroup(e.value)
      then WriteLeaves(es, prefix, indent) + rest == more && Keep(es, 0) == Keep(es[1..], 0)
      else
        && WriteLeaves(es, prefix, indent) + rest == KeyLine(e.key, e.value, prefix, indent) + more
        && before + Keep(es, 0) == before + [e] + Keep(es[1..], 0)
  {
    hide Write, Spaces, EscapeKey, IsGroup;
    if es != [] && !IsGroup(es[0].value) {
      Assoc(KeyLine(es[0].key, es[0].value, prefix, indent), WriteLeaves(es[1..], prefix, indent), rest);
      Assoc(before, [es[0]], Keep(es[1..], 0));
    }
  }

  lemma OrderKept(before: seq<Entry>, es: seq<Entry>)
    requires es != [] && Sorted(es)
    requires forall i, j :: 0 <= i < |before| && 0 <= j < |es| ==> Less(before[i].key, es[j].key)
    ensures forall i, j :: 0 <= i < |before + [es[0]]| && 0 <= j < |es[1..]| ==> Less((before + [es[0]])[i].key, es[1..][j].key)
  {}

  /** The groups of a table from the `i`-th entry on, wherever the parser is. */
  lemma {:induction false} ReadsGroups(root: Value, path: Path, es: seq<Entry>, i: nat, cur: Path, indent: int, rest: string)
    returns (cur': Path)
    requires Shape(es) && Named(path) && i <= |es|
    ensures Loop(Put(root, path, Keep(es, i)), cur, WriteGroups(es[i..], PathText(path), indent) + rest) ==
      if GroupsFresh(es[i..]) then Loop(Put(root, path, es), cur', rest) else Bad
    decreases es, |es| - i
  {
    hide Loop, Put, PathText, GroupFresh, GroupsFresh, Keep, Write, WriteTables, WriteGroups, Header, Dotted, Shape, EntryOk;
    ShapeSorted(es);
    if i == |es| {
      KeepAll(es);
      NoGroups(PathText(path), indent, rest);
      assert es[i..] == [];
      cur' := cur;
    } else {
      var e, more := es[i], WriteGroups(es[i + 1..], PathText(path), indent) + rest;
      assert es[i..] == [e] + es[i + 1..];
      GroupText(e, es[i + 1..], path, indent, rest);
      FreshStep(es, i);
      if !IsGroup(e.value) {
        KeepLeaf(es, i);
        assert GroupOf(e, path, indent) + more == more;
        cur' := ReadsGroups(root, path, es, i + 1, cur, indent, rest);
      } else {
        NamedMore(path, e.key);
        var inside;
        if e.value.Tab? {
          inside := ReadsGroup(root, path, es, i, cur, indent, more);
        } else {
          NoTablesYet(root, path, es, i);
          inside := ReadsTables(root, path, es, i, 0, cur, indent, more);
          assert e.value == Arr(e.value.vs[0..]);
        }
        assert Loop(Put(root, path, Keep(es, i)), cur, GroupOf(e, path, indent) + more) ==
          if e.key != "" && GroupFresh(e.value) then Loop(Put(root, path, Keep(es, i + 1)), inside, more) else Bad;
        cur' := ReadsGroups(root, path, es, i + 1, inside, indent, rest);
      }
    }
  }

  lemma FreshStep(es: seq<Entry>, i: nat)
    requires i < |es|
    ensures GroupsFresh(es[i..]) <==>
      (IsGroup(es[i].value) ==> es[i].key != "" && GroupFresh(es[i].value)) && GroupsFresh(es[i + 1..])
  {
    hide GroupFresh, IsGroup;
    assert es[i..][0] == es[i] && es[i..][1..] == es[i + 1..];
  }

  lemma NoGroups(prefix: string, indent: int, rest: string)
    ensures WriteGroups([], prefix, indent) + rest == rest && GroupsFresh([])
  {}

  lemma GroupIsArray(v: Value)
    requires IsGroup(v) && !v.Tab?
    ensures v.Arr? && v.vs != []
  {}

  lemma NamedMore(path: Path, key: string)
    ensures (path + [key])[..|path|] == path && (path + [key])[|path|] == key
  {}

  /** What is printed for one entry, in front of the rest. */
  function GroupOf(e: Entry, path: Path, indent: int): string {
    var there := PathText(path + [e.key]);
    if e.value.Tab? then Header(there, indent, false) + Write(e.value, there, Deeper(indent))
    else if IsGroup(e.value) then WriteTables(e.value.vs, there, indent)
    else ""
  }

  lemma GroupText(e: Entry, es: seq<Entry>, path: Path, indent: int, rest: string)
    ensures WriteGroups([e] + es, PathText(path), indent) + rest
         == GroupOf(e, path, indent) + (WriteGroups(es, PathText(path), indent) + rest)
  {
    hide Write, WriteTables, Header, EscapeKey, IsGroup;
    assert (path + [e.key])[..|path|] == path;
    assert ([e] + es)[1..] == es;
  }

  /** One table: its header, then everything inside it. */
  lemma {:induction false} ReadsGroup(root: Value, path: Path, es: seq<Entry>, i: nat, cur: Path, indent: int, more: string)
    returns (inside: Path)
    requires Shape(es) && Named(path) && i < |es| && es[i].value.Tab?
    ensures Loop(Put(root, path, Keep(es, i)), cur, GroupOf(es[i], path, indent) + more)
        == if es[i].key != "" && GroupFresh(es[i].value) then Loop(Put(root, path, Keep(es, i + 1)), inside, more) else Bad
    decreases es, |es| - i, 0
  {
    hide Loop, Put, PathText, Fresh, Write, Header, Dotted, Leads;
    var e, there := es[i], path + [es[i].key];
    var tree, text := Put(root, path, Keep(es, i)), Write(e.value, PathText(there), Deeper(indent)) + more;
    assert GroupOf(e, path, indent) + more == Header(PathText(there), indent, false) + text;
    NamedMore(path, e.key);
    AtPut(root, path, Keep(es, i));
    PutLeads(root, path, Keep(es, i));
    KeepGroup(es, i);
    ReadsHeader(tree, cur, there, indent, false, text);
    inside := [];
    if e.key != "" {
      PutPut(root, path, Keep(es, i), SetChild(Keep(es, i), e.key, Tab([])));
      PutDeeper(root, path, Keep(es, i), e.key, []);
      assert Opened(tree, there, false) == Put(tree, there, []);
      assert e.value == Tab(e.value.es) && EntryOk(e);
      inside := ReadsTable(tree, there, e.value.es, Deeper(indent), more);
      PutDeeper(root, path, Keep(es, i), e.key, e.value.es);
    }
  }

  /** The table with the first `j` tables of its `i`-th entry. */
  function Part(es: seq<Entry>, i: nat, j: nat): seq<Entry>
    requires i < |es| && es[i].value.Arr? && j <= |es[i].value.vs|
  {
    if j == 0 then Keep(es, i) else SetChild(Keep(es, i), es[i].key, Arr(es[i].value.vs[..j]))
  }

  lemma NoTablesYet(root: Value, path: Path, es: seq<Entry>, i: nat)
    requires i < |es| && es[i].value.Arr?
    ensures Put(root, path, Keep(es, i)) == Put(root, path, Part(es, i, 0))
    ensures es[i].value.vs[0..] == es[i].value.vs
  {}

  /** What the array is before and after one more table. */
  lemma PartStep(es: seq<Entry>, i: nat, j: nat)
    requires i < |es| && Sorted(es) && IsGroup(es[i].value) && es[i].value.Arr? && j < |es[i].value.vs|
    ensures var key, vs := es[i].key, es[i].value.vs;
      && Before(Part(es, i, j), key) == vs[..j]
      && (FindChild(Part(es, i, j), key) == None || FindChild(Part(es, i, j), key).value.Arr?)
      && (forall v :: SetChild(Part(es, i, j), key, v) == SetChild(Keep(es, i), key, v))
  {
    var key, vs := es[i].key, es[i].value.vs;
    KeepGroup(es, i);
    if j > 0 {
      FindSet(Keep(es, i), key, Arr(vs[..j]));
      forall v ensures SetChild(Part(es, i, j), key, v) == SetChild(Keep(es, i), key, v) {
        SetAgain(Keep(es, i), key, Arr(vs[..j]), v);
      }
    }
  }

  /** An array of tables, from the `j`-th on: each is pushed, entered and filled. */
  lemma {:induction false} ReadsTables(root: Value, path: Path, es: seq<Entry>, i: nat, j: nat, cur: Path, indent: int, more: string)
    returns (inside: Path)
    requires Shape(es) && Named(path) && i < |es| && IsGroup(es[i].value) && es[i].value.Arr? && j <= |es[i].value.vs|
    requires j == |es[i].value.vs| ==> es[i].key != ""
    ensures var e, there := es[i], PathText(path + [es[i].key]);
      Loop(Put(root, path, Part(es, i, j)), cur, WriteTables(e.value.vs[j..], there, indent) + more)
        == if e.key != "" && GroupFresh(Arr(e.value.vs[j..])) then Loop(Put(root, path, Keep(es, i + 1)), inside, more) else Bad
    decreases es, |es| - i, |es[i].value.vs| - j
  {
    hide Loop, Put, PathText, Fresh, Write, Header, Dotted, Keep, Shape, IsGroup, SetChild, WriteTables, GroupFresh;
    var e, there := es[i], path + [es[i].key];
    var vs := e.value.vs;
    ShapeSorted(es);
    if j == |vs| {
      NothingPushed(es, i, indent, PathText(there), more);
      inside := cur;
    } else {
      var rest := WriteTables(vs[j + 1..], PathText(there), indent) + more;
      TablesText(vs, j, PathText(there), indent, more);
      ShapeEntry(es, i, j);
      assert vs[j] == Tab(vs[j].es);
      inside := PushesTable(root, path, es, i, j, cur, indent, rest);
      TablesFresh(vs, j);
      if e.key != "" {
        inside := ReadsTables(root, path, es, i, j + 1, inside, indent, more);
      }
    }
  }

  lemma ShapeSorted(es: seq<Entry>)
    requires Shape(es)
    ensures Sorted(es)
  {}

  lemma ShapeEntry(es: seq<Entry>, i: nat, j: nat)
    requires Shape(es) && i < |es| && IsGroup(es[i].value) && es[i].value.Arr? && j < |es[i].value.vs|
    ensures es[i].value.vs[j].Tab? && Shape(es[i].value.vs[j].es)
  {
    assert EntryOk(es[i]);
  }

  lemma TablesFresh(vs: seq<Value>, j: nat)
    requires j < |vs| && vs[j].Tab?
    ensures GroupFresh(Arr(vs[j..])) <==> Fresh(vs[j].es) && GroupFresh(Arr(vs[j + 1..]))
  {
    hide Fresh;
    assert vs[j..][0] == vs[j];
    var now, later := vs[j..], vs[j + 1..];
    forall k | 0 <= k < |later| ensures later[k] == now[k + 1] {}
    forall k | 0 < k < |now| ensures now[k] == later[k - 1] {}
  }

  lemma NothingPushed(es: seq<Entry>, i: nat, indent: int, there: string, more: string)
    requires i < |es| && Sorted(es) && IsGroup(es[i].value) && es[i].value.Arr?
    ensures var vs := es[i].value.vs;
      && Part(es, i, |vs|) == Keep(es, i + 1) && WriteTables(vs[|vs|..], there, indent) + more == more
      && GroupFresh(Arr(vs[|vs|..]))
  {
    var vs := es[i].value.vs;
    assert vs[..|vs|] == vs && vs[|vs|..] == [];
    GroupIsArray(es[i].value);
    KeepGroup(es, i);
  }

  lemma TablesText(vs: seq<Value>, j: nat, there: string, indent: int, more: string)
    requires j < |vs|
    ensures WriteTables(vs[j..], there, indent) + more ==
      Header(there, indent, true) + (Write(vs[j], there, Deeper(indent)) + (WriteTables(vs[j + 1..], there, indent) + more))
  {
    hide Header, Write;
    assert vs[j..][0] == vs[j] && vs[j..][1..] == vs[j + 1..];
  }

  /** One table of an array. */
  lemma {:induction false} PushesTable(root: Value, path: Path, es: seq<Entry>, i: nat, j: nat, cur: Path, indent: int, rest: string)
    returns (inside: Path)
    requires Shape(es) && Named(path) && i < |es| && IsGroup(es[i].value) && es[i].value.Arr? && j < |es[i].value.vs|
    requires es[i].value.vs[j].Tab? && Shape(es[i].value.vs[j].es)
    ensures var e, there := es[i], PathText(path + [es[i].key]);
      Loop(Put(root, path, Part(es, i, j)), cur, Header(there, indent, true) + (Write(e.value.vs[j], there, Deeper(indent)) + rest))
        == if e.key != "" && Fresh(e.value.vs[j].es) then Loop(Put(root, path, Part(es, i, j + 1)), inside, rest) else Bad
    decreases es, |es| - i, |es[i].value.vs| - j, 0
  {
    hide Loop, PathText, Fresh, Write, Header, Dotted, Keep, Shape, IsGroup, SetChild, Leads;
    var e, there := es[i], path + [es[i].key];
    var vs, text := e.value.vs, Write(e.value.vs[j], PathText(there), Deeper(indent)) + rest;
    var tree := Put(root, path, Part(es, i, j));
    NamedMore(path, e.key);
    ShapeSorted(es);
    AtPut(root, path, Part(es, i, j));
    PutLeads(root, path, Part(es, i, j));
    PartStep(es, i, j);
    ReadsHeader(tree, cur, there, indent, true, text);
    inside := [];
    if e.key != "" {
      var pushed := SetChild(Keep(es, i), e.key, Arr(vs[..j] + [Tab([])]));
      PutPut(root, path, Part(es, i, j), pushed);
      var tree' := Put(root, path, pushed);
      LastTable(root, path, Keep(es, i), e.key, vs[..j], [], []);
      assert vs[j] == Tab(vs[j].es) && vs[..j] + [vs[j]] == vs[..j + 1];
      inside := ReadsTable(tree', there, vs[j].es, Deeper(indent), rest);
      LastTable(root, path, Keep(es, i), e.key, vs[..j], [], vs[j].es);
    }
  }

  /** Writing the last table of a child array is writing the array. */
  lemma LastTable(root: Value, path: Path, es: seq<Entry>, key: string, us: seq<Value>, was: seq<Entry>, fs: seq<Entry>)
    ensures Put(Put(root, path, SetChild(es, key, Arr(us + [Tab(was)]))), path + [key], fs)
         == Put(root, path, SetChild(es, key, Arr(us + [Tab(fs)])))
  {
    hide Put, SetChild;
    var es' := SetChild(es, key, Arr(us + [Tab(was)]));
    FindSet(es, key, Arr(us + [Tab(was)]));
    PutDeeper(root, path, es', key, fs);
    assert (us + [Tab(was)])[..|us|] == us;
    SetAgain(es, key, Arr(us + [Tab(was)]), Arr(us + [Tab(fs)]));
  }

  lemma ShapeLeaves(es: seq<Entry>)
    requires Shape(es)
    ensures Sorted(es) && forall i :: 0 <= i < |es| ==> IsGroup(es[i].value) || LeafOk(es[i].value)
  {
    forall i | 0 <= i < |es| ensures IsGroup(es[i].value) || LeafOk(es[i].value) { assert EntryOk(es[i]); }
  }

  /** A whole table, from the empty one its header left. */
  lemma {:induction false} ReadsTable(root: Value, path: Path, es: seq<Entry>, indent: int, rest: string) returns (cur: Path)
    requires Shape(es) && Named(path)
    ensures Loop(Put(root, path, []), path, Write(Tab(es), PathText(path), indent) + rest) ==
      if Fresh(es) then Loop(Put(root, path, es), cur, rest) else Bad
    decreases es, |es| + 1
  {
    hide Loop, Put, PathText, LeavesFresh, GroupsFresh, WriteLeaves, WriteGroups, Keep;
    ShapeLeaves(es);
    var groups := WriteGroups(es, PathText(path), indent) + rest;
    assert Write(Tab(es), PathText(path), indent) + rest == WriteLeaves(es, PathText(path), indent) + groups;
    ReadsLeaves(root, path, [], es, indent, groups);
    assert [] + Keep(es, 0) == Keep(es, 0) && es[0..] == es;
    cur := ReadsGroups(root, path, es, 0, path, indent, rest);
  }

  /** Parsing what the printer writes, indented or not, gives the value back exactly when no key
      is empty and no leaf's key, lexed as a path, finds an earlier leaf of the same table. */
  lemma {:induction false} RoundTripsExactly(es: seq<Entry>, indent: int)
    requires Shape(es)
    ensures Parse(Write(Tab(es), "", indent)) == Done(Tab(es)) <==> Fresh(es)
    ensures !Fresh(es) ==> Parse(Write(Tab(es), "", indent)) == Bad
  {
    hide Write, Fresh, Shape, ParseLoop, Next;
    var text := Write(Tab(es), "", indent);
    NoBOM(es, indent);
    var cur := ReadsTable(Tab([]), [], es, indent, "");
    assert text + "" == text;
    AtTheEnd(Tab(es), cur);
  }

  lemma AtTheEnd(root: Value, cur: Path)
    ensures Loop(root, cur, "") == Done(root)
  {}

  /** A printed table never starts with a byte order mark. */
  lemma NoBOM(es: seq<Entry>, indent: int)
    requires Shape(es)
    ensures SkipBOM(Write(Tab(es), "", indent)) == Some(Write(Tab(es), "", indent))
  {
    hide WriteLeaves, WriteGroups, Shape;
    LeavesStart(es, "", indent);
    GroupsStart(es, "", indent);
    var l, g := WriteLeaves(es, "", indent), WriteGroups(es, "", indent);
    assert l != "" ==> (l + g)[0] == l[0];
    assert l == "" ==> l + g == g;
  }

  lemma {:induction false} LeavesStart(es: seq<Entry>, prefix: string, indent: int)
    ensures var t := WriteLeaves(es, prefix, indent); t != "" ==> t[0] as int < 128
  {
    hide Write;
    if es != [] {
      LeavesStart(es[1..], prefix, indent);
      if !IsGroup(es[0].value) {
        KeyStart(es[0].key);
        var line := Spaces(indent) + EscapeKey(es[0].key) + " = " + Write(es[0].value, prefix, Deeper(indent)) + "\n";
        assert line[0] == (if indent > 0 then ' ' else if es[0].key == "" then ' ' else EscapeKey(es[0].key)[0]);
      }
    }
  }

  lemma KeyStart(key: string)
    ensures key == "" ==> EscapeKey(key) == ""
    ensures key != "" ==> EscapeKey(key) != "" && EscapeKey(key)[0] as int < 128
  {}

  lemma {:induction false} GroupsStart(es: seq<Entry>, prefix: string, indent: int)
    ensures var t := WriteGroups(es, prefix, indent); t != "" ==> t[0] == '\n'
  {
    hide Write, Dotted;
    if es != [] { GroupsStart(es[1..], prefix, indent); }
  }

  // ---------------------------------------------------------------- which tables are fresh

  predicate BareKeys(es: seq<Entry>)
    decreases es, 1
  {
    forall i :: 0 <= i < |es| ==> es[i].key != "" && AllBare(es[i].key) && BareInside(es[i].value)
  }

  predicate BareInside(v: Value)
    decreases v, 0
  {
    match v
    case Tab(es) => BareKeys(es)
    case Arr(vs) => forall j :: 0 <= j < |vs| ==> vs[j].Tab? ==> BareKeys(vs[j].es)
    case _ => true
  }

  /** Tables of non-empty bare keys round-trip. */
  lemma BareKeysRoundTrip(es: seq<Entry>, indent: int)
    requires Shape(es) && BareKeys(es)
    ensures Parse(Write(Tab(es), "", indent)) == Done(Tab(es))
  {
    hide Shape, BareKeys, Write, Parse;
    BareIsFresh(es);
    RoundTripsExactly(es, indent);
  }

  lemma {:induction false} BareIsFresh(es: seq<Entry>)
    requires Shape(es) && BareKeys(es)
    ensures Fresh(es)
    decreases es, 1
  {
    BareLeavesFresh([], es);
    BareGroupsFresh(es);
  }

  lemma {:induction false} BareGroupFresh(e: Entry)
    requires EntryOk(e) && IsGroup(e.value) && BareInside(e.value)
    ensures GroupFresh(e.value)
    decreases e
  {
    match e.value
    case Tab(es) => BareIsFresh(es);
    case Arr(vs) => forall j | 0 <= j < |vs| ensures vs[j].Tab? ==> Fresh(vs[j].es) { BareIsFresh(vs[j].es); }
  }

  lemma {:induction false} BareGroupsFresh(es: seq<Entry>)
    requires Shape(es) && BareKeys(es)
    ensures GroupsFresh(es)
    decreases es, 0
  {
    if es != [] {
      forall i | 0 <= i < |es[1..]| ensures es[1..][i] == es[i + 1] {}
      BareGroupsFresh(es[1..]);
      if IsGroup(es[0].value) { BareGroupFresh(es[0]); }
    }
  }

  lemma {:induction false} BareLeavesFresh(before: seq<Entry>, es: seq<Entry>)
    requires Sorted(es) && forall i, j :: 0 <= i < |before| && 0 <= j < |es| ==> Less(before[i].key, es[j].key)
    requires forall i :: 0 <= i < |es| ==> es[i].key != "" && AllBare(es[i].key)
    ensures LeavesFresh(before, es)
    decreases |es|
  {
    hide Find, FindChild, AllBare;
    if es != [] {
      OrderKept(before, es);
      assert Sorted(es[1..]);
      forall i | 0 <= i < |es[1..]| ensures es[1..][i].key != "" && AllBare(es[1..][i].key) { assert es[1..][i] == es[i + 1]; }
      if IsGroup(es[0].value) {
        BareLeavesFresh(before, es[1..]);
      } else {
        BareKeyFound(before, es[0].key);
        NotFoundBehind(before, es[0].key);
        BareLeavesFresh(before + [es[0]], es[1..]);
      }
    }
  }

  lemma {:induction false} NotFoundBehind(before: seq<Entry>, key: string)
    requires forall i :: 0 <= i < |before| ==> Less(before[i].key, key)
    ensures FindChild(before, key) == None
  {
    if before != [] {
      assert Less(before[0].key, key);
      LessIrreflexive(key);
      NotFoundBehind(before[1..], key);
    }
  }

  /** A table the printer writes and the parser rejects: the keys `b` and `b` with a blank behind
      it. The second is lexed as the first, and taken for a duplicate. */
  lemma TrailingBlankRejected(indent: int)
    ensures var es := [Entry("b", Int(1)), Entry("b ", Int(2))];
      Shape(es) && Parse(Write(Tab(es), "", indent)) == Bad
  {
    hide Find, Write, Parse, Shape;
    var es := [Entry("b", Int(1)), Entry("b ", Int(2))];
    BlankSkipped();
    BlankOrdered();
    SecondLeaf(es[0], es[1]);
    RoundTripsExactly(es, indent);
  }

  lemma BlankOrdered()
    ensures Shape([Entry("b", Int(1)), Entry("b ", Int(2))])
  {
    assert Less("b", "b ") by { assert "b"[1..] == "" && "b "[1..] == " "; }
  }

  lemma SecondLeaf(e0: Entry, e1: Entry)
    requires !IsGroup(e0.value) && !IsGroup(e1.value) && Find([e0], e1.key) != None
    ensures !Fresh([e0, e1])
  {
    hide Find;
    var es := [e0, e1];
    assert es[1..] == [e1] && [] + [e0] == [e0];
    assert !LeavesFresh([e0], [e1]);
    assert !LeavesFresh([], es) || Find([], e0.key) != None || e0.key == "";
  }

  lemma BlankSkipped()
    ensures Find([Entry("b", Int(1))], "b ") == Some(Int(1))
  {
    var s := "b ";
    hide Bare, NextToken;
    assert Bare(s[0]) && !Bare(s[1]) by { BareB(); }
    ReadsBare(s, 1);
    assert s[..1] == "b" && s[1..] == " ";
    SkipsSpace("", false);
    EofRead();
    assert " " + "" == " ";
  }

  lemma BareB()
    ensures Bare('b') && !Bare(' ')
  {}
}
