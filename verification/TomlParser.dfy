/**
 The parser of network/toml.h. The tree is a value, and the pointer `currentValue` into it is the
 list of keys that leads there, through the last table of an array of tables. Inline tables,
 doubles and times are outside the model: the parse is then Unmodelled.
 */
module TomlParser {
  import opened Common
  import opened Order
  import opened TomlLexer

  /** A valid value; a table is a `std::map`: its entries in key order. */
  datatype Value = Bool(b: bool) | Int(n: int) | Str(s: string) | Arr(vs: seq<Value>) | Tab(es: seq<Entry>)

  datatype Entry = Entry(key: string, value: Value)

  type Path = seq<string>

  // ---------------------------------------------------------------- tables

  function FindChild(es: seq<Entry>, key: string): Option<Value> {
    if es == [] then None else if es[0].key == key then Some(es[0].value) else FindChild(es[1..], key)
  }

  function SetChild(es: seq<Entry>, key: string, v: Value): seq<Entry> {
    if es == [] || Less(key, es[0].key) then [Entry(key, v)] + es
    else if es[0].key == key then [Entry(key, v)] + es[1..]
    else [es[0]] + SetChild(es[1..], key, v)
  }

  function EntriesOf(v: Value): seq<Entry> { if v.Tab? then v.es else [] }

  /** An array that ends in a table. */
  predicate EndsInTable(w: Value) { w.Arr? && w.vs != [] && w.vs[|w.vs| - 1].Tab? }

  /** The table a group header enters through a child: the child, or the last table of an array. */
  function Inner(w: Value): Option<seq<Entry>> {
    if w.Tab? then Some(w.es) else if EndsInTable(w) then Some(w.vs[|w.vs| - 1].es) else None
  }

  /** The child with that table replaced. */
  function Rewrap(w: Value, t: Value): Value {
    if EndsInTable(w) then Arr(w.vs[..|w.vs| - 1] + [t]) else t
  }

  function ChildOf(es: seq<Entry>, key: string): Value {
    match FindChild(es, key) case Some(w) => w case None => Tab([])
  }

  function InnerOf(w: Value): seq<Entry> { match Inner(w) case Some(es) => es case None => [] }

  /** The table a path leads to. */
  function At(root: Value, path: Path): seq<Entry>
    decreases |path|
  {
    if path == [] then EntriesOf(root) else At(Tab(InnerOf(ChildOf(EntriesOf(root), path[0]))), path[1..])
  }

  /** The tree with the table at the path replaced. */
  function Put(root: Value, path: Path, es: seq<Entry>): (r: Value)
    ensures r.Tab?
    decreases |path|
  {
    if path == [] then Tab(es) else
    var child := ChildOf(EntriesOf(root), path[0]);
    Tab(SetChild(EntriesOf(root), path[0], Rewrap(child, Put(Tab(InnerOf(child)), path[1..], es))))
  }

  // ---------------------------------------------------------------- tokens

  /** The token in hand and the stream behind it. */
  datatype State = State(tok: Token, rest: string)

  function Next(s: string, isValue: bool): (p: State)
    ensures Weight(p) <= |s|
  {
    var (tok, rest) := NextToken(s, isValue);
    State(tok, rest)
  }

  function Weight(p: State): nat { |p.rest| + (if Solid(p.tok) then 1 else 0) }

  function SkipEols(p: State, isValue: bool): (q: State)
    ensures Weight(q) <= Weight(p) && q.tok != Eol
    decreases Weight(p)
  {
    if p.tok == Eol then SkipEols(Next(p.rest, isValue), isValue) else p
  }

  // ---------------------------------------------------------------- values

  datatype Parsed<T> = Ok(value: T, p: State) | Failed | Outside

  /** `a.front().type() == x.type()`. */
  predicate SameType(x: Value, y: Value) {
    x.Bool? == y.Bool? && x.Int? == y.Int? && x.Str? == y.Str? && x.Arr? == y.Arr? && x.Tab? == y.Tab?
  }

  function ParseValue(p: State): (r: Parsed<Value>)
    ensures r.Ok? ==> Weight(r.p) < Weight(p)
    decreases Weight(p), 1
  {
    match p.tok
    case StringTok(s) => Ok(Str(s), Next(p.rest, true))
    case MultiTok(s) => Ok(Str(s), Next(p.rest, true))
    case LBracket =>
      (match ParseElements(Next(p.rest, true), [])
       case Ok(vs, q) => Ok(Arr(vs), q)
       case Failed => Failed
       case Outside => Outside)
    case LBrace => Outside
    case BoolTok(b) => Ok(Bool(b), Next(p.rest, true))
    case IntTok(n) => Ok(Int(n), Next(p.rest, true))
    case OtherTok => Outside
    case _ => Failed
  }

  /** The loop of parseArray, and the closing bracket. A comma between elements may be missing. */
  function ParseElements(p: State, a: seq<Value>): (r: Parsed<seq<Value>>)
    ensures r.Ok? ==> Weight(r.p) <= Weight(p)
    decreases Weight(p), 2
  {
    var q := SkipEols(p, true);
    if q.tok == RBracket then Ok(a, Next(q.rest, true)) else
    match ParseValue(q)
    case Failed => Failed
    case Outside => Outside
    case Ok(x, t) =>
      if a != [] && !SameType(a[0], x) then Failed else
      var u := SkipEols(t, true);
      if u.tok == RBracket then Ok(a + [x], Next(u.rest, true))
      else ParseElements(if u.tok == Comma then Next(u.rest, true) else u, a + [x])
  }

  // ---------------------------------------------------------------- keys

  /** `find(key)`: the key is lexed again, as a dotted path. */
  function Find(es: seq<Entry>, s: string): Option<Value>
    decreases |s|
  {
    var p := Next(s, false);
    if !p.tok.Ident? && !p.tok.StringTok? then None else
    var q := Next(p.rest, false);
    if q.tok == Eof then FindChild(es, p.tok.str)
    else if q.tok == Dot then
      match FindChild(es, p.tok.str)
      case None => None
      case Some(w) => if w.Tab? then Find(w.es, q.rest) else None
    else None
  }

  /** The tree and the new current path. */
  datatype Group = Group(root: Value, cur: Path)

  /** Entering a child table, which is made when it is missing; None for a child that is none. */
  function Enter(root: Value, cur: Path, key: string): Option<Value> {
    match FindChild(At(root, cur), key)
    case None => Some(Put(root, cur, SetChild(At(root, cur), key, Tab([]))))
    case Some(w) => if Inner(w).Some? then Some(root) else None
  }

  /** Pushing a table on a child array, which is made when it is missing. */
  function Push(root: Value, cur: Path, key: string): Option<Value> {
    match FindChild(At(root, cur), key)
    case None => Some(Put(root, cur, SetChild(At(root, cur), key, Arr([Tab([])]))))
    case Some(w) =>
      if w.Arr? then Some(Put(root, cur, SetChild(At(root, cur), key, Arr(w.vs + [Tab([])])))) else None
  }

  /** The loop of parseGroupKey behind the brackets, and the end of the line. */
  function ParseGroup(root: Value, cur: Path, p: State, isArray: bool): (r: Parsed<Group>)
    ensures r.Ok? ==> Weight(r.p) < Weight(p)
    decreases Weight(p)
  {
    if !p.tok.Ident? && !p.tok.StringTok? then Failed else
    var key, q := p.tok.str, Next(p.rest, false);
    if q.tok == Dot then
      match Enter(root, cur, key)
      case None => Failed
      case Some(root') => ParseGroup(root', cur + [key], Next(q.rest, false), isArray)
    else if q.tok == RBracket then
      match if isArray then Push(root, cur, key) else Enter(root, cur, key)
      case None => Failed
      case Some(root') =>
        var t := Next(q.rest, false);
        if isArray && t.tok != RBracket then Failed else
        var u := if isArray then Next(t.rest, false) else t;
        if u.tok != Eol && u.tok != Eof then Failed
        else Ok(Group(root', cur + [key]), Next(u.rest, false))
    else Failed
  }

  // ---------------------------------------------------------------- documents

  datatype Result = Done(root: Value) | Bad | Unmodelled

  /** parseKeyValue: the tree with the new entry. */
  function ParseKeyValue(root: Value, cur: Path, p: State): (r: Parsed<Value>)
    ensures r.Ok? ==> Weight(r.p) < Weight(p)
  {
    if !p.tok.Ident? && !p.tok.StringTok? then Failed else
    var key, q := p.tok.str, Next(p.rest, true);
    if q.tok != Equal then Failed else
    match ParseValue(Next(q.rest, true))
    case Failed => Failed
    case Outside => Outside
    case Ok(v, t) =>
      if t.tok != Eol && t.tok != Eof then Failed
      else if Find(At(root, cur), key).Some? then Failed
      else Ok(Put(root, cur, SetChild(At(root, cur), key, v)), Next(t.rest, false))
  }

  /** The loop of parse. */
  function ParseLoop(root: Value, cur: Path, p: State): Result
    decreases Weight(p)
  {
    var q := SkipEols(p, false);
    if q.tok == Eof then Done(root)
    else if q.tok == LBracket then
      var t := Next(q.rest, false);
      match if t.tok == LBracket then ParseGroup(root, [], Next(t.rest, false), true) else ParseGroup(root, [], t, false)
      case Ok(g, u) => ParseLoop(g.root, g.cur, u)
      case Failed => Bad
      case Outside => Unmodelled
    else
      match ParseKeyValue(root, cur, q)
      case Ok(root', u) => ParseLoop(root', cur, u)
      case Failed => Bad
      case Outside => Unmodelled
  }

  function SkipBOM(s: string): Option<string> {
    if s == "" || s[0] as int != 0xEF then Some(s)
    else if |s| >= 3 && s[1] as int == 0xBB && s[2] as int == 0xBF then Some(s[3..])
    else None
  }

  function Parse(s: string): Result {
    match SkipBOM(s)
    case None => Bad
    case Some(t) => ParseLoop(Tab([]), [], Next(t, false))
  }
}
