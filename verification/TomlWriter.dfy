/** `Value::write` of network/toml.h, and what its texts lex to. */
module TomlWriter {
  import opened Decimal
  import opened TomlLexer
  import opened TomlParser

  // ---------------------------------------------------------------- the printer

  function Spaces(n: int): string { if n <= 0 then "" else seq(n, _ => ' ') }

  predicate AllBare(key: string) { forall i :: 0 <= i < |key| ==> Bare(key[i]) }

  function KeyChars(key: string): string {
    if key == "" then "" else (if key[0] == '\\' || key[0] == '"' then ['\\', key[0]] else [key[0]]) + KeyChars(key[1..])
  }

  function EscapeKey(key: string): string {
    if AllBare(key) then key else "\"" + KeyChars(key) + "\""
  }

  function IntText(n: int): string { if n < 0 then "-" + Digits(-n) else Digits(n) }

  /** Tables, and arrays that start with a table, get a header of their own. */
  predicate IsGroup(v: Value) { v.Tab? || (v.Arr? && v.vs != [] && v.vs[0].Tab?) }

  function Deeper(indent: int): int { if indent >= 0 then indent + 1 else indent }

  function Dotted(prefix: string, key: string): string {
    (if prefix == "" then "" else prefix + ".") + EscapeKey(key)
  }

  /** `[key]`, or `[[key]]` for a table of an array. */
  function Header(key: string, indent: int, isArray: bool): string {
    "\n" + Spaces(indent) + (if isArray then "[[" else "[") + key + (if isArray then "]]\n" else "]\n")
  }

  function Write(v: Value, prefix: string, indent: int): string
    decreases v, 1
  {
    match v
    case Bool(b) => if b then "true" else "false"
    case Int(n) => IntText(n)
    case Str(s) => Quoted(s)
    case Arr(vs) => "[" + WriteElements(vs, prefix) + "]"
    case Tab(es) => WriteLeaves(es, prefix, indent) + WriteGroups(es, prefix, indent)
  }

  function WriteElements(vs: seq<Value>, prefix: string): string
    decreases vs, 0
  {
    if vs == [] then "" else
    if |vs| == 1 then Write(vs[0], prefix, -1) else Write(vs[0], prefix, -1) + ", " + WriteElements(vs[1..], prefix)
  }

  function WriteLeaves(es: seq<Entry>, prefix: string, indent: int): string
    decreases es, 0
  {
    if es == [] then "" else
    (if IsGroup(es[0].value) then ""
     else Spaces(indent) + EscapeKey(es[0].key) + " = " + Write(es[0].value, prefix, Deeper(indent)) + "\n")
    + WriteLeaves(es[1..], prefix, indent)
  }

  function WriteGroups(es: seq<Entry>, prefix: string, indent: int): string
    decreases es, 0
  {
    if es == [] then "" else
    var key, v := Dotted(prefix, es[0].key), es[0].value;
    (if v.Tab? then Header(key, indent, false) + Write(v, key, Deeper(indent))
     else if IsGroup(v) then WriteTables(v.vs, key, indent)
     else "")
    + WriteGroups(es[1..], prefix, indent)
  }

  function WriteTables(vs: seq<Value>, key: string, indent: int): string
    decreases vs, 0
  {
    if vs == [] then "" else
    Header(key, indent, true) + Write(vs[0], key, Deeper(indent)) + WriteTables(vs[1..], key, indent)
  }
}
