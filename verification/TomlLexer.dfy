/**
 The lexer of network/toml.h and its string escapes. A stream is what is left to read, a `char`
 one byte.
 */
module TomlLexer {
  import opened Decimal

  /** `OtherTok` is a double, a time, or text that is neither: tokens this model does not read. */
  datatype Token =
    | Eof | Eol | Equal | LBrace | RBrace | LBracket | RBracket | Comma | Dot
    | Ident(str: string) | StringTok(str: string) | MultiTok(str: string)
    | BoolTok(b: bool) | IntTok(n: int) | OtherTok | ErrorTok

  /** Tokens for which the lexer has taken at least one byte. */
  predicate Solid(t: Token) { t != Eof && t != ErrorTok && t != OtherTok }

  // ---------------------------------------------------------------- runs

  /** How many characters at the front satisfy `f`. */
  function Run(f: char -> bool, s: string): (n: nat)
    ensures n <= |s|
  {
    if s != "" && f(s[0]) then 1 + Run(f, s[1..]) else 0
  }

  lemma {:induction false} RunIs(f: char -> bool, s: string, n: nat)
    requires n <= |s| && (forall i :: 0 <= i < n ==> f(s[i])) && (n < |s| ==> !f(s[n]))
    ensures Run(f, s) == n
    decreases n
  {
    if n > 0 { RunIs(f, s[1..], n - 1); }
  }

  predicate Alpha(c: char) { 'a' <= c <= 'z' || 'A' <= c <= 'Z' }

  predicate Bare(c: char) { Alpha(c) || IsDigit(c) || c == '_' || c == '-' }

  predicate Numeric(c: char) {
    IsDigit(c) || c == '.' || c == 'e' || c == 'E' || c == 'T' || c == 'Z' || c == '_' || c == ':' || c == '-' || c == '+'
  }

  predicate Hex(c: char) { IsDigit(c) || 'A' <= c <= 'F' || 'a' <= c <= 'f' }

  // ---------------------------------------------------------------- integers

  /** Digits with single underscores between them; also nothing at all. */
  predicate IntBody(t: string) {
    t == "" ||
    (IsDigit(t[0]) &&
     if |t| > 1 && t[1] == '_' then |t| > 2 && IsDigit(t[2]) && IntBody(t[2..]) else IntBody(t[1..]))
  }

  predicate IsInteger(t: string) {
    t != "" && IntBody(if t[0] == '+' || t[0] == '-' then t[1..] else t)
  }

  function RemoveDelimiter(t: string): string {
    if t == "" then "" else (if t[0] == '_' then "" else [t[0]]) + RemoveDelimiter(t[1..])
  }

  const INT64_MAX: int := 0x7FFF_FFFF_FFFF_FFFF

  /** `stream >> int64`: 0 without a digit, the nearest bound outside the range. */
  function ReadInt(t: string): int {
    var (sign, d) := if t != "" && t[0] == '-' then (-1, t[1..]) else if t != "" && t[0] == '+' then (1, t[1..]) else (1, t);
    DigitRunDigits(d);
    var v := sign * Value(d[..DigitRun(d)]);
    if v > INT64_MAX then INT64_MAX else if v < -INT64_MAX - 1 then -INT64_MAX - 1 else v
  }

  // ---------------------------------------------------------------- strings

  function HexValue(s: string): nat
    requires forall i :: 0 <= i < |s| ==> Hex(s[i])
  {
    if s == "" then 0 else
    var c := s[|s| - 1];
    assert Hex(c);
    16 * HexValue(s[..|s| - 1]) +
      (if IsDigit(c) then c as int - '0' as int else if c <= 'F' then c as int - 'A' as int + 10 else c as int - 'a' as int + 10)
  }

  /** UTF-8, as a string that a NUL ends; nothing above U+10FFFF. */
  function Unescape(x: nat): string {
    if x == 0 || x > 0x10_FFFF then ""
    else if x <= 0x7F then [x as char]
    else if x <= 0x7FF then [(0xC0 + x / 64) as char, (0x80 + x % 64) as char]
    else if x <= 0xFFFF then [(0xE0 + x / 4096) as char, (0x80 + x / 64 % 64) as char, (0x80 + x % 64) as char]
    else [(0xF0 + x / 0x4_0000) as char, (0x80 + x / 4096 % 64) as char, (0x80 + x / 64 % 64) as char, (0x80 + x % 64) as char]
  }

  function SkipBlanks(s: string, eol: bool): (r: string)
    ensures |r| <= |s|
  {
    if s != "" && (s[0] == ' ' || s[0] == '\t' || (eol && (s[0] == '\r' || s[0] == '\n'))) then SkipBlanks(s[1..], eol) else s
  }

  /** The character a backslash and `e` stand for; None for the escapes that are longer or wrong. */
  function Escaped(e: char): (c: char) {
    if e == 't' then '\t' else if e == 'n' then '\n' else if e == 'r' then '\r' else e
  }

  predicate Simple(e: char) { e == 't' || e == 'n' || e == 'r' || e == '"' || e == '\'' || e == '\\' }

  /** The rest of a double-quoted string, with what was read of it so far. */
  function StringBody(s: string, multiline: bool, acc: string): (r: (Token, string))
    ensures |r.1| <= |s| && (r.0.StringTok? || r.0.MultiTok? || r.0.ErrorTok?)
    decreases |s|
  {
    if s == "" then (ErrorTok, s)
    else if s[0] == '\\' then
      if |s| == 1 then (ErrorTok, "")
      else if Simple(s[1]) then StringBody(s[2..], multiline, acc + [Escaped(s[1])])
      else if s[1] == 'u' || s[1] == 'U' then
        var size := if s[1] == 'u' then 4 else 8;
        var hex := Run(Hex, s[2..]);
        HexRun(s[2..]);
        if hex < size then (ErrorTok, s[2 + hex..])
        else StringBody(s[2 + size..], multiline, acc + Unescape(HexValue(s[2..][..size])))
      else if s[1] == '\n' then StringBody(SkipBlanks(s[2..], true), multiline, acc)
      else (ErrorTok, s[2..])
    else if s[0] == '"' then
      if !multiline then (StringTok(acc), s[1..])
      else if |s| > 1 && s[1] == '"' then
        if |s| > 2 && s[2] == '"' then (MultiTok(acc), s[3..]) else StringBody(s[2..], multiline, acc + "\"\"")
      else StringBody(s[1..], multiline, acc + "\"")
    else StringBody(s[1..], multiline, acc + [s[0]])
  }

  lemma {:induction false} HexRun(s: string)
    ensures forall i :: 0 <= i < Run(Hex, s) ==> Hex(s[i])
  {
    if s != "" && Hex(s[0]) {
      HexRun(s[1..]);
      forall i | 0 <= i < Run(Hex, s) ensures Hex(s[i]) { if i > 0 { assert s[i] == s[1..][i - 1]; } }
    }
  }

  /** nextStringDoubleQuote, at a double quote. */
  function NextDouble(s: string): (r: (Token, string))
    requires s != "" && s[0] == '"'
    ensures |r.1| < |s| && (r.0.StringTok? || r.0.MultiTok? || r.0.ErrorTok?)
  {
    if |s| > 1 && s[1] == '"' then
      if |s| == 2 || s[2] != '"' then (StringTok(""), s[2..])
      else
        var t := SkipBlanks(s[3..], false);
        StringBody(if t != "" && t[0] == '\n' then t[1..] else t, true, "")
    else StringBody(s[1..], false, "")
  }

  function SingleBody(s: string, multiline: bool, acc: string): (r: (Token, string))
    ensures |r.1| <= |s| && (r.0.StringTok? || r.0.MultiTok? || r.0.ErrorTok?)
    decreases |s|
  {
    if s == "" then (ErrorTok, s)
    else if s[0] == '\'' then
      if !multiline then (StringTok(acc), s[1..])
      else if |s| > 1 && s[1] == '\'' then
        if |s| > 2 && s[2] == '\'' then (MultiTok(acc), s[3..]) else SingleBody(s[2..], multiline, acc + "''")
      else SingleBody(s[1..], multiline, acc + "'")
    else SingleBody(s[1..], multiline, acc + [s[0]])
  }

  function NextSingle(s: string): (r: (Token, string))
    requires s != "" && s[0] == '\''
    ensures |r.1| < |s| && (r.0.StringTok? || r.0.MultiTok? || r.0.ErrorTok?)
  {
    if |s| > 1 && s[1] == '\'' then
      if |s| == 2 || s[2] != '\'' then (StringTok(""), s[2..])
      else SingleBody(if |s| > 3 && s[3] == '\n' then s[4..] else s[3..], true, "")
    else SingleBody(s[1..], false, "")
  }

  // ---------------------------------------------------------------- tokens

  function NextKey(s: string): (r: (Token, string))
    ensures |r.1| <= |s| && (Solid(r.0) ==> |r.1| < |s|)
  {
    var n := Run(Bare, s);
    if n == 0 then (ErrorTok, s) else (Ident(s[..n]), s[n..])
  }

  function NextValue(s: string): (r: (Token, string))
    ensures |r.1| <= |s| && (Solid(r.0) ==> |r.1| < |s|)
  {
    var n := Run(Alpha, s);
    if n > 0 then
      (if s[..n] == "true" then BoolTok(true) else if s[..n] == "false" then BoolTok(false) else ErrorTok, s[n..])
    else
      var m := Run(Numeric, s);
      (if IsInteger(s[..m]) then IntTok(ReadInt(RemoveDelimiter(s[..m]))) else OtherTok, s[m..])
  }

  function SkipLine(s: string): (r: string)
    ensures |r| <= |s|
  {
    if s == "" || s[0] == '\n' then s else SkipLine(s[1..])
  }

  /** A one-character token. */
  function Mark(c: char): Token {
    match c
    case '\n' => Eol
    case '=' => Equal
    case '{' => LBrace
    case '}' => RBrace
    case '[' => LBracket
    case ']' => RBracket
    case ',' => Comma
    case '.' => Dot
    case _ => Eof
  }

  /** nextToken, for a key or for a value. */
  function NextToken(s: string, isValue: bool): (r: (Token, string))
    ensures |r.1| <= |s| && (Solid(r.0) ==> |r.1| < |s|)
    decreases |s|
  {
    if s == "" then (Eof, s)
    else if s[0] == ' ' || s[0] == '\t' || s[0] == '\r' then NextToken(s[1..], isValue)
    else if s[0] == '#' then NextToken(SkipLine(s[1..]), isValue)
    else if Mark(s[0]) != Eof then (Mark(s[0]), s[1..])
    else if s[0] == '"' then NextDouble(s)
    else if s[0] == '\'' then NextSingle(s)
    else if isValue then NextValue(s) else NextKey(s)
  }

  // ---------------------------------------------------------------- escaping

  function EscapeChar(c: char): string {
    match c
    case '\n' => "\\n"
    case '\r' => "\\r"
    case '\t' => "\\t"
    case '"' => "\\\""
    case '\'' => "\\'"
    case '\\' => "\\\\"
    case _ => [c]
  }

  function EscapeString(s: string): string {
    if s == "" then "" else EscapeChar(s[0]) + EscapeString(s[1..])
  }

  function Quoted(s: string): string { "\"" + EscapeString(s) + "\"" }

  /** Reading an escaped text up to the closing quote. */
  lemma {:induction false} ReadsEscaped(s: string, rest: string, acc: string)
    ensures StringBody(EscapeString(s) + "\"" + rest, false, acc) == (StringTok(acc + s), rest)
    decreases |s|
  {
    hide EscapeChar, StringBody;
    if s == "" {
      assert EscapeString(s) + "\"" + rest == "\"" + rest && acc + s == acc;
      ReadsQuote(rest, acc);
    } else {
      var e, t := EscapeChar(s[0]), EscapeString(s[1..]) + "\"" + rest;
      assert EscapeString(s) + "\"" + rest == e + t;
      ReadsChar(s[0], t, acc);
      ReadsEscaped(s[1..], rest, acc + [s[0]]);
      assert acc + [s[0]] + s[1..] == acc + s;
    }
  }

  lemma ReadsQuote(rest: string, acc: string)
    ensures StringBody("\"" + rest, false, acc) == (StringTok(acc), rest)
  {
    assert ("\"" + rest)[1..] == rest;
  }

  lemma ReadsChar(c: char, t: string, acc: string)
    ensures StringBody(EscapeChar(c) + t, false, acc) == StringBody(t, false, acc + [c])
  {
    var e := EscapeChar(c);
    assert (e + t)[|e|..] == t;
    if |e| == 2 {
      assert Simple(e[1]) && Escaped(e[1]) == c;
    }
  }

  /** A written string is read back, and the stream stands right behind its closing quote,
      exactly unless the empty string is followed by a third quote. */
  lemma LiteralRoundTripsExactly(s: string, rest: string)
    ensures NextDouble(Quoted(s) + rest) == (StringTok(s), rest)
        <==> s != "" || rest == "" || rest[0] != '"'
  {
    hide StringBody, EscapeChar;
    if s == "" {
      assert Quoted(s) + rest == "\"\"" + rest;
      if rest != "" && rest[0] == '"' { ThirdQuote(rest); }
    } else {
      ReadsQuoted(s, rest);
    }
  }

  lemma ReadsQuoted(s: string, rest: string)
    requires s != ""
    ensures NextDouble(Quoted(s) + rest) == (StringTok(s), rest)
  {
    hide StringBody, EscapeChar;
    var text := Quoted(s) + rest;
    ReadsEscaped(s, rest, "");
    assert "" + s == s;
    assert text[1..] == EscapeString(s) + "\"" + rest;
    FirstEscaped(s);
    assert text[1] == EscapeString(s)[0];
  }

  lemma FirstEscaped(s: string)
    requires s != ""
    ensures EscapeString(s) != "" && EscapeString(s)[0] != '"'
  {}

  lemma ThirdQuote(rest: string)
    requires rest != "" && rest[0] == '"'
    ensures |NextDouble("\"\"" + rest).1| < |rest|
  {
    var text := "\"\"" + rest;
    assert text[2] == rest[0];
    assert text[3..] == rest[1..];
  }
}
