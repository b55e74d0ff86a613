/** How the parser reads texts the printer never writes: comments, blanks, a byte order mark, the
    other kinds of string and number, and arrays laid out by hand. */
module TomlLaws {
  import opened Common
  import opened Decimal
  import opened TomlLexer
  import opened TomlParser
  import opened TomlWriter
  import opened TomlRoundTrip

  // ---------------------------------------------------------------- comments and blanks

  lemma {:induction false} LineSkipped(c: string, rest: string)
    requires '\n' !in c && (rest == "" || rest[0] == '\n')
    ensures SkipLine(c + rest) == rest
  {
    if c == "" {
      assert c + rest == rest;
    } else {
      assert (c + rest)[0] == c[0] && c[0] in c && (c + rest)[1..] == c[1..] + rest;
      LineSkipped(c[1..], rest);
    }
  }

  /** A comment ends in front of the newline, which is a token of its own, or at the end. */
  lemma CommentEnds(c: string, rest: string, isValue: bool)
    requires '\n' !in c
    ensures NextToken("#" + c + "\n" + rest, isValue) == (Eol, rest)
    ensures NextToken("#" + c, isValue) == (Eof, "")
  {
    hide NextToken, SkipLine;
    LineSkipped(c, "\n" + rest);
    LineSkipped(c, "");
    assert "#" + c + "\n" + rest == "#" + (c + ("\n" + rest)) && "#" + c == "#" + (c + "");
    HashSkips(c + ("\n" + rest), isValue);
    HashSkips(c + "", isValue);
    ReadsMark('\n', rest, isValue);
    assert ['\n'] + rest == "\n" + rest && Next("\n" + rest, isValue) == State(Eol, rest);
    NothingToRead(isValue);
  }

  lemma HashSkips(t: string, isValue: bool)
    ensures NextToken("#" + t, isValue) == NextToken(SkipLine(t), isValue)
  {
    assert ("#" + t)[1..] == t;
  }

  lemma NothingToRead(isValue: bool)
    ensures NextToken("", isValue) == (Eof, "")
  {}

  predicate IsBlank(c: char) { c == ' ' || c == '\t' || c == '\r' }

  /** Spaces, tabs and carriage returns between tokens do not matter. */
  lemma {:induction false} BlanksSkipped(b: string, rest: string, isValue: bool)
    requires forall i :: 0 <= i < |b| ==> IsBlank(b[i])
    ensures Next(b + rest, isValue) == Next(rest, isValue)
  {
    if b == "" {
      assert b + rest == rest;
    } else {
      assert IsBlank(b[0]) && (b + rest)[1..] == b[1..] + rest;
      forall i | 0 <= i < |b[1..]| ensures IsBlank(b[1..][i]) { assert b[1..][i] == b[i + 1]; }
      BlanksSkipped(b[1..], rest, isValue);
    }
  }

  /** A comment behind anything is as if the line ended there. */
  lemma CommentBehind(b: string, c: string, rest: string, isValue: bool)
    requires (forall i :: 0 <= i < |b| ==> IsBlank(b[i])) && '\n' !in c
    ensures Next(b + ("#" + c + "\n" + rest), isValue) == Next("\n" + rest, isValue) == State(Eol, rest)
  {
    hide NextToken;
    BlanksSkipped(b, "#" + c + "\n" + rest, isValue);
    CommentEnds(c, rest, isValue);
    ReadsMark('\n', rest, isValue);
    assert ['\n'] + rest == "\n" + rest;
  }

  /** An empty line, or one with a comment only, anywhere between the lines of a document, leaves
      the parsed tree the same. */
  lemma {:induction false} CommentLineIgnored(root: Value, cur: Path, b: string, c: string, rest: string)
    requires (forall i :: 0 <= i < |b| ==> IsBlank(b[i])) && '\n' !in c
    ensures Loop(root, cur, b + ("#" + c + "\n" + rest)) == Loop(root, cur, rest)
    ensures Loop(root, cur, b + ("\n" + rest)) == Loop(root, cur, rest)
  {
    hide NextToken, ParseGroup, ParseKeyValue;
    CommentBehind(b, c, rest, false);
    BlanksSkipped(b, "\n" + rest, false);
  }

  /** So it is in front of a document. */
  lemma CommentInFront(c: string, doc: string)
    requires '\n' !in c && (doc == "" || doc[0] as int != 0xEF)
    ensures Parse("#" + c + "\n" + doc) == Parse(doc)
  {
    hide ParseLoop, Next;
    CommentLineIgnored(Tab([]), [], "", c, doc);
    assert "" + ("#" + c + "\n" + doc) == "#" + c + "\n" + doc;
  }

  /** A comment behind the value of a key line leaves the parsed tree the same. */
  lemma {:induction false} CommentBehindValue(root: Value, cur: Path, key: string, v: Value, indent: int, b: string, c: string, rest: string)
    requires LeafOk(v) && key != "" && b != "" && (forall i :: 0 <= i < |b| ==> IsBlank(b[i])) && '\n' !in c
    ensures Loop(root, cur, EscapeKey(key) + " = " + Write(v, "", indent) + (b + ("#" + c + "\n" + rest)))
         == Loop(root, cur, EscapeKey(key) + " = " + Write(v, "", indent) + ("\n" + rest))
  {
    hide Next, ParseValue, Write, EscapeKey, Find, Loop;
    var end := b + ("#" + c + "\n" + rest);
    assert IsBlank(b[0]) && end[0] == b[0];
    CommentBehind(b, c, rest, true);
    LineEndsExactly(root, cur, key, v, indent, end);
    LineEndsExactly(root, cur, key, v, indent, "\n" + rest);
  }

  /** A key line ends with the line or with the document; anything else behind its value is an
      error. */
  lemma {:induction false} LineEndsExactly(root: Value, cur: Path, key: string, v: Value, indent: int, end: string)
    requires LeafOk(v) && key != "" && Stop(end)
    ensures var t := Next(end, true);
      Loop(root, cur, EscapeKey(key) + " = " + Write(v, "", indent) + end) ==
        if (t.tok != Eol && t.tok != Eof) || Find(At(root, cur), key).Some? then Bad
        else Loop(Put(root, cur, SetChild(At(root, cur), key, v)), cur, t.rest)
  {
    hide Next, ParseValue, Write, EscapeKey, Find;
    var value := Write(v, "", indent) + end;
    assert EscapeKey(key) + " = " + Write(v, "", indent) + end == EscapeKey(key) + (" = " + value);
    ReadsEqual(value);
    ReadsKey(key, " = " + value);
    ReadsValue(v, "", indent, end);
    KeyValueEnds(root, cur, key, v, State(KeyToken(key), " = " + value));
  }

  lemma KeyValueEnds(root: Value, cur: Path, key: string, v: Value, p: State)
    requires p.tok == KeyToken(key) && Next(p.rest, true).tok == Equal
    requires var r := ParseValue(Next(Next(p.rest, true).rest, true)); r.Ok? && r.value == v
    ensures var t := ParseValue(Next(Next(p.rest, true).rest, true)).p;
      ParseLoop(root, cur, p) ==
        if (t.tok != Eol && t.tok != Eof) || Find(At(root, cur), key).Some? then Bad
        else ParseLoop(Put(root, cur, SetChild(At(root, cur), key, v)), cur, Next(t.rest, false))
  {
    hide Next, ParseValue, Find, Put, At, SetChild, AllBare;
  }

  /** A header ends with the line or with the document, too, and two brackets need two. */
  lemma HeaderEndsExactly(root: Value, cur: Path, key: string, end: string)
    requires root.Tab? && key != ""
    ensures var t := Next(end, false);
      Loop(root, cur, "[" + (EscapeKey(key) + ("]" + end))) ==
        if (t.tok != Eol && t.tok != Eof) || Target(root, [key], false) == None then Bad
        else Loop(Target(root, [key], false).value, [key], t.rest)
    ensures Next(end, false).tok != RBracket ==> Loop(root, cur, "[[" + (EscapeKey(key) + ("]" + end))) == Bad
  {
    hide Next, EscapeKey, AllBare, Target;
    var inner := EscapeKey(key) + ("]" + end);
    ReadsKey(key, "]" + end);
    ReadsMark(']', end, false);
    assert [']'] + end == "]" + end;
    ReadsMark('[', inner, false);
    ReadsMark('[', ['['] + inner, false);
    assert ['['] + inner == "[" + inner && ['['] + (['['] + inner) == "[[" + inner;
    var p := State(KeyToken(key), "]" + end);
    OneKeyHeader(root, key, p, end, false);
    OneKeyHeader(root, key, p, end, true);
    GroupLine(root, cur, State(LBracket, inner), p, false);
    GroupLine(root, cur, State(LBracket, ['['] + inner), p, true);
  }

  lemma OneKeyHeader(root: Value, key: string, p: State, end: string, isArray: bool)
    requires root.Tab? && key != "" && p.tok == KeyToken(key) && Next(p.rest, false) == State(RBracket, end)
    ensures var t := Next(end, false);
      && (isArray && t.tok != RBracket ==> ParseGroup(root, [], p, isArray) == Failed)
      && (isArray || ParseGroup(root, [], p, isArray) ==
            if (t.tok != Eol && t.tok != Eof) || Target(root, [key], false) == None then Failed
            else Ok(Group(Target(root, [key], false).value, [key]), Next(t.rest, false)))
  {
    hide Next, SetChild, FindChild, AllBare;
    assert [key][..0] == [] && [] + [key] == [key];
  }

  lemma GroupLine(root: Value, cur: Path, q: State, p: State, isArray: bool)
    requires q.tok == LBracket && p.tok != LBracket
    requires if isArray then Next(q.rest, false).tok == LBracket && Next(Next(q.rest, false).rest, false) == p else Next(q.rest, false) == p
    ensures ParseLoop(root, cur, q) ==
      match ParseGroup(root, [], p, isArray)
      case Ok(g, u) => ParseLoop(g.root, g.cur, u)
      case Failed => Bad
      case Outside => Unmodelled
  {
    hide Next, ParseGroup;
  }

  // ---------------------------------------------------------------- the byte order mark

  /** The three bytes of a UTF-8 byte order mark are skipped; a first byte 0xEF without the other
      two is rejected; and any other document is read from its first byte on. */
  lemma MarkSkippedExactly(s: string)
    ensures s == "" || s[0] as int != 0xEF ==> Parse(s) == Loop(Tab([]), [], s)
    ensures s != "" && s[0] as int == 0xEF ==>
      Parse(s) == if |s| >= 3 && s[1] as int == 0xBB && s[2] as int == 0xBF then Loop(Tab([]), [], s[3..]) else Bad
  {
    hide ParseLoop, Next;
  }

  // ---------------------------------------------------------------- strings

  lemma {:induction false} SingleRead(t: string, rest: string, acc: string)
    requires '\'' !in t
    ensures SingleBody(t + "'" + rest, false, acc) == (StringTok(acc + t), rest)
    ensures SingleBody(t + "'''" + rest, true, acc) == (MultiTok(acc + t), rest)
    decreases |t|
  {
    var s, m := t + "'" + rest, t + "'''" + rest;
    if t == "" {
      assert acc + t == acc && s[1..] == rest && m[3..] == rest;
    } else {
      assert t[0] in t && s[1..] == t[1..] + "'" + rest && m[1..] == t[1..] + "'''" + rest;
      SingleRead(t[1..], rest, acc + [t[0]]);
      assert acc + [t[0]] + t[1..] == acc + t;
    }
  }

  /** A text without single quotes between single quotes stands for itself, whatever is in it,
      exactly unless the empty one is followed by a third quote. */
  lemma SingleQuotedExactly(t: string, rest: string)
    requires '\'' !in t
    ensures NextSingle("'" + t + "'" + rest) == (StringTok(t), rest) <==> t != "" || rest == "" || rest[0] != '\''
  {
    hide SingleBody;
    var s := "'" + t + "'" + rest;
    SingleRead(t, rest, "");
    assert "" + t == t && s[1..] == t + "'" + rest;
    if t == "" {
      assert s[2..] == rest;
      if rest != "" { assert s[2] == rest[0]; }
    } else {
      assert s[1] == t[0] && t[0] in t;
    }
  }

  /** Between three single quotes: the same, with a newline right behind the first three dropped. */
  lemma TripleSingle(t: string, rest: string)
    requires '\'' !in t
    ensures NextSingle("'''" + ("\n" + (t + "'''" + rest))) == (MultiTok(t), rest)
    ensures t == "" || t[0] != '\n' ==> NextSingle("'''" + (t + "'''" + rest)) == (MultiTok(t), rest)
  {
    hide SingleBody;
    SingleRead(t, rest, "");
    assert "" + t == t;
    var end := t + "'''" + rest;
    assert end[0] == if t == "" then '\'' else t[0];
    assert ("\n" + end)[1..] == end;
    SingleOpens(end);
    SingleOpens("\n" + end);
  }

  lemma SingleOpens(s: string)
    ensures NextSingle("'''" + s) == SingleBody(if s != "" && s[0] == '\n' then s[1..] else s, true, "")
  {
    hide SingleBody;
    var all := "'''" + s;
    assert all[3..] == s;
    if s != "" { assert all[3] == s[0] && all[4..] == s[1..]; }
  }

  lemma {:induction false} DoubleRead(t: string, rest: string, acc: string)
    requires '"' !in t && '\\' !in t
    ensures StringBody(t + "\"" + rest, false, acc) == (StringTok(acc + t), rest)
    ensures StringBody(t + "\"\"\"" + rest, true, acc) == (MultiTok(acc + t), rest)
    decreases |t|
  {
    var s, m := t + "\"" + rest, t + "\"\"\"" + rest;
    if t == "" {
      assert acc + t == acc && s[1..] == rest && m[3..] == rest;
    } else {
      assert t[0] in t && s[1..] == t[1..] + "\"" + rest && m[1..] == t[1..] + "\"\"\"" + rest;
      DoubleRead(t[1..], rest, acc + [t[0]]);
      assert acc + [t[0]] + t[1..] == acc + t;
    }
  }

  predicate Spaced(b: string) { forall i :: 0 <= i < |b| ==> b[i] == ' ' || b[i] == '\t' }

  lemma {:induction false} SpacesSkipped(b: string, rest: string, eol: bool)
    requires Spaced(b) && (rest == "" || !(rest[0] == ' ' || rest[0] == '\t' || (eol && (rest[0] == '\r' || rest[0] == '\n'))))
    ensures SkipBlanks(b + rest, eol) == rest
  {
    if b == "" {
      assert b + rest == rest;
    } else {
      assert (b + rest)[1..] == b[1..] + rest;
      SpacesSkipped(b[1..], rest, eol);
    }
  }

  /** Between three double quotes a text without quotes and backslashes stands for itself, lines
      included; the rest of the first line is dropped when it is blank. */
  lemma TripleDouble(b: string, t: string, rest: string)
    requires Spaced(b) && '"' !in t && '\\' !in t
    ensures NextDouble("\"\"\"" + (b + ("\n" + (t + "\"\"\"" + rest)))) == (MultiTok(t), rest)
    ensures t == "" || (t[0] != ' ' && t[0] != '\t' && t[0] != '\n') ==>
      NextDouble("\"\"\"" + (t + "\"\"\"" + rest)) == (MultiTok(t), rest)
  {
    hide StringBody, SkipBlanks;
    DoubleRead(t, rest, "");
    assert "" + t == t;
    var end := t + "\"\"\"" + rest;
    assert ("\n" + end)[1..] == end;
    SpacesSkipped(b, "\n" + end, false);
    TripleOpens(b + ("\n" + end));
    assert end[0] == if t == "" then '"' else t[0];
    if t == "" || (t[0] != ' ' && t[0] != '\t' && t[0] != '\n') {
      SpacesSkipped("", end, false);
      assert "" + end == end;
      TripleOpens(end);
    }
  }

  lemma TripleOpens(s: string)
    ensures var t := SkipBlanks(s, false);
      NextDouble("\"\"\"" + s) == StringBody(if t != "" && t[0] == '\n' then t[1..] else t, true, "")
  {
    hide StringBody, SkipBlanks;
    assert ("\"\"\"" + s)[3..] == s;
  }

  /** One quote, or two, inside three stand for themselves. */
  lemma LoneQuotes(t: string, acc: string)
    requires t != "" && t[0] != '"' && t[0] != '\''
    ensures StringBody("\"" + t, true, acc) == StringBody(t, true, acc + "\"")
    ensures StringBody("\"\"" + t, true, acc) == StringBody(t, true, acc + "\"\"")
    ensures SingleBody("'" + t, true, acc) == SingleBody(t, true, acc + "'")
    ensures SingleBody("''" + t, true, acc) == SingleBody(t, true, acc + "''")
  {
    assert ("\"" + t)[1..] == t && ("\"\"" + t)[2..] == t && ("'" + t)[1..] == t && ("''" + t)[2..] == t;
  }

  /** A string that is not closed is an error at the end of the document. */
  lemma {:induction false} NeverClosed(t: string, multi: bool, acc: string)
    ensures '"' !in t && '\\' !in t ==> StringBody(t, multi, acc) == (ErrorTok, "")
    ensures '"' !in t && '\\' !in t ==> StringBody(t + "\\", multi, acc) == (ErrorTok, "")
    ensures '\'' !in t ==> SingleBody(t, multi, acc) == (ErrorTok, "")
    decreases |t|
  {
    if t != "" {
      assert (t + "\\")[0] == t[0] && (t + "\\")[1..] == t[1..] + "\\";
      assert t[0] in t && forall c :: c in t[1..] ==> c in t;
      NeverClosed(t[1..], multi, acc + [t[0]]);
    }
  }

  /** What a backslash and a character mean: the six short escapes, a line continued behind its
      blanks, and nothing else but `u` and `U`. */
  lemma EscapesExactly(e: char, t: string, multi: bool, acc: string)
    ensures var r := StringBody(['\\', e] + t, multi, acc);
      match e
      case 't' => r == StringBody(t, multi, acc + "\t")
      case 'n' => r == StringBody(t, multi, acc + "\n")
      case 'r' => r == StringBody(t, multi, acc + "\r")
      case '"' => r == StringBody(t, multi, acc + "\"")
      case '\'' => r == StringBody(t, multi, acc + "'")
      case '\\' => r == StringBody(t, multi, acc + "\\")
      case '\n' => true
      case 'u' => true
      case 'U' => true
      case _ => r == (ErrorTok, t)
  {
    assert (['\\', e] + t)[2..] == t;
  }

  /** A backslash at the end of a line joins it with the next, without the blanks between. */
  lemma LinesJoin(b: string, t: string, multi: bool, acc: string)
    requires White(b) && (t == "" || !White([t[0]]))
    ensures StringBody("\\\n" + (b + t), multi, acc) == StringBody(t, multi, acc)
  {
    hide StringBody;
    LinesSkipped(b, t);
    JoinStep(b + t, multi, acc);
  }

  lemma {:induction false} LinesSkipped(b: string, t: string)
    requires White(b) && (t == "" || !White([t[0]]))
    ensures SkipBlanks(b + t, true) == t
  {
    if b == "" {
      assert b + t == t;
    } else {
      assert (b + t)[1..] == b[1..] + t;
      forall i | 0 <= i < |b[1..]| ensures IsBlank(b[1..][i]) || b[1..][i] == '\n' { assert b[1..][i] == b[i + 1]; }
      LinesSkipped(b[1..], t);
    }
  }

  lemma JoinStep(t: string, multi: bool, acc: string)
    ensures StringBody("\\\n" + t, multi, acc) == StringBody(SkipBlanks(t, true), multi, acc)
  {
    assert ("\\\n" + t)[2..] == t;
  }

  /** `size` hexadecimal digits, in upper or lower case. */
  function HexText(x: nat, size: nat, lower: bool): (s: string)
    ensures |s| == size
    decreases size
  {
    if size == 0 then "" else HexText(x / 16, size - 1, lower) + [HexDigit(x % 16, lower)]
  }

  function HexDigit(d: nat, lower: bool): char
    requires d < 16
  {
    if lower then "0123456789abcdef"[d] else "0123456789ABCDEF"[d]
  }

  function Power16(n: nat): nat { if n == 0 then 1 else 16 * Power16(n - 1) }

  lemma {:induction false} HexReads(x: nat, size: nat, lower: bool)
    requires x < Power16(size)
    ensures (forall i :: 0 <= i < size ==> Hex(HexText(x, size, lower)[i])) && HexValue(HexText(x, size, lower)) == x
  {
    hide HexDigit, Hex;
    if size > 0 {
      HexReads(x / 16, size - 1, lower);
      DigitReads(HexText(x / 16, size - 1, lower), x % 16, lower);
    }
  }

  lemma DigitReads(s: string, d: nat, lower: bool)
    requires d < 16 && forall i :: 0 <= i < |s| ==> Hex(s[i])
    ensures var t := s + [HexDigit(d, lower)];
      (forall i :: 0 <= i < |t| ==> Hex(t[i])) && HexValue(t) == 16 * HexValue(s) + d
  {
    assert (s + [HexDigit(d, lower)])[..|s|] == s;
  }

  /** `\u` takes four hexadecimal digits and `\U` eight, and writes the code point. */
  lemma CodePointRead(x: nat, lower: bool, long: bool, t: string, multi: bool, acc: string)
    requires x < Power16(if long then 8 else 4)
    ensures StringBody((if long then "\\U" else "\\u") + HexText(x, if long then 8 else 4, lower) + t, multi, acc)
         == StringBody(t, multi, acc + Unescape(x))
  {
    hide HexValue, HexText, Power16, Unescape;
    var size := if long then 8 else 4;
    var d := HexText(x, size, lower);
    var s := (if long then "\\U" else "\\u") + d + t;
    HexReads(x, size, lower);
    assert s[2..] == d + t && s[2 + size..] == t && s[2..][..size] == d;
    RunAtLeast(d + t, size);
  }

  /** Fewer digits are an error. */
  lemma {:induction false} ShortCodePoint(d: string, long: bool, t: string, multi: bool, acc: string)
    requires |d| < (if long then 8 else 4) && (forall i :: 0 <= i < |d| ==> Hex(d[i])) && (t == "" || !Hex(t[0]))
    ensures StringBody((if long then "\\U" else "\\u") + (d + t), multi, acc) == (ErrorTok, t)
  {
    var s := (if long then "\\U" else "\\u") + (d + t);
    assert s[2..] == d + t && s[2 + |d|..] == t;
    forall i | 0 <= i < |d| ensures Hex((d + t)[i]) { assert (d + t)[i] == d[i]; }
    if t != "" { assert (d + t)[|d|] == t[0]; }
    RunIs(Hex, d + t, |d|);
  }

  lemma {:induction false} RunAtLeast(s: string, n: nat)
    requires n <= |s| && forall i :: 0 <= i < n ==> Hex(s[i])
    ensures Run(Hex, s) >= n
    decreases n
  {
    if n > 0 { RunAtLeast(s[1..], n - 1); }
  }

  /** A UTF-8 sequence of up to four bytes, by its lead byte. */
  function CodePoint(s: string): int {
    if s == "" then -1
    else
      var b := seq(|s|, i requires 0 <= i < |s| => s[i] as int);
      if |s| == 1 && b[0] < 0x80 then b[0]
      else if exists i :: 1 <= i < |s| && !(0x80 <= b[i] < 0xC0) then -1
      else if |s| == 2 && 0xC0 <= b[0] < 0xE0 then (b[0] - 0xC0) * 64 + b[1] - 0x80
      else if |s| == 3 && 0xE0 <= b[0] < 0xF0 then ((b[0] - 0xE0) * 64 + b[1] - 0x80) * 64 + b[2] - 0x80
      else if |s| == 4 && 0xF0 <= b[0] < 0xF8 then
        (((b[0] - 0xF0) * 64 + b[1] - 0x80) * 64 + b[2] - 0x80) * 64 + b[3] - 0x80
      else -1
  }

  /** The code point is written as its shortest UTF-8 sequence; 0 and what is beyond U+10FFFF are
      written as nothing. */
  lemma WritesUtf8Exactly(x: nat)
    ensures CodePoint(Unescape(x)) == x <==> 0 < x <= 0x10_FFFF
    ensures x == 0 || x > 0x10_FFFF ==> Unescape(x) == ""
    ensures 0 < x <= 0x10_FFFF ==> |Unescape(x)| == if x < 0x80 then 1 else if x < 0x800 then 2 else if x < 0x1_0000 then 3 else 4
  {
    if x == 0 || x > 0x10_FFFF {
      assert Unescape(x) == "";
    } else {
      InSixes(x);
      DecodesUtf8(x);
    }
  }

  lemma InSixes(x: nat)
    requires x <= 0x10_FFFF
    ensures x / 4096 == 64 * (x / 0x4_0000) + x / 4096 % 64
    ensures x / 64 == 64 * (x / 4096) + x / 64 % 64
    ensures x == 64 * (x / 64) + x % 64
  {}

  lemma DecodesUtf8(x: nat)
    requires 0 < x <= 0x10_FFFF
    requires x / 4096 == 64 * (x / 0x4_0000) + x / 4096 % 64 && x / 64 == 64 * (x / 4096) + x / 64 % 64 && x == 64 * (x / 64) + x % 64
    ensures CodePoint(Unescape(x)) == x
  {
    var s := Unescape(x);
    if x > 0xFFFF {
      assert |s| == 4;
    } else if x > 0x7FF {
      assert |s| == 3;
    } else if x > 0x7F {
      assert |s| == 2;
    }
  }

  // ---------------------------------------------------------------- bare words

  /** The characters of a key without quotes, and of a number. */
  lemma KeyCharacters(c: char)
    ensures Alpha(c) <==> 65 <= c as int <= 90 || 97 <= c as int <= 122
    ensures Bare(c) <==> Alpha(c) || 48 <= c as int <= 57 || c in "_-"
    ensures Numeric(c) <==> 48 <= c as int <= 57 || c in ".eETZ_:-+"
  {}

  /** Of the words that may stand for a value, two do. */
  lemma WordsExactly(w: string, rest: string)
    requires w != "" && (forall i :: 0 <= i < |w| ==> Alpha(w[i])) && (rest == "" || !Alpha(rest[0]))
    ensures ParseValue(Next(w + rest, true)) ==
      if w == "true" then Ok(Bool(true), Next(rest, true)) else if w == "false" then Ok(Bool(false), Next(rest, true)) else Failed
  {
    hide NextToken;
    var s := w + rest;
    forall i | 0 <= i < |w| ensures Alpha(s[i]) { assert s[i] == w[i]; }
    if rest != "" { assert s[|w|] == rest[0]; }
    RunIs(Alpha, s, |w|);
    assert s[..|w|] == w && s[|w|..] == rest;
    ValueStarts(s);
  }

  lemma ValueStarts(s: string)
    requires s != "" && Alpha(s[0])
    ensures NextToken(s, true) == NextValue(s)
  {
    hide NextValue, NextDouble, NextSingle, NextKey;
  }

  /** Strings of every kind are values, and so are numbers. Inline tables, and numeric texts that are
      no integer, are where this model ends. */
  lemma ValuesExactly(p: State, s: string)
    ensures p.tok.StringTok? || p.tok.MultiTok? ==> ParseValue(p) == Ok(Str(p.tok.str), Next(p.rest, true))
    ensures p.tok.IntTok? ==> ParseValue(p) == Ok(Int(p.tok.n), Next(p.rest, true))
    ensures ParseValue(Next("{" + s, true)) == Outside
    ensures p.tok == OtherTok ==> ParseValue(p) == Outside
    ensures p.tok in {Eof, Eol, Equal, RBrace, RBracket, Comma, Dot, ErrorTok} ==> ParseValue(p) == Failed
  {
    hide ParseElements, Next;
    ReadsMark('{', s, true);
    assert ['{'] + s == "{" + s;
  }

  // ---------------------------------------------------------------- the layout of a document

  lemma SpacesAre(n: int)
    ensures |Spaces(n)| == (if n < 0 then 0 else n) && forall i :: 0 <= i < |Spaces(n)| ==> Spaces(n)[i] == ' '
  {}

  /** Strings are written character by character, and six characters behind a backslash. */
  lemma {:induction false} EscapesWritten(c: char, s: string, t: string)
    ensures EscapeString(s + t) == EscapeString(s) + EscapeString(t)
    ensures EscapeString([c]) ==
      if c == '\n' then "\\n" else if c == '\r' then "\\r" else if c == '\t' then "\\t"
      else if c == '"' || c == '\'' || c == '\\' then ['\\', c] else [c]
    decreases |s|
  {
    hide EscapeChar;
    OneEscape(c);
    if s == "" {
      assert s + t == t;
    } else {
      EscapesWritten(c, s[1..], t);
      assert (s + t)[1..] == s[1..] + t;
      Assoc(EscapeChar(s[0]), EscapeString(s[1..]), EscapeString(t));
    }
  }

  lemma OneEscape(c: char)
    ensures EscapeString([c]) ==
      if c == '\n' then "\\n" else if c == '\r' then "\\r" else if c == '\t' then "\\t"
      else if c == '"' || c == '\'' || c == '\\' then ['\\', c] else [c]
  {
    assert [c][1..] == "" && EscapeString("") == "";
  }

  /** A leaf is printed on a line of its own. */
  lemma LeafPrinted(key: string, v: Value, prefix: string, indent: int)
    requires !IsGroup(v)
    ensures Write(Tab([Entry(key, v)]), prefix, indent)
         == Spaces(indent) + EscapeKey(key) + " = " + Write(v, prefix, if indent < 0 then indent else indent + 1) + "\n"
  {
    hide EscapeKey, Spaces, IsGroup;
    var es := [Entry(key, v)];
    assert es[1..] == [] && WriteLeaves([], prefix, indent) == "" && WriteGroups([], prefix, indent) == "";
    var line := Spaces(indent) + EscapeKey(key) + " = " + Write(v, prefix, Deeper(indent)) + "\n";
    assert WriteLeaves(es, prefix, indent) == line + "" == line;
    assert WriteGroups(es, prefix, indent) == "" by { NoGroupLine(es[0], prefix, indent); }
  }

  /** A table is printed under its dotted key, one step further in when there is indentation. */
  lemma TablePrinted(key: string, es: seq<Entry>, prefix: string, indent: int)
    ensures var path := if prefix == "" then EscapeKey(key) else prefix + "." + EscapeKey(key);
      Write(Tab([Entry(key, Tab(es))]), prefix, indent)
        == "\n" + Spaces(indent) + "[" + path + "]\n" + Write(Tab(es), path, if indent < 0 then indent else indent + 1)
  {
    hide EscapeKey, Spaces, WriteLeaves;
    var all := [Entry(key, Tab(es))];
    var path := if prefix == "" then EscapeKey(key) else prefix + "." + EscapeKey(key);
    assert all[1..] == [] && WriteGroups([], prefix, indent) == "";
    assert WriteLeaves(all, prefix, indent) == "" by { NoLeafLine(all[0], prefix, indent); }
    assert Dotted(prefix, key) == path by { if prefix == "" { assert "" + EscapeKey(key) == EscapeKey(key); } }
    var t := Header(path, indent, false) + Write(Tab(es), path, Deeper(indent));
    assert WriteGroups(all, prefix, indent) == t + "" == t;
    assert "" + t == t;
  }

  lemma NoGroupLine(e: Entry, prefix: string, indent: int)
    requires !IsGroup(e.value)
    ensures WriteGroups([e], prefix, indent) == ""
  {
    assert [e][1..] == [];
  }

  lemma NoLeafLine(e: Entry, prefix: string, indent: int)
    requires IsGroup(e.value)
    ensures WriteLeaves([e], prefix, indent) == ""
  {
    assert [e][1..] == [];
  }

  /** Elements are printed in a row. */
  lemma ListPrinted(v: Value, w: Value, prefix: string, indent: int)
    ensures Write(Arr([v, w]), prefix, indent) == "[" + Write(v, prefix, -1) + ", " + Write(w, prefix, -1) + "]"
    ensures Write(Arr([]), prefix, indent) == "[]"
  {
    assert [v, w][1..] == [w];
    assert WriteElements([v, w], prefix) == Write(v, prefix, -1) + ", " + WriteElements([w], prefix);
    assert WriteElements([w], prefix) == Write(w, prefix, -1);
  }

  /** The tables of an array are printed one by one under the same dotted key. */
  lemma ArrayOfTablesPrinted(key: string, t: Value, u: Value, prefix: string, indent: int)
    requires t.Tab? && u.Tab?
    ensures var path, deeper := if prefix == "" then EscapeKey(key) else prefix + "." + EscapeKey(key), if indent < 0 then indent else indent + 1;
      Write(Tab([Entry(key, Arr([t, u]))]), prefix, indent)
        == "\n" + Spaces(indent) + "[[" + path + "]]\n" + Write(t, path, deeper)
         + "\n" + Spaces(indent) + "[[" + path + "]]\n" + Write(u, path, deeper)
  {
    hide EscapeKey, Spaces, WriteLeaves, Write, Header;
    var path := if prefix == "" then EscapeKey(key) else prefix + "." + EscapeKey(key);
    assert Dotted(prefix, key) == path by { if prefix == "" { assert "" + EscapeKey(key) == EscapeKey(key); } }
    TwoTables(t, u, path, indent);
    OneArray(key, [t, u], prefix, indent);
  }

  lemma OneArray(key: string, vs: seq<Value>, prefix: string, indent: int)
    requires vs != [] && vs[0].Tab?
    ensures Write(Tab([Entry(key, Arr(vs))]), prefix, indent) == WriteTables(vs, Dotted(prefix, key), indent)
  {
    hide EscapeKey, Spaces, WriteLeaves, WriteTables;
    var all := [Entry(key, Arr(vs))];
    assert all[1..] == [] && WriteGroups([], prefix, indent) == "";
    NoLeafLine(all[0], prefix, indent);
    var t := WriteTables(vs, Dotted(prefix, key), indent);
    assert WriteGroups(all, prefix, indent) == t + "" == t;
    assert "" + t == t;
  }

  lemma TwoTables(t: Value, u: Value, path: string, indent: int)
    ensures var deeper := if indent < 0 then indent else indent + 1;
      WriteTables([t, u], path, indent)
        == "\n" + Spaces(indent) + "[[" + path + "]]\n" + Write(t, path, deeper)
         + "\n" + Spaces(indent) + "[[" + path + "]]\n" + Write(u, path, deeper)
  {
    hide Write, Spaces;
    assert [t, u][1..] == [u] && [u][1..] == [] && WriteTables([], path, indent) == "";
    var second := Header(path, indent, true) + Write(u, path, Deeper(indent));
    assert WriteTables([u], path, indent) == second + "" == second;
    assert WriteTables([t, u], path, indent) == Header(path, indent, true) + Write(t, path, Deeper(indent)) + second;
  }

  // ---------------------------------------------------------------- numbers

  /** Groups of digits with an underscore between each two. */
  function Grouped(groups: seq<string>): string {
    if groups == [] then "" else if |groups| == 1 then groups[0] else groups[0] + "_" + Grouped(groups[1..])
  }

  function AllOf(groups: seq<string>): string { if groups == [] then "" else groups[0] + AllOf(groups[1..]) }

  predicate Groups(groups: seq<string>) {
    groups != [] && forall i :: 0 <= i < |groups| ==> groups[i] != "" && AllDigits(groups[i])
  }

  lemma {:induction false} GroupedReads(groups: seq<string>)
    requires Groups(groups)
    ensures IntBody(Grouped(groups)) && RemoveDelimiter(Grouped(groups)) == AllOf(groups) && AllDigits(AllOf(groups))
    ensures Grouped(groups) != "" && IsDigit(Grouped(groups)[0]) && AllOf(groups) != ""
    ensures forall i :: 0 <= i < |Grouped(groups)| ==> Numeric(Grouped(groups)[i])
    decreases |groups|
  {
    var d, more := groups[0], groups[1..];
    BodyOfDigits(d);
    if more == [] {
      assert d + "" == d;
    } else {
      assert Groups(more) by {
        forall i | 0 <= i < |more| ensures more[i] != "" && AllDigits(more[i]) { assert more[i] == groups[i + 1]; }
      }
      GroupedReads(more);
      Underscored(d, Grouped(more));
    }
  }

  /** Digits, an underscore and more of a number. */
  lemma {:induction false} Underscored(d: string, t: string)
    requires d != "" && AllDigits(d) && IntBody(t) && t != "" && IsDigit(t[0])
    ensures IntBody(d + "_" + t) && RemoveDelimiter(d + "_" + t) == d + RemoveDelimiter(t)
    decreases |d|
  {
    hide IntBody, RemoveDelimiter;
    assert IsDigit(d[0]);
    if |d| == 1 {
      assert d == [d[0]] && d + "_" + t == [d[0]] + ("_" + t);
      UnderscoreRead(d[0], t);
    } else {
      var more := d[1..] + "_" + t;
      assert IsDigit(d[1]) && more[0] == d[1] && d + "_" + t == [d[0]] + more;
      Underscored(d[1..], t);
      DigitRead(d[0], more);
      Assoc([d[0]], d[1..], RemoveDelimiter(t));
      assert [d[0]] + d[1..] == d;
    }
  }

  lemma DigitRead(c: char, s: string)
    requires IsDigit(c) && s != "" && s[0] != '_'
    ensures IntBody([c] + s) == IntBody(s) && RemoveDelimiter([c] + s) == [c] + RemoveDelimiter(s)
  {
    assert ([c] + s)[1..] == s;
  }

  lemma UnderscoreRead(c: char, t: string)
    requires IsDigit(c) && IntBody(t) && t != "" && IsDigit(t[0])
    ensures IntBody([c] + ("_" + t)) && RemoveDelimiter([c] + ("_" + t)) == [c] + RemoveDelimiter(t)
  {
    hide RemoveDelimiter;
    var s := [c, '_'] + t;
    assert [c] + ("_" + t) == s;
    UnderscoreBody(c, t);
    UnderscoreDropped(t);
    assert RemoveDelimiter([c] + ("_" + t)) == [c] + RemoveDelimiter("_" + t) by { FirstKept(c, "_" + t); }
  }

  lemma UnderscoreBody(c: char, t: string)
    requires IsDigit(c) && IntBody(t) && t != "" && IsDigit(t[0])
    ensures IntBody([c, '_'] + t)
  {
    var s := [c, '_'] + t;
    assert s[0] == c && s[1] == '_' && s[2] == t[0] && s[2..] == t;
  }

  lemma UnderscoreDropped(t: string)
    ensures RemoveDelimiter("_" + t) == RemoveDelimiter(t)
  {
    assert ("_" + t)[1..] == t && "" + RemoveDelimiter(t) == RemoveDelimiter(t);
  }

  lemma FirstKept(c: char, s: string)
    requires c != '_'
    ensures RemoveDelimiter([c] + s) == [c] + RemoveDelimiter(s)
  {
    assert ([c] + s)[1..] == s;
  }

  /** An integer may have a sign, a plus included, and single underscores between its digits; one
      that 64 bits cannot hold becomes the nearest that they can. */
  lemma NumberRead(sign: string, groups: seq<string>, rest: string)
    requires (sign == "" || sign == "+" || sign == "-") && Groups(groups) && Stop(rest)
    ensures AllDigits(AllOf(groups))
    ensures var n := if sign == "-" then -(Decimal.Value(AllOf(groups)) as int) else Decimal.Value(AllOf(groups));
      Next(sign + Grouped(groups) + rest, true) == State(IntTok(
        if n > INT64_MAX then INT64_MAX else if n < -INT64_MAX - 1 then -INT64_MAX - 1 else n), rest)
  {
    hide IntBody, Decimal.Value, Grouped, AllOf;
    var t := sign + Grouped(groups);
    GroupedReads(groups);
    DigitsOnly(AllOf(groups));
    SignedReads(sign, Grouped(groups), AllOf(groups));
    SignedLooks(sign, Grouped(groups));
    NumericRead(t, rest);
  }

  lemma SignedLooks(sign: string, t: string)
    requires (sign == "" || sign == "+" || sign == "-") && t != "" && IsDigit(t[0])
    requires forall i :: 0 <= i < |t| ==> Numeric(t[i])
    ensures (forall i :: 0 <= i < |sign + t| ==> Numeric((sign + t)[i])) && Plain((sign + t)[0])
  {
    if sign == "" { assert sign + t == t; }
  }

  lemma SignedReads(sign: string, t: string, d: string)
    requires (sign == "" || sign == "+" || sign == "-") && IntBody(t) && t != "" && IsDigit(t[0]) && AllDigits(d)
    requires RemoveDelimiter(t) == d && DigitRun(d) == |d| && d[..|d|] == d && d != ""
    ensures IsInteger(sign + t)
    ensures var n := if sign == "-" then -(Decimal.Value(d) as int) else Decimal.Value(d);
      ReadInt(RemoveDelimiter(sign + t)) == if n > INT64_MAX then INT64_MAX else if n < -INT64_MAX - 1 then -INT64_MAX - 1 else n
  {
    hide IntBody, Decimal.Value;
    if sign == "" {
      assert sign + t == t && IsDigit(d[0]);
    } else {
      assert (sign + t)[1..] == t && RemoveDelimiter(sign + t) == sign + d && (sign + d)[1..] == d;
    }
  }

  /** A numeric text up to a stop is one token. */
  lemma NumericRead(t: string, rest: string)
    requires t != "" && (forall i :: 0 <= i < |t| ==> Numeric(t[i])) && Plain(t[0]) && Stop(rest)
    ensures Next(t + rest, true) == State(if IsInteger(t) then IntTok(ReadInt(RemoveDelimiter(t))) else OtherTok, rest)
  {
    hide IsInteger, ReadInt, RemoveDelimiter, NextToken, Numeric;
    var s := t + rest;
    assert s[0] == t[0];
    PlainStarts(s);
    StopsNumber(rest);
    RunIs(Alpha, s, 0);
    forall i | 0 <= i < |t| ensures Numeric(s[i]) { assert s[i] == t[i]; }
    assert rest != "" ==> s[|t|] == rest[0];
    RunIs(Numeric, s, |t|);
    assert s[..|t|] == t && s[|t|..] == rest;
  }

  lemma PlainStarts(s: string)
    requires s != "" && Plain(s[0])
    ensures NextToken(s, true) == NextValue(s) && !Alpha(s[0])
  {
    hide NextValue, NextDouble, NextSingle, NextKey;
  }

  lemma StopsNumber(rest: string)
    requires Stop(rest)
    ensures rest != "" ==> !Numeric(rest[0])
  {}

  /** An underscore without a digit on both sides is no integer. */
  lemma StrayUnderscore(d: string, t: string)
    requires AllDigits(d) && (t == "" || !IsDigit(t[0]))
    ensures !IsInteger(d + "_" + t)
  {
    NoBody(d, t);
    if d == "" { assert ("_" + t)[0] == '_' && d + "_" + t == "_" + t; }
    assert (d + "_" + t)[0] == if d == "" then '_' else d[0];
    assert d != "" ==> IsDigit(d[0]);
  }

  lemma {:induction false} NoBody(d: string, t: string)
    requires AllDigits(d) && (t == "" || !IsDigit(t[0]))
    ensures !IntBody(d + "_" + t)
    decreases |d|
  {
    var s := d + "_" + t;
    if d == "" {
      assert s[0] == '_';
    } else if |d| == 1 {
      assert s[1] == '_' && (t != "" ==> s[2] == t[0]);
    } else {
      assert IsDigit(d[1]) && s[1] == d[1] && s[1..] == d[1..] + "_" + t;
      NoBody(d[1..], t);
    }
  }

  // ---------------------------------------------------------------- arrays

  /** What may stand between two elements: blanks and line ends around at most one comma. */
  datatype Gap = Gap(front: string, comma: bool, back: string)

  predicate White(w: string) { forall i :: 0 <= i < |w| ==> IsBlank(w[i]) || w[i] == '\n' }

  function GapText(g: Gap): string { g.front + (if g.comma then "," else "") + g.back }

  predicate GapOk(g: Gap) { White(g.front) && White(g.back) && (g.front != "" || g.comma) }

  /** Line ends inside an array do not matter. */
  lemma {:induction false} WhiteSkipped(w: string, rest: string)
    requires White(w)
    ensures SkipEols(Next(w + rest, true), true) == SkipEols(Next(rest, true), true)
    decreases |w|
  {
    hide NextToken;
    if w == "" {
      assert w + rest == rest;
    } else {
      var more := w[1..] + rest;
      forall i | 0 <= i < |w[1..]| ensures IsBlank(w[1..][i]) || w[1..][i] == '\n' { assert w[1..][i] == w[i + 1]; }
      WhiteSkipped(w[1..], rest);
      assert w + rest == [w[0]] + more;
      if w[0] == '\n' {
        ReadsMark('\n', more, true);
      } else {
        assert IsBlank(w[0]);
        BlanksSkipped([w[0]], more, true);
      }
    }
  }

  /** The elements as they stand in the text, each with the gap behind it. */
  function LooseText(vs: seq<Value>, gaps: seq<Gap>): string
    requires |vs| == |gaps|
  {
    if vs == [] then "" else Write(vs[0], "", -1) + (GapText(gaps[0]) + LooseText(vs[1..], gaps[1..]))
  }

  /** An array may be laid out over lines, with or without commas between its elements and behind
      the last. */
  lemma {:induction false} LooseArrayRead(vs: seq<Value>, gaps: seq<Gap>, a: seq<Value>, rest: string)
    requires |vs| == |gaps| && forall i :: 0 <= i < |vs| ==> LeafOk(vs[i]) && GapOk(gaps[i]) && SameType((a + vs)[0], vs[i])
    ensures ParseElements(Next(LooseText(vs, gaps) + ("]" + rest), true), a) == Ok(a + vs, Next(rest, true))
    decreases |vs|
  {
    hide Next, ParseValue, ParseElements, Write, SameType, LooseText, GapText, LeafOk, GapOk;
    var end := "]" + rest;
    if vs == [] {
      EmptyLoose(gaps, end);
      assert a + vs == a;
      ArrayEnds(a, rest);
    } else {
      var more := LooseText(vs[1..], gaps[1..]) + end;
      LooseSplit(vs, gaps, end);
      assert SameType((a + vs)[0], vs[0]) && LeafOk(vs[0]) && GapOk(gaps[0]);
      forall i | 0 <= i < |vs[1..]|
        ensures LeafOk(vs[1..][i]) && GapOk(gaps[1..][i]) && SameType((a + [vs[0]] + vs[1..])[0], vs[1..][i])
      {
        assert vs[1..][i] == vs[i + 1] && gaps[1..][i] == gaps[i + 1] && a + [vs[0]] + vs[1..] == a + vs;
      }
      LooseArrayRead(vs[1..], gaps[1..], a + [vs[0]], rest);
      assert a + [vs[0]] + vs[1..] == a + vs;
      assert a != [] ==> (a + vs)[0] == a[0];
      OneLoose(vs[0], gaps[0], a, more);
    }
  }

  lemma EmptyLoose(gaps: seq<Gap>, end: string)
    requires gaps == []
    ensures LooseText([], gaps) + end == end
  {}

  lemma LooseSplit(vs: seq<Value>, gaps: seq<Gap>, end: string)
    requires |vs| == |gaps| && vs != []
    ensures LooseText(vs, gaps) + end == Write(vs[0], "", -1) + (GapText(gaps[0]) + (LooseText(vs[1..], gaps[1..]) + end))
  {
    hide Write, GapText;
  }

  lemma ArrayEnds(a: seq<Value>, rest: string)
    ensures ParseElements(Next("]" + rest, true), a) == Ok(a, Next(rest, true))
  {
    hide Next, ParseValue;
    ReadsMark(']', rest, true);
    assert [']'] + rest == "]" + rest;
  }

  /** The round of the loop for one element and its gap. */
  lemma {:induction false} OneLoose(v: Value, g: Gap, a: seq<Value>, more: string)
    requires LeafOk(v) && GapOk(g) && (a == [] || SameType(a[0], v)) && ParseElements(Next(more, true), a + [v]).Ok?
    ensures ParseElements(Next(Write(v, "", -1) + (GapText(g) + more), true), a)
         == ParseElements(Next(more, true), a + [v])
  {
    hide Next, ParseValue, ParseElements, Write, SameType, LeafOk, GapText, GapOk;
    var gap := GapText(g) + more;
    GapStops(g, more);
    ReadsValue(v, "", -1, gap);
    GapSkipped(g, more);
    NoCommaFirst(Next(more, true), a + [v]);
    if g.comma {
      WhiteSkipped(g.back, more);
      SameStart(Next(g.back + more, true), Next(more, true), a + [v]);
    }
    ElementRead(Next(Write(v, "", -1) + gap, true), v, a, Next(gap, true));
    SameStart(SkipEols(Next(more, true), true), Next(more, true), a + [v]);
    if !g.comma { EndsOrGoesOn(SkipEols(Next(more, true), true), a + [v]); }
  }

  lemma GapStops(g: Gap, more: string)
    requires GapOk(g)
    ensures Stop(GapText(g) + more) && White(g.back)
  {
    if g.front != "" { assert IsBlank(g.front[0]) || g.front[0] == '\n'; }
    assert (GapText(g) + more)[0] == if g.front != "" then g.front[0] else ',';
  }

  lemma GapSkipped(g: Gap, more: string)
    requires GapOk(g)
    ensures SkipEols(Next(GapText(g) + more, true), true)
         == if g.comma then State(Comma, g.back + more) else SkipEols(Next(more, true), true)
  {
    hide Next, White, Stop, SkipEols;
    if g.comma {
      assert GapText(g) + more == g.front + ([','] + (g.back + more));
      WhiteSkipped(g.front, [','] + (g.back + more));
      ReadsMark(',', g.back + more, true);
      NoEol(State(Comma, g.back + more));
    } else {
      assert GapText(g) + more == g.front + (g.back + more);
      WhiteSkipped(g.front, g.back + more);
      WhiteSkipped(g.back, more);
    }
  }

  lemma NoEol(p: State)
    requires p.tok != Eol
    ensures SkipEols(p, true) == p
  {}

  lemma SameStart(p: State, q: State, a: seq<Value>)
    requires SkipEols(p, true) == SkipEols(q, true)
    ensures ParseElements(p, a) == ParseElements(q, a)
  {
    hide Next, ParseValue, SameType;
  }

  lemma NoCommaFirst(p: State, a: seq<Value>)
    requires ParseElements(p, a).Ok?
    ensures var q := SkipEols(p, true); q.tok != Comma && q.tok != Eol && SkipEols(q, true) == q
  {
    hide Next, SameType;
  }

  /** An element, and what the loop does with the token behind it. */
  lemma ElementRead(p: State, v: Value, a: seq<Value>, t: State)
    requires ParseValue(p) == Ok(v, t) && (a == [] || SameType(a[0], v))
    ensures var u := SkipEols(t, true);
      ParseElements(p, a) ==
        if u.tok == RBracket then Ok(a + [v], Next(u.rest, true))
        else ParseElements(if u.tok == Comma then Next(u.rest, true) else u, a + [v])
  {
    hide Next, SameType;
    assert p.tok != Eol && p.tok != RBracket;
  }

  lemma EndsOrGoesOn(u: State, a: seq<Value>)
    requires SkipEols(u, true) == u
    ensures u.tok == RBracket ==> ParseElements(u, a) == Ok(a, Next(u.rest, true))
  {
    hide Next, ParseValue;
  }

  /** A whole array, laid out in this way. */
  lemma ArrayRead(vs: seq<Value>, gaps: seq<Gap>, w: string, rest: string)
    requires |vs| == |gaps| && White(w)
    requires forall i :: 0 <= i < |vs| ==> LeafOk(vs[i]) && GapOk(gaps[i]) && SameType(vs[0], vs[i])
    ensures ParseValue(Next("[" + (w + (LooseText(vs, gaps) + ("]" + rest))), true)) == Ok(Arr(vs), Next(rest, true))
  {
    hide Next, ParseElements, LooseText, LeafOk, GapOk, SameType, White;
    var text := LooseText(vs, gaps) + ("]" + rest);
    forall i | 0 <= i < |vs| ensures LeafOk(vs[i]) && GapOk(gaps[i]) && SameType(([] + vs)[0], vs[i]) { assert [] + vs == vs; }
    LooseArrayRead(vs, gaps, [], rest);
    assert [] + vs == vs;
    WhiteSkipped(w, text);
    SameStart(Next(w + text, true), Next(text, true), []);
    ReadsMark('[', w + text, true);
    assert ['['] + (w + text) == "[" + (w + text);
  }

  /** Elements of two types are rejected. */
  lemma MixedArrayRejected(n: int, t: string, rest: string)
    requires Int64(n)
    ensures ParseValue(Next("[" + Write(Int(n), "", -1) + ", " + Write(Str(t), "", -1) + "]" + rest, true)) == Failed
    ensures ParseValue(Next("[" + Write(Str(t), "", -1) + ", " + Write(Int(n), "", -1) + "]" + rest, true)) == Failed
  {
    TwoTypes(Int(n), Str(t), rest);
    TwoTypes(Str(t), Int(n), rest);
  }

  lemma TwoTypes(v: Value, w: Value, rest: string)
    requires LeafOk(v) && LeafOk(w) && !SameType(v, w)
    ensures ParseValue(Next("[" + Write(v, "", -1) + ", " + Write(w, "", -1) + "]" + rest, true)) == Failed
  {
    hide Next, Write, SameType, ParseElements, LeafOk, SkipEols;
    var last := Write(w, "", -1) + ("]" + rest);
    var more := ", " + last;
    var text := Write(v, "", -1) + more;
    ListOfTwo(Write(v, "", -1), Write(w, "", -1), rest);
    ReadsMark('[', text, true);
    ReadsValue(v, "", -1, more);
    ReadsValue(w, "", -1, "]" + rest);
    ReadsMark(',', " " + last, true);
    BlanksSkipped(" ", last, true);
    NoEol(Next(more, true));
    ElementRead(Next(text, true), v, [], Next(more, true));
    assert [] + [v] == [v];
    WrongType(Next(last, true), w, [v]);
  }

  lemma ListOfTwo(a: string, b: string, rest: string)
    ensures "[" + a + ", " + b + "]" + rest == ['['] + (a + ([','] + (" " + (b + ("]" + rest)))))
    ensures ", " + (b + ("]" + rest)) == [','] + (" " + (b + ("]" + rest)))
  {}

  lemma WrongType(p: State, w: Value, a: seq<Value>)
    requires ParseValue(p).Ok? && ParseValue(p).value == w && a != [] && !SameType(a[0], w)
    ensures ParseElements(p, a) == Failed
  {
    hide Next, SameType;
    assert p.tok != Eol && p.tok != RBracket;
  }

  // ---------------------------------------------------------------- duplicate keys

  /** The duplicate test lexes a key again. An escaped key finds its own entry, and one with a dot
      behind it goes on in that entry when it is a table. */
  lemma FindsByPath(es: seq<Entry>, key: string, s: string)
    requires key != ""
    ensures Find(es, EscapeKey(key)) == FindChild(es, key)
    ensures var w := FindChild(es, key);
      Find(es, EscapeKey(key) + "." + s) == if w.Some? && w.value.Tab? then Find(w.value.es, s) else None
  {
    hide Next, FindChild, EscapeKey;
    EscapedRead(key);
    EofRead();
    ReadsKey(key, "." + s);
    assert EscapeKey(key) + "." + s == EscapeKey(key) + ("." + s);
    ReadsMark('.', s, false);
    assert ['.'] + s == "." + s;
  }

  /** It finds nothing when anything else is behind a key, or no key is in front. */
  lemma FindsNothing(es: seq<Entry>, key: string, t: string, s: string)
    requires key != "" && t != "" && !Bare(t[0]) && t[0] != '"' && Next(t, false).tok != Eof && Next(t, false).tok != Dot
    requires !Next(s, false).tok.Ident? && !Next(s, false).tok.StringTok?
    ensures Find(es, EscapeKey(key) + t) == None && Find(es, s) == None
  {
    hide Next, FindChild, EscapeKey, Bare;
    ReadsKey(key, t);
  }

  lemma EscapedRead(key: string)
    requires key != ""
    ensures Next(EscapeKey(key), false) == State(KeyToken(key), "")
  {
    hide Next, Bare;
    if AllBare(key) {
      ReadsBare(key, |key|);
      assert key[..|key|] == key && key[|key|..] == "";
    } else {
      ReadsQuotedKey(key, "");
      assert "\"" + KeyChars(key) + "\"" + "" == "\"" + KeyChars(key) + "\"";
    }
  }
}
