/**
 The lexer, parser and printer of network/toml.h as they run: a stream consumed in place, a token
 in hand, and text appended to an output. Each method is proved against its function.
 */
module TomlObjects {
  import opened Common
  import opened Decimal
  import L = TomlLexer
  import P = TomlParser
  import W = TomlWriter

  /** escapeString, into a string stream. */
  method EscapeString(s: string) returns (ss: string)
    ensures ss == L.EscapeString(s)
  {
    ss := "";
    var i := 0;
    while i < |s|
      invariant 0 <= i <= |s| && ss + L.EscapeString(s[i..]) == L.EscapeString(s)
    {
      assert s[i..][1..] == s[i + 1..];
      ghost var before, rest := ss, L.EscapeString(s[i + 1..]);
      ss := ss + L.EscapeChar(s[i]);
      assert before + (L.EscapeChar(s[i]) + rest) == ss + rest;
      i := i + 1;
    }
  }

  class Lexer {
    var rest: string

    constructor (stream: string)
      ensures rest == stream
    {
      rest := stream;
    }

    /** `next`. */
    method Advance()
      requires rest != ""
      modifies this
      ensures rest == old(rest)[1..]
    {
      rest := rest[1..];
    }

    method SkipUTF8BOM() returns (ok: bool)
      modifies this
      ensures ok == P.SkipBOM(old(rest)).Some?
      ensures ok ==> rest == P.SkipBOM(old(rest)).value
    {
      if rest == "" || rest[0] as int != 0xEF { return true; }
      Advance();
      if rest == "" || rest[0] as int != 0xBB { return false; }
      Advance();
      if rest == "" || rest[0] as int != 0xBF { return false; }
      Advance();
      ok := true;
    }

    method SkipUntilNewLine()
      modifies this
      ensures rest == L.SkipLine(old(rest))
    {
      while rest != "" && rest[0] != '\n'
        invariant L.SkipLine(rest) == L.SkipLine(old(rest))
        decreases |rest|
      {
        Advance();
      }
    }

    /** The longest run of characters that satisfy `f`. */
    method Take(f: char -> bool) returns (s: string)
      modifies this
      ensures var n := L.Run(f, old(rest)); s == old(rest)[..n] && rest == old(rest)[n..]
    {
      s := "";
      ghost var start, i := rest, 0;
      while rest != "" && f(rest[0])
        invariant 0 <= i <= |start| && s == start[..i] && rest == start[i..]
        invariant i + L.Run(f, rest) == L.Run(f, start)
        decreases |rest|
      {
        s := s + [rest[0]];
        Advance();
        i := i + 1;
      }
    }

    /** The blanks of a line, or of several. */
    method SkipBlanks(eol: bool)
      modifies this
      ensures rest == L.SkipBlanks(old(rest), eol)
    {
      while rest != "" && (rest[0] == ' ' || rest[0] == '\t' || (eol && (rest[0] == '\r' || rest[0] == '\n')))
        invariant L.SkipBlanks(rest, eol) == L.SkipBlanks(old(rest), eol)
        decreases |rest|
      {
        Advance();
      }
    }

    /** nextStringDoubleQuote, at a double quote. */
    method NextStringDoubleQuote() returns (t: L.Token)
      requires rest != "" && rest[0] == '"'
      modifies this
      ensures (t, rest) == L.NextDouble(old(rest))
    {
      hide L.StringBody;
      ghost var start := rest;
      Advance();
      if rest != "" && rest[0] == '"' {
        Advance();
        assert rest == start[2..];
        if rest == "" || rest[0] != '"' { return L.StringTok(""); }
        Advance();
        assert rest == start[3..];
        SkipBlanks(false);
        if rest != "" && rest[0] == '\n' { Advance(); }
        t := ReadBody(true);
      } else {
        t := ReadBody(false);
      }
    }

    /** The loop up to the closing quote. */
    method ReadBody(multiline: bool) returns (t: L.Token)
      modifies this
      ensures (t, rest) == L.StringBody(old(rest), multiline, "")
    {
      var s := "";
      while rest != ""
        invariant L.StringBody(rest, multiline, s) == L.StringBody(old(rest), multiline, "")
        decreases |rest|
      {
        var c := rest[0];
        if c == '\\' {
          ghost var before := rest;
          Advance();
          if rest == "" { return L.ErrorTok; }
          assert ['\\'] + rest == before;
          var more: bool;
          more, s := ReadEscape(multiline, s);
          if !more { return L.ErrorTok; }
        } else if c == '"' {
          if !multiline { Advance(); return L.StringTok(s); }
          var closed;
          closed, s := ReadQuote(s);
          if closed { return L.MultiTok(s); }
        } else {
          Advance();
          s := s + [c];
        }
      }
      t := L.ErrorTok;
    }

    /** Behind a backslash: false is an unknown escape. */
    method ReadEscape(ghost multiline: bool, s: string) returns (more: bool, s': string)
      requires rest != ""
      modifies this
      ensures |rest| < |old(rest)|
      ensures if more then L.StringBody(['\\'] + old(rest), multiline, s) == L.StringBody(rest, multiline, s')
              else L.StringBody(['\\'] + old(rest), multiline, s) == (L.ErrorTok, rest)
    {
      ghost var text := ['\\'] + rest;
      var c := rest[0];
      assert text[1] == c && text[2..] == rest[1..];
      Advance();
      more, s' := true, s;
      if L.Simple(c) {
        s' := s + [L.Escaped(c)];
      } else if c == 'u' || c == 'U' {
        more, s' := ReadCodepoint(if c == 'u' then 4 else 8, s);
      } else if c == '\n' {
        SkipBlanks(true);
      } else {
        more := false;
      }
    }

    /** The hexadecimal digits of an escape. */
    method ReadCodepoint(size: nat, s: string) returns (more: bool, s': string)
      modifies this
      ensures var hex := L.Run(L.Hex, old(rest));
        (more <==> hex >= size) && (!more ==> rest == old(rest)[hex..]) && |rest| <= |old(rest)|
      ensures (forall i :: 0 <= i < |old(rest)[..L.Run(L.Hex, old(rest))]| ==> L.Hex(old(rest)[i]))
      ensures more ==>
        && (forall i :: 0 <= i < |old(rest)[..size]| ==> L.Hex(old(rest)[..size][i]))
        && rest == old(rest)[size..] && s' == s + L.Unescape(L.HexValue(old(rest)[..size]))
    {
      L.HexRun(rest);
      var codepoint, i := "", 0;
      ghost var start := rest;
      while i < size
        invariant 0 <= i <= size && i <= L.Run(L.Hex, start)
        invariant codepoint == start[..i] && rest == start[i..] && i + L.Run(L.Hex, rest) == L.Run(L.Hex, start)
      {
        if rest != "" && L.Hex(rest[0]) {
          codepoint := codepoint + [rest[0]];
          Advance();
          i := i + 1;
        } else {
          return false, s;
        }
      }
      more, s' := true, s + L.Unescape(L.HexValue(codepoint));
    }

    /** At a quote inside a multi-line string: three close it, fewer are text. */
    method ReadQuote(s: string) returns (closed: bool, s': string)
      requires rest != "" && rest[0] == '"'
      modifies this
      ensures |rest| < |old(rest)|
      ensures if closed then s' == s && L.StringBody(old(rest), true, s) == (L.MultiTok(s), rest)
              else L.StringBody(old(rest), true, s) == L.StringBody(rest, true, s')
    {
      ghost var start := rest;
      Advance();
      if rest != "" && rest[0] == '"' {
        Advance();
        assert rest == start[2..];
        if rest != "" && rest[0] == '"' {
          Advance();
          assert rest == start[3..];
          return true, s;
        }
        return false, s + "\"\"";
      }
      closed, s' := false, s + "\"";
    }

    /** nextStringSingleQuote, at a single quote. */
    method NextStringSingleQuote() returns (t: L.Token)
      requires rest != "" && rest[0] == '\''
      modifies this
      ensures (t, rest) == L.NextSingle(old(rest))
    {
      hide L.SingleBody;
      ghost var start := rest;
      Advance();
      if rest != "" && rest[0] == '\'' {
        Advance();
        assert rest == start[2..];
        if rest == "" || rest[0] != '\'' { return L.StringTok(""); }
        Advance();
        assert rest == start[3..];
        if rest != "" && rest[0] == '\n' { Advance(); assert rest == start[4..]; }
        t := ReadSingle(true);
      } else {
        t := ReadSingle(false);
      }
    }

    method ReadSingle(multiline: bool) returns (t: L.Token)
      modifies this
      ensures (t, rest) == L.SingleBody(old(rest), multiline, "")
    {
      var s := "";
      while rest != ""
        invariant L.SingleBody(rest, multiline, s) == L.SingleBody(old(rest), multiline, "")
        decreases |rest|
      {
        ghost var start := rest;
        var c := rest[0];
        Advance();
        if c != '\'' {
          s := s + [c];
        } else if !multiline {
          return L.StringTok(s);
        } else if rest != "" && rest[0] == '\'' {
          Advance();
          assert rest == start[2..];
          if rest != "" && rest[0] == '\'' {
            Advance();
            assert rest == start[3..];
            return L.MultiTok(s);
          }
          s := s + "''";
        } else {
          s := s + "'";
        }
      }
      t := L.ErrorTok;
    }

    method NextKey() returns (t: L.Token)
      modifies this
      ensures (t, rest) == L.NextKey(old(rest))
    {
      var s := Take(L.Bare);
      t := if s == "" then L.ErrorTok else L.Ident(s);
    }

    method NextValue() returns (t: L.Token)
      modifies this
      ensures (t, rest) == L.NextValue(old(rest))
    {
      hide L.IsInteger, L.ReadInt, L.RemoveDelimiter;
      if rest != "" && L.Alpha(rest[0]) {
        var s := Take(L.Alpha);
        if s == "true" { return L.BoolTok(true); }
        if s == "false" { return L.BoolTok(false); }
        return L.ErrorTok;
      }
      var s := Take(L.Numeric);
      t := if L.IsInteger(s) then L.IntTok(L.ReadInt(L.RemoveDelimiter(s))) else L.OtherTok;
    }

    method NextToken(isValue: bool) returns (t: L.Token)
      modifies this
      ensures (t, rest) == L.NextToken(old(rest), isValue)
      ensures |rest| <= |old(rest)|
    {
      hide L.NextDouble, L.NextSingle, L.NextValue, L.NextKey;
      while rest != ""
        invariant L.NextToken(rest, isValue) == L.NextToken(old(rest), isValue) && |rest| <= |old(rest)|
        decreases |rest|
      {
        var c := rest[0];
        if c == ' ' || c == '\t' || c == '\r' {
          Advance();
        } else if c == '#' {
          Advance();
          SkipUntilNewLine();
        } else if L.Mark(c) != L.Eof {
          Advance();
          return L.Mark(c);
        } else if c == '"' {
          t := NextStringDoubleQuote();
          return;
        } else if c == '\'' {
          t := NextStringSingleQuote();
          return;
        } else if isValue {
          t := NextValue();
          return;
        } else {
          t := NextKey();
          return;
        }
      }
      t := L.Eof;
    }
  }

  datatype Outcome = Fine | Failed | Outside

  class Parser {
    const lexer: Lexer
    var token: L.Token

    ghost function State(): P.State
      reads this, lexer
    {
      P.State(token, lexer.rest)
    }

    constructor (lexer: Lexer)
      ensures this.lexer == lexer && token == L.ErrorTok
    {
      this.lexer := lexer;
      token := L.ErrorTok;
    }

    method Next(isValue: bool)
      modifies this, lexer
      ensures State() == P.Next(old(lexer.rest), isValue)
    {
      token := lexer.NextToken(isValue);
    }

    method SkipEols(isValue: bool)
      modifies this, lexer
      ensures State() == P.SkipEols(old(State()), isValue)
    {
      hide P.Next;
      while token == L.Eol
        invariant P.SkipEols(State(), isValue) == P.SkipEols(old(State()), isValue)
        decreases P.Weight(State())
      {
        Next(isValue);
      }
    }

    method ParseValue() returns (r: Outcome, v: P.Value)
      modifies this, lexer
      ensures match P.ParseValue(old(State()))
              case Ok(w, p) => r == Fine && v == w && State() == p
              case Failed => r == Failed
              case Outside => r == Outside
      decreases P.Weight(State()), 1
    {
      hide P.Next;
      r, v := Fine, P.Bool(false);
      match token {
        case StringTok(s) => v := P.Str(s); Next(true);
        case MultiTok(s) => v := P.Str(s); Next(true);
        case LBracket =>
          var a;
          r, a := ParseArray();
          v := P.Arr(a);
        case LBrace => r := Outside;
        case BoolTok(b) => v := P.Bool(b); Next(true);
        case IntTok(n) => v := P.Int(n); Next(true);
        case OtherTok => r := Outside;
        case _ => r := Failed;
      }
    }

    method ParseArray() returns (r: Outcome, a: seq<P.Value>)
      requires token == L.LBracket
      modifies this, lexer
      ensures match P.ParseElements(P.Next(old(State()).rest, true), [])
              case Ok(w, p) => r == Fine && a == w && State() == p
              case Failed => r == Failed
              case Outside => r == Outside
      decreases P.Weight(State()), 0
    {
      hide P.Next, P.SkipEols, P.ParseValue, P.SameType;
      ghost var w0 := P.Weight(State());
      a := [];
      Next(true);
      ghost var all := P.ParseElements(State(), []);
      while true
        invariant P.ParseElements(State(), a) == all && P.Weight(State()) < w0
        decreases P.Weight(State())
      {
        SkipEols(true);
        if token == L.RBracket { break; }
        var x;
        r, x := ParseValue();
        if r != Fine { return; }
        if a != [] && !P.SameType(a[0], x) { r := Failed; return; }
        a := a + [x];
        SkipEols(true);
        if token == L.RBracket { break; }
        if token == L.Comma { Next(true); }
      }
      Next(true);
      r := Fine;
    }

    /** parseGroupKey behind its brackets: the tree and the new current path. */
    method ParseGroup(root: P.Value, isArray: bool) returns (r: Outcome, root': P.Value, cur: P.Path)
      modifies this, lexer
      ensures match P.ParseGroup(root, [], old(State()), isArray)
              case Ok(g, p) => r == Fine && root' == g.root && cur == g.cur && State() == p
              case Failed => r == Failed
              case Outside => r == Outside
    {
      hide P.Next, P.Enter, P.Push;
      root', cur := root, [];
      var key;
      while true
        invariant P.ParseGroup(root', cur, State(), isArray) == P.ParseGroup(root, [], old(State()), isArray)
        decreases P.Weight(State())
      {
        if !token.Ident? && !token.StringTok? { r := Failed; return; }
        key := token.str;
        Next(false);
        if token != L.Dot && token != L.RBracket { r := Failed; return; }
        var last := token == L.RBracket;
        var tree := if last && isArray then P.Push(root', cur, key) else P.Enter(root', cur, key);
        if tree == None { r := Failed; return; }
        root', cur := tree.value, cur + [key];
        Next(false);
        if last {
          r := CloseGroup(isArray);
          return;
        }
      }
    }

    /** The second bracket of an array header, and the end of the line. */
    method CloseGroup(isArray: bool) returns (r: Outcome)
      modifies this, lexer
      ensures var t := old(State());
        var u := if isArray then P.Next(t.rest, false) else t;
        if (isArray && t.tok != L.RBracket) || (u.tok != L.Eol && u.tok != L.Eof) then r == Failed
        else r == Fine && State() == P.Next(u.rest, false)
    {
      hide P.Next;
      if isArray {
        if token != L.RBracket { return Failed; }
        Next(false);
      }
      if token != L.Eol && token != L.Eof { return Failed; }
      Next(false);
      r := Fine;
    }

    method ParseKeyValue(root: P.Value, cur: P.Path) returns (r: Outcome, root': P.Value)
      modifies this, lexer
      ensures match P.ParseKeyValue(root, cur, old(State()))
              case Ok(tree, p) => r == Fine && root' == tree && State() == p
              case Failed => r == Failed
              case Outside => r == Outside
    {
      hide P.Next, P.ParseValue, P.Find, P.At, P.Put, P.SetChild;
      root' := root;
      if !token.Ident? && !token.StringTok? { r := Failed; return; }
      var key := token.str;
      Next(true);
      if token != L.Equal { r := Failed; return; }
      Next(true);
      var v;
      r, v := ParseValue();
      if r != Fine { return; }
      if token != L.Eol && token != L.Eof { r := Failed; return; }
      Next(false);
      if P.Find(P.At(root, cur), key).Some? { r := Failed; return; }
      root' := P.Put(root, cur, P.SetChild(P.At(root, cur), key, v));
    }

    /** parse. */
    method Parse() returns (r: P.Result)
      modifies this, lexer
      ensures r == P.ParseLoop(P.Tab([]), [], old(State()))
    {
      hide P.Next, P.ParseGroup, P.ParseKeyValue;
      var root, cur: P.Path := P.Tab([]), [];
      while true
        invariant P.ParseLoop(root, cur, State()) == P.ParseLoop(P.Tab([]), [], old(State()))
        decreases P.Weight(State())
      {
        SkipEols(false);
        if token == L.Eof { return P.Done(root); }
        var outcome;
        if token == L.LBracket {
          Next(false);
          var isArray := token == L.LBracket;
          if isArray { Next(false); }
          outcome, root, cur := ParseGroup(root, isArray);
        } else {
          outcome, root := ParseKeyValue(root, cur);
        }
        if outcome == Failed { return P.Bad; }
        if outcome == Outside { return P.Unmodelled; }
      }
    }
  }

  /** `toml::parse`. */
  method ParseStream(stream: string) returns (r: P.Result)
    ensures r == P.Parse(stream)
  {
    hide P.ParseLoop, P.SkipBOM, P.Next;
    var lexer := new Lexer(stream);
    var ok := lexer.SkipUTF8BOM();
    if !ok { return P.Bad; }
    var parser := new Parser(lexer);
    parser.Next(false);
    r := parser.Parse();
  }

  // ---------------------------------------------------------------- the printer

  /** A `std::ostream`. */
  class Output {
    var text: string

    constructor ()
      ensures text == ""
    {
      text := "";
    }

    method Put(t: string)
      modifies this
      ensures text == old(text) + t
    {
      text := text + t;
    }
  }

  /** `Value::write`. */
  method Write(os: Output, v: P.Value, prefix: string, indent: int)
    modifies os
    ensures os.text == old(os.text) + W.Write(v, prefix, indent)
    decreases v, 1
  {
    hide L.EscapeString, W.IntText, W.WriteElements, W.WriteLeaves, W.WriteGroups, W.Write;
    ghost var before := os.text;
    WriteUnfolds(v, prefix, indent);
    match v {
      case Bool(b) => os.Put(if b then "true" else "false");
      case Int(n) => os.Put(W.IntText(n));
      case Str(s) =>
        var escaped := EscapeString(s);
        os.Put("\"" + escaped + "\"");
      case Arr(vs) =>
        os.Put("[");
        WriteElements(os, vs, prefix);
        os.Put("]");
        Join(before, "[", W.WriteElements(vs, prefix), "]");
      case Tab(es) =>
        WriteLeaves(os, es, prefix, indent);
        WriteGroups(os, es, prefix, indent);
        Assoc(before, W.WriteLeaves(es, prefix, indent), W.WriteGroups(es, prefix, indent));
    }
  }

  lemma WriteUnfolds(v: P.Value, prefix: string, indent: int)
    ensures W.Write(v, prefix, indent) == match v
      case Bool(b) => if b then "true" else "false"
      case Int(n) => W.IntText(n)
      case Str(s) => "\"" + L.EscapeString(s) + "\""
      case Arr(vs) => "[" + W.WriteElements(vs, prefix) + "]"
      case Tab(es) => W.WriteLeaves(es, prefix, indent) + W.WriteGroups(es, prefix, indent)
  {
    hide L.EscapeString, W.IntText, W.WriteElements, W.WriteLeaves, W.WriteGroups;
  }

  /** What the loop still has to write from the `i`-th element on. */
  ghost function Pending(vs: seq<P.Value>, i: nat, prefix: string): string
    requires i <= |vs|
  {
    if i == 0 then W.WriteElements(vs, prefix) else if i == |vs| then "" else ", " + W.WriteElements(vs[i..], prefix)
  }

  lemma PendingStep(vs: seq<P.Value>, i: nat, prefix: string)
    requires i < |vs|
    ensures Pending(vs, i, prefix) == (if i == 0 then "" else ", ") + W.Write(vs[i], prefix, -1) + Pending(vs, i + 1, prefix)
  {
    hide W.Write;
    assert vs[i..][1..] == vs[i + 1..] && vs[0..] == vs;
    if i + 1 < |vs| {
      var a, b := W.Write(vs[i], prefix, -1), W.WriteElements(vs[i + 1..], prefix);
      assert ", " + (a + ", " + b) == ", " + a + (", " + b);
      assert "" + a + (", " + b) == a + ", " + b;
    } else {
      assert vs[i..] == [vs[i]];
    }
  }

  method WriteElements(os: Output, vs: seq<P.Value>, prefix: string)
    modifies os
    ensures os.text == old(os.text) + W.WriteElements(vs, prefix)
    decreases vs, 0
  {
    hide W.Write, W.WriteElements;
    ghost var all := os.text + W.WriteElements(vs, prefix);
    var i := 0;
    while i < |vs|
      invariant 0 <= i <= |vs| && os.text + Pending(vs, i, prefix) == all
    {
      ghost var before := os.text;
      PendingStep(vs, i, prefix);
      if i > 0 { os.Put(", "); }
      Write(os, vs[i], prefix, -1);
      Join(before, if i == 0 then "" else ", ", W.Write(vs[i], prefix, -1), Pending(vs, i + 1, prefix));
      i := i + 1;
    }
    if vs == [] { NothingPending(prefix); }
  }

  lemma NothingPending(prefix: string)
    ensures W.WriteElements([], prefix) == ""
  {}

  lemma Join(a: string, b: string, c: string, d: string)
    ensures a + (b + c + d) == a + b + c + d
    ensures b == "" ==> a + b == a
  {}

  method WriteLeaves(os: Output, es: seq<P.Entry>, prefix: string, indent: int)
    modifies os
    ensures os.text == old(os.text) + W.WriteLeaves(es, prefix, indent)
    decreases es, 0
  {
    hide W.Write, W.EscapeKey, W.Spaces;
    ghost var all := os.text + W.WriteLeaves(es, prefix, indent);
    var i := 0;
    while i < |es|
      invariant 0 <= i <= |es| && os.text + W.WriteLeaves(es[i..], prefix, indent) == all
    {
      ghost var before, rest := os.text, W.WriteLeaves(es[i + 1..], prefix, indent);
      assert es[i..][1..] == es[i + 1..] && es[i..][0] == es[i];
      var e := es[i];
      if !W.IsGroup(e.value) {
        os.Put(W.Spaces(indent) + W.EscapeKey(e.key) + " = ");
        Write(os, e.value, prefix, W.Deeper(indent));
        os.Put("\n");
        Join(before, W.Spaces(indent) + W.EscapeKey(e.key) + " = ", W.Write(e.value, prefix, W.Deeper(indent)) + "\n", rest);
        Lines(before, W.Spaces(indent) + W.EscapeKey(e.key) + " = ", W.Write(e.value, prefix, W.Deeper(indent)), rest);
      } else {
        assert "" + rest == rest;
      }
      i := i + 1;
    }
  }

  lemma Lines(a: string, b: string, c: string, d: string)
    ensures a + (b + c + "\n" + d) == a + b + c + "\n" + d
  {}

  method WriteGroups(os: Output, es: seq<P.Entry>, prefix: string, indent: int)
    modifies os
    ensures os.text == old(os.text) + W.WriteGroups(es, prefix, indent)
    decreases es, 0
  {
    hide W.Write, W.WriteTables, W.Header, W.Dotted;
    ghost var all := os.text + W.WriteGroups(es, prefix, indent);
    var i := 0;
    while i < |es|
      invariant 0 <= i <= |es| && os.text + W.WriteGroups(es[i..], prefix, indent) == all
    {
      ghost var before, rest := os.text, W.WriteGroups(es[i + 1..], prefix, indent);
      assert es[i..][1..] == es[i + 1..] && es[i..][0] == es[i];
      var e, key := es[i], W.Dotted(prefix, es[i].key);
      if e.value.Tab? {
        os.Put(W.Header(key, indent, false));
        Write(os, e.value, key, W.Deeper(indent));
        Join(before, W.Header(key, indent, false), W.Write(e.value, key, W.Deeper(indent)), rest);
      } else if W.IsGroup(e.value) {
        WriteTables(os, e.value.vs, key, indent);
        assert before + (W.WriteTables(e.value.vs, key, indent) + rest) == before + W.WriteTables(e.value.vs, key, indent) + rest;
      } else {
        assert "" + rest == rest;
      }
      i := i + 1;
    }
  }

  method WriteTables(os: Output, vs: seq<P.Value>, key: string, indent: int)
    modifies os
    ensures os.text == old(os.text) + W.WriteTables(vs, key, indent)
    decreases vs, 0
  {
    hide W.Write, W.Header;
    ghost var all := os.text + W.WriteTables(vs, key, indent);
    var i := 0;
    while i < |vs|
      invariant 0 <= i <= |vs| && os.text + W.WriteTables(vs[i..], key, indent) == all
    {
      ghost var before, rest := os.text, W.WriteTables(vs[i + 1..], key, indent);
      assert vs[i..][1..] == vs[i + 1..] && vs[i..][0] == vs[i];
      var head := W.Header(key, indent, true);
      os.Put(head);
      Write(os, vs[i], key, W.Deeper(indent));
      Join(before, head, W.Write(vs[i], key, W.Deeper(indent)), rest);
      i := i + 1;
    }
  }
}
