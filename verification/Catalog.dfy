/**
 Column types, tables and the text a table's schema is stored as: parser/column_type.h,
 meta/datatable.cc, and the encoding and decoding loops of meta/database.cc.
 */
module Schema {
  import opened Common
  import opened Decimal

  datatype DataType =
    | UNKNOWN | INT | LONG | FLOAT | DOUBLE | DECIMAL | REAL | CHAR | VARCHAR | TEXT
    | DATETIME | DATE | TIME | SMALLINT

  function DataType2Int(t: DataType): nat {
    match t
    case UNKNOWN => 0
    case INT => 1
    case LONG => 2
    case FLOAT => 3
    case DOUBLE => 4
    case DECIMAL => 5
    case REAL => 6
    case CHAR => 7
    case VARCHAR => 8
    case TEXT => 9
    case DATETIME => 10
    case DATE => 11
    case TIME => 12
    case SMALLINT => 13
  }

  function Int2DataType(n: int): DataType {
    match n
    case 0 => UNKNOWN
    case 1 => INT
    case 2 => LONG
    case 3 => FLOAT
    case 4 => DOUBLE
    case 5 => DECIMAL
    case 6 => REAL
    case 7 => CHAR
    case 8 => VARCHAR
    case 9 => TEXT
    case 10 => DATETIME
    case 11 => DATE
    case 12 => TIME
    case 13 => SMALLINT
    case _ => VARCHAR
  }

  datatype Column = Column(name: string, ty: DataType)

  // ---------------------------------------------------------------- tables

  /** A DataTable: its columns and the three maps built from them. */
  datatype Table = Table(
    name: string, cols: seq<Column>,
    types: map<string, DataType>, indexes: map<string, nat>, names: map<nat, string>)
  {
    /** `GetColIndex`, -1 for a column the table has not. */
    function ColIndex(col: string): int { if col in indexes then indexes[col] else -1 }

    function ColType(col: string): DataType { if col in types then types[col] else VARCHAR }
  }

  function TypesOf(cols: seq<Column>): map<string, DataType> {
    if cols == [] then map[] else TypesOf(cols[..|cols| - 1])[cols[|cols| - 1].name := cols[|cols| - 1].ty]
  }

  function IndexesOf(cols: seq<Column>): map<string, nat> {
    if cols == [] then map[] else IndexesOf(cols[..|cols| - 1])[cols[|cols| - 1].name := |cols| - 1]
  }

  function NamesOf(cols: seq<Column>): map<nat, string> {
    map i | 0 <= i < |cols| :: cols[i].name
  }

  function MakeTable(name: string, cols: seq<Column>): Table {
    Table(name, cols, TypesOf(cols), IndexesOf(cols), NamesOf(cols))
  }

  /** The constructor loop of DataTable. */
  method BuildTable(name: string, cols: seq<Column>) returns (t: Table)
    ensures t == MakeTable(name, cols)
  {
    var types: map<string, DataType>, indexes: map<string, nat>, names: map<nat, string> := map[], map[], map[];
    var i := 0;
    while i < |cols|
      invariant i <= |cols|
      invariant types == TypesOf(cols[..i]) && indexes == IndexesOf(cols[..i]) && names == NamesOf(cols[..i])
    {
      assert cols[..i + 1][..i] == cols[..i];
      types := types[cols[i].name := cols[i].ty];
      indexes := indexes[cols[i].name := i];
      names := names[i := cols[i].name];
      i := i + 1;
    }
    assert cols[..i] == cols;
    t := Table(name, cols, types, indexes, names);
  }

  predicate Distinct(cols: seq<Column>) {
    forall i, j :: 0 <= i < j < |cols| ==> cols[i].name != cols[j].name
  }

  /** Of columns with one name the last is the one the maps know. */
  lemma {:induction false} LastOneCounts(cols: seq<Column>, i: nat)
    requires i < |cols| && forall j :: i < j < |cols| ==> cols[j].name != cols[i].name
    ensures cols[i].name in IndexesOf(cols) && IndexesOf(cols)[cols[i].name] == i
    ensures cols[i].name in TypesOf(cols) && TypesOf(cols)[cols[i].name] == cols[i].ty
  {
    if i < |cols| - 1 { LastOneCounts(cols[..|cols| - 1], i); }
  }

  /** The index map knows exactly the columns, at a position of theirs. */
  lemma {:induction false} IndexesKnow(cols: seq<Column>)
    ensures forall n :: n in IndexesOf(cols) <==> exists i :: 0 <= i < |cols| && cols[i].name == n
    ensures forall n :: n in IndexesOf(cols) ==>
      IndexesOf(cols)[n] < |cols| && cols[IndexesOf(cols)[n]].name == n
  {
    if cols != [] {
      var before := cols[..|cols| - 1];
      IndexesKnow(before);
      forall n ensures n in IndexesOf(cols) <==> exists i :: 0 <= i < |cols| && cols[i].name == n {
        if n in IndexesOf(before) {
          var i :| 0 <= i < |before| && before[i].name == n;
          assert cols[i].name == n;
        }
        if i :| 0 <= i < |cols| && cols[i].name == n {
          if i < |before| { assert before[i].name == n; }
        }
      }
    }
  }

  /** The index map and the name map are inverse exactly when no two columns share a name. */
  lemma MapsInverseExactly(cols: seq<Column>)
    ensures (forall i :: 0 <= i < |cols| ==> cols[i].name in IndexesOf(cols) && IndexesOf(cols)[NamesOf(cols)[i]] == i)
        <==> Distinct(cols)
  {
    IndexesKnow(cols);
    if !Distinct(cols) {
      var i, j :| 0 <= i < j < |cols| && cols[i].name == cols[j].name;
      assert NamesOf(cols)[i] == NamesOf(cols)[j];
    } else {
      forall i | 0 <= i < |cols| ensures cols[i].name in IndexesOf(cols) && IndexesOf(cols)[NamesOf(cols)[i]] == i {
        var k := IndexesOf(cols)[cols[i].name];
        assert cols[k].name == cols[i].name;
      }
    }
  }

  // ---------------------------------------------------------------- the schema text

  function ColumnText(c: Column): string { c.name + "^" + Digits(DataType2Int(c.ty)) }

  function Encode(cols: seq<Column>): string {
    if cols == [] then "" else
    if |cols| == 1 then ColumnText(cols[0]) else ColumnText(cols[0]) + "$$" + Encode(cols[1..])
  }

  /** The encoding loop of CreateTable. */
  method EncodeColumns(cols: seq<Column>) returns (value: string)
    ensures value == Encode(cols)
  {
    value := "";
    var i := 0;
    while i < |cols|
      invariant i <= |cols| && value + Encode(cols[i..]) == Encode(cols)
    {
      assert cols[i..][1..] == cols[i + 1..];
      ghost var rest := Encode(cols[i + 1..]);
      ghost var text := ColumnText(cols[i]);
      ghost var before := value;
      value := value + ColumnText(cols[i]);
      if i != |cols| - 1 {
        value := value + "$$";
        Assoc(before, text, "$$");
        Assoc(before, text + "$$", rest);
      } else {
        assert rest == "" && cols[i..] == [cols[i]];
      }
      i := i + 1;
    }
  }

  predicate IsSpace(c: char) { c as int == 32 || 9 <= c as int <= 13 }

  /** `std::stoi`: blanks, a sign, digits, and whatever follows; None is the exception it
      throws without a digit or outside `int`. */
  function Stoi(s: string): Option<int> {
    if s == "" then None
    else if IsSpace(s[0]) then Stoi(s[1..])
    else
      var (sign, t) := if s[0] == '-' then (-1, s[1..]) else if s[0] == '+' then (1, s[1..]) else (1, s);
      var n := DigitRun(t);
      DigitRunDigits(t);
      if n == 0 then None else
      var v := sign * Value(t[..n]);
      if -0x8000_0000 <= v < 0x8000_0000 then Some(v) else None
  }

  /** What the decoding loop of GetColFromStr makes of the rest of the text, with the column
      name and the characters collected so far; None when `std::stoi` throws. */
  function DecodeFrom(rest: string, colname: string, str: string): Option<seq<Column>>
    decreases |rest|
  {
    if rest == "" then
      match Stoi(str) case None => None case Some(n) => Some([Column(colname, Int2DataType(n))])
    else if rest[0] == '^' then DecodeFrom(rest[1..], str, "")
    else if rest[0] == '$' then
      match Stoi(str)
      case None => None
      case Some(n) =>
        Prepend([Column(colname, Int2DataType(n))], DecodeFrom(rest[if |rest| > 1 then 2 else 1..], colname, ""))
    else DecodeFrom(rest[1..], colname, str + [rest[0]])
  }

  function Decode(value: string): Option<seq<Column>> { DecodeFrom(value, "", "") }

  /** GetColFromStr. */
  method GetColFromStr(value: string) returns (r: Option<seq<Column>>)
    ensures r == Decode(value)
  {
    var ans: seq<Column> := [];
    var colname, str, i := "", "", 0;
    assert value[0..] == value;
    PrependNil(Decode(value));
    while i < |value|
      invariant 0 <= i <= |value| + 1
      invariant Decode(value) == Prepend(ans, DecodeFrom(if i <= |value| then value[i..] else "", colname, str))
    {
      ghost var rest := value[i..];
      assert rest[1..] == value[i + 1..] && (|rest| > 1 ==> rest[2..] == value[i + 2..]);
      var c := value[i];
      if c == '^' {
        colname, str := str, "";
      } else if c == '$' {
        match Stoi(str) {
          case None => return None;
          case Some(n) =>
            PrependOne(ans, Column(colname, Int2DataType(n)), DecodeFrom(value[i..][if |value[i..]| > 1 then 2 else 1..], colname, ""));
            ans := ans + [Column(colname, Int2DataType(n))];
            str := "";
        }
        i := i + 1;
      } else {
        str := str + [c];
      }
      i := i + 1;
    }
    match Stoi(str) {
      case None => return None;
      case Some(n) => return Some(ans + [Column(colname, Int2DataType(n))]);
    }
  }

  function Prepend(ans: seq<Column>, r: Option<seq<Column>>): Option<seq<Column>> {
    match r case None => None case Some(cols) => Some(ans + cols)
  }

  lemma PrependNil(r: Option<seq<Column>>)
    ensures Prepend([], r) == r
  {
    if r.Some? { assert [] + r.value == r.value; }
  }

  lemma PrependOne(ans: seq<Column>, c: Column, r: Option<seq<Column>>)
    ensures Prepend(ans + [c], r) == Prepend(ans, Prepend([c], r))
  {
    if r.Some? { assert (ans + [c]) + r.value == ans + ([c] + r.value); }
  }

  predicate Free(s: string) { '^' !in s && '$' !in s }

  lemma {:induction false} CollectFree(x: string, rest: string, colname: string, str: string)
    requires Free(x)
    ensures DecodeFrom(x + rest, colname, str) == DecodeFrom(rest, colname, str + x)
    decreases |x|
  {
    if x == "" {
      assert x + rest == rest && str + x == str;
    } else {
      assert x[0] in x && forall c :: c in x[1..] ==> c in x;
      assert (x + rest)[1..] == x[1..] + rest;
      CollectFree(x[1..], rest, colname, str + [x[0]]);
      assert str + [x[0]] + x[1..] == str + x;
    }
  }

  lemma TypeText(t: DataType)
    ensures Free(Digits(DataType2Int(t))) && Stoi(Digits(DataType2Int(t))) == Some(DataType2Int(t))
  {
    var s := Digits(DataType2Int(t));
    DigitsAreDigits(DataType2Int(t));
    assert s[..|s|] == s;
    DigitRunIs(s, |s|);
    assert IsDigit(s[0]);
  }

  lemma DecodeOne(c: Column, rest: string, colname: string)
    requires Free(c.name)
    ensures DecodeFrom(ColumnText(c) + rest, colname, "") == DecodeFrom(rest, c.name, Digits(DataType2Int(c.ty)))
  {
    hide Digits, DataType2Int, Free, DecodeFrom, ColumnText;
    var n := Digits(DataType2Int(c.ty));
    TypeText(c.ty);
    ColumnTextParts(c, rest);
    CollectFree(c.name, "^" + (n + rest), colname, "");
    AtCaret(n + rest, colname, c.name);
    CollectFree(n, rest, c.name, "");
  }

  lemma ColumnTextParts(c: Column, rest: string)
    ensures var n := Digits(DataType2Int(c.ty));
      ColumnText(c) + rest == c.name + ("^" + (n + rest)) && "" + n == n && "" + c.name == c.name
  {
    hide Digits, DataType2Int;
  }

  lemma AtCaret(rest: string, colname: string, str: string)
    ensures DecodeFrom("^" + rest, colname, str) == DecodeFrom(rest, str, "")
  {
    assert ("^" + rest)[1..] == rest;
  }

  /** The decoding loop undoes the encoding loop. */
  lemma {:induction false} DecodesEncoded(cols: seq<Column>, colname: string)
    requires cols != [] && forall i :: 0 <= i < |cols| ==> Free(cols[i].name)
    ensures DecodeFrom(Encode(cols), colname, "") == Some(cols)
    decreases |cols|
  {
    hide Digits, Free;
    var c := cols[0];
    TypeText(c.ty);
    if |cols| == 1 {
      DecodeOne(c, "", colname);
      assert ColumnText(c) + "" == ColumnText(c) && cols == [c];
      TypeCode(c.ty);
    } else {
      var rest := "$$" + Encode(cols[1..]);
      assert Encode(cols) == ColumnText(c) + rest;
      DecodeOne(c, rest, colname);
      assert rest[2..] == Encode(cols[1..]);
      DecodesEncoded(cols[1..], c.name);
      TypeCode(c.ty);
      assert cols == [c] + cols[1..];
    }
  }

  /** The two type switches are inverse on the fourteen codes, and only there. */
  lemma TypeCode(t: DataType)
    ensures Int2DataType(DataType2Int(t)) == t
    ensures forall n: int :: DataType2Int(Int2DataType(n)) == n <==> 0 <= n <= 13
    ensures DataType2Int(t) < 14 && t ==
      [UNKNOWN, INT, LONG, FLOAT, DOUBLE, DECIMAL, REAL, CHAR, VARCHAR, TEXT, DATETIME, DATE, TIME, SMALLINT][DataType2Int(t)]
    ensures forall n: int :: n < 0 || n > 13 ==> Int2DataType(n) == VARCHAR
  {}

  predicate AllSpace(b: string) { forall i :: 0 <= i < |b| ==> b[i] in " \t\n\r" || b[i] as int == 11 || b[i] as int == 12 }

  /** A number may have white space and a sign in front and anything behind it; it must have a
      digit and fit an `int`. */
  lemma {:induction false} StoiExactly(b: string, sign: string, d: string, rest: string)
    requires AllSpace(b) && (sign == "" || sign == "+" || sign == "-") && AllDigits(d) && (rest == "" || !IsDigit(rest[0]))
    requires sign == "" && d == "" && rest != "" ==> !IsSpace(rest[0]) && rest[0] != '+' && rest[0] != '-'
    ensures var v := if sign == "-" then -(Value(d) as int) else Value(d);
      Stoi(b + (sign + (d + rest))) == if d != "" && -0x8000_0000 <= v < 0x8000_0000 then Some(v) else None
    decreases |b|
  {
    hide Value;
    if b == "" {
      assert b + (sign + (d + rest)) == sign + (d + rest);
      StoiSigned(sign, d, rest);
    } else {
      SpaceSkipped(b, sign + (d + rest));
      forall i | 0 <= i < |b[1..]| ensures b[1..][i] == b[i + 1] {}
      StoiExactly(b[1..], sign, d, rest);
    }
  }

  lemma SpaceSkipped(b: string, t: string)
    requires b != "" && AllSpace(b)
    ensures Stoi(b + t) == Stoi(b[1..] + t)
  {
    assert (b + t)[0] == b[0] && (b + t)[1..] == b[1..] + t;
  }

  lemma StoiSigned(sign: string, d: string, rest: string)
    requires (sign == "" || sign == "+" || sign == "-") && AllDigits(d) && (rest == "" || !IsDigit(rest[0]))
    requires sign == "" && d == "" && rest != "" ==> !IsSpace(rest[0]) && rest[0] != '+' && rest[0] != '-'
    ensures var v := if sign == "-" then -(Value(d) as int) else Value(d);
      Stoi(sign + (d + rest)) == if d != "" && -0x8000_0000 <= v < 0x8000_0000 then Some(v) else None
  {
    hide Value;
    var t := d + rest;
    DigitsInFront(d, rest);
    if sign == "" {
      assert sign + t == t;
      if d != "" { assert t[0] == d[0] && IsDigit(d[0]); } else if t != "" { assert t[0] == rest[0]; }
    } else {
      assert (sign + t)[0] == sign[0] && (sign + t)[1..] == t;
    }
  }

  lemma DigitsInFront(d: string, rest: string)
    requires AllDigits(d) && (rest == "" || !IsDigit(rest[0]))
    ensures DigitRun(d + rest) == |d| && (d + rest)[..|d|] == d
  {
    var t := d + rest;
    assert t[..|d|] == d;
    if |d| < |t| { assert t[|d|] == rest[0]; }
    DigitRunIs(t, |d|);
  }

  /** Whatever character stands behind the `$` that ends a column is skipped with it. */
  lemma AnySecondSkipped(c: Column, x: char, rest: string, colname: string)
    requires Free(c.name)
    ensures DecodeFrom(ColumnText(c) + ['$', x] + rest, colname, "") == Prepend([c], DecodeFrom(rest, c.name, ""))
  {
    hide Digits, DataType2Int, Int2DataType, Free, ColumnText, Stoi;
    var n := Digits(DataType2Int(c.ty));
    Assoc(ColumnText(c), ['$', x], rest);
    DecodeOne(c, ['$', x] + rest, colname);
    TypeText(c.ty);
    TypeCode(c.ty);
    assert (['$', x] + rest)[2..] == rest;
  }

  /** A column the table has not has no index. */
  lemma UnknownColumn(name: string, cols: seq<Column>, col: string)
    requires forall i :: 0 <= i < |cols| ==> cols[i].name != col
    ensures var t := MakeTable(name, cols); t.ColIndex(col) == -1 && col !in t.indexes && col !in t.types
  {
    IndexesKnow(cols);
    TypesKnow(cols);
  }

  lemma {:induction false} TypesKnow(cols: seq<Column>)
    ensures forall n :: n in TypesOf(cols) <==> n in IndexesOf(cols)
  {
    if cols != [] { TypesKnow(cols[..|cols| - 1]); }
  }

  /** No decoded column name contains a separator. */
  lemma {:induction false} DecodedNamesFree(rest: string, colname: string, str: string)
    requires Free(colname) && Free(str)
    ensures var r := DecodeFrom(rest, colname, str);
      r.Some? ==> r.value != [] && forall i :: 0 <= i < |r.value| ==> Free(r.value[i].name)
    decreases |rest|
  {
    if rest != "" {
      if rest[0] == '^' {
        DecodedNamesFree(rest[1..], str, "");
      } else if rest[0] == '$' {
        DecodedNamesFree(rest[if |rest| > 1 then 2 else 1..], colname, "");
      } else {
        DecodedNamesFree(rest[1..], colname, str + [rest[0]]);
      }
    }
  }

  /** A stored schema is read back exactly when the table has columns and no column name
      contains `^` or `$`. */
  lemma {:induction false} SchemaRoundTripsExactly(cols: seq<Column>)
    ensures Decode(Encode(cols)) == Some(cols)
        <==> cols != [] && forall i :: 0 <= i < |cols| ==> Free(cols[i].name)
  {
    if cols != [] && forall i :: 0 <= i < |cols| ==> Free(cols[i].name) {
      DecodesEncoded(cols, "");
    }
    DecodedNamesFree(Encode(cols), "", "");
  }
}
