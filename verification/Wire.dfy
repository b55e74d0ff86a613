/**
 The MySQL packet codec: network/protocol_buffer.cc, network/type.h, network/field.cc and
 network/eof.cc. A string is its bytes. Where the source reads behind the packet, returns the
 address of a function (0xfb) or shifts an `int` by 32 and more (0xfe), the outcome is Undefined.
 */
module WireCodec {
  import opened Bytes

  datatype Read<T> = Got(value: T, at: nat) | Undefined

  // ---------------------------------------------------------------- integers

  function U16(v: nat): (b: seq<byte>) { [v % 256, v / 256 % 256] }

  function U24(v: nat): (b: seq<byte>) { U16(v) + [v / 0x1_0000 % 256] }

  function U32(v: nat): (b: seq<byte>) { U24(v) + [v / 0x100_0000 % 256] }

  function U64(v: nat): (b: seq<byte>) { U32(v) + U32(v / 0x1_0000_0000) }

  function Octet(p: seq<byte>, i: nat): nat
    requires i < |p|
  {
    p[i]
  }

  function GetU8(p: seq<byte>, it: nat): Read<nat> { if it < |p| then Got(p[it], it + 1) else Undefined }

  function GetU16(p: seq<byte>, it: nat): Read<nat> {
    if it + 2 <= |p| then Got(Octet(p, it) + 256 * Octet(p, it + 1), it + 2) else Undefined
  }

  /** The result type is `uint16_t`: the third byte is read and dropped. */
  function GetU24(p: seq<byte>, it: nat): Read<nat> {
    if it + 3 <= |p| then Got((Octet(p, it) + 256 * Octet(p, it + 1) + 0x1_0000 * Octet(p, it + 2)) % 0x1_0000, it + 3)
    else Undefined
  }

  function GetU32(p: seq<byte>, it: nat): Read<nat> {
    if it + 4 <= |p| then
      Got(Octet(p, it) + 256 * Octet(p, it + 1) + 0x1_0000 * Octet(p, it + 2) + 0x100_0000 * Octet(p, it + 3), it + 4)
    else Undefined
  }

  /** The number that bytes, low byte first, stand for. */
  function Number(b: seq<byte>): nat { if b == [] then 0 else Octet(b, 0) + 256 * Number(b[1..]) }

  /** Numbers are written low byte first. */
  lemma LittleEndian(v: nat)
    ensures |U16(v)| == 2 && Number(U16(v)) == v % 0x1_0000
    ensures |U24(v)| == 3 && Number(U24(v)) == v % 0x100_0000
    ensures |U32(v)| == 4 && Number(U32(v)) == v % 0x1_0000_0000
    ensures |U64(v)| == 8 && Number(U64(v)) == v % 0x1_0000_0000_0000_0000
  {
    hide Number;
    TwoBytes(v);
    OneByte(v / 0x1_0000 % 256);
    OneByte(v / 0x100_0000 % 256);
    NumberJoin(U16(v), [v / 0x1_0000 % 256]);
    NumberJoin(U24(v), [v / 0x100_0000 % 256]);
    NumberJoin(U32(v), U32(v / 0x1_0000_0000));
    Bytes3(v);
    Bytes4(v);
    FourBytes(v / 0x1_0000_0000);
    Bytes8(v);
  }

  lemma FourBytes(v: nat)
    ensures |U32(v)| == 4 && Number(U32(v)) == v % 0x1_0000_0000
  {
    hide Number;
    TwoBytes(v);
    OneByte(v / 0x1_0000 % 256);
    OneByte(v / 0x100_0000 % 256);
    NumberJoin(U16(v), [v / 0x1_0000 % 256]);
    NumberJoin(U24(v), [v / 0x100_0000 % 256]);
    Bytes3(v);
    Bytes4(v);
  }

  lemma OneByte(b: byte)
    ensures Number([b]) == b
  {
    assert [b][1..] == [];
  }

  lemma TwoBytes(v: nat)
    ensures Number(U16(v)) == v % 0x1_0000
  {
    assert U16(v)[1..] == [v / 256 % 256];
    OneByte(v / 256 % 256);
    assert v % 0x1_0000 == v % 256 + 256 * (v / 256 % 256);
  }

  lemma Bytes3(v: nat)
    ensures v % 0x100_0000 == v % 0x1_0000 + 0x1_0000 * (v / 0x1_0000 % 256)
  {
    var q := v / 0x1_0000;
    Remainder(v, 0x100_0000, q / 256, 0x1_0000 * (q % 256) + v % 0x1_0000);
  }

  lemma Bytes4(v: nat)
    ensures v % 0x1_0000_0000 == v % 0x100_0000 + 0x100_0000 * (v / 0x100_0000 % 256)
  {
    var q := v / 0x100_0000;
    Remainder(v, 0x1_0000_0000, q / 256, 0x100_0000 * (q % 256) + v % 0x100_0000);
  }

  lemma Remainder(v: nat, m: nat, q: nat, r: nat)
    requires v == m * q + r && r < m
    ensures v % m == r
  {
    Multiples(m, q - v / m);
    assert m * (q - v / m) == v % m - r;
  }

  lemma Multiples(m: nat, k: int)
    ensures k >= 1 ==> m * k >= m
    ensures k <= -1 ==> m * k <= -(m as int)
    decreases if k < 0 then -k else k
  {
    if k > 1 { Multiples(m, k - 1); }
    if k < -1 { Multiples(m, k + 1); }
  }

  lemma Bytes8(v: nat)
    ensures v % 0x1_0000_0000_0000_0000 == v % 0x1_0000_0000 + 0x1_0000_0000 * (v / 0x1_0000_0000 % 0x1_0000_0000)
  {}

  function Power256(n: nat): nat { if n == 0 then 1 else 256 * Power256(n - 1) }

  lemma {:induction false} NumberJoin(a: seq<byte>, b: seq<byte>)
    ensures Number(a + b) == Number(a) + Power256(|a|) * Number(b)
    ensures Power256(2) == 0x1_0000 && Power256(3) == 0x100_0000 && Power256(4) == 0x1_0000_0000
  {
    if a == [] {
      assert a + b == b;
    } else {
      assert (a + b)[1..] == a[1..] + b && Octet(a + b, 0) == Octet(a, 0);
      NumberJoin(a[1..], b);
      Distribute(Number(a[1..]), Power256(|a| - 1), Number(b));
    }
  }

  lemma Distribute(x: nat, p: nat, y: nat)
    ensures 256 * (x + p * y) == 256 * x + (256 * p) * y
  {}

  // ---------------------------------------------------------------- length-encoded

  function LenEnc(v: nat): (b: seq<byte>) {
    if v < 251 then [v]
    else if v < 0x1_0000 then [0xfc] + U16(v)
    else if v < 0x100_0000 then [0xfd] + U24(v)
    else [0xfe] + U64(v)
  }

  /** One byte below 251, else a marker and two, three or eight bytes. */
  lemma LenLayout(v: nat)
    requires v < 0x1_0000_0000_0000_0000
    ensures var b := LenEnc(v);
      if v < 251 then b == [v]
      else
        && Number(b[1..]) == v
        && (|b|, b[0] as int) == if v < 0x1_0000 then (3, 252) else if v < 0x100_0000 then (4, 253) else (9, 254)
  {
    hide Number, U16, U24, U64;
    LittleEndian(v);
    assert forall m: byte, t: seq<byte> {:trigger [m] + t} :: ([m] + t)[1..] == t;
  }

  function GetLen(p: seq<byte>, it: nat): Read<nat> {
    match GetU8(p, it)
    case Undefined => Undefined
    case Got(u8, at) =>
      if u8 == 0xfb then Undefined
      else if u8 == 0xfc then GetU16(p, at)
      else if u8 == 0xfd then GetU24(p, at)
      else if u8 == 0xfe then Undefined
      else Got(u8, at)
  }

  function GetString(p: seq<byte>, it: nat, n: nat): Read<seq<byte>> {
    if it + n <= |p| then Got(p[it..it + n], it + n) else Undefined
  }

  function StrEnc(s: seq<byte>): seq<byte> { LenEnc(|s|) + s }

  function GetStr(p: seq<byte>, it: nat): Read<seq<byte>> {
    match GetLen(p, it) case Undefined => Undefined case Got(n, at) => GetString(p, at, n)
  }

  // ---------------------------------------------------------------- round trips

  lemma StandsAt(p: seq<byte>, at: nat, t: seq<byte>)
    requires Stands(p, at, t)
    ensures forall i :: at <= i < at + |t| ==> i < |p| && p[i] == t[i - at]
  {
    forall i | at <= i < at + |t| ensures i < |p| && p[i] == t[i - at] { assert p[i] == p[at..at + |t|][i - at]; }
  }

  lemma ReadsU16(p: seq<byte>, it: nat, v: nat)
    requires Stands(p, it, U16(v)) && v < 0x1_0000
    ensures GetU16(p, it) == Got(v, it + 2)
  {
    StandsAt(p, it, U16(v));
    Split256(v);
  }

  lemma Split256(v: nat)
    ensures v == v % 256 + 256 * (v / 256)
    ensures v < 0x1_0000 ==> v / 256 % 256 == v / 256
  {}

  lemma ReadsU32(p: seq<byte>, it: nat, v: nat)
    requires Stands(p, it, U32(v)) && v < 0x1_0000_0000
    ensures GetU32(p, it) == Got(v, it + 4)
  {
    StandsAt(p, it, U32(v));
    Split256(v);
    Split256(v / 256);
    Split256(v / 0x1_0000);
    assert v / 256 / 256 == v / 0x1_0000 && v / 0x1_0000 / 256 == v / 0x100_0000;
  }

  /** A length is read back exactly below 2^16; up to 2^24 its third byte is lost. */
  lemma LenRoundTripsExactly(p: seq<byte>, it: nat, v: nat)
    requires Stands(p, it, LenEnc(v))
    ensures GetLen(p, it) == Got(v, it + |LenEnc(v)|) <==> v < 0x1_0000
    ensures 0x1_0000 <= v < 0x100_0000 ==> GetLen(p, it) == Got(v % 0x1_0000, it + 4)
    ensures v >= 0x100_0000 ==> GetLen(p, it) == Undefined
  {
    StandsAt(p, it, LenEnc(v));
    assert p[it] == LenEnc(v)[0];
    if 251 <= v < 0x1_0000 {
      StandsApart(p, it, [0xfc], U16(v));
      ReadsU16(p, it + 1, v);
    } else if 0x1_0000 <= v < 0x100_0000 {
      StandsApart(p, it, [0xfd], U24(v));
      ReadsU24(p, it + 1, v);
    }
  }

  lemma ReadsU24(p: seq<byte>, it: nat, v: nat)
    requires Stands(p, it, U24(v)) && v < 0x100_0000
    ensures GetU24(p, it) == Got(v % 0x1_0000, it + 3)
  {
    StandsAt(p, it, U24(v));
    Split256(v);
    Split256(v / 256);
    assert v / 256 / 256 == v / 0x1_0000;
    assert Octet(p, it) + 256 * Octet(p, it + 1) + 0x1_0000 * Octet(p, it + 2) == v;
  }

  /** A string is read back exactly when it is shorter than 2^16. */
  lemma StrRoundTripsExactly(p: seq<byte>, it: nat, s: seq<byte>)
    requires Stands(p, it, StrEnc(s))
    ensures GetStr(p, it) == Got(s, it + |StrEnc(s)|) <==> |s| < 0x1_0000
    ensures GetStr(p, it).Got? && |s| >= 0x1_0000 ==> GetStr(p, it).value != s
  {
    hide LenEnc, GetLen;
    StandsApart(p, it, LenEnc(|s|), s);
    LenRoundTripsExactly(p, it, |s|);
  }

  // ---------------------------------------------------------------- type codes

  const TYPE_VARCHAR: nat := 6165

  /** TYPE_TO_MYSQL: the wire code and the flags. */
  function TypeToMySQL(t: nat): MySQLType {
    match t
    case 257 => Wire(1, 0)      // int8
    case 770 => Wire(1, 32)     // uint8
    case 259 => Wire(2, 0)      // int16
    case 772 => Wire(2, 32)     // uint16
    case 263 => Wire(3, 0)      // int32
    case 776 => Wire(3, 32)     // uint32
    case 1035 => Wire(4, 0)     // float32
    case 1036 => Wire(5, 0)     // float64
    case 0 => Wire(6, 128)      // null
    case 2061 => Wire(7, 0)     // timestamp
    case 265 => Wire(8, 0)      // int64
    case 778 => Wire(8, 32)     // uint64
    case 261 => Wire(9, 0)      // int24
    case 774 => Wire(9, 32)     // uint24
    case 2062 => Wire(10, 128)  // date
    case 2063 => Wire(11, 128)  // time
    case 2064 => Wire(12, 128)  // datetime
    case 785 => Wire(13, 32)    // year
    case 2073 => Wire(16, 32)   // bit
    case 2078 => Wire(245, 0)   // json
    case 18 => Wire(246, 0)     // decimal
    case 6163 => Wire(252, 0)   // text
    case 10260 => Wire(252, 128) // blob
    case 6165 => Wire(253, 0)   // varchar
    case 10262 => Wire(253, 128) // varbinary
    case 6167 => Wire(254, 0)   // char
    case 10264 => Wire(254, 128) // binary
    case 2074 => Wire(254, 256) // enum
    case 2075 => Wire(254, 2048) // set
    case 2077 => Wire(255, 0)   // geometry
    case _ => Absent
  }

  datatype MySQLType = Wire(code: nat, flags: nat) | Absent

  /** `operator[]` of the map: a missing type reads as code 0 with no flags. */
  function CodeOf(t: nat): nat { if TypeToMySQL(t).Wire? then TypeToMySQL(t).code else 0 }

  function FlagsOf(t: nat): nat { if TypeToMySQL(t).Wire? then TypeToMySQL(t).flags else 0 }

  function MySQLToTypeMap(code: nat): nat {
    match code
    case 1 => 257
    case 2 => 259
    case 3 => 263
    case 4 => 1035
    case 5 => 1036
    case 6 => 0
    case 7 => 2061
    case 8 => 265
    case 9 => 261
    case 10 => 2062
    case 11 => 2063
    case 12 => 2064
    case 13 => 785
    case 16 => 2073
    case 245 => 2078
    case 246 => 18
    case 249 => 6163
    case 250 => 6163
    case 251 => 6163
    case 252 => 6163
    case 253 => 6165
    case 254 => 6167
    case 255 => 2077
    case _ => 0
  }

  /** `(flags & bit) != 0` for a power of two. */
  predicate Has(flags: nat, bit: nat)
    requires bit > 0
  {
    flags / bit % 2 == 1
  }

  function MySQLToType(code: nat, flags: nat): nat {
    var t := MySQLToTypeMap(code);
    if t == 257 then if Has(flags, 32) then 770 else t
    else if t == 259 then if Has(flags, 32) then 772 else t
    else if t == 263 then if Has(flags, 32) then 776 else t
    else if t == 265 then if Has(flags, 32) then 778 else t
    else if t == 261 then if Has(flags, 32) then 774 else t
    else if t == 6163 then if Has(flags, 128) then 10260 else t
    else if t == 6165 then if Has(flags, 128) then 10262 else t
    else if t == 6167 then
      if Has(flags, 128) then 10264 else if Has(flags, 256) then 2074 else if Has(flags, 2048) then 2075 else t
    else t
  }

  /** The wire code and flags of a type give the type back exactly for the thirty types of the
      table. */
  lemma TypeRoundTripsExactly(t: nat)
    ensures MySQLToType(CodeOf(t), FlagsOf(t)) == t <==> TypeToMySQL(t).Wire?
    ensures CodeOf(t) < 256 && FlagsOf(t) < 0x1_0000
  {
    hide Has;
    FlagBits();
  }

  lemma FlagBits()
    ensures !Has(0, 32) && !Has(0, 128) && !Has(0, 256) && !Has(0, 2048) && Has(32, 32) && Has(128, 128)
    ensures !Has(256, 128) && Has(256, 256) && !Has(2048, 128) && !Has(2048, 256) && Has(2048, 2048)
  {}

  // ---------------------------------------------------------------- packets

  /** The fields of FieldPacket. */
  datatype Field = Field(
    name: seq<byte>, ty: nat, table: seq<byte>, orgTable: seq<byte>, dataBase: seq<byte>, orgName: seq<byte>,
    columnLength: nat, charset: nat, decimals: nat, flags: nat)

  const DEF: seq<byte> := [100, 101, 102]

  /** The fixed-length tail of a field packet. */
  function FieldTail(f: Field): seq<byte> {
    LenEnc(0x0c) + (U16(f.charset) + (U32(f.columnLength) +
      ([CodeOf(f.ty) % 256] + (U16(FlagsOf(f.ty)) + ([f.decimals % 256] + U16(0))))))
  }

  function PackField(f: Field): seq<byte> {
    StrEnc(DEF) + (StrEnc(f.dataBase) + (StrEnc(f.table) + (StrEnc(f.orgTable) +
      (StrEnc(f.name) + (StrEnc(f.orgName) + FieldTail(f))))))
  }

  function UnpackTail(p: seq<byte>, it: nat, f: Field): Read<Field> {
    match GetLen(p, it) case Undefined => Undefined case Got(_, a0) =>
    match GetU16(p, a0) case Undefined => Undefined case Got(charset, a1) =>
    match GetU32(p, a1) case Undefined => Undefined case Got(columnLength, a2) =>
    match GetU8(p, a2) case Undefined => Undefined case Got(t, a3) =>
    match GetU16(p, a3) case Undefined => Undefined case Got(flags, a4) =>
    match GetU8(p, a4) case Undefined => Undefined case Got(decimals, a5) =>
      Got(f.(charset := charset, columnLength := columnLength, ty := MySQLToType(t, flags), flags := flags,
             decimals := decimals), a5)
  }

  function UnpackField(p: seq<byte>): Read<Field> {
    match GetStr(p, 0) case Undefined => Undefined case Got(_, a0) =>
    match GetStr(p, a0) case Undefined => Undefined case Got(dataBase, a1) =>
    match GetStr(p, a1) case Undefined => Undefined case Got(table, a2) =>
    match GetStr(p, a2) case Undefined => Undefined case Got(orgTable, a3) =>
    match GetStr(p, a3) case Undefined => Undefined case Got(name, a4) =>
    match GetStr(p, a4) case Undefined => Undefined case Got(orgName, a5) =>
      UnpackTail(p, a5, Field(name, 0, table, orgTable, dataBase, orgName, 0, 0, 0, 0))
  }

  /** What a field must be like to come back: short strings, a type of the table with that type's
      flags, and numbers that fit their bytes. */
  predicate Packable(f: Field) {
    && |f.dataBase| < 0x1_0000 && |f.table| < 0x1_0000 && |f.orgTable| < 0x1_0000
    && |f.name| < 0x1_0000 && |f.orgName| < 0x1_0000
    && TailPackable(f)
  }

  predicate TailPackable(f: Field) {
    && f.charset < 0x1_0000 && f.columnLength < 0x1_0000_0000 && f.decimals < 256
    && TypeToMySQL(f.ty).Wire? && f.flags == FlagsOf(f.ty)
  }

  lemma {:induction false} U16Range(p: seq<byte>, it: nat, v: nat)
    requires Stands(p, it, U16(v))
    ensures GetU16(p, it) == Got(v % 0x1_0000, it + 2)
  {
    StandsAt(p, it, U16(v));
    assert v % 0x1_0000 == v % 256 + 256 * (v / 256 % 256);
  }

  /** The source's `uint32_t` fields. */
  predicate Uint32s(f: Field) {
    f.columnLength < 0x1_0000_0000 && f.charset < 0x1_0000_0000 && f.decimals < 0x1_0000_0000 && f.flags < 0x1_0000_0000
  }

  /** The string at the front, and what stands behind it. */
  lemma NextStr(p: seq<byte>, it: nat, s: seq<byte>, rest: seq<byte>)
    requires Stands(p, it, StrEnc(s) + rest)
    ensures Stands(p, it + |StrEnc(s)|, rest)
    ensures |s| < 0x1_0000 ==> GetStr(p, it) == Got(s, it + |StrEnc(s)|)
    ensures |s| >= 0x1_0000 && GetStr(p, it).Got? ==> GetStr(p, it).value != s
  {
    hide StrEnc, GetStr, Stands;
    StandsApart(p, it, StrEnc(s), rest);
    StrRoundTripsExactly(p, it, s);
  }

  lemma TailRead(p: seq<byte>, it: nat, f: Field, g: Field)
    requires Stands(p, it, FieldTail(f)) && Uint32s(f)
    ensures var r := UnpackTail(p, it, g);
      r.Got? && r.value == g.(charset := f.charset % 0x1_0000, columnLength := f.columnLength,
                              ty := MySQLToType(CodeOf(f.ty), FlagsOf(f.ty)), flags := FlagsOf(f.ty),
                              decimals := f.decimals % 256)
  {
    hide Stands, GetLen, GetU16, GetU32, LenEnc, U16, U32, MySQLToType, CodeOf, FlagsOf;
    var code, flags := CodeOf(f.ty), FlagsOf(f.ty);
    TypeRoundTripsExactly(f.ty);
    var c: byte, d: byte := code % 256, f.decimals % 256;
    var t5 := [d] + U16(0);
    var t4 := U16(flags) + t5;
    var t3 := [c] + t4;
    var t2 := U32(f.columnLength) + t3;
    var t1 := U16(f.charset) + t2;
    Twelve();
    StandsApart(p, it, LenEnc(0x0c), t1);
    LenRoundTripsExactly(p, it, 0x0c);
    StandsApart(p, it + 1, U16(f.charset), t2);
    U16Range(p, it + 1, f.charset);
    StandsApart(p, it + 3, U32(f.columnLength), t3);
    ReadsU32(p, it + 3, f.columnLength);
    StandsApart(p, it + 7, [c], t4);
    StandsOne(p, it + 7, c);
    StandsApart(p, it + 8, U16(flags), t5);
    ReadsU16(p, it + 8, flags);
    StandsApart(p, it + 10, [d], U16(0));
    StandsOne(p, it + 10, d);
  }

  lemma Twelve()
    ensures |LenEnc(0x0c)| == 1
    ensures forall v :: |U16(v)| == 2
    ensures forall v :: |U32(v)| == 4
  {}

  lemma StandsOne(p: seq<byte>, it: nat, b: byte)
    requires Stands(p, it, [b])
    ensures GetU8(p, it) == Got(b, it + 1)
  {
    assert p[it] == p[it..it + 1][0];
  }

  /** A field packet is read back exactly when its field is packable. */
  lemma {:induction false} FieldRoundTripsExactly(f: Field)
    requires Uint32s(f)
    ensures UnpackField(PackField(f)).Got? && UnpackField(PackField(f)).value == f <==> Packable(f)
  {
    hide Stands, GetStr, StrEnc, FieldTail, GetLen, GetU8, GetU16, GetU32, MySQLToType, CodeOf, FlagsOf, TypeToMySQL;
    var p := PackField(f);
    assert |DEF| == 3;
    var t5 := StrEnc(f.orgName) + FieldTail(f);
    var t4 := StrEnc(f.name) + t5;
    var t3 := StrEnc(f.orgTable) + t4;
    var t2 := StrEnc(f.table) + t3;
    var t1 := StrEnc(f.dataBase) + t2;
    StandsWhole(p);
    var at := |StrEnc(DEF)|;
    NextStr(p, 0, DEF, t1);
    NextStr(p, at, f.dataBase, t2);
    var a1 := at + |StrEnc(f.dataBase)|;
    NextStr(p, a1, f.table, t3);
    var a2 := a1 + |StrEnc(f.table)|;
    NextStr(p, a2, f.orgTable, t4);
    var a3 := a2 + |StrEnc(f.orgTable)|;
    NextStr(p, a3, f.name, t5);
    var a4 := a3 + |StrEnc(f.name)|;
    NextStr(p, a4, f.orgName, FieldTail(f));
    var a5 := a4 + |StrEnc(f.orgName)|;
    TailRead(p, a5, f, Field(f.name, 0, f.table, f.orgTable, f.dataBase, f.orgName, 0, 0, 0, 0));
    TypeRoundTripsExactly(f.ty);
    TailKept(p, a5, f);
  }

  /** A short string as it stands on the wire. */
  function Short(s: seq<byte>): seq<byte> { [|s| % 256] + s }

  /** The bytes of a field packet with short strings (MySQL Client/Server Protocol, section
      "Protocol::ColumnDefinition41"). */
  lemma FieldLayout(f: Field)
    requires |f.dataBase| < 251 && |f.table| < 251 && |f.orgTable| < 251 && |f.name| < 251 && |f.orgName| < 251
    ensures PackField(f) == [3, 'd' as int, 'e' as int, 'f' as int] + (Short(f.dataBase) + (Short(f.table) +
      (Short(f.orgTable) + (Short(f.name) + (Short(f.orgName) + FieldTail(f))))))
  {
    hide FieldTail;
    ShortStrings(f);
    assert StrEnc(DEF) == [3, 100, 101, 102];
  }

  lemma ShortStrings(f: Field)
    requires |f.dataBase| < 251 && |f.table| < 251 && |f.orgTable| < 251 && |f.name| < 251 && |f.orgName| < 251
    ensures StrEnc(f.dataBase) == Short(f.dataBase) && StrEnc(f.table) == Short(f.table) && StrEnc(f.orgTable) == Short(f.orgTable)
    ensures StrEnc(f.name) == Short(f.name) && StrEnc(f.orgName) == Short(f.orgName)
  {}

  /** ... and of what follows its strings. */
  lemma TailLayout(f: Field)
    requires Uint32s(f)
    ensures FieldTail(f)[..1] == [12] && FieldTail(f)[11..] == [0, 0] && |FieldTail(f)| == 13
    ensures var t := FieldTail(f);
      && Number(t[1..3]) == f.charset % 0x1_0000 && Number(t[3..7]) == f.columnLength
      && Number(t[7..8]) == CodeOf(f.ty) && Number(t[8..10]) == FlagsOf(f.ty) && Number(t[10..11]) == f.decimals % 256
  {
    hide Number, U16, U32, CodeOf, FlagsOf;
    TypeRoundTripsExactly(f.ty);
    Twelve();
    assert LenEnc(0x0c) == [12] && U16(0) == [0, 0] by { LenLayout(12); ZeroBytes(); }
    var t := FieldTail(f);
    assert t[7..8] == [CodeOf(f.ty)] && t[10..11] == [f.decimals % 256];
    assert t[1..3] == U16(f.charset) && t[3..7] == U32(f.columnLength) && t[8..10] == U16(FlagsOf(f.ty));
    LittleEndian(f.charset);
    LittleEndian(f.columnLength);
    LittleEndian(FlagsOf(f.ty));
    OneByte(CodeOf(f.ty));
    OneByte(f.decimals % 256);
  }

  lemma ZeroBytes()
    ensures U16(0) == [0, 0]
  {}

  /** The type of every result column is sent as code 253 without flags. */
  lemma VarcharCode()
    ensures CodeOf(6165) == 253 && FlagsOf(6165) == 0
  {}

  lemma StandsWhole(p: seq<byte>)
    ensures Stands(p, 0, p)
  {}

  lemma {:induction false} TailKept(p: seq<byte>, it: nat, f: Field)
    requires Stands(p, it, FieldTail(f)) && Uint32s(f)
    ensures var r := UnpackTail(p, it, Field(f.name, 0, f.table, f.orgTable, f.dataBase, f.orgName, 0, 0, 0, 0));
      r.Got? && (r.value == f <==> TailPackable(f))
  {
    hide Stands, FieldTail, UnpackTail, MySQLToType, CodeOf, FlagsOf, TypeToMySQL;
    TailRead(p, it, f, Field(f.name, 0, f.table, f.orgTable, f.dataBase, f.orgName, 0, 0, 0, 0));
    TypeRoundTripsExactly(f.ty);
  }

  // ---------------------------------------------------------------- rows and EOF

  function PackRow(row: seq<seq<byte>>): seq<byte> {
    if row == [] then [] else StrEnc(row[0]) + PackRow(row[1..])
  }

  /** `n` strings from `it` on. */
  function UnpackRow(p: seq<byte>, it: nat, n: nat): Read<seq<seq<byte>>>
    decreases n
  {
    if n == 0 then Got([], it) else
    match GetStr(p, it) case Undefined => Undefined case Got(s, a0) =>
    match UnpackRow(p, a0, n - 1) case Undefined => Undefined case Got(row, a1) => Got([s] + row, a1)
  }

  lemma {:induction false} RowRead(p: seq<byte>, it: nat, row: seq<seq<byte>>)
    requires Stands(p, it, PackRow(row))
    ensures UnpackRow(p, it, |row|).Got? && UnpackRow(p, it, |row|).value == row
        <==> forall i :: 0 <= i < |row| ==> |row[i]| < 0x1_0000
    decreases |row|
  {
    hide Stands, GetStr, StrEnc;
    if row != [] {
      NextStr(p, it, row[0], PackRow(row[1..]));
      RowRead(p, it + |StrEnc(row[0])|, row[1..]);
      assert row == [row[0]] + row[1..];
      var r := UnpackRow(p, it, |row|);
      if r.Got? && r.value == row {
        assert r.value[0] == row[0];
        assert r.value[1..] == row[1..];
        forall i | 0 <= i < |row| ensures |row[i]| < 0x1_0000 { if i > 0 { assert row[i] == row[1..][i - 1]; } }
      }
    }
  }

  /** A row packet is read back exactly when each of its cells is shorter than 2^16. */
  lemma RowRoundTripsExactly(row: seq<seq<byte>>)
    ensures UnpackRow(PackRow(row), 0, |row|).Got? && UnpackRow(PackRow(row), 0, |row|).value == row
        <==> forall i :: 0 <= i < |row| ==> |row[i]| < 0x1_0000
  {
    StandsWhole(PackRow(row));
    RowRead(PackRow(row), 0, row);
  }

  const EOF_PACKET: byte := 0xfe

  function PackEof(warnings: nat, statusFlags: nat): seq<byte> { [EOF_PACKET] + U16(warnings) + U16(statusFlags) }

  /** Header, warnings and status of an EOF packet. */
  function UnpackEof(p: seq<byte>): Read<(nat, nat, nat)> {
    match GetU8(p, 0) case Undefined => Undefined case Got(header, a0) =>
    match GetU16(p, a0) case Undefined => Undefined case Got(warnings, a1) =>
    match GetU16(p, a1) case Undefined => Undefined case Got(status, _) => Got((header, warnings, status), a1)
  }

  lemma EofRoundTrips(warnings: nat, statusFlags: nat)
    requires warnings < 0x1_0000 && statusFlags < 0x1_0000
    ensures UnpackEof(PackEof(warnings, statusFlags)) == Got((0xfe, warnings, statusFlags), 3)
  {
    var p := PackEof(warnings, statusFlags);
    StandsWhole(p);
    StandsApart(p, 0, [EOF_PACKET] + U16(warnings), U16(statusFlags));
    StandsApart(p, 0, [EOF_PACKET], U16(warnings));
    ReadsU16(p, 1, warnings);
    ReadsU16(p, 3, statusFlags);
  }

  /** As a client tells an EOF packet (MySQL Client/Server Protocol, section "EOF_Packet"). */
  predicate IsEof(p: seq<byte>) { 0 < |p| < 9 && p[0] == EOF_PACKET }

  /** No row of up to 255 bytes looks like EOF. */
  lemma RowIsNotEof(row: seq<seq<byte>>)
    requires |PackRow(row)| <= 255
    ensures !IsEof(PackRow(row))
  {
    if row != [] {
      var s := row[0];
      assert |StrEnc(s)| == |LenEnc(|s|)| + |s|;
      assert PackRow(row)[0] == LenEnc(|s|)[0];
    }
  }
}
