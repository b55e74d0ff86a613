/**
 The packet codec as it runs: writers append to a vector, readers move an iterator, and
 SendResultSetToClient sends packet after packet.
 */
module Packets {
  import opened Bytes
  import W = WireCodec
  import R = ResultSets

  /** A `std::vector<uint8_t>` being written. */
  class Writer {
    var data: seq<byte>

    constructor ()
      ensures data == []
    {
      data := [];
    }

    method WriteU8(v: byte)
      modifies this
      ensures data == old(data) + [v]
    {
      data := data + [v];
    }

    method WriteU16(v: nat)
      modifies this
      ensures data == old(data) + W.U16(v)
    {
      ghost var before := data;
      data := data + [v % 256];
      data := data + [v / 256 % 256];
      assert before + [v % 256] + [v / 256 % 256] == before + W.U16(v);
    }

    method WriteU24(v: nat)
      modifies this
      ensures data == old(data) + W.U24(v)
    {
      ghost var before := data;
      WriteU16(v);
      data := data + [v / 0x1_0000 % 256];
      Bytes.Regroup4(before, W.U16(v), [v / 0x1_0000 % 256], []);
      assert W.U24(v) + [] == W.U24(v) && data + [] == data;
    }

    method WriteU32(v: nat)
      modifies this
      ensures data == old(data) + W.U32(v)
    {
      ghost var before := data;
      WriteU24(v);
      data := data + [v / 0x100_0000 % 256];
      assert before + W.U24(v) + [v / 0x100_0000 % 256] == before + W.U32(v);
    }

    method WriteU64(v: nat)
      modifies this
      ensures data == old(data) + W.U64(v)
    {
      ghost var before := data;
      WriteU32(v);
      WriteU32(v / 0x1_0000_0000);
      assert before + W.U32(v) + W.U32(v / 0x1_0000_0000) == before + W.U64(v);
    }

    method WriteLenEncode(v: nat)
      modifies this
      ensures data == old(data) + W.LenEnc(v)
    {
      hide W.U16, W.U24, W.U64;
      ghost var before := data;
      if v < 251 {
        WriteU8(v);
      } else if v < 0x1_0000 {
        WriteU8(0xfc);
        WriteU16(v);
        assert before + [0xfc] + W.U16(v) == before + ([0xfc] + W.U16(v));
      } else if v < 0x100_0000 {
        WriteU8(0xfd);
        WriteU24(v);
        assert before + [0xfd] + W.U24(v) == before + ([0xfd] + W.U24(v));
      } else {
        WriteU8(0xfe);
        WriteU64(v);
        assert before + [0xfe] + W.U64(v) == before + ([0xfe] + W.U64(v));
      }
    }

    method WriteLenEncodeString(s: seq<byte>)
      modifies this
      ensures data == old(data) + W.StrEnc(s)
    {
      hide W.LenEnc;
      ghost var before := data;
      WriteLenEncode(|s|);
      data := data + s;
      assert before + W.LenEnc(|s|) + s == before + W.StrEnc(s);
    }
  }

  /** An iterator over a packet. The source does not look for the end: reading past it, or a
      length it cannot represent, is excluded. */
  class Reader {
    const packet: seq<byte>
    var it: nat

    constructor (packet: seq<byte>)
      ensures this.packet == packet && it == 0
    {
      this.packet := packet;
      it := 0;
    }

    method ReadU8() returns (v: nat)
      requires W.GetU8(packet, it).Got?
      modifies this
      ensures W.Got(v, it) == W.GetU8(packet, old(it))
    {
      v := packet[it];
      it := it + 1;
    }

    method ReadU16() returns (v: nat)
      requires W.GetU16(packet, it).Got?
      modifies this
      ensures W.Got(v, it) == W.GetU16(packet, old(it))
    {
      v := W.Octet(packet, it) + 256 * W.Octet(packet, it + 1);
      it := it + 2;
    }

    method ReadU24() returns (v: nat)
      requires W.GetU24(packet, it).Got?
      modifies this
      ensures W.Got(v, it) == W.GetU24(packet, old(it))
    {
      var wide := W.Octet(packet, it) + 256 * W.Octet(packet, it + 1) + 0x1_0000 * W.Octet(packet, it + 2);
      it := it + 3;
      v := wide % 0x1_0000;
    }

    method ReadU32() returns (v: nat)
      requires W.GetU32(packet, it).Got?
      modifies this
      ensures W.Got(v, it) == W.GetU32(packet, old(it))
    {
      v := W.Octet(packet, it) + 256 * W.Octet(packet, it + 1) + 0x1_0000 * W.Octet(packet, it + 2)
         + 0x100_0000 * W.Octet(packet, it + 3);
      it := it + 4;
    }

    method ReadLenEncode() returns (v: nat)
      requires W.GetLen(packet, it).Got?
      modifies this
      ensures W.Got(v, it) == W.GetLen(packet, old(it))
    {
      hide W.GetU16, W.GetU24;
      v := ReadU8();
      if v == 0xfc { v := ReadU16(); } else if v == 0xfd { v := ReadU24(); }
    }

    method ReadLenEncodeString() returns (s: seq<byte>)
      requires W.GetStr(packet, it).Got?
      modifies this
      ensures W.Got(s, it) == W.GetStr(packet, old(it))
    {
      hide W.GetLen;
      var n := ReadLenEncode();
      s := packet[it..it + n];
      it := it + n;
    }
  }

  class FieldPacket {
    var name: seq<byte>
    var ty: nat
    var table: seq<byte>
    var orgTable: seq<byte>
    var dataBase: seq<byte>
    var orgName: seq<byte>
    var columnLength: nat
    var charset: nat
    var decimals: nat
    var flags: nat

    ghost function State(): W.Field
      reads this
    {
      W.Field(name, ty, table, orgTable, dataBase, orgName, columnLength, charset, decimals, flags)
    }

    constructor (name: seq<byte>, ty: nat, table: seq<byte>, orgTable: seq<byte>, dataBase: seq<byte>, orgName: seq<byte>,
                 columnLength: nat, charset: nat, decimals: nat, flags: nat)
      ensures State() == W.Field(name, ty, table, orgTable, dataBase, orgName, columnLength, charset, decimals, flags)
    {
      this.name, this.ty, this.table, this.orgTable, this.dataBase := name, ty, table, orgTable, dataBase;
      this.orgName, this.columnLength, this.charset := orgName, columnLength, charset;
      this.decimals, this.flags := decimals, flags;
    }

    method Pack() returns (output: seq<byte>)
      ensures output == W.PackField(State())
    {
      hide W.FieldTail, W.StrEnc;
      var w := new Writer();
      w.WriteLenEncodeString(W.DEF);
      w.WriteLenEncodeString(dataBase);
      w.WriteLenEncodeString(table);
      w.WriteLenEncodeString(orgTable);
      w.WriteLenEncodeString(name);
      w.WriteLenEncodeString(orgName);
      Nest6(W.StrEnc(W.DEF), W.StrEnc(dataBase), W.StrEnc(table), W.StrEnc(orgTable), W.StrEnc(name), W.StrEnc(orgName),
            W.FieldTail(State()));
      PackTail(w);
      output := w.data;
    }

    method PackTail(w: Writer)
      modifies w
      ensures w.data == old(w.data) + W.FieldTail(State())
    {
      hide W.LenEnc, W.U16, W.U32, W.CodeOf, W.FlagsOf;
      ghost var before := w.data;
      w.WriteLenEncode(0x0c);
      w.WriteU16(charset);
      w.WriteU32(columnLength);
      w.WriteU8(W.CodeOf(ty) % 256);
      w.WriteU16(W.FlagsOf(ty));
      w.WriteU8(decimals % 256);
      w.WriteU16(0);
      Nest7(before, W.LenEnc(0x0c), W.U16(charset), W.U32(columnLength), [W.CodeOf(ty) % 256], W.U16(W.FlagsOf(ty)),
            [decimals % 256], W.U16(0));
    }

    method UnPack(packet: seq<byte>)
      requires W.UnpackField(packet).Got?
      modifies this
      ensures State() == W.UnpackField(packet).value
    {
      hide W.GetStr, W.UnpackTail;
      var seek := new Reader(packet);
      var catalog := seek.ReadLenEncodeString();
      dataBase := seek.ReadLenEncodeString();
      table := seek.ReadLenEncodeString();
      orgTable := seek.ReadLenEncodeString();
      name := seek.ReadLenEncodeString();
      orgName := seek.ReadLenEncodeString();
      TailIgnores(packet, seek.it, State());
      UnPackTail(seek);
    }

    /** The fixed-length fields. */
    method UnPackTail(seek: Reader)
      requires W.UnpackTail(seek.packet, seek.it, State()).Got?
      modifies seek, this`charset, this`columnLength, this`flags, this`ty, this`decimals
      ensures W.Got(State(), seek.it) == W.UnpackTail(seek.packet, old(seek.it), old(State()))
    {
      hide W.GetLen, W.GetU16, W.GetU32, W.GetU8, W.MySQLToType;
      var fixedLength := seek.ReadLenEncode();
      charset := seek.ReadU16();
      columnLength := seek.ReadU32();
      var t := seek.ReadU8();
      flags := seek.ReadU16();
      ty := W.MySQLToType(t, flags);
      decimals := seek.ReadU8();
    }
  }

  lemma TailIgnores(packet: seq<byte>, it: nat, f: W.Field)
    ensures W.UnpackTail(packet, it, f) ==
      W.UnpackTail(packet, it, W.Field(f.name, 0, f.table, f.orgTable, f.dataBase, f.orgName, 0, 0, 0, 0))
  {
    hide W.GetLen, W.GetU16, W.GetU32, W.GetU8, W.MySQLToType;
  }

  lemma Nest6(a: seq<byte>, b: seq<byte>, c: seq<byte>, d: seq<byte>, e: seq<byte>, f: seq<byte>, g: seq<byte>)
    ensures [] + a + b + c + d + e + f + g == a + (b + (c + (d + (e + (f + g)))))
  {
    assert [] + a == a;
    assert e + (f + g) == e + f + g;
    assert d + (e + f + g) == d + e + f + g;
    assert c + (d + e + f + g) == c + d + e + f + g;
    assert b + (c + d + e + f + g) == b + c + d + e + f + g;
  }

  lemma Nest7(w: seq<byte>, a: seq<byte>, b: seq<byte>, c: seq<byte>, d: seq<byte>, e: seq<byte>, f: seq<byte>, g: seq<byte>)
    ensures w + a + b + c + d + e + f + g == w + (a + (b + (c + (d + (e + (f + g))))))
  {
    Nest6(a, b, c, d, e, f, g);
    assert [] + a == a;
    assert w + a + b == w + (a + b);
    assert w + (a + b) + c == w + (a + b + c);
    assert w + (a + b + c) + d == w + (a + b + c + d);
    assert w + (a + b + c + d) + e == w + (a + b + c + d + e);
    assert w + (a + b + c + d + e) + f == w + (a + b + c + d + e + f);
  }

  class RowPacket {
    var row: seq<seq<byte>>

    constructor (row: seq<seq<byte>>)
      ensures this.row == row
    {
      this.row := row;
    }

    method Pack() returns (output: seq<byte>)
      ensures output == W.PackRow(row)
    {
      hide W.StrEnc;
      var w := new Writer();
      var i := 0;
      while i < |row|
        invariant 0 <= i <= |row| && w.data == W.PackRow(row[..i])
        invariant row == old(row)
      {
        w.WriteLenEncodeString(row[i]);
        PackRowSnoc(row[..i], row[i]);
        assert row[..i + 1] == row[..i] + [row[i]];
        i := i + 1;
      }
      assert row[..i] == row;
      output := w.data;
    }

    /** Appends the strings read to the row. */
    method UnPack(packet: seq<byte>, colCount: nat)
      requires W.UnpackRow(packet, 0, colCount).Got?
      modifies this
      ensures row == old(row) + W.UnpackRow(packet, 0, colCount).value
    {
      hide W.GetStr;
      var seek := new Reader(packet);
      var i := 0;
      ghost var before := row;
      assert before + W.UnpackRow(packet, 0, colCount).value == row + W.UnpackRow(packet, seek.it, colCount - i).value;
      while i < colCount
        invariant 0 <= i <= colCount && W.UnpackRow(packet, seek.it, colCount - i).Got? && seek.packet == packet
        invariant row + W.UnpackRow(packet, seek.it, colCount - i).value == before + W.UnpackRow(packet, 0, colCount).value
      {
        ghost var rest := W.UnpackRow(packet, seek.it, colCount - i).value;
        var str := seek.ReadLenEncodeString();
        assert row + rest == (row + [str]) + W.UnpackRow(packet, seek.it, colCount - i - 1).value;
        row := row + [str];
        i := i + 1;
      }
    }
  }

  lemma {:induction false} PackRowSnoc(row: seq<seq<byte>>, s: seq<byte>)
    ensures W.PackRow(row + [s]) == W.PackRow(row) + W.StrEnc(s)
  {
    hide W.StrEnc;
    if row == [] {
      assert row + [s] == [s] && [s][1..] == [];
    } else {
      PackRowSnoc(row[1..], s);
      assert (row + [s])[1..] == row[1..] + [s];
      assert W.StrEnc(row[0]) + (W.PackRow(row[1..]) + W.StrEnc(s)) == (W.StrEnc(row[0]) + W.PackRow(row[1..])) + W.StrEnc(s);
    }
  }

  class EofPacket {
    var header: nat
    var warnings: nat
    var statusFlags: nat

    constructor (warnFlag: nat, statusFlag: nat)
      ensures header == 0xfe && warnings == warnFlag && statusFlags == statusFlag
    {
      header, warnings, statusFlags := 0xfe, warnFlag, statusFlag;
    }

    method Pack() returns (output: seq<byte>)
      requires header == 0xfe
      ensures output == W.PackEof(warnings, statusFlags)
    {
      output := [header];
      output := output + [warnings % 256];
      output := output + [warnings / 256 % 256];
      output := output + [statusFlags % 256];
      output := output + [statusFlags / 256 % 256];
    }

    method UnPack(packet: seq<byte>)
      requires W.UnpackEof(packet).Got?
      modifies this
      ensures (header, warnings, statusFlags) == W.UnpackEof(packet).value
    {
      var seek := new Reader(packet);
      header := seek.ReadU8();
      warnings := seek.ReadU16();
      statusFlags := seek.ReadU16();
    }
  }

  // ---------------------------------------------------------------- sending

  /** What has been handed to the connection; SendPacket queues behind it. */
  class Connection {
    var sent: seq<byte>

    constructor ()
      ensures sent == []
    {
      sent := [];
    }

    method SendPacket(data: seq<byte>)
      modifies this
      ensures sent == old(sent) + data
    {
      sent := sent + data;
    }
  }

  /** Length byte, two zeros, sequence number, payload. */
  method SendFrame(cli: Connection, seqId: byte, payload: seq<byte>)
    modifies cli
    ensures cli.sent == old(cli.sent) + R.Frame(R.Packet(seqId, payload))
  {
    var out: seq<byte> := [];
    out := out + [|payload| % 256];
    out := out + [0];
    out := out + [0];
    out := out + [seqId];
    out := out + payload;
    cli.SendPacket(out);
    assert out == R.Frame(R.Packet(seqId, payload));
  }

  lemma {:induction false} FramesSnoc(ps: seq<R.Packet>, p: R.Packet)
    ensures R.Frames(ps + [p]) == R.Frames(ps) + R.Frame(p)
  {
    hide R.Frame;
    if ps == [] {
      assert ps + [p] == [p] && [p][1..] == [];
    } else {
      FramesSnoc(ps[1..], p);
      assert (ps + [p])[1..] == ps[1..] + [p];
      assert R.Frame(ps[0]) + (R.Frames(ps[1..]) + R.Frame(p)) == (R.Frame(ps[0]) + R.Frames(ps[1..])) + R.Frame(p);
    }
  }

  /** One more packet of the list is on the wire. */
  lemma SentOneMore(before: seq<byte>, ps: seq<R.Packet>, k: nat)
    requires k < |ps|
    ensures before + R.Frames(ps[..k]) + R.Frame(ps[k]) == before + R.Frames(ps[..k + 1])
  {
    hide R.Frame, R.Frames;
    assert ps[..k + 1] == ps[..k] + [ps[k]];
    FramesSnoc(ps[..k], ps[k]);
  }

  /** `seq++` of a `uint8_t`. */
  function Next(seqId: byte): byte { if seqId == 255 then 0 else seqId + 1 }

  method SendFields(cli: Connection, cols: seq<R.Text>, table: R.Text, db: R.Text, ghost before: seq<byte>, ghost ps: seq<R.Packet>)
    requires |ps| > |cols| + 1 && cli.sent == before + R.Frames(ps[..1])
    requires forall k :: 1 <= k <= |cols| ==> ps[k] == R.Packet((1 + k) % 256, W.PackField(R.FieldOf(cols[k - 1], table, db)))
    modifies cli
    ensures cli.sent == before + R.Frames(ps[..|cols| + 1])
  {
    hide R.Frame, R.Frames, W.PackField;
    var seqId: byte := 2;
    var i := 0;
    while i < |cols|
      invariant 0 <= i <= |cols| && seqId == (2 + i) % 256
      invariant cli.sent == before + R.Frames(ps[..i + 1])
    {
      var pack := new FieldPacket(cols[i], W.TYPE_VARCHAR, table, table, db, cols[i], 80, 33, 0, 0);
      var payload := pack.Pack();
      assert ps[i + 1] == R.Packet(seqId, payload);
      SendFrame(cli, seqId, payload);
      SentOneMore(before, ps, i + 1);
      seqId := Next(seqId);
      i := i + 1;
    }
  }

  method SendRows(cli: Connection, first: byte, rows: seq<seq<R.Text>>, ghost before: seq<byte>, ghost ps: seq<R.Packet>, ghost from: nat)
    requires |ps| > from + |rows| && cli.sent == before + R.Frames(ps[..from]) && first == (1 + from) % 256
    requires forall k :: from <= k < from + |rows| ==> ps[k] == R.Packet((1 + k) % 256, W.PackRow(rows[k - from]))
    modifies cli
    ensures cli.sent == before + R.Frames(ps[..from + |rows|])
  {
    hide R.Frame, R.Frames, W.PackRow;
    var seqId := first;
    var i := 0;
    while i < |rows|
      invariant 0 <= i <= |rows| && seqId == (1 + from + i) % 256
      invariant cli.sent == before + R.Frames(ps[..from + i])
    {
      var pack := new RowPacket(rows[i]);
      var payload := pack.Pack();
      assert ps[from + i] == R.Packet(seqId, payload);
      SendFrame(cli, seqId, payload);
      SentOneMore(before, ps, from + i);
      seqId := Next(seqId);
      i := i + 1;
    }
  }

  method SendEof(cli: Connection, seqId: byte, ghost before: seq<byte>, ghost ps: seq<R.Packet>, ghost k: nat)
    requires k < |ps| && cli.sent == before + R.Frames(ps[..k]) && ps[k] == R.Packet(seqId, W.PackEof(0, 2))
    modifies cli
    ensures cli.sent == before + R.Frames(ps[..k + 1])
  {
    hide R.Frame, R.Frames, W.PackEof;
    var eof := new EofPacket(0, 2);
    var payload := eof.Pack();
    SendFrame(cli, seqId, payload);
    SentOneMore(before, ps, k);
  }

  /** The whole result set, packet by packet. */
  method SendResultSet(cli: Connection, cols: seq<R.Text>, table: R.Text, db: R.Text, rows: seq<seq<R.Text>>)
    modifies cli
    ensures cli.sent == old(cli.sent) + R.Frames(R.Emitted(cols, table, db, rows))
  {
    hide R.Frame, R.Frames, W.PackEof, W.PackRow, W.PackField, R.Emitted;
    ghost var before, ps := cli.sent, R.Emitted(cols, table, db, rows);
    R.EmittedParts(cols, table, db, rows);
    var fieldcount: byte := |cols| % 256;
    NothingSent(before, ps);
    SendFrame(cli, 1, [fieldcount]);
    assert ps[0] == R.Packet(1, [fieldcount]);
    SentOneMore(before, ps, 0);
    SendFields(cli, cols[..fieldcount], table, db, before, ps);
    SendEof(cli, (fieldcount + 2) % 256, before, ps, fieldcount + 1);
    SendRows(cli, (fieldcount + 3) % 256, rows, before, ps, fieldcount + 2);
    SendEof(cli, (fieldcount + 3 + |rows|) % 256, before, ps, fieldcount + 2 + |rows|);
    assert ps[..fieldcount + 3 + |rows|] == ps;
  }

  lemma NothingSent(before: seq<byte>, ps: seq<R.Packet>)
    ensures before == before + R.Frames(ps[..0])
  {}
}
