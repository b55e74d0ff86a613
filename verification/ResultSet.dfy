/**
 Result sets on the wire: the packets SendResultSetToClient (executor/select_executor.cpp) emits,
 and what a client makes of the bytes.
 */
module ResultSets {
  import opened Bytes
  import opened Common
  import opened WireCodec

  /** A packet with its sequence number. */
  datatype Packet = Packet(seqId: nat, payload: seq<byte>)

  type Text = seq<byte>

  // ---------------------------------------------------------------- frames

  /** As the source writes a packet: its length cut to one byte, two zeros, the sequence number. */
  function Frame(p: Packet): (b: seq<byte>)
    ensures |b| == 4 + |p.payload|
  {
    [|p.payload| % 256, 0, 0, p.seqId % 256] + p.payload
  }

  function Frames(ps: seq<Packet>): seq<byte> { if ps == [] then [] else Frame(ps[0]) + Frames(ps[1..]) }

  /** As a client cuts the stream: three bytes of length, the sequence number, the payload
      (MySQL Client/Server Protocol, section "MySQL Packets"). */
  function Deframe(b: seq<byte>): Option<seq<Packet>>
    decreases |b|
  {
    if b == [] then Some([]) else
    if |b| < 4 then None else
    var n := Octet(b, 0) + 256 * Octet(b, 1) + 0x1_0000 * Octet(b, 2);
    if |b| < 4 + n then None else
    match Deframe(b[4 + n..])
    case None => None
    case Some(ps) => Some([Packet(b[3], b[4..4 + n])] + ps)
  }

  predicate Fits(ps: seq<Packet>) { forall i :: 0 <= i < |ps| ==> |ps[i].payload| <= 255 }

  predicate Byte(ps: seq<Packet>) { forall i :: 0 <= i < |ps| ==> ps[i].seqId < 256 }

  /** The client finds the emitted packets exactly when every payload has at most 255 bytes. */
  lemma {:induction false} DeframesExactly(ps: seq<Packet>)
    requires Byte(ps)
    ensures Deframe(Frames(ps)) == Some(ps) <==> Fits(ps)
  {
    if ps != [] {
      hide Deframe;
      FirstFrame(ps[0], Frames(ps[1..]));
      DeframesExactly(ps[1..]);
      assert ps == [ps[0]] + ps[1..];
      if Fits(ps) {
        assert Fits(ps[1..]);
      } else if |ps[0].payload| <= 255 {
        assert !Fits(ps[1..]) by { RestTooLong(ps); }
        RestDiffers(ps[0], Deframe(Frames(ps[1..])), ps[1..]);
      }
    }
  }

  lemma RestTooLong(ps: seq<Packet>)
    requires ps != [] && !Fits(ps) && |ps[0].payload| <= 255
    ensures !Fits(ps[1..])
  {
    var i :| 0 <= i < |ps| && |ps[i].payload| > 255;
    assert ps[1..][i - 1] == ps[i];
  }

  lemma RestDiffers(p: Packet, r: Option<seq<Packet>>, rest: seq<Packet>)
    requires r != Some(rest)
    ensures r.Some? ==> [p] + r.value != [p] + rest
  {
    if r.Some? { assert ([p] + r.value)[1..] == r.value && ([p] + rest)[1..] == rest; }
  }

  /** The first frame is cut off whole when it fits, and short when it does not. */
  lemma FirstFrame(p: Packet, rest: seq<byte>)
    requires p.seqId < 256
    ensures var r := Deframe(Frame(p) + rest);
      if |p.payload| <= 255 then
        r == match Deframe(rest) case None => None case Some(ps) => Some([p] + ps)
      else r.Some? ==> r.value != [] && r.value[0] != p
  {
    var b := Frame(p) + rest;
    var n := |p.payload| % 256;
    FrameSlices(p, rest);
    assert Octet(b, 0) + 256 * Octet(b, 1) + 0x1_0000 * Octet(b, 2) == n;
  }

  lemma FrameSlices(p: Packet, rest: seq<byte>)
    requires p.seqId < 256
    ensures var b, n := Frame(p) + rest, |p.payload| % 256;
      && |b| == 4 + |p.payload| + |rest| && n <= |p.payload|
      && b[0] == n && b[1] == 0 && b[2] == 0 && b[3] == p.seqId
      && b[4..4 + n] == p.payload[..n]
      && (|p.payload| <= 255 ==> b[4..4 + n] == p.payload && b[4 + n..] == rest)
  {
    var b, n := Frame(p) + rest, |p.payload| % 256;
    assert b[4..] == p.payload + rest;
    assert b[4..4 + n] == p.payload[..n];
    if |p.payload| <= 255 { assert p.payload[..n] == p.payload && b[4 + n..] == rest; }
  }

  // ---------------------------------------------------------------- the emitted packets

  /** The field packet of a column. */
  function FieldOf(col: Text, table: Text, db: Text): Field {
    Field(col, TYPE_VARCHAR, table, table, db, col, 80, 33, 0, 0)
  }

  function Fields(cols: seq<Text>, table: Text, db: Text): (r: seq<Field>)
    ensures |r| == |cols|
  {
    seq(|cols|, i requires 0 <= i < |cols| => FieldOf(cols[i], table, db))
  }

  function FieldPayloads(cols: seq<Text>, table: Text, db: Text): (r: seq<seq<byte>>)
    ensures |r| == |cols|
  {
    seq(|cols|, i requires 0 <= i < |cols| => PackField(FieldOf(cols[i], table, db)))
  }

  function RowPayloads(rows: seq<seq<Text>>): (r: seq<seq<byte>>)
    ensures |r| == |rows|
  {
    seq(|rows|, i requires 0 <= i < |rows| => PackRow(rows[i]))
  }

  /** Header, fields, EOF, rows, EOF. The column count is a `uint8_t`, and so is the loop's bound. */
  function Payloads(cols: seq<Text>, table: Text, db: Text, rows: seq<seq<Text>>): seq<seq<byte>> {
    var n := |cols| % 256;
    [[n as byte]] + FieldPayloads(cols[..n], table, db) + [PackEof(0, 2)] + RowPayloads(rows) + [PackEof(0, 2)]
  }

  /** Sequence numbers from `from` on, modulo 256. */
  function Numbered(payloads: seq<seq<byte>>, from: nat): (r: seq<Packet>)
    ensures |r| == |payloads|
  {
    seq(|payloads|, i requires 0 <= i < |payloads| => Packet((from + i) % 256, payloads[i]))
  }

  function Emitted(cols: seq<Text>, table: Text, db: Text, rows: seq<seq<Text>>): seq<Packet> {
    Numbered(Payloads(cols, table, db, rows), 1)
  }

  // ---------------------------------------------------------------- the client

  datatype ResultSet = ResultSet(fields: seq<Field>, rows: seq<seq<Text>>)

  function ReadFields(ps: seq<Packet>): Option<seq<Field>> {
    if ps == [] then Some([]) else
    match (ReadFields(ps[..|ps| - 1]), UnpackField(ps[|ps| - 1].payload))
    case (Some(fields), Got(f, _)) => Some(fields + [f])
    case _ => None
  }

  /** The rows up to the closing EOF packet, which must be the last. */
  function ReadRows(ps: seq<Packet>, n: nat): Option<seq<seq<Text>>> {
    if ps == [] then None
    else if IsEof(ps[0].payload) then if |ps| == 1 then Some([]) else None
    else
      match (UnpackRow(ps[0].payload, 0, n), ReadRows(ps[1..], n))
      case (Got(row, _), Some(rows)) => Some([row] + rows)
      case _ => None
  }

  /** A result set: a column count, that many fields, EOF, rows, EOF; numbered from 1 on. */
  function Client(ps: seq<Packet>): Option<ResultSet> {
    if ps == [] || !(forall i :: 0 <= i < |ps| ==> ps[i].seqId == (1 + i) % 256) then None else
    match GetLen(ps[0].payload, 0)
    case Undefined => None
    case Got(n, _) =>
      if |ps| < n + 2 || !IsEof(ps[n + 1].payload) then None else
      match (ReadFields(ps[1..n + 1]), ReadRows(ps[n + 2..], n))
      case (Some(fields), Some(rows)) => Some(ResultSet(fields, rows))
      case _ => None
  }

  lemma {:induction false} FieldsRead(ps: seq<Packet>, cols: seq<Text>, table: Text, db: Text)
    requires |ps| == |cols|
    requires forall i :: 0 <= i < |ps| ==> ps[i].payload == PackField(FieldOf(cols[i], table, db)) && |ps[i].payload| <= 255
    ensures ReadFields(ps) == Some(Fields(cols, table, db))
  {
    hide PackField, UnpackField;
    if ps != [] {
      var n := |ps| - 1;
      FieldsRead(ps[..n], cols[..n], table, db);
      ShortField(FieldOf(cols[n], table, db));
      assert Fields(cols, table, db) == Fields(cols[..n], table, db) + [FieldOf(cols[n], table, db)];
    } else {
      assert Fields(cols, table, db) == [];
    }
  }

  /** A field packet of up to 255 bytes holds short strings. */
  lemma {:induction false} ShortField(f: Field)
    requires |PackField(f)| <= 255 && Uint32s(f) && TailPackable(f)
    ensures UnpackField(PackField(f)).Got? && UnpackField(PackField(f)).value == f
  {
    hide FieldTail, UnpackField, LenEnc, TailPackable;
    FieldRoundTripsExactly(f);
  }

  lemma {:induction false} RowsRead(ps: seq<Packet>, rows: seq<seq<Text>>, n: nat)
    requires |ps| == |rows| + 1 && ps[|rows|].payload == PackEof(0, 2)
    requires forall i :: 0 <= i < |rows| ==> ps[i].payload == PackRow(rows[i]) && |ps[i].payload| <= 255 && |rows[i]| == n
    ensures ReadRows(ps, n) == Some(rows)
    decreases |rows|
  {
    hide PackRow, UnpackRow;
    if rows != [] {
      RowIsNotEof(rows[0]);
      ShortRow(rows[0]);
      RowsRead(ps[1..], rows[1..], n);
      assert rows == [rows[0]] + rows[1..];
    }
  }

  lemma ShortRow(row: seq<Text>)
    requires |PackRow(row)| <= 255
    ensures UnpackRow(PackRow(row), 0, |row|).Got? && UnpackRow(PackRow(row), 0, |row|).value == row
  {
    hide UnpackRow;
    CellsFit(row);
    RowRoundTripsExactly(row);
  }

  lemma {:induction false} CellsFit(row: seq<Text>)
    ensures forall i :: 0 <= i < |row| ==> |row[i]| <= |PackRow(row)|
  {
    if row != [] {
      CellsFit(row[1..]);
      forall i | 0 <= i < |row| ensures |row[i]| <= |PackRow(row)| {
        if i > 0 { assert row[i] == row[1..][i - 1]; }
      }
    }
  }

  /** Fewer than 251 columns, as many cells in every row, and no payload over 255 bytes. */
  predicate Sendable(cols: seq<Text>, table: Text, db: Text, rows: seq<seq<Text>>) {
    && |cols| < 251 && (forall i :: 0 <= i < |rows| ==> |rows[i]| == |cols|)
    && Fits(Emitted(cols, table, db, rows))
  }

  /** Where the parts of the emitted list are. */
  lemma EmittedParts(cols: seq<Text>, table: Text, db: Text, rows: seq<seq<Text>>)
    ensures var ps, n := Emitted(cols, table, db, rows), |cols| % 256;
      && |ps| == n + 3 + |rows|
      && ps[0].payload == [n as byte] && ps[n + 1].payload == PackEof(0, 2) && ps[n + 2 + |rows|].payload == PackEof(0, 2)
      && (forall k :: 1 <= k <= n ==> ps[k].payload == PackField(FieldOf(cols[k - 1], table, db)))
      && (forall k :: n + 2 <= k < n + 2 + |rows| ==> ps[k].payload == PackRow(rows[k - n - 2]))
      && (forall k :: 0 <= k < |ps| ==> ps[k].seqId == (1 + k) % 256)
  {
    hide PackField, PackRow, PackEof, FieldOf;
  }

  /** From the bytes on the wire a client recovers every field name, field type and cell, in
      packets numbered 1, 2, 3, ... modulo 256. */
  lemma {:induction false} ResultSetRoundTrips(cols: seq<Text>, table: Text, db: Text, rows: seq<seq<Text>>)
    requires Sendable(cols, table, db, rows)
    ensures Deframe(Frames(Emitted(cols, table, db, rows))) == Some(Emitted(cols, table, db, rows))
    ensures var got := Client(Emitted(cols, table, db, rows));
      && got.Some? && got.value.rows == rows && |got.value.fields| == |cols|
      && forall i :: 0 <= i < |cols| ==>
           got.value.fields[i] == Field(cols[i], 6165, table, table, db, cols[i], 80, 33, 0, 0)
  {
    FieldsAre(cols, table, db);
    hide PackField, PackRow, PackEof, IsEof, Frames, Deframe, Emitted, ReadFields, ReadRows, FieldOf, Fields, Client, GetLen;
    var ps, n := Emitted(cols, table, db, rows), |cols|;
    EmittedNumbers(cols, table, db, rows);
    DeframesExactly(ps);
    EmittedParts(cols, table, db, rows);
    var fieldPackets, rowPackets := ps[1..n + 1], ps[n + 2..];
    forall i | 0 <= i < n
      ensures fieldPackets[i].payload == PackField(FieldOf(cols[i], table, db)) && |fieldPackets[i].payload| <= 255
    {
      assert fieldPackets[i] == ps[1 + i];
    }
    FieldsRead(fieldPackets, cols, table, db);
    forall i | 0 <= i < |rows| ensures rowPackets[i].payload == PackRow(rows[i]) && |rowPackets[i].payload| <= 255 {
      assert rowPackets[i] == ps[n + 2 + i];
    }
    RowsRead(rowPackets, rows, n);
    ClientReads(ps, n, Fields(cols, table, db), rows);
  }

  lemma FieldsAre(cols: seq<Text>, table: Text, db: Text)
    ensures forall i :: 0 <= i < |cols| ==>
      Fields(cols, table, db)[i] == Field(cols[i], 6165, table, table, db, cols[i], 80, 33, 0, 0)
  {}

  lemma ClientReads(ps: seq<Packet>, n: nat, fields: seq<Field>, rows: seq<seq<Text>>)
    requires n <= 250 && |ps| >= n + 2 && ps[0].payload == [n as byte] && ps[n + 1].payload == PackEof(0, 2)
    requires forall i :: 0 <= i < |ps| ==> ps[i].seqId == (1 + i) % 256
    requires ReadFields(ps[1..n + 1]) == Some(fields) && ReadRows(ps[n + 2..], n) == Some(rows)
    ensures Client(ps) == Some(ResultSet(fields, rows))
  {
    hide ReadFields, ReadRows;
    assert GetLen([n as byte], 0) == Got(n, 1);
  }

  lemma EmittedNumbers(cols: seq<Text>, table: Text, db: Text, rows: seq<seq<Text>>)
    ensures var ps := Emitted(cols, table, db, rows);
      Byte(ps) && forall i :: 0 <= i < |ps| ==> ps[i].seqId == (1 + i) % 256
  {
    hide Payloads;
  }
}
