/**
 The two byte paths of network/stream_socket.cc. The kernel is a parameter of each call: it
 may take or give any number of bytes, block, or fail.
 */
module StreamSockets {
  import opened Bytes
  import opened Common
  import opened SendQueue
  import opened AsyncBuffers
  import opened CircularBuffers
  import UnboundedBuffers

  const ERRORSOCKET: int := -1
  const EOFSOCKET: int := -2

  /** What `writev` answers. */
  datatype WriteResult = Took(n: nat) | WriteBlocks | WriteFails

  /** What `readv` answers; no bytes mean the peer closed. */
  datatype ReadResult = Gave(data: seq<byte>) | ReadBlocks | ReadFails

  // ---------------------------------------------------------------- sending, on values

  datatype SendSide = SendSide(queue: Sender, epollOut: bool)

  datatype SocketOp =
    | Packet(data: seq<byte>)
    | SendNow(lockFree: bool, kernel: WriteResult)
    | Writeable(lockFree: bool, kernel: WriteResult)

  /** The kernel never takes more than it is offered. */
  predicate Fits(s: SendSide, op: SocketOp) {
    !op.Packet? && op.kernel.Took? ==> op.kernel.n <= |ProcessFrom(s.queue, op.lockFree).offered|
  }

  /** The `writev` result: what leaves the queue, and whether EPOLLOUT is wanted afterwards. */
  function Flushed(q: Sender, epollOut: bool, kernel: WriteResult): SendSide
    requires Inv(q) && (kernel.Took? ==> kernel.n <= |q.offered|)
  {
    match kernel
    case WriteBlocks => SendSide(q, true)
    case WriteFails => SendSide(q, epollOut)
    case Took(n) =>
      if n == 0 then SendSide(q, epollOut)
      else SendSide(SkipFrom(q, n), n < |q.offered|)
  }

  function SocketStep(s: SendSide, op: SocketOp): SendSide
    requires Inv(s.queue) && Fits(s, op)
  {
    match op
    case Packet(data) => if data == [] then s else s.(queue := WriteTo(s.queue, data))
    case SendNow(lockFree, kernel) =>
      if s.epollOut then s else
      StepKeeps(s.queue, Process(lockFree));
      var q := ProcessFrom(s.queue, lockFree);
      if q.offered == [] then s.(queue := q) else Flushed(q, s.epollOut, kernel)
    case Writeable(lockFree, kernel) =>
      StepKeeps(s.queue, Process(lockFree));
      var q := ProcessFrom(s.queue, lockFree);
      if q.offered == [] then SendSide(q, false) else Flushed(q, s.epollOut, kernel)
  }

  /** The queue is consistent, and EPOLLOUT is only asked for while bytes are pending. */
  predicate SocketInv(s: SendSide) {
    Inv(s.queue) && (s.epollOut ==> s.queue.Pending() != [])
  }

  lemma {:induction false} FlushKeeps(q: Sender, epollOut: bool, kernel: WriteResult)
    requires Inv(q) && q.offered != [] && (kernel.Took? ==> kernel.n <= |q.offered|)
    ensures SocketInv(Flushed(q, epollOut, kernel)) && Flushed(q, epollOut, kernel).queue.written == q.written
  {
    assert q.Pending() != [];
    if kernel.Took? && kernel.n > 0 {
      SkipKeeps(q, kernel.n);
      var q' := SkipFrom(q, kernel.n);
      if kernel.n < |q.offered| {
        assert q'.tmp != [] || q'.ring != [];
        assert |q'.Pending()| > 0;
      }
    }
  }

  lemma {:induction false} SocketStepKeeps(s: SendSide, op: SocketOp)
    requires SocketInv(s) && Fits(s, op)
    ensures SocketInv(SocketStep(s, op))
    ensures SocketStep(s, op).queue.written == s.queue.written + if op.Packet? then op.data else []
  {
    assert s.queue.written + [] == s.queue.written;
    if op.Packet? {
      WriteKeeps(s.queue, op.data);
      assert |WriteTo(s.queue, op.data).Pending()| == |s.queue.Pending()| + |op.data|;
    } else {
      StepKeeps(s.queue, Process(op.lockFree));
      var q := ProcessFrom(s.queue, op.lockFree);
      if q.offered != [] {
        FlushKeeps(q, s.epollOut, op.kernel);
      }
    }
  }

  /** Whether the poller is asked for EPOLLOUT after an attempt that has bytes to offer: yes when
      the kernel blocks or takes a part, no when it takes all, and as before when it fails or
      takes nothing. A Send while EPOLLOUT is on waits for the event, and a packet changes nothing
      but what is pending. */
  lemma {:induction false} EpollOutFollows(s: SendSide, op: SocketOp)
    requires SocketInv(s) && Fits(s, op)
    ensures op.Packet? ==> var t := SocketStep(s, op);
      t.epollOut == s.epollOut && t.queue.Pending() == s.queue.Pending() + op.data && t.queue.wire == s.queue.wire
    ensures !op.Packet? ==>
      var offer, on := ProcessFrom(s.queue, op.lockFree).offered, SocketStep(s, op).epollOut;
      if op.SendNow? && s.epollOut then SocketStep(s, op) == s
      else if offer == [] then on == (op.SendNow? && s.epollOut)
      else match op.kernel
        case WriteBlocks => on
        case Took(n) => if n == 0 then on == s.epollOut else on <==> n < |offer|
        case WriteFails => on == s.epollOut
  {
    if op.Packet? {
      assert s.queue.Pending() + [] == s.queue.Pending();
      Appended(s.queue.tmp, s.queue.ring, s.queue.back, op.data);
    } else {
      StepKeeps(s.queue, Process(op.lockFree));
    }
  }

  lemma Appended(a: seq<byte>, b: seq<byte>, c: seq<byte>, d: seq<byte>)
    ensures a + b + (c + d) == a + b + c + d
    ensures c == [] ==> a + (b + d) + c == a + b + c + d
  {}

  ghost predicate Possible(s: SendSide, run: seq<SocketOp>)
    requires SocketInv(s)
    decreases |run|
  {
    run != [] ==>
      && Fits(s, run[0])
      && (SocketStepKeeps(s, run[0]); Possible(SocketStep(s, run[0]), run[1..]))
  }

  ghost function After(s: SendSide, run: seq<SocketOp>): SendSide
    requires SocketInv(s) && Possible(s, run)
    decreases |run|
  {
    if run == [] then s else
    SocketStepKeeps(s, run[0]);
    After(SocketStep(s, run[0]), run[1..])
  }

  function Packets(run: seq<SocketOp>): seq<byte> {
    if run == [] then [] else (if run[0].Packet? then run[0].data else []) + Packets(run[1..])
  }

  /** Over every run of SendPacket, Send and EPOLLOUT events, with a kernel that takes any part
      of any offer, blocks or fails: what is on the wire is a prefix of the packets in order,
      the rest is pending, and EPOLLOUT is never left on with nothing to send. */
  lemma {:induction false} SocketSendIsFifo(s: SendSide, run: seq<SocketOp>)
    requires SocketInv(s) && Possible(s, run)
    ensures var t := After(s, run);
      && t.queue.wire + t.queue.Pending() == s.queue.written + Packets(run)
      && (t.epollOut ==> t.queue.Pending() != [])
    decreases |run|
  {
    if run == [] {
      assert s.queue.written + [] == s.queue.written;
    } else {
      SocketStepKeeps(s, run[0]);
      SocketSendIsFifo(SocketStep(s, run[0]), run[1..]);
      Assoc(s.queue.written, if run[0].Packet? then run[0].data else [], Packets(run[1..]));
    }
  }

  // ---------------------------------------------------------------- receiving, on values

  /** One call of the message handler: what it was given and how much it said it consumed. */
  datatype Call = Call(msg: seq<byte>, used: int)

  type Handler = (nat, seq<byte>) -> int

  function Last(calls: seq<Call>): Call
    requires calls != []
  {
    calls[|calls| - 1]
  }

  /** The bytes a call leaves. */
  function Left(c: Call): seq<byte>
    requires c.used <= |c.msg|
  {
    c.msg[if c.used > 0 then c.used else 0..]
  }

  /** The calls start on all of `q`, each is given exactly what the one before left, answers as
      `handler` does, and each but the last consumes something; they leave `left`. */
  predicate Fed(q: seq<byte>, handler: Handler, calls: seq<Call>, left: seq<byte>)
    decreases |calls|
  {
    if calls == [] then left == q else
    var c, before := Last(calls), calls[..|calls| - 1];
    && Fed(q, handler, before, c.msg) && (before != [] ==> Last(before).used > 0)
    && c.msg != [] && c.used == handler(|before|, c.msg) <= |c.msg|
    && left == Left(c)
  }

  /** One whole DoMsgParse: it ends only with an empty queue or a handler that wants no more. */
  predicate Served(q: seq<byte>, handler: Handler, calls: seq<Call>, left: seq<byte>) {
    Fed(q, handler, calls, left) && (left == [] || (calls != [] && Last(calls).used <= 0))
  }

  function Consumed(calls: seq<Call>): (r: seq<byte>)
    requires forall c :: c in calls ==> c.used <= |c.msg|
  {
    if calls == [] then [] else
    Consumed(calls[..|calls| - 1]) + (if Last(calls).used > 0 then Last(calls).msg[..Last(calls).used] else [])
  }

  /** What the handler consumed, in call order, followed by what is left is what was there. */
  lemma {:induction false} FedConserves(q: seq<byte>, handler: Handler, calls: seq<Call>, left: seq<byte>)
    requires Fed(q, handler, calls, left)
    ensures forall c :: c in calls ==> c.used <= |c.msg|
    ensures Consumed(calls) + left == q
    decreases |calls|
  {
    if calls != [] {
      var c, before := Last(calls), calls[..|calls| - 1];
      FedConserves(q, handler, before, c.msg);
      var taken := if c.used > 0 then c.msg[..c.used] else [];
      assert c.msg == taken + left;
      assert calls == before + [c];
      Assoc(Consumed(before), taken, left);
    }
  }

  /** The calls one by one: the k-th answers as the handler does when asked for the k-th time, each
      is given what the one before left, and the handler is not asked again once it wants no more. */
  lemma {:induction false} FedInTurn(q: seq<byte>, handler: Handler, calls: seq<Call>, left: seq<byte>, k: nat)
    requires Fed(q, handler, calls, left) && k < |calls|
    ensures calls[k].used == handler(k, calls[k].msg) <= |calls[k].msg| && calls[k].msg != []
    ensures var rest := if k + 1 < |calls| then calls[k + 1].msg else left;
      rest == calls[k].msg[if calls[k].used > 0 then calls[k].used else 0..]
    ensures k + 1 < |calls| ==> calls[k].used > 0
    ensures calls[0].msg == q
    decreases |calls|
  {
    var c, before := Last(calls), calls[..|calls| - 1];
    if k < |before| {
      FedInTurn(q, handler, before, c.msg, k);
    } else if before != [] {
      FedInTurn(q, handler, before, c.msg, 0);
    }
  }

  // ---------------------------------------------------------------- the socket

  /** `AttachedBuffer(datum)`: one segment is used in place, two are copied together; the
      readable size is again a masked distance. */
  method Attach(datum: seq<seq<byte>>) returns (msg: seq<byte>)
    requires |datum| <= 2 && |Flatten(datum)| < 0x8000_0000
    ensures msg == Flatten(datum)
  {
    var all: seq<byte> := [];
    var i := 0;
    while i < |datum|
      invariant i <= |datum| && all == Flatten(datum[..i])
    {
      FlattenPrefix(datum, i);
      all := all + datum[i];
      i := i + 1;
    }
    assert datum[..i] == datum;
    var size := RoundUp2Power(|all| + 1);
    MaskIsRemainder(|all|, size, 0, |all|);
    msg := all[..And(|all|, size - 1)];
  }

  class StreamSocket {
    const sendBuf: AsyncBuffer
    const recvBuf: CircularBuffer
    var epollOut: bool
    var writing: bool
    ghost var received: seq<byte>
    ghost var consumed: seq<byte>

    ghost predicate SendValid()
      reads this, sendBuf, sendBuf.Repr()
    {
      sendBuf.Valid() && SocketInv(SendState())
    }

    ghost predicate RecvValid()
      reads this, recvBuf, recvBuf.buffer
    {
      recvBuf.Valid() && recvBuf.maxSize <= 0x8000_0000 && received == consumed + recvBuf.Contents()
    }

    ghost function SendState(): SendSide
      requires sendBuf.Valid()
      reads this, sendBuf, sendBuf.Repr()
    {
      SendSide(sendBuf.State(), epollOut)
    }

    /** The two directions share no buffer, so what one does leaves the other alone. */
    constructor ()
      ensures SendValid() && RecvValid() && received == [] && SendState().queue.written == []
      ensures {recvBuf, recvBuf.buffer} !! sendBuf.Repr()
    {
      sendBuf := new AsyncBuffer(128 * 1024);
      recvBuf := new CircularBuffer(0);
      epollOut, writing, received, consumed := false, false, [], [];
    }

    /** SendPacket: one contiguous piece. */
    method SendPacket(data: seq<byte>)
      requires SendValid()
      requires |sendBuf.backBuf.Contents()| + |data| <= UnboundedBuffers.MAX_BUFFER_SIZE
      modifies sendBuf`backBytes, sendBuf`written, sendBuf.ring`writePos, sendBuf.ring.buffer, sendBuf.backBuf
      ensures SendValid() && SendState() == SocketStep(old(SendState()), Packet(data))
    {
      SocketStepKeeps(SendState(), Packet(data));
      if |data| > 0 {
        FlattenOne(data);
        sendBuf.Write([data]);
      }
    }

    /** `_Send`: one `writev`, and whether EPOLLOUT is wanted after it. */
    method SendV(data: seq<seq<byte>>, kernel: WriteResult) returns (ret: int)
      requires |data| <= 16 && (kernel.Took? ==> kernel.n <= |Flatten(data)|)
      modifies this`epollOut
      ensures Flatten(data) == [] ==> ret == 0 && epollOut == old(epollOut)
      ensures Flatten(data) != [] ==>
        && ret == (match kernel case Took(n) => n case WriteBlocks => 0 case WriteFails => ERRORSOCKET)
        && epollOut == (match kernel
                        case Took(n) => if n == 0 then old(epollOut) else n < |Flatten(data)|
                        case WriteBlocks => true
                        case WriteFails => old(epollOut))
    {
      var total := CountBytes(data);
      if total == 0 { return 0; }
      match kernel {
        case WriteBlocks => ret := ERRORSOCKET;
        case WriteFails => ret := ERRORSOCKET;
        case Took(n) => ret := n;
      }
      if ret == ERRORSOCKET && kernel.WriteBlocks? {
        epollOut := true;
        ret := 0;
      } else if ret > 0 && ret < total {
        epollOut := true;
      } else if ret == total {
        epollOut := false;
      }
    }

    /** `_Send` of an offer and the Skip of what the kernel took. */
    method Flush(data: seq<seq<byte>>, kernel: WriteResult) returns (nSent: int)
      requires sendBuf.Valid() && Inv(sendBuf.State())
      requires |data| <= 2 && Flatten(data) == sendBuf.offered != []
      requires kernel.Took? ==> kernel.n <= |sendBuf.offered|
      modifies this`epollOut, sendBuf`offered, sendBuf`wire, sendBuf.tmpBuf, sendBuf.ring`readPos
      ensures sendBuf.Valid() && SendState() == Flushed(old(sendBuf.State()), old(epollOut), kernel)
      ensures nSent >= 0 <==> !kernel.WriteFails?
    {
      nSent := SendV(data, kernel);
      if nSent > 0 { sendBuf.Skip(nSent); }
    }

    /** ProcessBuffer and the size of what it offers. */
    method Offer(lockFree: bool) returns (bf: seq<seq<byte>>, total: nat)
      requires sendBuf.Valid() && Inv(sendBuf.State())
      modifies sendBuf`backBytes, sendBuf`offered, sendBuf.tmpBuf, sendBuf.backBuf
      ensures sendBuf.Valid() && Inv(sendBuf.State()) && sendBuf.State() == ProcessFrom(old(sendBuf.State()), lockFree)
      ensures |bf| <= 2 && Flatten(bf) == sendBuf.offered && total == |sendBuf.offered|
    {
      hide Inv, ProcessFrom, Flatten;
      StepKeeps(sendBuf.State(), Process(lockFree));
      bf := sendBuf.ProcessBuffer(lockFree);
      total := CountBytes(bf);
    }

    /** ProcessBuffer, and `_Send` with Skip when it offers anything. */
    method Attempt(lockFree: bool, kernel: WriteResult) returns (total: nat, nSent: int)
      requires sendBuf.Valid() && Inv(sendBuf.State()) && Fits(SendState(), Writeable(lockFree, kernel))
      modifies this`epollOut, sendBuf`backBytes, sendBuf`offered, sendBuf`wire
      modifies sendBuf.tmpBuf, sendBuf.backBuf, sendBuf.ring`readPos
      ensures sendBuf.Valid()
      ensures var q := ProcessFrom(old(sendBuf.State()), lockFree);
        && total == |q.offered|
        && Inv(q)
        && SendState() == if total == 0 then SendSide(q, old(epollOut)) else Flushed(q, old(epollOut), kernel)
      ensures nSent >= 0 <==> total == 0 || !kernel.WriteFails?
    {
      hide Inv, ProcessFrom, Flushed, Flatten;
      var bf;
      bf, total := Offer(lockFree);
      nSent := 0;
      if total > 0 { nSent := Flush(bf, kernel); }
    }

    /** One attempt; `writing` says whether the poller watches for EPOLLOUT, as EnableWrite and
        DisableWrite leave it. */
    method Send(lockFree: bool, kernel: WriteResult) returns (ok: bool)
      requires SendValid() && Fits(SendState(), SendNow(lockFree, kernel))
      modifies this`epollOut, this`writing, sendBuf`backBytes, sendBuf`offered, sendBuf`wire
      modifies sendBuf.tmpBuf, sendBuf.backBuf, sendBuf.ring`readPos
      ensures SendValid() && SendState() == SocketStep(old(SendState()), SendNow(lockFree, kernel))
      ensures ok <==> old(epollOut) || ProcessFrom(old(sendBuf.State()), lockFree).offered == [] || !kernel.WriteFails?
      ensures writing == (old(writing) || (epollOut && !old(epollOut)))
      ensures old(writing) == old(epollOut) ==> writing == epollOut
      ensures var offer := ProcessFrom(old(sendBuf.State()), lockFree).offered;
        && (offer != [] && (kernel.WriteBlocks? || (kernel.Took? && 0 < kernel.n < |offer|)) && !old(epollOut) ==> epollOut && writing)
        && (offer != [] && kernel == Took(|offer|) && !old(epollOut) ==> !epollOut)
    {
      hide Inv, ProcessFrom, Flushed;
      SocketStepKeeps(SendState(), SendNow(lockFree, kernel));
      EpollOutFollows(SendState(), SendNow(lockFree, kernel));
      if epollOut { return true; }
      var total, nSent := Attempt(lockFree, kernel);
      if total == 0 { return true; }
      if epollOut { writing := true; }
      return nSent >= 0;
    }

    /** The EPOLLOUT event: the poller goes on watching exactly while EPOLLOUT is wanted. */
    method OnWriteable(lockFree: bool, kernel: WriteResult) returns (ok: bool)
      requires SendValid() && Fits(SendState(), Writeable(lockFree, kernel))
      modifies this`epollOut, this`writing, sendBuf`backBytes, sendBuf`offered, sendBuf`wire
      modifies sendBuf.tmpBuf, sendBuf.backBuf, sendBuf.ring`readPos
      ensures SendValid() && SendState() == SocketStep(old(SendState()), Writeable(lockFree, kernel))
      ensures ok <==> ProcessFrom(old(sendBuf.State()), lockFree).offered == [] || !kernel.WriteFails?
      ensures writing == (old(writing) && epollOut)
      ensures var offer := ProcessFrom(old(sendBuf.State()), lockFree).offered;
        && (offer != [] && (kernel.WriteBlocks? || (kernel.Took? && 0 < kernel.n < |offer|)) ==> epollOut)
        && (offer == [] || kernel == Took(|offer|) ==> !epollOut && !writing)
    {
      hide Inv, ProcessFrom, Flushed;
      SocketStepKeeps(SendState(), Writeable(lockFree, kernel));
      EpollOutFollows(SendState(), Writeable(lockFree, kernel));
      var total, nSent := Attempt(lockFree, kernel);
      if total == 0 { epollOut := false; }
      if !epollOut { writing := false; }
      return nSent >= 0;
    }

    /** How many bytes the next Recv has room for: 64K before the first, and nothing when a
        single byte is free. */
    ghost function Room(): nat
      requires recvBuf.Valid()
      reads recvBuf, recvBuf.buffer, this
    {
      if recvBuf.maxSize == 0 then 0xFFFF else
      var free := recvBuf.maxSize - 1 - |recvBuf.Contents()|;
      if free <= 1 then 0 else free
    }

    /** Recv: a scatter read of any length into the free cells appends exactly those bytes. */
    method Recv(kernel: ReadResult) returns (ret: int)
      requires RecvValid() && (kernel.Gave? ==> |kernel.data| <= Room())
      modifies this`received, recvBuf, recvBuf.buffer
      ensures RecvValid()
      ensures ret == if old(Room()) == 0 then 0 else (match kernel
        case ReadBlocks => 0
        case ReadFails => ERRORSOCKET
        case Gave(data) => if data == [] then EOFSOCKET else |data|)
      ensures recvBuf.Contents() == old(recvBuf.Contents()) + (if ret > 0 then kernel.data else [])
      ensures received == old(received) + (if ret > 0 then kernel.data else [])
    {
      ghost var q := recvBuf.Contents();
      assert q + [] == q && received + [] == received;
      if recvBuf.maxSize == 0 { recvBuf.InitCapacity(64 * 1024); }
      var buffers := recvBuf.GetSpace();
      if |buffers| == 0 { return 0; }
      match kernel {
        case ReadBlocks => return 0;
        case ReadFails => return ERRORSOCKET;
        case Gave(data) =>
          if |data| == 0 { return EOFSOCKET; }
          recvBuf.ReadV(buffers, data);
          received := received + data;
          Assoc(consumed, q, data);
          return |data|;
      }
    }

    /** One round: the handler gets the exact contiguous contents, and what it consumed goes. */
    method ParseOnce(handler: Handler, k: nat) returns (bodyLen: int)
      requires RecvValid() && recvBuf.Contents() != [] && forall k, m :: handler(k, m) <= |m|
      modifies this`consumed, recvBuf`readPos
      ensures RecvValid() && bodyLen == handler(k, old(recvBuf.Contents()))
      ensures recvBuf.Contents() == old(recvBuf.Contents())[if bodyLen > 0 then bodyLen else 0..]
    {
      ghost var q := recvBuf.Contents();
      var readable := recvBuf.ReadableSize();
      var datum := recvBuf.GetDatum(readable, 0);
      assert Flatten(datum) == q;
      var msg := Attach(datum);
      bodyLen := handler(k, msg);
      if bodyLen > 0 {
        recvBuf.AdjustReadPtr(bodyLen);
        assert q == q[..bodyLen] + q[bodyLen..];
        Assoc(consumed, q[..bodyLen], q[bodyLen..]);
        consumed := consumed + msg[..bodyLen];
      }
    }

    /** DoMsgParse: calls the handler while it consumes. Any handler that consumes at most what
        it is given makes it terminate, and no byte is lost, repeated or reordered. */
    method DoMsgParse(handler: Handler) returns (busy: bool, ghost calls: seq<Call>)
      requires RecvValid() && forall k, m :: handler(k, m) <= |m|
      modifies this`consumed, recvBuf`readPos
      ensures RecvValid()
      ensures Served(old(recvBuf.Contents()), handler, calls, recvBuf.Contents())
      ensures busy <==> calls != [] && calls[0].used > 0
    {
      busy, calls := false, [];
      ghost var q := recvBuf.Contents();
      var k := 0;
      while !recvBuf.IsEmpty()
        invariant RecvValid() && k == |calls| && (busy <==> k > 0) && (busy ==> calls[0].used > 0)
        invariant Fed(q, handler, calls, recvBuf.Contents()) && (calls != [] ==> Last(calls).used > 0)
        decreases |recvBuf.Contents()|
      {
        ghost var left := recvBuf.Contents();
        var bodyLen := ParseOnce(handler, k);
        ghost var before := calls;
        calls := calls + [Call(left, bodyLen)];
        assert calls[..|calls| - 1] == before;
        if bodyLen <= 0 { break; }
        busy := true;
        k := k + 1;
      }
    }
  }
}
