/**
 The three-stage send queue of network/async_buffer.cc: `tmpBuf_` is sent first, then the ring
 `buffer_`, then `backBuf_`, which takes what the ring cannot.

 Each Write, ProcessBuffer and Skip is one atomic step here. `SplitProcessExactly` says
 when the order is lost if ProcessBuffer is not atomic.
 */
module SendQueue {
  import opened Bytes
  import opened Common

  /** The queue on values: `cap` is what the ring can hold, `offered` what the last
      ProcessBuffer handed to the sender, `wire` what has been sent, `written` what writers wrote. */
  datatype Sender = Sender(
    cap: nat, tmp: seq<byte>, ring: seq<byte>, back: seq<byte>,
    offered: seq<byte>, wire: seq<byte>, written: seq<byte>)
  {
    function Pending(): seq<byte> { tmp + ring + back }
  }

  /** `Process(lockFree)`: whether `try_lock` succeeds; `Skip(n)`: the kernel took `n` bytes. */
  datatype Op = Write(data: seq<byte>) | Process(lockFree: bool) | Skip(n: nat)

  function WriteTo(s: Sender, data: seq<byte>): Sender {
    if s.back != [] || s.cap - |s.ring| < |data|
    then s.(back := s.back + data, written := s.written + data)
    else s.(ring := s.ring + data, written := s.written + data)
  }

  function ProcessFrom(s: Sender, lockFree: bool): Sender {
    if s.tmp != [] then s.(offered := s.tmp)
    else if s.ring != [] then s.(offered := s.ring)
    else if s.back != [] && lockFree then s.(tmp := s.back, back := [], offered := s.back)
    else s.(offered := [])
  }

  function SkipFrom(s: Sender, n: nat): Sender
    requires n <= |s.offered| && n <= |if s.tmp != [] then s.tmp else s.ring|
  {
    var s' := if s.tmp != [] then s.(tmp := s.tmp[n..]) else s.(ring := s.ring[n..]);
    s'.(wire := s.wire + s.offered[..n], offered := [])
  }

  /** What the sender was offered is still at the front of the stage it came from. */
  predicate Inv(s: Sender) {
    && |s.ring| <= s.cap
    && s.written == s.wire + s.Pending()
    && s.offered <= if s.tmp != [] then s.tmp else s.ring
  }

  /** A sender skips no more than it was offered. */
  predicate Enabled(s: Sender, op: Op) { op.Skip? ==> op.n <= |s.offered| }

  function Apply(s: Sender, op: Op): Sender
    requires Inv(s) && Enabled(s, op)
  {
    match op
    case Write(data) => WriteTo(s, data)
    case Process(lockFree) => ProcessFrom(s, lockFree)
    case Skip(n) => SkipFrom(s, n)
  }

  lemma WriteKeeps(s: Sender, data: seq<byte>)
    requires Inv(s)
    ensures Inv(WriteTo(s, data))
  {
    var s' := WriteTo(s, data);
    Assoc(s.wire, s.Pending(), data);
    if s.back != [] || s.cap - |s.ring| < |data| {
      Assoc(s.tmp + s.ring, s.back, data);
    } else {
      NothingBehind(s.tmp, s.ring, data);
    }
  }

  lemma NothingBehind(a: seq<byte>, b: seq<byte>, c: seq<byte>)
    ensures a + b + [] + c == a + (b + c) + []
    ensures a + [] + b == a + b
  {}

  lemma SkipKeeps(s: Sender, n: nat)
    requires Inv(s) && n <= |s.offered|
    ensures Inv(SkipFrom(s, n))
  {
    var s' := SkipFrom(s, n);
    if s.tmp != [] {
      assert s.offered[..n] == s.tmp[..n] && s.tmp == s.tmp[..n] + s.tmp[n..];
      Move(s.wire, s.tmp[..n], s.tmp[n..], s.ring, s.back);
    } else {
      assert s.offered[..n] == s.ring[..n] && s.ring == s.ring[..n] + s.ring[n..];
      assert s.tmp + s.ring == s.ring && s.tmp + s.ring[n..] == s.ring[n..];
      Assoc(s.ring[..n], s.ring[n..], s.back);
      Assoc(s.wire, s.ring[..n], s.ring[n..] + s.back);
    }
  }

  lemma Move(w: seq<byte>, x: seq<byte>, a: seq<byte>, b: seq<byte>, c: seq<byte>)
    ensures w + ((x + a) + b + c) == (w + x) + (a + b + c)
    ensures w + (x + a + b + c) == (w + x) + (a + b + c)
  {}

  lemma {:induction false} StepKeeps(s: Sender, op: Op)
    requires Inv(s) && Enabled(s, op)
    ensures Inv(Apply(s, op))
  {
    match op
    case Write(data) => WriteKeeps(s, data);
    case Process(_) =>
      if s.tmp == [] && s.ring == [] {
        assert s.Pending() == s.back && s.back + [] + [] == s.back;
      }
    case Skip(n) => SkipKeeps(s, n);
  }

  /** Every `Skip` of the run stays within what was offered. */
  ghost predicate Possible(s: Sender, run: seq<Op>)
    requires Inv(s)
    decreases |run|
  {
    run != [] ==>
      && Enabled(s, run[0])
      && (StepKeeps(s, run[0]); Possible(Apply(s, run[0]), run[1..]))
  }

  ghost function After(s: Sender, run: seq<Op>): Sender
    requires Inv(s) && Possible(s, run)
    decreases |run|
  {
    if run == [] then s else
    StepKeeps(s, run[0]);
    After(Apply(s, run[0]), run[1..])
  }

  function Written(run: seq<Op>): seq<byte> {
    if run == [] then [] else (if run[0].Write? then run[0].data else []) + Written(run[1..])
  }

  /** First in, first out: however writes, offers and partial sends interleave, writes between
      an offer and its skip included, the bytes on the wire followed by the three stages are
      exactly the bytes written, in order. */
  lemma {:induction false} SendIsFifo(s: Sender, run: seq<Op>)
    requires Inv(s) && Possible(s, run)
    ensures var t := After(s, run);
      t.wire + t.tmp + t.ring + t.back == s.written + Written(run)
  {
    RunKeeps(s, run);
    var t := After(s, run);
    Regroup4(t.wire, t.tmp, t.ring, t.back);
  }

  lemma {:induction false} RunKeeps(s: Sender, run: seq<Op>)
    requires Inv(s) && Possible(s, run)
    ensures Inv(After(s, run)) && After(s, run).written == s.written + Written(run)
    decreases |run|
  {
    if run == [] {
      assert s.written + [] == s.written;
    } else {
      StepKeeps(s, run[0]);
      RunKeeps(Apply(s, run[0]), run[1..]);
      var d := if run[0].Write? then run[0].data else [];
      assert s.written + [] == s.written;
      assert Apply(s, run[0]).written == s.written + d;
      Assoc(s.written, d, Written(run[1..]));
    }
  }

  /** Nothing is left behind: ProcessBuffer offers something exactly when something is pending,
      or, while the lock is taken, when something is pending in front of the back buffer, which
      then stays where it is. What it offers is next in line, and no byte is lost. */
  lemma OffersExactly(s: Sender, lockFree: bool)
    requires Inv(s)
    ensures var q := ProcessFrom(s, lockFree);
      && (q.offered != [] <==> (if lockFree then s.Pending() else s.tmp + s.ring) != [])
      && q.Pending() == s.Pending() && q.offered <= s.Pending()
      && (!lockFree || s.tmp + s.ring != [] ==> q.tmp == s.tmp && q.ring == s.ring && q.back == s.back)
  {
    if s.tmp == [] && s.ring == [] { assert [] + [] + s.back == s.back == s.back + [] + []; }
    assert s.tmp <= s.Pending() && (s.tmp == [] ==> s.ring <= s.Pending());
  }

  /** One offer that the kernel takes whole empties the first stage that has something. */
  function Round(s: Sender): (r: Sender)
    requires Inv(s)
    ensures Inv(r) && r.tmp == []
    ensures r.ring == (if s.tmp == [] then [] else s.ring)
    ensures r.back == (if s.tmp == [] && s.ring == [] then [] else s.back)
  {
    StepKeeps(s, Process(true));
    var s' := ProcessFrom(s, true);
    SkipKeeps(s', |s'.offered|);
    SkipFrom(s', |s'.offered|)
  }

  /** Three such rounds drain everything onto the wire. */
  lemma ThreeRoundsDrain(s: Sender)
    requires Inv(s)
    ensures Round(Round(Round(s))).Pending() == []
    ensures Round(Round(Round(s))).wire == s.written
  {
    var r := Round(Round(Round(s)));
    assert r.wire + [] == r.wire;
  }

  /** The swap of ProcessBuffer, when writers came between its ring-empty test and it. */
  function LateSwap(u: Sender): Sender { u.(tmp := u.back, back := [], offered := u.back) }

  predicate InOrder(s: Sender) { s.written == s.wire + s.Pending() }

  function Lengths(writes: seq<Op>): seq<nat> {
    if writes == [] then [] else [if writes[0].Write? then |writes[0].data| else 0] + Lengths(writes[1..])
  }

  /** Writes of these lengths, whatever their bytes. */
  predicate OfLengths(writes: seq<Op>, lens: seq<nat>) {
    (forall i :: 0 <= i < |writes| ==> writes[i].Write?) && Lengths(writes) == lens
  }

  function Total(lens: seq<nat>): nat { if lens == [] then 0 else lens[0] + Total(lens[1..]) }

  /** The first length that is not 0; 0 when there is none. */
  function First(lens: seq<nat>): nat { if lens == [] then 0 else if lens[0] > 0 then lens[0] else First(lens[1..]) }

  /** How many bytes are in the ring and in the back buffer after writes of these lengths. */
  function Fill(cap: nat, ring: nat, back: nat, lens: seq<nat>): (nat, nat)
    decreases |lens|
  {
    if lens == [] then (ring, back)
    else if back > 0 || cap < ring + lens[0] then Fill(cap, ring, back + lens[0], lens[1..])
    else Fill(cap, ring + lens[0], back, lens[1..])
  }

  lemma {:induction false} FillTotals(cap: nat, ring: nat, back: nat, lens: seq<nat>)
    requires ring <= cap
    ensures var (r, b) := Fill(cap, ring, back, lens);
      && r >= ring && b >= back && (back > 0 ==> r == ring)
      && (b == 0 <==> back == 0 && ring + Total(lens) <= cap)
    decreases |lens|
  {
    if lens != [] {
      if back > 0 || cap < ring + lens[0] {
        FillTotals(cap, ring, back + lens[0], lens[1..]);
      } else {
        FillTotals(cap, ring + lens[0], back, lens[1..]);
      }
    }
  }

  lemma {:induction false} RingStaysEmpty(cap: nat, lens: seq<nat>)
    ensures Fill(cap, 0, 0, lens).0 == 0 <==> First(lens) == 0 || First(lens) > cap
  {
    if lens != [] {
      if lens[0] == 0 {
        RingStaysEmpty(cap, lens[1..]);
      } else if lens[0] > cap {
        FillTotals(cap, 0, lens[0], lens[1..]);
      } else {
        FillTotals(cap, lens[0], 0, lens[1..]);
      }
    }
  }

  /** Writes of the lengths fill the stages as counted, and can always happen. */
  lemma {:induction false} WritesFill(s: Sender, writes: seq<Op>)
    requires Inv(s) && forall i :: 0 <= i < |writes| ==> writes[i].Write?
    ensures Possible(s, writes) && After(s, writes).tmp == s.tmp
    ensures (|After(s, writes).ring|, |After(s, writes).back|) == Fill(s.cap, |s.ring|, |s.back|, Lengths(writes))
    decreases |writes|
  {
    if writes != [] {
      StepKeeps(s, writes[0]);
      WritesFill(Apply(s, writes[0]), writes[1..]);
    }
  }

  predicate Only(bytes: seq<byte>, b: byte) { forall i :: 0 <= i < |bytes| ==> bytes[i] == b }

  /** Writes of the lengths that put 1s into the ring and 2s into the overflow. */
  lemma {:induction false} Marked(s: Sender, lens: seq<nat>) returns (writes: seq<Op>)
    requires Inv(s) && Only(s.ring, 1) && Only(s.back, 2)
    ensures OfLengths(writes, lens) && Possible(s, writes)
    ensures Only(After(s, writes).ring, 1) && Only(After(s, writes).back, 2)
    decreases |lens|
  {
    if lens == [] {
      writes := [];
    } else {
      var mark: byte := if s.back != [] || s.cap - |s.ring| < lens[0] then 2 else 1;
      var op := Write(seq(lens[0], _ => mark));
      StepKeeps(s, op);
      var rest := Marked(Apply(s, op), lens[1..]);
      writes := [op] + rest;
      assert writes[1..] == rest && [lens[0]] + lens[1..] == lens;
    }
  }

  /** The order is kept exactly when the overflow and the ring commute. */
  lemma {:induction false} LateSwapOrders(s: Sender, writes: seq<Op>)
    requires Inv(s) && Possible(s, writes) && After(s, writes).tmp == []
    ensures var u := After(s, writes);
      InOrder(LateSwap(u)) <==> u.back + u.ring == u.ring + u.back
  {
    RunKeeps(s, writes);
    var u := After(s, writes);
    var t := LateSwap(u);
    assert u.Pending() == u.ring + u.back && t.Pending() == u.back + u.ring;
    assert (u.wire + t.Pending())[|u.wire|..] == t.Pending();
    assert (u.wire + u.Pending())[|u.wire|..] == u.Pending();
  }

  /** Why ProcessBuffer must be atomic: its ring-empty test passes, writers write, then it swaps.
      Whatever bytes are written in pieces of these lengths, the order survives exactly when
      something had overflowed before, or all the pieces fit the ring, or the first of them does
      not. */
  lemma {:induction false} SplitProcessExactly(s: Sender, lens: seq<nat>)
    requires Inv(s) && s.tmp == [] && s.ring == []
    ensures (forall writes :: OfLengths(writes, lens) && Possible(s, writes) ==> InOrder(LateSwap(After(s, writes))))
        <==> s.back != [] || Total(lens) <= s.cap || First(lens) > s.cap
  {
    hide Inv, LateSwap, InOrder;
    var (r, b) := Fill(s.cap, 0, |s.back|, lens);
    FillTotals(s.cap, 0, |s.back|, lens);
    if s.back == [] { RingStaysEmpty(s.cap, lens); NoLengths(lens); }
    if r > 0 && b > 0 {
      var writes := Marked(s, lens);
      WritesFill(s, writes);
      LateSwapOrders(s, writes);
      var u := After(s, writes);
      assert (u.back + u.ring)[0] == 2 && (u.ring + u.back)[0] == 1;
    } else {
      forall writes | OfLengths(writes, lens) && Possible(s, writes) ensures InOrder(LateSwap(After(s, writes))) {
        WritesFill(s, writes);
        LateSwapOrders(s, writes);
        var u := After(s, writes);
        assert if u.ring == [] then u.back + u.ring == u.ring + u.back else u.back == [] && u.back + u.ring == u.ring + u.back;
      }
    }
  }

  /** A write that fills a ring of any size, and one byte more, can lose the order. */
  lemma SplitProcessLosesOrder(cap: nat)
    requires cap > 0
    ensures var s := Sender(cap, [], [], [], [], [], []);
      exists writes :: OfLengths(writes, [cap, 1]) && Possible(s, writes) && !InOrder(LateSwap(After(s, writes)))
  {
    assert [cap, 1][1..] == [1] && [1][1..] == [];
    assert Total([cap, 1]) == cap + 1 && First([cap, 1]) == cap;
    SplitProcessExactly(Sender(cap, [], [], [], [], [], []), [cap, 1]);
  }

  lemma {:induction false} NoLengths(lens: seq<nat>)
    ensures First(lens) == 0 <==> Total(lens) == 0
  {
    if lens != [] { NoLengths(lens[1..]); }
  }
}

/** The send queue as the source keeps it: a ring and two linear buffers, updated in place. */
module AsyncBuffers {
  import opened Bytes
  import opened Common
  import opened SendQueue
  import opened CircularBuffers
  import opened UnboundedBuffers

  class AsyncBuffer {
    const ring: CircularBuffer
    const tmpBuf: UnboundedBuffer
    const backBuf: UnboundedBuffer
    var backBytes: nat
    ghost var offered: seq<byte>
    ghost var wire: seq<byte>
    ghost var written: seq<byte>

    ghost function Repr(): set<object>
      reads this, ring
    {
      {this, ring, ring.buffer, tmpBuf, backBuf}
    }

    ghost predicate Valid()
      reads this, Repr()
    {
      && tmpBuf != backBuf
      && ring.Valid() && 0 < ring.maxSize <= 0x8000_0000 && tmpBuf.Valid() && backBuf.Valid()
      && backBytes == |backBuf.Contents()|
    }

    ghost function State(): Sender
      requires Valid()
      reads Repr()
    {
      Sender(ring.maxSize - 1, tmpBuf.Contents(), ring.Contents(), backBuf.Contents(), offered, wire, written)
    }

    constructor (size: nat)
      requires 0 < size <= 0x8000_0000
      ensures Valid() && fresh(Repr())
      ensures State() == Sender(ring.maxSize - 1, [], [], [], [], [], []) && ring.maxSize >= size
    {
      Pow2Of31();
      ring := new CircularBuffer(size);
      tmpBuf := new UnboundedBuffer();
      backBuf := new UnboundedBuffer();
      backBytes := 0;
      offered, wire, written := [], [], [];
    }

    method PushToBack(data: seq<seq<byte>>)
      requires Valid() && |backBuf.Contents()| + |Flatten(data)| <= MAX_BUFFER_SIZE
      modifies backBuf
      ensures backBuf.Valid() && backBuf.Contents() == old(backBuf.Contents()) + Flatten(data)
    {
      ghost var before := backBuf.Contents();
      var i := 0;
      assert before + [] == before;
      while i < |data|
        invariant i <= |data| && backBuf.Valid()
        invariant backBuf.Contents() == before + Flatten(data[..i])
      {
        FlattenPrefix(data, i);
        var n := backBuf.PushData(data[i]);
        assert data[i][..n] == data[i];
        Assoc(before, Flatten(data[..i]), data[i]);
        i := i + 1;
      }
      assert data[..i] == data;
    }

    method PushToRing(data: seq<seq<byte>>)
      requires Valid() && |Flatten(data)| <= ring.maxSize - 1 - |ring.Contents()|
      modifies ring`writePos, ring.buffer
      ensures ring.Valid() && ring.Contents() == old(ring.Contents()) + Flatten(data)
    {
      ghost var before := ring.Contents();
      var i := 0;
      assert before + [] == before;
      while i < |data|
        invariant i <= |data| && ring.Valid()
        invariant ring.Contents() == before + Flatten(data[..i])
      {
        FlattenPrefix(data, i);
        var ok := ring.PushData(data[i]);
        assert ok;
        Assoc(before, Flatten(data[..i]), data[i]);
        i := i + 1;
      }
      assert data[..i] == data;
    }

    /** Writes the segments of one iovec array, at most 16, whole into the ring or whole into
        the back buffer. */
    method Write(data: seq<seq<byte>>)
      requires Valid() && |data| <= 16
      requires |backBuf.Contents()| + |Flatten(data)| <= MAX_BUFFER_SIZE
      modifies this`backBytes, this`written, ring`writePos, ring.buffer, backBuf
      ensures Valid() && State() == WriteTo(old(State()), Flatten(data))
    {
      hide Cells, Ahead, IsPow2, Flatten;
      var len := CountBytes(data);
      written := written + Flatten(data);
      var writeable := ring.WriteableSize();
      if backBytes > 0 || writeable < len {
        PushToBack(data);
        backBytes := backBytes + len;
        assert backBytes == backBuf.ReadableSize();
      } else {
        assert backBytes == 0 && writeable >= len;
        PushToRing(data);
      }
    }

    /** Offers the sender the first stage that has something, swapping the back buffer in when
        only it does and its lock is free. */
    method ProcessBuffer(lockFree: bool) returns (data: seq<seq<byte>>)
      requires Valid()
      modifies this`backBytes, this`offered, tmpBuf, backBuf
      ensures Valid() && State() == ProcessFrom(old(State()), lockFree)
      ensures |data| <= 2 && Flatten(data) == offered == ProcessFrom(old(State()), lockFree).offered
    {
      hide Cells, Ahead, IsPow2;
      data := [];
      if !tmpBuf.IsEmpty() {
        data := [tmpBuf.buffer[tmpBuf.readPos..tmpBuf.writePos]];
        FlattenOne(data[0]);
      } else if !ring.IsEmpty() {
        var nLen := ring.ReadableSize();
        data := ring.GetDatum(nLen, 0);
        assert Flatten(data) == ring.Contents();
      } else if backBytes > 0 && lockFree {
        backBytes := 0;
        tmpBuf.Swap(backBuf);
        data := [tmpBuf.buffer[tmpBuf.readPos..tmpBuf.writePos]];
        FlattenOne(data[0]);
      }
      offered := Flatten(data);
    }

    /** Drops `size` bytes the kernel took from what was offered. */
    method Skip(size: nat)
      requires Valid() && SendQueue.Inv(State()) && size <= |offered|
      modifies this`offered, this`wire, tmpBuf, ring`readPos
      ensures Valid() && State() == SkipFrom(old(State()), size)
    {
      hide SendQueue.Inv, Cells, Ahead, IsPow2;
      SkipFits(State(), size);
      wire, offered := wire + offered[..size], [];
      if !tmpBuf.IsEmpty() {
        tmpBuf.AdjustReadPtr(size);
      } else {
        ring.AdjustReadPtr(size);
      }
    }
  }

  lemma SkipFits(s: Sender, size: nat)
    requires SendQueue.Inv(s) && size <= |s.offered|
    ensures size <= |if s.tmp != [] then s.tmp else s.ring|
  {}

  /** `BufferSequence::TotalBytes`. */
  method CountBytes(data: seq<seq<byte>>) returns (n: nat)
    requires |data| <= 16
    ensures n == |Flatten(data)|
  {
    n := 0;
    var i := 0;
    while i < |data|
      invariant i <= |data| && n == |Flatten(data[..i])|
    {
      FlattenPrefix(data, i);
      n := n + |data[i]|;
      i := i + 1;
    }
    assert data[..i] == data;
  }

  lemma FlattenPrefix(data: seq<seq<byte>>, i: nat)
    requires i < |data|
    ensures Flatten(data[..i + 1]) == Flatten(data[..i]) + data[i]
    ensures |Flatten(data[..i])| + |data[i]| <= |Flatten(data)|
  {
    assert data[..i + 1] == data[..i] + [data[i]];
    FlattenAppend(data[..i], [data[i]]);
    FlattenOne(data[i]);
    assert data == data[..i + 1] + data[i + 1..];
    FlattenAppend(data[..i + 1], data[i + 1..]);
  }
}
