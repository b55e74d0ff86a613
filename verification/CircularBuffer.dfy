/**
 The power-of-two ring of network/buffer.h, `CircularBuffer<std::vector<char>>`, proved to be a
 bounded byte queue that holds at most `maxSize_ - 1` bytes.
 */
module CircularBuffers {
  import opened Bytes
  import opened Common

  // ---------------------------------------------------------------- RoundUp2Power

  /** `roundSize` after `n` shifts to the left, in 64 bits. */
  function Shifted(n: nat): nat {
    if n == 0 then 1 else (2 * Shifted(n - 1)) % SIZE_T
  }

  lemma {:induction false} ShiftedIsPow2(n: nat)
    ensures Shifted(n) == if n < 64 then Pow2(n) else 0
  {
    if n > 0 {
      ShiftedIsPow2(n - 1);
      ShiftOnce(n, Shifted(n - 1));
    }
  }

  lemma ShiftOnce(n: nat, x: nat)
    requires n > 0 && x == if n - 1 < 64 then Pow2(n - 1) else 0
    ensures (2 * x) % SIZE_T == if n < 64 then Pow2(n) else 0
  {
    Pow2Of64();
    if n < 64 {
      Pow2Grows(n, 64);
    } else if n == 64 {
      assert 2 * x == SIZE_T;
    }
  }

  /** The shift loop can stop exactly for the sizes up to 2^63: beyond, the only bit is shifted
      out and `roundSize` stays 0 below `size` for ever. */
  lemma RoundUpStopsExactly(size: nat)
    ensures (exists n :: Shifted(n) >= size) <==> size <= SIZE_T / 2
  {
    Pow2Of64();
    ShiftedIsPow2(63);
    if n :| Shifted(n) >= size && size > SIZE_T / 2 {
      ShiftedIsPow2(n);
      if n < 63 { Pow2Grows(n, 63); }
    }
    if size <= SIZE_T / 2 { assert Shifted(63) >= size; }
  }

  /** The least power of two at least `size`; 0 stays 0. */
  method RoundUp2Power(size: nat) returns (roundSize: nat)
    requires size <= SIZE_T / 2
    ensures size == 0 ==> roundSize == 0
    ensures size > 0 ==> IsPow2(roundSize) && size <= roundSize <= SIZE_T / 2
    ensures size > 0 ==> forall p :: IsPow2(p) && size <= p ==> roundSize <= p
  {
    if size == 0 { return 0; }
    roundSize := 1;
    ghost var n := 0;
    Pow2Fits(0);
    while roundSize < size
      invariant n < 64 && roundSize == Pow2(n) <= SIZE_T / 2
      invariant n > 0 ==> Pow2(n - 1) < size
      decreases 64 - n
    {
      Doubled(n);
      roundSize := (roundSize * 2) % SIZE_T;
      n := n + 1;
    }
    LeastPow2(n, size);
  }

  lemma Pow2Fits(n: nat)
    requires n < 64
    ensures Pow2(n) <= SIZE_T / 2
  {
    Pow2Of64();
    if n < 63 { Pow2Grows(n, 63); }
  }

  /** Doubling a power below the bound does not overflow. */
  lemma Doubled(n: nat)
    requires n < 64 && Pow2(n) < SIZE_T / 2
    ensures n < 63 && (Pow2(n) * 2) % SIZE_T == Pow2(n + 1) <= SIZE_T / 2
  {
    Pow2Of64();
    if n < 63 { Pow2Fits(n + 1); }
  }

  lemma LeastPow2(n: nat, size: nat)
    requires size <= Pow2(n) && (n > 0 ==> Pow2(n - 1) < size)
    ensures forall p :: IsPow2(p) && size <= p ==> Pow2(n) <= p
  {
    forall p | IsPow2(p) && size <= p ensures Pow2(n) <= p {
      var k: nat :| p == Pow2(k);
      if k < n - 1 { Pow2Grows(k, n - 1); }
      if n < k { Pow2Grows(n, k); }
    }
  }

  lemma RoundedIsTight(size: nat, cap: nat)
    requires 0 < size && IsPow2(cap) && size <= cap && forall p :: IsPow2(p) && size <= p ==> cap <= p
    ensures cap < 2 * size
  {
    var k: nat :| cap == Pow2(k);
    if k > 0 { assert IsPow2(Pow2(k - 1)); }
  }

  // ---------------------------------------------------------------- the queue it refines

  /** A push into a queue of at most `cap` bytes: all of `data`, or nothing when it does not fit. */
  function QueuePush(q: seq<byte>, cap: nat, data: seq<byte>): (seq<byte>, bool) {
    if |data| <= cap - |q| then (q + data, true) else (q, false)
  }

  /** A pop of exactly `n` bytes, or nothing when there are fewer. */
  function QueuePop(q: seq<byte>, n: nat): (seq<byte>, seq<byte>, bool) {
    if n <= |q| then (q[n..], q[..n], true) else (q, [], false)
  }

  /** Both are all or nothing: exactly a push that fits and a pop of bytes that are there happen. */
  lemma QueueExactly(q: seq<byte>, cap: nat, data: seq<byte>, n: nat)
    ensures var (q', ok) := QueuePush(q, cap, data);
      (ok <==> |q| + |data| <= cap) && q' == q + if ok then data else []
    ensures var (q', got, ok) := QueuePop(q, n);
      (ok <==> n <= |q|) && |got| == (if ok then n else 0) && got + q' == q
  {
    assert q + [] == q && [] + q == q;
  }

  // ---------------------------------------------------------------- cells in circular order

  /** Where a position moved by `n` cells lands, in a ring of `m`. */
  function Forward(at: nat, n: nat, m: nat): nat { if at + n < m then at + n else at + n - m }

  /** How far ahead of `at` the cell `j` lies. */
  function Ahead(at: nat, j: nat, m: nat): nat
    requires at < m
  {
    if j >= at then j - at else j + m - at
  }

  /** The `n` cells from `at` on, going round the end. */
  function Cells(b: seq<byte>, at: nat, n: nat): (r: seq<byte>)
    requires at < |b| && n <= |b|
    ensures |r| == n
  {
    seq(n, i requires 0 <= i < n => b[Forward(at, i, |b|)])
  }

  /** The ring with `data` laid out from `at` on, going round the end. */
  function Store(b: seq<byte>, at: nat, data: seq<byte>): (r: seq<byte>)
    requires at < |b| && |data| <= |b|
    ensures |r| == |b|
  {
    seq(|b|, j requires 0 <= j < |b| => if Ahead(at, j, |b|) < |data| then data[Ahead(at, j, |b|)] else b[j])
  }

  lemma CellsSlice(b: seq<byte>, at: nat, n: nat, i: nat, k: nat)
    requires at < |b| && i + k <= n <= |b| && i < |b|
    ensures Cells(b, at, n)[i..i + k] == Cells(b, Forward(at, i, |b|), k)
    ensures i + k == n ==> Cells(b, at, n)[i..] == Cells(b, Forward(at, i, |b|), k)
  {}

  lemma CellsInOne(b: seq<byte>, from: nat, n: nat)
    requires from < |b| && from + n <= |b|
    ensures b[from..from + n] == Cells(b, from, n)
  {}

  lemma CellsInTwo(b: seq<byte>, from: nat, n: nat)
    requires from < |b| && |b| <= from + n && n <= |b|
    ensures b[from..] + b[..from + n - |b|] == Cells(b, from, n)
  {}

  lemma AheadOfForward(r: nat, w: nat, offset: nat, m: nat)
    requires r < m && w < m && offset < Ahead(r, w, m)
    ensures Forward(r, offset, m) != w
    ensures Ahead(Forward(r, offset, m), w, m) == Ahead(r, w, m) - offset
  {}

  /** Storing behind `n` cells appends to what is read from the start of them. */
  lemma StoreAppends(b: seq<byte>, from: nat, n: nat, data: seq<byte>)
    requires from < |b| && n < |b| && n + |data| <= |b|
    ensures Cells(Store(b, Forward(from, n, |b|), data), from, n + |data|) == Cells(b, from, n) + data
  {
    var b' := Store(b, Forward(from, n, |b|), data);
    forall i | 0 <= i < n + |data| ensures Cells(b', from, n + |data|)[i] == (Cells(b, from, n) + data)[i] {
      var j := Forward(from, i, |b|);
      assert Ahead(Forward(from, n, |b|), j, |b|) == if i >= n then i - n else i - n + |b|;
    }
  }

  // ---------------------------------------------------------------- iovecs

  /** A contiguous piece of the ring's storage. */
  datatype Segment = Segment(base: nat, len: nat)

  function TotalBytes(segs: seq<Segment>): nat {
    if segs == [] then 0 else segs[0].len + TotalBytes(segs[1..])
  }

  predicate InBounds(segs: seq<Segment>, n: nat) {
    forall s :: s in segs ==> s.base + s.len <= n
  }

  /** The storage after the kernel's scatter read has filled the segments in order with `data`. */
  function Scattered(b: seq<byte>, segs: seq<Segment>, data: seq<byte>): (r: seq<byte>)
    requires InBounds(segs, |b|) && |data| <= TotalBytes(segs)
    ensures |r| == |b|
    decreases |segs|
  {
    if segs == [] || data == [] then b else
    var n := Min(segs[0].len, |data|);
    Scattered(Written(b, segs[0].base, data[..n]), segs[1..], data[n..])
  }

  /** `memcpy` into the storage. */
  function Written(b: seq<byte>, at: nat, data: seq<byte>): (r: seq<byte>)
    requires at + |data| <= |b|
    ensures |r| == |b|
  {
    seq(|b|, j requires 0 <= j < |b| => if at <= j < at + |data| then data[j - at] else b[j])
  }

  lemma Segments(segs: seq<Segment>)
    ensures |segs| == 0 ==> TotalBytes(segs) == 0
    ensures |segs| == 1 ==> TotalBytes(segs) == segs[0].len
    ensures |segs| == 2 ==> TotalBytes(segs) == segs[0].len + segs[1].len && segs[1..] == [segs[1]]
  {
    if |segs| == 1 { assert segs[1..] == []; }
    if |segs| == 2 { assert segs[1..] == [segs[1]] && segs[1..][1..] == []; }
  }

  /** `memcpy` of `data` from `at` on, in two pieces when it reaches the end. */
  lemma WrittenInTwo(b: seq<byte>, at: nat, data: seq<byte>)
    requires at < |b| && |data| <= |b| <= at + |data|
    ensures Written(Written(b, at, data[..|b| - at]), 0, data[|b| - at..]) == Store(b, at, data)
  {}

  lemma WrittenInOne(b: seq<byte>, at: nat, data: seq<byte>)
    requires at < |b| && at + |data| <= |b|
    ensures Written(b, at, data) == Store(b, at, data)
  {}

  /** The free cells as the code cuts them: nothing when only one byte is free. */
  function FreeSegments(r: nat, w: nat, m: nat): seq<Segment>
    requires r < m && w < m
  {
    var free := if r > w then r - w - 1 else m - 1 - (w - r);
    if free <= 1 then []
    else if r <= w && r > 1 then [Segment(w, m - w), Segment(0, r - 1)]
    else [Segment(w, free)]
  }

  /** A scatter read of any length into the free segments lays the bytes out behind the
      readable ones. */
  lemma {:induction false} ScatterIsStore(b: seq<byte>, r: nat, w: nat, data: seq<byte>)
    requires r < |b| && w < |b| && |data| <= TotalBytes(FreeSegments(r, w, |b|))
    ensures |data| < |b| && InBounds(FreeSegments(r, w, |b|), |b|)
    ensures Scattered(b, FreeSegments(r, w, |b|), data) == Store(b, w, data)
  {
    var segs := FreeSegments(r, w, |b|);
    Segments(segs);
    if data == [] {
      assert Store(b, w, data) == b;
    } else if |segs| == 1 {
      ScatterOne(b, segs[0], data);
      WrittenInOne(b, w, data);
    } else if |segs| == 2 {
      var n := Min(segs[0].len, |data|);
      ScatterOne(Written(b, w, data[..n]), segs[1], data[n..]);
      if n < |data| {
        WrittenInTwo(b, w, data);
      } else {
        assert data[..n] == data && data[n..] == [];
        assert Written(Written(b, w, data), 0, []) == Written(b, w, data);
        WrittenInOne(b, w, data);
      }
    }
  }

  lemma ScatterOne(b: seq<byte>, seg: Segment, data: seq<byte>)
    requires InBounds([seg], |b|) && |data| <= seg.len
    ensures |data| <= TotalBytes([seg]) && Scattered(b, [seg], data) == Written(b, seg.base, data)
  {
    assert [seg][1..] == [];
    if data == [] {
      assert Written(b, seg.base, data) == b;
    } else {
      assert data[..|data|] == data && data[|data|..] == [];
    }
  }

  lemma SegmentsFit(r: nat, w: nat, m: nat)
    requires r < m && w < m
    ensures InBounds(FreeSegments(r, w, m), m) && TotalBytes(FreeSegments(r, w, m)) + Ahead(r, w, m) < m
  {
    Segments(FreeSegments(r, w, m));
  }

  // ---------------------------------------------------------------- the ring

  class CircularBuffer {
    var maxSize: nat
    var readPos: nat
    var writePos: nat
    var buffer: array<byte>

    /** A ring that is not yet sized (`maxSize_ == 0`) is empty; a sized one has its positions
        inside. */
    ghost predicate Valid()
      reads this
    {
      && buffer.Length == maxSize
      && (maxSize == 0 ==> readPos == 0 && writePos == 0)
      && (maxSize > 0 ==> IsPow2(maxSize) && maxSize <= SIZE_T / 2 && readPos < maxSize && writePos < maxSize)
    }

    /** The queue the ring stands for. */
    ghost function Contents(): (q: seq<byte>)
      requires Valid()
      reads this, buffer
      ensures maxSize > 0 ==> |q| == Ahead(readPos, writePos, maxSize) < maxSize
    {
      if maxSize == 0 then [] else Cells(buffer[..], readPos, Ahead(readPos, writePos, maxSize))
    }

    constructor (size: nat)
      requires size <= SIZE_T / 2
      ensures Valid() && Contents() == [] && fresh(buffer)
      ensures if size == 0 then maxSize == 0 else size <= maxSize < 2 * size
      ensures forall p :: IsPow2(p) && 0 < size <= p ==> maxSize <= p
    {
      var cap := RoundUp2Power(size);
      if size > 0 { RoundedIsTight(size, cap); }
      maxSize, readPos, writePos := cap, 0, 0;
      buffer := new byte[cap](_ => 0);
    }

    /** Sizes the ring, or sizes it again: the cells that fit stay and so do the positions, which
        keeps the contents when the ring grows and they are not wrapped. */
    method InitCapacity(size: nat)
      requires Valid() && 0 < size <= 0x4000_0000
      modifies this
      ensures IsPow2(maxSize) && size <= maxSize < 2 * size
      ensures fresh(buffer) && buffer.Length == maxSize && readPos == old(readPos) && writePos == old(writePos)
      ensures forall i :: 0 <= i < maxSize && i < old(maxSize) ==> buffer[i] == old(buffer[..])[i]
      ensures old(maxSize) <= maxSize && old(readPos) <= old(writePos) ==> Valid() && Contents() == old(Contents())
    {
      var cap := RoundUp2Power(size);
      RoundedIsTight(size, cap);
      var was := buffer[..];
      maxSize := cap;
      buffer := new byte[cap](i => if 0 <= i < |was| then was[i] else 0);
    }

    predicate IsEmpty()
      requires Valid()
      reads this, buffer
      ensures IsEmpty() <==> Contents() == []
    {
      writePos == readPos
    }

    /** The masked unsigned distance between the positions is the queue's length. */
    function ReadableSize(): (n: nat)
      requires Valid()
      reads this, buffer
      ensures n == |Contents()|
    {
      if maxSize == 0 then 0 else
      MaskedDistance(writePos, readPos, maxSize);
      And((writePos - readPos) % SIZE_T, maxSize - 1)
    }

    function WriteableSize(): (n: nat)
      requires Valid() && maxSize > 0
      reads this, buffer
      ensures n == maxSize - 1 - |Contents()|
    {
      maxSize - ReadableSize() - 1
    }

    predicate IsFull()
      requires Valid() && maxSize > 0
      reads this, buffer
      ensures IsFull() <==> |Contents()| == maxSize - 1
    {
      MaskedAdvance(writePos, 1, maxSize);
      And(writePos + 1, maxSize - 1) == readPos
    }

    /** `memcpy(&buffer_[at], data, data.size())`. */
    method CopyIn(at: nat, data: seq<byte>)
      requires at + |data| <= buffer.Length
      modifies buffer
      ensures buffer[..] == Written(old(buffer[..]), at, data)
    {
      forall i | 0 <= i < |data| { buffer[at + i] := data[i]; }
    }

    /** `(at + n) & (maxSize_ - 1)`. */
    method Masked(at: nat, n: nat) returns (pos: nat)
      requires Valid() && at < maxSize && n <= maxSize
      ensures pos == Forward(at, n, maxSize)
    {
      MaskedAdvance(at, n, maxSize);
      pos := And(at + n, maxSize - 1);
    }

    /** Copies `data` behind the readable bytes, in one piece or wrapped in two, without moving
        the write position. Only offset 0 of the source's function is modelled; what is copied
        to the front is counted in an `int`. */
    method PushDataAt(data: seq<byte>) returns (ok: bool)
      requires Valid() && maxSize > 0 && (|data| <= 0x7FFF_FFFF || maxSize <= 0x8000_0000)
      modifies buffer
      ensures ok == (|data| <= maxSize - 1 - Ahead(readPos, writePos, maxSize))
      ensures buffer[..] == if ok then Store(old(buffer[..]), writePos, data) else old(buffer[..])
    {
      ghost var was := buffer[..];
      if |data| == 0 {
        assert Store(was, writePos, data) == was;
        return true;
      }
      var writeable := WriteableSize();
      if |data| > writeable { return false; }
      ok := true;
      if readPos > writePos {
        assert readPos - writePos > |data|;
        CopyIn(writePos, data);
        WrittenInOne(was, writePos, data);
      } else {
        var availBytes1 := maxSize - writePos;
        var availBytes2 := readPos;
        assert availBytes1 + availBytes2 >= 1 + |data|;
        if availBytes1 >= |data| + 1 {
          CopyIn(writePos, data);
          WrittenInOne(was, writePos, data);
        } else {
          CopyIn(writePos, data[..availBytes1]);
          WrittenInTwo(was, writePos, data);
          var bytesLeft := |data| - availBytes1;
          if bytesLeft > 0 {
            CopyIn(0, data[availBytes1..]);
          } else {
            assert data[..availBytes1] == data;
            WrittenInOne(was, writePos, data);
          }
        }
      }
    }

    /** Takes over `size` bytes that were laid out behind the readable ones. */
    method AdjustWritePtr(size: nat)
      requires Valid() && maxSize > 0 && size <= maxSize - 1 - Ahead(readPos, writePos, maxSize)
      modifies this`writePos
      ensures Valid()
      ensures Ahead(readPos, writePos, maxSize) == Ahead(readPos, old(writePos), maxSize) + size
    {
      writePos := Masked(writePos, size);
    }

    method AdjustReadPtr(size: nat)
      requires Valid() && maxSize > 0 && size <= |Contents()|
      modifies this`readPos
      ensures Valid() && Contents() == old(Contents())[size..]
    {
      ghost var n := Ahead(readPos, writePos, maxSize);
      CellsSlice(buffer[..], readPos, n, size, n - size);
      readPos := Masked(readPos, size);
    }

    method PushData(data: seq<byte>) returns (ok: bool)
      requires Valid() && maxSize > 0 && (|data| <= 0x7FFF_FFFF || maxSize <= 0x8000_0000)
      modifies this`writePos, buffer
      ensures Valid()
      ensures (Contents(), ok) == QueuePush(old(Contents()), maxSize - 1, data)
    {
      ok := PushDataAt(data);
      if !ok { return; }
      StoreAppends(old(buffer[..]), readPos, Ahead(readPos, writePos, maxSize), data);
      AdjustWritePtr(|data|);
    }

    /** `memcpy` out of the ring: one piece while it does not reach the end, else two. */
    method CopyOut(from: nat, n: nat) returns (data: seq<byte>)
      requires Valid() && from < maxSize && n <= maxSize
      ensures data == Cells(buffer[..], from, n)
    {
      var availBytes1 := maxSize - from;
      if availBytes1 >= n {
        data := buffer[from..from + n];
        CellsInOne(buffer[..], from, n);
      } else {
        data := buffer[from..] + buffer[..n - availBytes1];
        CellsInTwo(buffer[..], from, n);
      }
    }

    /** Copies `n` bytes out from `offset` on, without moving the read position. */
    method PeekDataAt(n: nat, offset: nat) returns (ok: bool, data: seq<byte>)
      requires Valid() && n + offset < SIZE_T
      ensures ok == (n == 0 || n + offset <= |Contents()|)
      ensures data == if ok && n > 0 then Contents()[offset..offset + n] else []
    {
      if n == 0 { return true, []; }
      var readable := ReadableSize();
      if n + offset > readable { return false, []; }
      ok := true;
      var from := Masked(readPos, offset);
      CellsSlice(buffer[..], readPos, readable, offset, n);
      if from < writePos {
        assert writePos - from >= n;
        data := buffer[from..from + n];
        CellsInOne(buffer[..], from, n);
      } else {
        assert from > writePos;
        data := CopyOut(from, n);
      }
    }

    method PeekData(n: nat) returns (ok: bool, data: seq<byte>)
      requires Valid() && maxSize > 0 && n < SIZE_T
      modifies this`readPos
      ensures Valid()
      ensures (Contents(), data, ok) == QueuePop(old(Contents()), n)
    {
      ok, data := PeekDataAt(n, 0);
      if ok { AdjustReadPtr(n); }
    }

    /** The readable bytes from the cell `from` on, at most `limit` of them, as the contents of
        one or two iovecs. */
    method Pieces(from: nat, limit: nat) returns (datum: seq<seq<byte>>)
      requires Valid() && from < maxSize && from != writePos && limit > 0
      ensures |datum| <= 2
      ensures Flatten(datum) == Cells(buffer[..], from, Min(limit, Ahead(from, writePos, maxSize)))
    {
      ghost var cells, n := buffer[..], Min(limit, Ahead(from, writePos, maxSize));
      if from < writePos {
        var len := if limit < writePos - from then limit else writePos - from;
        datum := [buffer[from..from + len]];
        CellsInOne(cells, from, n);
        FlattenOne(datum[0]);
      } else {
        var left := limit;
        if left > maxSize - from { left := maxSize - from; }
        datum := [buffer[from..from + left]];
        left := limit - left;
        if left > 0 && writePos > 0 {
          if left > writePos { left := writePos; }
          datum := [datum[0], buffer[..left]];
          CellsInTwo(cells, from, n);
          FlattenTwo(datum[0], datum[1]);
          assert datum[0] == cells[from..] && datum[1] == cells[..from + n - |cells|];
        } else {
          CellsInOne(cells, from, n);
          FlattenOne(datum[0]);
        }
      }
    }

    /** The readable bytes from `offset` on, at most `limit` of them. */
    method GetDatum(limit: nat, offset: nat) returns (datum: seq<seq<byte>>)
      requires Valid()
      ensures |datum| <= 2
      ensures Flatten(datum) ==
        if offset >= |Contents()| then []
        else Contents()[offset..offset + Min(limit, |Contents()| - offset)]
    {
      var readable := ReadableSize();
      if limit == 0 || offset >= readable { return []; }
      AheadOfForward(readPos, writePos, offset, maxSize);
      var from := Masked(readPos, offset);
      CellsSlice(buffer[..], readPos, readable, offset, Min(limit, readable - offset));
      datum := Pieces(from, limit);
    }

    /** The free cells a scatter read may fill, as at most two segments; none when only one
        byte is free. */
    method GetSpace() returns (segs: seq<Segment>)
      requires Valid() && maxSize > 0
      ensures |segs| <= 2 && InBounds(segs, buffer.Length)
      ensures segs == FreeSegments(readPos, writePos, maxSize)
      ensures var free := maxSize - 1 - |Contents()|; TotalBytes(segs) == if free <= 1 then 0 else free
    {
      hide Cells, IsPow2, And;
      Segments(FreeSegments(readPos, writePos, maxSize));
      var writeable := WriteableSize();
      if writeable <= 1 { return []; }
      if readPos > writePos {
        segs := [Segment(writePos, readPos - writePos - 1)];
        assert segs[0].len > 0;
      } else {
        var len := maxSize - writePos;
        if readPos == 0 {
          segs := [Segment(writePos, len - 1)];
        } else if readPos > 1 {
          segs := [Segment(writePos, len), Segment(0, readPos - 1)];
        } else {
          segs := [Segment(writePos, len)];
        }
      }
    }

    /** What `readv` and AdjustWritePtr do together: the kernel puts `data` into the segments
        of GetSpace, and the write position moves over it. */
    method ReadV(segs: seq<Segment>, data: seq<byte>)
      requires Valid() && maxSize > 0
      requires segs == FreeSegments(readPos, writePos, maxSize) && |data| <= TotalBytes(segs)
      modifies this`writePos, buffer
      ensures Valid() && Contents() == old(Contents()) + data
    {
      hide FreeSegments, TotalBytes, Scattered, InBounds, Cells, Store;
      ghost var was, n := buffer[..], Ahead(readPos, writePos, maxSize);
      SegmentsFit(readPos, writePos, maxSize);
      ScatterIsStore(was, readPos, writePos, data);
      Scatter(segs, data);
      StoreAppends(was, readPos, n, data);
      AdjustWritePtr(|data|);
    }

    /** What the kernel does with the bytes. */
    method Scatter(segs: seq<Segment>, data: seq<byte>)
      requires InBounds(segs, buffer.Length) && |data| <= TotalBytes(segs)
      modifies buffer
      ensures buffer[..] == Scattered(old(buffer[..]), segs, data)
    {
      hide Written;
      ghost var was := buffer[..];
      var left, rest := data, segs;
      while rest != [] && left != []
        invariant InBounds(rest, buffer.Length) && |left| <= TotalBytes(rest)
        invariant Scattered(buffer[..], rest, left) == Scattered(was, segs, data)
        decreases |rest|
      {
        var k := Min(rest[0].len, |left|);
        CopyIn(rest[0].base, left[..k]);
        left, rest := left[k..], rest[1..];
      }
    }
  }

  // ---------------------------------------------------------------- whole runs

  datatype QueueOp = Push(data: seq<byte>) | Pop(n: nat)

  /** The queue after one operation, the bytes it accepted and the bytes it returned. */
  function RunOne(q: seq<byte>, cap: nat, op: QueueOp): (seq<byte>, seq<byte>, seq<byte>) {
    match op
    case Push(data) => var (q', ok) := QueuePush(q, cap, data); (q', if ok then data else [], [])
    case Pop(n) => var (q', got, _) := QueuePop(q, n); (q', [], got)
  }

  /** The same of a run. */
  function Run(q: seq<byte>, cap: nat, ops: seq<QueueOp>): (seq<byte>, seq<byte>, seq<byte>)
    decreases |ops|
  {
    if ops == [] then (q, [], []) else
    var one := RunOne(q, cap, ops[0]);
    var rest := Run(one.0, cap, ops[1..]);
    (rest.0, one.1 + rest.1, one.2 + rest.2)
  }

  /** First in, first out over every run: what was in the queue and what was accepted is what
      came out followed by what is left, and the queue never outgrows its capacity. */
  lemma {:induction false} RunIsFifo(q: seq<byte>, cap: nat, ops: seq<QueueOp>)
    requires |q| <= cap
    ensures var (end, acc, out) := Run(q, cap, ops); q + acc == out + end && |end| <= cap
    decreases |ops|
  {
    if ops != [] {
      var one := RunOne(q, cap, ops[0]);
      var rest := Run(one.0, cap, ops[1..]);
      RunIsFifo(one.0, cap, ops[1..]);
      assert q + one.1 == one.2 + one.0;
      Regroup(q, one.1, rest.1, one.2, one.0, rest.2, rest.0);
    }
  }

  lemma Regroup(q: seq<byte>, a: seq<byte>, a': seq<byte>, o: seq<byte>, q': seq<byte>, o': seq<byte>, end: seq<byte>)
    requires q + a == o + q' && q' + a' == o' + end
    ensures q + (a + a') == (o + o') + end
  {
    Assoc(q, a, a');
    Assoc(o, q', a');
    Assoc(o, o', end);
  }

  /** What a `std::size_t` can ask for. */
  predicate Sized(op: QueueOp, maxSize: nat) {
    if op.Pop? then op.n < SIZE_T else |op.data| <= 0x7FFF_FFFF || maxSize <= 0x8000_0000
  }

  method DriveOne(b: CircularBuffer, op: QueueOp) returns (acc: seq<byte>, out: seq<byte>)
    requires b.Valid() && b.maxSize > 0 && Sized(op, b.maxSize)
    modifies b`readPos, b`writePos, b.buffer
    ensures b.Valid() && (b.Contents(), acc, out) == RunOne(old(b.Contents()), b.maxSize - 1, op)
  {
    hide Cells, Ahead, IsPow2;
    acc, out := [], [];
    if op.Push? {
      var ok := b.PushData(op.data);
      if ok { acc := op.data; }
    } else {
      var _, got := b.PeekData(op.n);
      out := got;
    }
  }

  /** Any run of pushes and pops on the ring itself does what it does on the queue. */
  method Drive(b: CircularBuffer, ops: seq<QueueOp>) returns (acc: seq<byte>, out: seq<byte>)
    requires b.Valid() && b.maxSize > 0 && forall i :: 0 <= i < |ops| ==> Sized(ops[i], b.maxSize)
    modifies b`readPos, b`writePos, b.buffer
    ensures b.Valid()
    ensures (b.Contents(), acc, out) == Run(old(b.Contents()), b.maxSize - 1, ops)
    ensures old(b.Contents()) + acc == out + b.Contents()
    decreases |ops|
  {
    hide RunOne, Sized, Cells, Ahead, IsPow2;
    RunIsFifo(b.Contents(), b.maxSize - 1, ops);
    if ops == [] { return [], []; }
    var accepted, returned := DriveOne(b, ops[0]);
    acc, out := Drive(b, ops[1..]);
    acc, out := accepted + acc, returned + out;
  }
}
