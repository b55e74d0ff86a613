/**
 The growing linear buffer of network/unbounded_buffer.{h,cc}, proved to be an unbounded byte
 queue as long as the bytes to hold stay within MAX_BUFFER_SIZE.
 */
module UnboundedBuffers {
  import opened Bytes
  import opened Common

  const MAX_BUFFER_SIZE: nat := (SIZE_T - 1) / 2

  function Max3(a: nat, b: nat, c: nat): nat {
    if a >= b && a >= c then a else if b >= c then b else c
  }

  class UnboundedBuffer {
    var readPos: nat
    var writePos: nat
    var buffer: seq<byte>

    /** The size never leaves `std::size_t`: growth by half stops below 3/2 of the maximum. */
    ghost predicate Valid()
      reads this
    {
      readPos <= writePos <= |buffer| && 2 * |buffer| <= 3 * MAX_BUFFER_SIZE
    }

    ghost function Contents(): (q: seq<byte>)
      requires Valid()
      reads this
    {
      buffer[readPos..writePos]
    }

    constructor ()
      ensures Valid() && Contents() == [] && buffer == []
    {
      readPos, writePos, buffer := 0, 0, [];
    }

    predicate IsEmpty()
      requires Valid()
      reads this
      ensures IsEmpty() <==> Contents() == []
    {
      ReadableSize() == 0
    }

    function ReadableSize(): (n: nat)
      requires Valid()
      reads this
      ensures n == |Contents()|
    {
      writePos - readPos
    }

    function WriteableSize(): nat
      requires Valid()
      reads this
    {
      |buffer| - writePos
    }

    /** Makes room for `n` more bytes: grows while the free bytes on both sides do not
        suffice, then moves the contents to the front. Terminates, keeps the contents, and
        keeps the capacity within 3/2 of what is needed. */
    method AssureSpace(n: nat)
      requires Valid() && |Contents()| + n <= MAX_BUFFER_SIZE
      modifies this
      ensures Valid() && Contents() == old(Contents()) && n <= WriteableSize()
      ensures |buffer| <= Max3(old(|buffer|), 64, 3 * (|Contents()| + n) / 2)
      ensures n <= old(WriteableSize()) ==> unchanged(this)
    {
      if n <= WriteableSize() { return; }
      Grow(n);
      if readPos > 0 {
        var dataSize := ReadableSize();
        buffer := buffer[readPos..readPos + dataSize] + buffer[dataSize..];
        readPos, writePos := 0, dataSize;
      }
    }

    /** The loop: the free bytes on both sides together suffice. */
    method Grow(n: nat)
      requires Valid() && |Contents()| + n <= MAX_BUFFER_SIZE
      modifies this`buffer
      ensures Valid() && Contents() == old(Contents()) && n <= |buffer| - writePos + readPos
      ensures |buffer| <= Max3(old(|buffer|), 64, 3 * (|Contents()| + n) / 2)
    {
      ghost var needed := writePos - readPos + n;
      var maxSize := |buffer|;
      while n > |buffer| - writePos + readPos
        invariant maxSize == |buffer| >= old(|buffer|) && buffer[..old(|buffer|)] == old(buffer)
        invariant |buffer| <= Max3(old(|buffer|), 64, 3 * needed / 2)
        decreases needed - |buffer|
      {
        if maxSize < 64 {
          maxSize := 64;
        } else if maxSize <= MAX_BUFFER_SIZE {
          maxSize := maxSize + maxSize / 2;
        } else {
          break;
        }
        buffer := buffer + seq(maxSize - |buffer|, _ => 0);
      }
      SliceOfPrefix(buffer, old(buffer), readPos, writePos);
    }

    /** Lays `data` out `offset` bytes behind the contents; a full buffer takes nothing. */
    method PushDataAt(data: seq<byte>, offset: nat) returns (n: nat)
      requires Valid()
      requires |Contents()| == MAX_BUFFER_SIZE || |Contents()| + |data| + offset <= MAX_BUFFER_SIZE
      modifies this
      ensures Valid() && Contents() == old(Contents())
      ensures n == if old(|Contents()|) == MAX_BUFFER_SIZE then 0 else |data|
      ensures n > 0 ==> writePos + offset + n <= |buffer| && buffer[writePos + offset..][..n] == data
      ensures |buffer| <= Max3(old(|buffer|), 64, 3 * (|Contents()| + |data| + offset) / 2)
    {
      if |data| == 0 { return 0; }
      if ReadableSize() == MAX_BUFFER_SIZE { return 0; }
      AssureSpace(|data| + offset);
      assert |data| + offset <= WriteableSize();
      buffer := buffer[..writePos + offset] + data + buffer[writePos + offset + |data|..];
      return |data|;
    }

    method PushData(data: seq<byte>) returns (n: nat)
      requires Valid()
      requires |Contents()| == MAX_BUFFER_SIZE || |Contents()| + |data| <= MAX_BUFFER_SIZE
      modifies this
      ensures Valid() && n == if old(|Contents()|) == MAX_BUFFER_SIZE then 0 else |data|
      ensures Contents() == old(Contents()) + data[..n]
      ensures |buffer| <= Max3(old(|buffer|), 64, 3 * (old(|Contents()|) + |data|) / 2)
    {
      n := PushDataAt(data, 0);
      SlicesJoin(buffer, readPos, writePos, n);
      AdjustWritePtr(n);
    }

    lemma SlicesJoin(b: seq<byte>, from: nat, to: nat, n: nat)
      requires from <= to && to + n <= |b|
      ensures b[from..to + n] == b[from..to] + b[to..][..n]
    {}

    method AdjustWritePtr(n: nat)
      requires Valid() && n <= WriteableSize()
      modifies this`writePos
      ensures Valid() && writePos == old(writePos) + n
    {
      writePos := writePos + n;
    }

    method PeekDataAt(n: nat, offset: nat) returns (data: seq<byte>)
      requires Valid()
      ensures data == if offset >= |Contents()| then [] else Contents()[offset..Min(offset + n, |Contents()|)]
    {
      var dataSize := ReadableSize();
      if n == 0 || dataSize <= offset { return []; }
      var k := if n + offset > dataSize then dataSize - offset else n;
      data := buffer[readPos + offset..readPos + offset + k];
      SliceOfSlice(buffer, readPos, writePos, offset, offset + k);
    }

    method PeekData(n: nat) returns (data: seq<byte>)
      requires Valid()
      modifies this`readPos
      ensures Valid() && data == old(Contents())[..Min(n, old(|Contents()|))]
      ensures old(Contents()) == data + Contents()
    {
      data := PeekDataAt(n, 0);
      AdjustReadPtr(|data|);
    }

    method AdjustReadPtr(n: nat)
      requires Valid() && n <= |Contents()|
      modifies this`readPos
      ensures Valid() && Contents() == old(Contents())[n..]
    {
      readPos := readPos + n;
    }

    method Clear()
      requires Valid()
      modifies this`readPos, this`writePos
      ensures Valid() && Contents() == []
    {
      readPos, writePos := 0, 0;
    }

    method Swap(other: UnboundedBuffer)
      requires Valid() && other.Valid()
      modifies this, other
      ensures Valid() && other.Valid()
      ensures Contents() == old(other.Contents()) && other.Contents() == old(Contents())
    {
      buffer, other.buffer := other.buffer, buffer;
      readPos, other.readPos := other.readPos, readPos;
      writePos, other.writePos := other.writePos, writePos;
    }
  }
}
