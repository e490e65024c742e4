/** The ring buffer's operations as the program writes them, each taken without interruption. */
module RingBuffer {
  import opened Common
  import opened RingQueue

  lemma MoveOne<T>(done: seq<T>, rest: seq<T>)
    requires rest != []
    ensures done + rest == done + [rest[0]] + rest[1..]
  {}

  class Buffer {
    const buffer: array<byte>
    const maxSize: nat
    var head: nat
    var tail: nat

    ghost predicate Valid()
      reads this
    {
      0 < maxSize < 65536 && maxSize <= buffer.Length && head < maxSize && tail < maxSize
    }

    ghost function Contents(): seq<byte>
      reads this, buffer
      requires Valid()
    {
      Elements(buffer[..maxSize], head, tail)
    }

    constructor (buffer: array<byte>, maxSize: nat)
      requires 0 < maxSize < 65536 && maxSize <= buffer.Length
      ensures Valid() && Contents() == [] && this.buffer == buffer && this.maxSize == maxSize
    {
      this.buffer, this.maxSize, head, tail := buffer, maxSize, 0, 0;
    }

    /** Takes one operation of the bounded queue: puts the element, or finds the queue full. */
    method PutElement(el: byte) returns (ok: bool)
      requires Valid()
      modifies this`head, buffer
      ensures Valid()
      ensures Apply(old(Contents()), maxSize - 1, if ok then Put(el) else PutFull(el)) == Some(Contents())
      ensures buffer[maxSize..] == old(buffer[maxSize..])
    {
      hide Elements;
      ghost var slots := buffer[..maxSize];
      var next := head + 1;
      if next == maxSize { next := 0; }
      FullTest(maxSize, head, tail);
      if next != tail {
        HeadSlotFree(slots, head, tail, el);
        buffer[head] := el;
        assert buffer[..maxSize] == slots[head := el];
        HeadMoves(buffer[..maxSize], head, tail);
        head := next;
        ok := true;
      } else {
        ok := false;
      }
    }

    method GetElement() returns (ok: bool, el: byte)
      requires Valid()
      modifies this`tail
      ensures Valid()
      ensures Apply(old(Contents()), maxSize - 1, if ok then Get(el) else GetEmpty) == Some(Contents())
    {
      hide Elements;
      FullTest(maxSize, head, tail);
      if head != tail {
        TailMoves(buffer[..maxSize], head, tail);
        el := buffer[tail];
        var next := tail + 1;
        if next == maxSize { next := 0; }
        tail := next;
        ok := true;
      } else {
        ok, el := false, 0;
      }
    }

    method NumFreeSlots() returns (free: nat)
      requires Valid()
      ensures free == maxSize - 1 - |Contents()|
    {
      hide Elements;
      FullTest(maxSize, head, tail);
      if head == tail {
        free := maxSize - 1;
      } else if head < tail {
        free := tail - head - 1;
      } else {
        free := maxSize + tail - head - 1;
      }
    }

    /** Hands every element to the handler, oldest first; given back here as the sequence it saw. */
    method ProcessAll() returns (handled: seq<byte>)
      requires Valid()
      modifies this`tail
      ensures Valid() && handled == old(Contents()) && Contents() == []
    {
      hide Elements, Occupied, At, FreeSlots;
      handled := [];
      FullTest(maxSize, head, tail);
      while head != tail
        invariant Valid() && old(Contents()) == handled + Contents()
        decreases |Contents()|
      {
        TailMoves(buffer[..maxSize], head, tail);
        MoveOne(handled, Contents());
        handled := handled + [buffer[tail]];
        tail := if tail + 1 == maxSize then 0 else tail + 1;
      }
      FullTest(maxSize, head, tail);
    }

    /** The newest element, 0 when there is none. */
    method GetHeadData() returns (el: byte)
      requires Valid()
      ensures el == if Contents() == [] then 0 else Contents()[|Contents()| - 1]
    {
      FullTest(maxSize, head, tail);
      if head == tail { return 0; }
      var index := if head == 0 then maxSize - 1 else head - 1;
      el := buffer[index];
    }

    /** The oldest element, 0 when there is none. */
    method GetTailData() returns (el: byte)
      requires Valid()
      ensures el == if Contents() == [] then 0 else Contents()[0]
    {
      FullTest(maxSize, head, tail);
      if head == tail { return 0; }
      el := buffer[tail];
    }
  }
}
