/** The circular buffers of queue.c: slots base .. base + size of a shared memory, one of them always free. */
module CanRing {

  /** struct can_frame */
  datatype CanFrame = CanFrame(ident: bv32, prio: bv8, dlc: bv8, data: seq<bv8>)

  function Next(i: nat, size: nat): (j: nat)
    requires i < size
    ensures j < size
  {
    (i + 1) % size
  }

  /** The number of frames between head and tail. */
  function Count(head: nat, tail: nat, size: nat): (n: nat)
    requires head < size && tail < size
    ensures n < size
  {
    if head <= tail then tail - head else tail + size - head
  }

  lemma Wrap(x: nat, size: nat)
    requires 0 < size && x < 2 * size
    ensures x % size == if x < size then x else x - size
  {
    if x >= size {
      assert x % size == (x - size) % size;
    }
  }

  /** mq_is_full and mq_is_empty mean what they say: one slot stays free. */
  lemma TestsAreExact(head: nat, tail: nat, size: nat)
    requires head < size && tail < size
    ensures Next(tail, size) == head <==> Count(head, tail, size) == size - 1
    ensures tail == head <==> Count(head, tail, size) == 0
  {
    Wrap(tail + 1, size);
  }

  lemma CountAdvances(head: nat, tail: nat, size: nat)
    requires head < size && tail < size
    ensures Next(tail, size) != head ==> Count(head, Next(tail, size), size) == Count(head, tail, size) + 1
    ensures tail != head ==> Count(Next(head, size), tail, size) == Count(head, tail, size) - 1
  {
    Wrap(tail + 1, size);
    Wrap(head + 1, size);
  }

  /** Slot i of the queue. */
  function Slot(head: nat, i: nat, size: nat): (k: nat)
    requires head < size
    ensures k < size
  {
    (head + i) % size
  }

  /** The frames in the queue, oldest first. */
  function Contents(mem: seq<CanFrame>, base: nat, size: nat, head: nat, tail: nat): (r: seq<CanFrame>)
    requires base + size <= |mem| && head < size && tail < size
    ensures |r| == Count(head, tail, size)
  {
    seq(Count(head, tail, size), (i: nat) => mem[base + Slot(head, i, size)])
  }

  /** Slots of different positions are different, and none of the occupied ones is the one at tail. */
  lemma SlotsApart(head: nat, tail: nat, size: nat, i: nat)
    requires head < size && tail < size && i < Count(head, tail, size)
    ensures Slot(head, i, size) != tail
    ensures Slot(head, Count(head, tail, size), size) == tail
  {
    Wrap(head + i, size);
    Wrap(head + Count(head, tail, size), size);
  }

  lemma SlotShift(head: nat, i: nat, size: nat)
    requires head < size && i + 1 < size
    ensures Slot(Next(head, size), i, size) == Slot(head, i + 1, size)
  {
    Wrap(head + 1, size);
    Wrap(head + 1 + i, size);
    if head + 1 == size {
      Wrap(i, size);
    }
  }

  lemma TailSlot(head: nat, tail: nat, size: nat)
    requires head < size && tail < size
    ensures Slot(head, Count(head, tail, size), size) == tail
    ensures Slot(head, 0, size) == head
  {
    Wrap(head + Count(head, tail, size), size);
    Wrap(head, size);
  }

  /** Writing the free slot at tail is invisible until tail moves. */
  lemma CopyIsInvisible(mem: seq<CanFrame>, base: nat, size: nat, head: nat, tail: nat, f: CanFrame)
    requires base + size <= |mem| && head < size && tail < size
    ensures Contents(mem[base + tail := f], base, size, head, tail) == Contents(mem, base, size, head, tail)
  {
    hide Slot, Count;
    forall i: nat | i < Count(head, tail, size)
      ensures Contents(mem[base + tail := f], base, size, head, tail)[i] == Contents(mem, base, size, head, tail)[i]
    {
      SlotsApart(head, tail, size, i);
    }
  }

  /** Moving tail past a frame appends it. */
  lemma Appended(mem: seq<CanFrame>, base: nat, size: nat, head: nat, tail: nat)
    requires base + size <= |mem| && head < size && tail < size && Next(tail, size) != head
    ensures Contents(mem, base, size, head, Next(tail, size))
         == Contents(mem, base, size, head, tail) + [mem[base + tail]]
  {
    hide Slot, Count, Next;
    CountAdvances(head, tail, size);
    TailSlot(head, tail, size);
  }

  /** Moving head past a frame removes the oldest one. */
  lemma Removed(mem: seq<CanFrame>, base: nat, size: nat, head: nat, tail: nat)
    requires base + size <= |mem| && head < size && tail < size && tail != head
    ensures Contents(mem, base, size, head, tail)
         == [mem[base + head]] + Contents(mem, base, size, Next(head, size), tail)
  {
    hide Slot, Count, Next;
    CountAdvances(head, tail, size);
    TailSlot(head, tail, size);
    forall i: nat | i < Count(Next(head, size), tail, size)
      ensures Contents(mem, base, size, Next(head, size), tail)[i] == Contents(mem, base, size, head, tail)[i + 1]
    {
      SlotShift(head, i, size);
    }
  }

  /** A write outside the slots of a queue does not touch it. */
  lemma WriteElsewhere(mem: seq<CanFrame>, base: nat, size: nat, head: nat, tail: nat, k: nat, f: CanFrame)
    requires base + size <= |mem| && head < size && tail < size
    requires k < |mem| && !(base <= k < base + size)
    ensures Contents(mem[k := f], base, size, head, tail) == Contents(mem, base, size, head, tail)
  {
    hide Slot, Count;
  }
}
