/** queue.c in sequential use: two control blocks over one allocation. */
module CanQueue {
  import opened CanRing

  datatype Option = None | Some(frame: CanFrame)

  class MqCb {
    const frames: array<CanFrame>
    const base: nat                // where this queue's slots start in the allocation
    const size: nat
    var head: nat
    var tail: nat

    ghost predicate Valid()
      reads this
    {
      base + size <= frames.Length && head < size && tail < size
    }

    ghost function Queued(): seq<CanFrame>
      requires Valid()
      reads this, frames
    {
      Contents(frames[..], base, size, head, tail)
    }

    constructor (frames: array<CanFrame>, base: nat, size: nat)
      requires 0 < size && base + size <= frames.Length
      ensures Valid() && this.frames == frames && this.base == base && this.size == size
      ensures Queued() == []
    {
      this.frames, this.base, this.size := frames, base, size;
      head, tail := 0, 0;
    }

    method IsFull() returns (r: bool)
      requires Valid()
      ensures r <==> |Queued()| == size - 1
    {
      hide Next, Count, Contents;
      TestsAreExact(head, tail, size);
      r := (tail + 1) % size == head;
      assert Next(tail, size) == (tail + 1) % size by {
        NextIsModulo(tail, size);
      }
    }

    method IsEmpty() returns (r: bool)
      requires Valid()
      ensures r <==> Queued() == []
    {
      TestsAreExact(head, tail, size);
      r := tail == head;
    }

    method Append(f: CanFrame)
      requires Valid() && |Queued()| < size - 1
      modifies this`tail, frames
      ensures Valid() && Queued() == old(Queued()) + [f]
      ensures forall k :: 0 <= k < frames.Length && !(base <= k < base + size) ==> frames[k] == old(frames[k])
    {
      hide Next, Count, Contents;
      TestsAreExact(head, tail, size);
      CopyIsInvisible(frames[..], base, size, head, tail, f);
      Appended(frames[..][base + tail := f], base, size, head, tail);
      frames[base + tail] := f;
      assert frames[..] == old(frames[..])[base + tail := f];
      tail := Next(tail, size);
    }

    method Remove() returns (f: CanFrame)
      requires Valid() && Queued() != []
      modifies this`head
      ensures Valid() && old(Queued()) == [f] + Queued()
    {
      hide Next, Count, Contents;
      TestsAreExact(head, tail, size);
      Removed(frames[..], base, size, head, tail);
      f := frames[base + head];
      head := Next(head, size);
    }

    /** tx_queue_push and rx_queue_push: 0, or -1 on a full queue. */
    method Push(f: CanFrame) returns (ret: int)
      requires Valid()
      modifies this`tail, frames
      ensures Valid() && ret == if |old(Queued())| < size - 1 then 0 else -1
      ensures Queued() == if ret == 0 then old(Queued()) + [f] else old(Queued())
      ensures forall k :: 0 <= k < frames.Length && !(base <= k < base + size) ==> frames[k] == old(frames[k])
    {
      hide Next, Count, Contents;
      ret := -1;
      var full := IsFull();
      if !full {
        Append(f);
        ret := 0;
      }
    }

    /** tx_queue_pop and rx_queue_pop: the oldest frame, or none. */
    method Pop() returns (frm: Option)
      requires Valid()
      modifies this`head
      ensures Valid() && (frm == None <==> old(Queued()) == [])
      ensures old(Queued()) == if frm.Some? then [frm.frame] + Queued() else Queued()
    {
      hide Next, Count, Contents;
      frm := None;
      var empty := IsEmpty();
      if !empty {
        var f := Remove();
        frm := Some(f);
      }
    }
  }

  lemma NextIsModulo(i: nat, size: nat)
    requires i < size
    ensures Next(i, size) == (i + 1) % size
  {
  }

  /** mq_init: the RX queue takes the second half of one allocation. */
  method MqInit(size: nat, blank: CanFrame) returns (txq: MqCb, rxq: MqCb)
    requires 0 < size
    ensures fresh(txq) && fresh(rxq) && txq != rxq && fresh(txq.frames)
    ensures txq.Valid() && rxq.Valid() && txq.Queued() == [] && rxq.Queued() == []
    ensures txq.frames == rxq.frames && txq.size == size && rxq.size == size && txq.base == 0 && rxq.base == size
  {
    var frames := new CanFrame[2 * size](i => blank);
    txq := new MqCb(frames, 0, size);
    rxq := new MqCb(frames, size, size);
  }
}
