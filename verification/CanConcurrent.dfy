/** The two queues of queue.c under concurrent use, one pusher and one popper to each queue. Every load
    of head or tail by a test, every move of head or tail, every copy of a frame and every lock and
    unlock is a step of its own. The tests run outside the lock and load head and tail in either order. */
module CanConcurrent {
  import opened CanRing

  datatype Lock = Free | HeldByPusher | HeldByPopper

  /** Where the pusher is in tx_queue_push or rx_queue_push. */
  datatype PushPc =
    | PushIdle
    | PushHasTail(frame: CanFrame, tail: nat)
    | PushHasHead(frame: CanFrame, head: nat, full: bool)    // full: whether the queue was full at the load
    | PushTested(frame: CanFrame)
    | PushLocked(frame: CanFrame)
    | PushCopied(frame: CanFrame)
    | PushAdvanced(frame: CanFrame)

  /** Where the popper is in tx_queue_pop or rx_queue_pop. */
  datatype PopPc =
    | PopIdle
    | PopHasHead(head: nat)
    | PopHasTail(tail: nat, empty: bool)                     // empty: whether the queue was empty at the load
    | PopTested
    | PopLocked
    | PopCopied(frame: CanFrame)
    | PopAdvanced(frame: CanFrame)

  /** struct mq_cb, its two users, and the frames that have gone in and out. */
  datatype Queue = Queue(head: nat, tail: nat, lock: Lock, push: PushPc, pop: PopPc,
                         pushed: seq<CanFrame>, popped: seq<CanFrame>)

  datatype Which = Tx | Rx

  /** The shared allocation holds the slots of both queues. */
  datatype System = System(mem: seq<CanFrame>, size: nat, tx: Queue, rx: Queue)

  datatype Action =
    | LoadTail(frame: CanFrame) | ThenHead                   // mq_is_full, tail first
    | LoadHead(frame: CanFrame) | ThenTail                   // mq_is_full, head first
    | LockPush | CopyIn | AdvanceTail | UnlockPush
    | PopLoadHead | PopThenTail                              // mq_is_empty, head first
    | PopLoadTail | PopThenHead                              // mq_is_empty, tail first
    | LockPop | CopyOut | AdvanceHead | UnlockPop

  datatype Step = Step(which: Which, action: Action)

  function Of(s: System, w: Which): Queue {
    if w == Tx then s.tx else s.rx
  }

  function Base(s: System, w: Which): nat {
    if w == Tx then 0 else s.size
  }

  /* ----- steps ----- */

  predicate Enabled(size: nat, q: Queue, a: Action) {
    match a
    case LoadTail(_) => q.push.PushIdle?
    case ThenHead => q.push.PushHasTail? && q.push.tail < size
    case LoadHead(_) => q.push.PushIdle?
    case ThenTail => q.push.PushHasHead?
    case LockPush => q.push.PushTested? && q.lock == Free
    case CopyIn => q.push.PushLocked?
    case AdvanceTail => q.push.PushCopied?
    case UnlockPush => q.push.PushAdvanced?
    case PopLoadHead => q.pop.PopIdle?
    case PopThenTail => q.pop.PopHasHead?
    case PopLoadTail => q.pop.PopIdle?
    case PopThenHead => q.pop.PopHasTail?
    case LockPop => q.pop.PopTested? && q.lock == Free
    case CopyOut => q.pop.PopLocked?
    case AdvanceHead => q.pop.PopCopied?
    case UnlockPop => q.pop.PopAdvanced?
  }

  /** What the full test makes of a push: it gives up, or goes on to the lock. */
  function Verdict(f: CanFrame, full: bool): PushPc {
    if full then PushIdle else PushTested(f)
  }

  function MemAfter(mem: seq<CanFrame>, base: nat, size: nat, q: Queue, a: Action): (r: seq<CanFrame>)
    requires Enabled(size, q, a) && q.tail < size && base + size <= |mem|
    ensures |r| == |mem|
  {
    if a.CopyIn? then mem[base + q.tail := q.push.frame] else mem
  }

  function QueueAfter(mem: seq<CanFrame>, base: nat, size: nat, q: Queue, a: Action): Queue
    requires Enabled(size, q, a) && q.head < size && q.tail < size && base + size <= |mem|
  {
    match a
    case LoadTail(f) => q.(push := PushHasTail(f, q.tail))
    case ThenHead => q.(push := Verdict(q.push.frame, Next(q.push.tail, size) == q.head))
    case LoadHead(f) => q.(push := PushHasHead(f, q.head, Next(q.tail, size) == q.head))
    case ThenTail => q.(push := Verdict(q.push.frame, Next(q.tail, size) == q.push.head))
    case LockPush => q.(lock := HeldByPusher, push := PushLocked(q.push.frame))
    case CopyIn => q.(push := PushCopied(q.push.frame))
    case AdvanceTail =>
      q.(tail := Next(q.tail, size), push := PushAdvanced(q.push.frame), pushed := q.pushed + [q.push.frame])
    case UnlockPush => q.(lock := Free, push := PushIdle)
    case PopLoadHead => q.(pop := PopHasHead(q.head))
    case PopThenTail => q.(pop := if q.tail == q.pop.head then PopIdle else PopTested)
    case PopLoadTail => q.(pop := PopHasTail(q.tail, q.tail == q.head))
    case PopThenHead => q.(pop := if q.pop.tail == q.head then PopIdle else PopTested)
    case LockPop => q.(lock := HeldByPopper, pop := PopLocked)
    case CopyOut => q.(pop := PopCopied(mem[base + q.head]))
    case AdvanceHead =>
      q.(head := Next(q.head, size), pop := PopAdvanced(q.pop.frame), popped := q.popped + [q.pop.frame])
    case UnlockPop => q.(lock := Free, pop := PopIdle)
  }

  /* ----- the invariant ----- */

  predicate Shape(mem: seq<CanFrame>, base: nat, size: nat, q: Queue) {
    base + size <= |mem| && q.head < size && q.tail < size
  }

  function Items(mem: seq<CanFrame>, base: nat, size: nat, q: Queue): seq<CanFrame>
    requires Shape(mem, base, size, q)
  {
    Contents(mem, base, size, q.head, q.tail)
  }

  /** Whoever is between lock and unlock holds the lock, so never both. */
  predicate LockHeld(q: Queue) {
    && (q.lock == HeldByPusher <==> q.push.PushLocked? || q.push.PushCopied? || q.push.PushAdvanced?)
    && (q.lock == HeldByPopper <==> q.pop.PopLocked? || q.pop.PopCopied? || q.pop.PopAdvanced?)
  }

  /** What a test has loaded so far: its own end of the queue as it is, the other end as it was, which
      leaves out at most what the other side has done since. */
  predicate LoadsHold(size: nat, q: Queue)
    requires q.head < size && q.tail < size
  {
    && (q.push.PushHasTail? ==> q.push.tail == q.tail)
    && (q.push.PushHasHead? ==>
          && q.push.head < size && Count(q.head, q.tail, size) <= Count(q.push.head, q.tail, size)
          && (q.push.full <==> Next(q.tail, size) == q.push.head))
    && (q.pop.PopHasHead? ==> q.pop.head == q.head)
    && (q.pop.PopHasTail? ==>
          && q.pop.tail < size && Count(q.head, q.pop.tail, size) <= Count(q.head, q.tail, size)
          && (q.pop.empty <==> q.pop.tail == q.head))
  }

  /** What a test made outside the lock found still holds when the lock has been taken. */
  predicate TestsHold(mem: seq<CanFrame>, base: nat, size: nat, q: Queue)
    requires Shape(mem, base, size, q)
  {
    && (q.push.PushTested? || q.push.PushLocked? || q.push.PushCopied? ==> Next(q.tail, size) != q.head)
    && (q.pop.PopTested? || q.pop.PopLocked? || q.pop.PopCopied? ==> q.tail != q.head)
    && (q.push.PushCopied? ==> mem[base + q.tail] == q.push.frame)
    && (q.pop.PopCopied? ==> mem[base + q.head] == q.pop.frame)
  }

  predicate QueueInv(mem: seq<CanFrame>, base: nat, size: nat, q: Queue) {
    && Shape(mem, base, size, q)
    && LockHeld(q)
    && LoadsHold(size, q)
    && TestsHold(mem, base, size, q)
    && q.pushed == q.popped + Items(mem, base, size, q)
  }

  predicate Inv(s: System) {
    && |s.mem| == 2 * s.size
    && QueueInv(s.mem, 0, s.size, s.tx)
    && QueueInv(s.mem, s.size, s.size, s.rx)
  }

  /** mq_init */
  function Init(size: nat, mem: seq<CanFrame>): (s: System)
    requires 0 < size && |mem| == 2 * size
    ensures Inv(s) && s.size == size
  {
    var q := Queue(0, 0, Free, PushIdle, PopIdle, [], []);
    System(mem, size, q, q)
  }

  /* ----- a FIFO of bounded capacity ----- */

  datatype Label = Internal | Enqueue(frame: CanFrame) | Dequeue(frame: CanFrame) | Full | Empty

  predicate FifoStep(items: seq<CanFrame>, items': seq<CanFrame>, capacity: int, l: Label) {
    match l
    case Internal => items' == items
    case Enqueue(f) => |items| < capacity && items' == items + [f]
    case Dequeue(f) => items == [f] + items'
    case Full => |items| == capacity && items' == items
    case Empty => items == [] && items' == items
  }

  /** The moment at which an operation takes effect: the move of tail or head, or, for a test that will
      fail, the load of the end that the other side moves. */
  function LabelOf(size: nat, q: Queue, a: Action): Label
    requires Enabled(size, q, a) && q.head < size && q.tail < size
  {
    match a
    case AdvanceTail => Enqueue(q.push.frame)
    case AdvanceHead => Dequeue(q.pop.frame)
    case ThenHead => if Next(q.push.tail, size) == q.head then Full else Internal
    case LoadHead(_) => if Next(q.tail, size) == q.head then Full else Internal
    case PopThenTail => if q.tail == q.pop.head then Empty else Internal
    case PopLoadTail => if q.tail == q.head then Empty else Internal
    case _ => Internal
  }

  /* ----- one step on a queue ----- */

  lemma CopyInStep(mem: seq<CanFrame>, base: nat, size: nat, q: Queue)
    requires QueueInv(mem, base, size, q) && Enabled(size, q, CopyIn)
    ensures var m, q' := MemAfter(mem, base, size, q, CopyIn), QueueAfter(mem, base, size, q, CopyIn);
            QueueInv(m, base, size, q') && Items(m, base, size, q') == Items(mem, base, size, q)
  {
    hide Contents, Next;
    CopyIsInvisible(mem, base, size, q.head, q.tail, q.push.frame);
  }

  lemma AdvanceTailStep(mem: seq<CanFrame>, base: nat, size: nat, q: Queue)
    requires QueueInv(mem, base, size, q) && Enabled(size, q, AdvanceTail)
    ensures var q' := QueueAfter(mem, base, size, q, AdvanceTail);
      && QueueInv(mem, base, size, q')
      && FifoStep(Items(mem, base, size, q), Items(mem, base, size, q'), size - 1, Enqueue(q.push.frame))
  {
    hide Contents, Count, Next;
    TestsAreExact(q.head, q.tail, size);
    Appended(mem, base, size, q.head, q.tail);
    CountAdvances(q.head, q.tail, size);
  }

  lemma AdvanceHeadStep(mem: seq<CanFrame>, base: nat, size: nat, q: Queue)
    requires QueueInv(mem, base, size, q) && Enabled(size, q, AdvanceHead)
    ensures var q' := QueueAfter(mem, base, size, q, AdvanceHead);
      && QueueInv(mem, base, size, q')
      && FifoStep(Items(mem, base, size, q), Items(mem, base, size, q'), size - 1, Dequeue(q.pop.frame))
  {
    hide Contents, Count, Next;
    Removed(mem, base, size, q.head, q.tail);
    NextInjective(q.tail, q.head, size);
    CountAdvances(q.head, q.tail, size);
  }

  lemma NextInjective(i: nat, j: nat, size: nat)
    requires i < size && j < size && i != j
    ensures Next(i, size) != Next(j, size)
  {
    Wrap(i + 1, size);
    Wrap(j + 1, size);
  }

  lemma QuietStep(mem: seq<CanFrame>, base: nat, size: nat, q: Queue, a: Action)
    requires QueueInv(mem, base, size, q) && Enabled(size, q, a)
    requires !a.CopyIn? && !a.AdvanceTail? && !a.AdvanceHead?
    ensures var q' := QueueAfter(mem, base, size, q, a);
            QueueInv(mem, base, size, q') &&
            FifoStep(Items(mem, base, size, q), Items(mem, base, size, q'), size - 1, LabelOf(size, q, a))
  {
    hide Contents, Count, Next;
    TestsAreExact(q.head, q.tail, size);
    if a.ThenTail? {
      TestsAreExact(q.push.head, q.tail, size);
    } else if a.PopThenHead? {
      TestsAreExact(q.head, q.pop.tail, size);
    }
  }

  /** A test gives up exactly when the queue is full, or empty, at its load of the end that the other
      side moves: at its second load, or, if that was its first one, as the load has put on record. */
  lemma TestOutcomes(mem: seq<CanFrame>, base: nat, size: nat, q: Queue, f: CanFrame)
    requires QueueInv(mem, base, size, q)
    ensures Enabled(size, q, ThenHead) ==>
              QueueAfter(mem, base, size, q, ThenHead).push ==
              if |Items(mem, base, size, q)| == size - 1 then PushIdle else PushTested(q.push.frame)
    ensures Enabled(size, q, LoadHead(f)) ==>
              QueueAfter(mem, base, size, q, LoadHead(f)).push ==
              PushHasHead(f, q.head, |Items(mem, base, size, q)| == size - 1)
    ensures Enabled(size, q, ThenTail) ==>
              QueueAfter(mem, base, size, q, ThenTail).push ==
              if q.push.full then PushIdle else PushTested(q.push.frame)
    ensures Enabled(size, q, PopThenTail) ==>
              QueueAfter(mem, base, size, q, PopThenTail).pop ==
              if Items(mem, base, size, q) == [] then PopIdle else PopTested
    ensures Enabled(size, q, PopLoadTail) ==>
              QueueAfter(mem, base, size, q, PopLoadTail).pop == PopHasTail(q.tail, Items(mem, base, size, q) == [])
    ensures Enabled(size, q, PopThenHead) ==>
              QueueAfter(mem, base, size, q, PopThenHead).pop == if q.pop.empty then PopIdle else PopTested
  {
    hide Count, Next;
    TestsAreExact(q.head, q.tail, size);
  }

  /** The step that the pusher is at, inside a push. */
  function PushStep(pc: PushPc): Action
    requires !pc.PushIdle?
  {
    match pc
    case PushHasTail(_, _) => ThenHead
    case PushHasHead(_, _, _) => ThenTail
    case PushTested(_) => LockPush
    case PushLocked(_) => CopyIn
    case PushCopied(_) => AdvanceTail
    case PushAdvanced(_) => UnlockPush
  }

  function PopStep(pc: PopPc): Action
    requires !pc.PopIdle?
  {
    match pc
    case PopHasHead(_) => PopThenTail
    case PopHasTail(_, _) => PopThenHead
    case PopTested => LockPop
    case PopLocked => CopyOut
    case PopCopied(_) => AdvanceHead
    case PopAdvanced(_) => UnlockPop
  }

  /** Neither side ever waits for anything but the other's unlock, and whoever holds the lock can go on. */
  lemma NeverStuck(mem: seq<CanFrame>, base: nat, size: nat, q: Queue, f: CanFrame)
    requires QueueInv(mem, base, size, q)
    ensures q.push.PushIdle? ==> Enabled(size, q, LoadTail(f)) && Enabled(size, q, LoadHead(f))
    ensures q.pop.PopIdle? ==> Enabled(size, q, PopLoadHead) && Enabled(size, q, PopLoadTail)
    ensures !q.push.PushIdle? ==>
              (Enabled(size, q, PushStep(q.push)) <==> !(q.push.PushTested? && q.lock == HeldByPopper))
    ensures !q.pop.PopIdle? ==>
              (Enabled(size, q, PopStep(q.pop)) <==> !(q.pop.PopTested? && q.lock == HeldByPusher))
    ensures q.lock == HeldByPusher ==> !q.push.PushIdle? && !q.push.PushTested?
    ensures q.lock == HeldByPopper ==> !q.pop.PopIdle? && !q.pop.PopTested?
  {
    hide Items, Contents, Count, Next;
  }

  /** Every step keeps the invariant and is a step of the FIFO. */
  lemma QueueRefines(mem: seq<CanFrame>, base: nat, size: nat, q: Queue, a: Action)
    requires QueueInv(mem, base, size, q) && Enabled(size, q, a)
    ensures var m, q' := MemAfter(mem, base, size, q, a), QueueAfter(mem, base, size, q, a);
            QueueInv(m, base, size, q') &&
            FifoStep(Items(mem, base, size, q), Items(m, base, size, q'), size - 1, LabelOf(size, q, a))
  {
    hide QueueInv, Items, Contents, Count, Next;
    if a.CopyIn? {
      CopyInStep(mem, base, size, q);
    } else if a.AdvanceTail? {
      AdvanceTailStep(mem, base, size, q);
    } else if a.AdvanceHead? {
      AdvanceHeadStep(mem, base, size, q);
    } else {
      QuietStep(mem, base, size, q, a);
    }
  }

  /* ----- the two queues together ----- */

  predicate Can(s: System, t: Step) {
    Enabled(s.size, Of(s, t.which), t.action)
  }

  function Do(s: System, t: Step): System
    requires Inv(s) && Can(s, t)
  {
    var q, base := Of(s, t.which), Base(s, t.which);
    var mem, q' := MemAfter(s.mem, base, s.size, q, t.action), QueueAfter(s.mem, base, s.size, q, t.action);
    if t.which == Tx then s.(mem := mem, tx := q') else s.(mem := mem, rx := q')
  }

  function Frames(s: System, w: Which): seq<CanFrame>
    requires Inv(s)
  {
    Items(s.mem, Base(s, w), s.size, Of(s, w))
  }

  function Other(w: Which): Which {
    if w == Tx then Rx else Tx
  }

  /** A step in one half of the allocation leaves a queue in the other half as it was. */
  lemma OtherHalf(mem: seq<CanFrame>, base: nat, size: nat, q: Queue, a: Action, base2: nat, q2: Queue)
    requires QueueInv(mem, base, size, q) && Enabled(size, q, a) && QueueInv(mem, base2, size, q2)
    requires base + size <= base2 || base2 + size <= base
    ensures var m := MemAfter(mem, base, size, q, a);
            QueueInv(m, base2, size, q2) && Items(m, base2, size, q2) == Items(mem, base2, size, q2)
  {
    hide Contents, Count, Next;
    if a.CopyIn? {
      WriteElsewhere(mem, base2, size, q2.head, q2.tail, base + q.tail, q.push.frame);
    }
  }

  /** Every step of every interleaving keeps the invariant, acts as one step of a FIFO of capacity
      size - 1 on its own queue and does not touch the other queue. */
  lemma StepRefines(s: System, t: Step)
    requires Inv(s) && Can(s, t)
    ensures Inv(Do(s, t))
    ensures FifoStep(Frames(s, t.which), Frames(Do(s, t), t.which), s.size - 1,
                     LabelOf(s.size, Of(s, t.which), t.action))
    ensures Frames(Do(s, t), Other(t.which)) == Frames(s, Other(t.which))
    ensures Of(Do(s, t), Other(t.which)) == Of(s, Other(t.which))
  {
    hide QueueInv, Items, MemAfter, QueueAfter, Enabled, LabelOf, FifoStep;
    ShapeOf(s);
    QueueRefines(s.mem, Base(s, t.which), s.size, Of(s, t.which), t.action);
    OtherHalf(s.mem, Base(s, t.which), s.size, Of(s, t.which), t.action,
              Base(s, Other(t.which)), Of(s, Other(t.which)));
  }

  lemma ShapeOf(s: System)
    requires Inv(s)
    ensures Shape(s.mem, 0, s.size, s.tx) && Shape(s.mem, s.size, s.size, s.rx)
  {
  }

  /* ----- runs ----- */

  /** steps can be taken one after the other from s. */
  predicate Runs(s: System, steps: seq<Step>)
    requires Inv(s)
    decreases |steps|
  {
    steps != [] ==> Can(s, steps[0]) && (StepRefines(s, steps[0]); Runs(Do(s, steps[0]), steps[1..]))
  }

  function End(s: System, steps: seq<Step>): System
    requires Inv(s) && Runs(s, steps)
    decreases |steps|
  {
    if steps == [] then s else StepRefines(s, steps[0]); End(Do(s, steps[0]), steps[1..])
  }

  lemma {:induction false} RunInv(s: System, steps: seq<Step>)
    requires Inv(s) && Runs(s, steps)
    ensures Inv(End(s, steps)) && End(s, steps).size == s.size
    decreases |steps|
  {
    hide Inv, Do, Can;
    if steps != [] {
      StepRefines(s, steps[0]);
      SameSize(s, steps[0]);
      RunInv(Do(s, steps[0]), steps[1..]);
    }
  }

  lemma SameSize(s: System, t: Step)
    requires Inv(s) && Can(s, t)
    ensures Do(s, t).size == s.size
  {
    hide QueueInv, QueueAfter, MemAfter;
    ShapeOf(s);
  }

  /** In every run, on either queue: nothing is lost, duplicated, reordered or overwritten, never more
      than size - 1 frames wait, and pusher and popper are never both inside the lock. */
  lemma SafeRuns(size: nat, mem: seq<CanFrame>, steps: seq<Step>, w: Which)
    requires 0 < size && |mem| == 2 * size && Runs(Init(size, mem), steps)
    ensures var e := End(Init(size, mem), steps);
      && Inv(e)
      && Of(e, w).pushed == Of(e, w).popped + Frames(e, w)
      && |Frames(e, w)| <= size - 1
      && LockHeld(Of(e, w))
  {
    hide Runs, End, Init;
    RunInv(Init(size, mem), steps);
  }
}
