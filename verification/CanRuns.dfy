/** Every interleaving of one sender in can_send and one interrupt handler in transmit_message, with
    any use of the RX queue going on beside them. */
module CanRuns {
  import opened CanRing
  import opened CanConcurrent
  import opened CanTransmit

  /** can_send retries with the same frame until tx_queue_push returns 0. */
  datatype Sender = Idle | Sending(frame: CanFrame)

  /** transmit_message: tx are the flags it was given, i its loop variable. */
  datatype Handler =
    | Waiting
    | Scanning(tx: seq<bool>, i: nat, rts: set<nat>)
    | Popping(tx: seq<bool>, i: nat, rts: set<nat>)
    | Holding(tx: seq<bool>, i: nat, rts: set<nat>, frame: CanFrame)
    | Requesting(tx: seq<bool>, rts: set<nat>)

  /** A finished run of transmit_message: what it loaded and what it asked the controller to send. */
  datatype Served = Served(tx: seq<bool>, loads: seq<Load>, rts: set<nat>)

  datatype Path = Path(sys: System, sender: Sender, handler: Handler,
                       called: seq<CanFrame>,      // frames passed to can_send
                       earlier: seq<Load>,         // loads of finished handler runs
                       current: seq<Load>,         // loads of this handler run
                       served: seq<Served>)

  datatype Move =
    | Call(frame: CanFrame)        // can_send is entered
    | Push(action: Action)         // a step of tx_queue_push
    | Interrupt(tx: seq<bool>)     // transmit_message is entered
    | Skip                         // flag i is clear
    | Enter                        // flag i is set: tx_queue_pop is entered
    | Pop(action: Action)          // a step of tx_queue_pop
    | LoadBuffer                   // load_txb(i, frame)
    | Finish                       // the loop is over
    | Request                      // mcp2515_rts(rts)
    | Receive(action: Action)      // a step on the RX queue, by whomever

  predicate IsPush(a: Action) {
    || a.LoadTail? || a.ThenHead? || a.LoadHead? || a.ThenTail?
    || a.LockPush? || a.CopyIn? || a.AdvanceTail? || a.UnlockPush?
  }

  /** The first step of a push, which is given the frame. */
  predicate Begins(a: Action) {
    a.LoadTail? || a.LoadHead?
  }

  predicate AtFlag(h: Handler) {
    h.Scanning? && h.i < TXB_NUM && |h.tx| == TXB_NUM
  }

  predicate Possible(p: Path, m: Move) {
    match m
    case Call(_) => p.sender.Idle?
    case Push(a) =>
      p.sender.Sending? && IsPush(a) && Can(p.sys, Step(Tx, a)) && (Begins(a) ==> a.frame == p.sender.frame)
    case Interrupt(tx) => p.handler.Waiting? && |tx| == TXB_NUM
    case Skip => AtFlag(p.handler) && !p.handler.tx[p.handler.i]
    case Enter => AtFlag(p.handler) && p.handler.tx[p.handler.i]
    case Pop(a) => p.handler.Popping? && !IsPush(a) && Can(p.sys, Step(Tx, a))
    case LoadBuffer => p.handler.Holding?
    case Finish => p.handler.Scanning? && p.handler.i == TXB_NUM
    case Request => p.handler.Requesting?
    case Receive(a) => Can(p.sys, Step(Rx, a))
  }

  /** The empty test of tx_queue_pop comes out true. */
  predicate FoundEmpty(q: Queue, a: Action) {
    || (a.PopThenTail? && q.pop.PopHasHead? && q.tail == q.pop.head)
    || (a.PopThenHead? && q.pop.PopHasTail? && q.pop.tail == q.head)
  }

  /** Where tx_queue_pop leaves the handler: without a frame it stops, with one it goes on to load it. */
  function HandlerAfterPop(h: Handler, size: nat, q: Queue, a: Action): Handler
    requires h.Popping? && Enabled(size, q, a)
  {
    if FoundEmpty(q, a) then Requesting(h.tx, h.rts)
    else if a.UnlockPop? then Holding(h.tx, h.i, h.rts, q.pop.frame)
    else h
  }

  function Result(p: Path, m: Move): Path
    requires Inv(p.sys) && Possible(p, m)
  {
    var h := p.handler;
    match m
    case Call(f) => p.(sender := Sending(f), called := p.called + [f])
    case Push(a) => p.(sys := Do(p.sys, Step(Tx, a)), sender := if a.UnlockPush? then Idle else p.sender)
    case Interrupt(tx) => p.(handler := Scanning(tx, 0, {}))
    case Skip => p.(handler := Scanning(h.tx, h.i + 1, h.rts))
    case Enter => p.(handler := Popping(h.tx, h.i, h.rts))
    case Pop(a) => p.(sys := Do(p.sys, Step(Tx, a)), handler := HandlerAfterPop(h, p.sys.size, p.sys.tx, a))
    case LoadBuffer =>
      p.(handler := Scanning(h.tx, h.i + 1, h.rts + {h.i}), current := p.current + [Load(h.i, h.frame)])
    case Finish => p.(handler := Requesting(h.tx, h.rts))
    case Request => p.(handler := Waiting, earlier := p.earlier + p.current, current := [],
                       served := p.served + [Served(h.tx, p.current, h.rts)])
    case Receive(a) => p.(sys := Do(p.sys, Step(Rx, a)))
  }

  /* ----- the invariant ----- */

  /** The frame of a can_send that is not in the queue yet. */
  function Pending(s: Sender, q: Queue): seq<CanFrame> {
    if s.Sending? && !q.push.PushAdvanced? then [s.frame] else []
  }

  /** The frame taken off the queue but not loaded yet. */
  function InHand(h: Handler, q: Queue): seq<CanFrame> {
    if h.Holding? then [h.frame] else if q.pop.PopAdvanced? then [q.pop.frame] else []
  }

  predicate Agree(s: Sender, h: Handler, q: Queue) {
    && (q.push.PushIdle? || (s.Sending? && q.push.frame == s.frame))
    && (q.pop.PopIdle? || h.Popping?)
  }

  predicate HandlerInv(h: Handler, current: seq<Load>) {
    match h
    case Waiting => current == []
    case Requesting(tx, rts) => |tx| == TXB_NUM && rts == Buffers(current) && TxbsOf(current) <= SetBits(tx, 0)
    case Scanning(tx, i, rts) => rts == Buffers(current) && LoadedUpTo(current, tx, i)
    case Popping(tx, i, rts) => rts == Buffers(current) && LoadedUpTo(current, tx, i) && i < TXB_NUM && tx[i]
    case Holding(tx, i, rts, _) => rts == Buffers(current) && LoadedUpTo(current, tx, i) && i < TXB_NUM && tx[i]
  }

  predicate ServedRight(v: Served) {
    |v.tx| == TXB_NUM && v.rts == Buffers(v.loads) && TxbsOf(v.loads) <= SetBits(v.tx, 0)
  }

  function AllLoads(served: seq<Served>): seq<Load> {
    if served == [] then [] else AllLoads(served[..|served| - 1]) + served[|served| - 1].loads
  }

  predicate PathInv(p: Path) {
    && Inv(p.sys)
    && Agree(p.sender, p.handler, p.sys.tx)
    && p.called == p.sys.tx.pushed + Pending(p.sender, p.sys.tx)
    && p.sys.tx.popped == LoadedFrames(p.earlier + p.current) + InHand(p.handler, p.sys.tx)
    && HandlerInv(p.handler, p.current)
    && p.earlier == AllLoads(p.served)
    && (forall k :: 0 <= k < |p.served| ==> ServedRight(p.served[k]))
  }

  function Start(size: nat, mem: seq<CanFrame>): (p: Path)
    requires 0 < size && |mem| == 2 * size
    ensures PathInv(p)
  {
    Path(Init(size, mem), Idle, Waiting, [], [], [], [])
  }

  /* ----- moves ----- */

  lemma PushEffect(s: System, a: Action)
    requires Inv(s) && IsPush(a) && Can(s, Step(Tx, a))
    ensures var q, q' := s.tx, Do(s, Step(Tx, a)).tx;
      && q'.popped == q.popped && q'.pop == q.pop
      && q'.pushed == (if a.AdvanceTail? then q.pushed + [q.push.frame] else q.pushed)
      && (a.AdvanceTail? ==> q.push.PushCopied? && q'.push == PushAdvanced(q.push.frame))
      && (a.UnlockPush? ==> q.push.PushAdvanced? && q'.push == PushIdle)
      && (!a.AdvanceTail? && !a.UnlockPush? ==> !q.push.PushAdvanced? && !q'.push.PushAdvanced?)
      && (!Begins(a) && !a.UnlockPush? ==> !q.push.PushIdle? && (q'.push.PushIdle? || q'.push.frame == q.push.frame))
      && (Begins(a) ==> !q'.push.PushIdle? && q'.push.frame == a.frame)
  {
    hide Items, Contents, Next, Shape;
    ShapeOf(s);
  }

  lemma PushMove(p: Path, a: Action)
    requires PathInv(p) && Possible(p, Push(a))
    ensures PathInv(Result(p, Push(a)))
  {
    hide Inv, Enabled, Do, HandlerInv, ServedRight, AllLoads, LoadedFrames;
    StepRefines(p.sys, Step(Tx, a));
    PushEffect(p.sys, a);
  }

  lemma PopEffect(s: System, a: Action)
    requires Inv(s) && !IsPush(a) && Can(s, Step(Tx, a))
    ensures var q, q' := s.tx, Do(s, Step(Tx, a)).tx;
      && q'.pushed == q.pushed && q'.push == q.push
      && q'.popped == (if a.AdvanceHead? then q.popped + [q.pop.frame] else q.popped)
      && (a.AdvanceHead? ==> q.pop.PopCopied? && q'.pop == PopAdvanced(q.pop.frame))
      && (a.UnlockPop? ==> q.pop.PopAdvanced? && q'.pop == PopIdle)
      && (FoundEmpty(q, a) ==> q'.pop == PopIdle)
      && (!a.AdvanceHead? && !a.UnlockPop? ==> !q.pop.PopAdvanced? && !q'.pop.PopAdvanced?)
  {
    hide Items, Contents, Next, Shape;
    ShapeOf(s);
  }

  lemma PopMove(p: Path, a: Action)
    requires PathInv(p) && Possible(p, Pop(a))
    ensures PathInv(Result(p, Pop(a)))
  {
    hide Inv, Do, ServedRight, AllLoads, LoadedFrames, Buffers, SetBits, TxbsOf;
    StepRefines(p.sys, Step(Tx, a));
    PopEffect(p.sys, a);
    LoadedEnd(p.current, p.handler.tx, p.handler.i);
  }

  lemma LoadMove(p: Path)
    requires PathInv(p) && Possible(p, LoadBuffer)
    ensures PathInv(Result(p, LoadBuffer))
  {
    hide Inv, Do, Enabled, ServedRight, AllLoads, LoadedFrames, Buffers, SetBits, TxbsOf, LoadedUpTo;
    var l := Load(p.handler.i, p.handler.frame);
    LoadedOne(p.earlier + p.current, l);
    LoadedOne(p.current, l);
    LoadedMore(p.current, p.handler.tx, l);
    assert (p.earlier + p.current) + [l] == p.earlier + (p.current + [l]);
  }

  lemma RequestMove(p: Path)
    requires PathInv(p) && Possible(p, Request)
    ensures PathInv(Result(p, Request))
  {
    hide Inv, Do, Enabled, LoadedFrames, Buffers, SetBits, TxbsOf;
    var v := Served(p.handler.tx, p.current, p.handler.rts);
    assert (p.served + [v])[..|p.served|] == p.served;
    assert (p.earlier + p.current) + [] == p.earlier + p.current;
  }

  lemma ReceiveMove(p: Path, a: Action)
    requires PathInv(p) && Possible(p, Receive(a))
    ensures PathInv(Result(p, Receive(a)))
  {
    hide Inv, Do, Enabled, HandlerInv, ServedRight, AllLoads, LoadedFrames;
    StepRefines(p.sys, Step(Rx, a));
  }

  lemma LocalMove(p: Path, m: Move)
    requires PathInv(p) && Possible(p, m)
    requires m.Call? || m.Interrupt? || m.Skip? || m.Enter? || m.Finish?
    ensures PathInv(Result(p, m))
  {
    hide Inv, Do, Enabled, ServedRight, AllLoads, LoadedFrames, SetBits, TxbsOf;
    LoadNone();
    if m.Interrupt? {
      NoneLoaded(m.tx);
    } else if m.Skip? {
      LoadedSkip(p.current, p.handler.tx, p.handler.i);
    } else if m.Finish? {
      LoadedEnd(p.current, p.handler.tx, p.handler.i);
    }
  }

  /** Every move of sender, handler and receiver keeps the invariant. */
  lemma MoveKeeps(p: Path, m: Move)
    requires PathInv(p) && Possible(p, m)
    ensures PathInv(Result(p, m))
  {
    hide *;
    match m
    case Push(a) => PushMove(p, a);
    case Pop(a) => PopMove(p, a);
    case LoadBuffer => LoadMove(p);
    case Request => RequestMove(p);
    case Receive(a) => ReceiveMove(p, a);
    case _ => LocalMove(p, m);
  }

  /* ----- runs ----- */

  predicate PathRuns(p: Path, moves: seq<Move>)
    requires PathInv(p)
    decreases |moves|
  {
    moves != [] ==> Possible(p, moves[0]) && (MoveKeeps(p, moves[0]); PathRuns(Result(p, moves[0]), moves[1..]))
  }

  function PathEnd(p: Path, moves: seq<Move>): (e: Path)
    requires PathInv(p) && PathRuns(p, moves)
    ensures PathInv(e)
    decreases |moves|
  {
    if moves == [] then p else MoveKeeps(p, moves[0]); PathEnd(Result(p, moves[0]), moves[1..])
  }

  /** The frames passed to can_send. */
  function Calls(moves: seq<Move>): seq<CanFrame> {
    if moves == [] then [] else (if moves[0].Call? then [moves[0].frame] else []) + Calls(moves[1..])
  }

  lemma {:induction false} CalledAre(p: Path, moves: seq<Move>)
    requires PathInv(p) && PathRuns(p, moves)
    ensures PathEnd(p, moves).called == p.called + Calls(moves)
    decreases |moves|
  {
    hide Inv, Possible, Result, HandlerInv, ServedRight, AllLoads, LoadedFrames;
    if moves != [] {
      MoveKeeps(p, moves[0]);
      CallStep(p, moves[0]);
      CalledAre(Result(p, moves[0]), moves[1..]);
    }
  }

  lemma CallStep(p: Path, m: Move)
    requires PathInv(p) && Possible(p, m)
    ensures Result(p, m).called == p.called + if m.Call? then [m.frame] else []
  {
    hide Inv, Do, Can, HandlerInv, ServedRight, AllLoads, LoadedFrames;
  }

  /** In every run: the frames loaded into the controller, then the one in hand, then those in the
      queue, then the one being pushed, are exactly the frames passed to can_send, in order; and every
      finished run of the handler requested exactly the buffers that it loaded, the lowest of the
      flagged ones. */
  lemma TransmitInOrder(size: nat, mem: seq<CanFrame>, moves: seq<Move>)
    requires 0 < size && |mem| == 2 * size && PathRuns(Start(size, mem), moves)
    ensures var e := PathEnd(Start(size, mem), moves);
      && Calls(moves) == LoadedFrames(e.earlier + e.current) + InHand(e.handler, e.sys.tx) + Frames(e.sys, Tx)
                         + Pending(e.sender, e.sys.tx)
      && e.earlier == AllLoads(e.served)
      && forall k :: 0 <= k < |e.served| ==> ServedRight(e.served[k])
  {
    hide PathRuns, PathEnd, LoadedFrames, InHand, Pending, ServedRight, AllLoads, Items, Calls;
    CalledAre(Start(size, mem), moves);
  }
}
