/** What a run of the transmit path did, read off its list of moves; and that it can always go on. */
module CanAccount {
  import opened CanRing
  import opened CanConcurrent
  import opened CanTransmit
  import opened CanRuns

  /* ----- the queues ----- */

  function StepsOf(m: Move): seq<Step> {
    match m
    case Push(a) => [Step(Tx, a)]
    case Pop(a) => [Step(Tx, a)]
    case Receive(a) => [Step(Rx, a)]
    case _ => []
  }

  /** The steps on the queues among the moves. */
  function Steps(moves: seq<Move>): seq<Step> {
    if moves == [] then [] else StepsOf(moves[0]) + Steps(moves[1..])
  }

  lemma SystemMove(p: Path, m: Move)
    requires PathInv(p) && Possible(p, m)
    ensures StepsOf(m) == [] ==> Result(p, m).sys == p.sys
    ensures |StepsOf(m)| == 1 ==> Can(p.sys, StepsOf(m)[0]) && Result(p, m).sys == Do(p.sys, StepsOf(m)[0])
    ensures |StepsOf(m)| <= 1
  {
    hide Inv, Do, HandlerInv, ServedRight, AllLoads, LoadedFrames;
  }

  lemma OneStep(s: System, t: Step, rest: seq<Step>)
    requires Inv(s) && Can(s, t)
    ensures Inv(Do(s, t))
    ensures Runs(s, [t] + rest) == Runs(Do(s, t), rest)
    ensures Runs(s, [t] + rest) ==> End(s, [t] + rest) == End(Do(s, t), rest)
  {
    hide Inv, Do, Can;
    StepRefines(s, t);
    assert ([t] + rest)[1..] == rest;
  }

  /** A run moves the queues exactly as its queue steps do on their own. */
  lemma {:induction false} SystemRun(p: Path, moves: seq<Move>)
    requires PathInv(p) && PathRuns(p, moves)
    ensures Runs(p.sys, Steps(moves)) && PathEnd(p, moves).sys == End(p.sys, Steps(moves))
    decreases |moves|
  {
    hide Inv, Possible, Result, HandlerInv, ServedRight, AllLoads, LoadedFrames, StepsOf, Can, Do;
    if moves != [] {
      var m, rest := moves[0], moves[1..];
      MoveKeeps(p, m);
      SystemMove(p, m);
      SystemRun(Result(p, m), rest);
      if StepsOf(m) == [] {
        assert Steps(moves) == Steps(rest);
      } else {
        OneStep(p.sys, StepsOf(m)[0], Steps(rest));
        assert Steps(moves) == [StepsOf(m)[0]] + Steps(rest);
      }
    }
  }

  /* ----- the handler ----- */

  /** The flags given to each call of transmit_message. */
  function Interrupts(moves: seq<Move>): seq<seq<bool>> {
    if moves == [] then [] else (if moves[0].Interrupt? then [moves[0].tx] else []) + Interrupts(moves[1..])
  }

  function One(b: bool): nat {
    if b then 1 else 0
  }

  function LoadMoves(moves: seq<Move>): nat {
    if moves == [] then 0 else One(moves[0].LoadBuffer?) + LoadMoves(moves[1..])
  }

  /** The test of a pop from the TX queue ends it. */
  predicate AnswersEmpty(s: System, t: Step)
    requires Inv(s) && Can(s, t)
  {
    t.which == Tx && (t.action.PopThenTail? || t.action.PopThenHead?) && Do(s, t).tx.pop.PopIdle?
  }

  /** How many pops from the TX queue gave up. */
  function EmptyAnswers(s: System, steps: seq<Step>): nat
    requires Inv(s) && Runs(s, steps)
    decreases |steps|
  {
    if steps == [] then 0
    else StepRefines(s, steps[0]); One(AnswersEmpty(s, steps[0])) + EmptyAnswers(Do(s, steps[0]), steps[1..])
  }

  /** The flags of the finished runs and of the one going on. */
  function FlagsOf(served: seq<Served>): (r: seq<seq<bool>>)
    ensures |r| == |served|
  {
    seq(|served|, (k: nat) requires k < |served| => served[k].tx)
  }

  function Flags(p: Path): seq<seq<bool>> {
    FlagsOf(p.served) + if p.handler.Waiting? then [] else [p.handler.tx]
  }

  predicate IsShort(tx: seq<bool>, loads: seq<Load>) {
    |tx| == TXB_NUM && |loads| < |SetBits(tx, 0)|
  }

  function ShortOnes(served: seq<Served>): nat {
    if served == [] then 0
    else ShortOnes(served[..|served| - 1]) + One(IsShort(served[|served| - 1].tx, served[|served| - 1].loads))
  }

  /** How many handler runs left a flagged buffer without a frame, the one about to request included. */
  function ShortRuns(p: Path): nat {
    ShortOnes(p.served) + One(p.handler.Requesting? && IsShort(p.handler.tx, p.current))
  }

  lemma FlagsMove(p: Path, m: Move)
    requires PathInv(p) && Possible(p, m)
    ensures Flags(Result(p, m)) == Flags(p) + if m.Interrupt? then [m.tx] else []
  {
    hide Inv, Do, Can, ServedRight, AllLoads, LoadedFrames, Enabled, FoundEmpty, Buffers, TxbsOf, SetBits;
    if m.Request? {
      var v := Served(p.handler.tx, p.current, p.handler.rts);
      assert FlagsOf(p.served + [v]) == FlagsOf(p.served) + [v.tx];
    }
  }

  lemma LoadsMove(p: Path, m: Move)
    requires PathInv(p) && Possible(p, m)
    ensures var q := Result(p, m);
            |q.earlier| + |q.current| == |p.earlier| + |p.current| + One(m.LoadBuffer?)
  {
    hide Inv, Do, Can, HandlerInv, ServedRight, AllLoads, LoadedFrames, Enabled, FoundEmpty;
  }

  lemma PopGivesUp(p: Path, a: Action)
    requires PathInv(p) && Possible(p, Pop(a))
    ensures Result(p, Pop(a)).handler.Requesting? <==> AnswersEmpty(p.sys, Step(Tx, a))
  {
    hide Items, Contents, Next, HandlerInv, ServedRight, AllLoads, LoadedFrames, Shape;
    ShapeOf(p.sys);
  }

  lemma ShortMove(p: Path, m: Move)
    requires PathInv(p) && Possible(p, m)
    ensures ShortRuns(Result(p, m)) == ShortRuns(p) + One(m.Pop? && AnswersEmpty(p.sys, Step(Tx, m.action)))
  {
    hide Inv, Do, Can, ServedRight, AllLoads, LoadedFrames, Enabled, FoundEmpty, Buffers, TxbsOf, SetBits,
         AnswersEmpty;
    match m
    case Pop(a) =>
      PopGivesUp(p, a);
      LoadedEnd(p.current, p.handler.tx, p.handler.i);
    case Finish => LoadedEnd(p.current, p.handler.tx, p.handler.i);
    case Request =>
      var v := Served(p.handler.tx, p.current, p.handler.rts);
      assert (p.served + [v])[..|p.served|] == p.served;
    case _ =>
  }

  lemma EmptyStep(s: System, t: Step, rest: seq<Step>)
    requires Inv(s) && Can(s, t) && Runs(s, [t] + rest)
    ensures Inv(Do(s, t)) && Runs(Do(s, t), rest)
    ensures EmptyAnswers(s, [t] + rest) == One(AnswersEmpty(s, t)) + EmptyAnswers(Do(s, t), rest)
  {
    hide Inv, Do, Can, AnswersEmpty;
    StepRefines(s, t);
    assert ([t] + rest)[1..] == rest;
  }

  lemma OnlyPopsAnswer(p: Path, m: Move)
    requires PathInv(p) && Possible(p, m) && |StepsOf(m)| == 1
    requires Can(p.sys, StepsOf(m)[0])
    ensures AnswersEmpty(p.sys, StepsOf(m)[0]) <==> m.Pop? && AnswersEmpty(p.sys, Step(Tx, m.action))
  {
    hide Inv, Do, HandlerInv, ServedRight, AllLoads, LoadedFrames, Enabled;
  }

  lemma {:induction false} ShortRunsAre(p: Path, moves: seq<Move>)
    requires PathInv(p) && PathRuns(p, moves) && Runs(p.sys, Steps(moves))
    ensures ShortRuns(PathEnd(p, moves)) == ShortRuns(p) + EmptyAnswers(p.sys, Steps(moves))
    decreases |moves|
  {
    hide Inv, Possible, Result, HandlerInv, ServedRight, AllLoads, LoadedFrames, StepsOf, Can, Do, AnswersEmpty,
         ShortRuns;
    if moves != [] {
      var m, rest := moves[0], moves[1..];
      MoveKeeps(p, m);
      SystemMove(p, m);
      ShortMove(p, m);
      SystemRun(Result(p, m), rest);
      ShortRunsAre(Result(p, m), rest);
      if StepsOf(m) == [] {
        assert Steps(moves) == Steps(rest);
        NoStep(m);
      } else {
        assert Steps(moves) == [StepsOf(m)[0]] + Steps(rest);
        EmptyStep(p.sys, StepsOf(m)[0], Steps(rest));
        OnlyPopsAnswer(p, m);
      }
    }
  }

  lemma NoStep(m: Move)
    requires StepsOf(m) == []
    ensures !m.Pop?
  {
  }

  lemma {:induction false} HandlerRunsAre(p: Path, moves: seq<Move>)
    requires PathInv(p) && PathRuns(p, moves)
    ensures var e := PathEnd(p, moves);
      && Flags(e) == Flags(p) + Interrupts(moves)
      && |e.earlier| + |e.current| == |p.earlier| + |p.current| + LoadMoves(moves)
    decreases |moves|
  {
    hide Inv, Possible, Result, HandlerInv, ServedRight, AllLoads, LoadedFrames, Flags;
    if moves != [] {
      MoveKeeps(p, moves[0]);
      FlagsMove(p, moves[0]);
      LoadsMove(p, moves[0]);
      HandlerRunsAre(Result(p, moves[0]), moves[1..]);
    }
  }

  /** In every run: the queues are where the queue steps among its moves take them; the finished handler
      runs and the one going on were given the flags of the interrupts, in order; every load of a buffer
      is on the list of loads; and as many handler runs left a flagged buffer empty as pops from the TX
      queue found it empty, so that no run ends early for any other reason. */
  lemma RunAccount(size: nat, mem: seq<CanFrame>, moves: seq<Move>)
    requires 0 < size && |mem| == 2 * size && PathRuns(Start(size, mem), moves)
    ensures var e, s := PathEnd(Start(size, mem), moves), Init(size, mem);
      && Runs(s, Steps(moves)) && e.sys == End(s, Steps(moves))
      && Flags(e) == Interrupts(moves)
      && |e.earlier + e.current| == LoadMoves(moves)
      && ShortRuns(e) == EmptyAnswers(s, Steps(moves))
  {
    hide PathRuns, PathEnd, Runs, End, Steps, EmptyAnswers, Interrupts, LoadMoves, Inv, PathInv, SetBits;
    var p := Start(size, mem);
    SystemRun(p, moves);
    HandlerRunsAre(p, moves);
    ShortRunsAre(p, moves);
  }

  /* ----- progress ----- */

  predicate OfHandler(m: Move) {
    m.Interrupt? || m.Skip? || m.Enter? || m.Pop? || m.LoadBuffer? || m.Finish? || m.Request?
  }

  /** The next move of a handler at work. */
  function NextOfHandler(p: Path): (m: Move)
    requires PathInv(p) && !p.handler.Waiting?
    ensures OfHandler(m)
  {
    match p.handler
    case Scanning(tx, i, _) => if i == TXB_NUM then Finish else if tx[i] then Enter else Skip
    case Popping(_, _, _) => Pop(if p.sys.tx.pop.PopIdle? then PopLoadHead else PopStep(p.sys.tx.pop))
    case Holding(_, _, _, _) => LoadBuffer
    case Requesting(_, _) => Request
  }

  function NextOfSender(p: Path): (m: Move)
    requires p.sender.Sending?
    ensures m.Push?
  {
    Push(if p.sys.tx.push.PushIdle? then LoadTail(p.sender.frame) else PushStep(p.sys.tx.push))
  }

  /** No deadlock: sender and handler can always go on, except to wait for a lock that the other one
      holds, and then the other one can go on. */
  lemma CanGoOn(p: Path, f: CanFrame, tx: seq<bool>)
    requires PathInv(p) && |tx| == TXB_NUM
    ensures p.sender.Idle? ==> Possible(p, Call(f))
    ensures p.handler.Waiting? ==> Possible(p, Interrupt(tx))
    ensures p.sender.Sending? ==> Possible(p, NextOfSender(p)) || p.sys.tx.lock == HeldByPopper
    ensures !p.handler.Waiting? ==> Possible(p, NextOfHandler(p)) || p.sys.tx.lock == HeldByPusher
    ensures p.sys.tx.lock == HeldByPusher ==> p.sender.Sending? && Possible(p, NextOfSender(p))
    ensures p.sys.tx.lock == HeldByPopper ==> !p.handler.Waiting? && Possible(p, NextOfHandler(p))
  {
    hide Enabled, Items, ServedRight, AllLoads, LoadedFrames, Buffers, TxbsOf, SetBits;
    var q := p.sys.tx;
    NeverStuck(p.sys.mem, 0, p.sys.size, q, if p.sender.Sending? then p.sender.frame else f);
  }

  function PopRank(pc: PopPc): nat {
    match pc
    case PopIdle => 8
    case PopHasHead(_) => 7
    case PopHasTail(_, _) => 7
    case PopTested => 6
    case PopLocked => 5
    case PopCopied(_) => 4
    case PopAdvanced(_) => 3
  }

  /** A bound on the moves that a handler run still makes. */
  function Rank(p: Path): nat
    requires PathInv(p)
  {
    match p.handler
    case Waiting => 0
    case Requesting(_, _) => 1
    case Scanning(_, i, _) => 2 + 10 * (TXB_NUM - i)
    case Popping(_, i, _) => 2 + 10 * (TXB_NUM - 1 - i) + PopRank(p.sys.tx.pop)
    case Holding(_, i, _, _) => 2 + 10 * (TXB_NUM - 1 - i) + 1
  }

  lemma PopRankFalls(s: System, a: Action)
    requires Inv(s) && !IsPush(a) && Can(s, Step(Tx, a)) && !a.UnlockPop? && !FoundEmpty(s.tx, a)
    ensures PopRank(Do(s, Step(Tx, a)).tx.pop) < PopRank(s.tx.pop)
  {
    hide Items, Contents, Next, Shape;
    ShapeOf(s);
  }

  /** Every move of the handler brings the end of its run nearer, and no other move puts it off. */
  lemma RankMove(p: Path, m: Move)
    requires PathInv(p) && Possible(p, m)
    ensures PathInv(Result(p, m))
    ensures m.Interrupt? ==> Rank(Result(p, m)) == 32
    ensures OfHandler(m) && !m.Interrupt? ==> Rank(Result(p, m)) < Rank(p)
    ensures !OfHandler(m) ==> Rank(Result(p, m)) == Rank(p)
  {
    hide Inv, Do, Can, ServedRight, AllLoads, LoadedFrames, Enabled, FoundEmpty, Buffers, TxbsOf, SetBits;
    MoveKeeps(p, m);
    match m
    case Push(a) => PushEffect(p.sys, a);
    case Pop(a) =>
      if !a.UnlockPop? && !FoundEmpty(p.sys.tx, a) {
        PopRankFalls(p.sys, a);
      }
    case Receive(a) => StepRefines(p.sys, Step(Rx, a));
    case _ =>
  }

  function OwnMoves(moves: seq<Move>): nat {
    if moves == [] then 0 else One(OfHandler(moves[0]) && !moves[0].Interrupt?) + OwnMoves(moves[1..])
  }

  lemma {:induction false} MovesBounded(p: Path, moves: seq<Move>)
    requires PathInv(p) && PathRuns(p, moves)
    ensures OwnMoves(moves) + Rank(PathEnd(p, moves)) <= Rank(p) + 32 * |Interrupts(moves)|
    decreases |moves|
  {
    hide Inv, Possible, Result, HandlerInv, ServedRight, AllLoads, LoadedFrames, Rank, OfHandler;
    if moves != [] {
      RankMove(p, moves[0]);
      MovesBounded(Result(p, moves[0]), moves[1..]);
    }
  }

  /** transmit_message ends: in no run does the handler make more than 32 moves for each interrupt,
      however the sender and the users of the other queue move in between. */
  lemma HandlerEnds(size: nat, mem: seq<CanFrame>, moves: seq<Move>)
    requires 0 < size && |mem| == 2 * size && PathRuns(Start(size, mem), moves)
    ensures OwnMoves(moves) <= 32 * |Interrupts(moves)|
  {
    hide OwnMoves, Interrupts, PathRuns, PathEnd;
    MovesBounded(Start(size, mem), moves);
  }
}
