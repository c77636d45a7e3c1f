/** Guarantees of the package protocol over whole runs. */
module CommsecRuns {
  import opened GcmSpec
  import opened Gcm
  import opened CommsecSpec

  /* ----- refusals and erasure ----- */

  /** A call that is refused changes nothing in the context. */
  lemma RefusedChangesNothing(c: Ctx, op: Op)
    requires EventOf(c, op).Refused?
    ensures After(c, op) == c
  {
    hide Package, Patch, DecCode, DecBuffer, Body;
  }

  predicate IsErased(c: Ctx) {
    c.myCounter == UINT32_MAX && forall i :: 0 <= i < 16 ==> c.recent[i] == UINT32_MAX
  }

  lemma ErasedStep(c: Ctx, op: Op)
    requires IsErased(c)
    ensures EventOf(c, op).Refused? || EventOf(c, op).Erased?
    ensures IsErased(After(c, op))
  {
    hide Package, Patch, DecBuffer, Body, Read32, TagMatches, FirstBlock;
    if op.Dec? {
      assert DecCode(c, op.pkg) != Succeed;
    }
  }

  /** After securePkg_zero nothing is encrypted or accepted any more, whatever is tried. */
  lemma {:induction false} EraseIsFinal(c: Ctx, ops: seq<Op>)
    requires IsErased(c)
    ensures forall i :: 0 <= i < |ops| ==> Run(c, ops)[i].Refused? || Run(c, ops)[i].Erased?
    decreases |ops|
  {
    hide EventOf, After, IsErased;
    if ops != [] {
      ErasedStep(c, ops[0]);
      EraseIsFinal(After(c, ops[0]), ops[1..]);
    }
  }

  lemma ZeroErases(c: Ctx)
    ensures IsErased(After(c, Zero))
  {
  }

  /** Nothing of the context is left: two contexts cannot be told apart once they are erased. */
  lemma NothingRemains(c: Ctx, d: Ctx)
    ensures After(c, Zero) == After(d, Zero)
  {
  }

  /** In every run, nothing succeeds after the first securePkg_zero. */
  lemma {:induction false} NothingAfterZero(c: Ctx, ops: seq<Op>, i: nat, j: nat)
    requires i < j < |ops| && ops[i] == Zero
    ensures Run(c, ops)[j].Refused? || Run(c, ops)[j].Erased?
    decreases |ops|
  {
    hide EventOf, After, IsErased;
    var d := After(c, ops[0]);
    assert Run(c, ops)[j] == Run(d, ops[1..])[j - 1];
    if i == 0 {
      ZeroErases(c);
      EraseIsFinal(d, ops[1..]);
    } else {
      NothingAfterZero(d, ops[1..], i - 1, j - 1);
    }
  }

  /* ----- the sender ----- */

  /** An event that sent a package from context c, with a counter not used before. */
  predicate SentFrom(c: Ctx, e: Event) {
    e.Sent? ==>
      && c.myCounter <= e.counter < UINT32_MAX
      && |e.msg| <= MAX_MESSAGE_LEN
      && e.iv == Iv(c.encSalt, c.myId, e.counter)
      && e.pkg == Package(c.enc, c.encSalt, c.myId, e.counter, e.msg)
  }

  lemma SentStep(c: Ctx, op: Op)
    ensures SentFrom(c, EventOf(c, op))
    ensures c.myCounter <= After(c, op).myCounter
    ensures EventOf(c, op).Sent? ==> EventOf(c, op).counter < After(c, op).myCounter
    ensures IsErased(After(c, op)) ||
            (After(c, op).encSalt == c.encSalt && After(c, op).myId == c.myId && After(c, op).enc == c.enc)
  {
    hide Package, Patch, DecBuffer, Body, Read32, DecCode, Iv;
  }

  lemma SentLater(c: Ctx, d: Ctx, e: Event)
    requires SentFrom(d, e) && c.myCounter <= d.myCounter
    requires d.encSalt == c.encSalt && d.myId == c.myId && d.enc == c.enc
    ensures SentFrom(c, e)
  {
    hide Package, Iv;
  }

  /** Every package of a run carries its own counter: counters grow and stay below the maximum. */
  lemma {:induction false} SentInRun(c: Ctx, ops: seq<Op>, i: nat)
    requires i < |ops|
    ensures SentFrom(c, Run(c, ops)[i])
    decreases |ops|
  {
    hide EventOf, After, IsErased, SentFrom;
    SentStep(c, ops[0]);
    if i > 0 {
      var d := After(c, ops[0]);
      assert Run(c, ops)[i] == Run(d, ops[1..])[i - 1];
      SentInRun(d, ops[1..], i - 1);
      if IsErased(d) {
        EraseIsFinal(d, ops[1..]);
        NotSent(c, Run(c, ops)[i]);
      } else {
        SentLater(c, d, Run(c, ops)[i]);
      }
    }
  }

  lemma NotSent(c: Ctx, e: Event)
    requires !e.Sent?
    ensures SentFrom(c, e)
  {
  }

  lemma {:induction false} SentCountersGrow(c: Ctx, ops: seq<Op>, i: nat, j: nat)
    requires i < j < |ops| && Run(c, ops)[i].Sent? && Run(c, ops)[j].Sent?
    ensures Run(c, ops)[i].counter < Run(c, ops)[j].counter
    decreases |ops|
  {
    hide EventOf, After, IsErased;
    var d := After(c, ops[0]);
    assert Run(c, ops)[j] == Run(d, ops[1..])[j - 1];
    if i == 0 {
      SentStep(c, ops[0]);
      SentInRun(d, ops[1..], j - 1);
    } else {
      assert Run(c, ops)[i] == Run(d, ops[1..])[i - 1];
      SentCountersGrow(d, ops[1..], i - 1, j - 1);
    }
  }

  /** No two encryptions of a run use the same initialisation vector. */
  lemma IvsDistinct(c: Ctx, ops: seq<Op>, i: nat, j: nat)
    requires i < j < |ops| && Run(c, ops)[i].Sent? && Run(c, ops)[j].Sent?
    ensures Run(c, ops)[i].iv != Run(c, ops)[j].iv
  {
    hide Run, Iv;
    SentCountersGrow(c, ops, i, j);
    SentInRun(c, ops, i);
    SentInRun(c, ops, j);
    if Run(c, ops)[i].iv == Run(c, ops)[j].iv {
      IvInjective(c.encSalt, c.myId, Run(c, ops)[i].counter, Run(c, ops)[j].counter);
    }
  }

  /* ----- the receiver ----- */

  lemma AcceptedStep(c: Ctx, op: Op, s: nat)
    requires s < 16
    ensures c.recent[s] <= After(c, op).recent[s]
    ensures EventOf(c, op).Accepted? && EventOf(c, op).station == s ==>
              c.recent[s] < EventOf(c, op).counter == After(c, op).recent[s]
  {
    hide Package, Patch, DecBuffer, Body, Read32, TagMatches, FirstBlock, Iv;
  }

  /** A station's packages are accepted only above the counter on record. */
  lemma {:induction false} AcceptedInRun(c: Ctx, ops: seq<Op>, i: nat)
    requires i < |ops| && Run(c, ops)[i].Accepted?
    ensures Run(c, ops)[i].station < 16
    ensures c.recent[Run(c, ops)[i].station] < Run(c, ops)[i].counter
    decreases |ops|
  {
    hide EventOf, After;
    if i == 0 {
      AcceptedStation(c, ops[0]);
      AcceptedStep(c, ops[0], Run(c, ops)[i].station);
    } else {
      var d := After(c, ops[0]);
      assert Run(c, ops)[i] == Run(d, ops[1..])[i - 1];
      AcceptedInRun(d, ops[1..], i - 1);
      AcceptedStep(c, ops[0], Run(c, ops)[i].station);
    }
  }

  lemma AcceptedStation(c: Ctx, op: Op)
    requires EventOf(c, op).Accepted?
    ensures EventOf(c, op).station < 16
  {
    hide Package, Patch, DecBuffer, Body, Read32, TagMatches, FirstBlock, Iv;
  }

  /** The counters accepted from one station strictly increase, so no package is accepted twice. */
  lemma {:induction false} AcceptedCountersGrow(c: Ctx, ops: seq<Op>, i: nat, j: nat)
    requires i < j < |ops| && Run(c, ops)[i].Accepted? && Run(c, ops)[j].Accepted?
    requires Run(c, ops)[i].station == Run(c, ops)[j].station
    ensures Run(c, ops)[i].counter < Run(c, ops)[j].counter
    decreases |ops|
  {
    hide EventOf, After;
    var d := After(c, ops[0]);
    assert Run(c, ops)[j] == Run(d, ops[1..])[j - 1];
    if i == 0 {
      AcceptedInRun(d, ops[1..], j - 1);
      AcceptedStep(c, ops[0], Run(c, ops)[j].station);
    } else {
      assert Run(c, ops)[i] == Run(d, ops[1..])[i - 1];
      AcceptedCountersGrow(d, ops[1..], i - 1, j - 1);
    }
  }
}
