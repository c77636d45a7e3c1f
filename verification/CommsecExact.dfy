/** When exactly each call of the package protocol succeeds, and what it then did. */
module CommsecExact {
  import opened Bytes
  import opened Octets
  import opened GcmSpec
  import opened Gcm
  import opened CommsecSpec
  import opened CommsecRuns
  import opened CommsecDelivery
  import opened CommsecWire

  /* ----- what is accepted ----- */

  lemma Be32Read(s: seq<bv8>, i: nat)
    requires i + 4 <= |s|
    ensures Be32(Read32(s, i)) == s[i..i + 4]
  {
    hide Be32, Read32, BeValue;
    Be32Value(Read32(s, i));
    ReadIs(s, i);
    BeInjective(Be32(Read32(s, i)), s[i..i + 4]);
  }

  /** The package with the header of p that carries msg under the receiver's key and salt. */
  function Genuine(d: Ctx, p: seq<bv8>, msg: seq<bv8>): seq<bv8>
    requires |p| >= HEADER_LEN
  {
    Package(d.dec, d.decSalt, TheirId(p), TheirCounter(p), msg)
  }

  /** Decrypting the body of any byte string and building a package of the result gives the string
      back, up to the tag, and the tag as well exactly when it matches. */
  lemma Rebuilt(d: Ctx, p: seq<bv8>)
    requires |p| >= HEADER_LEN + TAG_LEN
    ensures var m := Gctr(d.dec, FirstBlock(d, p), Body(p), 0);
            var q := Genuine(d, p, m);
      && |q| == |p| && q[..|p| - TAG_LEN] == p[..|p| - TAG_LEN]
      && (q == p <==> TagMatches(d.dec, FirstBlock(d, p), [], Body(p), GivenTag(p)))
  {
    hide Iv, Be32, Read32, Gctr, Tag, J0;
    var m := Gctr(d.dec, FirstBlock(d, p), Body(p), 0);
    var q, n := Genuine(d, p, m), |p| - TAG_LEN;
    var s := SealMessage(d.dec, d.decSalt, TheirId(p), TheirCounter(p), m);
    GctrInvolution(d.dec, FirstBlock(d, p), Body(p), 0);
    assert s.text == Body(p);
    Be32Read(p, 0);
    Be32Read(p, 4);
    assert q == p[0..4] + p[4..8] + Body(p) + s.tag;
    assert p[..n] == p[0..4] + p[4..8] + Body(p);
    assert q[..n] == p[..n] && q[n..] == s.tag;
    assert p == p[..n] + GivenTag(p) && q == q[..n] + s.tag;
  }

  predicate Plausible(d: Ctx, p: seq<bv8>) {
    && |p| > HEADER_LEN + TAG_LEN && TheirId(p) < MAX_BASE_STATIONS
    && d.recent[TheirId(p)] < TheirCounter(p)
  }

  /** What securePkg_dec leaves in the buffer: with a plausible header the message whose package has the
      same header and text, between the header and the tag as they were; otherwise the buffer as it was. */
  lemma Buffered(d: Ctx, p: seq<bv8>)
    ensures |DecBuffer(d, p)| == |p|
    ensures !Plausible(d, p) ==> DecBuffer(d, p) == p
    ensures Plausible(d, p) ==>
            var b, n := DecBuffer(d, p), |p| - TAG_LEN;
      && b[..HEADER_LEN] == p[..HEADER_LEN] && b[n..] == p[n..]
      && |Genuine(d, p, Body(b))| == |p| && Genuine(d, p, Body(b))[..n] == p[..n]
  {
    hide TheirId, TheirCounter, FirstBlock, TagMatches, Gctr, Genuine, GivenTag;
    if Plausible(d, p) {
      Rebuilt(d, p);
      PatchedBody(p, Gctr(d.dec, FirstBlock(d, p), Body(p), 0));
    }
  }

  /** The verdict on any byte string. It is accepted exactly when its header is plausible and it is
      the package that a holder of the key and the salt builds of some message, which is then the
      message recovered. */
  lemma Verdict(d: Ctx, p: seq<bv8>)
    ensures DecCode(d, p) == MsgLength <==> |p| <= HEADER_LEN + TAG_LEN
    ensures DecCode(d, p) == BadBaseStation <==> |p| > HEADER_LEN + TAG_LEN && TheirId(p) >= MAX_BASE_STATIONS
    ensures DecCode(d, p) == DupCtr <==>
              && |p| > HEADER_LEN + TAG_LEN && TheirId(p) < MAX_BASE_STATIONS
              && TheirCounter(p) <= d.recent[TheirId(p)]
    ensures DecCode(d, p) == Succeed <==> Plausible(d, p) && exists m :: p == Genuine(d, p, m)
    ensures DecCode(d, p) == FailGcm <==> Plausible(d, p) && forall m :: p != Genuine(d, p, m)
    ensures DecCode(d, p) == Succeed ==> p == Genuine(d, p, Body(DecBuffer(d, p)))
  {
    hide TheirId, TheirCounter, FirstBlock, Gctr, Package, GivenTag, TagMatches;
    if Plausible(d, p) {
      Rebuilt(d, p);
      var m := Gctr(d.dec, FirstBlock(d, p), Body(p), 0);
      PatchedBody(p, m);
      forall n | p == Genuine(d, p, n)
        ensures DecCode(d, p) == Succeed
      {
        GenuineAccepted(d, p, n);
      }
    }
  }

  lemma GenuineAccepted(d: Ctx, p: seq<bv8>, m: seq<bv8>)
    requires Plausible(d, p) && p == Genuine(d, p, m)
    ensures DecCode(d, p) == Succeed
  {
    hide DecCode, DecBuffer, Package, TheirId, TheirCounter;
    PackageParts(d.dec, d.decSalt, TheirId(p), TheirCounter(p), m);
    OpenPackage(d, TheirId(p), TheirCounter(p), m);
  }

  /* ----- over whole runs ----- */

  lemma ReceiverKeeps(c: Ctx, op: Op)
    ensures IsErased(After(c, op)) || (After(c, op).dec == c.dec && After(c, op).decSalt == c.decSalt)
  {
    hide DecCode, EncCode;
  }

  /** Every acceptance of a run was of the package that the receiver's key and salt make of the message
      recovered, the station and the counter: nothing else is ever accepted. */
  lemma {:induction false} AcceptedAreGenuine(c: Ctx, ops: seq<Op>, i: nat)
    requires i < |ops| && Run(c, ops)[i].Accepted?
    ensures var e := Run(c, ops)[i];
            ops[i].Dec? && ops[i].pkg == Package(c.dec, c.decSalt, e.station, e.counter, e.msg)
    decreases |ops|
  {
    hide EventOf, After, IsErased, Package;
    var d := After(c, ops[0]);
    if i == 0 {
      AcceptedNow(c, ops[0]);
    } else {
      assert Run(c, ops)[i] == Run(d, ops[1..])[i - 1];
      AcceptedAreGenuine(d, ops[1..], i - 1);
      ReceiverKeeps(c, ops[0]);
      if IsErased(d) {
        EraseIsFinal(d, ops[1..]);
      }
    }
  }

  lemma AcceptedNow(c: Ctx, op: Op)
    requires EventOf(c, op).Accepted?
    ensures var e := EventOf(c, op);
            op.Dec? && op.pkg == Package(c.dec, c.decSalt, e.station, e.counter, e.msg)
  {
    hide DecCode, DecBuffer, Package, Iv;
    Verdict(c, op.pkg);
  }

  /** How many of the events sent a package. */
  function SentCount(events: seq<Event>): nat {
    if events == [] then 0 else (if events[0].Sent? then 1 else 0) + SentCount(events[1..])
  }

  /** The message that an operation would send. */
  predicate Sends(op: Op, msg: seq<bv8>) {
    op == Enc(msg) || (op.EncInPlace? && op.start >= 8 && op.msg == msg)
  }

  predicate NoZero(ops: seq<Op>) {
    forall k :: 0 <= k < |ops| ==> ops[k] != Zero
  }

  lemma SendStep(c: Ctx, op: Op, msg: seq<bv8>)
    ensures Sends(op, msg) ==>
      && (EventOf(c, op).Sent? <==> |msg| <= MAX_MESSAGE_LEN && c.myCounter < UINT32_MAX)
      && (EventOf(c, op).Sent? ==> EventOf(c, op).counter == c.myCounter && EventOf(c, op).msg == msg)
    ensures op != Zero ==> After(c, op).myCounter == c.myCounter + (if EventOf(c, op).Sent? then 1 else 0)
  {
    hide Package, DecCode, DecBuffer, Iv, Body;
  }

  /** As long as the context is not erased, a message is sent exactly when it is not too long and the
      counter has not reached its end, and it carries the next counter. */
  lemma {:induction false} SendsNext(c: Ctx, ops: seq<Op>, i: nat, msg: seq<bv8>)
    requires i < |ops| && NoZero(ops[..i]) && Sends(ops[i], msg)
    ensures var e, n := Run(c, ops)[i], c.myCounter + SentCount(Run(c, ops)[..i]);
      && (e.Sent? <==> |msg| <= MAX_MESSAGE_LEN && n < UINT32_MAX)
      && (e.Sent? ==> e.counter == n && e.msg == msg)
    decreases |ops|
  {
    hide EventOf, After, Sends;
    SendStep(c, ops[0], msg);
    if i > 0 {
      var d, rest := After(c, ops[0]), ops[1..];
      assert rest[..i - 1] == ops[..i][1..];
      assert ops[..i][0] == ops[0];
      SendsNext(d, rest, i - 1, msg);
      assert Run(c, ops)[..i][1..] == Run(d, rest)[..i - 1];
    }
  }

  /** The counter of the last package accepted from a station, or the one on record before. */
  function LastFrom(events: seq<Event>, s: Word32, before: Word32): Word32 {
    if events == [] then before
    else LastFrom(events[1..], s, if FromStation(events[0], s) then events[0].counter else before)
  }

  function CtxAfter(c: Ctx, ops: seq<Op>): Ctx
    decreases |ops|
  {
    if ops == [] then c else CtxAfter(After(c, ops[0]), ops[1..])
  }

  lemma RecordStep(c: Ctx, op: Op, s: Word32)
    requires s < MAX_BASE_STATIONS && op != Zero
    ensures After(c, op).recent[s] == if FromStation(EventOf(c, op), s) then EventOf(c, op).counter else c.recent[s]
  {
    hide Package, DecBuffer, Iv, Body, Read32, TagMatches, FirstBlock, GivenTag;
  }

  /** What is on record for a station is the counter of the last package accepted from it. */
  lemma {:induction false} RecordIsLast(c: Ctx, ops: seq<Op>, s: Word32)
    requires s < MAX_BASE_STATIONS && NoZero(ops)
    ensures CtxAfter(c, ops).recent[s] == LastFrom(Run(c, ops), s, c.recent[s])
    decreases |ops|
  {
    hide EventOf, After, FromStation;
    if ops != [] {
      RecordStep(c, ops[0], s);
      RecordIsLast(After(c, ops[0]), ops[1..], s);
      assert Run(c, ops)[1..] == Run(After(c, ops[0]), ops[1..]);
    }
  }

  /** From initialisation on, the packages sent are numbered from 1, and a station that no package has
      been accepted from is on record with 0. */
  lemma FreshRun(enc: Block -> Block, encSalt: Word32, myId: Word32, dec: Block -> Block, decSalt: Word32,
                 ops: seq<Op>, i: nat, s: Word32)
    requires i < |ops| && NoZero(ops) && s < MAX_BASE_STATIONS
    ensures var c := Fresh(enc, encSalt, myId, dec, decSalt);
            var e := Run(c, ops)[i];
      && (e.Sent? ==> e.counter == 1 + SentCount(Run(c, ops)[..i]))
      && CtxAfter(c, ops).recent[s] == LastFrom(Run(c, ops), s, 0)
  {
    hide EventOf, After, SentCount, LastFrom, Run, CtxAfter;
    var c := Fresh(enc, encSalt, myId, dec, decSalt);
    RecordIsLast(c, ops, s);
    if Run(c, ops)[i].Sent? {
      SentByOp(c, ops, i);
      assert NoZero(ops[..i]);
      SendsNext(c, ops, i, Run(c, ops)[i].msg);
    }
  }

  lemma {:induction false} SentByOp(c: Ctx, ops: seq<Op>, i: nat)
    requires i < |ops| && Run(c, ops)[i].Sent?
    ensures Sends(ops[i], Run(c, ops)[i].msg)
    decreases |ops|
  {
    hide EventOf, After, Sends;
    if i == 0 {
      SentNow(c, ops[0]);
    } else {
      assert Run(c, ops)[i] == Run(After(c, ops[0]), ops[1..])[i - 1];
      SentByOp(After(c, ops[0]), ops[1..], i - 1);
    }
  }

  lemma SentNow(c: Ctx, op: Op)
    requires EventOf(c, op).Sent?
    ensures Sends(op, EventOf(c, op).msg)
  {
    hide Package, Iv, DecCode, DecBuffer, Body;
  }
}
