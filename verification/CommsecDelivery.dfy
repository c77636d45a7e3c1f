/** From the sender's messages to the receiver's, over a channel that may drop packages. */
module CommsecDelivery {
  import opened Bytes
  import opened GcmSpec
  import opened Gcm
  import opened CommsecSpec
  import opened CommsecRuns

  lemma PackageParts(e: Block -> Block, salt: Word32, id: Word32, counter: Word32, msg: seq<bv8>)
    ensures var p, s := Package(e, salt, id, counter, msg), SealMessage(e, salt, id, counter, msg);
      && |p| == HEADER_LEN + |msg| + TAG_LEN
      && TheirId(p) == id && TheirCounter(p) == counter
      && Body(p) == s.text && GivenTag(p) == s.tag
      && |s.text| == |msg| && |s.tag| == TAG_LEN
  {
    hide Iv, Be32, Gctr, Tag, J0, Read32;
    var p := Package(e, salt, id, counter, msg);
    assert p[0..4] == Be32(id);
    assert p[4..8] == Be32(counter);
    ReadBe32(p, 0, id);
    ReadBe32(p, 4, counter);
  }

  /** The verdict on an intact package: exactly when its message is not empty, its station is known
      and its counter is above the one on record is it accepted, and then the message is recovered. */
  lemma OpenPackage(d: Ctx, id: Word32, counter: Word32, msg: seq<bv8>)
    ensures var p := Package(d.dec, d.decSalt, id, counter, msg);
      && (DecCode(d, p) == Succeed <==> msg != [] && id < MAX_BASE_STATIONS && d.recent[id] < counter)
      && (DecCode(d, p) == MsgLength <==> msg == [])
      && (DecCode(d, p) == Succeed ==> DecEvent(d, p) == Accepted(id, counter, msg))
  {
    hide Iv, Be32, Gctr, Tag, J0, Package, TheirId, TheirCounter, Body, GivenTag, SealFrom, TagMatches;
    var p, s := Package(d.dec, d.decSalt, id, counter, msg), SealMessage(d.dec, d.decSalt, id, counter, msg);
    PackageParts(d.dec, d.decSalt, id, counter, msg);
    OpenSeal(d.dec, J0(d.dec(ZeroBytes(16)), Iv(d.decSalt, id, counter)), [], msg, TAG_LEN);
    if DecCode(d, p) == Succeed {
      PatchedBody(p, msg);
    }
  }

  lemma PatchedBody(p: seq<bv8>, text: seq<bv8>)
    requires |p| == HEADER_LEN + |text| + TAG_LEN
    ensures Body(Patch(p, HEADER_LEN, text)) == text
  {
  }

  /** What the receiver makes of a package that was sent. */
  function Outcome(id: Word32, e: Event): Event
    requires e.Sent?
  {
    if e.msg == [] then Refused(MsgLength) else Accepted(id, e.counter, e.msg)
  }

  function Deliver(sent: seq<Event>): (ops: seq<Op>)
    requires forall k :: 0 <= k < |sent| ==> sent[k].Sent?
    ensures |ops| == |sent|
  {
    if sent == [] then [] else [Dec(sent[0].pkg)] + Deliver(sent[1..])
  }

  /** Packages of one sender with growing counters. */
  predicate InOrder(d: Ctx, id: Word32, sent: seq<Event>) {
    && (forall k :: 0 <= k < |sent| ==>
          sent[k].Sent? && sent[k].pkg == Package(d.dec, d.decSalt, id, sent[k].counter, sent[k].msg))
    && (forall k, m :: 0 <= k < m < |sent| ==> sent[k].counter < sent[m].counter)
  }

  lemma DeliverOne(d: Ctx, id: Word32, e: Event)
    requires id < MAX_BASE_STATIONS && e.Sent? && e.pkg == Package(d.dec, d.decSalt, id, e.counter, e.msg)
    requires d.recent[id] < e.counter
    ensures EventOf(d, Dec(e.pkg)) == Outcome(id, e)
    ensures var n := After(d, Dec(e.pkg));
            n.dec == d.dec && n.decSalt == d.decSalt && n.recent[id] <= e.counter
  {
    hide Package, DecCode, DecBuffer, TheirId, TheirCounter, Body;
    OpenPackage(d, id, e.counter, e.msg);
    PackageParts(d.dec, d.decSalt, id, e.counter, e.msg);
  }

  lemma {:induction false} Received(d: Ctx, id: Word32, sent: seq<Event>)
    requires id < MAX_BASE_STATIONS && InOrder(d, id, sent)
    requires sent != [] ==> d.recent[id] < sent[0].counter
    ensures forall k :: 0 <= k < |sent| ==> Run(d, Deliver(sent))[k] == Outcome(id, sent[k])
    decreases |sent|
  {
    hide Package, EventOf, After;
    if sent != [] {
      DeliverOne(d, id, sent[0]);
      var n, rest := After(d, Dec(sent[0].pkg)), sent[1..];
      assert Deliver(sent)[1..] == Deliver(rest);
      Received(n, id, rest);
      forall k | 0 <= k < |sent|
        ensures Run(d, Deliver(sent))[k] == Outcome(id, sent[k])
      {
        if k > 0 {
          assert Run(d, Deliver(sent))[k] == Run(n, Deliver(rest))[k - 1];
          assert sent[k] == rest[k - 1];
        }
      }
    }
  }

  /** An in-order choice of the packages that a run of the sender produced. */
  predicate Picks(events: seq<Event>, picks: seq<nat>) {
    && (forall k :: 0 <= k < |picks| ==> picks[k] < |events| && events[picks[k]].Sent?)
    && (forall k, m :: 0 <= k < m < |picks| ==> picks[k] < picks[m])
  }

  function Picked(events: seq<Event>, picks: seq<nat>): (sent: seq<Event>)
    requires Picks(events, picks)
    ensures |sent| == |picks|
    ensures forall k :: 0 <= k < |picks| ==> sent[k] == events[picks[k]] && sent[k].Sent?
  {
    seq(|picks|, (k: nat) requires k < |picks| => events[picks[k]])
  }

  /** Whatever the sender did and whichever of its packages get through, in order, a receiver with the
      same key and salt that has seen nothing newer from it recovers every message that is not empty. */
  lemma Delivery(c: Ctx, ops: seq<Op>, picks: seq<nat>, d: Ctx)
    requires Picks(Run(c, ops), picks)
    requires d.dec == c.enc && d.decSalt == c.encSalt
    requires c.myId < MAX_BASE_STATIONS && d.recent[c.myId] < c.myCounter
    ensures var sent := Picked(Run(c, ops), picks);
            forall k :: 0 <= k < |picks| ==> Run(d, Deliver(sent))[k] == Outcome(c.myId, sent[k])
  {
    hide Run, Package, Iv;
    var events := Run(c, ops);
    var sent := Picked(events, picks);
    forall k | 0 <= k < |sent|
      ensures SentFrom(c, sent[k])
    {
      SentInRun(c, ops, picks[k]);
    }
    forall k, m | 0 <= k < m < |sent|
      ensures sent[k].counter < sent[m].counter
    {
      SentCountersGrow(c, ops, picks[k], picks[m]);
    }
    Received(d, c.myId, sent);
  }

  /** The same from initialisation on. */
  lemma FreshDelivery(e: Block -> Block, salt: Word32, id: Word32, mine: Ctx, theirs: Ctx,
                      ops: seq<Op>, picks: seq<nat>)
    requires id < MAX_BASE_STATIONS
    requires mine == Fresh(e, salt, id, mine.dec, mine.decSalt)
    requires theirs == Fresh(theirs.enc, theirs.encSalt, theirs.myId, e, salt)
    requires Picks(Run(mine, ops), picks)
    requires forall k :: 0 <= k < |picks| ==> Run(mine, ops)[picks[k]].msg != []
    ensures var sent := Picked(Run(mine, ops), picks);
            forall k :: 0 <= k < |picks| ==>
              Run(theirs, Deliver(sent))[k] == Accepted(id, sent[k].counter, sent[k].msg)
  {
    hide Run, Deliver;
    Delivery(mine, ops, picks, theirs);
  }

  /* ----- other traffic ----- */

  /** What reaches the receiver: a package that is due, or any other call. */
  datatype Arrival = Due(sent: Event) | Noise(op: Op)

  function OpOf(a: Arrival): Op
    requires a.Due? ==> a.sent.Sent?
  {
    if a.Due? then Dec(a.sent.pkg) else a.op
  }

  function Dues(arrivals: seq<Arrival>): seq<Event> {
    if arrivals == [] then []
    else if arrivals[0].Due? then [arrivals[0].sent] + Dues(arrivals[1..])
    else Dues(arrivals[1..])
  }

  predicate AllSent(arrivals: seq<Arrival>) {
    forall k :: 0 <= k < |arrivals| ==> arrivals[k].Due? ==> arrivals[k].sent.Sent?
  }

  function OpsOf(arrivals: seq<Arrival>): (ops: seq<Op>)
    requires AllSent(arrivals)
    ensures |ops| == |arrivals|
  {
    if arrivals == [] then [] else [OpOf(arrivals[0])] + OpsOf(arrivals[1..])
  }

  /** The noise neither erases the context nor is accepted as coming from this station. */
  predicate Harmless(d: Ctx, id: Word32, arrivals: seq<Arrival>)
    requires AllSent(arrivals)
    decreases |arrivals|
  {
    arrivals != [] ==>
      && (arrivals[0].Noise? ==> arrivals[0].op != Zero && !FromStation(EventOf(d, arrivals[0].op), id))
      && Harmless(After(d, OpOf(arrivals[0])), id, arrivals[1..])
  }

  predicate FromStation(e: Event, id: Word32) {
    e.Accepted? && e.station == id
  }

  lemma NoiseStep(d: Ctx, id: Word32, op: Op)
    requires id < MAX_BASE_STATIONS && op != Zero && !FromStation(EventOf(d, op), id)
    ensures var n := After(d, op);
            n.dec == d.dec && n.decSalt == d.decSalt && n.recent[id] == d.recent[id]
  {
    hide Package, DecBuffer, Body, Read32, TagMatches, FirstBlock, Iv;
  }

  /** Packages of other stations, replays, garbage and calls that send do not get in the way: among
      any traffic that is not taken for this station's own, its packages are all received. */
  lemma {:induction false} ReceivedAmidTraffic(d: Ctx, id: Word32, arrivals: seq<Arrival>)
    requires id < MAX_BASE_STATIONS && AllSent(arrivals) && Harmless(d, id, arrivals)
    requires InOrder(d, id, Dues(arrivals))
    requires Dues(arrivals) != [] ==> d.recent[id] < Dues(arrivals)[0].counter
    ensures forall k :: 0 <= k < |arrivals| && arrivals[k].Due? ==>
              Run(d, OpsOf(arrivals))[k] == Outcome(id, arrivals[k].sent)
    decreases |arrivals|
  {
    hide Package, EventOf, After;
    if arrivals != [] {
      var rest, op := arrivals[1..], OpOf(arrivals[0]);
      var n := After(d, op);
      if arrivals[0].Due? {
        var e := arrivals[0].sent;
        assert Dues(arrivals)[0] == e && Dues(arrivals)[1..] == Dues(rest);
        DeliverOne(d, id, e);
      } else {
        NoiseStep(d, id, op);
      }
      assert OpsOf(arrivals)[1..] == OpsOf(rest);
      ReceivedAmidTraffic(n, id, rest);
      forall k | 0 <= k < |arrivals| && arrivals[k].Due?
        ensures Run(d, OpsOf(arrivals))[k] == Outcome(id, arrivals[k].sent)
      {
        if k > 0 {
          assert Run(d, OpsOf(arrivals))[k] == Run(n, OpsOf(rest))[k - 1];
          assert arrivals[k] == rest[k - 1];
        }
      }
    }
  }
}
