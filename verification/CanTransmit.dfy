/** The transmit path: can_send (dev.c) feeds the TX queue, the interrupt handler (irq.c) empties it
    into the three transmit buffers of the controller. */
module CanTransmit {
  import opened CanRing
  import opened CanQueue

  const TXB_NUM: nat := 3

  /** load_txb(txb, frame) */
  datatype Load = Load(txb: nat, frame: CanFrame)

  function LoadedFrames(loads: seq<Load>): (r: seq<CanFrame>)
    ensures |r| == |loads|
    ensures forall k :: 0 <= k < |loads| ==> r[k] == loads[k].frame
  {
    if loads == [] then [] else LoadedFrames(loads[..|loads| - 1]) + [loads[|loads| - 1].frame]
  }

  function Buffers(loads: seq<Load>): set<nat> {
    set k | 0 <= k < |loads| :: loads[k].txb
  }

  lemma LoadedOne(loads: seq<Load>, l: Load)
    ensures LoadedFrames(loads + [l]) == LoadedFrames(loads) + [l.frame]
    ensures Buffers(loads + [l]) == Buffers(loads) + {l.txb}
  {
    assert (loads + [l])[..|loads|] == loads;
    forall b
      ensures b in Buffers(loads + [l]) <==> b in Buffers(loads) + {l.txb}
    {
      if b in Buffers(loads) {
        var k :| 0 <= k < |loads| && loads[k].txb == b;
        assert (loads + [l])[k].txb == b;
      }
      if b == l.txb {
        assert (loads + [l])[|loads|].txb == b;
      }
    }
  }

  /* ----- transmit_message on its own ----- */

  /** The buffers from i on whose flag is set. */
  function SetBits(tx: seq<bool>, i: nat): seq<nat>
    requires |tx| == TXB_NUM && i <= TXB_NUM
    decreases TXB_NUM - i
  {
    if i == TXB_NUM then [] else (if tx[i] then [i] else []) + SetBits(tx, i + 1)
  }

  function TxbsOf(loads: seq<Load>): (r: seq<nat>)
    ensures |r| == |loads|
  {
    seq(|loads|, (k: nat) requires k < |loads| => loads[k].txb)
  }

  lemma SetBitsStep(tx: seq<bool>, i: nat)
    requires |tx| == TXB_NUM && i < TXB_NUM
    ensures SetBits(tx, i) == if tx[i] then [i] + SetBits(tx, i + 1) else SetBits(tx, i + 1)
  {
  }

  lemma SetBitsEnd(tx: seq<bool>)
    requires |tx| == TXB_NUM
    ensures SetBits(tx, TXB_NUM) == []
  {
  }

  /** All entries are flagged buffers from i on, in ascending order. */
  predicate FlaggedFrom(s: seq<nat>, tx: seq<bool>, i: nat) {
    && (forall k :: 0 <= k < |s| ==> i <= s[k] < |tx| && tx[s[k]])
    && (forall k, m :: 0 <= k < m < |s| ==> s[k] < s[m])
  }

  lemma FlaggedMore(s: seq<nat>, tx: seq<bool>, i: nat)
    requires i < |tx| && FlaggedFrom(s, tx, i + 1)
    ensures FlaggedFrom(s, tx, i) && (tx[i] ==> FlaggedFrom([i] + s, tx, i))
  {
  }

  /** Exactly the flagged buffers from i on, each once, lowest first. */
  lemma {:induction false} SetBitsAre(tx: seq<bool>, i: nat)
    requires |tx| == TXB_NUM && i <= TXB_NUM
    ensures FlaggedFrom(SetBits(tx, i), tx, i)
    ensures forall b :: i <= b < TXB_NUM && tx[b] ==> b in SetBits(tx, i)
    decreases TXB_NUM - i
  {
    hide SetBits;
    if i == TXB_NUM {
      SetBitsEnd(tx);
    } else {
      hide FlaggedFrom;
      SetBitsAre(tx, i + 1);
      SetBitsStep(tx, i);
      FlaggedMore(SetBits(tx, i + 1), tx, i);
    }
  }

  lemma LoadNone()
    ensures LoadedFrames([]) == [] && Buffers([]) == {}
  {
  }

  lemma LoadStep(loads: seq<Load>, l: Load, rest: seq<CanFrame>)
    ensures LoadedFrames(loads) + ([l.frame] + rest) == LoadedFrames(loads + [l]) + rest
    ensures Buffers(loads + [l]) == Buffers(loads) + {l.txb}
  {
    hide LoadedFrames, Buffers;
    LoadedOne(loads, l);
  }

  /** The loads so far and the flagged buffers from i on are all the flagged buffers. */
  predicate LoadedUpTo(loads: seq<Load>, tx: seq<bool>, i: nat) {
    |tx| == TXB_NUM && i <= TXB_NUM && SetBits(tx, 0) == TxbsOf(loads) + SetBits(tx, i)
  }

  lemma NoneLoaded(tx: seq<bool>)
    requires |tx| == TXB_NUM
    ensures LoadedUpTo([], tx, 0)
  {
    hide SetBits;
  }

  lemma LoadedSkip(loads: seq<Load>, tx: seq<bool>, i: nat)
    requires i < TXB_NUM && LoadedUpTo(loads, tx, i) && !tx[i]
    ensures LoadedUpTo(loads, tx, i + 1)
  {
    hide SetBits;
    SetBitsStep(tx, i);
  }

  lemma LoadedMore(loads: seq<Load>, tx: seq<bool>, l: Load)
    requires l.txb < TXB_NUM && LoadedUpTo(loads, tx, l.txb) && tx[l.txb]
    ensures LoadedUpTo(loads + [l], tx, l.txb + 1)
  {
    hide SetBits;
    var i := l.txb;
    SetBitsStep(tx, i);
    assert TxbsOf(loads + [l]) == TxbsOf(loads) + [i];
    assert TxbsOf(loads) + ([i] + SetBits(tx, i + 1)) == (TxbsOf(loads) + [i]) + SetBits(tx, i + 1);
  }

  /** Wherever the loop ends, the lowest flagged buffers are loaded; all of them unless it ends at one. */
  lemma LoadedEnd(loads: seq<Load>, tx: seq<bool>, i: nat)
    requires LoadedUpTo(loads, tx, i)
    ensures TxbsOf(loads) <= SetBits(tx, 0)
    ensures i == TXB_NUM ==> |loads| == |SetBits(tx, 0)|
    ensures i < TXB_NUM && tx[i] ==> |loads| < |SetBits(tx, 0)|
  {
    hide SetBits;
    if i == TXB_NUM {
      SetBitsEnd(tx);
    } else {
      SetBitsStep(tx, i);
    }
  }

  /** transmit_message: frames leave the queue in order into the flagged buffers, lowest first, until
      either runs out; exactly the buffers loaded are requested. */
  method TransmitMessage(q: MqCb, tx: seq<bool>) returns (loads: seq<Load>, rts: set<nat>, stopped: bool)
    requires q.Valid() && |tx| == TXB_NUM
    modifies q`head
    ensures q.Valid() && old(q.Queued()) == LoadedFrames(loads) + q.Queued()
    ensures rts == Buffers(loads)
    ensures TxbsOf(loads) <= SetBits(tx, 0)
    ensures stopped <==> |loads| < |SetBits(tx, 0)|
    ensures stopped ==> q.Queued() == []
  {
    hide *;
    loads, rts, stopped := [], {}, false;
    LoadNone();
    NoneLoaded(tx);
    for i := 0 to TXB_NUM
      invariant !stopped
      invariant q.Valid() && old(q.Queued()) == LoadedFrames(loads) + q.Queued()
      invariant rts == Buffers(loads)
      invariant LoadedUpTo(loads, tx, i)
    {
      LoadedEnd(loads, tx, i);
      if tx[i] {
        var frm := q.Pop();
        if frm.None? {
          stopped := true;
          break;
        }
        LoadStep(loads, Load(i, frm.frame), q.Queued());
        LoadedMore(loads, tx, Load(i, frm.frame));
        loads := loads + [Load(i, frm.frame)];
        rts := rts + {i};
      } else {
        LoadedSkip(loads, tx, i);
      }
    }
    if !stopped {
      LoadedEnd(loads, tx, TXB_NUM);
    }
  }
}
