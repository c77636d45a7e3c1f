/** The context of commsec.c and its operations on caller memory. */
module Commsec {
  import opened Bytes
  import opened GcmSpec
  import opened GcmTag
  import opened Gf128Mul
  import opened Gcm
  import opened AesSpec
  import opened AesKey
  import opened CommsecSpec
  import opened CommsecDelivery

  /** aes_encrypt under a raw key. */
  function KeyedCipher(key: Block): Block -> Block {
    (b: Block) => Cipher(Expand(key), b)
  }

  /** It is the cipher that decryption under the same key undoes, on every block. */
  lemma KeyedCipherUndone(key: Block, b: Block)
    ensures InvCipher(Expand(key), KeyedCipher(key)(b)) == b
  {
    hide Cipher, InvCipher, Expand;
    InvCipherCipher(Expand(key), b);
  }

  method KeyBoth(dec: Block -> Block, enc: Block -> Block) returns (d: GcmCtx, e: GcmCtx)
    ensures d.Keyed() && e.Keyed() && d.cipher == dec && e.cipher == enc
    ensures fresh(d) && fresh(e) && fresh(d.Buffers() + {d.ghashH}) && fresh(e.Buffers() + {e.ghashH})
    ensures Separate(e, d)
  {
    hide Row;
    d := new GcmCtx(dec);
    label L:
    e := new GcmCtx(enc);
    assert fresh@L(e.Buffers() + {e.ghashH});
  }

  class CommsecCtx {
    var encCtx: GcmCtx?            // null once erased
    var encSalt: Word32
    var myId: Word32
    var myCounter: Word32
    var decCtx: GcmCtx?
    var decSalt: Word32
    var mostRecentCounter: Counters

    /** A key may only be missing where the counters keep every call from reaching it. */
    ghost predicate Valid()
      reads this, encCtx, decCtx
      reads if encCtx == null then {} else {encCtx.ghashH}, if decCtx == null then {} else {decCtx.ghashH}
    {
      && (encCtx == null ==> myCounter == UINT32_MAX)
      && (decCtx == null ==> mostRecentCounter == AllCounters(UINT32_MAX))
      && (encCtx != null ==> encCtx.Keyed())
      && (decCtx != null ==> decCtx.Keyed())
      && (encCtx != null && decCtx != null ==> Separate(encCtx, decCtx))
    }

    ghost predicate Apart(mem: array<bv8>)
      reads this
    {
      (encCtx != null ==> encCtx.Apart(mem)) && (decCtx != null ==> decCtx.Apart(mem))
    }

    ghost function View(): Ctx
      reads this, encCtx, decCtx
    {
      Ctx(if encCtx == null then NO_KEY else encCtx.cipher, encSalt, myId, myCounter,
          if decCtx == null then NO_KEY else decCtx.cipher, decSalt, mostRecentCounter)
    }

    /** An object before its first initialisation counts as erased. */
    constructor ()
      ensures Valid() && View() == AfterZero(View())
    {
      encCtx, decCtx := null, null;
      encSalt, decSalt, myId, myCounter := 0, 0, 0, UINT32_MAX;
      mostRecentCounter := AllCounters(UINT32_MAX);
    }

    /** The loops over mostRecentCounter in securePkg_init and securePkg_zero. */
    method SetCounters(n: Word32)
      modifies this`mostRecentCounter
      ensures mostRecentCounter == AllCounters(n)
    {
      for i := 0 to 16
        invariant forall k :: 0 <= k < i ==> mostRecentCounter[k] == n
      {
        mostRecentCounter := mostRecentCounter[i := n];
      }
    }

    /** securePkg_init */
    method Init(myID: Word32, saltDec: Word32, rawDecKey: Block, saltEnc: Word32, rawEncKey: Block) returns (r: Code)
      modifies this
      ensures r == Succeed && Valid()
      ensures fresh(encCtx) && fresh(encCtx.Buffers() + {encCtx.ghashH})
      ensures fresh(decCtx) && fresh(decCtx.Buffers() + {decCtx.ghashH})
      ensures View() == Fresh(KeyedCipher(rawEncKey), saltEnc, myID, KeyedCipher(rawDecKey), saltDec)
    {
      hide Cipher, Expand, KeyedCipher, Row, Separate;
      decCtx, encCtx := KeyBoth(KeyedCipher(rawDecKey), KeyedCipher(rawEncKey));
      encSalt, decSalt, myCounter, myId := saltEnc, saltDec, 1, myID;
      SetCounters(0);
      r := Succeed;
    }

    /** securePkg_enc: memory is one array, holding the message, the header and the tag in places of their own. */
    method Enc(mem: array<bv8>, msg: nat, len: nat, ivStorage: nat, tag: nat, aligned: (bool, bool, bool))
      returns (r: Code)
      requires Valid() && Apart(mem)
      requires len <= MAX_MESSAGE_LEN ==>
        && msg + len <= mem.Length && ivStorage + HEADER_LEN <= mem.Length && tag + TAG_LEN <= mem.Length
        && (tag + TAG_LEN <= msg || msg + len <= tag)
        && (ivStorage + HEADER_LEN <= msg || msg + len <= ivStorage)
        && (ivStorage + HEADER_LEN <= tag || tag + TAG_LEN <= ivStorage)
      modifies this`myCounter, mem, encCtx, if encCtx == null then {} else encCtx.Buffers()
      ensures Valid() && r == EncCode(old(View()), len) && View() == AfterEnc(old(View()), len)
      ensures r != Succeed ==> mem[..] == old(mem[..])
      ensures r == Succeed ==>
        var c := old(View());
        var s := SealMessage(c.enc, c.encSalt, c.myId, c.myCounter, old(mem[msg..msg + len]));
        mem[..] == Patch(Patch(Patch(old(mem[..]), msg, s.text), tag, s.tag), ivStorage,
                         Be32(c.myId) + Be32(c.myCounter))
    {
      hide Iv, SealMessage, Patch, Be32, Row;
      if len > MAX_MESSAGE_LEN {
        return MsgLength;
      }
      if myCounter == UINT32_MAX {
        return CtrRollover;
      }
      var counter := myCounter;
      myCounter := myCounter + 1;
      r := SealInto(encCtx, encSalt, myId, counter, mem, msg, len, ivStorage, tag, aligned);
    }

    /** securePkg_enc_in_place: the package is built around the message, where it lies. */
    method EncInPlace(mem: array<bv8>, start: nat, len: nat, aligned: (bool, bool, bool)) returns (r: Code)
      requires Valid() && Apart(mem)
      requires start >= 8 && len <= MAX_MESSAGE_LEN ==> start + len + TAG_LEN <= mem.Length
      modifies this`myCounter, mem, encCtx, if encCtx == null then {} else encCtx.Buffers()
      ensures Valid() && r == if start < 8 then BadInput else EncCode(old(View()), len)
      ensures View() == if start < 8 then old(View()) else AfterEnc(old(View()), len)
      ensures r != Succeed ==> mem[..] == old(mem[..])
      ensures r == Succeed ==>
        var c := old(View());
        var p := Package(c.enc, c.encSalt, c.myId, c.myCounter, old(mem[start..start + len]));
        |p| == HEADER_LEN + len + TAG_LEN && mem[..] == Patch(old(mem[..]), start - HEADER_LEN, p)
    {
      hide SealMessage, Patch, Be32, Row;
      if start < 8 {
        r := BadInput;
      } else {
        ghost var c, was := View(), mem[..];
        r := Enc(mem, start, len, start - HEADER_LEN, start + len, aligned);
        if r == Succeed {
          ghost var s := SealMessage(c.enc, c.encSalt, c.myId, c.myCounter, was[start..start + len]);
          Contiguous(was, start, Be32(c.myId) + Be32(c.myCounter), s.text, s.tag);
        }
      }
    }

    /** securePkg_dec on the first pkgLen bytes of the buffer. */
    method Dec(pkg: array<bv8>, pkgLen: nat, aligned: (bool, bool, bool)) returns (r: Code)
      requires Valid() && Apart(pkg) && pkgLen <= pkg.Length && pkgLen <= UINT32_MAX
      modifies this`mostRecentCounter, pkg, decCtx, if decCtx == null then {} else decCtx.Buffers()
      ensures Valid() && r == DecCode(old(View()), old(pkg[..pkgLen]))
      ensures View() == AfterDec(old(View()), old(pkg[..pkgLen]))
      ensures pkg[..pkgLen] == DecBuffer(old(View()), old(pkg[..pkgLen])) && pkg[pkgLen..] == old(pkg[pkgLen..])
    {
      hide Row, Read32, TagMatches, Gctr, J0, Iv, Patch, Body, GivenTag;
      if pkgLen < HEADER_LEN + TAG_LEN + 1 {
        return MsgLength;
      }
      var theirId, theirCounter := TheirId(pkg[..pkgLen]), TheirCounter(pkg[..pkgLen]);
      if theirId >= MAX_BASE_STATIONS {
        return BadBaseStation;
      }
      if mostRecentCounter[theirId] >= theirCounter {
        return DupCtr;
      }
      var good := OpenIn(decCtx, decSalt, theirId, theirCounter, pkg, pkgLen, aligned);
      if good {
        r := Succeed;
        mostRecentCounter := Recorded(mostRecentCounter, theirId, theirCounter);
      } else {
        r := FailGcm;
      }
    }

    /** securePkg_zero */
    method Zero()
      requires Valid()
      modifies this
      ensures Valid() && View() == AfterZero(old(View()))
      ensures encCtx == null && decCtx == null
    {
      hide Row, Separate;
      decCtx, encCtx := null, null;
      encSalt, myId, myCounter, decSalt := 0, 0, UINT32_MAX, 0;
      SetCounters(UINT32_MAX);
    }
  }

  /** The decryption proper: in place, and done whether or not the tag is right. */
  method OpenIn(g: GcmCtx, salt: Word32, id: Word32, counter: Word32, pkg: array<bv8>, pkgLen: nat,
                aligned: (bool, bool, bool))
    returns (good: bool)
    requires g.Keyed() && g.Apart(pkg) && HEADER_LEN + TAG_LEN <= pkgLen <= pkg.Length && pkgLen <= UINT32_MAX
    modifies g, g.Buffers(), pkg
    ensures g.Keyed() && g.cipher == old(g.cipher)
    ensures var j0, p := J0(g.cipher(ZeroBytes(16)), Iv(salt, id, counter)), old(pkg[..pkgLen]);
      && (good <==> TagMatches(g.cipher, j0, [], Body(p), GivenTag(p)))
      && pkg[..pkgLen] == Patch(p, HEADER_LEN, Gctr(g.cipher, j0, Body(p), 0))
    ensures pkg[pkgLen..] == old(pkg[pkgLen..])
  {
    hide Row, TagMatches, Gctr, J0, Iv, Patch;
    ghost var p := pkg[..pkgLen];
    var iv := Iv(salt, id, counter);
    ShortIvExact(g.H(), iv);
    assert pkg[HEADER_LEN..pkgLen - TAG_LEN] == Body(p);
    assert pkg[pkgLen - TAG_LEN..pkgLen] == GivenTag(p);
    var gcmRet := g.DecryptMessage(iv, [], pkg, HEADER_LEN, pkgLen - HEADER_LEN - TAG_LEN,
                                   pkg, pkgLen - TAG_LEN, TAG_LEN,
                                   aligned.0, aligned.1, aligned.2);
    good := gcmRet == Good;
    PatchedPrefix(old(pkg[..]), HEADER_LEN, Gctr(g.cipher, CodeJ0(g.H(), iv), Body(p), 0), pkgLen);
  }

  lemma PatchedPrefix(m: seq<bv8>, at: nat, r: seq<bv8>, n: nat)
    requires at + |r| <= n <= |m|
    ensures Patch(m, at, r)[..n] == Patch(m[..n], at, r)
    ensures Patch(m, at, r)[n..] == m[n..]
  {
  }

  /** Header, text and tag side by side are one piece. */
  lemma Contiguous(m: seq<bv8>, start: nat, header: seq<bv8>, text: seq<bv8>, tag: seq<bv8>)
    requires |header| == HEADER_LEN <= start && |tag| == TAG_LEN && start + |text| + TAG_LEN <= |m|
    ensures Patch(Patch(Patch(m, start, text), start + |text|, tag), start - HEADER_LEN, header)
         == Patch(m, start - HEADER_LEN, header + text + tag)
  {
  }

  /** The encryption proper: the message is encrypted in place and its tag and header are stored. */
  method SealInto(g: GcmCtx, salt: Word32, id: Word32, counter: Word32, mem: array<bv8>, msg: nat, len: nat,
                  ivStorage: nat, tag: nat, aligned: (bool, bool, bool)) returns (r: Code)
    requires g.Keyed() && g.Apart(mem) && len <= MAX_MESSAGE_LEN
    requires msg + len <= mem.Length && ivStorage + HEADER_LEN <= mem.Length && tag + TAG_LEN <= mem.Length
    requires tag + TAG_LEN <= msg || msg + len <= tag
    modifies g, g.Buffers(), mem
    ensures r == Succeed && g.Keyed() && g.cipher == old(g.cipher)
    ensures var s := SealMessage(g.cipher, salt, id, counter, old(mem[msg..msg + len]));
            |s.text| == len && |s.tag| == TAG_LEN &&
            mem[..] == Patch(Patch(Patch(old(mem[..]), msg, s.text), tag, s.tag), ivStorage, Be32(id) + Be32(counter))
  {
    hide Gctr, Tag, J0, Be32, Row, Patch;
    var iv := Iv(salt, id, counter);
    ShortIvExact(g.H(), iv);
    var gcmRet := g.EncryptMessage(iv, [], mem, msg, len, mem, tag, TAG_LEN, aligned.0, aligned.1, aligned.2);
    r := if gcmRet == Good then Succeed else FailGcm;
    assert iv[4..12] == Be32(id) + Be32(counter);
    WriteAt(mem, ivStorage, iv[4..12]);
  }

  method WriteAt(mem: array<bv8>, at: nat, s: seq<bv8>)
    requires at + |s| <= mem.Length
    modifies mem
    ensures mem[..] == Patch(old(mem[..]), at, s)
  {
    ghost var was := mem[..];
    for i := 0 to |s|
      invariant forall k :: at <= k < at + i ==> mem[k] == s[k - at]
      invariant forall k :: 0 <= k < mem.Length && !(at <= k < at + i) ==> mem[k] == was[k]
    {
      mem[at + i] := s[i];
    }
  }

  /** The sending half: the package stands at the start of memory and the other context is as it was. */
  method Send(tx: CommsecCtx, rx: CommsecCtx, mem: array<bv8>, len: nat, sending: (bool, bool, bool))
    returns (sent: Code)
    requires tx != rx && tx.Valid() && rx.Valid() && tx.Apart(mem) && rx.Apart(mem)
    requires tx.encCtx != null && tx.myCounter < UINT32_MAX
    requires rx.decCtx != null ==> Separate(tx.encCtx, rx.decCtx)
    requires rx.encCtx != null ==> Separate(tx.encCtx, rx.encCtx)
    requires len <= MAX_MESSAGE_LEN && HEADER_LEN + len + TAG_LEN <= mem.Length
    modifies tx`myCounter, mem, tx.encCtx, tx.encCtx.Buffers()
    ensures sent == Succeed && rx.Valid() && rx.View() == old(rx.View()) && tx.View() == AfterEnc(old(tx.View()), len)
    ensures var c := old(tx.View());
            mem[..HEADER_LEN + len + TAG_LEN] ==
            Package(c.enc, c.encSalt, c.myId, c.myCounter, old(mem[HEADER_LEN..HEADER_LEN + len]))
  {
    hide Row, Separate, Package, Patch;
    ghost var c := tx.View();
    ghost var p := Package(c.enc, c.encSalt, c.myId, c.myCounter, mem[HEADER_LEN..HEADER_LEN + len]);
    sent := tx.EncInPlace(mem, HEADER_LEN, len, sending);
    PackageAtStart(old(mem[..]), p);
    assert mem[..|p|] == p;
    if rx.decCtx != null {
      Untouched(tx.encCtx, rx.decCtx);
    }
    if rx.encCtx != null {
      Untouched(tx.encCtx, rx.encCtx);
    }
  }

  /** A package built in place by one context and opened in place by another: with matching key and
      salt, a known station, room for the header and a counter above the record, the message is back. */
  method SendAndReceive(tx: CommsecCtx, rx: CommsecCtx, mem: array<bv8>, len: nat,
                        sending: (bool, bool, bool), receiving: (bool, bool, bool)) returns (sent: Code, got: Code)
    requires tx != rx && tx.Valid() && rx.Valid() && tx.Apart(mem) && rx.Apart(mem)
    requires tx.encCtx != null && rx.decCtx != null && Separate(tx.encCtx, rx.decCtx)
    requires rx.encCtx != null ==> Separate(tx.encCtx, rx.encCtx)
    requires tx.encCtx.cipher == rx.decCtx.cipher && tx.encSalt == rx.decSalt && tx.myId < MAX_BASE_STATIONS
    requires rx.mostRecentCounter[tx.myId] < tx.myCounter < UINT32_MAX
    requires 1 <= len <= MAX_MESSAGE_LEN && HEADER_LEN + len + TAG_LEN <= mem.Length
    modifies tx`myCounter, rx`mostRecentCounter, mem
    modifies tx.encCtx, tx.encCtx.Buffers(), rx.decCtx, rx.decCtx.Buffers()
    ensures sent == Succeed && got == Succeed
    ensures mem[HEADER_LEN..HEADER_LEN + len] == old(mem[HEADER_LEN..HEADER_LEN + len])
    ensures rx.mostRecentCounter == Recorded(old(rx.mostRecentCounter), tx.myId, old(tx.myCounter))
  {
    hide Row, Separate, Package, DecCode, DecBuffer, AfterDec, Body, Patch;
    IntactPackage(rx.View(), tx.myId, tx.myCounter, mem[HEADER_LEN..HEADER_LEN + len]);
    sent := Send(tx, rx, mem, len, sending);
    got := rx.Dec(mem, HEADER_LEN + len + TAG_LEN, receiving);
    BodyAt(mem[..], len);
  }

  /** Separate contexts have no buffer in common. */
  lemma Untouched(a: GcmCtx, b: GcmCtx)
    requires Separate(a, b)
    ensures a != b && b.ghashH !in a.Buffers()
  {
  }

  lemma IntactPackage(d: Ctx, id: Word32, counter: Word32, m: seq<bv8>)
    requires m != [] && id < MAX_BASE_STATIONS && d.recent[id] < counter
    ensures var p := Package(d.dec, d.decSalt, id, counter, m);
      && |p| == HEADER_LEN + |m| + TAG_LEN
      && DecCode(d, p) == Succeed && AfterDec(d, p).recent == Recorded(d.recent, id, counter)
      && |DecBuffer(d, p)| == |p| && Body(DecBuffer(d, p)) == m
  {
    hide Package, DecCode, TheirId, TheirCounter, Body, Gctr, FirstBlock;
    PackageParts(d.dec, d.decSalt, id, counter, m);
    OpenPackage(d, id, counter, m);
  }

  lemma PackageAtStart(m: seq<bv8>, p: seq<bv8>)
    requires |p| <= |m|
    ensures Patch(m, 0, p)[..|p|] == p
  {
  }

  lemma BodyAt(m: seq<bv8>, len: nat)
    requires HEADER_LEN + len + TAG_LEN <= |m|
    ensures Body(m[..HEADER_LEN + len + TAG_LEN]) == m[HEADER_LEN..HEADER_LEN + len]
  {
  }
}
