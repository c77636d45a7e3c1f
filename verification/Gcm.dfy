/** The GCM context of gcm.c and its operations, over an arbitrary block cipher. Every test of
    buffer alignment is an unconstrained argument. */
module Gcm {
  import opened Bytes
  import opened LbBlocks
  import opened Gf128Mul
  import opened GcmSpec
  import opened GcmHash
  import opened GcmAuth
  import opened GcmCrypt
  import opened GcmTag

  /** RETURN_GOOD, RETURN_WARN and RETURN_ERROR */
  datatype Status = Good | Warn | Error

  /** s with the bytes from off on replaced by r. */
  function Patch(s: seq<bv8>, off: nat, r: seq<bv8>): (t: seq<bv8>)
    requires off + |r| <= |s|
    ensures |t| == |s|
  {
    s[..off] + r + s[off + |r|..]
  }

  class GcmCtx {
    var cipher: Block -> Block     // aes_encrypt under the key in the context
    var table: seq<Block>          // gf_t4k
    const ghashH: array<bv8>
    const ctrVal: array<bv8>
    const encCtr: array<bv8>
    const hdrGhv: array<bv8>
    const txtGhv: array<bv8>
    var y0Val: bv32
    var hdrCnt: nat
    var txtCcnt: nat
    var txtAcnt: nat

    ghost var j0: Block            // the first counter block of the message
    ghost var hdr: seq<bv8>        // header bytes so far
    ghost var txt: seq<bv8>        // ciphertext bytes authenticated so far

    ghost predicate Shape() {
      && ghashH.Length == 16 && ctrVal.Length == 16 && encCtr.Length == 16
      && hdrGhv.Length == 16 && txtGhv.Length == 16
      && ghashH != ctrVal && ghashH != encCtr && ghashH != hdrGhv && ghashH != txtGhv
      && ctrVal != encCtr && ctrVal != hdrGhv && ctrVal != txtGhv
      && encCtr != hdrGhv && encCtr != txtGhv && hdrGhv != txtGhv
    }

    ghost predicate Apart(data: array<bv8>) {
      data != ghashH && data != ctrVal && data != encCtr && data != hdrGhv && data != txtGhv
    }

    /** What an operation on a message may write. */
    ghost function Buffers(): set<object> {
      {ctrVal, encCtr, hdrGhv, txtGhv}
    }

    ghost function H(): Block
      reads this
    {
      cipher(ZeroBytes(16))
    }

    /** Keyed, whatever was left behind by an earlier message. */
    ghost predicate Keyed()
      reads this, ghashH
    {
      Shape() && ghashH[..] == H() && |table| == 256 && Row(table, 0, H(), 8)
    }

    /** In the middle of a message. */
    ghost predicate Valid()
      reads this, ghashH, ctrVal, encCtr, hdrGhv, txtGhv
    {
      && Keyed()
      && hdrCnt == |hdr| < COUNT_LIMIT && hdrGhv[..] == Acc(H(), hdr)
      && txtAcnt == |txt| < COUNT_LIMIT && txtGhv[..] == Acc(H(), txt)
      && txtCcnt < COUNT_LIMIT && StreamAt(cipher, j0, ctrVal[..], encCtr[..], txtCcnt, txtCcnt % 16)
      && y0Val == Load(j0, 12)
    }

    /** gcm_init_and_key: the cipher is keyed and the table of the hash key is built. */
    constructor (e: Block -> Block)
      ensures Keyed() && cipher == e
      ensures fresh(ghashH) && fresh(ctrVal) && fresh(encCtr) && fresh(hdrGhv) && fresh(txtGhv)
    {
      hide Row;
      cipher := e;
      ctrVal := new bv8[16];
      encCtr := new bv8[16];
      hdrGhv := new bv8[16];
      txtGhv := new bv8[16];
      var h := e(ZeroBytes(16));
      ghashH := new bv8[16](i requires 0 <= i < 16 => h[i]);
      var t := new Block[256];
      Init4k(h, t);
      table := t[..];
      new;
      assert ghashH[..] == h;
    }

    /** gcm_init_message */
    method InitMessage(iv: seq<bv8>)
      requires Keyed() && |iv| < 0x1_0000_0000
      modifies this, ctrVal, hdrGhv, txtGhv
      ensures Valid() && cipher == old(cipher)
      ensures j0 == CodeJ0(H(), iv) && hdr == [] && txt == [] && txtCcnt == 0
    {
      hide Row, Acc, StreamAt, CodeJ0, Load;
      FirstCounter(ctrVal, table, iv, H());
      j0 := ctrVal[..];
      y0Val := Load(ctrVal[..], 12);
      Clear(hdrGhv);
      Clear(txtGhv);
      hdrCnt, txtCcnt, txtAcnt := 0, 0, 0;
      hdr, txt := [], [];
      AccNone(H());
      StreamStart(cipher, j0, encCtr[..]);
    }

    /** gcm_auth_header */
    method AuthHeader(data: seq<bv8>, aligned: bool)
      requires Valid() && |data| < CALL_LIMIT && hdrCnt + |data| < COUNT_LIMIT
      modifies this`hdrCnt, this`hdr, hdrGhv
      ensures Valid() && hdr == old(hdr) + data
    {
      hide Row, Acc, StreamAt;
      Absorb(hdrGhv, table, hdrCnt, data, aligned, H(), hdr);
      hdrCnt := hdrCnt + |data|;
      hdr := hdr + data;
    }

    /** gcm_auth_data */
    method AuthData(data: seq<bv8>, aligned: bool)
      requires Valid() && |data| < CALL_LIMIT && txtAcnt + |data| < COUNT_LIMIT
      modifies this`txtAcnt, this`txt, txtGhv
      ensures Valid() && txt == old(txt) + data
    {
      hide Row, Acc, StreamAt;
      Absorb(txtGhv, table, txtAcnt, data, aligned, H(), txt);
      txtAcnt := txtAcnt + |data|;
      txt := txt + data;
    }

    /** gcm_crypt_data on len bytes of the buffer from off on. */
    method CryptData(data: array<bv8>, off: nat, len: nat, aligned: bool)
      requires Valid() && Apart(data) && off + len <= data.Length
      requires len < CALL_LIMIT && txtCcnt + len < COUNT_LIMIT
      modifies this`txtCcnt, ctrVal, encCtr, data
      ensures Valid() && txtCcnt == old(txtCcnt) + len
      ensures data[..] == Patch(old(data[..]), off, Gctr(cipher, j0, old(data[..])[off..off + len], old(txtCcnt)))
    {
      hide Row, Acc, StreamAt, Gctr;
      Crypt(cipher, ctrVal, encCtr, txtCcnt, data, off, len, aligned, j0);
      txtCcnt := txtCcnt + len;
    }

    /** gcm_compute_tag: the tag is written to `out` from byte `at` on. */
    method ComputeTag(out: array<bv8>, at: nat, tagLen: nat) returns (r: Status)
      requires Valid() && Apart(out) && tagLen <= 16 && at + tagLen <= out.Length
      modifies encCtr, hdrGhv, txtGhv, out
      ensures Keyed()
      ensures r == Error <==> txtAcnt != txtCcnt && txtCcnt > 0
      ensures r == Good <==> txtAcnt == txtCcnt
      ensures r == Error ==> Valid() && out[..] == old(out[..])
      ensures r != Error ==> out[..] == Patch(old(out[..]), at, CodeTag(cipher, H(), j0, hdr, txt)[..tagLen])
      ensures CodeTag(cipher, H(), j0, hdr, txt) == Tag(cipher, H(), j0, hdr, txt) <==>
              || |txt| <= CALL_LIMIT || H() == ZeroBytes(16) || H() == Unit()
              || Ghash(H(), Pad(hdr)) == ZeroBytes(16)
    {
      hide Row, Acc, StreamAt, CodeTag, Tag, Patch, Ghash, Pad, Unit;
      CodeTagExact(cipher, H(), j0, hdr, txt);
      if txtAcnt != txtCcnt && txtCcnt > 0 {
        return Error;
      }
      WriteTag(out, at, tagLen);
      r := if txtCcnt == txtAcnt then Good else Warn;
    }

    /** What follows the test of the counts. */
    method WriteTag(out: array<bv8>, at: nat, tagLen: nat)
      requires Valid() && Apart(out) && tagLen <= 16 && at + tagLen <= out.Length
      modifies encCtr, hdrGhv, txtGhv, out
      ensures out[..] == Patch(old(out[..]), at, CodeTag(cipher, H(), j0, hdr, txt)[..tagLen])
    {
      hide Row, Acc, StreamAt, CodeHash, Patch;
      FinishHash(hdrGhv, txtGhv, ghashH, table, hdrCnt, txtAcnt, H(), hdr, txt);
      EncryptJ0();
      MergeTag(out, at, tagLen);
    }

    /** enc_ctr becomes the encryption of the first counter block. */
    method EncryptJ0()
      requires Shape() && y0Val == Load(j0, 12)
      requires StreamAt(cipher, j0, ctrVal[..], encCtr[..], txtCcnt, txtCcnt % 16)
      modifies encCtr
      ensures encCtr[..] == cipher(j0)
    {
      hide Load, B0, B1, B2, B3;
      Copy(encCtr, ctrVal[..]);
      Store(encCtr, 12, y0Val);
      RestoreJ0(j0, ctrVal[..], encCtr[..]);
      Copy(encCtr, cipher(encCtr[..]));
    }

    /** The last loop: tag[i] = hdr_ghv[i] ^ enc_ctr[i] */
    method MergeTag(out: array<bv8>, at: nat, tagLen: nat)
      requires Shape() && Apart(out) && tagLen <= 16 && at + tagLen <= out.Length
      modifies out
      ensures out[..] == Patch(old(out[..]), at, Xor(hdrGhv[..], encCtr[..])[..tagLen])
    {
      hide Xor8;
      ghost var was, tag := out[..], Xor(hdrGhv[..], encCtr[..]);
      var i := 0;
      while i < tagLen
        invariant 0 <= i <= tagLen
        invariant forall k :: at <= k < at + i ==> out[k] == tag[k - at]
        invariant forall k :: 0 <= k < out.Length && !(at <= k < at + i) ==> out[k] == was[k]
      {
        out[at + i] := Xor8(hdrGhv[i], encCtr[i]);
        i := i + 1;
      }
    }

    /** gcm_encrypt_message, with gcm_encrypt inlined: encrypt, then authenticate the ciphertext. */
    method EncryptMessage(iv: seq<bv8>, header: seq<bv8>, msg: array<bv8>, off: nat, len: nat,
                          tag: array<bv8>, at: nat, tagLen: nat,
                          hdrAligned: bool, cryptAligned: bool, authAligned: bool)
      returns (r: Status)
      requires Keyed() && Apart(msg) && Apart(tag)
      requires |iv| < 0x1_0000_0000 && |header| < CALL_LIMIT && len < CALL_LIMIT && tagLen <= 16
      requires off + len <= msg.Length && at + tagLen <= tag.Length
      requires msg == tag ==> at + tagLen <= off || off + len <= at
      modifies this, ctrVal, encCtr, hdrGhv, txtGhv, msg, tag
      ensures r == Good && Keyed() && cipher == old(cipher)
      ensures var s := SealFrom(cipher, CodeJ0(H(), iv), header, old(msg[off..off + len]), tagLen);
              if msg == tag then msg[..] == Patch(Patch(old(msg[..]), off, s.text), at, s.tag)
              else msg[..] == Patch(old(msg[..]), off, s.text) && tag[..] == Patch(old(tag[..]), at, s.tag)
    {
      hide Row, Acc, StreamAt, CodeJ0, Gctr, Tag, CodeTag;
      ghost var text := msg[off..off + len];
      InitMessage(iv);
      AuthHeader(header, hdrAligned);
      assert hdr == header;
      CryptData(msg, off, len, cryptAligned);
      AuthData(msg[off..off + len], authAligned);
      assert txt == Gctr(cipher, j0, text, 0);
      var t := ComputeTag(tag, at, tagLen);
      r := if t == Good then Good else Error;
    }

    /** gcm_decrypt_message, with gcm_decrypt inlined: authenticate the ciphertext, then decrypt.
        The buffer ends up decrypted whether or not the tag is right. */
    method DecryptMessage(iv: seq<bv8>, header: seq<bv8>, msg: array<bv8>, off: nat, len: nat,
                          tag: array<bv8>, at: nat, tagLen: nat,
                          hdrAligned: bool, cryptAligned: bool, authAligned: bool)
      returns (r: Status)
      requires Keyed() && Apart(msg) && Apart(tag)
      requires |iv| < 0x1_0000_0000 && |header| < CALL_LIMIT && len < CALL_LIMIT && tagLen <= 16
      requires off + len <= msg.Length && at + tagLen <= tag.Length
      requires msg == tag ==> at + tagLen <= off || off + len <= at
      modifies this, ctrVal, encCtr, hdrGhv, txtGhv, msg
      ensures r != Warn && Keyed() && cipher == old(cipher)
      ensures r == Good <==>
              TagMatches(cipher, CodeJ0(H(), iv), header, old(msg[off..off + len]), old(tag[at..at + tagLen]))
      ensures msg[..] == Patch(old(msg[..]), off, Gctr(cipher, CodeJ0(H(), iv), old(msg[off..off + len]), 0))
    {
      hide Row, Acc, StreamAt, CodeJ0, Gctr, Tag, CodeTag;
      ghost var text, given := msg[off..off + len], tag[at..at + tagLen];
      var localTag := new bv8[16];
      InitMessage(iv);
      AuthHeader(header, hdrAligned);
      assert hdr == header;
      AuthData(msg[off..off + len], authAligned);
      assert txt == text;
      CryptData(msg, off, len, cryptAligned);
      assert tag[at..at + tagLen] == given;
      var rr := ComputeTag(localTag, 0, tagLen);
      assert localTag[..tagLen] == Tag(cipher, H(), j0, hdr, txt)[..tagLen];
      r := if rr != Good || tag[at..at + tagLen] != localTag[..tagLen] then Error else Good;
    }
  }

  lemma StreamStart(e: Block -> Block, j0: Block, enc: Block)
    ensures StreamAt(e, j0, j0, enc, 0, 0)
  {
  }

  /** Two contexts that share no memory. */
  ghost predicate Separate(a: GcmCtx, b: GcmCtx) {
    a != b && a.Buffers() + {a.ghashH} !! b.Buffers() + {b.ghashH}
  }

  lemma PatchAt(m: seq<bv8>, off: nat, r: seq<bv8>)
    requires off + |r| <= |m|
    ensures forall k :: 0 <= k < |m| ==> Patch(m, off, r)[k] == if off <= k < off + |r| then r[k - off] else m[k]
  {
  }

  /** Text and tag in two places of one buffer can be read back, and putting the text back leaves only
      the tag. */
  lemma PatchedPair(m: seq<bv8>, off: nat, c: seq<bv8>, at: nat, t: seq<bv8>)
    requires off + |c| <= |m| && at + |t| <= |m| && (at + |t| <= off || off + |c| <= at)
    ensures var n := Patch(Patch(m, off, c), at, t);
      && n[off..off + |c|] == c && n[at..at + |t|] == t
      && Patch(n, off, m[off..off + |c|]) == Patch(m, at, t)
  {
    hide Patch;
    var n := Patch(Patch(m, off, c), at, t);
    PatchAt(m, off, c);
    PatchAt(Patch(m, off, c), at, t);
    PatchAt(n, off, m[off..off + |c|]);
    PatchAt(m, at, t);
  }

  lemma PatchedOne(m: seq<bv8>, off: nat, c: seq<bv8>)
    requires off + |c| <= |m|
    ensures Patch(m, off, c)[off..off + |c|] == c
    ensures Patch(Patch(m, off, c), off, m[off..off + |c|]) == m
  {
  }

  /** gcm_decrypt_message undoes gcm_encrypt_message: in two contexts under one key, or in one, each in
      any state, with text and tag in two buffers or in one, and through any mixture of the alignment
      branches. Nothing but the tag is left changed. */
  method EncryptThenDecrypt(g: GcmCtx, d: GcmCtx, iv: seq<bv8>, header: seq<bv8>, msg: array<bv8>, off: nat, len: nat,
                            tag: array<bv8>, at: nat, tagLen: nat,
                            sending: (bool, bool, bool), receiving: (bool, bool, bool)) returns (r: Status)
    requires g.Keyed() && d.Keyed() && g.cipher == d.cipher && (g == d || Separate(g, d))
    requires g.Apart(msg) && g.Apart(tag) && d.Apart(msg) && d.Apart(tag)
    requires |iv| < 0x1_0000_0000 && |header| < CALL_LIMIT && len < CALL_LIMIT && tagLen <= 16
    requires off + len <= msg.Length && at + tagLen <= tag.Length
    requires msg == tag ==> at + tagLen <= off || off + len <= at
    modifies g, g.Buffers(), d, d.Buffers(), msg, tag
    ensures r == Good
    ensures forall k :: 0 <= k < msg.Length && !(msg == tag && at <= k < at + tagLen) ==> msg[k] == old(msg[k])
    ensures forall k :: 0 <= k < tag.Length && !(at <= k < at + tagLen) ==> tag[k] == old(tag[k])
  {
    hide Row, CodeJ0, Gctr, Tag, TagMatches, Patch;
    ghost var m, t := msg[..], tag[..];
    ghost var j0 := CodeJ0(g.H(), iv);
    ghost var s := SealFrom(g.cipher, j0, header, msg[off..off + len], tagLen);
    OpenSeal(g.cipher, j0, header, msg[off..off + len], tagLen);
    r := g.EncryptMessage(iv, header, msg, off, len, tag, at, tagLen, sending.0, sending.1, sending.2);
    PatchedOne(m, off, s.text);
    PatchedOne(t, at, s.tag);
    if msg == tag {
      PatchedPair(m, off, s.text, at, s.tag);
    }
    assert msg[off..off + len] == s.text && tag[at..at + tagLen] == s.tag by {
      assert msg[off..off + len] == msg[..][off..off + len];
      assert tag[at..at + tagLen] == tag[..][at..at + tagLen];
    }
    r := d.DecryptMessage(iv, header, msg, off, len, tag, at, tagLen, receiving.0, receiving.1, receiving.2);
    assert m[off..off + len] == old(msg[off..off + len]);
    PatchAt(t, at, s.tag);
    assert msg[..] == if msg == tag then Patch(t, at, s.tag) else m;
    assert tag[..] == Patch(t, at, s.tag);
  }
}
