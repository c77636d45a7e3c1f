/** A package as it stands on the wire, in bytes and numbers. */
module CommsecWire {
  import opened Bytes
  import opened Octets
  import opened GcmSpec
  import opened GcmLaws
  import opened CommsecSpec
  import opened CommsecDelivery

  lemma ReadIs(s: seq<bv8>, i: nat)
    requires i + 4 <= |s|
    ensures Read32(s, i) == BeValue(s[i..i + 4])
  {
    hide Value;
    BeOfFour(s[i], s[i + 1], s[i + 2], s[i + 3]);
    assert s[i..i + 4] == [s[i], s[i + 1], s[i + 2], s[i + 3]];
  }

  lemma Be32Value(n: Word32)
    ensures BeValue(Be32(n)) == n
  {
    hide Be32, Read32, BeValue;
    assert Be32(n)[0..4] == Be32(n);
    ReadBe32(Be32(n), 0, n);
    ReadIs(Be32(n), 0);
  }

  /** Salt, station id and counter, four bytes each, most significant byte first. */
  predicate IsIv(t: seq<bv8>, salt: Word32, id: Word32, counter: Word32) {
    |t| == 12 && BeValue(t[..4]) == salt && BeValue(t[4..8]) == id && BeValue(t[8..]) == counter
  }

  lemma IvIs(salt: Word32, id: Word32, counter: Word32, t: seq<bv8>)
    ensures t == Iv(salt, id, counter) <==> IsIv(t, salt, id, counter)
  {
    hide Be32, BeValue;
    var u := Iv(salt, id, counter);
    assert u[..4] == Be32(salt) && u[4..8] == Be32(id) && u[8..] == Be32(counter);
    Be32Value(salt);
    Be32Value(id);
    Be32Value(counter);
    if IsIv(t, salt, id, counter) {
      BeInjective(t[..4], u[..4]);
      BeInjective(t[4..8], u[4..8]);
      BeInjective(t[8..], u[8..]);
      assert t == t[..4] + t[4..8] + t[8..];
    }
  }

  /** The block that starts with the initialisation vector and ends with the number n. */
  predicate IsCounterBlock(c: Block, salt: Word32, id: Word32, counter: Word32, n: nat) {
    IsIv(c[..12], salt, id, counter) && Count(c) == n
  }

  lemma FirstBlockIs(e: Block -> Block, salt: Word32, id: Word32, counter: Word32, j: Block)
    requires IsCounterBlock(j, salt, id, counter, 1)
    ensures J0(e(ZeroBytes(16)), Iv(salt, id, counter)) == j
  {
    hide IsIv, Count, Iv, J0;
    var iv := Iv(salt, id, counter);
    IvIs(salt, id, counter, j[..12]);
    J0OfTwelve(e(ZeroBytes(16)), iv);
    SameBlock(J0(e(ZeroBytes(16)), iv), j);
  }

  lemma PackageIs(e: Block -> Block, salt: Word32, id: Word32, counter: Word32, msg: seq<bv8>)
    ensures var p, s := Package(e, salt, id, counter, msg), SealMessage(e, salt, id, counter, msg);
      && |p| == |msg| + 16 && |s.text| == |msg|
      && p[..4] == Be32(id) && p[4..8] == Be32(counter)
      && p[8..8 + |msg|] == s.text && p[8 + |msg|..] == s.tag
  {
    hide Be32, Iv, Gctr, Tag, J0;
  }

  /** The station id, then the counter, then as many bytes as the message has, then eight more. */
  lemma WireHeader(e: Block -> Block, salt: Word32, id: Word32, counter: Word32, msg: seq<bv8>)
    ensures var p := Package(e, salt, id, counter, msg);
            |p| == |msg| + 16 && BeValue(p[..4]) == id && BeValue(p[4..8]) == counter
  {
    hide Package, SealMessage, BeValue, Be32;
    PackageIs(e, salt, id, counter, msg);
    Be32Value(id);
    Be32Value(counter);
  }

  /** Byte i of the message is masked by the encryption of the vector followed by 2 + i / 16. */
  lemma WireText(e: Block -> Block, salt: Word32, id: Word32, counter: Word32, msg: seq<bv8>,
                 i: nat, c: Block)
    requires i < |msg|
    requires IsCounterBlock(c, salt, id, counter, (2 + i / 16) % M32)
    ensures var p := Package(e, salt, id, counter, msg);
            |p| == |msg| + 16 && p[8 + i] == Xor8(msg[i], e(c)[i % 16])
  {
    hide Package, Gctr, Tag, J0, Iv, IsIv, Count, Xor8;
    PackageIs(e, salt, id, counter, msg);
    IvIs(salt, id, counter, c[..12]);
    J0OfTwelve(e(ZeroBytes(16)), c[..12]);
    var j := J0(e(ZeroBytes(16)), c[..12]);
    SealedText(e, j, [], msg, TAG_LEN, i, c);
    var p := Package(e, salt, id, counter, msg);
    assert p[8 + i] == p[8..8 + |msg|][i];
  }

  /** The last eight bytes: the hash, under E(0), of the ciphertext and its length, masked by the
      encryption of the vector followed by 1. */
  lemma WireTag(e: Block -> Block, salt: Word32, id: Word32, counter: Word32, msg: seq<bv8>, j: Block, t: seq<bv8>)
    requires IsCounterBlock(j, salt, id, counter, 1)
    requires |Package(e, salt, id, counter, msg)| == |msg| + 16
    requires IsTagString(t, [], Package(e, salt, id, counter, msg)[8..8 + |msg|])
    ensures |t| % 16 == 0
    ensures Package(e, salt, id, counter, msg)[8 + |msg|..] == Xor(Ghash(e(ZeroBytes(16)), t), e(j))[..8]
  {
    hide Package, Gctr, Tag, J0, Iv, IsIv, Count, Xor, Ghash, IsTagString;
    PackageIs(e, salt, id, counter, msg);
    FirstBlockIs(e, salt, id, counter, j);
    SealedTag(e, j, [], msg, TAG_LEN, t);
  }
}
