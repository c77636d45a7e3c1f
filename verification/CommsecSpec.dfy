/** The package protocol of commsec.c as a state machine over values. A package is
    [ station id | counter | ciphertext | tag ]. */
module CommsecSpec {
  import opened Bytes
  import opened Octets
  import opened GcmSpec
  import opened Gcm

  const MAX_BASE_STATIONS: nat := 16
  const TAG_LEN: nat := 8
  const HEADER_LEN: nat := 8
  const MAX_MESSAGE_LEN: nat := 512
  const UINT32_MAX: nat := 0xffff_ffff

  /** uint32_t */
  type Word32 = n: nat | n <= UINT32_MAX

  datatype Code = Succeed | BadBaseStation | DupCtr | CtrRollover | BadInput | MsgLength | FailGcm

  /** mostRecentCounter */
  type Counters = r: seq<Word32> | |r| == 16 witness AllCounters(0)

  function AllCounters(n: Word32): (r: seq<Word32>)
    ensures |r| == 16
    ensures forall i :: 0 <= i < 16 ==> r[i] == n
  {
    seq(16, (i: nat) => n)
  }

  /** commsec_ctx, with the key of each direction as the block cipher it selects. */
  datatype Ctx = Ctx(enc: Block -> Block, encSalt: Word32, myId: Word32, myCounter: Word32,
                     dec: Block -> Block, decSalt: Word32, recent: Counters)

  /* ----- bytes ----- */

  /** Four bytes, most significant first. */
  function Be32(n: Word32): (r: seq<bv8>)
    ensures |r| == 4
  {
    [Octet(n / 0x100_0000), Octet(n / 0x1_0000), Octet(n / 0x100), Octet(n)]
  }

  function Read32(s: seq<bv8>, i: nat): Word32
    requires i + 4 <= |s|
  {
    Value(s[i]) * 0x100_0000 + Value(s[i + 1]) * 0x1_0000 + Value(s[i + 2]) * 0x100 + Value(s[i + 3])
  }

  lemma Digits(n: Word32)
    ensures n / 0x100_0000 % 256 * 0x100_0000 + n / 0x1_0000 % 256 * 0x1_0000 + n / 0x100 % 256 * 0x100 + n % 256 == n
  {
    var a, b, c := n / 0x100, n / 0x1_0000, n / 0x100_0000;
    assert b == a / 0x100;
    assert c == b / 0x100;
    assert c % 256 == c;
  }

  lemma ReadBe32(s: seq<bv8>, i: nat, n: Word32)
    requires i + 4 <= |s| && s[i..i + 4] == Be32(n)
    ensures Read32(s, i) == n
  {
    hide Octet, Value;
    ValueOfOctet(n / 0x100_0000);
    ValueOfOctet(n / 0x1_0000);
    ValueOfOctet(n / 0x100);
    ValueOfOctet(n);
    Digits(n);
    var t := s[i..i + 4];
    assert s[i] == t[0] && s[i + 1] == t[1] && s[i + 2] == t[2] && s[i + 3] == t[3];
  }

  function Iv(salt: Word32, id: Word32, counter: Word32): (r: seq<bv8>)
    ensures |r| == 12
  {
    Be32(salt) + Be32(id) + Be32(counter)
  }

  /** Different counters give different initialisation vectors. */
  lemma IvInjective(salt: Word32, id: Word32, c: Word32, d: Word32)
    requires Iv(salt, id, c) == Iv(salt, id, d)
    ensures c == d
  {
    hide Be32, Read32;
    assert Iv(salt, id, c)[8..12] == Be32(c);
    assert Iv(salt, id, d)[8..12] == Be32(d);
    ReadBe32(Be32(c), 0, c);
    ReadBe32(Be32(d), 0, d);
    assert Be32(c)[0..4] == Be32(c);
    assert Be32(d)[0..4] == Be32(d);
  }

  function SealMessage(e: Block -> Block, salt: Word32, id: Word32, counter: Word32, msg: seq<bv8>): (s: Sealed)
    ensures |s.text| == |msg| && |s.tag| == TAG_LEN
  {
    Seal(e, Iv(salt, id, counter), [], msg, TAG_LEN)
  }

  function Package(e: Block -> Block, salt: Word32, id: Word32, counter: Word32, msg: seq<bv8>): seq<bv8> {
    var s := SealMessage(e, salt, id, counter, msg);
    Be32(id) + Be32(counter) + s.text + s.tag
  }

  /* ----- operations ----- */

  /** What one call did. */
  datatype Event =
    | Sent(iv: seq<bv8>, counter: Word32, msg: seq<bv8>, pkg: seq<bv8>)
    | Accepted(station: Word32, counter: Word32, msg: seq<bv8>)
    | Erased
    | Refused(code: Code)

  datatype Op = Enc(msg: seq<bv8>) | EncInPlace(start: nat, msg: seq<bv8>) | Dec(pkg: seq<bv8>) | Zero

  function EncCode(c: Ctx, len: nat): Code {
    if len > MAX_MESSAGE_LEN then MsgLength
    else if c.myCounter == UINT32_MAX then CtrRollover
    else Succeed
  }

  function AfterEnc(c: Ctx, len: nat): Ctx {
    if EncCode(c, len) == Succeed then c.(myCounter := c.myCounter + 1) else c
  }

  function EncEvent(c: Ctx, msg: seq<bv8>): Event {
    if EncCode(c, |msg|) == Succeed then
      Sent(Iv(c.encSalt, c.myId, c.myCounter), c.myCounter, msg,
           Package(c.enc, c.encSalt, c.myId, c.myCounter, msg))
    else Refused(EncCode(c, |msg|))
  }

  function TheirId(pkg: seq<bv8>): Word32
    requires |pkg| >= HEADER_LEN
  {
    Read32(pkg, 0)
  }

  function TheirCounter(pkg: seq<bv8>): Word32
    requires |pkg| >= HEADER_LEN
  {
    Read32(pkg, 4)
  }

  function FirstBlock(c: Ctx, pkg: seq<bv8>): Block
    requires |pkg| >= HEADER_LEN
  {
    J0(c.dec(ZeroBytes(16)), Iv(c.decSalt, TheirId(pkg), TheirCounter(pkg)))
  }

  function Body(pkg: seq<bv8>): seq<bv8>
    requires |pkg| >= HEADER_LEN + TAG_LEN
  {
    pkg[HEADER_LEN..|pkg| - TAG_LEN]
  }

  function GivenTag(pkg: seq<bv8>): (t: seq<bv8>)
    requires |pkg| >= HEADER_LEN + TAG_LEN
    ensures |t| == TAG_LEN
  {
    pkg[|pkg| - TAG_LEN..]
  }

  function DecCode(c: Ctx, pkg: seq<bv8>): Code {
    if |pkg| < HEADER_LEN + TAG_LEN + 1 then MsgLength
    else if TheirId(pkg) >= MAX_BASE_STATIONS then BadBaseStation
    else if c.recent[TheirId(pkg)] >= TheirCounter(pkg) then DupCtr
    else if TagMatches(c.dec, FirstBlock(c, pkg), [], Body(pkg), GivenTag(pkg)) then Succeed
    else FailGcm
  }

  /** The buffer afterwards: decrypted in place as soon as the header is plausible. */
  function DecBuffer(c: Ctx, pkg: seq<bv8>): seq<bv8> {
    if DecCode(c, pkg) in {Succeed, FailGcm} then
      Patch(pkg, HEADER_LEN, Gctr(c.dec, FirstBlock(c, pkg), Body(pkg), 0))
    else pkg
  }

  function Recorded(recent: Counters, id: nat, counter: Word32): Counters
    requires id < 16
  {
    recent[id := counter]
  }

  function AfterDec(c: Ctx, pkg: seq<bv8>): Ctx {
    if DecCode(c, pkg) == Succeed then c.(recent := Recorded(c.recent, TheirId(pkg), TheirCounter(pkg))) else c
  }

  function DecEvent(c: Ctx, pkg: seq<bv8>): Event {
    if DecCode(c, pkg) == Succeed then
      Accepted(TheirId(pkg), TheirCounter(pkg), Body(DecBuffer(c, pkg)))
    else Refused(DecCode(c, pkg))
  }

  /** The cipher of a context whose key is gone; never used, as EraseIsFinal shows. */
  const NO_KEY: Block -> Block := (b: Block) => b

  function AfterZero(c: Ctx): Ctx {
    Ctx(NO_KEY, 0, 0, UINT32_MAX, NO_KEY, 0, AllCounters(UINT32_MAX))
  }

  function After(c: Ctx, op: Op): Ctx {
    match op
    case Enc(msg) => AfterEnc(c, |msg|)
    case EncInPlace(start, msg) => if start < 8 then c else AfterEnc(c, |msg|)
    case Dec(pkg) => AfterDec(c, pkg)
    case Zero => AfterZero(c)
  }

  function EventOf(c: Ctx, op: Op): Event {
    match op
    case Enc(msg) => EncEvent(c, msg)
    case EncInPlace(start, msg) => if start < 8 then Refused(BadInput) else EncEvent(c, msg)
    case Dec(pkg) => DecEvent(c, pkg)
    case Zero => Erased
  }

  /** The events of a run. */
  function Run(c: Ctx, ops: seq<Op>): (r: seq<Event>)
    ensures |r| == |ops|
    decreases |ops|
  {
    if ops == [] then [] else [EventOf(c, ops[0])] + Run(After(c, ops[0]), ops[1..])
  }

  /** securePkg_init */
  function Fresh(enc: Block -> Block, encSalt: Word32, myId: Word32, dec: Block -> Block, decSalt: Word32): Ctx {
    Ctx(enc, encSalt, myId, 1, dec, decSalt, AllCounters(0))
  }
}
