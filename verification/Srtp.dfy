/** SrtpContext (internal/voip/media/srtp.go, lines 33-259). AES-CTR is XOR with an arbitrary
keystream that depends on the IV; HMAC is an arbitrary function of the authenticated bytes
and the rollover counter. */
module Srtp {
  import opened Words
  import opened Helpers
  import opened Rtp
  import opened ReplayWindow

  const WRAP := 0x1_0000
  const ROCS := 0x1_0000_0000

  datatype Keys = Keys(salt: seq<byte>, stream: (seq<byte>, nat) -> byte, mac: (seq<byte>, u32) -> seq<byte>,
                       tagLen: nat) {
    ghost predicate Valid() {
      |salt| == 14 && tagLen > 0 && forall d: seq<byte>, r: u32 :: |mac(d, r)| == tagLen
    }
  }

  // -------------------------------------------------------------- encryption

  function XorBits(a: nat, b: nat, n: nat): (r: nat)
    ensures r < Pow2(n)
  {
    if n == 0 then 0 else (a + b) % 2 + 2 * XorBits(a / 2, b / 2, n - 1)
  }

  function Xor(a: byte, b: byte): byte {
    assert Pow2(8) == 256;
    XorBits(a, b, 8)
  }

  lemma {:induction false} LowBit(a: nat, b: nat, rest: nat)
    ensures var x := (a + b) % 2 + 2 * rest; x / 2 == rest && (x + b) % 2 == a % 2
  {
  }

  lemma {:induction false} XorUnfold(a: nat, b: nat, n: nat)
    requires n > 0
    ensures XorBits(a, b, n) == (a + b) % 2 + 2 * XorBits(a / 2, b / 2, n - 1)
  {
  }

  lemma {:induction false} XorBitsUndone(a: nat, b: nat, n: nat)
    requires a < Pow2(n)
    ensures XorBits(XorBits(a, b, n), b, n) == a
  {
    hide XorBits;
    if n > 0 {
      var rest := XorBits(a / 2, b / 2, n - 1);
      XorUnfold(a, b, n);
      XorUnfold((a + b) % 2 + 2 * rest, b, n);
      LowBit(a, b, rest);
      XorBitsUndone(a / 2, b / 2, n - 1);
    }
  }

  lemma {:induction false} XorUndone(a: byte, b: byte)
    ensures Xor(Xor(a, b), b) == a
  {
    assert Pow2(8) == 256;
    XorBitsUndone(a, b, 8);
  }

  lemma {:induction false} XorBitsSwap(a: nat, b: nat, n: nat)
    ensures XorBits(a, b, n) == XorBits(b, a, n)
  {
    if n > 0 {
      XorBitsSwap(a / 2, b / 2, n - 1);
    }
  }

  lemma {:induction false} XorBitsLaws(a: nat, n: nat)
    ensures XorBits(a, a, n) == 0 && (a < Pow2(n) ==> XorBits(a, 0, n) == a)
  {
    if n > 0 {
      XorBitsLaws(a / 2, n - 1);
    }
  }

  /** Bit k of the result depends on bit k of both alone: with the laws below, it is their exclusive or. */
  lemma {:induction false} XorBitwise(a: nat, b: nat, c: nat, d: nat, n: nat, k: nat)
    requires k < n && a / Pow2(k) % 2 == c / Pow2(k) % 2 && b / Pow2(k) % 2 == d / Pow2(k) % 2
    ensures XorBits(a, b, n) / Pow2(k) % 2 == XorBits(c, d, n) / Pow2(k) % 2
  {
    hide XorBits;
    XorUnfold(a, b, n);
    XorUnfold(c, d, n);
    var x, y := XorBits(a / 2, b / 2, n - 1), XorBits(c / 2, d / 2, n - 1);
    if k == 0 {
      LowBits(a, b, x);
      LowBits(c, d, y);
    } else {
      Deeper(a, k);
      Deeper(b, k);
      Deeper(c, k);
      Deeper(d, k);
      XorBitwise(a / 2, b / 2, c / 2, d / 2, n - 1, k - 1);
      Deeper((a + b) % 2 + 2 * x, k);
      Deeper((c + d) % 2 + 2 * y, k);
      LowBit(a, b, x);
      LowBit(c, d, y);
    }
  }

  lemma {:induction false} LowBits(a: nat, b: nat, x: nat)
    ensures ((a + b) % 2 + 2 * x) / Pow2(0) % 2 == (a % 2 + b % 2) % 2 && a / Pow2(0) % 2 == a % 2
    ensures b / Pow2(0) % 2 == b % 2
  {
    assert Pow2(0) == 1;
  }

  lemma {:induction false} Deeper(a: nat, k: nat)
    requires k > 0
    ensures a / Pow2(k) == a / 2 / Pow2(k - 1)
  {
    var p := Pow2(k - 1);
    var q, r := a / 2 / p, a / 2 % p;
    assert a == 2 * (a / 2) + a % 2 && a / 2 == q * p + r;
    assert Pow2(k) == 2 * p && q * Pow2(k) == 2 * (q * p);
    Quotient(a, Pow2(k), q, 2 * r + a % 2);
  }

  /** The laws of exclusive or. */
  lemma {:induction false} XorLaws(a: byte, b: byte)
    ensures Xor(a, 0) == a && Xor(a, a) == 0 && Xor(a, b) == Xor(b, a)
  {
    assert Pow2(8) == 256;
    XorBitsLaws(a, 8);
    XorBitsSwap(a, b, 8);
  }

  /** XOR with a fixed byte loses nothing. */
  lemma {:induction false} XorInjective(salt: byte, a: byte, b: byte)
    requires Xor(salt, a) == Xor(salt, b)
    ensures a == b
  {
    XorBitsSwap(salt, a, 8);
    XorBitsSwap(salt, b, 8);
    XorUndone(a, salt);
    XorUndone(b, salt);
  }

  /** The low 48 bits of the index. */
  function IndexBytes(index: u64): (b: seq<byte>)
    ensures |b| == 6
  {
    Be16(Upper(index)) + Be32(Lower(index))
  }

  function Upper(index: u64): u16 { index / ROCS % WRAP }
  function Lower(index: u64): u32 { index % ROCS }

  function MaskByte(ssrc: u32, index: u64, i: nat): byte
    requires 4 <= i < 14
  {
    if i < 8 then Be32(ssrc)[i - 4] else IndexBytes(index)[i - 8]
  }

  /** generateIV: SSRC over bytes 4..7, index over bytes 8..13 of the session salt. */
  function Iv(salt: seq<byte>, ssrc: u32, index: u64): (iv: seq<byte>)
    requires |salt| == 14
    ensures |iv| == 16
  {
    seq<byte>(16, i requires 0 <= i < 16 =>
      if i < 4 then salt[i] else if i < 14 then Xor(salt[i], MaskByte(ssrc, index, i)) else 0)
  }

  function Blank(n: nat): (z: seq<byte>)
    ensures |z| == n && forall k :: 0 <= k < n ==> z[k] == 0
  {
    seq(n, _ => 0)
  }

  /** The vector of section 4.1.1 of RFC 3711: SSRC times 2^64 plus index times 2^16, exclusive-or'd with
      the salt times 2^16. */
  lemma {:induction false} IvIsRfc(salt: seq<byte>, ssrc: u32, index: u64, i: nat)
    requires |salt| == 14 && index < WRAP * ROCS && i < 16
    ensures var plain := Iv(Blank(14), ssrc, index);
            && plain[..4] == Blank(4) && Number(plain[4..8]) == ssrc && Number(plain[8..10]) == index / 0x1_0000_0000
            && Number(plain[10..14]) == index % 0x1_0000_0000 && plain[14..] == Blank(2)
            && Iv(salt, ssrc, index)[i] == Xor(if i < 14 then salt[i] else 0, plain[i])
  {
    hide Number, Xor, Be16, Be32;
    var plain := Iv(Blank(14), ssrc, index);
    BlankMask(ssrc, index);
    NumberOf32(ssrc);
    NumberOf16(Upper(index));
    NumberOf32(Lower(index));
    XorLaws(if i < 14 then salt[i] else 0, 0);
    XorLaws(plain[i], 0);
  }

  lemma {:induction false} BlankMask(ssrc: u32, index: u64)
    ensures var plain := Iv(Blank(14), ssrc, index);
            && plain[..4] == Blank(4) && plain[4..8] == Be32(ssrc) && plain[8..10] == Be16(Upper(index))
            && plain[10..14] == Be32(Lower(index)) && plain[14..] == Blank(2)
  {
    hide Xor, Be16, Be32;
    forall k | 4 <= k < 14 ensures Xor(0, MaskByte(ssrc, index, k)) == MaskByte(ssrc, index, k) {
      XorLaws(MaskByte(ssrc, index, k), 0);
    }
  }

  /** No two packets of a session share an IV: it fixes the SSRC and the 48-bit index. */
  lemma {:induction false} IvFixesIndex(salt: seq<byte>, s: u32, i: u64, s': u32, i': u64)
    requires |salt| == 14 && i < WRAP * ROCS && i' < WRAP * ROCS
    requires Iv(salt, s, i) == Iv(salt, s', i')
    ensures s == s' && i == i'
  {
    var a, b := Iv(salt, s, i), Iv(salt, s', i');
    forall k | 4 <= k < 14 ensures MaskByte(s, i, k) == MaskByte(s', i', k) {
      assert a[k] == b[k];
      XorInjective(salt[k], MaskByte(s, i, k), MaskByte(s', i', k));
    }
    forall k | 0 <= k < 4 ensures Be32(s)[k] == Be32(s')[k] {
      assert MaskByte(s, i, k + 4) == MaskByte(s', i', k + 4);
    }
    forall k | 0 <= k < 6 ensures IndexBytes(i)[k] == IndexBytes(i')[k] {
      assert MaskByte(s, i, k + 8) == MaskByte(s', i', k + 8);
    }
    assert Be32(s) == Be32(s') && IndexBytes(i) == IndexBytes(i');
    SameIndex(i, i');
  }

  lemma {:induction false} SameIndex(i: u64, i': u64)
    requires i < WRAP * ROCS && i' < WRAP * ROCS && IndexBytes(i) == IndexBytes(i')
    ensures i == i'
  {
    var b, b' := IndexBytes(i), IndexBytes(i');
    assert b[..2] == Be16(Upper(i)) && b[2..] == Be32(Lower(i));
    assert b'[..2] == Be16(Upper(i')) && b'[2..] == Be32(Lower(i'));
    HalvesFixIndex(i, i');
  }

  lemma {:induction false} HalvesFixIndex(i: u64, i': u64)
    requires i < WRAP * ROCS && i' < WRAP * ROCS && Upper(i) == Upper(i') && Lower(i) == Lower(i')
    ensures i == i'
  {
  }

  /** aesCtrXor. */
  function Crypt(keys: Keys, ssrc: u32, index: u64, data: seq<byte>): (r: seq<byte>)
    requires |keys.salt| == 14
    ensures |r| == |data|
  {
    var iv := Iv(keys.salt, ssrc, index);
    seq<byte>(|data|, i requires 0 <= i < |data| => Xor(data[i], keys.stream(iv, i)))
  }

  /** Encryption is the exclusive or with a keystream that the packet's vector alone decides. */
  lemma {:induction false} CryptIsKeystream(keys: Keys, ssrc: u32, index: u64, data: seq<byte>, i: nat)
    requires |keys.salt| == 14 && i < |data|
    ensures var plain := Crypt(keys, ssrc, index, Blank(|data|));
            Crypt(keys, ssrc, index, data)[i] == Xor(data[i], plain[i])
            && plain[i] == keys.stream(Iv(keys.salt, ssrc, index), i)
  {
    hide Xor;
    var k := keys.stream(Iv(keys.salt, ssrc, index), i);
    XorLaws(k, 0);
  }

  lemma {:induction false} CryptUndone(keys: Keys, ssrc: u32, index: u64, data: seq<byte>)
    requires |keys.salt| == 14
    ensures Crypt(keys, ssrc, index, Crypt(keys, ssrc, index, data)) == data
  {
    var iv := Iv(keys.salt, ssrc, index);
    forall i | 0 <= i < |data| ensures Crypt(keys, ssrc, index, Crypt(keys, ssrc, index, data))[i] == data[i] {
      XorUndone(data[i], keys.stream(iv, i));
    }
  }

  // ------------------------------------------------------- rollover counter

  /** 32-bit wrapping increment and decrement. */
  function Next(roc: u32): u32 { if roc == ROCS - 1 then 0 else roc + 1 }
  function Prev(roc: u32): u32 { if roc == 0 then ROCS - 1 else roc - 1 }

  /** The rollover fields of a context. */
  datatype Rollover = Rollover(roc: u32, lastSeq: u16, initialized: bool) {
    function Head(): u64 { roc * WRAP + lastSeq }

    /** updateRoc, on the sending side. */
    function Sent(s: u16): Rollover {
      if initialized && s - lastSeq < -32768 then Rollover(Next(roc), s, true)
      else Rollover(roc, s, true)
    }

    /** estimateRoc. */
    function Estimate(s: u16): u32 {
      if !initialized then roc
      else if lastSeq < 0x8000 then (if s - lastSeq > 0x8000 then Prev(roc) else roc)
      else if lastSeq - s > 0x8000 then Next(roc)
      else roc
    }

    /** commitRoc. */
    function Committed(v: u32, s: u16): Rollover {
      if !initialized then Rollover(roc, s, true)
      else if v == roc then (if s > lastSeq then Rollover(roc, s, true) else this)
      else if v == Next(roc) then Rollover(v, s, true)
      else this
    }

    function EstimatedIndex(s: u16): u64 { Estimate(s) * WRAP + s }
  }

  /** What a protected packet with this index looks like on the wire. */
  function AuthBytes(keys: Keys, p: Packet, index: u64): seq<byte>
    requires |keys.salt| == 14
  {
    HeaderBytes(p.header) + Crypt(keys, p.header.ssrc, index, p.payload)
  }

  function Wire(keys: Keys, p: Packet, index: u64): seq<byte>
    requires |keys.salt| == 14 && index < WRAP * ROCS
  {
    AuthBytes(keys, p, index) + keys.mac(AuthBytes(keys, p, index), index / WRAP)
  }

  // ------------------------------------------------------- abstract receiver

  /** The receiver of section 3.3 of RFC 3711: rollover estimate plus every index accepted. */
  datatype Receiver = Receiver(ro: Rollover, accepted: set<nat>) {
    ghost function Accepting(s: u16): Receiver {
      Receiver(ro.Committed(ro.Estimate(s), s), accepted + {ro.EstimatedIndex(s)})
    }
  }

  ghost function Judge(keys: Keys, r: Receiver, data: seq<byte>, h: Header): (v: Result<Packet>)
    requires |keys.salt| == 14
  {
    var index, body := r.ro.EstimatedIndex(h.sequenceNumber), |data| - keys.tagLen;
    if body <= h.Size() then Err(PacketTooShort)
    else if !Fresh(r.accepted, index) then Err(Replay)
    else if keys.mac(data[..body], r.ro.Estimate(h.sequenceNumber)) != data[body..] then Err(AuthFailed)
    else Ok(Packet(h, Crypt(keys, h.ssrc, index, data[h.Size()..body])))
  }

  ghost function Verdict(keys: Keys, r: Receiver, data: seq<byte>): (v: Result<Packet>)
    requires |keys.salt| == 14
  {
    if |data| < MIN_HEADER then Err(PacketTooShort)
    else match ParseHeader(data)
      case Err(_) => Err(Undecodable)
      case Ok(h) => Judge(keys, r, data, h)
  }

  ghost function After(keys: Keys, r: Receiver, data: seq<byte>): Receiver
    requires |keys.salt| == 14
  {
    match Verdict(keys, r, data)
    case Err(_) => r
    case Ok(p) => r.Accepting(p.header.sequenceNumber)
  }

  // ------------------------------------------------------------ authenticity

  /** There is a header, and something between it and the tag. */
  predicate Whole(keys: Keys, data: seq<byte>) {
    match ParseHeader(data)
    case Err(_) => false
    case Ok(h) => h.Size() + keys.tagLen < |data|
  }

  /** The sequence number on the wire. */
  function SequenceOf(data: seq<byte>): u16 {
    if |data| < 4 then 0 else Word16(data, 2)
  }

  /** The datagram ends in the tag of all that comes before it. */
  ghost predicate Tagged(keys: Keys, data: seq<byte>, roc: u32) {
    && keys.tagLen <= |data|
    && data[|data| - keys.tagLen..] == keys.mac(data[..|data| - keys.tagLen], roc)
  }

  /** A receiver accepts a whole datagram whose index is fresh if and only if its tag is right, and says
      so otherwise; what it does not accept it forgets. */
  lemma {:induction false} AcceptedExactly(keys: Keys, r: Receiver, data: seq<byte>)
    requires keys.Valid()
    ensures var x := r.ro.EstimatedIndex(SequenceOf(data));
            && (Verdict(keys, r, data).Ok? <==>
                  Whole(keys, data) && Fresh(r.accepted, x) && Tagged(keys, data, x / WRAP))
            && (Verdict(keys, r, data).Ok? ==> After(keys, r, data).accepted == r.accepted + {x})
            && (Whole(keys, data) && !Fresh(r.accepted, x) ==> Verdict(keys, r, data) == Err(Replay))
            && (Whole(keys, data) && Fresh(r.accepted, x) && !Tagged(keys, data, x / WRAP) ==>
                  Verdict(keys, r, data) == Err(AuthFailed))
    ensures Verdict(keys, r, data).Err? ==> After(keys, r, data) == r
  {
    hide ParseHeader, Crypt, Word16, Fresh, Rollover.Estimate;
    hide Header.Size, Rollover.Committed;
    var s := SequenceOf(data);
    IndexParts(r.ro.Estimate(s), s);
    ParsedSequence(data);
  }

  lemma {:induction false} ParsedSequence(data: seq<byte>)
    ensures ParseHeader(data).Ok? ==> |data| >= MIN_HEADER && ParseHeader(data).value.sequenceNumber == SequenceOf(data)
  {
    hide ParseHeader, Word16;
  }

  lemma {:induction false} IndexParts(roc: u32, s: u16)
    ensures (roc * WRAP + s) / WRAP == roc && (roc * WRAP + s) % WRAP == s && roc * WRAP + s < WRAP * ROCS
  {
  }

  class Context {
    const keys: Keys
    var roc: u32
    var lastSeq: u16
    var initialized: bool
    var replayHighest: u64
    var replayWindow: u64
    var replaySeen: bool
    ghost var accepted: set<nat>

    ghost predicate Valid()
      reads this
    {
      keys.Valid() && Stands(replaySeen, replayHighest, replayWindow, accepted)
    }

    function Ro(): Rollover
      reads this
    {
      Rollover(roc, lastSeq, initialized)
    }

    ghost function Abs(): Receiver
      reads this
    {
      Receiver(Ro(), accepted)
    }

    constructor (keys: Keys)
      requires keys.Valid()
      ensures Valid() && this.keys == keys && Ro() == Rollover(0, 0, false) && accepted == {}
    {
      this.keys := keys;
      roc, lastSeq, initialized := 0, 0, false;
      replayHighest, replayWindow, replaySeen := 0, 0, false;
      accepted := {};
    }

    method UpdateRoc(s: u16)
      modifies this`roc, this`lastSeq, this`initialized
      ensures Ro() == old(Ro()).Sent(s)
    {
      if !initialized {
        lastSeq, initialized := s, true;
        return;
      }
      if s - lastSeq < -32768 {
        roc := Next(roc);
      }
      lastSeq := s;
    }

    method CommitRoc(v: u32, s: u16)
      modifies this`roc, this`lastSeq, this`initialized
      ensures Ro() == old(Ro()).Committed(v, s)
    {
      if !initialized {
        lastSeq, initialized := s, true;
        return;
      }
      if v == roc {
        if s > lastSeq {
          lastSeq := s;
        }
      } else if v == Next(roc) {
        roc, lastSeq := v, s;
      }
    }

    /** replayUpdate, after replayCheck let the index through. */
    method ReplayUpdate(index: u64)
      requires Valid() && Fresh(accepted, index)
      modifies this`replayHighest, this`replayWindow, this`replaySeen, this`accepted
      ensures Valid() && accepted == old(accepted) + {index}
    {
      hide SetBit, Shl, BitAt;
      accepted := accepted + {index};
      if !replaySeen {
        replaySeen, replayHighest, replayWindow := true, index, 1;
        Started(index);
        return;
      }
      if index > replayHighest {
        var delta := index - replayHighest;
        Advanced(replayHighest, replayWindow, index, old(accepted));
        if delta >= SIZE {
          replayWindow := 1;
        } else {
          replayWindow := SetBit(Shl(replayWindow, delta), 0);
        }
        replayHighest := index;
        return;
      }
      FilledIn(replayHighest, replayWindow, index, old(accepted));
      replayWindow := SetBit(replayWindow, replayHighest - index);
    }

    /** Protect. */
    method Protect(p: Packet) returns (r: Result<seq<byte>>)
      requires Valid() && p.header.csrcCount == |p.header.csrc|
      modifies this`roc, this`lastSeq, this`initialized
      ensures Valid() && Ro() == old(Ro()).Sent(p.header.sequenceNumber)
      ensures r == Ok(Wire(keys, p, Ro().Head()))
    {
      var h := p.header;
      UpdateRoc(h.sequenceNumber);
      var index: u64 := Ro().Head();
      IndexParts(roc, lastSeq);
      r := Seal(p, index);
    }

    method Seal(p: Packet, index: u64) returns (r: Result<seq<byte>>)
      requires keys.Valid() && p.header.csrcCount == |p.header.csrc| && index / WRAP == roc
      ensures r == Ok(Wire(keys, p, index))
    {
      hide Crypt, HeaderBytes;
      var h := p.header;
      var headerSize, n := h.Size(), |p.payload|;
      var output := new byte[headerSize + n + keys.tagLen](_ => 0);
      var e := EncodeHeader(h, output);
      Put(output, headerSize, Crypt(keys, h.ssrc, index, p.payload));
      var tag := keys.mac(output[..headerSize + n], roc);
      Put(output, headerSize + n, tag);
      assert output[..] == output[..headerSize + n + |tag|];
      r := Ok(output[..]);
    }

    /** Unprotect refines the abstract receiver: same verdict, same next state. A datagram is accepted
        exactly when it is whole, its index is fresh and it ends in the tag of all before it under that
        index's rollover count; then that index is accepted, and no other verdict changes anything. */
    method Unprotect(data: seq<byte>) returns (r: Result<Packet>)
      requires Valid()
      modifies this
      ensures Valid()
      ensures r == Verdict(keys, old(Abs()), data)
      ensures Abs() == After(keys, old(Abs()), data)
      ensures r.Ok? <==> old(Whole(keys, data) && Fresh(accepted, Ro().EstimatedIndex(SequenceOf(data)))
                             && Tagged(keys, data, Ro().EstimatedIndex(SequenceOf(data)) / WRAP))
      ensures r.Ok? ==> accepted == old(accepted + {Ro().EstimatedIndex(SequenceOf(data))})
      ensures old(Whole(keys, data) && Fresh(accepted, Ro().EstimatedIndex(SequenceOf(data)))
                  && !Tagged(keys, data, Ro().EstimatedIndex(SequenceOf(data)) / WRAP)) ==>
                r == Err(AuthFailed)
      ensures r.Err? ==> Abs() == old(Abs())
    {
      AcceptedExactly(keys, Abs(), data);
      if |data| < MIN_HEADER {
        return Err(PacketTooShort);
      }
      var hr := DecodeHeader(data);
      if hr.Err? {
        return Err(Undecodable);
      }
      r := Open(data, hr.value);
      if r.Ok? {
        Accept(hr.value.sequenceNumber);
      }
    }

    method CheckReplay(index: u64) returns (ok: bool)
      requires Valid()
      ensures ok <==> Fresh(accepted, index)
    {
      ok := ReplayCheck(replaySeen, replayHighest, replayWindow, index, accepted);
    }

    /** Size, replay and authentication checks, then decryption. */
    method Open(data: seq<byte>, h: Header) returns (r: Result<Packet>)
      requires Valid()
      ensures r == Judge(keys, Abs(), data, h)
    {
      var headerSize := h.Size();
      var payloadLen := |data| - headerSize - keys.tagLen;
      if payloadLen <= 0 {
        return Err(PacketTooShort);
      }
      var body := |data| - keys.tagLen;
      var est, index := Ro().Estimate(h.sequenceNumber), Ro().EstimatedIndex(h.sequenceNumber);
      var admitted := CheckReplay(index);
      if !admitted {
        return Err(Replay);
      }
      if keys.mac(data[..body], est) != data[body..] {
        return Err(AuthFailed);
      }
      r := Ok(Packet(h, Crypt(keys, h.ssrc, index, data[headerSize..body])));
    }

    /** The state of an authenticated packet: commitRoc, then replayUpdate. */
    method Accept(s: u16)
      requires Valid() && Fresh(accepted, Ro().EstimatedIndex(s))
      modifies this
      ensures Valid() && Abs() == old(Abs()).Accepting(s)
    {
      var est, index := Ro().Estimate(s), Ro().EstimatedIndex(s);
      CommitRoc(est, s);
      ReplayUpdate(index);
    }
  }
}
