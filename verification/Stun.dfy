/** STUN messages (internal/voip/transport/stun.go, lines 44-101 and 217-322; sections 15, 15.4 and
15.5 of RFC 5389). HMAC-SHA1 and CRC-32 are arbitrary functions of the bytes they cover. */
module Stun {
  import opened Words
  import opened Helpers

  type Bytes = seq<byte>

  const COOKIE := 0x2112a442
  const MESSAGE_INTEGRITY := 0x0008
  const FINGERPRINT := 0x8028
  const HEADER := 20
  const WIDTH := 0x1_0000

  datatype Attr = Attr(kind: u16, data: Bytes)

  /** The two checksums: a 20-byte MAC under a key, and the exclusive-or'd CRC. */
  datatype Sums = Sums(mac: (Bytes, Bytes) -> Bytes, crc: Bytes -> u32) {
    ghost predicate Valid() {
      forall k: Bytes, b: Bytes :: |mac(k, b)| == 20
    }
  }

  function Pad(n: nat): (p: nat)
    ensures p < 4 && (n + p) % 4 == 0
  {
    (4 - n % 4) % 4
  }

  function Zeros(n: nat): (z: Bytes)
    ensures |z| == n
  {
    seq(n, _ => 0)
  }

  /** encodeAttribute. */
  function EncodeAttribute(a: Attr): (b: Bytes)
    ensures |b| == 4 + |a.data| + Pad(|a.data|)
  {
    Be16(a.kind) + Be16(|a.data| % WIDTH) + a.data + Zeros(Pad(|a.data|))
  }

  function Encode(attrs: seq<Attr>, k: nat): Bytes
    requires k <= |attrs|
    decreases |attrs| - k
  {
    if k == |attrs| then [] else EncodeAttribute(attrs[k]) + Encode(attrs, k + 1)
  }

  function Header(kind: u16, length: nat, id: Bytes): (h: Bytes)
    requires |id| == 12
    ensures |h| == HEADER
  {
    Be16(kind) + Be16(length % WIDTH) + Be32(COOKIE) + id
  }

  /** A message whose header announces exactly the bytes that follow it. */
  function Message(kind: u16, body: Bytes, id: Bytes): Bytes
    requires |id| == 12
  {
    Header(kind, |body|, id) + body
  }

  function Integrity(s: Sums, key: Bytes, covered: Bytes): Attr { Attr(MESSAGE_INTEGRITY, s.mac(key, covered)) }
  function Fingerprint(s: Sums, covered: Bytes): Attr { Attr(FINGERPRINT, Be32(s.crc(covered))) }

  /** The attributes of the message that buildStunMessage makes, checksums included. */
  function Signed(s: Sums, kind: u16, attrs: seq<Attr>, id: Bytes, key: Option<Bytes>): seq<Attr>
    requires |id| == 12
  {
    var body := Encode(attrs, 0);
    if key.None? then attrs else attrs + [Integrity(s, key.value, Header(kind, |body| + 24, id) + body)]
  }

  function Stamped(s: Sums, kind: u16, attrs: seq<Attr>, id: Bytes, fingerprint: bool): seq<Attr>
    requires |id| == 12
  {
    var body := Encode(attrs, 0);
    if !fingerprint then attrs else attrs + [Fingerprint(s, Header(kind, |body| + 8, id) + body)]
  }

  function Full(s: Sums, kind: u16, attrs: seq<Attr>, id: Bytes, key: Option<Bytes>, fingerprint: bool): seq<Attr>
    requires |id| == 12
  {
    Stamped(s, kind, Signed(s, kind, attrs, id, key), id, fingerprint)
  }

  lemma {:induction false} EncodeSnoc(attrs: seq<Attr>, a: Attr, k: nat)
    requires k <= |attrs|
    ensures Encode(attrs + [a], k) == Encode(attrs, k) + EncodeAttribute(a)
    decreases |attrs| - k
  {
    hide EncodeAttribute;
    var all := attrs + [a];
    if k < |attrs| {
      EncodeSnoc(attrs, a, k + 1);
      assert all[k] == attrs[k];
      var x, y, z := EncodeAttribute(attrs[k]), Encode(attrs, k + 1), EncodeAttribute(a);
      assert x + (y + z) == x + y + z;
    } else {
      assert Encode(all, k + 1) == [];
      assert Encode(all, k) == EncodeAttribute(a) + [];
    }
  }

  /** buildStunMessage on the encoded form of attrs. */
  method BuildStunMessage(s: Sums, kind: u16, attrsData: Bytes, id: Bytes, key: Option<Bytes>, fingerprint: bool,
                          ghost attrs: seq<Attr>)
    returns (m: Bytes)
    requires |id| == 12 && attrsData == Encode(attrs, 0) && s.Valid()
    ensures m == Message(kind, Encode(Full(s, kind, attrs, id, key, fingerprint), 0), id)
  {
    hide EncodeAttribute, Header, Encode;
    var body := attrsData;
    ghost var signed := Signed(s, kind, attrs, id, key);
    if key.Some? {
      var msgLenForHmac := |body| + 24;
      var mi := Integrity(s, key.value, Header(kind, msgLenForHmac, id) + body);
      EncodeSnoc(attrs, mi, 0);
      body := body + EncodeAttribute(mi);
    }
    assert body == Encode(signed, 0);
    if fingerprint {
      var msgLenForCrc := |body| + 8;
      var fp := Fingerprint(s, Header(kind, msgLenForCrc, id) + body);
      EncodeSnoc(signed, fp, 0);
      body := body + EncodeAttribute(fp);
    }
    m := Header(kind, |body|, id) + body;
  }

  /** What a checksum covers is the front of the message truncated just after it: same header,
      same length field, same attributes before it. */
  lemma {:induction false} IntegrityCovers(s: Sums, kind: u16, attrs: seq<Attr>, id: Bytes, key: Bytes)
    requires |id| == 12 && s.Valid()
    ensures var truncated := Message(kind, Encode(Signed(s, kind, attrs, id, Some(key)), 0), id);
            && HEADER + |Encode(attrs, 0)| <= |truncated|
            && Signed(s, kind, attrs, id, Some(key))
               == attrs + [Integrity(s, key, truncated[..HEADER + |Encode(attrs, 0)|])]
  {
    hide Header, Encode, EncodeAttribute;
    var body := Encode(attrs, 0);
    var mi := Integrity(s, key, Header(kind, |body| + 24, id) + body);
    assert |EncodeAttribute(mi)| == 24;
    EncodeSnoc(attrs, mi, 0);
    Front(Header(kind, |body| + 24, id), body, EncodeAttribute(mi));
  }

  lemma {:induction false} FingerprintCovers(s: Sums, kind: u16, attrs: seq<Attr>, id: Bytes)
    requires |id| == 12
    ensures var truncated := Message(kind, Encode(Stamped(s, kind, attrs, id, true), 0), id);
            && HEADER + |Encode(attrs, 0)| <= |truncated|
            && Stamped(s, kind, attrs, id, true) == attrs + [Fingerprint(s, truncated[..HEADER + |Encode(attrs, 0)|])]
  {
    hide Header, Encode, EncodeAttribute, Be32;
    var body := Encode(attrs, 0);
    var fp := Fingerprint(s, Header(kind, |body| + 8, id) + body);
    assert |EncodeAttribute(fp)| == 8;
    EncodeSnoc(attrs, fp, 0);
    Front(Header(kind, |body| + 8, id), body, EncodeAttribute(fp));
  }

  lemma {:induction false} Front(h: Bytes, a: Bytes, b: Bytes)
    ensures (h + (a + b))[..|h| + |a|] == h + a
  {
  }

  // ------------------------------------------------------------------ parsing

  /** The attributes from offset on, of a message announcing `length` body bytes. */
  function ParseAttrs(data: Bytes, offset: nat, length: nat): seq<Attr>
    decreases |data| - offset
  {
    if offset + 4 > HEADER + length || offset + 4 > |data| then []
    else
      var n := Word16(data, offset + 2);
      var end := offset + 4 + n;
      if end > |data| then []
      else [Attr(Word16(data, offset), data[offset + 4..end])] + ParseAttrs(data, end + Pad(n), length)
  }

  datatype Info = Info(rawType: u16, id: Bytes, attrs: seq<Attr>)

  function Parsed(data: Bytes): Option<Info> {
    if |data| < HEADER then None
    else if Word32(data, 4) != COOKIE then
      (if Word16(data, 0) == 0x0801 || Word16(data, 0) == 0x0802 then Some(Info(Word16(data, 0), data[8..20], []))
       else None)
    else Some(Info(Word16(data, 0), data[8..20], ParseAttrs(data, HEADER, Word16(data, 2))))
  }

  method ParseAttributes(data: Bytes, msgLength: nat) returns (attrs: seq<Attr>)
    ensures attrs == ParseAttrs(data, HEADER, msgLength)
  {
    hide Word16, Pad, ParseAttrs;
    attrs := [];
    var offset := HEADER;
    while offset + 4 <= HEADER + msgLength && offset + 4 <= |data|
      invariant offset >= HEADER && attrs + ParseAttrs(data, offset, msgLength) == ParseAttrs(data, HEADER, msgLength)
      decreases |data| - offset
    {
      ParseStep(data, offset, msgLength);
      var attrType := Word16(data, offset);
      var attrLength := Word16(data, offset + 2);
      var attrEnd := offset + 4 + attrLength;
      if attrEnd > |data| {
        break;
      }
      attrs := attrs + [Attr(attrType, data[offset + 4..attrEnd])];
      offset := attrEnd + Pad(attrLength);
    }
    ParseStep(data, offset, msgLength);
  }

  /** ParseStunResponse: type, transaction and attributes. */
  method ParseStunResponse(data: Bytes) returns (r: Option<Info>)
    ensures r == Parsed(data)
  {
    hide Word16, Word32, ParseAttrs;
    if |data| < HEADER {
      return None;
    }
    var rawType := Word16(data, 0);
    if Word32(data, 4) != COOKIE {
      if rawType == 0x0801 || rawType == 0x0802 {
        return Some(Info(rawType, data[8..20], []));
      }
      return None;
    }
    var attrs := ParseAttributes(data, Word16(data, 2));
    r := Some(Info(rawType, data[8..20], attrs));
  }

  /** An attribute as section 15 of RFC 5389 has it: type, length, data, and zeros up to a multiple of 4. */
  lemma {:induction false} AttributeLayout(a: Attr)
    requires |a.data| < WIDTH
    ensures var b := EncodeAttribute(a);
            && |b| % 4 == 0 && 4 + |a.data| <= |b| < 8 + |a.data|
            && Number(b[..2]) == a.kind && Number(b[2..4]) == |a.data| && b[4..4 + |a.data|] == a.data
            && forall k :: 4 + |a.data| <= k < |b| ==> b[k] == 0
  {
    hide Be16, Word16, Number, Pad, EncodeAttribute;
    NumberOf16(a.kind);
    NumberOf16(|a.data|);
    AttributeParts(a);
    EvenUp(|a.data|);
    var b := EncodeAttribute(a);
    forall k | 4 + |a.data| <= k < |b| ensures b[k] == 0 {
      assert b[k] == b[4 + |a.data|..][k - 4 - |a.data|];
    }
  }

  lemma {:induction false} AttributeParts(a: Attr)
    requires |a.data| < WIDTH
    ensures var b := EncodeAttribute(a);
            && b[..2] == Be16(a.kind) && b[2..4] == Be16(|a.data|) && b[4..4 + |a.data|] == a.data
            && b[4 + |a.data|..] == Zeros(Pad(|a.data|))
  {
    hide Be16, Word16, Pad, Zeros;
    Unpacked(Be16(a.kind), Be16(|a.data| % WIDTH), a.data, Zeros(Pad(|a.data|)), EncodeAttribute(a));
  }

  lemma {:induction false} Unpacked(k: Bytes, l: Bytes, data: Bytes, zeros: Bytes, b: Bytes)
    requires |k| == |l| == 2 && b == k + l + data + zeros
    ensures |b| == 4 + |data| + |zeros| && b[..2] == k && b[2..4] == l && b[4..4 + |data|] == data
    ensures b[4 + |data|..] == zeros
  {
  }

  lemma {:induction false} FourMore(m: nat)
    requires m % 4 == 0
    ensures (4 + m) % 4 == 0
  {
  }

  lemma {:induction false} EvenUp(n: nat)
    ensures (4 + n + Pad(n)) % 4 == 0
  {
    hide Pad;
    FourMore(n + Pad(n));
  }

  /** A message as section 6 of RFC 5389 has it: type, length of what follows, magic cookie, transaction. */
  lemma {:induction false} MessageLayout(kind: u16, body: Bytes, id: Bytes)
    requires |id| == 12 && |body| < WIDTH
    ensures var m := Message(kind, body, id);
            && Number(m[..2]) == kind && Number(m[2..4]) == |body| && Number(m[4..8]) == 0x2112_a442
            && m[8..20] == id && m[20..] == body
  {
    hide Be16, Be32, Word16, Word32, Number;
    NumberOf16(kind);
    NumberOf16(|body|);
    NumberOf32(COOKIE);
    FourPieces(Message(kind, body, id), Be16(kind), Be16(|body|), Be32(COOKIE), id, body);
  }

  /** The two checksum attributes: types 0x0008 and 0x8028, 24 and 8 bytes long. */
  lemma {:induction false} ChecksumLayout(s: Sums, key: Bytes, covered: Bytes)
    requires s.Valid()
    ensures Integrity(s, key, covered).kind == 8 && |EncodeAttribute(Integrity(s, key, covered))| == 24
    ensures Fingerprint(s, covered).kind == 32808 && |EncodeAttribute(Fingerprint(s, covered))| == 8
    ensures Number(Fingerprint(s, covered).data) == s.crc(covered)
  {
    hide Be16, Be32, Number, EncodeAttribute;
    NumberOf32(s.crc(covered));
    assert Pad(20) == 0 && Pad(4) == 0;
  }

  /** What is parsed at all: at least 20 bytes, with the cookie or one of two types. */
  lemma {:induction false} ParsedExactly(data: Bytes)
    ensures Parsed(data).Some? <==>
              |data| >= 20 && (Word32(data, 4) == 0x2112_a442 || Word16(data, 0) == 2049 || Word16(data, 0) == 2050)
    ensures Parsed(data).Some? ==>
              && Parsed(data).value.rawType == Word16(data, 0) && Parsed(data).value.id == data[8..20]
              && (Word32(data, 4) != 0x2112_a442 ==> Parsed(data).value.attrs == [])
  {
    hide Word16, Word32, ParseAttrs;
  }

  /** No attribute begins at this offset: it is beyond the announced length or too close to the end of the
      data for its header, or for its contents. */
  ghost predicate Stops(data: Bytes, at: nat, length: nat) {
    at + 4 > 20 + length || at + 4 > |data| || at + 4 + Word16(data, at + 2) > |data|
  }

  /** Attribute after attribute, each behind the padding of the one before, up to the first that stops. */
  ghost predicate AttrsAt(data: Bytes, attrs: seq<Attr>, at: nat, length: nat)
    decreases |attrs|
  {
    if attrs == [] then Stops(data, at, length)
    else
      var n := |attrs[0].data|;
      && !Stops(data, at, length) && attrs[0].kind == Word16(data, at) && n == Word16(data, at + 2)
      && attrs[0].data == data[at + 4..at + 4 + n]
      && AttrsAt(data, attrs[1..], (at + 4 + n + 3) / 4 * 4, length)
  }

  lemma {:induction false} AttrsAreRead(data: Bytes, at: nat, length: nat)
    requires at % 4 == 0
    ensures AttrsAt(data, ParseAttrs(data, at, length), at, length)
    decreases |data| - at
  {
    hide Word16, ParseAttrs, Pad;
    ParseStep(data, at, length);
    if !Stops(data, at, length) {
      var end := at + 4 + Word16(data, at + 2);
      PaddedUp(end, at);
      AttrsAreRead(data, (end + 3) / 4 * 4, length);
      var attrs := ParseAttrs(data, at, length);
      assert attrs[1..] == ParseAttrs(data, (end + 3) / 4 * 4, length);
    }
  }

  lemma {:induction false} PaddedUp(end: nat, at: nat)
    requires at % 4 == 0 && end >= at + 4
    ensures end + Pad(end - at - 4) == (end + 3) / 4 * 4 && ((end + 3) / 4 * 4) % 4 == 0
  {
  }

  // --------------------------------------------------------------- round trip

  ghost predicate Fits(attrs: seq<Attr>) {
    forall k :: 0 <= k < |attrs| ==> |attrs[k].data| < WIDTH
  }

  lemma {:induction false} FourPieces(s: Bytes, a: Bytes, b: Bytes, c: Bytes, d: Bytes, rest: Bytes)
    requires s == (a + b + c + d) + rest
    ensures s[..|a|] == a && s[|a|..|a| + |b|] == b && s[|a| + |b|..|a| + |b| + |c|] == c
    ensures s[|a| + |b| + |c| + |d|..] == rest
  {
  }

  lemma {:induction false} Offset(data: Bytes, at: nat, i: nat, j: nat)
    requires i <= j && at + j <= |data|
    ensures data[at..][i..j] == data[at + i..at + j] && data[at..][j..] == data[at + j..]
  {
  }

  /** One attribute read back from where it was written. */
  lemma {:induction false} AttributeAt(data: Bytes, at: nat, a: Attr, rest: Bytes)
    requires |a.data| < WIDTH && at <= |data| && data[at..] == EncodeAttribute(a) + rest
    ensures var n := |a.data|;
            && at + 4 + n <= |data| && Word16(data, at) == a.kind && Word16(data, at + 2) == n
            && data[at + 4..at + 4 + n] == a.data
            && at + 4 + n + Pad(n) <= |data| && data[at + 4 + n + Pad(n)..] == rest
  {
    hide Be16, Word16;
    var n := |a.data|;
    var k, l := Be16(a.kind), Be16(n % WIDTH);
    FourPieces(data[at..], k, l, a.data, Zeros(Pad(n)), rest);
    Offset(data, at, 0, 2);
    Offset(data, at, 2, 4);
    Offset(data, at, 4, 4 + n);
    Offset(data, at, 4 + n, 4 + n + Pad(n));
    SameWord16(data, at, k, 0);
    SameWord16(data, at + 2, l, 0);
  }

  lemma {:induction false} ParseEncoded(data: Bytes, attrs: seq<Attr>, k: nat, at: nat, length: nat)
    requires k <= |attrs| && Fits(attrs) && at <= |data| == HEADER + length && data[at..] == Encode(attrs, k)
    ensures ParseAttrs(data, at, length) == attrs[k..]
    decreases |attrs| - k
  {
    hide EncodeAttribute, Word16, Pad, ParseAttrs;
    ParseStep(data, at, length);
    if k < |attrs| {
      var a := attrs[k];
      AttributeAt(data, at, a, Encode(attrs, k + 1));
      ParseEncoded(data, attrs, k + 1, at + 4 + |a.data| + Pad(|a.data|), length);
      assert attrs[k..] == [a] + attrs[k + 1..];
    }
  }

  lemma {:induction false} ParseStep(data: Bytes, at: nat, length: nat)
    ensures ParseAttrs(data, at, length)
         == if at + 4 > HEADER + length || at + 4 > |data| || at + 4 + Word16(data, at + 2) > |data| then []
            else
              var end := at + 4 + Word16(data, at + 2);
              [Attr(Word16(data, at), data[at + 4..end])] + ParseAttrs(data, end + Pad(end - at - 4), length)
  {
    hide Word16, Pad;
  }

  lemma {:induction false} HeaderFields(kind: u16, body: Bytes, id: Bytes)
    requires |id| == 12 && |body| < WIDTH
    ensures var m := Message(kind, body, id);
            && |m| == HEADER + |body| && Word16(m, 0) == kind && Word16(m, 2) == |body| && Word32(m, 4) == COOKIE
            && m[8..20] == id && m[HEADER..] == body
  {
    hide Be16, Be32, Word16, Word32;
    var m := Message(kind, body, id);
    FourPieces(m, Be16(kind), Be16(|body|), Be32(COOKIE), id, body);
    SameWord16(m, 0, Be16(kind), 0);
    SameWord16(m, 2, Be16(|body|), 0);
    SameWord(m, 4, Be32(COOKIE), 0);
  }

  /** Every attribute list whose encoding fits the 16-bit length comes back in order, followed by
      the checksums asked for. */
  lemma {:induction false} MessageRoundTrip(s: Sums, kind: u16, attrs: seq<Attr>, id: Bytes, key: Option<Bytes>,
                                            fingerprint: bool)
    requires |id| == 12 && s.Valid() && Fits(attrs)
    requires |Encode(Full(s, kind, attrs, id, key, fingerprint), 0)| < WIDTH
    ensures var all := Full(s, kind, attrs, id, key, fingerprint);
            && Parsed(Message(kind, Encode(all, 0), id)) == Some(Info(kind, id, all))
            && |all| == |attrs| + (if key.Some? then 1 else 0) + (if fingerprint then 1 else 0)
            && all[..|attrs|] == attrs
  {
    hide Encode, Header, Message, Word16, Word32, Be32, ParseAttrs;
    var all := Full(s, kind, attrs, id, key, fingerprint);
    var body := Encode(all, 0);
    HeaderFields(kind, body, id);
    ParseEncoded(Message(kind, body, id), all, 0, HEADER, |body|);
    assert all[0..] == all;
  }
}
