/** RTP headers and the packet source (internal/voip/media/rtp.go). */
module Rtp {
  import opened Words

  const VERSION := 2
  const MIN_HEADER := 12

  datatype Header = Header(
    version: byte, padding: bool, extension: bool, csrcCount: byte, marker: bool, payloadType: byte,
    sequenceNumber: u16, timestamp: u32, ssrc: u32, csrc: seq<u32>, profile: u16, extensionData: seq<byte>)
  {
    function Size(): nat {
      MIN_HEADER + csrcCount * 4 + if extension then 4 + |extensionData| else 0
    }

    /** The headers the wire format can carry. */
    predicate WellFormed() {
      && version == VERSION && csrcCount == |csrc| < 16 && payloadType < 128
      && (if extension then |extensionData| % 4 == 0 && |extensionData| < 4 * 0x1_0000
          else profile == 0 && extensionData == [])
    }
  }

  datatype Packet = Packet(header: Header, payload: seq<byte>)

  datatype Result<T> = Ok(value: T) | Err(error: Error)
  datatype Error = BufferTooSmall | InvalidVersion | PacketTooShort | AuthFailed | Undecodable | Replay

  function Bit(b: bool): nat { if b then 1 else 0 }

  // ---------------------------------------------------------------- wire form

  function CsrcBytes(csrc: seq<u32>): (b: seq<byte>)
    ensures |b| == 4 * |csrc|
  {
    if csrc == [] then [] else CsrcBytes(csrc[..|csrc| - 1]) + Be32(csrc[|csrc| - 1])
  }

  function FlagBytes(h: Header): (b: seq<byte>)
    ensures |b| == 2
  {
    [h.version % 4 * 64 + Bit(h.padding) * 32 + Bit(h.extension) * 16 + h.csrcCount % 16,
     Bit(h.marker) * 128 + h.payloadType % 128]
  }

  function FixedBytes(h: Header): (b: seq<byte>)
    ensures |b| == MIN_HEADER
  {
    FourJoined(FlagBytes(h), Be16(h.sequenceNumber), Be32(h.timestamp), Be32(h.ssrc));
    Joined([FlagBytes(h), Be16(h.sequenceNumber), Be32(h.timestamp), Be32(h.ssrc)])
  }

  function Joined(parts: seq<seq<byte>>): seq<byte> {
    if parts == [] then [] else Joined(parts[..|parts| - 1]) + parts[|parts| - 1]
  }

  lemma {:induction false} ThreeJoined(a: seq<byte>, b: seq<byte>, c: seq<byte>)
    ensures Joined([a, b, c]) == a + b + c
  {
    assert [a, b, c][..2] == [a, b] && [a, b][..1] == [a] && [a][..0] == [];
    assert Joined([a]) == a;
    assert Joined([a, b]) == a + b;
  }

  lemma {:induction false} FourJoined(a: seq<byte>, b: seq<byte>, c: seq<byte>, d: seq<byte>)
    ensures Joined([a, b, c, d]) == a + b + c + d
  {
    ThreeJoined(a, b, c);
    assert [a, b, c, d][..3] == [a, b, c];
  }

  function ExtensionBytes(h: Header): seq<byte> {
    if h.extension then Be16(h.profile) + Be16(|h.extensionData| / 4 % 0x1_0000) + h.extensionData else []
  }

  function HeaderBytes(h: Header): (b: seq<byte>)
    ensures |b| == MIN_HEADER + 4 * |h.csrc| + |ExtensionBytes(h)|
  {
    ThreeJoined(FixedBytes(h), CsrcBytes(h.csrc), ExtensionBytes(h));
    Joined([FixedBytes(h), CsrcBytes(h.csrc), ExtensionBytes(h)])
  }

  function ReadCsrc(b: seq<byte>, n: nat): (r: seq<u32>)
    requires MIN_HEADER + 4 * n <= |b|
    ensures |r| == n
  {
    if n == 0 then [] else ReadCsrc(b, n - 1) + [Word32(b, MIN_HEADER + 4 * (n - 1))]
  }

  /** The extension block at offset o: left empty when the buffer ends inside it. */
  function ReadExtension(b: seq<byte>, o: nat): (r: (u16, seq<byte>))
    ensures |r.1| % 4 == 0 && |r.1| < 4 * 0x1_0000
  {
    if |b| < o + 4 then (0, [])
    else
      var n := Word16(b, o + 2) * 4;
      (Word16(b, o), if |b| >= o + 4 + n then b[o + 4..o + 4 + n] else [])
  }

  // The bit fields of the first two bytes.
  function VersionOf(b0: byte): (v: byte) ensures v < 4 { b0 / 64 }
  function PaddingOf(b0: byte): bool { b0 / 32 % 2 != 0 }
  function ExtensionOf(b0: byte): bool { b0 / 16 % 2 != 0 }
  function CountOf(b0: byte): (n: byte) ensures n < 16 { b0 % 16 }
  function MarkerOf(b1: byte): bool { b1 / 128 != 0 }
  function TypeOf(b1: byte): (t: byte) ensures t < 128 { b1 % 128 }

  function ParseHeader(b: seq<byte>): (r: Result<Header>)
    ensures r.Ok? ==> |b| >= MIN_HEADER && r.value.WellFormed()
    ensures r.Ok? ==> r.value.sequenceNumber == Word16(b, 2) && r.value.ssrc == Word32(b, 8)
  {
    hide VersionOf, PaddingOf, ExtensionOf, CountOf, MarkerOf, TypeOf, Word16, Word32, ReadCsrc, ReadExtension;
    if |b| < MIN_HEADER then Err(BufferTooSmall)
    else if VersionOf(b[0]) != VERSION then Err(InvalidVersion)
    else
      var n := CountOf(b[0]);
      if |b| < MIN_HEADER + n * 4 then Err(BufferTooSmall)
      else
        var x := ExtensionOf(b[0]);
        var (profile, data) := if x then ReadExtension(b, MIN_HEADER + 4 * n) else (0, []);
        Ok(Header(VersionOf(b[0]), PaddingOf(b[0]), x, n, MarkerOf(b[1]), TypeOf(b[1]),
                  Word16(b, 2), Word32(b, 4), Word32(b, 8), ReadCsrc(b, n), profile, data))
  }

  // --------------------------------------------------------------- round trip

  lemma {:induction false} ReadCsrcOfBytes(b: seq<byte>, csrc: seq<u32>)
    requires MIN_HEADER + 4 * |csrc| <= |b| && b[MIN_HEADER..MIN_HEADER + 4 * |csrc|] == CsrcBytes(csrc)
    ensures ReadCsrc(b, |csrc|) == csrc
  {
    if csrc != [] {
      var n := |csrc| - 1;
      var o := MIN_HEADER + 4 * n;
      SplitTail(b, MIN_HEADER, o, CsrcBytes(csrc[..n]), Be32(csrc[n]));
      ReadCsrcOfBytes(b, csrc[..n]);
      SameWord(b, o, Be32(csrc[n]), 0);
    }
  }

  lemma {:induction false} SplitTail(b: seq<byte>, from: nat, o: nat, front: seq<byte>, tail: seq<byte>)
    requires from + |front| == o && o + |tail| <= |b| && b[from..o + |tail|] == front + tail
    ensures b[from..o] == front && b[o..o + |tail|] == tail[..|tail|]
  {
    assert b[from..o + |tail|][..|front|] == b[from..o];
    assert b[from..o + |tail|][|front|..] == b[o..o + |tail|];
  }

  lemma {:induction false} SubSlice(b: seq<byte>, i: nat, j: nat, k: nat, l: nat)
    requires k <= l && i + l <= j <= |b|
    ensures b[i..j][k..l] == b[i + k..i + l]
  {
    assert |b[i..j]| == j - i;
    assert forall m :: k <= m < l ==> b[i..j][m] == b[i + m];
  }

  lemma {:induction false} ReadExtensionOfBytes(b: seq<byte>, o: nat, profile: u16, words: u16, data: seq<byte>)
    requires |data| == words * 4 && o + 4 + |data| <= |b|
    requires b[o..o + 4 + |data|] == Be16(profile) + Be16(words) + data
    ensures ReadExtension(b, o) == (profile, data)
  {
    hide Be16, Word16;
    var n := |data|;
    Pieces(b[o..o + 4 + n], Be16(profile), Be16(words), data, []);
    SubSlice(b, o, o + 4 + n, 0, 2);
    SubSlice(b, o, o + 4 + n, 2, 4);
    SubSlice(b, o, o + 4 + n, 4, 4 + n);
    SameWord16(b, o, Be16(profile), 0);
    SameWord16(b, o + 2, Be16(words), 0);
    assert b[o + 4..o + 4 + n] == data;
    assert Word16(b, o) == profile && Word16(b, o + 2) * 4 == n;
  }

  lemma {:induction false} FirstByte(v: nat, p: nat, x: nat, n: nat)
    requires v < 4 && p < 2 && x < 2 && n < 16
    ensures var b := v * 64 + p * 32 + x * 16 + n;
            b < 256 && b / 64 == v && b / 32 % 2 == p && b / 16 % 2 == x && b % 16 == n
  {
  }

  lemma {:induction false} Pieces(s: seq<byte>, a: seq<byte>, b: seq<byte>, c: seq<byte>, d: seq<byte>)
    requires s == a + b + c + d
    ensures |s| == |a| + |b| + |c| + |d| && s[..|a|] == a && s[|a|..|a| + |b|] == b
    ensures s[|a| + |b|..|a| + |b| + |c|] == c && s[|a| + |b| + |c|..] == d
  {
  }

  ghost predicate HasFields(h: Header, b: seq<byte>) {
    && |b| >= MIN_HEADER
    && VersionOf(b[0]) == h.version && PaddingOf(b[0]) == h.padding && ExtensionOf(b[0]) == h.extension
    && CountOf(b[0]) == h.csrcCount && MarkerOf(b[1]) == h.marker && TypeOf(b[1]) == h.payloadType
    && Word16(b, 2) == h.sequenceNumber && Word32(b, 4) == h.timestamp && Word32(b, 8) == h.ssrc
  }

  lemma {:induction false} FlagFields(h: Header)
    requires h.WellFormed()
    ensures var f := FlagBytes(h);
            && VersionOf(f[0]) == h.version && PaddingOf(f[0]) == h.padding && ExtensionOf(f[0]) == h.extension
            && CountOf(f[0]) == h.csrcCount && MarkerOf(f[1]) == h.marker && TypeOf(f[1]) == h.payloadType
  {
    FirstByte(h.version, Bit(h.padding), Bit(h.extension), h.csrcCount);
  }

  lemma {:induction false} FixedFields(h: Header, b: seq<byte>)
    requires h.WellFormed() && |b| >= MIN_HEADER && b[..MIN_HEADER] == FixedBytes(h)
    ensures HasFields(h, b)
  {
    hide VersionOf, PaddingOf, ExtensionOf, CountOf, MarkerOf, TypeOf, FlagBytes, Be16, Be32, Word16, Word32;
    FlagFields(h);
    FourJoined(FlagBytes(h), Be16(h.sequenceNumber), Be32(h.timestamp), Be32(h.ssrc));
    var f := FixedBytes(h);
    Pieces(f, FlagBytes(h), Be16(h.sequenceNumber), Be32(h.timestamp), Be32(h.ssrc));
    SubSlice(b, 0, 12, 2, 4);
    SubSlice(b, 0, 12, 4, 8);
    SubSlice(b, 0, 12, 8, 12);
    SameWord16(b, 2, Be16(h.sequenceNumber), 0);
    SameWord(b, 4, Be32(h.timestamp), 0);
    SameWord(b, 8, Be32(h.ssrc), 0);
    assert b[0] == FlagBytes(h)[0] && b[1] == FlagBytes(h)[1];
  }

  lemma {:induction false} ExtensionRead(h: Header, b: seq<byte>, o: nat)
    requires h.WellFormed() && h.extension && o + 4 + |h.extensionData| <= |b|
    requires b[o..o + |ExtensionBytes(h)|] == ExtensionBytes(h)
    ensures ReadExtension(b, o) == (h.profile, h.extensionData)
  {
    var words := |h.extensionData| / 4;
    assert words * 4 == |h.extensionData| && words % 0x1_0000 == words;
    ReadExtensionOfBytes(b, o, h.profile, words, h.extensionData);
  }

  lemma {:induction false} ParsedFields(h: Header, b: seq<byte>)
    requires h.WellFormed() && |b| >= MIN_HEADER + 4 * |h.csrc|
    requires HasFields(h, b) && ReadCsrc(b, |h.csrc|) == h.csrc
    requires h.extension ==> ReadExtension(b, MIN_HEADER + 4 * |h.csrc|) == (h.profile, h.extensionData)
    ensures ParseHeader(b) == Ok(h)
  {
    hide VersionOf, PaddingOf, ExtensionOf, CountOf, MarkerOf, TypeOf, Word16, Word32, ReadCsrc, ReadExtension;
  }

  /** A header comes back from the wire, whatever follows it, if and only if it is well formed. */
  lemma {:induction false} HeaderRoundTrip(h: Header, rest: seq<byte>)
    ensures ParseHeader(HeaderBytes(h) + rest) == Ok(h) <==> h.WellFormed()
  {
    hide FixedBytes, CsrcBytes, ReadCsrc, ReadExtension;
    if h.WellFormed() {
      var b := HeaderBytes(h) + rest;
      var o := MIN_HEADER + 4 * |h.csrc|;
      ThreeJoined(FixedBytes(h), CsrcBytes(h.csrc), ExtensionBytes(h));
      Pieces(b, FixedBytes(h), CsrcBytes(h.csrc), ExtensionBytes(h), rest);
      ReadCsrcOfBytes(b, h.csrc);
      if h.extension {
        ExtensionRead(h, b, o);
      }
      FixedFields(h, b);
      ParsedFields(h, b);
    }
  }

  /** The first 12 bytes as section 5.1 of RFC 3550 draws them. */
  lemma {:induction false} HeaderLayout(h: Header)
    requires h.WellFormed()
    ensures var b := HeaderBytes(h);
            && |b| >= 12
            && b[0] == 128 + (if h.padding then 32 else 0) + (if h.extension then 16 else 0) + |h.csrc|
            && b[1] == (if h.marker then 128 else 0) + h.payloadType
            && Number(b[2..4]) == h.sequenceNumber && Number(b[4..8]) == h.timestamp && Number(b[8..12]) == h.ssrc
  {
    hide Be16, Be32, HeaderBytes, FlagBytes, Number;
    FrontOf(h);
    NumberOf16(h.sequenceNumber);
    NumberOf32(h.timestamp);
    NumberOf32(h.ssrc);
    FlagsAre(h);
  }

  lemma {:induction false} FrontOf(h: Header)
    ensures var b, f := HeaderBytes(h), FlagBytes(h);
            && |b| >= 12 && b[0] == f[0] && b[1] == f[1]
            && b[2..4] == Be16(h.sequenceNumber) && b[4..8] == Be32(h.timestamp) && b[8..12] == Be32(h.ssrc)
  {
    hide Be16, Be32, CsrcBytes, ExtensionBytes, Joined, FlagBytes;
    ThreeJoined(FixedBytes(h), CsrcBytes(h.csrc), ExtensionBytes(h));
    FourJoined(FlagBytes(h), Be16(h.sequenceNumber), Be32(h.timestamp), Be32(h.ssrc));
    FixedAt(FlagBytes(h), Be16(h.sequenceNumber), Be32(h.timestamp), Be32(h.ssrc),
            CsrcBytes(h.csrc), ExtensionBytes(h), HeaderBytes(h));
  }

  lemma {:induction false} FlagsAre(h: Header)
    requires h.WellFormed()
    ensures FlagBytes(h) == [128 + (if h.padding then 32 else 0) + (if h.extension then 16 else 0) + |h.csrc|,
                             (if h.marker then 128 else 0) + h.payloadType]
  {
  }

  lemma {:induction false} FixedAt(f: seq<byte>, s: seq<byte>, t: seq<byte>, x: seq<byte>, c: seq<byte>,
                                   e: seq<byte>, b: seq<byte>)
    requires |f| == 2 && |s| == 2 && |t| == 4 && |x| == 4 && b == f + s + t + x + c + e
    ensures |b| >= 12 && b[0] == f[0] && b[1] == f[1] && b[2..4] == s && b[4..8] == t && b[8..12] == x
  {
  }

  /** A buffer is refused exactly when it is shorter than its fixed part and CSRC list, or of another
      version; an extension block that does not fit is read as empty. */
  lemma {:induction false} ParsesExactly(b: seq<byte>)
    ensures ParseHeader(b).Ok? <==> |b| >= 12 && b[0] / 64 == 2 && |b| >= 12 + 4 * (b[0] % 16)
    ensures ParseHeader(b) == Err(InvalidVersion) <==> |b| >= 12 && b[0] / 64 != 2
    ensures ParseHeader(b).Ok? && ParseHeader(b).value.extension ==>
              var o := 12 + 4 * (b[0] % 16);
              && (|b| < o + 4 ==> ParseHeader(b).value.profile == 0 && ParseHeader(b).value.extensionData == [])
              && (|b| >= o + 4 ==> ParseHeader(b).value.profile == Word16(b, o))
              && (|b| >= o + 4 && |b| < o + 4 + 4 * Word16(b, o + 2) ==> ParseHeader(b).value.extensionData == [])
  {
    hide PaddingOf, ExtensionOf, MarkerOf, TypeOf, Word16, Word32, ReadCsrc;
  }

  /** RtpHeader.Encode into the front of a buffer. The size it checks and returns goes by the CSRC
      count, what it writes by the CSRC list; it is in step when the two agree. */
  method EncodeHeader(h: Header, buf: array<byte>) returns (r: Result<nat>)
    requires buf.Length >= h.Size() ==> buf.Length >= |HeaderBytes(h)|
    modifies buf
    ensures r == if buf.Length < h.Size() then Err(BufferTooSmall) else Ok(h.Size())
    ensures r.Ok? ==> var n := |HeaderBytes(h)|; buf[..n] == HeaderBytes(h) && buf[n..] == old(buf[n..])
    ensures h.csrcCount == |h.csrc| <==> |HeaderBytes(h)| == h.Size()
    ensures r.Err? ==> buf[..] == old(buf[..])
  {
    hide FixedBytes, CsrcBytes, ExtensionBytes;
    ExtensionSize(h);
    ThreeJoined(FixedBytes(h), CsrcBytes(h.csrc), ExtensionBytes(h));
    if buf.Length < h.Size() {
      return Err(BufferTooSmall);
    }
    Put(buf, 0, FixedBytes(h));
    var offset := PutCsrc(buf, h.csrc);
    if h.extension {
      Put(buf, offset, ExtensionBytes(h));
    }
    r := Ok(h.Size());
  }

  lemma {:induction false} ExtensionSize(h: Header)
    ensures |ExtensionBytes(h)| == if h.extension then 4 + |h.extensionData| else 0
  {
  }

  method PutCsrc(buf: array<byte>, csrc: seq<u32>) returns (offset: nat)
    requires MIN_HEADER + 4 * |csrc| <= buf.Length
    modifies buf
    ensures offset == MIN_HEADER + 4 * |csrc| && buf[..offset] == old(buf[..MIN_HEADER]) + CsrcBytes(csrc)
    ensures forall m :: offset <= m <= buf.Length ==> buf[m..] == old(buf[m..])
  {
    offset := MIN_HEADER;
    for i := 0 to |csrc|
      invariant offset == MIN_HEADER + 4 * i
      invariant buf[..offset] == old(buf[..MIN_HEADER]) + CsrcBytes(csrc[..i])
      invariant forall m :: offset <= m <= buf.Length ==> buf[m..] == old(buf[m..])
    {
      Put(buf, offset, Be32(csrc[i]));
      assert csrc[..i + 1][..i] == csrc[..i];
      offset := offset + 4;
    }
    assert csrc[..|csrc|] == csrc;
  }

  /** Copies bs to offset o and touches nothing else. */
  method Put(buf: array<byte>, o: nat, bs: seq<byte>)
    requires o + |bs| <= buf.Length
    modifies buf
    ensures buf[..o + |bs|] == old(buf[..o]) + bs
    ensures forall m :: o + |bs| <= m <= buf.Length ==> buf[m..] == old(buf[m..])
  {
    for k := 0 to |bs|
      invariant buf[..o + k] == old(buf[..o]) + bs[..k]
      invariant forall j :: o + k <= j < buf.Length ==> buf[j] == old(buf[j])
    {
      buf[o + k] := bs[k];
    }
  }

  /** DecodeRtpHeader. */
  method DecodeHeader(buf: seq<byte>) returns (r: Result<Header>)
    ensures r == ParseHeader(buf)
  {
    hide VersionOf, PaddingOf, ExtensionOf, CountOf, MarkerOf, TypeOf, Word16, Word32;
    if |buf| < MIN_HEADER {
      return Err(BufferTooSmall);
    }
    var version := VersionOf(buf[0]);
    if version != VERSION {
      return Err(InvalidVersion);
    }
    var n := CountOf(buf[0]);
    if |buf| < MIN_HEADER + n * 4 {
      return Err(BufferTooSmall);
    }
    var csrc, offset := [], 12;
    for i := 0 to n
      invariant offset == 12 + 4 * i && csrc == ReadCsrc(buf, i)
    {
      csrc := csrc + [Word32(buf, offset)];
      offset := offset + 4;
    }
    var h := Header(version, PaddingOf(buf[0]), ExtensionOf(buf[0]), n, MarkerOf(buf[1]), TypeOf(buf[1]),
                    Word16(buf, 2), Word32(buf, 4), Word32(buf, 8), csrc, 0, []);
    if h.extension {
      h := DecodeExtension(buf, offset, h);
    }
    r := Ok(h);
  }

  method DecodeExtension(buf: seq<byte>, start: nat, h: Header) returns (h': Header)
    requires h.profile == 0 && h.extensionData == []
    ensures h' == h.(profile := ReadExtension(buf, start).0, extensionData := ReadExtension(buf, start).1)
  {
    hide Word16;
    var offset := start;
    h' := h;
    if |buf| >= offset + 4 {
      h' := h'.(profile := Word16(buf, offset));
      var extBytes := Word16(buf, offset + 2) * 4;
      offset := offset + 4;
      if |buf| >= offset + extBytes {
        h' := h'.(extensionData := buf[offset..offset + extBytes]);
      }
    }
  }

  // ------------------------------------------------------------ packet source

  /** RtpSession: the only source of sequence numbers for the sender. */
  class Session {
    const ssrc: u32
    const payloadType: byte
    const samplesPerPacket: nat
    var sequenceNumber: u16
    var timestamp: u32

    constructor (ssrc: u32, payloadType: byte, samplesPerPacket: nat, firstSeq: u16, firstTimestamp: u32)
      ensures this.ssrc == ssrc && this.payloadType == payloadType && this.samplesPerPacket == samplesPerPacket
      ensures sequenceNumber == firstSeq && timestamp == firstTimestamp
    {
      this.ssrc, this.payloadType, this.samplesPerPacket := ssrc, payloadType, samplesPerPacket;
      sequenceNumber, timestamp := firstSeq, firstTimestamp;
    }

    /** CreatePacketAt: an explicit timestamp; only the sequence number advances. */
    method CreatePacketAt(payload: seq<byte>, ts: u32, marker: bool) returns (p: Packet)
      modifies this
      ensures p.payload == payload && p.header.sequenceNumber == old(sequenceNumber)
      ensures p.header.timestamp == ts && p.header.ssrc == ssrc && p.header.marker == marker
      ensures payloadType < 128 ==> p.header.WellFormed()
      ensures sequenceNumber == (old(sequenceNumber) + 1) % 0x1_0000 && timestamp == old(timestamp)
    {
      p := Packet(Header(VERSION, false, false, 0, marker, payloadType, sequenceNumber, ts, ssrc, [], 0, []), payload);
      sequenceNumber := (sequenceNumber + 1) % 0x1_0000;
    }

    method CreatePacketWithDuration(payload: seq<byte>, durationSamples: int, marker: bool) returns (p: Packet)
      modifies this
      ensures p.payload == payload && p.header.sequenceNumber == old(sequenceNumber)
      ensures p.header.timestamp == old(timestamp) && p.header.ssrc == ssrc && p.header.marker == marker
      ensures payloadType < 128 ==> p.header.WellFormed()
      ensures sequenceNumber == (old(sequenceNumber) + 1) % 0x1_0000
      ensures timestamp == (old(timestamp) + durationSamples) % 0x1_0000_0000
    {
      p := Packet(Header(VERSION, false, false, 0, marker, payloadType, sequenceNumber, timestamp, ssrc, [], 0, []),
                  payload);
      sequenceNumber := (sequenceNumber + 1) % 0x1_0000;
      timestamp := (timestamp + durationSamples) % 0x1_0000_0000;
    }
  }
}
