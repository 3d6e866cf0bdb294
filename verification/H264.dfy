/** The H.264 payload format (internal/voip/media/h264.go, lines 72-192; sections 5.6 to 5.8 of
RFC 6184): fragmenting an access unit, and putting it together again. */
module H264 {
  import opened Words
  import opened AnnexB

  const STAP_A := 24
  const FU_A := 28
  const MAX_PAYLOAD := 1100

  function Type(header: byte): byte { header % 32 }
  function Flags(header: byte): byte { header - header % 32 }

  // --------------------------------------------------------------- packetizer

  function FuIndicator(header: byte): byte { Flags(header) + FU_A }

  /** Start bit 0x80, end bit 0x40, then the NAL type. */
  function FuHeader(header: byte, first: bool, last: bool): byte {
    (if first then 128 else 0) + (if last then 64 else 0) + Type(header)
  }

  /** The FU-A fragments of nal from body offset i on. */
  function Fragments(nal: Bytes, chunk: nat, i: nat): (ps: seq<Bytes>)
    requires |nal| >= 1 && chunk >= 1 && i <= |nal| - 1
    decreases |nal| - i
  {
    if i == |nal| - 1 then []
    else
      var end := if i + chunk < |nal| - 1 then i + chunk else |nal| - 1;
      [[FuIndicator(nal[0]), FuHeader(nal[0], i == 0, end == |nal| - 1)] + nal[1 + i..1 + end]]
      + Fragments(nal, chunk, end)
  }

  function Payloads(nal: Bytes, max: nat): seq<Bytes>
    requires max > 2 && |nal| >= 1
  {
    if |nal| <= max then [nal] else Fragments(nal, max - 2, 0)
  }

  function AllPayloads(nals: seq<Bytes>, max: nat, k: nat): seq<Bytes>
    requires max > 2 && k <= |nals| && forall j :: 0 <= j < |nals| ==> |nals[j]| >= 1
  {
    if k == 0 then [] else AllPayloads(nals, max, k - 1) + Payloads(nals[k - 1], max)
  }

  function Limit(maxPayload: int): (m: nat)
    ensures m > 2
  {
    if maxPayload <= 2 then MAX_PAYLOAD else maxPayload
  }

  /** What a relay may rely on: payloads fit, and no fragment both starts and ends a unit. */
  ghost predicate Sendable(p: Bytes, max: nat) {
    1 <= |p| <= max && (Type(p[0]) == FU_A && |p| >= 2 ==> !(p[1] >= 192))
  }

  lemma {:induction false} FragmentsSendable(nal: Bytes, chunk: nat, i: nat, k: nat)
    requires |nal| > chunk + 2 && chunk >= 1 && i <= |nal| - 1 && k < |Fragments(nal, chunk, i)|
    ensures Sendable(Fragments(nal, chunk, i)[k], chunk + 2) && |Fragments(nal, chunk, i)[k]| >= 3
    decreases |nal| - i
  {
    var end := if i + chunk < |nal| - 1 then i + chunk else |nal| - 1;
    if k > 0 {
      FragmentsSendable(nal, chunk, end, k - 1);
    }
  }

  /** A fragment as section 5.8 of RFC 6184 has it: indicator of type 28 with the unit's upper three
      bits, header with the unit's type and the start and end bits, then bytes of the unit. */
  ghost predicate FragmentOf(p: Bytes, nal: Bytes, first: bool, last: bool, at: nat)
    requires |nal| >= 1
  {
    && |p| >= 3 && p[0] == nal[0] / 32 * 32 + 28
    && p[1] == (if first then 128 else 0) + (if last then 64 else 0) + nal[0] % 32
    && at + |p| - 2 <= |nal| - 1 && p[2..] == nal[1 + at..1 + at + |p| - 2]
  }

  /** Fragment k carries the next bytes of the unit, as many as fit but for the last; the first one has
      the start bit and the last one the end bit. */
  lemma {:induction false} FragmentLayout(nal: Bytes, chunk: nat, i: nat, k: nat)
    requires chunk >= 1 && i < |nal| - 1 && k < |Fragments(nal, chunk, i)|
    ensures var p, at, last := Fragments(nal, chunk, i)[k], i + k * chunk, k == |Fragments(nal, chunk, i)| - 1;
            && FragmentOf(p, nal, i == 0 && k == 0, last, at)
            && if last then at + |p| - 2 == |nal| - 1 else |p| == chunk + 2
    decreases k
  {
    hide FragmentOf, Fragments;
    FragmentsUnfold(nal, chunk, i);
    if k > 0 {
      FragmentLayout(nal, chunk, i + chunk, k - 1);
      OneChunkMore(k, chunk);
    }
  }

  lemma {:induction false} OneChunkMore(k: nat, chunk: nat)
    requires k > 0
    ensures k * chunk == (k - 1) * chunk + chunk
  {
  }

  lemma {:induction false} FragmentsUnfold(nal: Bytes, chunk: nat, i: nat)
    requires chunk >= 1 && i < |nal| - 1
    ensures var ps, end := Fragments(nal, chunk, i), if i + chunk < |nal| - 1 then i + chunk else |nal| - 1;
            && |ps| >= 1 && |ps[0]| == 2 + end - i && (|ps| == 1 <==> end == |nal| - 1)
            && FragmentOf(ps[0], nal, i == 0, |ps| == 1, i)
            && (|ps| > 1 ==> end == i + chunk && ps[1..] == Fragments(nal, chunk, i + chunk))
  {
    hide FragmentOf, FuIndicator, FuHeader;
    var end := if i + chunk < |nal| - 1 then i + chunk else |nal| - 1;
    assert Fragments(nal, chunk, i)[1..] == Fragments(nal, chunk, end);
    FragmentFields(nal, i == 0, i, end);
  }

  lemma {:induction false} FragmentFields(nal: Bytes, first: bool, i: nat, end: nat)
    requires i < end < |nal|
    ensures var last := end == |nal| - 1;
            FragmentOf([FuIndicator(nal[0]), FuHeader(nal[0], first, last)] + nal[1 + i..1 + end], nal, first, last, i)
  {
    var p := [FuIndicator(nal[0]), FuHeader(nal[0], first, end == |nal| - 1)] + nal[1 + i..1 + end];
    assert p[2..] == nal[1 + i..1 + end];
    UpperBits(nal[0]);
  }

  lemma {:induction false} UpperBits(h: byte)
    ensures Flags(h) == h / 32 * 32
  {
  }

  method Fragment(nal: Bytes, maxPayload: nat) returns (ps: seq<Bytes>)
    requires maxPayload > 2 && |nal| > maxPayload
    ensures ps == Fragments(nal, maxPayload - 2, 0)
  {
    hide FuIndicator, FuHeader, Fragments;
    var nalHeader := nal[0];
    var fuIndicator := FuIndicator(nalHeader);
    var body := nal[1..];
    var chunk := maxPayload - 2;
    ps := [];
    var i := 0;
    while i < |body|
      invariant i <= |body| && ps + Fragments(nal, chunk, i) == Fragments(nal, chunk, 0)
      decreases |body| - i
    {
      var end := if i + chunk > |body| then |body| else i + chunk;
      var fuHeader := FuHeader(nalHeader, i == 0, end == |body|);
      NextFragment(nal, chunk, i, end);
      ps := ps + [[fuIndicator, fuHeader] + body[i..end]];
      i := end;
    }
    NoFragment(nal, chunk);
  }

  lemma {:induction false} NextFragment(nal: Bytes, chunk: nat, i: nat, end: nat)
    requires chunk >= 1 && i < |nal| - 1 && end == if i + chunk < |nal| - 1 then i + chunk else |nal| - 1
    ensures Fragments(nal, chunk, i)
         == [[FuIndicator(nal[0]), FuHeader(nal[0], i == 0, end == |nal| - 1)] + nal[1..][i..end]]
            + Fragments(nal, chunk, end)
  {
    hide FuIndicator, FuHeader;
    assert nal[1..][i..end] == nal[1 + i..1 + end];
  }

  lemma {:induction false} NoFragment(nal: Bytes, chunk: nat)
    requires chunk >= 1 && |nal| >= 1
    ensures Fragments(nal, chunk, |nal| - 1) == []
  {
  }

  /** PacketizeH264. */
  method PacketizeH264(annexb: Bytes, maxPayload: int) returns (out: seq<Bytes>)
    ensures var nals, max := Nals(annexb), if maxPayload <= 2 then 1100 else maxPayload;
            (forall j :: 0 <= j < |nals| ==> |nals[j]| >= 1) && out == AllPayloads(nals, max, |nals|)
  {
    hide HasCode, Nals, Fragments;
    NalsClean(annexb);
    var max := Limit(maxPayload);
    var nals := AnnexBNALUs(annexb);
    out := [];
    for k := 0 to |nals|
      invariant out == AllPayloads(nals, max, k)
    {
      if |nals[k]| <= max {
        out := out + [nals[k]];
      } else {
        var ps := Fragment(nals[k], max);
        out := out + ps;
      }
    }
  }

  // ------------------------------------------------------------- depacketizer

  ghost predicate KeyNal(nal: Bytes) {
    |nal| >= 1 && Type(nal[0]) in {5, 7, 8}
  }

  /** IDR slices, sequence and picture parameter sets, whatever their upper bits. */
  lemma {:induction false} KeyTypes(h: byte, body: Bytes)
    ensures KeyNal([h] + body) <==> h - h / 32 * 32 == 5 || h - h / 32 * 32 == 7 || h - h / 32 * 32 == 8
  {
  }

  ghost predicate AnyKey(nals: seq<Bytes>) {
    exists k :: 0 <= k < |nals| && KeyNal(nals[k])
  }

  /** The depacketizer as a list of finished units and the unit in flight. */
  datatype Assembly = Assembly(nals: seq<Bytes>, fu: Bytes, open: bool) {
    function Adding(nal: Bytes): Assembly {
      if nal == [] then this else this.(nals := nals + [nal])
    }
  }

  /** The units of an aggregation packet from offset i on: size, then that many bytes. */
  function Aggregated(p: Bytes, i: nat): seq<Bytes>
    requires i <= |p|
    decreases |p| - i
  {
    if |p| - i < 2 then []
    else
      var size := Word16(p, i);
      if size == 0 || size > |p| - i - 2 then []
      else [p[i + 2..i + 2 + size]] + Aggregated(p, i + 2 + size)
  }

  /** A fragment: the start bit restarts the unit, the end bit finishes it. */
  function Fragmented(a: Assembly, p: Bytes): Assembly
    requires |p| >= 2
  {
    var first, last := p[1] >= 128, p[1] % 128 >= 64;
    var b := if first then Assembly(a.nals, [Flags(p[0]) + Type(p[1])], true) else a;
    var c := if b.open then b.(fu := b.fu + p[2..]) else b;
    if last && c.open then c.Adding(c.fu).(fu := [], open := false) else c
  }

  function Absorb(a: Assembly, p: Bytes): Assembly {
    if p == [] then a
    else if 1 <= Type(p[0]) <= 23 then a.Adding(p)
    else if Type(p[0]) == STAP_A then a.(nals := a.nals + Aggregated(p, 1))
    else if Type(p[0]) == FU_A && |p| >= 2 then Fragmented(a, p)
    else a
  }

  class Depacketizer {
    var fu: Bytes
    var fuHdr: bool
    var au: Bytes
    var hasKey: bool
    ghost var nals: seq<Bytes>

    ghost predicate Valid()
      reads this
    {
      && au == Frame(nals) && (hasKey <==> AnyKey(nals)) && (forall k :: 0 <= k < |nals| ==> nals[k] != [])
      && (fuHdr ==> fu != [])
    }

    ghost function Abs(): Assembly
      reads this
    {
      Assembly(nals, fu, fuHdr)
    }

    constructor ()
      ensures Valid() && Abs() == Assembly([], [], false)
    {
      fu, fuHdr, au, hasKey, nals := [], false, [], false, [];
    }

    method AppendNAL(nal: Bytes)
      requires Valid()
      modifies this`au, this`hasKey, this`nals
      ensures Valid() && Abs() == old(Abs()).Adding(nal)
    {
      hide AnyKey, Frame, Type;
      if nal == [] {
        return;
      }
      if Type(nal[0]) in {5, 7, 8} {
        hasKey := true;
      }
      KeySnoc(nals, nal);
      FrameSnoc(nals, nal);
      au := au + [0, 0, 0, 1];
      au := au + nal;
      nals := nals + [nal];
    }

    method Flush(marker: bool) returns (out: Bytes, key: bool, complete: bool)
      requires Valid()
      modifies this`au, this`hasKey, this`nals
      ensures Valid() && fu == old(fu) && fuHdr == old(fuHdr)
      ensures complete == (marker && old(nals) != [])
      ensures if complete then out == Frame(old(nals)) && key == AnyKey(old(nals)) && nals == []
              else out == [] && !key && nals == old(nals)
    {
      FrameEmpty(nals);
      if !marker || au == [] {
        return [], false, false;
      }
      out, key, complete := au, hasKey, true;
      au, hasKey, nals := [], false, [];
    }

    method AppendAggregated(p: Bytes)
      requires Valid() && |p| >= 1
      modifies this`au, this`hasKey, this`nals
      ensures Valid() && Abs() == old(Abs()).(nals := old(nals) + Aggregated(p, 1))
    {
      hide AnyKey, Frame;
      var i := 1;
      while |p| - i >= 2
        invariant Valid() && fu == old(fu) && fuHdr == old(fuHdr) && 1 <= i <= |p|
        invariant nals + Aggregated(p, i) == old(nals) + Aggregated(p, 1)
        decreases |p| - i
      {
        var size := Word16(p, i);
        if size == 0 || size > |p| - i - 2 {
          break;
        }
        AppendNAL(p[i + 2..i + 2 + size]);
        i := i + 2 + size;
      }
    }

    method AppendFragment(p: Bytes)
      requires Valid() && |p| >= 2
      modifies this
      ensures Valid() && Abs() == Fragmented(old(Abs()), p)
    {
      hide AnyKey, Frame;
      var fuHeader := p[1];
      var first, last := fuHeader >= 128, fuHeader % 128 >= 64;
      if first {
        fu, fuHdr := [Flags(p[0]) + Type(fuHeader)], true;
      }
      if fuHdr {
        fu := fu + p[2..];
      }
      if last && fuHdr {
        AppendNAL(fu);
        fu, fuHdr := [], false;
      }
    }

    /** Push. */
    method Push(payload: Bytes, marker: bool) returns (out: Bytes, key: bool, complete: bool)
      requires Valid()
      modifies this
      ensures Valid()
      ensures var a := Absorb(old(Abs()), payload);
              && complete == (marker && a.nals != []) && fu == a.fu && fuHdr == a.open
              && if complete then out == Frame(a.nals) && key == AnyKey(a.nals) && nals == []
                 else out == [] && !key && nals == a.nals
    {
      hide AnyKey, Frame;
      if payload != [] {
        var nalType := Type(payload[0]);
        if 1 <= nalType <= 23 {
          AppendNAL(payload);
        } else if nalType == STAP_A {
          AppendAggregated(payload);
        } else if nalType == FU_A && |payload| >= 2 {
          AppendFragment(payload);
        }
      }
      out, key, complete := Flush(marker);
    }
  }

  lemma {:induction false} FrameSnoc(nals: seq<Bytes>, nal: Bytes)
    ensures Frame(nals + [nal]) == Frame(nals) + [0, 0, 0, 1] + nal
  {
    assert (nals + [nal])[..|nals|] == nals;
  }

  lemma {:induction false} KeySnoc(nals: seq<Bytes>, nal: Bytes)
    ensures AnyKey(nals + [nal]) <==> AnyKey(nals) || KeyNal(nal)
  {
    if AnyKey(nals) {
      var k :| 0 <= k < |nals| && KeyNal(nals[k]);
      assert (nals + [nal])[k] == nals[k];
    }
    assert (nals + [nal])[|nals|] == nal;
  }

  lemma {:induction false} FrameEmpty(nals: seq<Bytes>)
    ensures Frame(nals) == [] <==> nals == []
  {
  }

  // -------------------------------------------------------------- aggregation

  /** Units behind their 16-bit sizes, as section 5.7.1 of RFC 6184 has them. */
  function Sizes(units: seq<Bytes>, k: nat): Bytes
    requires k <= |units| && forall j :: 0 <= j < |units| ==> |units[j]| < 0x1_0000
    decreases |units| - k
  {
    if k == |units| then [] else Be16(|units[k]|) + units[k] + Sizes(units, k + 1)
  }

  /** Nothing, a single byte, a size of zero, or one that goes beyond the end. */
  ghost predicate Stops(tail: Bytes) {
    |tail| < 2 || Word16(tail, 0) == 0 || Word16(tail, 0) > |tail| - 2
  }

  ghost predicate Sized(units: seq<Bytes>) {
    forall k :: 0 <= k < |units| ==> 1 <= |units[k]| < 0x1_0000
  }

  /** The first of a list of units behind their sizes. */
  lemma {:induction false} UnitBehindSize(p: Bytes, i: nat, unit: Bytes, more: Bytes)
    requires 1 <= |unit| < 0x1_0000 && i <= |p| && p[i..] == Be16(|unit|) + unit + more
    ensures i + 2 + |unit| <= |p| && Word16(p, i) == |unit| && p[i + 2..i + 2 + |unit|] == unit
    ensures p[i + 2 + |unit|..] == more
  {
    hide Be16, Word16;
    var n := |unit|;
    assert |p| - i == 2 + n + |more|;
    assert p[i..i + 2] == p[i..][..2] == Be16(n);
    SameWord16(p, i, Be16(n), 0);
    assert p[i + 2..i + 2 + n] == p[i..][2..2 + n];
    assert p[i + 2 + n..] == p[i..][2 + n..];
  }

  lemma {:induction false} AggregatedAre(p: Bytes, i: nat, units: seq<Bytes>, k: nat, tail: Bytes)
    requires Sized(units) && k <= |units| && i <= |p| && p[i..] == Sizes(units, k) + tail && Stops(tail)
    ensures Aggregated(p, i) == units[k..]
    decreases |units| - k
  {
    hide Word16, Be16;
    if k < |units| {
      UnitBehindSize(p, i, units[k], Sizes(units, k + 1) + tail);
      AggregatedAre(p, i + 2 + |units[k]|, units, k + 1, tail);
      assert units[k..] == [units[k]] + units[k + 1..];
    } else {
      assert p[i..] == tail;
      if |tail| >= 2 {
        SameWord16(p, i, tail, 0);
      }
    }
  }

  /** An aggregation packet (type 24) adds exactly its units, in order, up to a truncated or zero-sized
      one, and leaves the fragment in flight alone. */
  lemma {:induction false} AggregationAbsorbed(a: Assembly, p: Bytes, units: seq<Bytes>, tail: Bytes)
    requires Sized(units) && Stops(tail) && p != [] && p[0] % 32 == 24 && p[1..] == Sizes(units, 0) + tail
    ensures Absorb(a, p) == Assembly(a.nals + units, a.fu, a.open)
  {
    hide Aggregated;
    AggregatedAre(p, 1, units, 0, tail);
    assert units[0..] == units;
  }

  /** Every aggregation packet is one: some list of sized units and a tail that stops. */
  lemma {:induction false} AggregatedExist(p: Bytes, i: nat) returns (tail: Bytes)
    requires i <= |p|
    ensures Sized(Aggregated(p, i)) && Stops(tail) && p[i..] == Sizes(Aggregated(p, i), 0) + tail
    decreases |p| - i
  {
    hide Word16, Be16;
    tail := p[i..];
    if |p| - i >= 2 {
      SameWord16(p, i, tail, 0);
      var size := Word16(p, i);
      if size != 0 && size <= |p| - i - 2 {
        tail := AggregatedExist(p, i + 2 + size);
        OneMoreUnit(p, i, size, Aggregated(p, i + 2 + size), tail);
      }
    }
  }

  lemma {:induction false} OneMoreUnit(p: Bytes, i: nat, size: nat, rest: seq<Bytes>, tail: Bytes)
    requires 1 <= size && i + 2 + size <= |p| && size == Word16(p, i) && Sized(rest)
    requires p[i + 2 + size..] == Sizes(rest, 0) + tail
    ensures var all := [p[i + 2..i + 2 + size]] + rest;
            Sized(all) && p[i..] == Sizes(all, 0) + tail
  {
    hide Word16, Be16, Sizes;
    SizesShift([p[i + 2..i + 2 + size]], rest, 0);
    SizeOf(p, i);
    assert p[i..] == p[i..i + 2] + p[i + 2..i + 2 + size] + p[i + 2 + size..];
  }

  lemma {:induction false} SizeOf(p: Bytes, i: nat)
    requires i + 2 <= |p|
    ensures p[i..i + 2] == Be16(Word16(p, i))
  {
    var x := Word16(p, i);
    assert x / 256 == p[i] && x % 256 == p[i + 1];
  }

  lemma {:induction false} SizesShift(one: seq<Bytes>, rest: seq<Bytes>, k: nat)
    requires |one| == 1 && Sized(one) && Sized(rest) && k <= |rest|
    ensures Sized(one + rest) && Sizes(one + rest, k + 1) == Sizes(rest, k)
    ensures k == 0 ==> Sizes(one + rest, 0) == Be16(|one[0]|) + one[0] + Sizes(rest, 0)
    decreases |rest| - k
  {
    hide Be16, Sizes;
    if k < |rest| {
      SizesShift(one, rest, k + 1);
      assert (one + rest)[k + 1] == rest[k];
      SizesStep(one + rest, k + 1);
      SizesStep(rest, k);
    } else {
      SizesEnd(one + rest);
      SizesEnd(rest);
    }
    if k == 0 {
      SizesStep(one + rest, 0);
    }
  }

  lemma {:induction false} SizesStep(units: seq<Bytes>, k: nat)
    requires Sized(units) && k < |units|
    ensures Sizes(units, k) == Be16(|units[k]|) + units[k] + Sizes(units, k + 1)
  {
  }

  lemma {:induction false} SizesEnd(units: seq<Bytes>)
    requires Sized(units)
    ensures Sizes(units, |units|) == []
  {
  }

  /** A single unit (types 1 to 23) adds itself; a payload of any other type but 24 and 28, an empty
      one and a fragment without a header add nothing. */
  lemma {:induction false} OthersAbsorbed(a: Assembly, p: Bytes)
    ensures p != [] && 1 <= p[0] % 32 <= 23 ==> Absorb(a, p) == Assembly(a.nals + [p], a.fu, a.open)
    ensures p == [] || p[0] % 32 in {0, 25, 26, 27, 29, 30, 31} ==> Absorb(a, p) == a
    ensures p != [] && p[0] % 32 == 28 && |p| == 1 ==> Absorb(a, p) == a
  {
    hide Aggregated, Fragmented;
  }

  // -------------------------------------------------------------- round trip

  /** The assembly after a list of payloads, none of which ends an access unit. */
  function AbsorbAll(a: Assembly, ps: seq<Bytes>): Assembly
    decreases |ps|
  {
    if ps == [] then a else AbsorbAll(Absorb(a, ps[0]), ps[1..])
  }

  lemma {:induction false} AbsorbJoin(a: Assembly, x: seq<Bytes>, y: seq<Bytes>)
    ensures AbsorbAll(a, x + y) == AbsorbAll(AbsorbAll(a, x), y)
    decreases |x|
  {
    hide Absorb;
    if x == [] {
      assert x + y == y;
    } else {
      assert (x + y)[0] == x[0] && (x + y)[1..] == x[1..] + y;
      AbsorbJoin(Absorb(a, x[0]), x[1..], y);
    }
  }

  lemma {:induction false} AbsorbOne(a: Assembly, p: Bytes)
    ensures AbsorbAll(a, [p]) == Absorb(a, p)
  {
    hide Absorb;
    var ps := [p];
    assert ps[1..] == [];
  }

  lemma {:induction false} HeaderBits(h: byte, first: bool, last: bool)
    ensures Type(FuIndicator(h)) == FU_A && Flags(FuIndicator(h)) + Type(FuHeader(h, first, last)) == h
    ensures FuHeader(h, first, last) >= 128 <==> first
    ensures FuHeader(h, first, last) % 128 >= 64 <==> last
  {
    assert Flags(h) % 32 == 0;
  }

  /** One fragment takes the unit in flight from 1 + i bytes to 1 + end. */
  lemma {:induction false} OneFragment(a: Assembly, nal: Bytes, i: nat, end: nat)
    requires i < end < |nal| && (i > 0 ==> a.open && a.fu == nal[..1 + i])
    ensures var p := [FuIndicator(nal[0]), FuHeader(nal[0], i == 0, end == |nal| - 1)] + nal[1 + i..1 + end];
            Absorb(a, p) == if end == |nal| - 1 then Assembly(a.nals + [nal], [], false)
                            else Assembly(a.nals, nal[..1 + end], true)
  {
    hide Type, Flags, FuIndicator, FuHeader;
    var h, last := nal[0], end == |nal| - 1;
    HeaderBits(h, i == 0, last);
    var p := [FuIndicator(h), FuHeader(h, i == 0, last)] + nal[1 + i..1 + end];
    assert p[2..] == nal[1 + i..1 + end];
    assert [h] == nal[..1];
    assert nal[..1 + i] + p[2..] == nal[..1 + end];
    assert last ==> nal[..1 + end] == nal;
  }

  lemma {:induction false} FragmentsAbsorbed(a: Assembly, nal: Bytes, chunk: nat, i: nat)
    requires chunk >= 1 && i < |nal| - 1 && (i > 0 ==> a.open && a.fu == nal[..1 + i])
    ensures AbsorbAll(a, Fragments(nal, chunk, i)) == Assembly(a.nals + [nal], [], false)
    decreases |nal| - i
  {
    hide Absorb, FuIndicator, FuHeader;
    var end := if i + chunk < |nal| - 1 then i + chunk else |nal| - 1;
    OneFragment(a, nal, i, end);
    var ps := Fragments(nal, chunk, i);
    assert ps[1..] == Fragments(nal, chunk, end);
    if end < |nal| - 1 {
      FragmentsAbsorbed(Absorb(a, ps[0]), nal, chunk, end);
    }
  }

  /** When the fragment that starts a unit was lost, the rest of that unit adds nothing. */
  lemma {:induction false} LostStart(a: Assembly, nal: Bytes, chunk: nat, i: nat)
    requires !a.open && chunk >= 1 && 0 < i <= |nal| - 1
    ensures AbsorbAll(a, Fragments(nal, chunk, i)) == a
    decreases |nal| - i
  {
    hide Absorb, FuIndicator, FuHeader;
    if i < |nal| - 1 {
      var end := if i + chunk < |nal| - 1 then i + chunk else |nal| - 1;
      var ps := Fragments(nal, chunk, i);
      assert ps[1..] == Fragments(nal, chunk, end);
      NoStart(a, nal[0], end == |nal| - 1, nal[1 + i..1 + end]);
      LostStart(a, nal, chunk, end);
    }
  }

  lemma {:induction false} NoStart(a: Assembly, h: byte, last: bool, body: Bytes)
    requires !a.open
    ensures Absorb(a, [FuIndicator(h), FuHeader(h, false, last)] + body) == a
  {
    hide Flags, FuIndicator, FuHeader, Aggregated, Type;
    HeaderBits(h, false, last);
  }

  ghost predicate Coded(nals: seq<Bytes>) {
    forall k :: 0 <= k < |nals| ==> |nals[k]| >= 1 && 1 <= Type(nals[k][0]) <= 23
  }

  /** The payloads of a list of units add exactly those units, whatever was in flight before. */
  lemma {:induction false} UnitsAbsorbed(a: Assembly, nals: seq<Bytes>, max: nat, k: nat)
    requires max > 2 && Coded(nals) && k <= |nals| && forall j :: 0 <= j < |nals| ==> |nals[j]| >= 1
    ensures AbsorbAll(a, AllPayloads(nals, max, k)).nals == a.nals + nals[..k]
  {
    hide AbsorbAll, Payloads, Coded;
    if k > 0 {
      UnitsAbsorbed(a, nals, max, k - 1);
      var b, nal := AbsorbAll(a, AllPayloads(nals, max, k - 1)), nals[k - 1];
      AbsorbJoin(a, AllPayloads(nals, max, k - 1), Payloads(nal, max));
      assert 1 <= Type(nal[0]) <= 23 by { CodedAt(nals, k - 1); }
      UnitAbsorbed(b, nal, max);
      assert nals[..k] == nals[..k - 1] + [nal];
    } else {
      assert nals[..0] == [];
      AbsorbNothing(a);
    }
  }

  lemma {:induction false} AbsorbNothing(a: Assembly)
    ensures AbsorbAll(a, []) == a
  {
  }

  lemma {:induction false} CodedAt(nals: seq<Bytes>, k: nat)
    requires Coded(nals) && k < |nals|
    ensures |nals[k]| >= 1 && 1 <= Type(nals[k][0]) <= 23
  {
  }

  lemma {:induction false} UnitAbsorbed(a: Assembly, nal: Bytes, max: nat)
    requires max > 2 && |nal| >= 1 && 1 <= Type(nal[0]) <= 23
    ensures AbsorbAll(a, Payloads(nal, max)).nals == a.nals + [nal]
  {
    hide AbsorbAll, Fragments;
    if |nal| > max {
      FragmentsAbsorbed(a, nal, max - 2, 0);
    } else {
      AbsorbOne(a, nal);
    }
  }

  lemma {:induction false} PayloadsSendable(nals: seq<Bytes>, max: nat, k: nat, j: nat)
    requires max > 2 && Coded(nals) && k <= |nals| && j < |AllPayloads(nals, max, k)|
    ensures Sendable(AllPayloads(nals, max, k)[j], max)
  {
    hide Type, Fragments;
    if k > 0 {
      var before, nal := AllPayloads(nals, max, k - 1), nals[k - 1];
      if j < |before| {
        PayloadsSendable(nals, max, k - 1, j);
      } else if |nal| > max {
        FragmentsSendable(nal, max - 2, 0, j - |before|);
      }
    }
  }

  lemma {:induction false} SomePayload(nals: seq<Bytes>, max: nat, k: nat)
    requires max > 2 && Coded(nals) && 0 < k <= |nals|
    ensures AllPayloads(nals, max, k) != []
  {
    var nal := nals[k - 1];
    if |nal| > max {
      assert Fragments(nal, max - 2, 0) != [];
    }
  }

  /** Pushes the payloads of one access unit, the marker on the last. */
  method PushAll(d: Depacketizer, ps: seq<Bytes>) returns (out: Bytes, key: bool, complete: bool)
    requires d.Valid() && d.nals == [] && ps != []
    modifies d
    ensures d.Valid() && d.nals == []
    ensures var nals := AbsorbAll(old(d.Abs()), ps).nals;
            complete == (nals != []) && (complete ==> out == Frame(nals) && key == AnyKey(nals))
  {
    hide Absorb, AnyKey, Frame;
    out, key, complete := [], false, false;
    for k := 0 to |ps|
      invariant d.Valid()
      invariant k < |ps| ==> AbsorbAll(d.Abs(), ps[k..]) == AbsorbAll(old(d.Abs()), ps)
      invariant k == |ps| ==> d.nals == [] && complete == (AbsorbAll(old(d.Abs()), ps).nals != [])
      invariant k == |ps| && complete ==>
                  && out == Frame(AbsorbAll(old(d.Abs()), ps).nals)
                  && key == AnyKey(AbsorbAll(old(d.Abs()), ps).nals)
    {
      assert ps[k..][1..] == ps[k + 1..];
      ghost var a := Absorb(d.Abs(), ps[k]);
      out, key, complete := d.Push(ps[k], k == |ps| - 1);
      if k == |ps| - 1 {
        assert ps[k + 1..] == [];
      } else {
        assert d.Abs() == a;
      }
    }
  }

  /** A stream of access units, packetized and pushed in order: one output per access unit, with
      the same units and the right keyframe flag. */
  method Relay(aus: seq<Bytes>, maxPayload: int) returns (got: seq<(Bytes, bool)>)
    requires forall k :: 0 <= k < |aus| ==> Nals(aus[k]) != [] && Coded(Nals(aus[k]))
    ensures |got| == |aus|
    ensures forall k :: 0 <= k < |aus| ==> Nals(got[k].0) == Nals(aus[k]) && got[k].1 == AnyKey(Nals(aus[k]))
  {
    hide AnyKey, Coded, Nals;
    var d := new Depacketizer();
    got := [];
    for k := 0 to |aus|
      invariant d.Valid() && d.nals == [] && fresh(d)
      invariant |got| == k
      invariant forall j :: 0 <= j < k ==> Nals(got[j].0) == Nals(aus[j]) && got[j].1 == AnyKey(Nals(aus[j]))
    {
      var out, key := RelayOne(d, aus[k], maxPayload);
      got := got + [(out, key)];
    }
  }

  method RelayOne(d: Depacketizer, au: Bytes, maxPayload: int) returns (out: Bytes, key: bool)
    requires d.Valid() && d.nals == [] && Nals(au) != [] && Coded(Nals(au))
    modifies d
    ensures d.Valid() && d.nals == [] && Nals(out) == Nals(au) && key == AnyKey(Nals(au))
  {
    hide Absorb, AbsorbAll, AnyKey, Frame, AllPayloads, Nals;
    ghost var nals := Nals(au);
    var ps := PacketizeH264(au, maxPayload);
    ghost var max := Limit(maxPayload);
    SomePayload(nals, max, |nals|);
    UnitsAbsorbed(d.Abs(), nals, max, |nals|);
    assert [] + nals[..|nals|] == nals;
    var complete;
    out, key, complete := PushAll(d, ps);
    Canonical(au);
  }
}
