/** The whole pulse block: decoding what was encoded, through real bytes. */
module PulseRoundTrip {
  import opened Words
  import opened CodingInterval
  import opened PulseVectors
  import opened PulseTapes
  import opened PulseEncoding
  import opened PulseDecoding
  import opened RangeEncoding
  import opened RangeDecoding

  ghost function Counts(v: seq<int>): seq<nat>
    requires |v| == SUBFRAMES * POS_PER
  {
    [Count(v, 0), Count(v, 1), Count(v, 2), Count(v, 3)]
  }

  ghost predicate ListsFollow(out: seq<byte>, i: Interval, cc: CcTables, v: seq<int>, sf: nat)
    requires cc.Valid() && Normal(i) && sf <= SUBFRAMES
  {
    Encodable(v) && GoodLists(Lists(v)) && Follows(out, i, MagTapes(cc, Lists(v), sf))
  }

  ghost function AfterLists(i: Interval, cc: CcTables, v: seq<int>, sf: nat): Interval
    requires cc.Valid() && Normal(i) && sf <= SUBFRAMES && Encodable(v) && GoodLists(Lists(v))
  {
    Run(i, MagTapes(cc, Lists(v), sf))
  }

  /** What is followed in subframe sf, and what its entries add to the list. */
  lemma {:induction false} ListsOpen(out: seq<byte>, i: Interval, cc: CcTables, v: seq<int>, sf: nat)
    requires cc.Valid() && Normal(i) && sf < SUBFRAMES && ListsFollow(out, i, cc, v, sf)
    ensures var base, u := sf * POS_PER, Units(Subframe(v, sf), sf * POS_PER);
            && RunsFollow(out, i, cc, Diffs(base, u), 0, POS_PER)
            && ListsFollow(out, AfterUnits(i, cc, base, u, 0, POS_PER), cc, v, sf + 1)
            && AfterLists(AfterUnits(i, cc, base, u, 0, POS_PER), cc, v, sf + 1) == AfterLists(i, cc, v, sf)
  {
    hide Run, Follows, MagTape, Cat, CcTables.Valid;
    assert Lists(v)[sf] == SubRuns(v, sf);
    FollowsCat(out, i, MagTape(cc, Lists(v)[sf], 0, POS_PER), MagTapes(cc, Lists(v), sf + 1));
  }

  lemma {:induction false} EntriesOfSubframe(v: seq<int>, sf: nat)
    requires |v| == SUBFRAMES * POS_PER && sf < SUBFRAMES
    ensures Entries(v[..(sf + 1) * POS_PER], 0)
         == Entries(v[..sf * POS_PER], 0) + Rle(Units(Subframe(v, sf), sf * POS_PER))
  {
    assert v[..(sf + 1) * POS_PER] == v[..sf * POS_PER] + Subframe(v, sf);
    EntriesJoin(v[..sf * POS_PER], Subframe(v, sf));
  }

  lemma {:induction false} EntriesJoin(a: seq<int>, b: seq<int>)
    ensures Entries(a + b, 0) == Entries(a, 0) + Rle(Units(b, |a|))
  {
    RleOfUnits(b, |a|);
    EntriesAppend(a, b, 0);
  }

  method DecodeMagnitudes(dec: RangeDecoder, cc: CcTables, split: seq<nat>, ghost v: seq<int>)
    returns (list: seq<(int, nat)>)
    requires dec.Valid() && cc.Valid() && |split| == SUBFRAMES
    requires forall sf :: 0 <= sf < SUBFRAMES ==> split[sf] <= MAX_PER_SF
    requires Encodable(v)
    modifies dec
    ensures dec.Valid() && dec.err == old(dec.err)
    ensures split == Counts(v) && ListsFollow(dec.buf, old(dec.iv), cc, v, 0) ==>
              list == Entries(v, 0) && dec.iv == AfterLists(old(dec.iv), cc, v, 0)
  {
    hide RangeDecoder.Tracks, Run, Follows, MagTapes, AfterLists, AfterUnits, RunsFollow, GoodLists, Rle, Units;
    hide Entries, CcTables.Valid;
    NoEntries();
    assert v[..0 * POS_PER] == [];
    ghost var ok := split == Counts(v) && ListsFollow(dec.buf, dec.iv, cc, v, 0);
    list := [];
    for sf := 0 to SUBFRAMES
      invariant dec.Valid() && dec.err == old(dec.err)
      invariant ok ==> list == Entries(v[..sf * POS_PER], 0)
      invariant ok ==> ListsFollow(dec.buf, dec.iv, cc, v, sf)
      invariant ok ==> AfterLists(dec.iv, cc, v, sf) == AfterLists(old(dec.iv), cc, v, 0)
    {
      if ok {
        ListsOpen(dec.buf, dec.iv, cc, v, sf);
        EntriesOfSubframe(v, sf);
      }
      var more := DecodeSubframe(dec, cc, sf * POS_PER, split[sf], Units(Subframe(v, sf), sf * POS_PER));
      list := list + more;
    }
    assert v[..SUBFRAMES * POS_PER] == v;
    if ok {
      LastList(dec.iv, cc, v);
    }
  }

  lemma {:induction false} NoEntries()
    ensures Entries([], 0) == []
  {
  }

  lemma {:induction false} LastList(i: Interval, cc: CcTables, v: seq<int>)
    requires cc.Valid() && Normal(i) && Encodable(v) && GoodLists(Lists(v))
    ensures AfterLists(i, cc, v, SUBFRAMES) == i
  {
  }

  /** Scatters the signed magnitudes, ignoring positions outside the frame. */
  method Scatter(list: seq<(int, nat)>, signs: seq<int>, ghost v: seq<int>) returns (pulses: array<int>)
    requires |signs| == |list| && |v| == SUBFRAMES * POS_PER
    ensures fresh(pulses) && pulses.Length == SUBFRAMES * POS_PER
    ensures list == Entries(v, 0) && signs == Signs(v) ==> pulses[..] == v
  {
    hide Signs, Entries;
    ghost var ok := list == Entries(v, 0) && signs == Signs(v);
    pulses := new int[SUBFRAMES * POS_PER](_ => 0);
    for i := 0 to |list|
      invariant ok ==> forall n :: 0 <= n < pulses.Length ==> pulses[n] == if |Signs(v[..n])| < i then v[n] else 0
    {
      if ok {
        ScatterStep(v, i);
      }
      if 0 <= list[i].0 < pulses.Length {
        pulses[list[i].0] := list[i].1 * signs[i];
      }
    }
    if ok {
      forall n | 0 <= n < pulses.Length ensures pulses[n] == v[n] {
        if v[n] != 0 {
          EntryOfSample(v, n);
        }
      }
      EntriesSigns(v);
    }
  }

  /** Writing entry i turns the ranks below i into the ranks below i + 1. */
  lemma {:induction false} ScatterStep(v: seq<int>, i: nat)
    requires i < |Signs(v)|
    ensures |Entries(v, 0)| == |Signs(v)|
    ensures var (pos, mag) := Entries(v, 0)[i];
            && 0 <= pos < |v| && |Signs(v[..pos])| == i && v[pos] == mag * Signs(v)[i]
            && forall n :: 0 <= n < |v| && n != pos && |Signs(v[..n])| == i ==> v[n] == 0
  {
    EntriesSigns(v);
    forall n | 0 <= n < |v| && n != Entries(v, 0)[i].0 && |Signs(v[..n])| == i ensures v[n] == 0 {
      if v[n] != 0 {
        EntryOfSample(v, n);
      }
    }
  }

  lemma {:induction false} NoPulses(v: seq<int>)
    requires |v| == SUBFRAMES * POS_PER && Total(v) == 0
    ensures Signs(v) == [] && Entries(v, 0) == []
  {
    for sf := 0 to SUBFRAMES
      invariant Signs(v[..sf * POS_PER]) == []
    {
      assert Count(v, sf) == 0;
      EmptySubframe(Subframe(v, sf), 0);
      SignsOfSubframe(v, sf);
    }
    assert v[..SUBFRAMES * POS_PER] == v;
    EntriesSigns(v);
  }

  ghost function PositionTape(cc: CcTables, v: seq<int>): Tape
    requires cc.Valid() && Encodable(v)
  {
    PackedSymsFit(Signs(v));
    ListsOfVector(v);
    Cat(MagTapes(cc, Lists(v), 0), SignTape(PackSigns(Signs(v)), 0))
  }

  method DecodePositions(dec: RangeDecoder, cc: CcTables, split: seq<nat>, ghost v: seq<int>)
    returns (list: seq<(int, nat)>, signs: seq<int>)
    requires dec.Valid() && cc.Valid() && Encodable(v) && |split| == SUBFRAMES
    requires forall sf :: 0 <= sf < SUBFRAMES ==> split[sf] <= MAX_PER_SF
    modifies dec
    ensures dec.Valid() && dec.err == old(dec.err) && |signs| == |list|
    ensures split == Counts(v) && Follows(dec.buf, old(dec.iv), PositionTape(cc, v)) ==>
              && list == Entries(v, 0) && signs == Signs(v) && dec.iv == Run(old(dec.iv), PositionTape(cc, v))
  {
    hide RangeDecoder.Tracks, Run, Follows, Cat, MagTapes, SignTape, GoodLists, GoodSyms, Signs, Entries, PackSigns;
    hide Lists, CcTables.Valid;
    PackedSymsFit(Signs(v));
    ListsOfVector(v);
    if Follows(dec.buf, dec.iv, PositionTape(cc, v)) {
      FollowsCat(dec.buf, dec.iv, MagTapes(cc, Lists(v), 0), SignTape(PackSigns(Signs(v)), 0));
    }
    list := DecodeMagnitudes(dec, cc, split, v);
    EntriesSigns(v);
    SignsAreSigns(v);
    signs := DecodeSigns(dec, |list|, Signs(v));
  }

  lemma {:induction false} CountsFit(v: seq<int>)
    requires Encodable(v)
    ensures Count(v, 0) <= 40 && Count(v, 1) <= 40 && Count(v, 2) <= 40 && Count(v, 3) <= 40
  {
  }

  lemma {:induction false} BodyParts(cc: CcTables, v: seq<int>)
    requires cc.Valid() && Encodable(v) && Count(v, 0) <= 40 && Count(v, 1) <= 40 && Count(v, 2) <= 40
    requires Count(v, 3) <= 40
    ensures BodyTape(cc, v)
         == Cat(SplitTape(cc, Count(v, 0), Count(v, 1), Count(v, 2), Count(v, 3)), PositionTape(cc, v))
  {
  }

  /** Split, magnitudes and signs of a frame that has pulses. */
  method DecodeBody(dec: RangeDecoder, cc: CcTables, total: nat, ghost v: seq<int>)
    returns (split: seq<nat>, list: seq<(int, nat)>, signs: seq<int>)
    requires dec.Valid() && cc.Valid() && 0 < total <= FRAME_LEN && Encodable(v)
    modifies dec
    ensures dec.Valid() && dec.err == old(dec.err)
    ensures |split| == SUBFRAMES && |signs| == |list|
    ensures total == Total(v) && Follows(dec.buf, old(dec.iv), BodyTape(cc, v)) ==>
              && split == Counts(v) && list == Entries(v, 0) && signs == Signs(v)
              && dec.iv == Run(old(dec.iv), BodyTape(cc, v))
  {
    hide RangeDecoder.Tracks, Run, Follows, Cat, SplitTape, PositionTape, Count, Signs, Entries, CcTables.Valid;
    CountsFit(v);
    ghost var c0, c1, c2, c3 := Count(v, 0), Count(v, 1), Count(v, 2), Count(v, 3);
    BodyParts(cc, v);
    if Follows(dec.buf, dec.iv, BodyTape(cc, v)) {
      FollowsCat(dec.buf, dec.iv, SplitTape(cc, c0, c1, c2, c3), PositionTape(cc, v));
    }
    var s0, s1, s2, s3 := DecodeSplits(dec, cc, total, c0, c1, c2, c3);
    split := [s0, s1, s2, s3];
    list, signs := DecodePositions(dec, cc, split, v);
  }

  lemma {:induction false} SignsAreSigns(v: seq<int>)
    ensures AreSigns(Signs(v))
  {
    if v != [] {
      SignsAreSigns(v[..|v| - 1]);
    }
  }

  /** DecodeSmplPulses. */
  method DecodePulses(dec: RangeDecoder, cc: CcTables, ghost v: seq<int>)
    returns (pulses: array<int>, subfr: seq<nat>)
    requires dec.Valid() && cc.Valid() && Encodable(v)
    modifies dec
    ensures dec.Valid() && dec.err == old(dec.err) && fresh(pulses) && |subfr| == SUBFRAMES
    ensures Follows(dec.buf, old(dec.iv), PulseTape(cc, v)) ==>
              pulses[..] == v && subfr == Counts(v) && dec.iv == Run(old(dec.iv), PulseTape(cc, v))
  {
    hide RangeDecoder.Tracks, Run, Follows, Push, Narrow, Inside, CountSymbol, BodyTape, Count, Signs, Entries;
    hide CcTables.Valid;
    ghost var ok := Follows(dec.buf, dec.iv, PulseTape(cc, v));
    CountsFit(v);
    ghost var rest := PulseTape(cc, v).rest;
    assert Total(v) <= FRAME_LEN;
    RunNone(Push(dec.iv, CountSymbol(Total(v))));
    if ok {
      FollowsThen(dec.buf, dec.iv, CountSymbol(Total(v)), rest);
    }
    var total := DecodeCount(dec, Total(v), rest);
    subfr := [0, 0, 0, 0];
    var list, signs := [], [];
    if total != 0 {
      subfr, list, signs := DecodeBody(dec, cc, total, v);
    } else if ok {
      NoPulses(v);
    }
    pulses := Scatter(list, signs, v);
  }
}
