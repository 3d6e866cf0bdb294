/** encodeSmplPulses (internal/voip/codec/mlow/encoder.go, lines 345-441): the count and
split symbols re-derived from the subframe counts, then the recorded run lengths and
signs replayed. */
module PulseEncoding {
  import opened Words
  import opened Helpers
  import opened CodingInterval
  import opened PulseVectors
  import opened PulseTapes
  import opened RangeEncoding

  method EncodeCount(enc: RangeEncoder, total: nat)
    requires enc.Valid() && total <= FRAME_LEN
    modifies enc, enc.buf
    ensures enc.Valid() && enc.refused == old(enc.refused)
    ensures enc.iv == Push(old(enc.iv), CountSymbol(total))
  {
    hide Push, Tri, RangeEncoder.InRange, RangeEncoder.Tracks, RangeEncoder.Blamed;
    CountInRange(total);
    var fl := 0;
    if total > 0 {
      fl := Tri(total - 1);
    }
    enc.Encode(fl, Tri(total), Tri(FRAME_LEN));
  }

  /** encodeSplit3537, skipped for a half that holds no pulse. */
  method EncodeSplit(enc: RangeEncoder, cc: CcTables, count: nat, s0: nat)
    requires enc.Valid() && cc.Valid() && s0 <= 40 && s0 <= count <= s0 + 40
    modifies enc, enc.buf
    ensures enc.Valid() && enc.refused == old(enc.refused)
    ensures enc.iv == Run(old(enc.iv), QuarterTape(cc, s0, count - s0))
  {
    hide Push, Run, CdfSymbol, Climbs, Increasing, CcTables.Valid, CcTables.RunWindow, CcTables.SplitWindow;
    hide RangeEncoder.InRange, RangeEncoder.Tracks, RangeEncoder.Blamed;
    var lo, minSplit := Min(40, count), Max(count - 40, 0);
    if count == 0 || lo < minSplit || minSplit == lo {
      RunNone(enc.iv);
      return;
    }
    var window := cc.SplitWindow(count, minSplit, lo - minSplit + 2);
    RunStep(enc.iv, CdfSymbol(window, s0 - minSplit), End);
    RunNone(Push(enc.iv, CdfSymbol(window, s0 - minSplit)));
    enc.EncodeCDF(s0 - minSplit, window);
  }

  method EncodeHalf(enc: RangeEncoder, cc: CcTables, total: nat, finalSum: nat)
    requires enc.Valid() && cc.Valid() && finalSum <= 80 && finalSum <= total <= finalSum + 80
    modifies enc, enc.buf
    ensures enc.Valid() && enc.refused == old(enc.refused)
    ensures enc.iv == Run(old(enc.iv), HalfTape(cc, finalSum, total - finalSum))
  {
    hide Push, Run, CdfSymbol, Climbs, Increasing, CcTables.Valid, CcTables.RunWindow, CcTables.SplitWindow;
    hide RangeEncoder.InRange, RangeEncoder.Tracks, RangeEncoder.Blamed;
    var initSum, lo := Max(total - 40 * 2, 0), Max(total - 80, 0);
    var hiBound := total - lo;
    RunNone(enc.iv);
    if initSum < hiBound {
      var window := cc.SplitWindow(total, initSum - lo, hiBound - initSum + 2);
      RunStep(enc.iv, CdfSymbol(window, finalSum - initSum), End);
      RunNone(Push(enc.iv, CdfSymbol(window, finalSum - initSum)));
      enc.EncodeCDF(finalSum - initSum, window);
    }
  }

  method EncodeQuarters(enc: RangeEncoder, cc: CcTables, c0: nat, c1: nat, c2: nat, c3: nat)
    requires enc.Valid() && cc.Valid() && c0 <= 40 && c1 <= 40 && c2 <= 40 && c3 <= 40
    modifies enc, enc.buf
    ensures enc.Valid() && enc.refused == old(enc.refused)
    ensures enc.iv == Run(old(enc.iv), Cat(QuarterTape(cc, c0, c1), QuarterTape(cc, c2, c3)))
  {
    hide Run, Cat, QuarterTape, CcTables.Valid, RangeEncoder.InRange, RangeEncoder.Tracks, RangeEncoder.Blamed;
    RunCat(enc.iv, QuarterTape(cc, c0, c1), QuarterTape(cc, c2, c3));
    EncodeSplit(enc, cc, c0 + c1, c0);
    EncodeSplit(enc, cc, c2 + c3, c2);
  }

  method EncodeSplits(enc: RangeEncoder, cc: CcTables, c0: nat, c1: nat, c2: nat, c3: nat)
    requires enc.Valid() && cc.Valid() && c0 <= 40 && c1 <= 40 && c2 <= 40 && c3 <= 40
    modifies enc, enc.buf
    ensures enc.Valid() && enc.refused == old(enc.refused)
    ensures enc.iv == Run(old(enc.iv), SplitTape(cc, c0, c1, c2, c3))
  {
    hide Run, Cat, HalfTape, QuarterTape, CcTables.Valid, RangeEncoder.InRange, RangeEncoder.Tracks;
    hide RangeEncoder.Blamed;
    RunCat(enc.iv, HalfTape(cc, c0 + c1, c2 + c3), Cat(QuarterTape(cc, c0, c1), QuarterTape(cc, c2, c3)));
    EncodeHalf(enc, cc, c0 + c1 + c2 + c3, c0 + c1);
    EncodeQuarters(enc, cc, c0, c1, c2, c3);
  }

  /** One subframe's run lengths. The samples left never drop below one, so the table
      for the next run always exists. */
  method EncodeRuns(enc: RangeEncoder, cc: CcTables, runs: seq<nat>)
    requires enc.Valid() && cc.Valid() && |runs| <= MAX_PER_SF && GoodRuns(runs, 0, POS_PER)
    modifies enc, enc.buf
    ensures enc.Valid() && enc.refused == old(enc.refused)
    ensures enc.iv == Run(old(enc.iv), MagTape(cc, runs, 0, POS_PER))
  {
    hide Push, Run, CdfSymbol, Climbs, Increasing, CcTables.Valid, CcTables.RunWindow, CcTables.SplitWindow;
    hide RangeEncoder.InRange, RangeEncoder.Tracks, RangeEncoder.Blamed;
    var pos, k := POS_PER, 0;
    while k < |runs|
      invariant k <= |runs| && 1 <= pos && GoodRuns(runs, k, pos)
      invariant enc.Valid() && enc.refused == old(enc.refused)
      invariant Run(enc.iv, MagTape(cc, runs, k, pos)) == Run(old(enc.iv), MagTape(cc, runs, 0, POS_PER))
    {
      var m := runs[k];
      var window := cc.RunWindow(pos, |runs| - k);
      RunStep(enc.iv, CdfSymbol(window, m), MagTape(cc, runs, k + 1, pos - m));
      enc.EncodeCDF(m, window);
      if m > 0 || k == 0 {
        pos := pos - m;
      }
      k := k + 1;
    }
    RunNone(enc.iv);
  }

  lemma {:induction false} FlatPrefix(rs: seq<seq<int>>, n: nat, m: nat)
    requires n <= m <= |rs|
    ensures Flat(rs, n) <= Flat(rs, m)
  {
    if n < m {
      FlatPrefix(rs, n, m - 1);
    }
  }

  lemma {:induction false} FlatNone(rs: seq<seq<int>>)
    ensures Flat(rs, 0) == []
  {
  }

  /** List sf of a concatenation starts where the lists before it end. */
  lemma {:induction false} FlatSlice(rs: seq<seq<int>>, sf: nat)
    requires sf < |rs|
    ensures |Flat(rs, sf + 1)| == |Flat(rs, sf)| + |rs[sf]| <= |Flat(rs, |rs|)|
    ensures Flat(rs, |rs|)[|Flat(rs, sf)|..|Flat(rs, sf)| + |rs[sf]|] == rs[sf]
  {
    FlatPrefix(rs, sf + 1, |rs|);
    var a, b, all := Flat(rs, sf), rs[sf], Flat(rs, |rs|);
    assert Flat(rs, sf + 1) == a + b;
    assert all[..|a + b|] == a + b;
    assert all[|a|..|a| + |b|] == (a + b)[|a|..];
  }

  lemma {:induction false} NoRuns(cc: CcTables, runs: seq<int>)
    requires cc.Valid() && |runs| <= MAX_PER_SF && GoodRuns(runs, 0, POS_PER)
    ensures runs == [] ==> MagTape(cc, runs, 0, POS_PER) == End
  {
  }

  method EncodeList(enc: RangeEncoder, cc: CcTables, runs: seq<nat>, ghost rs: seq<seq<int>>, ghost sf: nat)
    requires enc.Valid() && cc.Valid() && GoodLists(rs) && sf < SUBFRAMES && runs == rs[sf]
    modifies enc, enc.buf
    ensures enc.Valid() && enc.refused == old(enc.refused)
    ensures Run(enc.iv, MagTapes(cc, rs, sf + 1)) == Run(old(enc.iv), MagTapes(cc, rs, sf))
  {
    hide Run, Cat, MagTape, GoodRuns, CcTables.Valid, RangeEncoder.InRange, RangeEncoder.Tracks, RangeEncoder.Blamed;
    NoRuns(cc, rs[sf]);
    RunNone(enc.iv);
    RunCat(enc.iv, MagTape(cc, rs[sf], 0, POS_PER), MagTapes(cc, rs, sf + 1));
    if |runs| > 0 {
      EncodeRuns(enc, cc, runs);
    }
  }

  /** The replay loop; it consumes exactly the recorded run lengths. */
  method EncodeMagnitudes(enc: RangeEncoder, cc: CcTables, subfr: seq<nat>, magRuns: seq<nat>, ghost rs: seq<seq<int>>)
    returns (magIdx: nat)
    requires enc.Valid() && cc.Valid() && GoodLists(rs) && magRuns == Flat(rs, SUBFRAMES)
    requires |subfr| == SUBFRAMES && forall sf :: 0 <= sf < SUBFRAMES ==> subfr[sf] == |rs[sf]|
    modifies enc, enc.buf
    ensures enc.Valid() && enc.refused == old(enc.refused)
    ensures enc.iv == Run(old(enc.iv), MagTapes(cc, rs, 0))
    ensures magIdx == |magRuns|
  {
    hide Run, MagTape, Flat, GoodRuns, CcTables.Valid, RangeEncoder.InRange, RangeEncoder.Tracks, RangeEncoder.Blamed;
    FlatNone(rs);
    magIdx := 0;
    for sf := 0 to SUBFRAMES
      invariant magIdx == |Flat(rs, sf)|
      invariant enc.Valid() && enc.refused == old(enc.refused)
      invariant Run(enc.iv, MagTapes(cc, rs, sf)) == Run(old(enc.iv), MagTapes(cc, rs, 0))
    {
      FlatSlice(rs, sf);
      EncodeList(enc, cc, magRuns[magIdx..magIdx + subfr[sf]], rs, sf);
      magIdx := magIdx + subfr[sf];
    }
    RunNone(enc.iv);
  }

  method EncodeSigns(enc: RangeEncoder, syms: seq<RawSym>)
    requires enc.Valid() && GoodSyms(syms)
    modifies enc, enc.buf
    ensures enc.Valid() && enc.refused == old(enc.refused)
    ensures enc.iv == Run(old(enc.iv), SignTape(syms, 0))
  {
    hide Push, Run, Pow2, RawSymbol, RangeEncoder.InRange, RangeEncoder.Tracks, RangeEncoder.Blamed;
    for k := 0 to |syms|
      invariant enc.Valid() && enc.refused == old(enc.refused)
      invariant Run(enc.iv, SignTape(syms, k)) == Run(old(enc.iv), SignTape(syms, 0))
    {
      RunStep(enc.iv, RawSymbol(syms[k].sym, syms[k].nbits), SignTape(syms, k + 1));
      enc.EncodeRawSymbol(syms[k].sym, syms[k].nbits);
    }
    RunNone(enc.iv);
  }

  method EncodeBody(enc: RangeEncoder, cc: CcTables, pp: PulseParams, ghost v: seq<int>)
    requires enc.Valid() && cc.Valid() && Encodable(v) && Describes(pp, v)
    modifies enc, enc.buf
    ensures enc.Valid() && enc.refused == old(enc.refused)
    ensures enc.iv == Run(old(enc.iv), BodyTape(cc, v))
  {
    hide Run, Cat, SplitTape, MagTapes, SignTape, GoodLists, GoodSyms, CcTables.Valid;
    hide RangeEncoder.InRange, RangeEncoder.Tracks, RangeEncoder.Blamed;
    PackedSymsFit(Signs(v));
    ListsOfVector(v);
    var c0, c1, c2, c3 := pp.subfr[0], pp.subfr[1], pp.subfr[2], pp.subfr[3];
    assert c0 == Count(v, 0) && c1 == Count(v, 1) && c2 == Count(v, 2) && c3 == Count(v, 3);
    ghost var mags, signs := MagTapes(cc, Lists(v), 0), SignTape(PackSigns(Signs(v)), 0);
    RunCat(enc.iv, SplitTape(cc, c0, c1, c2, c3), Cat(mags, signs));
    EncodeSplits(enc, cc, c0, c1, c2, c3);
    RunCat(enc.iv, mags, signs);
    var consumed := EncodeMagnitudes(enc, cc, pp.subfr, pp.magRuns, Lists(v));
    EncodeSigns(enc, pp.signSyms);
  }

  /** encodeSmplPulses. */
  method EncodePulses(enc: RangeEncoder, cc: CcTables, pp: PulseParams, ghost v: seq<int>)
    requires enc.Valid() && cc.Valid() && Encodable(v) && Describes(pp, v)
    modifies enc, enc.buf
    ensures enc.Valid() && enc.refused == old(enc.refused)
    ensures enc.iv == Run(old(enc.iv), PulseTape(cc, v))
  {
    hide Run, Push, BodyTape, CountSymbol, CcTables.Valid, RangeEncoder.InRange, RangeEncoder.Tracks;
    hide RangeEncoder.Blamed;
    assert pp.total == Total(v) <= FRAME_LEN;
    RunStep(enc.iv, CountSymbol(Total(v)), PulseTape(cc, v).rest);
    RunNone(Push(enc.iv, CountSymbol(Total(v))));
    EncodeCount(enc, pp.total);
    if pp.total != 0 {
      EncodeBody(enc, cc, pp, v);
    }
  }
}
