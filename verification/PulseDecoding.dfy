/** DecodeSmplPulses (internal/voip/codec/mlow/pulse.go, lines 31-207). Every method runs
on any stream; on a stream that follows the tape of a vector it returns that vector. */
module PulseDecoding {
  import opened Words
  import opened Helpers
  import opened CodingInterval
  import opened PulseVectors
  import opened PulseTapes
  import opened RangeDecoding

  method DecodeCount(dec: RangeDecoder, ghost total: nat, ghost rest: Tape) returns (k: nat)
    requires dec.Valid() && total <= FRAME_LEN
    modifies dec
    ensures dec.Valid() && dec.err == old(dec.err)
    ensures k <= FRAME_LEN
    ensures Follows(dec.buf, old(dec.iv), Then(CountSymbol(total), rest)) ==>
              k == total && dec.iv == Push(old(dec.iv), CountSymbol(total))
  {
    hide RangeDecoder.Tracks, Run, Follows, Push, Narrow, Tri;
    CountInRange(FRAME_LEN);
    var ft := Tri(FRAME_LEN);
    var val := dec.Decode(ft);
    var prevCum := 0;
    k := 0;
    while k != FRAME_LEN + 1
      invariant k <= FRAME_LEN && prevCum == (if k == 0 then 0 else Tri(k - 1)) && prevCum <= val
      invariant dec.Valid() && dec.iv == old(dec.iv) && dec.ext == dec.rng / ft && dec.err == old(dec.err)
      decreases FRAME_LEN - k
    {
      var cum := Tri(k);
      CountInRange(k);
      if prevCum <= val < cum {
        CountDecided(dec.buf, dec.iv, total, rest, k);
        dec.Update(prevCum, cum, ft);
        break;
      }
      prevCum := cum;
      k := k + 1;
    }
  }

  /** Two counts cannot both explain one stream. */
  lemma {:induction false} CountDecided(out: seq<byte>, i: Interval, total: nat, rest: Tape, k: nat)
    requires total <= FRAME_LEN && k <= FRAME_LEN && Normal(i)
    requires Inside(out, Narrow(i, CountSymbol(k)))
    ensures Follows(out, i, Then(CountSymbol(total), rest)) ==> k == total
  {
    hide Run, Push, Narrow, Tri, Inside;
    if Follows(out, i, Then(CountSymbol(total), rest)) {
      InsideBeforeRun(out, i, Then(CountSymbol(total), rest));
      InsideDecides(out, i, CountSymbol(k), CountSymbol(total));
      if k < total - 1 {
        TriMonotone(k, total - 1);
      }
      if total < k - 1 {
        TriMonotone(total, k - 1);
      }
    }
  }

  /** Of all symbols of the table, the stream lies in the part of k and no other. */
  ghost predicate Picks(out: seq<byte>, i: Interval, cdf: Cdf, k: nat)
    requires Normal(i) && Increasing(cdf)
  {
    forall m: nat :: m + 1 < |cdf| ==> (Inside(out, Narrow(i, CdfSymbol(cdf, m))) <==> m == k)
  }

  /** Reads one symbol. If the stream follows a tape that starts with symbol m of this
      table, m is read and the stream follows the rest. */
  method ReadSymbol(dec: RangeDecoder, cdf: Cdf, ghost m: nat, ghost tape: Tape) returns (k: nat)
    requires dec.Valid() && Increasing(cdf)
    modifies dec
    ensures dec.Valid() && dec.err == old(dec.err) && k + 1 < |cdf|
    ensures Picks(dec.buf, old(dec.iv), cdf, k) && dec.iv == Push(old(dec.iv), CdfSymbol(cdf, k))
    ensures tape.Then? && m + 1 < |cdf| && tape.head == CdfSymbol(cdf, m) && Follows(dec.buf, old(dec.iv), tape) ==>
              && k == m && Follows(dec.buf, dec.iv, tape.rest)
              && Run(dec.iv, tape.rest) == Run(old(dec.iv), tape)
  {
    hide RangeDecoder.Tracks, Push, Narrow, CdfSymbol, Climbs;
    ghost var i := dec.iv;
    if tape.Then? && Follows(dec.buf, i, tape) {
      InsideBeforeRun(dec.buf, i, tape);
    }
    k := dec.DecodeCDF(cdf);
  }

  /** smplSplit3537, skipped for a half that holds no pulse. */
  method DecodeSplit(dec: RangeDecoder, cc: CcTables, count: nat, ghost a: nat, ghost b: nat)
    returns (r: nat, r': nat)
    requires dec.Valid() && cc.Valid() && count <= 80 && a <= 40 && b <= 40
    modifies dec
    ensures dec.Valid() && dec.err == old(dec.err)
    ensures r <= 40 && r' <= 40 && r + r' == count
    ensures count == a + b && Follows(dec.buf, old(dec.iv), QuarterTape(cc, a, b)) ==>
              r == a && r' == b && dec.iv == Run(old(dec.iv), QuarterTape(cc, a, b))
  {
    hide RangeDecoder.Tracks, Run, Follows, Push, Narrow, CdfSymbol, Climbs, Increasing, CcTables.Valid;
    hide CcTables.RunWindow, CcTables.SplitWindow;
    var lo, minSplit := Min(40, count), Max(count - 40, 0);
    r := minSplit;
    RunNone(dec.iv);
    if minSplit < lo {
      ghost var ok := count == a + b && Follows(dec.buf, dec.iv, QuarterTape(cc, a, b));
      var sym := ReadSymbol(dec, cc.SplitWindow(count, minSplit, lo - minSplit + 2), if ok then a - minSplit else 0,
                            if ok then QuarterTape(cc, a, b) else End);
      r := sym + minSplit;
      RunNone(dec.iv);
    }
    r' := count - r;
  }

  method DecodeHalf(dec: RangeDecoder, cc: CcTables, total: nat, ghost a: nat, ghost b: nat) returns (sum: nat)
    requires dec.Valid() && cc.Valid() && total <= FRAME_LEN && a <= 80 && b <= 80
    modifies dec
    ensures dec.Valid() && dec.err == old(dec.err)
    ensures total - 80 <= sum <= 80 && sum <= total
    ensures total == a + b && Follows(dec.buf, old(dec.iv), HalfTape(cc, a, b)) ==>
              sum == a && dec.iv == Run(old(dec.iv), HalfTape(cc, a, b))
  {
    hide RangeDecoder.Tracks, Run, Follows, Push, Narrow, CdfSymbol, Climbs, Increasing, CcTables.Valid;
    hide CcTables.RunWindow, CcTables.SplitWindow;
    RunNone(dec.iv);
    var lo := Max(total - 80, 0);
    sum := Max(total - 40 * 2, 0);
    var hiBound := total - lo;
    if sum < hiBound {
      ghost var ok := total == a + b && Follows(dec.buf, dec.iv, HalfTape(cc, a, b));
      var sym := ReadSymbol(dec, cc.SplitWindow(total, sum - lo, hiBound - sum + 2), if ok then a - lo else 0,
                            if ok then HalfTape(cc, a, b) else End);
      sum := sum + sym;
      RunNone(dec.iv);
    }
  }

  /** The recursive split: four subframe counts of at most 40 that add up to total. */
  method DecodeSplits(dec: RangeDecoder, cc: CcTables, total: nat,
                      ghost c0: nat, ghost c1: nat, ghost c2: nat, ghost c3: nat)
    returns (s0: nat, s1: nat, s2: nat, s3: nat)
    requires dec.Valid() && cc.Valid() && total <= FRAME_LEN
    requires c0 <= 40 && c1 <= 40 && c2 <= 40 && c3 <= 40
    modifies dec
    ensures dec.Valid() && dec.err == old(dec.err)
    ensures s0 <= 40 && s1 <= 40 && s2 <= 40 && s3 <= 40 && s0 + s1 + s2 + s3 == total
    ensures total == c0 + c1 + c2 + c3 && Follows(dec.buf, old(dec.iv), SplitTape(cc, c0, c1, c2, c3)) ==>
              && s0 == c0 && s1 == c1 && s2 == c2 && s3 == c3
              && dec.iv == Run(old(dec.iv), SplitTape(cc, c0, c1, c2, c3))
  {
    hide RangeDecoder.Tracks, Run, Follows, Cat, HalfTape, QuarterTape, CcTables.Valid;
    ghost var ok := total == c0 + c1 + c2 + c3 && Follows(dec.buf, dec.iv, SplitTape(cc, c0, c1, c2, c3));
    ghost var half := HalfTape(cc, c0 + c1, c2 + c3);
    ghost var q1, q2 := QuarterTape(cc, c0, c1), QuarterTape(cc, c2, c3);
    if ok {
      FollowsCat(dec.buf, dec.iv, half, Cat(q1, q2));
    }
    var sum := DecodeHalf(dec, cc, total, c0 + c1, c2 + c3);
    if ok {
      FollowsCat(dec.buf, dec.iv, q1, q2);
    }
    s0, s1 := DecodeSplit(dec, cc, sum, c0, c1);
    s2, s3 := DecodeSplit(dec, cc, total - sum, c2, c3);
  }

  // -------------------------------------------------------------- magnitudes

  ghost predicate RunsFollow(out: seq<byte>, i: Interval, cc: CcTables, runs: seq<int>, k: nat, pos: int)
    requires cc.Valid() && Normal(i)
  {
    k <= |runs| <= MAX_PER_SF && GoodRuns(runs, k, pos) && Follows(out, i, MagTape(cc, runs, k, pos))
  }

  method DecodeRun(dec: RangeDecoder, cc: CcTables, pos: nat, c: nat, ghost runs: seq<int>, ghost k: nat)
    returns (m: nat)
    requires dec.Valid() && cc.Valid() && 1 <= pos <= POS_PER && 1 <= c <= MAX_PER_SF
    modifies dec
    ensures dec.Valid() && dec.err == old(dec.err) && m < pos
    ensures c == |runs| - k && RunsFollow(dec.buf, old(dec.iv), cc, runs, k, pos) ==>
              && m == runs[k] && RunsFollow(dec.buf, dec.iv, cc, runs, k + 1, pos - m)
              && Run(dec.iv, MagTape(cc, runs, k + 1, pos - m)) == Run(old(dec.iv), MagTape(cc, runs, k, pos))
  {
    hide RangeDecoder.Tracks, Run, Follows, Push, Narrow, CdfSymbol, Climbs, Increasing, CcTables.Valid;
    hide CcTables.RunWindow, CcTables.SplitWindow;
    ghost var ok := c == |runs| - k && RunsFollow(dec.buf, dec.iv, cc, runs, k, pos);
    m := ReadSymbol(dec, cc.RunWindow(pos, c), if ok then runs[k] else 0,
                    if ok then MagTape(cc, runs, k, pos) else End);
  }

  /** Position and magnitude lists, as one list of pairs, after one run length. */
  function Placed(list: seq<(int, nat)>, runPos: int, m: nat): seq<(int, nat)> {
    if m > 0 || list == [] then list + [(runPos + m, 1)]
    else list[..|list| - 1] + [(list[|list| - 1].0, list[|list| - 1].1 + 1)]
  }

  /** The list describes the first k unit pulses, the last of them at runPos. */
  ghost predicate ListDescribes(list: seq<(int, nat)>, runPos: int, base: int, u: seq<int>, k: nat)
    requires k <= |u|
  {
    list == Rle(u[..k]) && runPos == (if k == 0 then base else u[k - 1])
  }

  lemma {:induction false} PlacedDescribes(list: seq<(int, nat)>, runPos: int, m: nat, base: int, u: seq<int>, k: nat)
    requires k < |u| && ListDescribes(list, runPos, base, u, k) && m == Diffs(base, u)[k]
    ensures ListDescribes(Placed(list, runPos, m), runPos + m, base, u, k + 1)
  {
    RleSnoc(u[..k], u[k]);
    assert u[..k + 1] == u[..k] + [u[k]];
  }

  /** k unit pulses were read into the list, and the stream follows the others. */
  ghost predicate Reading(out: seq<byte>, i: Interval, cc: CcTables, list: seq<(int, nat)>, runPos: int, pos: int,
                          base: int, u: seq<int>, k: nat)
    requires cc.Valid() && Normal(i)
  {
    && k <= |u| && ListDescribes(list, runPos, base, u, k)
    && RunsFollow(out, i, cc, Diffs(base, u), k, pos)
  }

  ghost function AfterUnits(i: Interval, cc: CcTables, base: int, u: seq<int>, k: nat, pos: int): Interval
    requires cc.Valid() && Normal(i) && k <= |u| <= MAX_PER_SF && GoodRuns(Diffs(base, u), k, pos)
  {
    Run(i, MagTape(cc, Diffs(base, u), k, pos))
  }

  /** One run length: a new position, or one more pulse on the last one. */
  method DecodeUnit(dec: RangeDecoder, cc: CcTables, list: seq<(int, nat)>, runPos: int, pos: nat, c: nat,
                    ghost base: int, ghost u: seq<int>, ghost k: nat)
    returns (list': seq<(int, nat)>, runPos': int, pos': nat)
    requires dec.Valid() && cc.Valid() && 1 <= pos <= POS_PER && 1 <= c <= MAX_PER_SF
    modifies dec
    ensures dec.Valid() && dec.err == old(dec.err) && 1 <= pos' <= pos
    ensures c == |u| - k && Reading(dec.buf, old(dec.iv), cc, list, runPos, pos, base, u, k) ==>
              && Reading(dec.buf, dec.iv, cc, list', runPos', pos', base, u, k + 1)
              && AfterUnits(dec.iv, cc, base, u, k + 1, pos') == AfterUnits(old(dec.iv), cc, base, u, k, pos)
  {
    hide RangeDecoder.Tracks, Run, RunsFollow, MagTape, ListDescribes, Diffs, CcTables.Valid;
    ghost var ok := c == |u| - k && Reading(dec.buf, dec.iv, cc, list, runPos, pos, base, u, k);
    var m := DecodeRun(dec, cc, pos, c, Diffs(base, u), k);
    if ok {
      PlacedDescribes(list, runPos, m, base, u, k);
    }
    list', runPos', pos' := Placed(list, runPos, m), runPos + m, pos - m;
  }

  /** One subframe's positions and magnitudes. */
  method DecodeSubframe(dec: RangeDecoder, cc: CcTables, base: nat, cnt: nat, ghost u: seq<int>)
    returns (list: seq<(int, nat)>)
    requires dec.Valid() && cc.Valid() && cnt <= MAX_PER_SF
    modifies dec
    ensures dec.Valid() && dec.err == old(dec.err)
    ensures |u| == cnt && RunsFollow(dec.buf, old(dec.iv), cc, Diffs(base, u), 0, POS_PER) ==>
              list == Rle(u) && dec.iv == AfterUnits(old(dec.iv), cc, base, u, 0, POS_PER)
  {
    hide RangeDecoder.Tracks, Run, Follows, MagTape, Diffs, CcTables.Valid;
    ghost var ok := |u| == cnt && RunsFollow(dec.buf, dec.iv, cc, Diffs(base, u), 0, POS_PER);
    list := [];
    var runPos: int, pos, k := base, POS_PER, 0;
    while k < cnt
      invariant k <= cnt && 1 <= pos <= POS_PER
      invariant dec.Valid() && dec.err == old(dec.err)
      invariant ok ==> Reading(dec.buf, dec.iv, cc, list, runPos, pos, base, u, k)
      invariant ok ==> AfterUnits(dec.iv, cc, base, u, k, pos) == AfterUnits(old(dec.iv), cc, base, u, 0, POS_PER)
    {
      list, runPos, pos := DecodeUnit(dec, cc, list, runPos, pos, cnt - k, base, u, k);
      k := k + 1;
    }
    assert u[..|u|] == u;
    if ok {
      LastUnit(dec.iv, cc, base, u, pos);
    }
  }

  lemma {:induction false} LastUnit(i: Interval, cc: CcTables, base: int, u: seq<int>, pos: int)
    requires cc.Valid() && Normal(i) && |u| <= MAX_PER_SF && GoodRuns(Diffs(base, u), |u|, pos)
    ensures AfterUnits(i, cc, base, u, |u|, pos) == i
  {
  }

  // ------------------------------------------------------------------- signs

  ghost predicate AreSigns(signs: seq<int>) {
    forall k :: 0 <= k < |signs| ==> signs[k] == 1 || signs[k] == -1
  }

  /** The signs of one raw symbol, read from the top of a left-aligned 16-bit field. */
  method UnpackGroup(sym: nat, nbits: nat, ghost group: seq<int>) returns (signs: seq<int>)
    requires nbits <= 15
    ensures |signs| == nbits && AreSigns(signs)
    ensures |group| == nbits && AreSigns(group) && sym == PackBits(group) ==> signs == group
  {
    hide PackBits, Pow2;
    ghost var ok := |group| == nbits && AreSigns(group) && sym == PackBits(group);
    var bitfield := sym * Pow2(16 - nbits);
    signs := [];
    for q := 0 to nbits
      invariant |signs| == q && AreSigns(signs)
      invariant bitfield == sym * Pow2(16 - nbits + q)
      invariant ok ==> signs == group[..q]
    {
      var sign := TopSign(bitfield);
      if ok {
        TopSignOfGroup(group, q, bitfield);
        assert group[..q + 1] == group[..q] + [group[q]];
      }
      signs := signs + [sign];
      DoubleShift(sym, 16 - nbits + q);
      bitfield := bitfield * 2;
    }
    assert ok ==> group[..nbits] == group;
  }

  function TopSign(bitfield: nat): (sign: int)
    ensures sign == 1 || sign == -1
  {
    2 * ((bitfield / 32768) % 2) - 1
  }

  lemma {:induction false} TopSignOfGroup(group: seq<int>, q: nat, bitfield: nat)
    requires q < |group| <= 15 && AreSigns(group) && bitfield == PackBits(group) * Pow2(16 - |group| + q)
    ensures TopSign(bitfield) == group[q]
  {
    BitOfGroup(group, q, bitfield);
  }

  lemma {:induction false} DoubleShift(sym: nat, n: nat)
    ensures sym * Pow2(n) * 2 == sym * Pow2(n + 1)
  {
    Assoc2(sym, Pow2(n));
  }

  lemma {:induction false} Assoc2(x: nat, t: nat)
    ensures x * (2 * t) == 2 * (x * t)
  {
  }

  ghost predicate SignsFollow(out: seq<byte>, i: Interval, signs: seq<int>)
    requires Normal(i)
  {
    PackedSymsFit(signs);
    AreSigns(signs) && Follows(out, i, SignTape(PackSigns(signs), 0))
  }

  ghost function AfterSigns(i: Interval, signs: seq<int>): Interval
    requires Normal(i)
  {
    PackedSymsFit(signs);
    Run(i, SignTape(PackSigns(signs), 0))
  }

  lemma {:induction false} SignsOpen(out: seq<byte>, i: Interval, signs: seq<int>, n: nat)
    requires Normal(i) && SignsFollow(out, i, signs) && signs != [] && n == Min(|signs|, 15)
    ensures AreSigns(signs[..n]) && PackBits(signs[..n]) < Pow2(n)
    ensures var s := RawSymbol(PackBits(signs[..n]), n);
            && Inside(out, Narrow(i, s)) && SignsFollow(out, Push(i, s), signs[n..])
            && AfterSigns(Push(i, s), signs[n..]) == AfterSigns(i, signs)
  {
    hide Run, Push, Narrow, Inside, RawSymbol, Pow2, PackBits;
    PackedSymsFit(signs);
    PackedSymsFit(signs[n..]);
    PackBound(signs[..n]);
    var syms, more := PackSigns(signs), PackSigns(signs[n..]);
    assert syms == [RawSym(PackBits(signs[..n]), n)] + more;
    SignTapeShift(syms, more, 0);
    var s := RawSymbol(PackBits(signs[..n]), n);
    InsideBeforeRun(out, i, SignTape(syms, 0));
    assert SignTape(syms, 0) == Then(s, SignTape(more, 0));
    RunStep(i, s, SignTape(more, 0));
    PushReads(i, s);
    PartAreSigns(signs, n);
  }

  lemma {:induction false} PartAreSigns(signs: seq<int>, n: nat)
    requires AreSigns(signs) && n <= |signs|
    ensures AreSigns(signs[..n]) && AreSigns(signs[n..])
  {
  }

  lemma {:induction false} PushReads(i: Interval, s: Symbol)
    requires Normal(i) && i.read > 0
    ensures Push(i, s).read > 0
  {
  }

  lemma {:induction false} SignTapeShift(syms: seq<RawSym>, more: seq<RawSym>, k: nat)
    requires GoodSyms(syms) && GoodSyms(more) && k <= |more|
    requires |syms| == |more| + 1 && forall j :: 0 <= j < |more| ==> syms[j + 1] == more[j]
    ensures SignTape(syms, k + 1) == SignTape(more, k)
    decreases |more| - k
  {
    if k < |more| {
      SignTapeShift(syms, more, k + 1);
    }
  }

  method DecodeGroup(dec: RangeDecoder, nbits: nat, ghost signs: seq<int>) returns (got: seq<int>)
    requires dec.Valid() && 0 < nbits <= 15
    modifies dec
    ensures dec.Valid() && dec.err == old(dec.err) && |got| == nbits
    ensures signs != [] && nbits == Min(|signs|, 15) && SignsFollow(dec.buf, old(dec.iv), signs) ==>
              && got == signs[..nbits] && SignsFollow(dec.buf, dec.iv, signs[nbits..])
              && AfterSigns(dec.iv, signs[nbits..]) == AfterSigns(old(dec.iv), signs)
  {
    hide RangeDecoder.Tracks, Inside, Narrow, Push, SignsFollow, AfterSigns, PackBits, Pow2, RawSymbol;
    ghost var ok := signs != [] && nbits == Min(|signs|, 15) && SignsFollow(dec.buf, dec.iv, signs);
    if ok {
      SignsOpen(dec.buf, dec.iv, signs, nbits);
    }
    var sym := dec.DecodeRawSymbol(nbits);
    got := UnpackGroup(sym, nbits, if ok then signs[..nbits] else []);
  }

  lemma {:induction false} CutSigns(signs: seq<int>, p: nat, n: nat)
    requires p + n <= |signs|
    ensures signs[..p + n] == signs[..p] + signs[p..][..n] && signs[p..][n..] == signs[p + n..]
  {
  }

  method DecodeSigns(dec: RangeDecoder, numPos: nat, ghost signs: seq<int>) returns (got: seq<int>)
    requires dec.Valid()
    modifies dec
    ensures dec.Valid() && dec.err == old(dec.err) && |got| == numPos
    ensures |signs| == numPos && SignsFollow(dec.buf, old(dec.iv), signs) ==>
              got == signs && dec.iv == AfterSigns(old(dec.iv), signs)
  {
    hide RangeDecoder.Tracks, SignsFollow, AfterSigns;
    ghost var ok := |signs| == numPos && SignsFollow(dec.buf, dec.iv, signs);
    got := [];
    while |got| < numPos
      invariant |got| <= numPos
      invariant dec.Valid() && dec.err == old(dec.err)
      invariant ok ==> got == signs[..|got|] && SignsFollow(dec.buf, dec.iv, signs[|got|..])
      invariant ok ==> AfterSigns(dec.iv, signs[|got|..]) == AfterSigns(old(dec.iv), signs)
      decreases numPos - |got|
    {
      var p := |got|;
      var nbits := Min(numPos - p, 15);
      var more := DecodeGroup(dec, nbits, if ok then signs[p..] else []);
      if ok {
        CutSigns(signs, p, nbits);
      }
      got := got + more;
    }
    assert ok ==> signs[..numPos] == signs && signs[numPos..] == [];
    if ok {
      assert got == signs[..numPos];
      NoSignsLeft(dec.iv);
    }
  }

  lemma {:induction false} NoSignsLeft(i: Interval)
    requires Normal(i)
    ensures AfterSigns(i, []) == i
  {
  }
}
