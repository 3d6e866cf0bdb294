/** LSF, gain and LTP blocks of one internal frame: the CDF each read uses, as a function of
the parameters and the predictor state (encoder.go lines 297-343 and 443-515, lsf.go
lines 93-155, gains.go lines 18-59, pitch.go lines 33-73). */
module FrameTapes {
  import opened Words
  import opened CodingInterval
  import opened CdfTables

  const ORDER := 16

  ghost predicate Sized(cdf: Cdf, n: nat) {
    |cdf| == n && Increasing(cdf)
  }

  /** The LSF tables with the sizes buildLsfFromSeed gives them. */
  datatype LsfTables = LsfTables(sel: seq<Cdf>, match1: Cdf, match1Alt: Cdf, match0: Cdf, match0Alt: Cdf,
                                 stage2: seq<seq<seq<seq<Cdf>>>>, extra: Cdf)
  {
    ghost predicate Valid() {
      && |sel| == 3 && Sized(sel[0], 3) && Sized(sel[1], 3) && Sized(sel[2], 3)
      && Sized(match1, 18) && Sized(match1Alt, 18) && Sized(match0, 17) && Sized(match0Alt, 17)
      && Sized(extra, 3)
      && |stage2| == 2 && (forall a :: 0 <= a < 2 ==> |stage2[a]| == 2)
      && (forall a, b :: 0 <= a < 2 && 0 <= b < 2 ==> |stage2[a][b]| == 17)
      && (forall a, b, c :: 0 <= a < 2 && 0 <= b < 2 && 0 <= c < 17 ==> RowsOk(stage2[a][b][c]))
    }
  }

  ghost predicate RowsOk(rows: seq<Cdf>) {
    |rows| == ORDER && forall k :: 0 <= k < ORDER ==> Increasing(rows[k])
  }

  datatype LsfParams = LsfParams(stage1: int, grid: int, stage2: seq<int>, extra: int)

  // ------------------------------------------------------------ table choice

  function SelRow(intf: nat, prevStage1: int): nat {
    if intf != 0 then (if prevStage1 != 0 then 2 else 1) else 0
  }

  predicate Matches(intf: nat, prevStage1: int, stage1: int) {
    intf != 0 && stage1 == prevStage1
  }

  function GridCdf(t: LsfTables, m: bool, stage1: int): (cdf: Cdf)
    requires t.Valid()
    ensures Sized(cdf, if m then 18 else 17)
  {
    if m && stage1 != 0 then t.match1
    else if m then t.match1Alt
    else if stage1 != 0 then t.match0Alt
    else t.match0
  }

  ghost predicate RowsCode(rows: seq<Cdf>, syms: seq<int>, k: nat)
    requires RowsOk(rows) && |syms| == ORDER && k <= ORDER
    decreases ORDER - k
  {
    k == ORDER || (Codes(rows[k], syms[k]) && RowsCode(rows, syms, k + 1))
  }

  ghost function RowsTape(rows: seq<Cdf>, syms: seq<int>, k: nat, last: Tape): Tape
    requires RowsOk(rows) && |syms| == ORDER && k <= ORDER && RowsCode(rows, syms, k)
    decreases ORDER - k
  {
    if k == ORDER then last else Then(CdfSymbol(rows[k], syms[k]), RowsTape(rows, syms, k + 1, last))
  }

  /** Every symbol of the block is one its table carries. In particular grid 16 needs a
      match: the unmatched grid tables carry only 0..15. */
  ghost predicate LsfOk(t: LsfTables, config: nat, intf: nat, prev: int, p: LsfParams) {
    && t.Valid() && config < 2 && |p.stage2| == ORDER && 0 <= p.stage1 < 2
    && 0 <= p.grid < (if Matches(intf, prev, p.stage1) then 17 else 16)
    && RowsCode(t.stage2[p.stage1][config][p.grid], p.stage2, 0)
    && 0 <= p.extra < 2
  }

  ghost function LsfTape(t: LsfTables, config: nat, intf: nat, prev: int, p: LsfParams): Tape
    requires LsfOk(t, config, intf, prev, p)
  {
    Then(CdfSymbol(t.sel[SelRow(intf, prev)], p.stage1),
         Then(CdfSymbol(GridCdf(t, Matches(intf, prev, p.stage1), p.stage1), p.grid),
              RowsTape(t.stage2[p.stage1][config][p.grid], p.stage2, 0, Then(CdfSymbol(t.extra, p.extra), End))))
  }

  // ------------------------------------------------------------------- gains

  const ROW_LEN := 177      // 176 steps + 1
  const SLICE_LEN := 92
  const FLOOR := 85

  type i16 = x: int | -0x8000 <= x < 0x8000

  datatype GainTables = GainTables(gain4: Cdf, shape4: Cdf, fcbgOffset: seq<Cdf>, nrgStep: i16, recon: int -> i16) {
    ghost predicate Valid() {
      && Increasing(gain4) && Increasing(shape4) && |fcbgOffset| == 12
      && forall r :: 0 <= r < 12 ==> Sized(fcbgOffset[r], ROW_LEN)
    }

    /** Quantised log-gain of subframe sf. */
    function GainQ(main: int, delta: int, sf: int): int {
      (main * nrgStep - 0x154000) + recon(sf + 4 * delta) * 16
    }

    /** FcbgOffset's slice start: the gain negated, to the nearest 2^14, within 0 .. 85. */
    function MinOffset(gainQ: int): (o: nat)
      ensures o <= FLOOR
      ensures o > 0 ==> o * 16384 + gainQ < 8192
      ensures o < FLOOR ==> -8192 <= o * 16384 + gainQ
    {
      var g := (gainQ + 8192) / 16384;
      var clamped := if g < -FLOOR then -FLOOR else g;
      if clamped < 0 then -clamped else 0
    }

    /** The 92-entry slice never leaves its 177-entry row. */
    function ResidualCdf(main: int, delta: int, sf: int, cnt: nat): (cdf: Cdf)
      requires Valid()
      ensures Sized(cdf, SLICE_LEN)
    {
      var bucket := if cnt >= 30 then 3 else (cnt % 0x1_0000) / 10;
      var row := fcbgOffset[2 * 4 + bucket];
      var off := MinOffset(GainQ(main, delta, sf));
      SliceIncreasing(row, off);
      row[off..off + SLICE_LEN]
    }
  }

  /** A residual's table: of the four rows of the third block, for pulse counts in tens, the entries from
      the offset that the subframe's gain gives. */
  lemma {:induction false} ResidualTable(g: GainTables, main: int, delta: int, sf: int, cnt: nat)
    returns (b: nat, o: nat)
    requires g.Valid() && sf < 4
    ensures b <= 3 && (10 * b <= cnt < 10 * b + 10 || (b == 3 && cnt >= 30)) && o <= 85
    ensures g.ResidualCdf(main, delta, sf, cnt) == g.fcbgOffset[8 + b][o..o + 92]
    ensures var gain := main * g.nrgStep - 1_392_640 + 16 * g.recon(4 * delta + sf);
            (o > 0 ==> o * 16384 + gain < 8192) && (o < 85 ==> -8192 <= o * 16384 + gain)
  {
    b := if cnt >= 30 then 3 else cnt / 10;
    o := g.MinOffset(g.GainQ(main, delta, sf));
  }

  lemma {:induction false} SliceIncreasing(row: Cdf, off: nat)
    requires Sized(row, ROW_LEN) && off <= FLOOR
    ensures off + SLICE_LEN <= ROW_LEN && Increasing(row[off..off + SLICE_LEN])
  {
    WindowIncreasing(row, off, SLICE_LEN);
  }

  datatype GainParams = GainParams(main: int, delta: int, nrgRes: seq<int>)

  ghost predicate ResidualsOk(g: GainTables, counts: seq<nat>, p: GainParams, sf: nat)
    requires g.Valid() && |counts| == 4 && |p.nrgRes| == 4 && sf <= 4
    decreases 4 - sf
  {
    sf == 4 || ((counts[sf] > 0 ==> 0 <= p.nrgRes[sf] < SLICE_LEN - 1) && ResidualsOk(g, counts, p, sf + 1))
  }

  /** Energy residuals, one per subframe that has pulses. */
  ghost function ResidualTape(g: GainTables, counts: seq<nat>, p: GainParams, sf: nat): Tape
    requires g.Valid() && |counts| == 4 && |p.nrgRes| == 4 && sf <= 4 && ResidualsOk(g, counts, p, sf)
    decreases 4 - sf
  {
    if sf == 4 then End
    else
      var rest := ResidualTape(g, counts, p, sf + 1);
      if counts[sf] > 0 then Then(CdfSymbol(g.ResidualCdf(p.main, p.delta, sf, counts[sf]), p.nrgRes[sf]), rest)
      else rest
  }

  ghost predicate GainsOk(g: GainTables, counts: seq<nat>, p: GainParams) {
    && g.Valid() && |counts| == 4 && |p.nrgRes| == 4
    && Codes(g.gain4, p.main) && Codes(g.shape4, p.delta) && ResidualsOk(g, counts, p, 0)
  }

  ghost function GainTape(g: GainTables, counts: seq<nat>, p: GainParams): Tape
    requires GainsOk(g, counts, p)
  {
    Then(CdfSymbol(g.gain4, p.main), Then(CdfSymbol(g.shape4, p.delta), ResidualTape(g, counts, p, 0)))
  }

  // --------------------------------------------------- LTP gains and filters

  const GAINS := 16
  const FILTERS := 34

  /** The gain and filter last coded; -1 for none. */
  datatype Pred = Pred(gain: int, filt: int) {
    predicate InRange() {
      -1 <= gain < GAINS && -1 <= filt < FILTERS
    }
  }

  const NO_PRED := Pred(-1, -1)

  /** What an internal frame leaves to the next. */
  datatype Mirror = Mirror(stage1: int, pred: Pred)

  /** The state of a new coder. */
  const FRESH := Mirror(0, Pred(0, 0))

  /** The predictor behind the LSF block: kept on a match, cleared otherwise. */
  function Entered(intf: nat, was: Mirror, stage1: int): Pred {
    if Matches(intf, was.stage1, stage1) then was.pred else NO_PRED
  }

  /** `gains` holds a row for every previous gain, the first for none; `filtDelta` is one table for
      all previous filters, seen through a window that moves with them. */
  datatype LtpTables = LtpTables(gains: seq<u16>, filt: Cdf, filtDelta: Cdf) {
    ghost predicate Valid() {
      && |gains| == (GAINS + 1) * (GAINS + 1) && (forall r :: 0 <= r <= GAINS ==> RowOk(r))
      && Sized(filt, FILTERS + 1) && Sized(filtDelta, 2 * FILTERS)
    }

    ghost predicate RowOk(r: nat)
      requires |gains| == (GAINS + 1) * (GAINS + 1) && r <= GAINS
    {
      Increasing(gains[r * (GAINS + 1)..(r + 1) * (GAINS + 1)])
    }

    function GainRow(prev: int): (cdf: Cdf)
      requires Valid() && -1 <= prev < GAINS
      ensures Sized(cdf, GAINS + 1)
    {
      var base := (prev + 1) * (GAINS + 1);
      assert RowOk(prev + 1);
      gains[base..base + GAINS + 1]
    }

    /** The window never leaves the table. */
    function FilterRow(prev: int): (cdf: Cdf)
      requires Valid() && -1 <= prev < FILTERS
      ensures Sized(cdf, FILTERS + 1)
    {
      if prev == -1 then filt
      else
        var start := FILTERS - 1 - prev;
        WindowIncreasing(filtDelta, start, FILTERS + 1);
        filtDelta[start..start + FILTERS + 1]
    }
  }

  /** The gain rows tile their table: row of previous gain -1 first, then 0 to 15. */
  lemma {:induction false} GainRowsTile(t: LtpTables, i: nat)
    requires t.Valid() && i < 17 * 17
    ensures t.GainRow(i / 17 - 1)[i % 17] == t.gains[i]
  {
    hide LtpTables.Valid, LtpTables.RowOk;
    var r, k := i / 17, i % 17;
    RowAt(t, r, k);
  }

  lemma {:induction false} RowAt(t: LtpTables, r: nat, k: nat)
    requires t.Valid() && r <= GAINS && k <= GAINS
    ensures r * 17 + k < |t.gains| && t.GainRow(r - 1)[k] == t.gains[r * 17 + k]
  {
  }

  /** A filter's part of the delta table depends only on how far it is from the one before, no change
      being part 33; the first filter has a table of its own. */
  lemma {:induction false} FilterByDifference(t: LtpTables, prev: int, filt: nat)
    requires t.Valid() && -1 <= prev < FILTERS && filt < FILTERS
    ensures prev == -1 ==> t.FilterRow(prev) == t.filt
    ensures prev >= 0 ==>
              var part := 33 + (filt - prev);
              && 0 <= part < 67 && t.FilterRow(prev)[filt] == t.filtDelta[part]
              && t.FilterRow(prev)[filt + 1] == t.filtDelta[part + 1]
  {
    hide LtpTables.Valid;
    FilterTableSize(t);
  }

  lemma {:induction false} FilterTableSize(t: LtpTables)
    requires t.Valid()
    ensures |t.filtDelta| == 68
  {
  }

  /** The parameters of a voiced block, the lags as the symbols that code them. */
  datatype PitchParams = PitchParams(gainIdx: seq<int>, filtIdx: seq<int>, lags: seq<int>)

  /** A gain for every subframe and a filter for every one that has pulses. */
  ghost predicate LtpOk(counts: seq<nat>, p: PitchParams) {
    && |counts| == |p.gainIdx| == |p.filtIdx| == 4
    && forall sf :: 0 <= sf < 4 ==> 0 <= p.gainIdx[sf] < GAINS && (counts[sf] > 0 ==> 0 <= p.filtIdx[sf] < FILTERS)
  }

  /** The predictor behind subframe sf. */
  function Passed(counts: seq<nat>, p: PitchParams, pred: Pred, sf: nat): Pred
    requires |counts| == |p.gainIdx| == |p.filtIdx| == 4 && sf < 4
  {
    Pred(p.gainIdx[sf], if counts[sf] > 0 then p.filtIdx[sf] else pred.filt)
  }

  ghost function LtpTape(t: LtpTables, counts: seq<nat>, p: PitchParams, pred: Pred, sf: nat): Tape
    requires t.Valid() && LtpOk(counts, p) && pred.InRange() && sf <= 4
    decreases 4 - sf
  {
    if sf == 4 then End
    else
      var rest := LtpTape(t, counts, p, Passed(counts, p, pred, sf), sf + 1);
      Then(CdfSymbol(t.GainRow(pred.gain), p.gainIdx[sf]),
           if counts[sf] > 0 then Then(CdfSymbol(t.FilterRow(pred.filt), p.filtIdx[sf]), rest) else rest)
  }

  /** The predictor behind the whole block, when it is `pred` before subframe sf. */
  ghost function LtpLeaves(counts: seq<nat>, p: PitchParams, pred: Pred, sf: nat): (left: Pred)
    requires LtpOk(counts, p) && pred.InRange() && sf <= 4
    ensures left.InRange()
    decreases 4 - sf
  {
    if sf == 4 then pred else LtpLeaves(counts, p, Passed(counts, p, pred, sf), sf + 1)
  }
}
