/** Encoder and decoder of the LSF, gain and LTP blocks, with the predictor state both sides
carry from one internal frame to the next. */
module FrameCoding {
  import opened Words
  import opened CodingInterval
  import opened FrameTapes
  import opened RangeEncoding
  import opened RangeDecoding
  import opened PulseDecoding

  /** SmplLsfState. The last two fields are used by the encoder only. */
  class LsfState {
    var prevStage1: int
    var prevMatch: bool
    var havePrev: bool
    var prevGainIdx: int
    var prevFiltIdx: int
    var prevLag: int
    var prevFracLag: int
    var prevLagblk: int
    var prevLagidx: int

    constructor ()
      ensures Leaves() == FRESH && !prevMatch && !havePrev
    {
      prevStage1, prevMatch, havePrev := 0, false, false;
      prevGainIdx, prevFiltIdx, prevLag, prevFracLag, prevLagblk, prevLagidx := 0, 0, 0, 0, 0, 0;
    }

    ghost function Leaves(): Mirror
      reads this
    {
      Mirror(prevStage1, Pred(prevGainIdx, prevFiltIdx))
    }

    /** The gain, filter and lag predictors are cleared. */
    ghost predicate Cleared()
      reads this
    {
      prevGainIdx == -1 && prevFiltIdx == -1 && prevLag == -1 && prevFracLag == -1
    }

    /** The transition both sides make; the two contour fields, which only the encoder has a
        use for, are cleared by it alone. */
    method Advance(intf: nat, stage1: int, encoder: bool)
      modifies this
      ensures prevStage1 == stage1 && havePrev
      ensures prevMatch == Matches(intf, old(prevStage1), stage1)
      ensures !prevMatch ==> Cleared()
      ensures Leaves() == Mirror(stage1, Entered(intf, old(Leaves()), stage1))
      ensures !prevMatch && encoder ==> prevLagblk == -1 && prevLagidx == -1
      ensures prevMatch || !encoder ==> prevLagblk == old(prevLagblk) && prevLagidx == old(prevLagidx)
      ensures prevMatch ==> prevLag == old(prevLag) && prevFracLag == old(prevFracLag)
    {
      var m := Matches(intf, prevStage1, stage1);
      if !m {
        prevGainIdx, prevFiltIdx, prevLag, prevFracLag := -1, -1, -1, -1;
        if encoder {
          prevLagblk, prevLagidx := -1, -1;
        }
      }
      prevStage1, prevMatch, havePrev := stage1, m, true;
    }
  }

  // -------------------------------------------------------------------- LSF

  /** Which symbols of the block were refused, as the encoder goes through them. */
  ghost predicate RefusedSoFar(was: bool, now: bool, whole: bool, left: bool) {
    (whole ==> left && now == was) && (was ==> now) && (!whole ==> now || !left)
  }

  lemma {:induction false} RowsStep(i: Interval, rows: seq<Cdf>, syms: seq<int>, k: nat, last: Tape)
    requires Normal(i) && RowsOk(rows) && |syms| == ORDER && k < ORDER
    ensures RowsCode(rows, syms, k) <==> Codes(rows[k], syms[k]) && RowsCode(rows, syms, k + 1)
    ensures RowsCode(rows, syms, k) ==>
              Run(i, RowsTape(rows, syms, k, last)) ==
              Run(Push(i, CdfSymbol(rows[k], syms[k])), RowsTape(rows, syms, k + 1, last))
  {
    hide Push, CdfSymbol, Increasing;
  }

  lemma {:induction false} RowsEnd(rows: seq<Cdf>, syms: seq<int>, last: Tape)
    requires RowsOk(rows) && |syms| == ORDER
    ensures RowsCode(rows, syms, ORDER) && RowsTape(rows, syms, ORDER, last) == last
  {
  }

  method EncodeRows(enc: RangeEncoder, rows: seq<Cdf>, syms: seq<int>, ghost last: Tape)
    requires enc.Valid() && RowsOk(rows) && |syms| == ORDER
    modifies enc, enc.buf
    ensures enc.Valid() && enc.refused == (old(enc.refused) || !RowsCode(rows, syms, 0))
    ensures RowsCode(rows, syms, 0) ==> Run(enc.iv, last) == Run(old(enc.iv), RowsTape(rows, syms, 0, last))
  {
    hide Push, Run, CdfSymbol, Increasing, RowsTape, RowsCode, RangeEncoder.InRange, RangeEncoder.Tracks;
    hide RangeEncoder.Blamed;
    ghost var ok := RowsCode(rows, syms, 0);
    for k := 0 to ORDER
      invariant enc.Valid() && RefusedSoFar(old(enc.refused), enc.refused, ok, RowsCode(rows, syms, k))
      invariant ok ==> Run(enc.iv, RowsTape(rows, syms, k, last)) == Run(old(enc.iv), RowsTape(rows, syms, 0, last))
    {
      RowsStep(enc.iv, rows, syms, k, last);
      enc.EncodeCDF(syms[k], rows[k]);
    }
    RowsEnd(rows, syms, last);
  }

  /** What is coded behind the grid: the row of stage 2 for each coefficient, and the extra symbol. */
  ghost function BehindGrid(t: LsfTables, config: nat, p: LsfParams): Tape
    requires t.Valid() && config < 2 && |p.stage2| == ORDER && 0 <= p.stage1 < 2 && 0 <= p.grid <= 16
    requires 0 <= p.extra < 2
    requires RowsCode(t.stage2[p.stage1][config][p.grid], p.stage2, 0)
  {
    RowsTape(t.stage2[p.stage1][config][p.grid], p.stage2, 0, Then(CdfSymbol(t.extra, p.extra), End))
  }

  /** encodeSmplLsf. It refuses exactly the parameters that its tables do not carry. The selector is coded
      by row 0 in the first internal frame of a packet, else by row 1 or 2 as the frame before was
      unvoiced or voiced; the grid by the table of (match, voiced). */
  method EncodeLsf(enc: RangeEncoder, t: LsfTables, st: LsfState, config: nat, intf: nat, p: LsfParams)
    returns (ghost sel: Interval, ghost grid: Interval)
    requires enc.Valid() && t.Valid() && config < 2
    requires 0 <= p.stage1 < 2 && 0 <= p.grid <= 16 && |p.stage2| == ORDER
    modifies enc, enc.buf, st
    ensures enc.Valid() && enc.refused == (old(enc.refused) || !LsfOk(t, config, intf, old(st.prevStage1), p))
    ensures st.prevMatch == Matches(intf, old(st.prevStage1), p.stage1) && st.havePrev
    ensures st.Leaves() == Mirror(p.stage1, Entered(intf, old(st.Leaves()), p.stage1))
    ensures !st.prevMatch ==> st.Cleared()
    ensures LsfOk(t, config, intf, old(st.prevStage1), p) ==>
              enc.iv == Run(old(enc.iv), LsfTape(t, config, intf, old(st.prevStage1), p))
    ensures Normal(sel) && Normal(grid)
    ensures intf == 0 ==> sel == Push(old(enc.iv), CdfSymbol(t.sel[0], p.stage1))
    ensures intf != 0 && old(st.prevStage1) == 0 ==> sel == Push(old(enc.iv), CdfSymbol(t.sel[1], p.stage1))
    ensures intf != 0 && old(st.prevStage1) != 0 ==> sel == Push(old(enc.iv), CdfSymbol(t.sel[2], p.stage1))
    ensures LsfOk(t, config, intf, old(st.prevStage1), p) ==>
              var same, voiced := intf != 0 && p.stage1 == old(st.prevStage1), p.stage1 != 0;
              && (same && voiced ==> grid == Push(sel, CdfSymbol(t.match1, p.grid)))
              && (same && !voiced ==> grid == Push(sel, CdfSymbol(t.match1Alt, p.grid)))
              && (!same && voiced ==> grid == Push(sel, CdfSymbol(t.match0Alt, p.grid)))
              && (!same && !voiced ==> grid == Push(sel, CdfSymbol(t.match0, p.grid)))
              && enc.iv == Run(grid, BehindGrid(t, config, p))
  {
    hide Push, Run, CdfSymbol, Climbs, RowsTape, RowsCode, RangeEncoder.InRange, RangeEncoder.Tracks;
    hide RangeEncoder.Blamed;
    ghost var prev, start := st.prevStage1, enc.iv;
    ghost var ok := LsfOk(t, config, intf, prev, p);
    ghost var extra := if 0 <= p.extra < 2 then Then(CdfSymbol(t.extra, p.extra), End) else End;
    var rows := t.stage2[p.stage1][config][p.grid];
    if ok {
      LsfTapeRun(start, t, config, intf, prev, p);
    }
    enc.EncodeCDF(p.stage1, t.sel[SelRow(intf, st.prevStage1)]);
    sel := enc.iv;
    st.Advance(intf, p.stage1, true);
    var m := st.prevMatch;
    enc.EncodeCDF(p.grid, GridCdf(t, m, p.stage1));
    grid := enc.iv;
    EncodeRows(enc, rows, p.stage2, extra);
    if ok {
      LastSymbol(enc.iv, CdfSymbol(t.extra, p.extra));
    }
    enc.EncodeCDF(p.extra, t.extra);
  }

  lemma {:induction false} LastSymbol(i: Interval, s: Symbol)
    requires Normal(i)
    ensures Run(i, Then(s, End)) == Push(i, s)
  {
    RunStep(i, s, End);
    RunNone(Push(i, s));
  }

  lemma {:induction false} LsfTapeRun(i: Interval, t: LsfTables, config: nat, intf: nat, prev: int, p: LsfParams)
    requires Normal(i) && LsfOk(t, config, intf, prev, p)
    ensures var rows, extra := t.stage2[p.stage1][config][p.grid], Then(CdfSymbol(t.extra, p.extra), End);
            var m := Matches(intf, prev, p.stage1);
            Run(i, LsfTape(t, config, intf, prev, p))
            == Run(Push(Push(i, CdfSymbol(t.sel[SelRow(intf, prev)], p.stage1)),
                        CdfSymbol(GridCdf(t, m, p.stage1), p.grid)),
                   RowsTape(rows, p.stage2, 0, extra))
  {
    hide Push, CdfSymbol, Climbs, RowsTape, RowsCode;
  }

  // ------------------------------------------------------------------ gains

  /** encodeSmplGains. */
  method EncodeGains(enc: RangeEncoder, g: GainTables, counts: seq<nat>, p: GainParams)
    requires enc.Valid() && g.Valid() && |counts| == 4 && |p.nrgRes| == 4
    modifies enc, enc.buf
    ensures enc.Valid() && enc.refused == (old(enc.refused) || !GainsOk(g, counts, p))
    ensures GainsOk(g, counts, p) ==> enc.iv == Run(old(enc.iv), GainTape(g, counts, p))
  {
    hide Push, Run, CdfSymbol, Climbs, ResidualTape, ResidualsOk, RangeEncoder.InRange, RangeEncoder.Tracks;
    hide RangeEncoder.Blamed;
    if GainsOk(g, counts, p) {
      RunStep(enc.iv, CdfSymbol(g.gain4, p.main), GainTape(g, counts, p).rest);
      RunStep(Push(enc.iv, CdfSymbol(g.gain4, p.main)), CdfSymbol(g.shape4, p.delta), ResidualTape(g, counts, p, 0));
    }
    enc.EncodeCDF(p.main, g.gain4);
    enc.EncodeCDF(p.delta, g.shape4);
    EncodeResiduals(enc, g, counts, p);
  }

  method EncodeResiduals(enc: RangeEncoder, g: GainTables, counts: seq<nat>, p: GainParams)
    requires enc.Valid() && g.Valid() && |counts| == 4 && |p.nrgRes| == 4
    modifies enc, enc.buf
    ensures enc.Valid() && enc.refused == (old(enc.refused) || !ResidualsOk(g, counts, p, 0))
    ensures ResidualsOk(g, counts, p, 0) ==> enc.iv == Run(old(enc.iv), ResidualTape(g, counts, p, 0))
  {
    hide Push, Run, CdfSymbol, Climbs, GainTables.ResidualCdf, GainTables.Valid;
    hide RangeEncoder.InRange, RangeEncoder.Tracks, RangeEncoder.Blamed;
    ghost var ok := ResidualsOk(g, counts, p, 0);
    for sf := 0 to 4
      invariant enc.Valid() && RefusedSoFar(old(enc.refused), enc.refused, ok, ResidualsOk(g, counts, p, sf))
      invariant ok ==> Run(enc.iv, ResidualTape(g, counts, p, sf)) == Run(old(enc.iv), ResidualTape(g, counts, p, 0))
    {
      if counts[sf] > 0 {
        var cdf := g.ResidualCdf(p.main, p.delta, sf, counts[sf]);
        if ok {
          RunStep(enc.iv, CdfSymbol(cdf, p.nrgRes[sf]), ResidualTape(g, counts, p, sf + 1));
        }
        enc.EncodeCDF(p.nrgRes[sf], cdf);
      }
    }
    RunNone(enc.iv);
  }

  // --------------------------------------------------------------- decoding

  ghost predicate RowsFollowed(out: seq<byte>, i: Interval, rows: seq<Cdf>, syms: seq<int>, k: nat, last: Tape)
    requires Normal(i) && RowsOk(rows) && k <= ORDER
  {
    |syms| == ORDER && RowsCode(rows, syms, k) && Follows(out, i, RowsTape(rows, syms, k, last))
  }

  /** Where the first n rows lead. */
  ghost function RowsRun(i: Interval, rows: seq<Cdf>, syms: seq<int>, n: nat): (j: Interval)
    requires Normal(i) && RowsOk(rows) && n <= ORDER && n <= |syms| && RowsRead(rows, syms, n)
    ensures Normal(j)
  {
    if n == 0 then i else Push(RowsRun(i, rows, syms, n - 1), CdfSymbol(rows[n - 1], syms[n - 1]))
  }

  ghost predicate RowsRead(rows: seq<Cdf>, syms: seq<int>, n: nat)
    requires RowsOk(rows) && n <= ORDER && n <= |syms|
  {
    forall k :: 0 <= k < n ==> Codes(rows[k], syms[k])
  }

  lemma {:induction false} RowsRunPrefix(i: Interval, rows: seq<Cdf>, a: seq<int>, b: seq<int>, n: nat)
    requires Normal(i) && RowsOk(rows) && n <= ORDER && n <= |a| && n <= |b| && RowsRead(rows, a, n)
    requires forall k :: 0 <= k < n ==> a[k] == b[k]
    ensures RowsRead(rows, b, n) && RowsRun(i, rows, a, n) == RowsRun(i, rows, b, n)
  {
    hide Push, CdfSymbol, Increasing;
    if n > 0 {
      RowsRunPrefix(i, rows, a, b, n - 1);
    }
  }

  /** The rows' tape leads where its symbols lead one by one. */
  lemma {:induction false} RowsRunTape(i: Interval, rows: seq<Cdf>, syms: seq<int>, k: nat, last: Tape)
    requires Normal(i) && RowsOk(rows) && |syms| == ORDER && RowsRead(rows, syms, ORDER) && k <= ORDER
    ensures RowsCode(rows, syms, k)
    ensures Run(RowsRun(i, rows, syms, k), RowsTape(rows, syms, k, last)) == Run(RowsRun(i, rows, syms, ORDER), last)
    decreases ORDER - k
  {
    hide Push, CdfSymbol, Increasing, Run;
    if k < ORDER {
      RowsRunTape(i, rows, syms, k + 1, last);
      RunStep(RowsRun(i, rows, syms, k), CdfSymbol(rows[k], syms[k]), RowsTape(rows, syms, k + 1, last));
    }
  }

  method DecodeRows(dec: RangeDecoder, rows: seq<Cdf>, ghost syms: seq<int>, ghost last: Tape) returns (got: seq<int>)
    requires dec.Valid() && RowsOk(rows)
    modifies dec
    ensures dec.Valid() && dec.err == old(dec.err) && |got| == ORDER
    ensures RowsRead(rows, got, ORDER) && dec.iv == RowsRun(old(dec.iv), rows, got, ORDER)
    ensures RowsFollowed(dec.buf, old(dec.iv), rows, syms, 0, last) ==>
              && got == syms && Follows(dec.buf, dec.iv, last)
              && Run(dec.iv, last) == Run(old(dec.iv), RowsTape(rows, syms, 0, last))
  {
    hide RangeDecoder.Tracks, Run, Follows, Push, CdfSymbol, Climbs;
    ghost var ok := RowsFollowed(dec.buf, dec.iv, rows, syms, 0, last);
    got := [];
    for k := 0 to ORDER
      invariant dec.Valid() && dec.err == old(dec.err) && |got| == k
      invariant ok ==> RowsFollowed(dec.buf, dec.iv, rows, syms, k, last)
      invariant ok ==> forall j :: 0 <= j < k ==> got[j] == syms[j]
      invariant ok ==> Run(dec.iv, RowsTape(rows, syms, k, last)) == Run(old(dec.iv), RowsTape(rows, syms, 0, last))
      invariant RowsRead(rows, got, k) && dec.iv == RowsRun(old(dec.iv), rows, got, k)
    {
      var sym := ReadSymbol(dec, rows[k], if ok then syms[k] else 0,
                            if ok then RowsTape(rows, syms, k, last) else End);
      RowsRunPrefix(old(dec.iv), rows, got, got + [sym], k);
      got := got + [sym];
    }
  }

  ghost predicate LsfFollowed(out: seq<byte>, i: Interval, t: LsfTables, config: nat, intf: nat, prev: int,
                              p: LsfParams)
    requires Normal(i)
  {
    LsfOk(t, config, intf, prev, p) && Follows(out, i, LsfTape(t, config, intf, prev, p))
  }

  /** DecodeSmplLsf. On any stream the indices stay inside the tables, and the stream follows the block
      returned: every symbol is the one whose part of its table holds the stream, the tables being those of
      EncodeLsf. */
  method DecodeLsf(dec: RangeDecoder, t: LsfTables, st: LsfState, config: nat, intf: nat, ghost p: LsfParams)
    returns (got: LsfParams, ghost sel: Interval, ghost grid: Interval)
    requires dec.Valid() && t.Valid() && config < 2
    modifies dec, st
    ensures dec.Valid() && dec.err == old(dec.err) && Normal(sel) && Normal(grid)
    ensures LsfOk(t, config, intf, old(st.prevStage1), got) && (got.grid == 16 ==> st.prevMatch)
    ensures intf == 0 ==> PicksTo(dec.buf, old(dec.iv), t.sel[0], got.stage1, sel)
    ensures intf != 0 && old(st.prevStage1) == 0 ==> PicksTo(dec.buf, old(dec.iv), t.sel[1], got.stage1, sel)
    ensures intf != 0 && old(st.prevStage1) != 0 ==> PicksTo(dec.buf, old(dec.iv), t.sel[2], got.stage1, sel)
    ensures var same, voiced := intf != 0 && got.stage1 == old(st.prevStage1), got.stage1 != 0;
            && (same && voiced ==> PicksTo(dec.buf, sel, t.match1, got.grid, grid))
            && (same && !voiced ==> PicksTo(dec.buf, sel, t.match1Alt, got.grid, grid))
            && (!same && voiced ==> PicksTo(dec.buf, sel, t.match0Alt, got.grid, grid))
            && (!same && !voiced ==> PicksTo(dec.buf, sel, t.match0, got.grid, grid))
            && dec.iv == Run(grid, BehindGrid(t, config, got))
    ensures st.prevMatch == Matches(intf, old(st.prevStage1), got.stage1) && st.havePrev
    ensures st.Leaves() == Mirror(got.stage1, Entered(intf, old(st.Leaves()), got.stage1))
    ensures !st.prevMatch ==> st.Cleared()
    ensures LsfFollowed(dec.buf, old(dec.iv), t, config, intf, old(st.prevStage1), p) ==>
              got == p && dec.iv == Run(old(dec.iv), LsfTape(t, config, intf, old(st.prevStage1), p))
  {
    hide RangeDecoder.Tracks, Run, Follows, Push, CdfSymbol, Climbs, RowsTape, RowsCode, RowsRun, RowsRead, Picks;
    ghost var prev := st.prevStage1;
    ghost var ok := LsfFollowed(dec.buf, dec.iv, t, config, intf, prev, p);
    ghost var tape := if ok then LsfTape(t, config, intf, prev, p) else Then(Freq(0, 1, 1), Then(Freq(0, 1, 1), End));
    var stage1 := ReadSymbol(dec, t.sel[SelRow(intf, st.prevStage1)], if ok then p.stage1 else 0,
                             if ok then tape else End);
    sel := dec.iv;
    st.Advance(intf, stage1, false);
    var gridIdx := ReadSymbol(dec, GridCdf(t, st.prevMatch, stage1), if ok then p.grid else 0,
                              if ok then tape.rest else End);
    grid := dec.iv;
    ghost var extra := if ok then Then(CdfSymbol(t.extra, p.extra), End) else End;
    var rows := t.stage2[stage1][config][gridIdx];
    var stage2 := DecodeRows(dec, rows, p.stage2, extra);
    ghost var read := dec.iv;
    var last := ReadSymbol(dec, t.extra, if ok then p.extra else 0, extra);
    RunNone(dec.iv);
    got := LsfParams(stage1, gridIdx, stage2, last);
    RowsRunTape(grid, rows, stage2, 0, Then(CdfSymbol(t.extra, last), End));
    LastSymbol(read, CdfSymbol(t.extra, last));
    NoRows(grid, rows, stage2);
  }

  /** Symbol k is the one the stream picks, and reading it leads to j. */
  ghost predicate PicksTo(out: seq<byte>, i: Interval, cdf: Cdf, k: int, j: Interval)
    requires Normal(i)
  {
    Codes(cdf, k) && Picks(out, i, cdf, k) && j == Push(i, CdfSymbol(cdf, k))
  }

  lemma {:induction false} NoRows(i: Interval, rows: seq<Cdf>, syms: seq<int>)
    requires Normal(i) && RowsOk(rows) && |syms| == ORDER && RowsRead(rows, syms, ORDER)
    ensures RowsRun(i, rows, syms, 0) == i
  {
  }

  datatype Gains = Gains(main: int, delta: int, gainQ: seq<int>, nrgRes: seq<int>)

  /** Everything the decoder uses of a gain block: the residuals of subframes with pulses. */
  ghost predicate GainsMatch(g: GainTables, counts: seq<nat>, p: GainParams, got: Gains) {
    && |counts| == 4 && |p.nrgRes| == 4 && |got.nrgRes| == 4 && |got.gainQ| == 4
    && got.main == p.main && got.delta == p.delta
    && (forall sf :: 0 <= sf < 4 ==>
          got.gainQ[sf] == p.main * g.nrgStep - 1_392_640 + 16 * g.recon(4 * p.delta + sf))
    && (forall sf :: 0 <= sf < 4 && counts[sf] > 0 ==> got.nrgRes[sf] == p.nrgRes[sf])
  }

  ghost predicate ResidualsFollowed(out: seq<byte>, i: Interval, g: GainTables, counts: seq<nat>, p: GainParams,
                                    sf: nat)
    requires Normal(i) && g.Valid() && |counts| == 4 && sf <= 4
  {
    |p.nrgRes| == 4 && ResidualsOk(g, counts, p, sf) && Follows(out, i, ResidualTape(g, counts, p, sf))
  }

  method DecodeResiduals(dec: RangeDecoder, g: GainTables, counts: seq<nat>, main: int, delta: int, ghost p: GainParams)
    returns (res: seq<int>)
    requires dec.Valid() && g.Valid() && |counts| == 4
    modifies dec
    ensures dec.Valid() && dec.err == old(dec.err) && |res| == 4
    ensures main == p.main && delta == p.delta && ResidualsFollowed(dec.buf, old(dec.iv), g, counts, p, 0) ==>
              && (forall sf :: 0 <= sf < 4 && counts[sf] > 0 ==> res[sf] == p.nrgRes[sf])
              && dec.iv == Run(old(dec.iv), ResidualTape(g, counts, p, 0))
  {
    hide RangeDecoder.Tracks, Run, Follows, Push, CdfSymbol, Climbs, Picks, GainTables.ResidualCdf, GainTables.Valid;
    ghost var ok := main == p.main && delta == p.delta && ResidualsFollowed(dec.buf, dec.iv, g, counts, p, 0);
    res := [];
    for sf := 0 to 4
      invariant dec.Valid() && dec.err == old(dec.err) && |res| == sf
      invariant ok ==> ResidualsFollowed(dec.buf, dec.iv, g, counts, p, sf)
      invariant ok ==> forall j :: 0 <= j < sf && counts[j] > 0 ==> res[j] == p.nrgRes[j]
      invariant ok ==> Run(dec.iv, ResidualTape(g, counts, p, sf)) == Run(old(dec.iv), ResidualTape(g, counts, p, 0))
    {
      var sym: int := 0;
      if counts[sf] > 0 {
        sym := ReadSymbol(dec, g.ResidualCdf(main, delta, sf, counts[sf]), if ok then p.nrgRes[sf] else 0,
                          if ok then ResidualTape(g, counts, p, sf) else End);
      }
      res := res + [sym];
    }
    RunNone(dec.iv);
  }

  ghost predicate GainsFollowed(out: seq<byte>, i: Interval, g: GainTables, counts: seq<nat>, p: GainParams)
    requires Normal(i)
  {
    GainsOk(g, counts, p) && Follows(out, i, GainTape(g, counts, p))
  }

  /** DecodeSmplGains. */
  method DecodeGains(dec: RangeDecoder, g: GainTables, counts: seq<nat>, ghost p: GainParams) returns (got: Gains)
    requires dec.Valid() && g.Valid() && |counts| == 4
    modifies dec
    ensures dec.Valid() && dec.err == old(dec.err)
    ensures GainsFollowed(dec.buf, old(dec.iv), g, counts, p) ==>
              GainsMatch(g, counts, p, got) && dec.iv == Run(old(dec.iv), GainTape(g, counts, p))
  {
    hide RangeDecoder.Tracks, Run, Follows, Push, CdfSymbol, Climbs, Picks, ResidualTape, ResidualsOk;
    ghost var ok := GainsFollowed(dec.buf, dec.iv, g, counts, p);
    ghost var tape := if ok then GainTape(g, counts, p) else Then(Freq(0, 1, 1), End);
    var main := ReadSymbol(dec, g.gain4, if ok then p.main else 0, if ok then tape else End);
    var delta := ReadSymbol(dec, g.shape4, if ok then p.delta else 0, if ok then tape.rest else End);
    var gainQ := [g.GainQ(main, delta, 0), g.GainQ(main, delta, 1), g.GainQ(main, delta, 2), g.GainQ(main, delta, 3)];
    var res := DecodeResiduals(dec, g, counts, main, delta, p);
    got := Gains(main, delta, gainQ, res);
  }

  // --------------------------------------------------- LTP gains and filters

  /** The symbols of one subframe. */
  lemma {:induction false} LtpStep(i: Interval, t: LtpTables, counts: seq<nat>, p: PitchParams, pred: Pred, sf: nat)
    requires Normal(i) && t.Valid() && LtpOk(counts, p) && pred.InRange() && sf < 4
    ensures Passed(counts, p, pred, sf).InRange()
    ensures var rest := LtpTape(t, counts, p, Passed(counts, p, pred, sf), sf + 1);
            var behind := Push(i, CdfSymbol(t.GainRow(pred.gain), p.gainIdx[sf]));
            Run(i, LtpTape(t, counts, p, pred, sf))
            == if counts[sf] > 0 then Run(Push(behind, CdfSymbol(t.FilterRow(pred.filt), p.filtIdx[sf])), rest)
               else Run(behind, rest)
    ensures LtpLeaves(counts, p, pred, sf) == LtpLeaves(counts, p, Passed(counts, p, pred, sf), sf + 1)
  {
    hide Push, Run, CdfSymbol, Climbs, LtpTables.Valid, LtpTables.GainRow, LtpTables.FilterRow;
    var rest := LtpTape(t, counts, p, Passed(counts, p, pred, sf), sf + 1);
    var s := CdfSymbol(t.GainRow(pred.gain), p.gainIdx[sf]);
    RunStep(i, s, LtpTape(t, counts, p, pred, sf).rest);
    if counts[sf] > 0 {
      RunStep(Push(i, s), CdfSymbol(t.FilterRow(pred.filt), p.filtIdx[sf]), rest);
    }
  }

  /** The gain and filter loop of encodeSmplPitch. */
  method EncodeLtp(enc: RangeEncoder, t: LtpTables, st: LsfState, counts: seq<nat>, p: PitchParams)
    requires enc.Valid() && t.Valid() && LtpOk(counts, p) && st.Leaves().pred.InRange()
    modifies enc, enc.buf, st`prevGainIdx, st`prevFiltIdx
    ensures enc.Valid() && enc.refused == old(enc.refused)
    ensures enc.iv == Run(old(enc.iv), LtpTape(t, counts, p, old(st.Leaves()).pred, 0))
    ensures st.Leaves().pred == LtpLeaves(counts, p, old(st.Leaves()).pred, 0)
  {
    hide Push, Run, CdfSymbol, Climbs, LtpTables.Valid, LtpTables.GainRow, LtpTables.FilterRow, LtpTape, LtpLeaves;
    hide RangeEncoder.InRange, RangeEncoder.Tracks, RangeEncoder.Blamed;
    for sf := 0 to 4
      invariant enc.Valid() && enc.refused == old(enc.refused) && st.Leaves().pred.InRange()
      invariant Run(enc.iv, LtpTape(t, counts, p, st.Leaves().pred, sf))
             == Run(old(enc.iv), LtpTape(t, counts, p, old(st.Leaves()).pred, 0))
      invariant LtpLeaves(counts, p, st.Leaves().pred, sf) == LtpLeaves(counts, p, old(st.Leaves()).pred, 0)
    {
      LtpStep(enc.iv, t, counts, p, st.Leaves().pred, sf);
      enc.EncodeCDF(p.gainIdx[sf], t.GainRow(st.prevGainIdx));
      st.prevGainIdx := p.gainIdx[sf];
      if counts[sf] > 0 {
        enc.EncodeCDF(p.filtIdx[sf], t.FilterRow(st.prevFiltIdx));
        st.prevFiltIdx := p.filtIdx[sf];
      }
    }
    LtpEnd(enc.iv, t, counts, p, st.Leaves().pred);
  }

  lemma {:induction false} LtpEnd(i: Interval, t: LtpTables, counts: seq<nat>, p: PitchParams, pred: Pred)
    requires Normal(i) && t.Valid() && LtpOk(counts, p) && pred.InRange()
    ensures Run(i, LtpTape(t, counts, p, pred, 4)) == i && LtpLeaves(counts, p, pred, 4) == pred
  {
    hide LtpTables.Valid;
    RunNone(i);
  }

  datatype Ltp = Ltp(gainIdx: seq<int>, filtIdx: seq<int>)

  /** What the decoder reads: every gain, and -1 as the filter of a subframe without pulses. */
  ghost predicate LtpMatch(counts: seq<nat>, p: PitchParams, got: Ltp, n: nat)
    requires n <= 4
  {
    && |counts| == |p.gainIdx| == |p.filtIdx| == 4 && |got.gainIdx| == |got.filtIdx| == n
    && forall sf :: 0 <= sf < n ==> got.gainIdx[sf] == p.gainIdx[sf]
                                    && got.filtIdx[sf] == if counts[sf] > 0 then p.filtIdx[sf] else -1
  }

  ghost predicate LtpFollowed(out: seq<byte>, i: Interval, t: LtpTables, counts: seq<nat>, p: PitchParams, pred: Pred,
                              sf: nat)
    requires Normal(i) && t.Valid() && pred.InRange() && sf <= 4
  {
    LtpOk(counts, p) && Follows(out, i, LtpTape(t, counts, p, pred, sf))
  }

  /** The gain and filter loop of DecodeSmplPitch. On any stream the indices stay inside the tables. */
  method DecodeLtp(dec: RangeDecoder, t: LtpTables, st: LsfState, counts: seq<nat>, ghost p: PitchParams)
    returns (got: Ltp)
    requires dec.Valid() && t.Valid() && |counts| == 4 && st.Leaves().pred.InRange()
    modifies dec, st`prevGainIdx, st`prevFiltIdx
    ensures dec.Valid() && dec.err == old(dec.err) && st.Leaves().pred.InRange()
    ensures LtpFollowed(dec.buf, old(dec.iv), t, counts, p, old(st.Leaves()).pred, 0) ==>
              && LtpMatch(counts, p, got, 4)
              && dec.iv == Run(old(dec.iv), LtpTape(t, counts, p, old(st.Leaves()).pred, 0))
              && st.Leaves().pred == LtpLeaves(counts, p, old(st.Leaves()).pred, 0)
  {
    hide RangeDecoder.Tracks, Run, Follows, Push, CdfSymbol, Climbs, Picks, LtpTables.Valid, LtpTables.GainRow;
    hide LtpTables.FilterRow;
    ghost var ok := LtpFollowed(dec.buf, dec.iv, t, counts, p, st.Leaves().pred, 0);
    got := Ltp([], []);
    for sf := 0 to 4
      invariant dec.Valid() && dec.err == old(dec.err) && st.Leaves().pred.InRange()
      invariant |got.gainIdx| == |got.filtIdx| == sf
      invariant ok ==> LtpFollowed(dec.buf, dec.iv, t, counts, p, st.Leaves().pred, sf) && LtpMatch(counts, p, got, sf)
      invariant ok ==> Run(dec.iv, LtpTape(t, counts, p, st.Leaves().pred, sf)) ==
                         Run(old(dec.iv), LtpTape(t, counts, p, old(st.Leaves()).pred, 0))
      invariant ok ==> LtpLeaves(counts, p, st.Leaves().pred, sf) == LtpLeaves(counts, p, old(st.Leaves()).pred, 0)
    {
      ghost var tape := if ok then LtpTape(t, counts, p, st.Leaves().pred, sf) else Then(Freq(0, 1, 1), End);
      var gi := ReadSymbol(dec, t.GainRow(st.prevGainIdx), if ok then p.gainIdx[sf] else 0, if ok then tape else End);
      st.prevGainIdx := gi;
      var fi: int := -1;
      if counts[sf] > 0 {
        fi := ReadSymbol(dec, t.FilterRow(st.prevFiltIdx), if ok then p.filtIdx[sf] else 0,
                         if ok then tape.rest else End);
        st.prevFiltIdx := fi;
      }
      got := Ltp(got.gainIdx + [gi], got.filtIdx + [fi]);
    }
    RunNone(dec.iv);
  }
}
