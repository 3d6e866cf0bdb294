/** A whole active frame: three internal frames coded into one packet by EncodeSmplFrame
(encoder.go lines 533-569) and read back by decodeActiveFrame (decoder.go lines 177-240).
The lags of a voiced frame are a list of symbols with the table of each. */
module FrameRoundTrip {
  import opened Words
  import opened CodingInterval
  import opened RangeEncoding
  import opened RangeDecoding
  import opened PulseVectors
  import opened PulseTapes
  import opened PulseEncoding
  import opened PulseDecoding
  import opened PulseRoundTrip
  import opened FrameTapes
  import opened FrameCoding

  const GROUP := 3
  const BUF_BYTES := 513
  const CONFIG := 0

  datatype Tables = Tables(lsf: LsfTables, cc: CcTables, gains: GainTables, ltp: LtpTables) {
    ghost predicate Valid() {
      lsf.Valid() && cc.Valid() && gains.Valid() && ltp.Valid()
    }
  }

  datatype InternalFrame = InternalFrame(lsf: LsfParams, pulses: seq<int>, gains: GainParams, pitch: PitchParams) {
    ghost predicate Shaped() {
      && 0 <= lsf.stage1 < 2 && 0 <= lsf.grid <= 16 && |lsf.stage2| == ORDER
      && Encodable(pulses) && |gains.nrgRes| == 4 && (lsf.stage1 == 1 ==> LtpOk(Counts(pulses), pitch))
    }
  }

  type LagCdfs = seq<Cdf>

  ghost predicate AllIncreasing(cdfs: LagCdfs) {
    forall k :: 0 <= k < |cdfs| ==> Increasing(cdfs[k])
  }

  // ------------------------------------------------------------- lag block

  ghost predicate LagCodes(cdfs: LagCdfs, syms: seq<int>, k: nat)
    requires |syms| == |cdfs| && k <= |cdfs|
    decreases |cdfs| - k
  {
    k == |cdfs| || (Codes(cdfs[k], syms[k]) && LagCodes(cdfs, syms, k + 1))
  }

  ghost function LagTape(cdfs: LagCdfs, syms: seq<int>, k: nat): Tape
    requires |syms| == |cdfs| && k <= |cdfs| && LagCodes(cdfs, syms, k)
    decreases |cdfs| - k
  {
    if k == |cdfs| then End else Then(CdfSymbol(cdfs[k], syms[k]), LagTape(cdfs, syms, k + 1))
  }

  method EncodeLags(enc: RangeEncoder, cdfs: LagCdfs, syms: seq<int>)
    requires enc.Valid() && |syms| == |cdfs| && AllIncreasing(cdfs)
    modifies enc, enc.buf
    ensures enc.Valid() && enc.refused == (old(enc.refused) || !LagCodes(cdfs, syms, 0))
    ensures LagCodes(cdfs, syms, 0) ==> enc.iv == Run(old(enc.iv), LagTape(cdfs, syms, 0))
  {
    hide Push, Run, CdfSymbol, Climbs;
    hide RangeEncoder.InRange, RangeEncoder.Tracks, RangeEncoder.Blamed;
    ghost var ok := LagCodes(cdfs, syms, 0);
    for k := 0 to |cdfs|
      invariant enc.Valid() && RefusedSoFar(old(enc.refused), enc.refused, ok, LagCodes(cdfs, syms, k))
      invariant ok ==> Run(enc.iv, LagTape(cdfs, syms, k)) == Run(old(enc.iv), LagTape(cdfs, syms, 0))
    {
      if ok {
        RunStep(enc.iv, CdfSymbol(cdfs[k], syms[k]), LagTape(cdfs, syms, k + 1));
      }
      enc.EncodeCDF(syms[k], cdfs[k]);
    }
    RunNone(enc.iv);
  }

  ghost predicate LagsFollowed(out: seq<byte>, i: Interval, cdfs: LagCdfs, syms: seq<int>, k: nat)
    requires Normal(i) && k <= |cdfs|
  {
    |syms| == |cdfs| && LagCodes(cdfs, syms, k) && Follows(out, i, LagTape(cdfs, syms, k))
  }

  method DecodeLags(dec: RangeDecoder, cdfs: LagCdfs, ghost syms: seq<int>) returns (got: seq<int>)
    requires dec.Valid() && AllIncreasing(cdfs)
    modifies dec
    ensures dec.Valid() && dec.err == old(dec.err)
    ensures LagsFollowed(dec.buf, old(dec.iv), cdfs, syms, 0) ==>
              got == syms && dec.iv == Run(old(dec.iv), LagTape(cdfs, syms, 0))
  {
    hide RangeDecoder.Tracks, Run, Follows, Push, CdfSymbol, Climbs;
    ghost var ok := LagsFollowed(dec.buf, dec.iv, cdfs, syms, 0);
    got := [];
    for k := 0 to |cdfs|
      invariant dec.Valid() && dec.err == old(dec.err) && |got| == k
      invariant ok ==> LagsFollowed(dec.buf, dec.iv, cdfs, syms, k)
      invariant ok ==> forall j :: 0 <= j < k ==> got[j] == syms[j]
      invariant ok ==> Run(dec.iv, LagTape(cdfs, syms, k)) == Run(old(dec.iv), LagTape(cdfs, syms, 0))
    {
      var sym := ReadSymbol(dec, cdfs[k], if ok then syms[k] else 0, if ok then LagTape(cdfs, syms, k) else End);
      got := got + [sym];
    }
    RunNone(dec.iv);
  }

  // --------------------------------------------------------------- last block

  /** A voiced frame ends in its LTP gains and lags, any other in its gains. */
  ghost predicate TailOk(t: Tables, cdfs: LagCdfs, x: InternalFrame) {
    && Encodable(x.pulses)
    && if x.lsf.stage1 == 1 then
         LtpOk(Counts(x.pulses), x.pitch) && |x.pitch.lags| == |cdfs| && LagCodes(cdfs, x.pitch.lags, 0)
       else GainsOk(t.gains, Counts(x.pulses), x.gains)
  }

  ghost function TailTape(t: Tables, cdfs: LagCdfs, pred: Pred, x: InternalFrame): Tape
    requires t.Valid() && TailOk(t, cdfs, x) && pred.InRange()
  {
    if x.lsf.stage1 == 1 then
      Cat(LtpTape(t.ltp, Counts(x.pulses), x.pitch, pred, 0), LagTape(cdfs, x.pitch.lags, 0))
    else GainTape(t.gains, Counts(x.pulses), x.gains)
  }

  /** The predictor behind the last block. */
  ghost function Behind(x: InternalFrame, pred: Pred): (r: Pred)
    ensures pred.InRange() ==> r.InRange()
  {
    if x.lsf.stage1 == 1 && Encodable(x.pulses) && LtpOk(Counts(x.pulses), x.pitch) && pred.InRange() then
      LtpLeaves(Counts(x.pulses), x.pitch, pred, 0)
    else pred
  }

  method EncodeTail(enc: RangeEncoder, t: Tables, cdfs: LagCdfs, st: LsfState, x: InternalFrame, subfr: seq<nat>)
    requires enc.Valid() && t.Valid() && x.Shaped() && AllIncreasing(cdfs) && |x.pitch.lags| == |cdfs|
    requires subfr == Counts(x.pulses) && st.Leaves().pred.InRange()
    modifies enc, enc.buf, st`prevGainIdx, st`prevFiltIdx
    ensures enc.Valid() && enc.refused == (old(enc.refused) || !TailOk(t, cdfs, x))
    ensures TailOk(t, cdfs, x) ==> enc.iv == Run(old(enc.iv), TailTape(t, cdfs, old(st.Leaves()).pred, x))
    ensures st.Leaves().pred == Behind(x, old(st.Leaves()).pred)
  {
    hide Run, LagTape, LagCodes, GainTape, GainsOk, LtpTape, LtpLeaves, LtpOk, Cat;
    hide LsfTables.Valid, CcTables.Valid, GainTables.Valid, LtpTables.Valid;
    hide RangeEncoder.InRange, RangeEncoder.Tracks, RangeEncoder.Blamed;
    if x.lsf.stage1 == 1 {
      ghost var i, pred := enc.iv, st.Leaves().pred;
      EncodeLtp(enc, t.ltp, st, subfr, x.pitch);
      EncodeLags(enc, cdfs, x.pitch.lags);
      if TailOk(t, cdfs, x) {
        RunCat(i, LtpTape(t.ltp, subfr, x.pitch, pred, 0), LagTape(cdfs, x.pitch.lags, 0));
      }
    } else {
      EncodeGains(enc, t.gains, subfr, x.gains);
    }
  }

  /** What the decoder hands to synthesis. */
  datatype Decoded = Decoded(lsf: LsfParams, pulses: seq<int>, subfr: seq<nat>, tail: Tail)

  datatype Tail = Unvoiced(gains: Gains) | Voiced(ltp: Ltp, lags: seq<int>)

  ghost predicate TailFollowed(out: seq<byte>, i: Interval, t: Tables, cdfs: LagCdfs, pred: Pred, x: InternalFrame)
    requires Normal(i) && t.Valid() && pred.InRange()
  {
    TailOk(t, cdfs, x) && Follows(out, i, TailTape(t, cdfs, pred, x))
  }

  ghost predicate TailMatches(t: Tables, x: InternalFrame, got: Tail)
    requires Encodable(x.pulses)
  {
    match got
    case Voiced(ltp, lags) => x.lsf.stage1 == 1 && LtpMatch(Counts(x.pulses), x.pitch, ltp, 4) && lags == x.pitch.lags
    case Unvoiced(gains) => x.lsf.stage1 != 1 && GainsMatch(t.gains, Counts(x.pulses), x.gains, gains)
  }

  method DecodeTail(dec: RangeDecoder, t: Tables, cdfs: LagCdfs, st: LsfState, stage1: int, subfr: seq<nat>,
                    ghost x: InternalFrame)
    returns (got: Tail)
    requires dec.Valid() && t.Valid() && AllIncreasing(cdfs) && |subfr| == 4 && st.Leaves().pred.InRange()
    modifies dec, st`prevGainIdx, st`prevFiltIdx
    ensures dec.Valid() && dec.err == old(dec.err) && st.Leaves().pred.InRange()
    ensures TailFollowed(dec.buf, old(dec.iv), t, cdfs, old(st.Leaves()).pred, x)
            && stage1 == x.lsf.stage1 && subfr == Counts(x.pulses) ==>
              && TailMatches(t, x, got) && dec.iv == Run(old(dec.iv), TailTape(t, cdfs, old(st.Leaves()).pred, x))
              && st.Leaves().pred == Behind(x, old(st.Leaves()).pred)
  {
    hide RangeDecoder.Tracks, Run, Follows, LagTape, LagCodes, GainTape, GainsOk, GainsMatch, LtpTape, LtpLeaves, LtpOk;
    hide LtpMatch, Cat;
    hide LsfTables.Valid, CcTables.Valid, GainTables.Valid, LtpTables.Valid;
    if stage1 == 1 {
      ghost var pred := st.Leaves().pred;
      if TailFollowed(dec.buf, dec.iv, t, cdfs, pred, x) && x.lsf.stage1 == 1 {
        FollowsCat(dec.buf, dec.iv, LtpTape(t.ltp, Counts(x.pulses), x.pitch, pred, 0), LagTape(cdfs, x.pitch.lags, 0));
      }
      var ltp := DecodeLtp(dec, t.ltp, st, subfr, x.pitch);
      var lags := DecodeLags(dec, cdfs, x.pitch.lags);
      got := Voiced(ltp, lags);
    } else {
      var gains := DecodeGains(dec, t.gains, subfr, x.gains);
      got := Unvoiced(gains);
    }
  }

  // ----------------------------------------------------- one internal frame

  /** The predictor behind the LSF block stays inside the tables. */
  ghost predicate Enters(intf: nat, was: Mirror, x: InternalFrame) {
    Entered(intf, was, x.lsf.stage1).InRange()
  }

  ghost predicate InternalOk(t: Tables, cdfs: LagCdfs, intf: nat, was: Mirror, x: InternalFrame) {
    t.Valid() && LsfOk(t.lsf, 0, intf, was.stage1, x.lsf) && Enters(intf, was, x) && TailOk(t, cdfs, x)
  }

  /** What an internal frame leaves to the next. */
  ghost function Next(intf: nat, was: Mirror, x: InternalFrame): (next: Mirror)
    ensures Enters(intf, was, x) ==> next.pred.InRange()
  {
    Mirror(x.lsf.stage1, Behind(x, Entered(intf, was, x.lsf.stage1)))
  }

  ghost function BlockTape(t: Tables, cdfs: LagCdfs, pred: Pred, x: InternalFrame): Tape
    requires t.Valid() && TailOk(t, cdfs, x) && pred.InRange()
  {
    Cat(PulseTape(t.cc, x.pulses), TailTape(t, cdfs, pred, x))
  }

  ghost function InternalTape(t: Tables, cdfs: LagCdfs, intf: nat, was: Mirror, x: InternalFrame): Tape {
    if InternalOk(t, cdfs, intf, was, x) then
      Cat(LsfTape(t.lsf, 0, intf, was.stage1, x.lsf), BlockTape(t, cdfs, Entered(intf, was, x.lsf.stage1), x))
    else End
  }

  method EncodeBlocks(enc: RangeEncoder, t: Tables, cdfs: LagCdfs, st: LsfState, x: InternalFrame)
    requires enc.Valid() && t.Valid() && x.Shaped() && AllIncreasing(cdfs) && |x.pitch.lags| == |cdfs|
    requires st.Leaves().pred.InRange()
    modifies enc, enc.buf, st`prevGainIdx, st`prevFiltIdx
    ensures enc.Valid() && enc.refused == (old(enc.refused) || !TailOk(t, cdfs, x))
    ensures TailOk(t, cdfs, x) ==> enc.iv == Run(old(enc.iv), BlockTape(t, cdfs, old(st.Leaves()).pred, x))
    ensures st.Leaves().pred == Behind(x, old(st.Leaves()).pred)
  {
    hide Run, Cat, PulseTape, TailTape, TailOk, Encodable, Describes, Count, Behind, LtpOk;
    hide LsfTables.Valid, CcTables.Valid, GainTables.Valid, LtpTables.Valid;
    hide RangeEncoder.InRange, RangeEncoder.Tracks, RangeEncoder.Blamed;
    ghost var i, pred := enc.iv, st.Leaves().pred;
    LengthOf(x.pulses);
    var pp := BuildPulseParams(x.pulses);
    EncodePulses(enc, t.cc, pp, x.pulses);
    CountsOf(pp, x.pulses);
    EncodeTail(enc, t, cdfs, st, x, pp.subfr);
    if TailOk(t, cdfs, x) {
      RunCat(i, PulseTape(t.cc, x.pulses), TailTape(t, cdfs, pred, x));
    }
  }

  lemma {:induction false} LengthOf(v: seq<int>)
    requires Encodable(v)
    ensures |v| == SUBFRAMES * POS_PER
  {
  }

  lemma {:induction false} CountsOf(pp: PulseParams, v: seq<int>)
    requires |v| == SUBFRAMES * POS_PER && Describes(pp, v)
    ensures pp.subfr == Counts(v)
  {
  }

  method EncodeInternal(enc: RangeEncoder, t: Tables, cdfs: LagCdfs, st: LsfState, intf: nat, x: InternalFrame)
    requires enc.Valid() && t.Valid() && x.Shaped() && AllIncreasing(cdfs) && |x.pitch.lags| == |cdfs|
    requires Enters(intf, st.Leaves(), x)
    modifies enc, enc.buf, st
    ensures enc.Valid() && enc.refused == (old(enc.refused) || !InternalOk(t, cdfs, intf, old(st.Leaves()), x))
    ensures st.Leaves() == Next(intf, old(st.Leaves()), x)
    ensures st.prevMatch == Matches(intf, old(st.prevStage1), x.lsf.stage1)
    ensures InternalOk(t, cdfs, intf, old(st.Leaves()), x) ==>
              enc.iv == Run(old(enc.iv), InternalTape(t, cdfs, intf, old(st.Leaves()), x))
  {
    hide Run, Cat, LsfTape, LsfOk, BlockTape, TailOk, Encodable, Behind, LtpOk, Entered;
    hide LsfTables.Valid, CcTables.Valid, GainTables.Valid, LtpTables.Valid;
    hide RangeEncoder.InRange, RangeEncoder.Tracks, RangeEncoder.Blamed;
    ghost var was, i := st.Leaves(), enc.iv;
    ghost var sel, grid := EncodeLsf(enc, t.lsf, st, CONFIG, intf, x.lsf);
    EncodeBlocks(enc, t, cdfs, st, x);
    if InternalOk(t, cdfs, intf, was, x) {
      RunCat(i, LsfTape(t.lsf, CONFIG, intf, was.stage1, x.lsf),
             BlockTape(t, cdfs, Entered(intf, was, x.lsf.stage1), x));
    }
  }

  ghost predicate Recovers(t: Tables, x: InternalFrame, got: Decoded) {
    && Encodable(x.pulses) && got.lsf == x.lsf && got.pulses == x.pulses && got.subfr == Counts(x.pulses)
    && TailMatches(t, x, got.tail)
  }

  ghost predicate BlockFollowed(out: seq<byte>, i: Interval, t: Tables, cdfs: LagCdfs, pred: Pred, x: InternalFrame)
    requires Normal(i) && t.Valid() && pred.InRange()
  {
    TailOk(t, cdfs, x) && Follows(out, i, BlockTape(t, cdfs, pred, x))
  }

  method DecodeBlocks(dec: RangeDecoder, t: Tables, cdfs: LagCdfs, st: LsfState, lsf: LsfParams, ghost x: InternalFrame)
    returns (got: Decoded)
    requires dec.Valid() && t.Valid() && AllIncreasing(cdfs) && Encodable(x.pulses) && st.Leaves().pred.InRange()
    modifies dec, st`prevGainIdx, st`prevFiltIdx
    ensures dec.Valid() && dec.err == old(dec.err) && got.lsf == lsf && st.Leaves().pred.InRange()
    ensures BlockFollowed(dec.buf, old(dec.iv), t, cdfs, old(st.Leaves()).pred, x) && lsf == x.lsf ==>
              && Recovers(t, x, got) && dec.iv == Run(old(dec.iv), BlockTape(t, cdfs, old(st.Leaves()).pred, x))
              && st.Leaves().pred == Behind(x, old(st.Leaves()).pred)
  {
    hide RangeDecoder.Tracks, Run, Follows, Cat, PulseTape, TailTape, TailOk, TailMatches, Encodable, Behind;
    hide LsfTables.Valid, CcTables.Valid, GainTables.Valid, LtpTables.Valid;
    ghost var pred := st.Leaves().pred;
    if BlockFollowed(dec.buf, dec.iv, t, cdfs, pred, x) {
      FollowsCat(dec.buf, dec.iv, PulseTape(t.cc, x.pulses), TailTape(t, cdfs, pred, x));
    }
    var pulses, subfr := DecodePulses(dec, t.cc, x.pulses);
    var tail := DecodeTail(dec, t, cdfs, st, lsf.stage1, subfr, x);
    got := Decoded(lsf, pulses[..], subfr, tail);
  }

  ghost predicate InternalFollowed(out: seq<byte>, i: Interval, t: Tables, cdfs: LagCdfs, intf: nat, was: Mirror,
                                   x: InternalFrame)
    requires Normal(i)
  {
    InternalOk(t, cdfs, intf, was, x) && Follows(out, i, InternalTape(t, cdfs, intf, was, x))
  }

  method DecodeInternal(dec: RangeDecoder, t: Tables, cdfs: LagCdfs, st: LsfState, intf: nat, ghost x: InternalFrame)
    returns (got: Decoded)
    requires dec.Valid() && t.Valid() && AllIncreasing(cdfs) && Encodable(x.pulses)
    requires intf > 0 ==> st.Leaves().pred.InRange()
    modifies dec, st
    ensures dec.Valid() && dec.err == old(dec.err)
    ensures st.havePrev && st.prevStage1 == got.lsf.stage1 && st.Leaves().pred.InRange()
    ensures st.prevMatch == Matches(intf, old(st.prevStage1), got.lsf.stage1)
    ensures InternalFollowed(dec.buf, old(dec.iv), t, cdfs, intf, old(st.Leaves()), x) ==>
              && Recovers(t, x, got) && st.Leaves() == Next(intf, old(st.Leaves()), x)
              && dec.iv == Run(old(dec.iv), InternalTape(t, cdfs, intf, old(st.Leaves()), x))
  {
    hide RangeDecoder.Tracks, Run, Follows, Cat, LsfTape, LsfOk, BlockTape, TailOk, Recovers, Encodable, Behind;
    hide LsfTables.Valid, CcTables.Valid, GainTables.Valid, LtpTables.Valid;
    ghost var was := st.Leaves();
    if InternalFollowed(dec.buf, dec.iv, t, cdfs, intf, was, x) {
      FollowsCat(dec.buf, dec.iv, LsfTape(t.lsf, CONFIG, intf, was.stage1, x.lsf),
                 BlockTape(t, cdfs, Entered(intf, was, x.lsf.stage1), x));
    }
    var lsf;
    ghost var sel, grid;
    lsf, sel, grid := DecodeLsf(dec, t.lsf, st, CONFIG, intf, x.lsf);
    got := DecodeBlocks(dec, t, cdfs, st, lsf, x);
  }

  // ------------------------------------------------------------- whole packet

  ghost predicate Shaped(frames: seq<InternalFrame>, cdfs: seq<LagCdfs>) {
    && |frames| == |cdfs| == GROUP
    && forall f :: 0 <= f < GROUP ==>
         frames[f].Shaped() && AllIncreasing(cdfs[f]) && |frames[f].pitch.lags| == |cdfs[f]|
  }

  /** The predictor state before internal frame f, in a packet that starts from a new state. */
  ghost function Before(frames: seq<InternalFrame>, f: nat): (was: Mirror)
    requires f <= |frames|
    ensures was.pred.InRange()
  {
    if f == 0 then FRESH else Next(f - 1, Before(frames, f - 1), frames[f - 1])
  }

  ghost predicate PacketOk(t: Tables, cdfs: seq<LagCdfs>, frames: seq<InternalFrame>, f: nat)
    requires |frames| == |cdfs| && f <= |frames|
    decreases |frames| - f
  {
    f == |frames| || (InternalOk(t, cdfs[f], f, Before(frames, f), frames[f]) && PacketOk(t, cdfs, frames, f + 1))
  }

  ghost function PacketTape(t: Tables, cdfs: seq<LagCdfs>, frames: seq<InternalFrame>, f: nat): Tape
    requires |frames| == |cdfs| && f <= |frames|
    decreases |frames| - f
  {
    if f == |frames| then End
    else Cat(InternalTape(t, cdfs[f], f, Before(frames, f), frames[f]), PacketTape(t, cdfs, frames, f + 1))
  }

  /** The first internal frame of a packet is coded alike whatever state was left behind, and leaves
      the same state. */
  lemma {:induction false} FirstForgets(t: Tables, cdfs: LagCdfs, was: Mirror, x: InternalFrame)
    ensures InternalOk(t, cdfs, 0, was, x) == InternalOk(t, cdfs, 0, FRESH, x)
    ensures InternalOk(t, cdfs, 0, was, x) ==> InternalTape(t, cdfs, 0, was, x) == InternalTape(t, cdfs, 0, FRESH, x)
    ensures Next(0, was, x) == Next(0, FRESH, x)
  {
    hide Behind, TailOk, RowsCode, RowsTape, BlockTape, Cat, LsfTables.Valid, CcTables.Valid, GainTables.Valid;
    hide LtpTables.Valid;
    assert SelRow(0, was.stage1) == SelRow(0, 0);
    assert !Matches(0, was.stage1, x.lsf.stage1) && !Matches(0, 0, x.lsf.stage1);
  }

  /** One turn of the encoder's loop. */
  method EncodeNext(enc: RangeEncoder, t: Tables, cdfs: seq<LagCdfs>, st: LsfState, f: nat, frames: seq<InternalFrame>)
    requires enc.Valid() && t.Valid() && Shaped(frames, cdfs) && f < GROUP && st.Leaves() == Before(frames, f)
    modifies enc, enc.buf, st
    ensures enc.Valid() && enc.refused == (old(enc.refused) || !InternalOk(t, cdfs[f], f, Before(frames, f), frames[f]))
    ensures st.Leaves() == Before(frames, f + 1)
    ensures PacketOk(t, cdfs, frames, f) ==>
              Run(enc.iv, PacketTape(t, cdfs, frames, f + 1)) == Run(old(enc.iv), PacketTape(t, cdfs, frames, f))
  {
    hide Run, Cat, InternalTape, InternalOk, InternalFrame.Shaped, AllIncreasing, Tables.Valid;
    hide RangeEncoder.InRange, RangeEncoder.Tracks, RangeEncoder.Blamed;
    ghost var i := enc.iv;
    FrameShaped(frames, cdfs, f);
    EncodeInternal(enc, t, cdfs[f], st, f, frames[f]);
    RunCat(i, InternalTape(t, cdfs[f], f, Before(frames, f), frames[f]), PacketTape(t, cdfs, frames, f + 1));
  }

  lemma {:induction false} FrameShaped(frames: seq<InternalFrame>, cdfs: seq<LagCdfs>, f: nat)
    requires Shaped(frames, cdfs) && f < GROUP
    ensures frames[f].Shaped() && AllIncreasing(cdfs[f]) && |frames[f].pitch.lags| == |cdfs[f]|
  {
    hide InternalFrame.Shaped, AllIncreasing;
  }

  method EncodeInternals(enc: RangeEncoder, t: Tables, cdfs: seq<LagCdfs>, frames: seq<InternalFrame>)
    requires enc.Valid() && t.Valid() && Shaped(frames, cdfs)
    modifies enc, enc.buf
    ensures enc.Valid() && enc.refused == (old(enc.refused) || !PacketOk(t, cdfs, frames, 0))
    ensures PacketOk(t, cdfs, frames, 0) ==> enc.iv == Run(old(enc.iv), PacketTape(t, cdfs, frames, 0))
  {
    hide Run, InternalTape, InternalOk, InternalFrame.Shaped, AllIncreasing, Tables.Valid;
    hide RangeEncoder.InRange, RangeEncoder.Tracks, RangeEncoder.Blamed;
    ghost var ok := PacketOk(t, cdfs, frames, 0);
    var st := new LsfState();
    for f := 0 to GROUP
      invariant enc.Valid() && RefusedSoFar(old(enc.refused), enc.refused, ok, PacketOk(t, cdfs, frames, f))
      invariant fresh(st) && st.Leaves() == Before(frames, f)
      invariant ok ==> Run(enc.iv, PacketTape(t, cdfs, frames, f)) == Run(old(enc.iv), PacketTape(t, cdfs, frames, 0))
    {
      EncodeNext(enc, t, cdfs, st, f, frames);
    }
    RunNone(enc.iv);
  }

  datatype Encoded = Overflow | Frame(bytes: seq<byte>)

  /** A frame holds the packet when, behind its TOC byte, its bytes followed by anything at
      all spell a number inside the interval of the packet's symbols. */
  ghost predicate Holds(bytes: seq<byte>, toc: byte, t: Tables, cdfs: seq<LagCdfs>, frames: seq<InternalFrame>) {
    && |bytes| >= 1 && bytes[0] == toc && |frames| == |cdfs| && PacketOk(t, cdfs, frames, 0)
    && forall redundancy: seq<byte> :: Follows(bytes[1..] + redundancy, START, PacketTape(t, cdfs, frames, 0))
  }

  /** The tables carry every symbol, and the bytes they take fit the buffer. */
  ghost predicate Fits(t: Tables, cdfs: seq<LagCdfs>, frames: seq<InternalFrame>) {
    && |frames| == |cdfs| && PacketOk(t, cdfs, frames, 0)
    && Size(Run(START, PacketTape(t, cdfs, frames, 0))) <= 1 + 512
  }

  /** EncodeSmplFrame: a frame comes out exactly when the packet fits. */
  method EncodeFrame(toc: byte, t: Tables, cdfs: seq<LagCdfs>, frames: seq<InternalFrame>) returns (r: Encoded)
    requires t.Valid() && Shaped(frames, cdfs)
    ensures r.Frame? <==> Fits(t, cdfs, frames)
    ensures r.Frame? ==> Holds(r.bytes, toc, t, cdfs, frames)
                         && |r.bytes| == 1 + Size(Run(START, PacketTape(t, cdfs, frames, 0)))
  {
    hide Run, Inside, Size, PacketTape, PacketOk, Tables.Valid, InternalFrame.Shaped, AllIncreasing;
    hide RangeEncoder.InRange, RangeEncoder.Tracks, RangeEncoder.Blamed;
    var enc := new RangeEncoder(BUF_BYTES);
    EncodeInternals(enc, t, cdfs, frames);
    ghost var i := enc.iv;
    enc.Done();
    if enc.err != 0 {
      return Overflow;
    }
    var body := enc.buf[..enc.offs];
    r := Frame([toc] + body);
    assert r.bytes[1..] == body;
  }

  ghost predicate PacketFollowed(out: seq<byte>, i: Interval, t: Tables, cdfs: seq<LagCdfs>,
                                 frames: seq<InternalFrame>, f: nat)
    requires Normal(i) && |frames| == |cdfs| && f <= |frames|
  {
    PacketOk(t, cdfs, frames, f) && Follows(out, i, PacketTape(t, cdfs, frames, f))
  }

  lemma {:induction false} ShapedEncodable(x: InternalFrame)
    requires x.Shaped()
    ensures Encodable(x.pulses)
  {
  }

  /** One turn of the decoder's loop, from the state the turn before left. */
  method DecodeNext(dec: RangeDecoder, t: Tables, cdfs: seq<LagCdfs>, st: LsfState, f: nat,
                    ghost frames: seq<InternalFrame>)
    returns (got: Decoded)
    requires dec.Valid() && t.Valid() && Shaped(frames, cdfs) && f < GROUP && (f > 0 ==> st.Leaves().pred.InRange())
    modifies dec, st
    ensures dec.Valid() && dec.err == old(dec.err)
    ensures st.havePrev && st.prevStage1 == got.lsf.stage1 && st.Leaves().pred.InRange()
    ensures st.prevMatch == Matches(f, old(st.prevStage1), got.lsf.stage1)
    ensures PacketFollowed(dec.buf, old(dec.iv), t, cdfs, frames, f)
            && (f > 0 ==> old(st.Leaves()) == Before(frames, f)) ==>
              && Recovers(t, frames[f], got) && PacketFollowed(dec.buf, dec.iv, t, cdfs, frames, f + 1)
              && st.Leaves() == Before(frames, f + 1)
  {
    hide RangeDecoder.Tracks, Run, Follows, Cat, InternalTape, InternalOk, TailMatches, Encodable, InternalFrame.Shaped;
    hide AllIncreasing, Tables.Valid;
    FrameShaped(frames, cdfs, f);
    ShapedEncodable(frames[f]);
    ghost var was := st.Leaves();
    if PacketFollowed(dec.buf, dec.iv, t, cdfs, frames, f) && (f > 0 ==> was == Before(frames, f)) {
      if f == 0 {
        FirstForgets(t, cdfs[0], was, frames[0]);
      }
      FollowsCat(dec.buf, dec.iv, InternalTape(t, cdfs[f], f, Before(frames, f), frames[f]),
                 PacketTape(t, cdfs, frames, f + 1));
    }
    got := DecodeInternal(dec, t, cdfs[f], st, f, frames[f]);
  }

  ghost predicate AllRecovered(t: Tables, frames: seq<InternalFrame>, got: seq<Decoded>) {
    && |got| <= |frames|
    && (got == [] || (AllRecovered(t, frames, got[..|got| - 1]) && Recovers(t, frames[|got| - 1], got[|got| - 1])))
  }

  lemma {:induction false} RecoveredSnoc(t: Tables, frames: seq<InternalFrame>, got: seq<Decoded>, one: Decoded)
    requires AllRecovered(t, frames, got) && |got| < |frames| && Recovers(t, frames[|got|], one)
    ensures AllRecovered(t, frames, got + [one])
  {
    assert (got + [one])[..|got|] == got;
  }

  lemma {:induction false} RecoveredEach(t: Tables, frames: seq<InternalFrame>, got: seq<Decoded>, f: nat)
    requires AllRecovered(t, frames, got) && f < |got|
    ensures Recovers(t, frames[f], got[f])
  {
    if f < |got| - 1 {
      RecoveredEach(t, frames, got[..|got| - 1], f);
    }
  }

  /** The decoder stands where the frames it has recovered end. */
  ghost predicate Synchronised(out: seq<byte>, i: Interval, t: Tables, cdfs: seq<LagCdfs>, was: Mirror,
                               frames: seq<InternalFrame>, got: seq<Decoded>)
    requires Normal(i) && |frames| == |cdfs| && |got| <= |frames|
  {
    && PacketFollowed(out, i, t, cdfs, frames, |got|)
    && (got != [] ==> was == Before(frames, |got|))
    && AllRecovered(t, frames, got)
  }

  method DecodeAppend(dec: RangeDecoder, t: Tables, cdfs: seq<LagCdfs>, st: LsfState, got: seq<Decoded>,
                      ghost frames: seq<InternalFrame>)
    returns (all: seq<Decoded>)
    requires dec.Valid() && t.Valid() && Shaped(frames, cdfs) && |got| < GROUP
    requires got != [] ==> st.Leaves().pred.InRange()
    modifies dec, st
    ensures dec.Valid() && dec.err == old(dec.err) && st.Leaves().pred.InRange()
    ensures |all| == |got| + 1 && all[..|got|] == got
    ensures st.havePrev && st.prevStage1 == all[|got|].lsf.stage1
    ensures st.prevMatch == Matches(|got|, old(st.prevStage1), all[|got|].lsf.stage1)
    ensures Synchronised(dec.buf, old(dec.iv), t, cdfs, old(st.Leaves()), frames, got) ==>
              Synchronised(dec.buf, dec.iv, t, cdfs, st.Leaves(), frames, all)
  {
    hide RangeDecoder.Tracks, PacketFollowed, Recovers, Before, AllRecovered, Matches, InternalFrame.Shaped;
    hide AllIncreasing, Tables.Valid;
    ghost var ok := Synchronised(dec.buf, dec.iv, t, cdfs, st.Leaves(), frames, got);
    var one := DecodeNext(dec, t, cdfs, st, |got|, frames);
    all := got + [one];
    assert all[..|got|] == got;
    if ok {
      RecoveredSnoc(t, frames, got, one);
    }
  }

  /** decodeActiveFrame up to synthesis, in whatever predictor state earlier packets left. */
  method DecodeFrame(bytes: seq<byte>, t: Tables, cdfs: seq<LagCdfs>, st: LsfState, ghost frames: seq<InternalFrame>)
    returns (got: seq<Decoded>)
    requires |bytes| >= 1 && t.Valid() && Shaped(frames, cdfs)
    modifies st
    ensures |got| == 3 && st.havePrev && st.prevStage1 == got[2].lsf.stage1
    ensures st.prevMatch <==> got[2].lsf.stage1 == got[1].lsf.stage1
    ensures PacketFollowed(bytes[1..], START, t, cdfs, frames, 0) ==>
              AllRecovered(t, frames, got)
  {
    hide RangeDecoder.Tracks, PacketFollowed, Recovers, Tables.Valid, InternalFrame.Shaped, AllIncreasing;
    var dec := new RangeDecoder(bytes[1..]);
    ghost var ok := PacketFollowed(dec.buf, dec.iv, t, cdfs, frames, 0);
    got := [];
    for f := 0 to GROUP
      invariant dec.Valid() && dec.err == 0 && |got| == f
      invariant f > 0 ==> st.havePrev && st.prevStage1 == got[f - 1].lsf.stage1 && st.Leaves().pred.InRange()
      invariant f > 1 ==> (st.prevMatch <==> got[f - 1].lsf.stage1 == got[f - 2].lsf.stage1)
      invariant ok ==> Synchronised(dec.buf, dec.iv, t, cdfs, st.Leaves(), frames, got)
    {
      got := DecodeAppend(dec, t, cdfs, st, got, frames);
    }
  }

  /** A packet that fits comes back exactly, with any redundancy appended to it and in any state
      left by earlier packets; any other is refused. */
  method RoundTrip(toc: byte, t: Tables, cdfs: seq<LagCdfs>, frames: seq<InternalFrame>, redundancy: seq<byte>,
                   st: LsfState)
    returns (r: Encoded, got: seq<Decoded>)
    requires t.Valid() && Shaped(frames, cdfs)
    modifies st
    ensures r.Frame? <==> Fits(t, cdfs, frames)
    ensures r.Frame? ==> |got| == 3 && forall f :: 0 <= f < 3 ==> Recovers(t, frames[f], got[f])
  {
    hide Run, Follows, PacketTape, PacketOk, Fits, AllRecovered, Recovers, Tables.Valid, InternalFrame.Shaped;
    hide AllIncreasing;
    r := EncodeFrame(toc, t, cdfs, frames);
    got := [];
    if r.Frame? {
      assert (r.bytes + redundancy)[1..] == r.bytes[1..] + redundancy;
      got := DecodeFrame(r.bytes + redundancy, t, cdfs, st, frames);
      forall f | 0 <= f < GROUP ensures Recovers(t, frames[f], got[f]) {
        RecoveredEach(t, frames, got, f);
      }
    }
  }
}
