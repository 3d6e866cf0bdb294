/** Reception statistics (internal/voip/media/rtcp_receiver.go, lines 45-86 and 145-180; section
6.4.1 and appendices A.3 and A.8 of RFC 3550). */
module RtcpReceiver {
  import opened Words
  import opened Helpers

  const MOD := 0x1_0000

  /** Highest sequence number and the wraps counted so far, in steps of 2^16. */
  datatype High = High(cycles: nat, maxSeq: u16) {
    function Extended(): nat { cycles + maxSeq }

    /** The sequence part of NoteRTP: late packets leave it alone, others move it on. */
    function Note(s: u16): High {
      if s < maxSeq && (maxSeq - s) < 0x8000 then this
      else High(if s < maxSeq then cycles + MOD else cycles, s)
    }
  }

  ghost function Of(x: nat): High { High(x - x % MOD, x % MOD) }

  /** A packet x less than 2^16 ahead is numbered right exactly when its sequence number did
      not wrap or it is at most 2^15 ahead. */
  lemma {:induction false} AheadExact(h: nat, x: nat)
    requires h <= x < h + MOD
    ensures Of(h).Note(x % MOD) == Of(x) <==> h / MOD == x / MOD || x - h <= 0x8000
  {
    assert h == h / MOD * MOD + h % MOD && x == x / MOD * MOD + x % MOD;
    assert x / MOD == h / MOD || x / MOD == h / MOD + 1;
  }

  ghost predicate InOrder(xs: seq<nat>) {
    forall j :: 0 < j < |xs| ==> xs[j - 1] <= xs[j] <= xs[j - 1] + 0x8000
  }

  /** The receiver after the first n > 0 of these packets. */
  ghost function After(xs: seq<nat>, n: nat): High
    requires 0 < n <= |xs|
  {
    if n == 1 then High(0, xs[0] % MOD) else After(xs, n - 1).Note(xs[n - 1] % MOD)
  }

  /** For in-order arrivals with gaps up to 2^15, the extended highest sequence number is the true
      index, over any number of wraps. */
  lemma {:induction false} InOrderExact(xs: seq<nat>, n: nat)
    requires InOrder(xs) && 0 < n <= |xs| && xs[0] < MOD
    ensures After(xs, n) == Of(xs[n - 1]) && After(xs, n).Extended() == xs[n - 1]
  {
    if n > 1 {
      InOrderExact(xs, n - 1);
      AheadExact(xs[n - 2], xs[n - 1]);
    }
  }

  /** Without duplicates, no more packets arrive than indices go by: no loss is negative. */
  lemma {:induction false} ArrivalsAtMost(xs: seq<nat>, i: nat, j: nat)
    requires i <= j < |xs| && forall k :: 0 < k < |xs| ==> xs[k - 1] < xs[k]
    ensures xs[i] + (j - i) <= xs[j]
  {
    if i < j {
      ArrivalsAtMost(xs, i, j - 1);
    }
  }

  // ------------------------------------------------------------------ jitter

  const LIMIT := 0x1_0000_0000
  const RATE := 16000
  const PER_MS := 16

  /** Wall clock milliseconds in units of the RTP clock, in 64-bit arithmetic cut to 32 bits. */
  function Units(ms: u64): u32 {
    ms * RATE % 0x1_0000_0000_0000_0000 / 1000 % LIMIT
  }

  lemma {:induction false} UnitsExact(ms: nat)
    requires ms * RATE < 0x1_0000_0000_0000_0000
    ensures Units(ms) == ms * 16 % LIMIT
  {
    assert ms * RATE == ms * PER_MS * 1000;
  }

  /** How far arrival spacing and timestamp spacing differ, from differences taken modulo 2^32. */
  function Deviation(arriv: u32, lastArriv: u32, ts: u32, lastTs: u32): (d: nat)
    ensures d < LIMIT
  {
    Abs((arriv - lastArriv) % LIMIT - (ts - lastTs) % LIMIT)
  }

  function Smoothed(jitter: real, d: nat): real { jitter + (d as real - jitter) / 16.0 }

  lemma {:induction false} DifferenceMod(x: nat, y: nat)
    requires x <= y < x + LIMIT
    ensures (y % LIMIT - x % LIMIT) % LIMIT == y - x
  {
    assert x == x / LIMIT * LIMIT + x % LIMIT && y == y / LIMIT * LIMIT + y % LIMIT;
    assert y / LIMIT == x / LIMIT || y / LIMIT == x / LIMIT + 1;
  }

  /** Of two arrivals in order, less than 2^31 clock units apart, the deviation is the true one
      exactly if the timestamp did not go back, or the two spacings differ by exactly 2^31: a packet
      that overtakes its successor counts as almost 2^32 units of jitter. */
  lemma {:induction false} DeviationExact(a0: nat, a1: nat, t0: nat, t1: nat)
    requires a0 <= a1 < a0 + 0x8000_0000 && t0 - 0x8000_0000 < t1 < t0 + LIMIT
    ensures Deviation(a1 % LIMIT, a0 % LIMIT, t1 % LIMIT, t0 % LIMIT) == Abs((a1 - a0) - (t1 - t0))
            <==> t1 >= t0 || (a1 - a0) + (t0 - t1) == 0x8000_0000
  {
    DifferenceMod(a0, a1);
    if t1 >= t0 {
      DifferenceMod(t0, t1);
    } else {
      DifferenceMod(t1, t0);
      Opposite(t0 % LIMIT, t1 % LIMIT);
    }
  }

  /** One packet of 60 ms overtaken by its successor, 20 ms late: a deviation of 80 ms counts as more
      than three days. */
  lemma {:induction false} OvertakenPacket()
    ensures Deviation(320, 0, 0, 960) == LIMIT - 1280 && Abs((320 - 0) - (0 - 960)) == 1280
    ensures Smoothed(0.0, Deviation(320, 0, 0, 960)) > 268_000_000.0
  {
    assert (0 - 960) % LIMIT == LIMIT - 960;
  }

  lemma {:induction false} Opposite(x: u32, y: u32)
    requires x != y
    ensures (x - y) % LIMIT + (y - x) % LIMIT == LIMIT
  {
  }

  predicate Fits(jitter: real) { 0.0 <= jitter < LIMIT as real }

  /** The estimate stays below 2^32, so reporting it in 32 bits loses only the fraction. */
  lemma {:induction false} SmoothedFits(jitter: real, d: nat)
    requires Fits(jitter) && d < LIMIT
    ensures Fits(Smoothed(jitter, d))
    ensures 16.0 * Smoothed(jitter, d) == 15.0 * jitter + d as real
  {
  }

  /** The estimate of appendix A.8 over the first n packets, from unbounded times. */
  ghost function JitterOf(arrivals: seq<int>, times: seq<int>, n: nat): real
    requires n <= |arrivals| && n <= |times|
  {
    if n <= 1 then 0.0
    else
      var spacing, apart := arrivals[n - 1] - arrivals[n - 2], times[n - 1] - times[n - 2];
      Smoothed(JitterOf(arrivals, times, n - 1), Abs(spacing - apart))
  }

  // ------------------------------------------------------------------ report

  datatype Block = Block(ssrc: u32, fractionLost: byte, cumulativeLost: nat, extHighSeq: u32, jitter: u32, lsr: u32,
                         dlsr: u32)

  /** f is x without its fraction. */
  ghost predicate Floors(f: int, x: real) { f as real <= x < f as real + 1.0 }

  function Whole(x: real): (f: u32)
    requires Fits(x)
    ensures Floors(f, x)
  {
    x.Floor
  }

  /** The low 24 bits. */
  function Low24(x: int): (low: nat)
    ensures low < 0x100_0000 && (x - low) % 0x100_0000 == 0
  {
    x % 0x100_0000
  }

  /** Milliseconds in 65536ths of a second, rounded down, modulo 2^32. */
  function Delay(ms: u64): u32 {
    ms * 65536 % 0x1_0000_0000_0000_0000 / 1000 % LIMIT
  }

  /** Below 2^48 ms the delay is the floor of 65536 ms / 1000 modulo 2^32, and the floor itself for the
      first 65536 seconds. */
  lemma {:induction false} DelayExact(ms: nat, units: nat)
    requires units * 1000 <= ms * 65536 < (units + 1) * 1000 && ms < 0x1_0000_0000_0000
    ensures Delay(ms) == units % LIMIT && (ms < 65_536_000 ==> Delay(ms) == units)
  {
  }

  /** No bit of the wraps overlaps a sequence number. */
  predicate WholeWraps(cycles: nat) { cycles % MOD == 0 }

  lemma {:induction false} OneMoreWrap(cycles: nat)
    requires WholeWraps(cycles)
    ensures WholeWraps(cycles + MOD)
  {
  }

  class Stats {
    var baseSeq: u32
    var maxSeq: u16
    var cycles: u32
    var received: u32
    var initSeq: bool
    var expectPrev: u32
    var recvPrev: u32
    var jitter: real
    var lastTs: u32
    var lastArriv: u32
    var haveTs: bool
    var lsr: u32
    var lsrArrival: u64
    ghost var lostSum: int       // interval losses of all reports so far

    function Ext(): High
      reads this
    {
      High(cycles, maxSeq)
    }

    function Expected(): int
      reads this
    {
      if initSeq then cycles + maxSeq - baseSeq + 1 else 0
    }

    ghost predicate Valid()
      reads this
    {
      Counted() && Fits(jitter)
    }

    /** In particular: an interval that expects a packet has received one. */
    ghost predicate Counted()
      reads this
    {
      && WholeWraps(cycles) && cycles + maxSeq < LIMIT
      && (initSeq ==> baseSeq <= cycles + maxSeq) && (!initSeq ==> cycles == 0 && maxSeq == 0 && received == 0)
      && expectPrev <= Expected() && recvPrev <= received
      && (expectPrev < Expected() ==> recvPrev < received)
      && lostSum == expectPrev - recvPrev
    }

    constructor ()
      ensures Valid() && !initSeq && received == 0 && lostSum == 0 && jitter == 0.0 && !haveTs && lsr == 0
    {
      jitter, lastTs, lastArriv, haveTs, lsr, lsrArrival := 0.0, 0, 0, false, 0, 0;
      baseSeq, maxSeq, cycles, received, initSeq, expectPrev, recvPrev, lostSum := 0, 0, 0, 0, false, 0, 0, 0;
    }

    /** NoteRTP, while the 32-bit counts have room. */
    method NoteRTP(s: u16, ts: u32, arrivalMs: u64)
      requires Valid() && received < LIMIT - 1 && cycles < LIMIT - MOD - MOD
      modifies this
      ensures Valid() && initSeq && received == old(received) + 1
      ensures Ext() == if old(initSeq) then old(Ext()).Note(s) else High(0, s)
      ensures baseSeq == (if old(initSeq) then old(baseSeq) else s)
      ensures expectPrev == old(expectPrev) && recvPrev == old(recvPrev) && lostSum == old(lostSum)
      ensures Ext().Extended() >= old(Ext().Extended())
      ensures haveTs && lastTs == ts && lastArriv == Units(arrivalMs) && lsr == old(lsr)
      ensures lsrArrival == old(lsrArrival)
      ensures jitter == if old(haveTs) then Smoothed(old(jitter), Deviation(lastArriv, old(lastArriv), ts, old(lastTs)))
                        else old(jitter)
    {
      hide Units, Deviation, Smoothed, Fits, High.Note, High.Extended, Stats.Counted;
      NoteSeq(s);
      NoteTransit(ts, Units(arrivalMs));
    }

    method NoteSeq(s: u16)
      requires Counted() && received < LIMIT - 1 && cycles < LIMIT - MOD - MOD
      modifies this`baseSeq, this`maxSeq, this`initSeq, this`cycles, this`received
      ensures Counted() && initSeq && received == old(received) + 1
      ensures Ext() == if old(initSeq) then old(Ext()).Note(s) else High(0, s)
      ensures baseSeq == (if old(initSeq) then old(baseSeq) else s)
      ensures Ext().Extended() >= old(Ext().Extended())
    {
      hide WholeWraps;
      OneMoreWrap(cycles);
      if !initSeq {
        baseSeq, maxSeq, initSeq := s, s, true;
      } else if s < maxSeq && maxSeq - s < 0x8000 {
      } else {
        if s < maxSeq {
          cycles := cycles + 0x10000;
        }
        maxSeq := s;
      }
      received := received + 1;
    }

    method NoteTransit(ts: u32, arriv: u32)
      requires Counted() && Fits(jitter)
      modifies this`jitter, this`lastTs, this`lastArriv, this`haveTs
      ensures Counted() && haveTs && lastTs == ts && lastArriv == arriv && Fits(jitter)
      ensures jitter == if old(haveTs) then Smoothed(old(jitter), Deviation(arriv, old(lastArriv), ts, old(lastTs)))
                        else old(jitter)
    {
      hide Deviation, Smoothed, Fits, WholeWraps;
      if haveTs {
        var d := Deviation(arriv, lastArriv, ts, lastTs);
        SmoothedFits(jitter, d);
        jitter := Smoothed(jitter, d);
      }
      lastTs, lastArriv, haveTs := ts, arriv, true;
    }

    /** NoteSenderReport. */
    method NoteSenderReport(ntpMid: u32, arrivalMs: u64)
      requires Valid()
      modifies this`lsr, this`lsrArrival
      ensures Valid() && lsr == ntpMid && lsrArrival == arrivalMs
    {
      lsr, lsrArrival := ntpMid, arrivalMs;
    }

    /** ReportBlock. The fraction fits 8 bits before it is narrowed, and the interval losses of
        all reports add up to expected minus received. */
    method ReportBlock(peerSsrc: u32, nowMs: u64) returns (b: Block, ghost lost: int)
      requires Valid() && Expected() < LIMIT
      modifies this`expectPrev, this`recvPrev, this`lostSum
      ensures Valid() && expectPrev == Expected() && recvPrev == received
      ensures lost == (Expected() - received) - (old(expectPrev) - old(recvPrev))
      ensures lostSum == old(lostSum) + lost == Expected() - received
      ensures b.ssrc == peerSsrc && b.extHighSeq == Ext().Extended()
      ensures b.cumulativeLost == Low24(Expected() - received)
      ensures IsFraction(b.fractionLost, lost, Expected() - old(expectPrev))
      ensures Floors(b.jitter, jitter) && b.lsr == lsr
      ensures b.dlsr == if lsr != 0 && nowMs >= lsrArrival then Delay(nowMs - lsrArrival) else 0
    {
      hide Fraction, Delay, Whole, Floors, Low24, High.Note, IsFraction, WholeWraps, Fits;
      var expected := Expected();
      var expectedInterval := expected - expectPrev;
      var receivedInterval := received - recvPrev;
      expectPrev, recvPrev := expected, received;
      var lostInterval := expectedInterval - receivedInterval;
      lost := lostInterval;
      lostSum := lostSum + lostInterval;
      var fraction: byte := 0;
      if expectedInterval > 0 && lostInterval > 0 {
        fraction := Fraction(lostInterval, expectedInterval);
      } else {
        NoFraction(lostInterval, expectedInterval);
      }
      var dlsr: u32 := 0;
      if lsr != 0 && nowMs >= lsrArrival {
        dlsr := Delay(nowMs - lsrArrival);
      }
      b := Block(peerSsrc, fraction, Low24(expected - received), cycles + maxSeq, Whole(jitter), lsr, dlsr);
    }
  }

  /** f is the share lost in 256ths, rounded down; 0 when nothing was lost or expected. */
  ghost predicate IsFraction(f: byte, lost: int, expected: int) {
    if expected > 0 && lost > 0 then f * expected <= lost * 256 < (f + 1) * expected else f == 0
  }

  lemma {:induction false} NoFraction(lost: int, expected: int)
    requires expected <= 0 || lost <= 0
    ensures IsFraction(0, lost, expected)
  {
  }

  /** lost / expected in 256ths, rounded down; a byte, since some packet arrived. */
  function Fraction(lost: nat, expected: nat): (f: byte)
    requires 0 < lost < expected
    ensures IsFraction(f, lost, expected)
  {
    FractionFits(lost * 256, expected, lost * 256 / expected, lost * 256 % expected);
    lost * 256 / expected
  }

  lemma {:induction false} FractionFits(scaled: nat, expected: nat, f: nat, r: nat)
    requires scaled < 256 * expected && scaled == f * expected + r && r < expected
    ensures f < 256 && f * expected <= scaled < (f + 1) * expected
  {
    if f >= 256 {
      MulMono(256, f, expected);
    }
  }

  /** Packets in order: sequence indices, timestamps and arrivals, as unbounded numbers. */
  datatype Trace = Trace(xs: seq<nat>, times: seq<nat>, ms: seq<nat>) {
    ghost predicate Valid() {
      && InOrder(xs) && |xs| == |times| == |ms| && 0 < |xs| < LIMIT && xs[0] < MOD
      && (forall j :: 0 <= j < |xs| ==> xs[j] < LIMIT - 2 * MOD && ms[j] * RATE < 0x1_0000_0000_0000_0000)
      && (forall j :: 0 < j < |xs| ==> times[j - 1] <= times[j] < times[j - 1] + LIMIT)
      && (forall j :: 0 < j < |xs| ==> ms[j - 1] <= ms[j] < ms[j - 1] + 0x800_0000)
    }

    /** Arrivals on the RTP clock. */
    ghost function Arrivals(): (a: seq<nat>)
      ensures |a| == |ms| && forall j :: 0 <= j < |ms| ==> a[j] == ms[j] * PER_MS
    {
      seq(|ms|, j requires 0 <= j < |ms| => ms[j] * PER_MS)
    }
  }

  /** The receiver has noted the first j packets of the trace. */
  ghost predicate Noted(stats: Stats, tr: Trace, j: nat)
    reads stats
    requires tr.Valid() && j <= |tr.xs|
  {
    && stats.Valid() && stats.received == j && (stats.initSeq <==> j > 0) && (stats.haveTs <==> j > 0)
    && stats.jitter == JitterOf(tr.Arrivals(), tr.times, j)
    && (j > 0 ==> stats.Ext() == Of(tr.xs[j - 1]) && stats.baseSeq == tr.xs[0])
    && (j > 0 ==> stats.lastTs == tr.times[j - 1] % LIMIT && stats.lastArriv == tr.Arrivals()[j - 1] % LIMIT)
  }

  /** One more packet changes the estimate as appendix A.8 says. */
  lemma {:induction false} JitterStep(tr: Trace, j: nat)
    requires tr.Valid() && j < |tr.xs|
    ensures tr.ms[j] < 0x1_0000_0000_0000_0000 && Units(tr.ms[j]) == tr.Arrivals()[j] % LIMIT
    ensures var a, t := tr.Arrivals(), tr.times;
            JitterOf(a, t, j + 1) == if j == 0 then JitterOf(a, t, j)
                                     else Smoothed(JitterOf(a, t, j), Deviation(a[j] % LIMIT, a[j - 1] % LIMIT,
                                                                                t[j] % LIMIT, t[j - 1] % LIMIT))
  {
    hide Deviation, Smoothed, Units;
    var a, t := tr.Arrivals(), tr.times;
    UnitsExact(tr.ms[j]);
    if j > 0 {
      DeviationExact(a[j - 1], a[j], t[j - 1], t[j]);
    }
  }

  /** One more packet moves the extended number to its index. */
  lemma {:induction false} IndexStep(tr: Trace, j: nat)
    requires tr.Valid() && j < |tr.xs|
    ensures if j == 0 then Of(tr.xs[0]) == High(0, tr.xs[0] % MOD) && tr.xs[0] % MOD == tr.xs[0]
            else Of(tr.xs[j - 1]).Note(tr.xs[j] % MOD) == Of(tr.xs[j]) && Of(tr.xs[j - 1]).cycles < LIMIT - 2 * MOD
    ensures |tr.xs| == |tr.times| == |tr.ms| < LIMIT
  {
    hide High.Note, Of;
    SplitIndex(tr.xs[j]);
    if j > 0 {
      SplitIndex(tr.xs[j - 1]);
      AheadExact(tr.xs[j - 1], tr.xs[j]);
    }
  }

  lemma {:induction false} RoomLeft(stats: Stats, tr: Trace, j: nat)
    requires tr.Valid() && j < |tr.xs| && Noted(stats, tr, j)
    ensures stats.received < LIMIT - 1 && stats.cycles < LIMIT - 2 * MOD
  {
    hide High.Note, JitterOf, Of, Trace.Arrivals;
    if j > 0 {
      IndexStep(tr, j);
    }
  }

  method NoteIndex(stats: Stats, tr: Trace, j: nat)
    requires tr.Valid() && j < |tr.xs| && Noted(stats, tr, j)
    modifies stats
    ensures Noted(stats, tr, j + 1) && stats.lostSum == old(stats.lostSum) && stats.lsr == old(stats.lsr)
  {
    hide High.Note, High.Extended, Of, Deviation, Smoothed, Units, JitterOf, Trace.Valid, Trace.Arrivals, Stats.Valid;
    hide Stats.Expected;
    IndexStep(tr, j);
    RoomLeft(stats, tr, j);
    JitterStep(tr, j);
    stats.NoteRTP(tr.xs[j] % MOD, tr.times[j] % LIMIT, tr.ms[j]);
  }

  lemma {:induction false} NoneNoted(stats: Stats, tr: Trace)
    requires tr.Valid() && stats.Valid() && !stats.initSeq && stats.received == 0 && stats.jitter == 0.0
    requires !stats.haveTs
    ensures Noted(stats, tr, 0)
  {
  }

  /** A whole run: in-order packets noted one by one, with reports in between, then a last report.
      Its extended sequence number is the true index, its jitter the estimate over unbounded times
      without its fraction, and the interval losses of all reports sum to the packets that never
      came; without repeats that is not negative. */
  method ReceiveRun(tr: Trace, reportAfter: seq<bool>) returns (last: Block, ghost losses: int)
    requires tr.Valid() && |reportAfter| == |tr.xs|
    ensures last.extHighSeq == tr.xs[|tr.xs| - 1]
    ensures Floors(last.jitter, JitterOf(tr.Arrivals(), tr.times, |tr.xs|))
    ensures losses == tr.xs[|tr.xs| - 1] - tr.xs[0] + 1 - |tr.xs|
    ensures (forall k :: 0 < k < |tr.xs| ==> tr.xs[k - 1] < tr.xs[k]) ==> losses >= 0
  {
    hide JitterOf, Noted, Floors;
    var n := |tr.xs|;
    var stats := new Stats();
    losses := 0;
    NoneNoted(stats, tr);
    for j := 0 to n
      invariant fresh(stats) && Noted(stats, tr, j) && stats.lostSum == losses
    {
      NoteIndex(stats, tr, j);
      if reportAfter[j] {
        var b;
        ghost var lost;
        b, lost := ReportNow(stats, tr, j + 1);
        losses := losses + lost;
      }
    }
    if forall k :: 0 < k < n ==> tr.xs[k - 1] < tr.xs[k] {
      ArrivalsAtMost(tr.xs, 0, n - 1);
    }
    ghost var lost;
    last, lost := ReportNow(stats, tr, n);
    losses := losses + lost;
  }

  lemma {:induction false} ReportRoom(stats: Stats, tr: Trace, j: nat)
    requires tr.Valid() && 0 < j <= |tr.xs| && Noted(stats, tr, j)
    ensures stats.Expected() == tr.xs[j - 1] - tr.xs[0] + 1 < LIMIT && stats.Ext().Extended() == tr.xs[j - 1]
    ensures |tr.xs| == |tr.times| == |tr.ms| && tr.ms[j - 1] < 0x1_0000_0000_0000_0000
  {
    hide High.Note, Of, JitterOf, Trace.Arrivals;
    SplitIndex(tr.xs[j - 1]);
  }

  method ReportNow(stats: Stats, tr: Trace, j: nat) returns (b: Block, ghost lost: int)
    requires tr.Valid() && 0 < j <= |tr.xs| && Noted(stats, tr, j)
    modifies stats
    ensures Noted(stats, tr, j) && stats.lostSum == old(stats.lostSum) + lost == tr.xs[j - 1] - tr.xs[0] + 1 - j
    ensures b.extHighSeq == tr.xs[j - 1]
    ensures Floors(b.jitter, JitterOf(tr.Arrivals(), tr.times, j))
  {
    hide High.Note, High.Extended, Of, JitterOf, Floors, Trace.Valid, Trace.Arrivals;
    hide Stats.Valid, Stats.Expected;
    ReportRoom(stats, tr, j);
    b, lost := stats.ReportBlock(0, tr.ms[j - 1]);
    ReportRoom(stats, tr, j);
  }

  lemma {:induction false} SplitIndex(x: nat)
    ensures Of(x).Extended() == x && Of(x).cycles <= x && (x < MOD ==> Of(x) == High(0, x % MOD) && x % MOD == x)
  {
  }
}
