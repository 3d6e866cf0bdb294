/** The symbols that carry a pulse vector on the range-coded stream: the CDF each side
selects, as a function of the vector alone (encoder.go lines 345-441, pulse.go lines
50-115, at the coder's operating point of 320 samples in four subframes, config 0). */
module PulseTapes {
  import opened Words
  import opened Helpers
  import opened CodingInterval
  import opened CdfTables
  import opened PulseVectors

  const MAX_PER_SF := 40
  const FRAME_LEN := 160      // upper end of the triangular count prior


  function SplitLen(n: nat): int {
    n - 2 * Max(n - 80, 0) + 2
  }

  /** Split and run-length tables with the sizes their builders give them. */
  datatype CcTables = CcTables(split: seq<Cdf>, runlen: seq<seq<Cdf>>) {
    ghost predicate Valid() {
      && |split| == 159 && |runlen| == 20
      && (forall n :: 0 <= n < 159 ==> Increasing(split[n]) && |split[n]| == SplitLen(n + 1))
      && (forall o :: 0 <= o < 20 ==> |runlen[o]| == MAX_PER_SF)
      && (forall o, c :: 0 <= o < 20 && 0 <= c < MAX_PER_SF ==>
            Increasing(runlen[o][c]) && |runlen[o][c]| == 8 * (o + 1) + 1)
    }

    function SplitWindow(n: nat, start: nat, len: nat): (w: Cdf)
      requires Valid() && 1 <= n <= 159 && 2 <= len && start + len <= SplitLen(n)
      ensures Increasing(w) && |w| == len
    {
      WindowIncreasing(split[n - 1], start, len);
      CdfWindow(split[n - 1], start, len)
    }

    /** The run-length table of c remaining pulses, cut to the pos samples left. */
    function RunWindow(pos: nat, c: nat): (w: Cdf)
      requires Valid() && 1 <= pos <= 160 && 1 <= c <= MAX_PER_SF
      ensures Increasing(w) && |w| == pos + 1
    {
      var oct := (pos + 7) / 8;
      WindowIncreasing(runlen[oct - 1][c - 1], 8 * oct - pos, pos + 1);
      CdfWindow(runlen[oct - 1][c - 1], 8 * oct - pos, pos + 1)
    }
  }

  /** The window of a split starts at the first count that is possible. */
  lemma {:induction false} SplitEntry(cc: CcTables, n: nat, start: nat, len: nat, k: nat)
    requires cc.Valid() && 1 <= n <= 159 && 2 <= len && start + len <= SplitLen(n) && k < len
    ensures cc.SplitWindow(n, start, len)[k] == cc.split[n - 1][start + k]
  {
  }

  /** The window of a run is the end of the table for the pulses left, of the smallest that covers the
      samples left. */
  lemma {:induction false} RunEntry(cc: CcTables, pos: nat, c: nat, k: nat) returns (oct: nat)
    requires cc.Valid() && 1 <= pos <= 160 && 1 <= c <= 40 && k <= pos
    ensures 1 <= oct <= 20 && 8 * oct - 8 < pos <= 8 * oct
    ensures |cc.runlen[oct - 1][c - 1]| == 8 * oct + 1
    ensures cc.RunWindow(pos, c)[pos - k] == cc.runlen[oct - 1][c - 1][8 * oct - k]
  {
    oct := (pos + 7) / 8;
  }

  // ------------------------------------------------------------- pulse count

  function U32(x: int): u32 { x % 0x1_0000_0000 }

  /** The triangular cumulative prior, in wrapping 32-bit arithmetic. */
  function Tri(k: nat): nat {
    var a := U32((k + 2) * (FRAME_LEN + 1));
    var b := U32(U32(k - 1) * U32(k + 131070)) / 2;
    U32(a - b) % 0x1_0000
  }

  /** The wrap-around at k = 0 and the bias 131070 cancel modulo 2^16. */
  lemma {:induction false} TriValue(k: nat)
    requires k <= FRAME_LEN
    ensures Tri(k) == (k + 2) * 161 - (k - 1) * (k - 2) / 2
    ensures 0 < Tri(k) <= 13521
  {
    if k == 0 {
      TriZero();
    } else {
      TriangleBounds(k);
      var a, h, p := (k + 2) * 161, (k - 1) * (k - 2), (k - 1) * (k + 131070);
      HalfProduct(k, h, p);
      BiasCancels(a - h / 2, k - 1);
      TriUnfolds(k, a, p);
    }
  }

  lemma {:induction false} TriUnfolds(k: nat, a: int, p: int)
    requires 1 <= k <= FRAME_LEN && a == (k + 2) * 161 && p == (k - 1) * (k + 131070) && 0 <= p < 0x1_0000_0000
    ensures Tri(k) == U32(a - p / 2) % 65536
  {
    assert U32(k - 1) == k - 1 && U32(k + 131070) == k + 131070;
    assert U32(p) == p && U32(a) == a;
  }

  lemma {:induction false} TriZero()
    ensures Tri(0) == 321
  {
    assert U32(-1) == 0xFFFF_FFFF;
    assert U32(0xFFFF_FFFF * 131070) == 0x1_0000_0000 - 131070;
    assert U32(322 - (0x1_0000_0000 - 131070) / 2) == 322 - 2147418113 + 0x1_0000_0000;
  }

  lemma {:induction false} HalfProduct(k: nat, h: int, p: int)
    requires 1 <= k <= FRAME_LEN && h == (k - 1) * (k - 2) && p == (k - 1) * (k + 131070)
    ensures 0 <= p < 0x1_0000_0000 && p / 2 == h / 2 + (k - 1) * 65536
  {
    assert p == h + (k - 1) * 131072;
    MulMono(k - 2, 158, k - 1);
    assert h >= 0 by { if k >= 2 { MulMono(0, k - 2, k - 1); } }
  }

  lemma {:induction false} BiasCancels(x: nat, m: nat)
    requires x < 65536 && m <= FRAME_LEN
    ensures U32(x - m * 65536) % 65536 == x
  {
    var y := x - m * 65536;
    assert U32(y) == if m == 0 then y else y + 0x1_0000_0000;
    assert y + 0x1_0000_0000 == x + (65536 - m) * 65536;
  }

  lemma {:induction false} TriangleBounds(k: nat)
    requires 1 <= k <= FRAME_LEN
    ensures 0 < (k + 2) * 161 - (k - 1) * (k - 2) / 2 <= 13521
    decreases FRAME_LEN - k
  {
    TriangleStep(k);
    if k < FRAME_LEN {
      TriangleBounds(k + 1);
    }
    MulMono(k - 2, 158, k - 1);
  }

  lemma {:induction false} TriangleStep(k: nat)
    ensures k * (k - 1) / 2 == (k - 1) * (k - 2) / 2 + (k - 1)
  {
    assert k * (k - 1) == (k - 1) * (k - 2) + 2 * (k - 1);
  }

  lemma {:induction false} TriIncreases(k: nat)
    requires k < FRAME_LEN
    ensures Tri(k) < Tri(k + 1)
  {
    TriValue(k);
    TriValue(k + 1);
    TriangleStep(k);
  }

  lemma {:induction false} TriMonotone(j: nat, k: nat)
    requires j < k <= FRAME_LEN
    ensures Tri(j) < Tri(k)
  {
    TriIncreases(k - 1);
    if j < k - 1 {
      TriMonotone(j, k - 1);
    }
  }

  lemma {:induction false} CountInRange(total: nat)
    requires total <= FRAME_LEN
    ensures Tri(total) <= Tri(FRAME_LEN) <= 13521
    ensures (if total > 0 then Tri(total - 1) else 0) < Tri(total)
  {
    TriValue(FRAME_LEN);
    TriValue(total);
    if total > 0 {
      TriIncreases(total - 1);
    }
    if total < FRAME_LEN {
      TriMonotone(total, FRAME_LEN);
    }
  }

  ghost function CountSymbol(total: nat): (s: Symbol)
    requires total <= FRAME_LEN
  {
    CountInRange(total);
    Freq(if total > 0 then Tri(total - 1) else 0, Tri(total), Tri(FRAME_LEN))
  }

  // ------------------------------------------------------------------- split

  /** How many of the frame's pulses fall in its first two subframes. */
  ghost function HalfTape(cc: CcTables, first: nat, second: nat): Tape
    requires cc.Valid() && first <= 80 && second <= 80
  {
    var total := first + second;
    var lo := Max(total - 80, 0);
    if lo < total - lo then Then(CdfSymbol(cc.SplitWindow(total, 0, total - lo - lo + 2), first - lo), End) else End
  }

  /** How many of one half's pulses fall in its first subframe. */
  ghost function QuarterTape(cc: CcTables, a: nat, b: nat): Tape
    requires cc.Valid() && a <= 40 && b <= 40
  {
    var count := a + b;
    var lo, least := Min(40, count), Max(count - 40, 0);
    if least < lo then Then(CdfSymbol(cc.SplitWindow(count, least, lo - least + 2), a - least), End) else End
  }

  /** How c0 + c1 + c2 + c3 pulses are split over the four subframes. */
  ghost function SplitTape(cc: CcTables, c0: nat, c1: nat, c2: nat, c3: nat): Tape
    requires cc.Valid() && c0 <= 40 && c1 <= 40 && c2 <= 40 && c3 <= 40
  {
    Cat(HalfTape(cc, c0 + c1, c2 + c3), Cat(QuarterTape(cc, c0, c1), QuarterTape(cc, c2, c3)))
  }

  // -------------------------------------------------------------- magnitudes

  /** From the k-th on, every run fits in the samples that the runs before it left. */
  ghost predicate GoodRuns(runs: seq<int>, k: nat, pos: int)
    requires k <= |runs|
    decreases |runs| - k
  {
    1 <= pos <= POS_PER && (k == |runs| || (0 <= runs[k] < pos && GoodRuns(runs, k + 1, pos - runs[k])))
  }

  ghost function MagTape(cc: CcTables, runs: seq<int>, k: nat, pos: int): Tape
    requires cc.Valid() && k <= |runs| <= MAX_PER_SF && GoodRuns(runs, k, pos)
    decreases |runs| - k
  {
    if k == |runs| then End
    else Then(CdfSymbol(cc.RunWindow(pos, |runs| - k), runs[k]), MagTape(cc, runs, k + 1, pos - runs[k]))
  }

  lemma {:induction false} SortedRunsFit(base: int, u: seq<int>, k: nat)
    requires k <= |u| && SortedIn(u, base, base + POS_PER)
    ensures GoodRuns(Diffs(base, u), k, POS_PER - (if k == 0 then 0 else u[k - 1] - base))
    decreases |u| - k
  {
    if k < |u| {
      SortedRunsFit(base, u, k + 1);
    }
  }

  /** A vector the split tables can describe: at most 40 pulses per subframe. */
  ghost predicate Encodable(v: seq<int>) {
    && |v| == SUBFRAMES * POS_PER
    && forall sf :: 0 <= sf < SUBFRAMES ==> Count(v, sf) <= MAX_PER_SF
  }

  lemma {:induction false} EncodableWhen(v: seq<int>)
    ensures Encodable(v) <==>
              |v| == 320 && AbsSum(v[..80]) <= 40 && AbsSum(v[80..160]) <= 40 && AbsSum(v[160..240]) <= 40
              && AbsSum(v[240..]) <= 40
  {
    hide AbsSum;
    if |v| == 320 {
      assert Subframe(v, 0) == v[..80] && Subframe(v, 1) == v[80..160];
      assert Subframe(v, 2) == v[160..240] && Subframe(v, 3) == v[240..];
      assert (forall sf :: 0 <= sf < SUBFRAMES ==> Count(v, sf) <= MAX_PER_SF)
          <==> Count(v, 0) <= 40 && Count(v, 1) <= 40 && Count(v, 2) <= 40 && Count(v, 3) <= 40;
    }
  }

  ghost function Count(v: seq<int>, sf: nat): nat
    requires |v| == SUBFRAMES * POS_PER && sf < SUBFRAMES
  {
    AbsSum(Subframe(v, sf))
  }

  lemma {:induction false} SubRunsFit(v: seq<int>, sf: nat)
    requires Encodable(v) && sf < SUBFRAMES
    ensures GoodRuns(SubRuns(v, sf), 0, POS_PER) && |SubRuns(v, sf)| == Count(v, sf) <= MAX_PER_SF
  {
    UnitsSorted(Subframe(v, sf), sf * POS_PER);
    SortedRunsFit(sf * POS_PER, Units(Subframe(v, sf), sf * POS_PER), 0);
  }

  /** The run lengths of the four subframes, each coded from a full subframe. */
  ghost predicate GoodLists(rs: seq<seq<int>>) {
    |rs| == SUBFRAMES && forall sf :: 0 <= sf < SUBFRAMES ==> |rs[sf]| <= MAX_PER_SF && GoodRuns(rs[sf], 0, POS_PER)
  }

  lemma {:induction false} ListsOfVector(v: seq<int>)
    requires Encodable(v)
    ensures GoodLists(Lists(v))
    ensures forall sf :: 0 <= sf < SUBFRAMES ==> |Lists(v)[sf]| == Count(v, sf)
  {
    forall sf | 0 <= sf < SUBFRAMES
      ensures |Lists(v)[sf]| == Count(v, sf) <= MAX_PER_SF && GoodRuns(Lists(v)[sf], 0, POS_PER)
    {
      SubRunsFit(v, sf);
    }
  }

  /** Magnitudes of subframes sf, sf + 1, ... */
  ghost function MagTapes(cc: CcTables, rs: seq<seq<int>>, sf: nat): Tape
    requires cc.Valid() && GoodLists(rs) && sf <= SUBFRAMES
    decreases SUBFRAMES - sf
  {
    if sf == SUBFRAMES then End else Cat(MagTape(cc, rs[sf], 0, POS_PER), MagTapes(cc, rs, sf + 1))
  }

  // ------------------------------------------------------------------- signs

  ghost predicate GoodSyms(syms: seq<RawSym>) {
    forall k :: 0 <= k < |syms| ==> syms[k].nbits <= 15 && syms[k].sym < Pow2(syms[k].nbits)
  }

  ghost function SignTape(syms: seq<RawSym>, k: nat): Tape
    requires GoodSyms(syms) && k <= |syms|
    decreases |syms| - k
  {
    if k == |syms| then End else Then(RawSymbol(syms[k].sym, syms[k].nbits), SignTape(syms, k + 1))
  }

  lemma {:induction false} PackedSymsFit(signs: seq<int>)
    ensures GoodSyms(PackSigns(signs))
    decreases |signs|
  {
    if signs != [] {
      var n := if |signs| < 15 then |signs| else 15;
      PackBound(signs[..n]);
      PackedSymsFit(signs[n..]);
    }
  }

  // -------------------------------------------------------------- whole tape

  ghost function Total(v: seq<int>): nat
    requires |v| == SUBFRAMES * POS_PER
  {
    Count(v, 0) + Count(v, 1) + Count(v, 2) + Count(v, 3)
  }

  ghost function BodyTape(cc: CcTables, v: seq<int>): Tape
    requires cc.Valid() && Encodable(v)
  {
    PackedSymsFit(Signs(v));
    ListsOfVector(v);
    Cat(SplitTape(cc, Count(v, 0), Count(v, 1), Count(v, 2), Count(v, 3)),
        Cat(MagTapes(cc, Lists(v), 0), SignTape(PackSigns(Signs(v)), 0)))
  }

  ghost function PulseTape(cc: CcTables, v: seq<int>): Tape
    requires cc.Valid() && Encodable(v)
  {
    Then(CountSymbol(Total(v)), if Total(v) == 0 then End else BodyTape(cc, v))
  }
}
