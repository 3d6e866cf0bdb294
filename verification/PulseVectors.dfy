/** A signed pulse vector as run lengths and packed signs: smplBuildPulseParams
(internal/voip/codec/mlow/analysis.go, lines 532-609).

The reference view of a vector is the list of its unit pulses, each position repeated
as often as its magnitude. Run-length symbols are the first differences of that list,
so a reader that counts repeats recovers positions and magnitudes. */
module PulseVectors {
  import opened Words
  import opened Helpers
  import opened CodingInterval

  const POS_PER := 80      // samples of one subframe
  const SUBFRAMES := 4

  datatype RawSym = RawSym(sym: nat, nbits: nat)

  datatype PulseParams = PulseParams(total: nat, subfr: seq<nat>, magRuns: seq<nat>, signSyms: seq<RawSym>)

  ghost function AbsSum(v: seq<int>): nat {
    if v == [] then 0 else AbsSum(v[..|v| - 1]) + Abs(v[|v| - 1])
  }

  /** u followed by n copies of x. */
  ghost function Grow(u: seq<int>, x: int, n: nat): (r: seq<int>)
    ensures |r| == |u| + n
  {
    if n == 0 then u else Grow(u, x, n - 1) + [x]
  }

  /** Unit pulses of v, whose first sample sits at absolute position base. */
  ghost function Units(v: seq<int>, base: int): (u: seq<int>)
    ensures |u| == AbsSum(v)
  {
    if v == [] then []
    else Grow(Units(v[..|v| - 1], base), base + |v| - 1, Abs(v[|v| - 1]))
  }

  /** All of u lies in [lo, hi), in nondecreasing order. */
  ghost predicate SortedIn(u: seq<int>, lo: int, hi: int) {
    && (forall k :: 0 <= k < |u| ==> lo <= u[k] < hi)
    && (forall j, k :: 0 <= j < k < |u| ==> u[j] <= u[k])
  }

  lemma {:induction false} GrowSorted(u: seq<int>, lo: int, hi: int, x: int, n: nat)
    requires SortedIn(u, lo, x) && lo <= x < hi
    ensures SortedIn(Grow(u, x, n), lo, hi)
    ensures n > 0 ==> Grow(u, x, n)[|u| + n - 1] == x
  {
    if n > 0 {
      GrowSorted(u, lo, hi, x, n - 1);
      GrowBelow(u, lo, x, n - 1);
    }
  }

  lemma {:induction false} GrowBelow(u: seq<int>, lo: int, x: int, n: nat)
    requires SortedIn(u, lo, x)
    ensures forall k :: 0 <= k < |u| + n ==> Grow(u, x, n)[k] <= x
  {
    if n > 0 {
      GrowBelow(u, lo, x, n - 1);
    }
  }

  lemma {:induction false} UnitsSorted(v: seq<int>, base: int)
    ensures SortedIn(Units(v, base), base, base + |v|)
  {
    if v != [] {
      UnitsSorted(v[..|v| - 1], base);
      GrowSorted(Units(v[..|v| - 1], base), base, base + |v|, base + |v| - 1, Abs(v[|v| - 1]));
    }
  }

  ghost function Last(u: seq<int>, prev: int): int {
    if u == [] then prev else u[|u| - 1]
  }

  /** First differences, the first one taken from prev. */
  ghost function Diffs(prev: int, u: seq<int>): (d: seq<int>)
    ensures |d| == |u|
  {
    seq(|u|, k requires 0 <= k < |u| => u[k] - (if k == 0 then prev else u[k - 1]))
  }

  /** One sign per non-zero sample, in order. */
  ghost function Signs(v: seq<int>): seq<int> {
    if v == [] then []
    else if v[|v| - 1] == 0 then Signs(v[..|v| - 1])
    else Signs(v[..|v| - 1]) + [if v[|v| - 1] < 0 then -1 else 1]
  }

  ghost function Subframe(v: seq<int>, sf: nat): seq<int>
    requires |v| == SUBFRAMES * POS_PER && sf < SUBFRAMES
  {
    v[sf * POS_PER..(sf + 1) * POS_PER]
  }

  ghost function SubRuns(v: seq<int>, sf: nat): seq<int>
    requires |v| == SUBFRAMES * POS_PER && sf < SUBFRAMES
  {
    Diffs(sf * POS_PER, Units(Subframe(v, sf), sf * POS_PER))
  }

  /** Lists joined up to the n-th. */
  ghost function Flat(rs: seq<seq<int>>, n: nat): seq<int>
    requires n <= |rs|
  {
    if n == 0 then [] else Flat(rs, n - 1) + rs[n - 1]
  }

  ghost function Lists(v: seq<int>): (rs: seq<seq<int>>)
    requires |v| == SUBFRAMES * POS_PER
    ensures |rs| == SUBFRAMES
  {
    seq(SUBFRAMES, sf requires 0 <= sf < SUBFRAMES => SubRuns(v, sf))
  }

  // ------------------------------------------------------------- sign packing

  /** Most significant bit first, one bit per positive sign. */
  ghost function PackBits(signs: seq<int>): nat {
    if signs == [] then 0
    else 2 * PackBits(signs[..|signs| - 1]) + (if signs[|signs| - 1] > 0 then 1 else 0)
  }

  ghost function PackSigns(signs: seq<int>): seq<RawSym>
    decreases |signs|
  {
    if signs == [] then []
    else
      var n := if |signs| < 15 then |signs| else 15;
      [RawSym(PackBits(signs[..n]), n)] + PackSigns(signs[n..])
  }

  /** The parameters that describe v. */
  ghost predicate Describes(pp: PulseParams, v: seq<int>)
    requires |v| == SUBFRAMES * POS_PER
  {
    && |pp.subfr| == SUBFRAMES
    && (forall sf :: 0 <= sf < SUBFRAMES ==> pp.subfr[sf] == AbsSum(Subframe(v, sf)))
    && pp.total == pp.subfr[0] + pp.subfr[1] + pp.subfr[2] + pp.subfr[3]
    && pp.magRuns == Flat(Lists(v), SUBFRAMES)
    && pp.signSyms == PackSigns(Signs(v))
  }

  // ------------------------------------------------------------ lemmas

  lemma {:induction false} SnocSlice(v: seq<int>, lo: nat, n: nat)
    requires lo <= n < |v|
    ensures v[lo..n + 1] != [] && v[lo..n + 1][..|v[lo..n + 1]| - 1] == v[lo..n]
    ensures v[lo..n + 1][n - lo] == v[n]
  {
  }

  /** One more sample: the two branches of the builder's loop. */
  lemma {:induction false} OneMoreSample(v: seq<int>, lo: nat, n: nat)
    requires lo <= n < |v|
    ensures Units(v[lo..n + 1], lo) == Grow(Units(v[lo..n], lo), n, Abs(v[n]))
    ensures Signs(v[lo..n + 1])
         == if v[n] == 0 then Signs(v[lo..n]) else Signs(v[lo..n]) + [if v[n] < 0 then -1 else 1]
    ensures v[n] != 0 ==> Last(Units(v[lo..n + 1], lo), lo) == n
    ensures lo <= Last(Units(v[lo..n], lo), lo) <= n
  {
    SnocSlice(v, lo, n);
    UnitsSorted(v[lo..n], lo);
    GrowSorted(Units(v[lo..n], lo), lo, n + 1, n, Abs(v[n]));
  }

  lemma {:induction false} DiffsAppend(prev: int, u: seq<int>, x: int)
    ensures Diffs(prev, u + [x]) == Diffs(prev, u) + [x - Last(u, prev)]
  {
  }

  /** A repeated position adds its distance once and then zeros. */
  lemma {:induction false} DiffsOfGrow(prev: int, u: seq<int>, x: int, n: nat)
    requires n > 0
    ensures Diffs(prev, Grow(u, x, n)) == Grow(Diffs(prev, u) + [x - Last(u, prev)], 0, n - 1)
    ensures Last(Grow(u, x, n), prev) == x
  {
    if n == 1 {
      DiffsAppend(prev, u, x);
    } else {
      DiffsOfGrow(prev, u, x, n - 1);
      DiffsAppend(prev, Grow(u, x, n - 1), x);
    }
  }

  // ------------------------------------------------------------ the builder

  method CountSubframe(pulse: seq<int>, sf: nat) returns (s: nat)
    requires |pulse| == SUBFRAMES * POS_PER && sf < SUBFRAMES
    ensures s == AbsSum(Subframe(pulse, sf))
  {
    s := 0;
    for n := sf * POS_PER to (sf + 1) * POS_PER
      invariant s == AbsSum(pulse[sf * POS_PER..n])
    {
      SnocSlice(pulse, sf * POS_PER, n);
      var a := pulse[n];
      if a < 0 {
        a := -a;
      }
      s := s + a;
    }
  }

  /** The symbols of one sample of magnitude mag: its distance, then mag - 1 repeats. */
  method AppendRun(runs: seq<nat>, m: nat, mag: nat) returns (r: seq<nat>)
    requires mag > 0
    ensures r == Grow(runs + [m], 0, mag - 1)
  {
    r := runs + [m];
    for k := 0 to mag - 1
      invariant r == Grow(runs + [m], 0, k)
    {
      r := r + [0];
    }
  }

  /** The builder's state after a prefix of one subframe. */
  ghost predicate Scanned(prefix: seq<int>, base: int, runs: seq<int>, runPos: int, signs: seq<int>) {
    var u := Units(prefix, base);
    runs == Diffs(base, u) && runPos == Last(u, base) && signs == Signs(prefix)
  }

  lemma {:induction false} ScanZero(v: seq<int>, lo: nat, n: nat, runs: seq<int>, runPos: int, signs: seq<int>)
    requires lo <= n < |v| && v[n] == 0 && Scanned(v[lo..n], lo, runs, runPos, signs)
    ensures Scanned(v[lo..n + 1], lo, runs, runPos, signs)
  {
    OneMoreSample(v, lo, n);
  }

  lemma {:induction false} ScanPulse(v: seq<int>, lo: nat, n: nat, runs: seq<int>, runPos: int, signs: seq<int>)
    requires lo <= n < |v| && v[n] != 0 && Scanned(v[lo..n], lo, runs, runPos, signs)
    ensures lo <= runPos <= n
    ensures Scanned(v[lo..n + 1], lo, Grow(runs + [n - runPos], 0, Abs(v[n]) - 1), n,
                    signs + [if v[n] < 0 then -1 else 1])
  {
    OneMoreSample(v, lo, n);
    DiffsOfGrow(lo, Units(v[lo..n], lo), n, Abs(v[n]));
  }

  lemma {:induction false} NoneScanned(base: int)
    ensures Scanned([], base, [], base, [])
  {
  }

  method RunsOfSubframe(pulse: seq<int>, sf: nat) returns (runs: seq<nat>, signs: seq<int>)
    requires |pulse| == SUBFRAMES * POS_PER && sf < SUBFRAMES
    ensures runs == SubRuns(pulse, sf)
    ensures signs == Signs(Subframe(pulse, sf))
  {
    hide Signs, Units, Diffs, Grow;
    var base := sf * POS_PER;
    NoneScanned(base);
    assert pulse[base..base] == [];
    var runPos := base;
    var first := true;
    runs, signs := [], [];
    for n := base to base + POS_PER
      invariant first ==> runPos == base
      invariant Scanned(pulse[base..n], base, runs, runPos, signs)
    {
      if pulse[n] == 0 {
        ScanZero(pulse, base, n, runs, runPos, signs);
        continue;
      }
      ScanPulse(pulse, base, n, runs, runPos, signs);
      var m: nat := if first then n - base else n - runPos;
      runs := AppendRun(runs, m, Abs(pulse[n]));
      runPos := n;
      signs := signs + [if pulse[n] < 0 then -1 else 1];
      first := false;
    }
  }

  lemma {:induction false} EmptySubframe(v: seq<int>, base: int)
    requires AbsSum(v) == 0
    ensures Units(v, base) == [] && Signs(v) == []
  {
    if v != [] {
      EmptySubframe(v[..|v| - 1], base);
    }
  }

  lemma {:induction false} SignsAppend(a: seq<int>, b: seq<int>)
    ensures Signs(a + b) == Signs(a) + Signs(b)
  {
    if b == [] {
      assert a + b == a;
    } else {
      SignsAppend(a, b[..|b| - 1]);
      assert (a + b)[..|a + b| - 1] == a + b[..|b| - 1];
    }
  }

  lemma {:induction false} SignsOfSubframe(v: seq<int>, sf: nat)
    requires |v| == SUBFRAMES * POS_PER && sf < SUBFRAMES
    ensures Signs(v[..(sf + 1) * POS_PER]) == Signs(v[..sf * POS_PER]) + Signs(Subframe(v, sf))
  {
    SignsAppend(v[..sf * POS_PER], Subframe(v, sf));
    assert v[..(sf + 1) * POS_PER] == v[..sf * POS_PER] + Subframe(v, sf);
  }

  lemma {:induction false} PackBound(signs: seq<int>)
    ensures PackBits(signs) < Pow2(|signs|)
  {
    if signs != [] {
      PackBound(signs[..|signs| - 1]);
    }
  }

  lemma {:induction false} DoubleAndAdd(x: nat, bit: nat, t: nat)
    ensures (2 * x + bit) * t == x * (2 * t) + bit * t
  {
  }

  lemma {:induction false} PackSnoc(signs: seq<int>, p: nat, q: nat)
    requires p <= q < |signs|
    ensures PackBits(signs[p..q + 1]) == 2 * PackBits(signs[p..q]) + (if signs[q] > 0 then 1 else 0)
  {
    SnocSlice(signs, p, q);
  }

  lemma {:induction false} NoBits()
    ensures PackBits([]) == 0
  {
  }

  /** Packs one group of at most 15 signs, most significant bit first. */
  method PackGroup(signs: seq<int>, p: nat, nbits: nat) returns (sym: nat)
    requires p + nbits <= |signs|
    ensures sym == PackBits(signs[p..p + nbits])
  {
    hide PackBits;
    NoBits();
    assert signs[p..p + 0] == [];
    sym := 0;
    for q := 0 to nbits
      invariant sym == PackBits(signs[p..p + q]) * Pow2(nbits - q)
    {
      PackSnoc(signs, p, p + q);
      var bit := if signs[p + q] > 0 then 1 else 0;
      DoubleAndAdd(PackBits(signs[p..p + q]), bit, Pow2(nbits - 1 - q));
      sym := sym + bit * Pow2(nbits - 1 - q);
    }
  }

  lemma {:induction false} NoSigns()
    ensures PackSigns([]) == []
  {
  }

  /** The next group of what is left to pack. */
  lemma {:induction false} PackStep(signs: seq<int>, p: nat, nbits: nat)
    requires p < |signs| && nbits == if |signs| - p < 15 then |signs| - p else 15
    ensures PackSigns(signs[p..]) == [RawSym(PackBits(signs[p..p + nbits]), nbits)] + PackSigns(signs[p + nbits..])
  {
    hide PackBits;
    assert signs[p..][..nbits] == signs[p..p + nbits];
    assert signs[p..][nbits..] == signs[p + nbits..];
  }

  method PackSignSyms(signs: seq<int>) returns (syms: seq<RawSym>)
    ensures syms == PackSigns(signs)
  {
    hide PackBits, PackSigns;
    NoSigns();
    assert signs[0..] == signs;
    syms := [];
    var p := 0;
    while p < |signs|
      invariant p <= |signs|
      invariant syms + PackSigns(signs[p..]) == PackSigns(signs)
    {
      var nbits := if |signs| - p < 15 then |signs| - p else 15;
      var sym := PackGroup(signs, p, nbits);
      PackStep(signs, p, nbits);
      syms := syms + [RawSym(sym, nbits)];
      p := p + nbits;
    }
    assert signs[p..] == [];
  }

  /** smplBuildPulseParams. */
  method BuildPulseParams(pulse: seq<int>) returns (pp: PulseParams)
    requires |pulse| == SUBFRAMES * POS_PER
    ensures Describes(pp, pulse)
  {
    var subfr := [];
    for sf := 0 to SUBFRAMES
      invariant |subfr| == sf
      invariant forall k :: 0 <= k < sf ==> subfr[k] == AbsSum(Subframe(pulse, k))
    {
      var s := CountSubframe(pulse, sf);
      subfr := subfr + [s];
    }
    var magRuns, signs := [], [];
    for sf := 0 to SUBFRAMES
      invariant magRuns == Flat(Lists(pulse), sf)
      invariant signs == Signs(pulse[..sf * POS_PER])
    {
      SignsOfSubframe(pulse, sf);
      if subfr[sf] <= 0 {
        EmptySubframe(Subframe(pulse, sf), sf * POS_PER);
        assert SubRuns(pulse, sf) == [];
        continue;
      }
      var runs, more := RunsOfSubframe(pulse, sf);
      magRuns, signs := magRuns + runs, signs + more;
    }
    assert pulse[..SUBFRAMES * POS_PER] == pulse;
    var signSyms := PackSignSyms(signs);
    pp := PulseParams(subfr[0] + subfr[1] + subfr[2] + subfr[3], subfr, magRuns, signSyms);
  }

  // ------------------------------------------------- reading the symbols back

  /** One more unit pulse at x, where the list ends at or before x. */
  ghost function Bump(r: seq<(int, nat)>, x: int): seq<(int, nat)> {
    if r != [] && r[|r| - 1].0 == x then r[..|r| - 1] + [(x, r[|r| - 1].1 + 1)] else r + [(x, 1)]
  }

  /** Distinct positions of a unit list with their multiplicities. */
  ghost function Rle(u: seq<int>): (r: seq<(int, nat)>)
    ensures u != [] ==> r != [] && r[|r| - 1].0 == u[|u| - 1]
  {
    if u == [] then [] else Bump(Rle(u[..|u| - 1]), u[|u| - 1])
  }

  /** The non-zero samples with their magnitudes. */
  ghost function Entries(v: seq<int>, base: int): seq<(int, nat)> {
    if v == [] then []
    else if v[|v| - 1] == 0 then Entries(v[..|v| - 1], base)
    else Entries(v[..|v| - 1], base) + [(base + |v| - 1, Abs(v[|v| - 1]))]
  }

  lemma {:induction false} RleSnoc(u: seq<int>, x: int)
    ensures Rle(u + [x]) == Bump(Rle(u), x)
  {
    assert (u + [x])[..|u|] == u;
  }

  lemma {:induction false} BumpLast(r: seq<(int, nat)>, x: int, n: nat)
    ensures Bump(r + [(x, n)], x) == r + [(x, n + 1)]
  {
    assert (r + [(x, n)])[..|r|] == r;
  }

  lemma {:induction false} RleOfGrow(u: seq<int>, x: int, n: nat)
    requires n > 0 && (u == [] || u[|u| - 1] != x)
    ensures Rle(Grow(u, x, n)) == Rle(u) + [(x, n)]
  {
    if n == 1 {
      RleSnoc(u, x);
    } else {
      RleOfGrow(u, x, n - 1);
      RleSnoc(Grow(u, x, n - 1), x);
      BumpLast(Rle(u), x, n - 1);
    }
  }

  /** Counting repeats of the unit list recovers positions and magnitudes. */
  lemma {:induction false} RleOfUnits(v: seq<int>, base: int)
    ensures Rle(Units(v, base)) == Entries(v, base)
  {
    hide Grow, Rle;
    if v != [] {
      var u, n, x := Units(v[..|v| - 1], base), base + |v| - 1, v[|v| - 1];
      RleOfUnits(v[..|v| - 1], base);
      UnitsEndBefore(v[..|v| - 1], base);
      if x != 0 {
        RleOfGrow(u, n, Abs(x));
      } else {
        GrowNone(u, n);
      }
    } else {
      RleNone();
    }
  }

  lemma {:induction false} GrowNone(u: seq<int>, x: int)
    ensures Grow(u, x, 0) == u
  {
  }

  lemma {:induction false} RleNone()
    ensures Rle([]) == []
  {
  }

  lemma {:induction false} UnitsEndBefore(v: seq<int>, base: int)
    ensures Units(v, base) != [] ==> Units(v, base)[|Units(v, base)| - 1] < base + |v|
  {
    UnitsSorted(v, base);
  }

  lemma {:induction false} EntriesAppend(a: seq<int>, b: seq<int>, base: int)
    ensures Entries(a + b, base) == Entries(a, base) + Entries(b, base + |a|)
  {
    if b == [] {
      assert a + b == a;
    } else {
      EntriesAppend(a, b[..|b| - 1], base);
      assert (a + b)[..|a + b| - 1] == a + b[..|b| - 1];
    }
  }

  lemma {:induction false} EntriesSigns(v: seq<int>)
    ensures |Entries(v, 0)| == |Signs(v)|
    ensures forall i :: 0 <= i < |Signs(v)| ==>
              var (pos, mag) := Entries(v, 0)[i];
              && 0 <= pos < |v| && v[pos] != 0 && v[pos] == mag * Signs(v)[i]
              && |Signs(v[..pos])| == i
  {
    if v != [] {
      var w := v[..|v| - 1];
      EntriesSigns(w);
      forall i | 0 <= i < |Signs(w)|
        ensures var (pos, mag) := Entries(v, 0)[i]; 0 <= pos < |w| && v[..pos] == w[..pos]
      {
        var (pos, mag) := Entries(w, 0)[i];
      }
    }
  }

  /** The sample of rank i is entry i. */
  lemma {:induction false} EntryOfSample(v: seq<int>, n: nat)
    requires n < |v| && v[n] != 0
    ensures |Signs(v[..n])| < |Entries(v, 0)| && Entries(v, 0)[|Signs(v[..n])|].0 == n
  {
    var w := v[..|v| - 1];
    EntriesSigns(w);
    if n < |v| - 1 {
      EntryOfSample(w, n);
      assert w[..n] == v[..n];
    }
  }

  lemma {:induction false} FieldValue(signs: seq<int>, q: nat)
    requires q < |signs| <= 15
    ensures PackBits(signs) * Pow2(16 - |signs| + q) / 32768 == PackBits(signs[..q + 1])
  {
    var a, b, k := signs[..q + 1], signs[q + 1..], 16 - |signs| + q;
    assert signs == a + b;
    PackConcat(a, b);
    PackBound(b);
    assert |b| + k == 15;
    assert Pow2(|b|) * Pow2(k) == 32768 by {
      Pow2Product(|b|, k);
      Pow2Fifteen();
    }
    AlignedField(PackBits(signs), PackBits(a), PackBits(b), Pow2(|b|), Pow2(k));
  }

  /** Bit q of a group, read at bit 15 of the left-aligned field. */
  lemma {:induction false} BitOfGroup(signs: seq<int>, q: nat, field: nat)
    requires q < |signs| <= 15 && field == PackBits(signs) * Pow2(16 - |signs| + q)
    ensures (field / 32768) % 2 == (if signs[q] > 0 then 1 else 0)
  {
    FieldValue(signs, q);
    LastBit(signs, q, field / 32768);
  }

  lemma {:induction false} LastBit(signs: seq<int>, q: nat, x: nat)
    requires q < |signs| && x == PackBits(signs[..q + 1])
    ensures x % 2 == (if signs[q] > 0 then 1 else 0)
  {
    PackSnoc(signs, 0, q);
    assert signs[0..q + 1] == signs[..q + 1];
  }

  lemma {:induction false} Pow2Fifteen()
    ensures Pow2(15) == 32768
  {
    assert Pow2(8) == 256;
  }

  lemma {:induction false} AlignedField(x: nat, hi: nat, lo: nat, unit: nat, shift: nat)
    requires x == hi * unit + lo && lo < unit && unit * shift == 32768
    ensures x * shift / 32768 == hi
  {
    assert x * shift == hi * (unit * shift) + lo * shift;
    assert lo * shift + shift == (lo + 1) * shift;
    MulMono(lo + 1, unit, shift);
    assert 0 <= lo * shift < 32768;
  }

  lemma {:induction false} PackConcat(a: seq<int>, b: seq<int>)
    ensures PackBits(a + b) == PackBits(a) * Pow2(|b|) + PackBits(b)
  {
    hide PackBits;
    if b == [] {
      assert a + b == a;
      NoBits();
    } else {
      var c := b[..|b| - 1];
      PackConcat(a, c);
      PackLast(b);
      PackLast(a + b);
      assert (a + b)[..|a + b| - 1] == a + c;
      ShiftIn(PackBits(a), Pow2(|c|), PackBits(c), if b[|b| - 1] > 0 then 1 else 0);
    }
  }

  lemma {:induction false} PackLast(s: seq<int>)
    requires s != []
    ensures PackBits(s) == 2 * PackBits(s[..|s| - 1]) + if s[|s| - 1] > 0 then 1 else 0
  {
  }

  lemma {:induction false} ShiftIn(x: nat, t: nat, y: nat, bit: nat)
    ensures 2 * (x * t + y) + bit == x * (2 * t) + (2 * y + bit)
  {
  }

  // --------------------------------------- parameters determine the vector

  lemma {:induction false} FlatFixes(a: seq<seq<int>>, b: seq<seq<int>>, n: nat)
    requires n <= |a| && n <= |b| && Flat(a, n) == Flat(b, n)
    requires forall k :: 0 <= k < n ==> |a[k]| == |b[k]|
    ensures forall k :: 0 <= k < n ==> a[k] == b[k]
  {
    if n > 0 {
      var m := |Flat(a, n - 1)|;
      assert |Flat(a, n)| == m + |a[n - 1]| && |Flat(b, n)| == |Flat(b, n - 1)| + |b[n - 1]|;
      assert Flat(a, n)[..m] == Flat(a, n - 1) && Flat(b, n)[..m] == Flat(b, n - 1);
      assert Flat(a, n)[m..] == a[n - 1] && Flat(b, n)[m..] == b[n - 1];
      FlatFixes(a, b, n - 1);
    }
  }

  lemma {:induction false} DiffsFix(prev: int, a: seq<int>, b: seq<int>, n: nat)
    requires Diffs(prev, a) == Diffs(prev, b) && n <= |a| == |b|
    ensures forall k :: 0 <= k < n ==> a[k] == b[k]
  {
    if n > 0 {
      DiffsFix(prev, a, b, n - 1);
      assert Diffs(prev, a)[n - 1] == Diffs(prev, b)[n - 1];
    }
  }

  /** Equal runs of a subframe come from equal samples, up to sign. */
  lemma {:induction false} RunsFixEntries(v: seq<int>, w: seq<int>, sf: nat)
    requires |v| == |w| == SUBFRAMES * POS_PER && sf < SUBFRAMES && SubRuns(v, sf) == SubRuns(w, sf)
    ensures Entries(Subframe(v, sf), sf * POS_PER) == Entries(Subframe(w, sf), sf * POS_PER)
  {
    hide Units, Entries, Diffs;
    var base := sf * POS_PER;
    var a, b := Units(Subframe(v, sf), base), Units(Subframe(w, sf), base);
    assert |Diffs(base, a)| == |Diffs(base, b)|;
    DiffsFix(base, a, b, |a|);
    assert a == b;
    RleOfUnits(Subframe(v, sf), base);
    RleOfUnits(Subframe(w, sf), base);
  }

  lemma {:induction false} EntriesUpTo(v: seq<int>, w: seq<int>, sf: nat)
    requires |v| == |w| == SUBFRAMES * POS_PER && sf <= SUBFRAMES
    requires forall k :: 0 <= k < sf ==> SubRuns(v, k) == SubRuns(w, k)
    ensures Entries(v[..sf * POS_PER], 0) == Entries(w[..sf * POS_PER], 0)
  {
    hide SubRuns, Entries;
    if sf == 0 {
      assert v[..0] == w[..0];
    } else {
      EntriesUpTo(v, w, sf - 1);
      RunsFixEntries(v, w, sf - 1);
      var lo := (sf - 1) * POS_PER;
      EntriesAppend(v[..lo], Subframe(v, sf - 1), 0);
      EntriesAppend(w[..lo], Subframe(w, sf - 1), 0);
      assert v[..sf * POS_PER] == v[..lo] + Subframe(v, sf - 1);
      assert w[..sf * POS_PER] == w[..lo] + Subframe(w, sf - 1);
    }
  }

  ghost predicate PlusMinus(signs: seq<int>) {
    forall i :: 0 <= i < |signs| ==> signs[i] == 1 || signs[i] == -1
  }

  lemma {:induction false} BitsFix(a: seq<int>, b: seq<int>)
    requires |a| == |b| && PlusMinus(a) && PlusMinus(b) && PackBits(a) == PackBits(b)
    ensures a == b
  {
    if a != [] {
      var n := |a| - 1;
      PackLast(a);
      PackLast(b);
      assert a[n] == b[n];
      BitsFix(a[..n], b[..n]);
      assert a == a[..n] + [a[n]] && b == b[..n] + [b[n]];
    }
  }

  lemma {:induction false} PackFixes(a: seq<int>, b: seq<int>)
    requires |a| == |b| && PlusMinus(a) && PlusMinus(b) && PackSigns(a) == PackSigns(b)
    ensures a == b
    decreases |a|
  {
    hide PackBits;
    if a != [] {
      var n := if |a| < 15 then |a| else 15;
      assert PackSigns(a)[0] == PackSigns(b)[0] && PackSigns(a)[1..] == PackSigns(b)[1..];
      BitsFix(a[..n], b[..n]);
      PackFixes(a[n..], b[n..]);
      assert a == a[..n] + a[n..] && b == b[..n] + b[n..];
    }
  }

  lemma {:induction false} SignsPlusMinus(v: seq<int>)
    ensures PlusMinus(Signs(v))
  {
    if v != [] {
      SignsPlusMinus(v[..|v| - 1]);
    }
  }

  /** Positions with magnitudes, and signs, leave no choice for a sample. */
  lemma {:induction false} SampleFixed(v: seq<int>, w: seq<int>, n: nat)
    requires Entries(v, 0) == Entries(w, 0) && Signs(v) == Signs(w) && n < |v| && n < |w| && v[n] != 0
    ensures w[n] == v[n]
  {
    hide Entries, Signs;
    EntryOfSample(v, n);
    var i := |Signs(v[..n])|;
    EntriesSigns(v);
    EntriesSigns(w);
    var (pos, mag) := Entries(v, 0)[i];
  }

  /** No two vectors have the same parameters, whatever their magnitudes. */
  lemma {:induction false} DescribesOne(pp: PulseParams, v: seq<int>, w: seq<int>)
    requires |v| == |w| == 320 && Describes(pp, v) && Describes(pp, w)
    ensures v == w
  {
    hide SubRuns, Signs, PackSigns, Entries, Flat;
    forall sf | 0 <= sf < SUBFRAMES ensures |Lists(v)[sf]| == |Lists(w)[sf]| {
      RunCount(v, sf);
      RunCount(w, sf);
    }
    FlatFixes(Lists(v), Lists(w), SUBFRAMES);
    forall sf | 0 <= sf < SUBFRAMES ensures SubRuns(v, sf) == SubRuns(w, sf) {
      assert Lists(v)[sf] == Lists(w)[sf];
    }
    EntriesUpTo(v, w, SUBFRAMES);
    assert v[..SUBFRAMES * POS_PER] == v && w[..SUBFRAMES * POS_PER] == w;
    EntriesSigns(v);
    EntriesSigns(w);
    SignsPlusMinus(v);
    SignsPlusMinus(w);
    PackFixes(Signs(v), Signs(w));
    forall n | 0 <= n < |v| ensures v[n] == w[n] {
      if v[n] != 0 {
        SampleFixed(v, w, n);
      } else if w[n] != 0 {
        SampleFixed(w, v, n);
      }
    }
  }

  lemma {:induction false} RunCount(v: seq<int>, sf: nat)
    requires |v| == SUBFRAMES * POS_PER && sf < SUBFRAMES
    ensures |SubRuns(v, sf)| == AbsSum(Subframe(v, sf))
  {
  }
}
