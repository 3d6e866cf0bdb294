/** The recursive mixed-radix transform of internal/voip/codec/mlow/fft.go, lines 24-202, with
its prebuilt twiddle tables and its carved scratch arena. */
module Fft {
  import opened Helpers
  import opened Dft

  // ------------------------------------------------------- smallest factor

  /** Least divisor of n that is at least d, for d up to n. */
  ghost function LeastFrom(n: nat, d: nat): (p: nat)
    requires 2 <= d <= n
    ensures d <= p <= n && n % p == 0 && forall e :: d <= e < p ==> n % e != 0
    decreases n - d
  {
    if n % d == 0 then d else LeastFrom(n, d + 1)
  }

  /** The smallest prime factor. */
  ghost function Factor(n: nat): (p: nat)
    requires n >= 2
    ensures 2 <= p <= n && n % p == 0 && forall e :: 2 <= e < p ==> n % e != 0
  {
    LeastFrom(n, 2)
  }

  lemma {:induction false} LeastIsFactor(n: nat, p: nat)
    requires 2 <= p <= n && n % p == 0 && forall e :: 2 <= e < p ==> n % e != 0
    ensures p == Factor(n)
  {
  }

  lemma {:induction false} EvenDivisor(n: nat, e: nat)
    requires e > 0 && n % (2 * e) == 0
    ensures n % 2 == 0
  {
    var q := n / (2 * e);
    assert n == 2 * e * q;
    assert n == 2 * (e * q);
  }

  /** A divisor above the square root comes with one below it. */
  lemma {:induction false} Cofactor(n: nat, p: nat, e: nat)
    requires 2 <= p <= e < n && n < p * p && n % e == 0
    ensures 2 <= n / e < p && n % (n / e) == 0
  {
    var d := n / e;
    assert n == e * d;
    if d >= p {
      Products(p, e, d);
    }
    if d <= 1 {
      AtMostOnce(e, d);
    }
    Quotient(n, d, e, 0);
  }

  lemma {:induction false} AtMostOnce(e: nat, d: nat)
    requires d <= 1
    ensures e * d <= e
  {
    if d == 0 {
      assert e * d == 0;
    }
  }

  lemma {:induction false} Products(p: nat, e: nat, d: nat)
    requires p <= e && p <= d
    ensures e * d >= p * p
  {
    assert e * d >= p * d;
    assert p * d >= p * p;
  }

  method SmallestFactor(n: nat) returns (p: nat)
    requires n >= 2
    ensures p == Factor(n)
  {
    if n % 2 == 0 {
      LeastIsFactor(n, 2);
      return 2;
    }
    p := 3;
    while p * p <= n
      invariant 3 <= p && p % 2 == 1
      invariant p <= n
      invariant forall e :: 2 <= e < p ==> n % e != 0
      decreases n - p
    {
      if n % p == 0 {
        LeastIsFactor(n, p);
        return p;
      }
      NextOdd(n, p);
      p := p + 2;
    }
    forall e | 2 <= e < n ensures n % e != 0 {
      if e >= p && n % e == 0 {
        Cofactor(n, p, e);
      }
    }
    LeastIsFactor(n, n);
    p := n;
  }

  lemma {:induction false} NextOdd(n: nat, p: nat)
    requires n % 2 == 1 && p % 2 == 1 && 3 <= p && p * p <= n && n % p != 0
    ensures n % (p + 1) != 0 && p + 2 <= n
  {
    var e := (p + 1) / 2;
    assert p + 1 == 2 * e;
    if n % (2 * e) == 0 {
      EvenDivisor(n, e);
    }
    Products(3, p, p);
    Gap(2, p, p);
  }

  /** The chain of lengths the recursion visits: n, n / Factor(n), ... */
  ghost function Rest(n: nat): (m: nat)
    requires n >= 2
    ensures 1 <= m < n && Factor(n) * m == n && (Factor(n) == n <==> m == 1)
  {
    var p := Factor(n);
    var m := n / p;
    assert n == p * m;
    assert m != 0;
    RestSmaller(p, m);
    m
  }

  lemma {:induction false} RestSmaller(p: nat, m: nat)
    requires p >= 2 && m >= 1
    ensures m < p * m && (p * m == p <==> m == 1)
  {
    Gap(1, p, m);
    if m > 1 {
      Gap(1, m, p);
    }
  }

  // -------------------------------------------------------------------- arena

  ghost function Arena(n: nat): nat {
    if n <= 1 || Factor(n) == n then 0 else n + Arena(Rest(n))
  }

  /** fftArenaLen: enough for one path of the recursion, and never twice the length. */
  method ArenaLen(n: nat) returns (len: nat)
    ensures len == Arena(n) && len <= 2 * n
  {
    if n <= 1 {
      return 0;
    }
    var p := SmallestFactor(n);
    if p == n {
      return 0;
    }
    ghost var m := Rest(n);
    Quotient(n, p, m, 0);
    Gap(1, p, m);
    len := ArenaLen(n / p);
    len := n + len;
  }

  // ----------------------------------------------------------------- twiddles

  /** root(n) stands for the n-th root of unity at angle 2 pi / n, of either sign. */
  datatype Roots<!T(!new)> = Roots(r: Ring<T>, root: nat -> T) {
    /** Along the chain, the root of a shorter length is a power of that of the longer one. */
    ghost predicate Coherent(n: nat) {
      n <= 1 || Factor(n) == n || (Pow(r, root(n), Factor(n)) == root(Rest(n)) && Coherent(Rest(n)))
    }

    ghost predicate Good(n: nat) {
      r.Lawful() && Coherent(n) && Pow(r, root(n), n) == r.one
    }
  }

  lemma {:induction false} GoodRest<T(!new)>(w: Roots<T>, n: nat)
    requires n >= 2 && w.Good(n) && Factor(n) < n
    ensures w.Good(Rest(n)) && Pow(w.r, w.root(n), Factor(n)) == w.root(Rest(n))
  {
    PowMul(w.r, w.root(n), Factor(n), Rest(n));
  }

  datatype TwTab<T> = TwTab(n: nat, tab: seq<T>)
  datatype Twiddles<T> = Twiddles(combine: seq<TwTab<T>>, base: seq<TwTab<T>>)

  function GridRow<T(!new)>(r: Ring<T>, v: T, k: nat, cols: nat): (row: seq<T>)
    ensures |row| == cols && forall q :: 0 <= q < cols ==> row[q] == Pow(r, v, k * q)
  {
    if cols == 0 then [] else GridRow(r, v, k, cols - 1) + [Pow(r, v, k * (cols - 1))]
  }

  /** Row by row, the powers v^(k q). */
  function Grid<T(!new)>(r: Ring<T>, v: T, rows: nat, cols: nat): (tab: seq<T>)
    ensures |tab| == rows * cols
  {
    if rows == 0 then [] else Grid(r, v, rows - 1, cols) + GridRow(r, v, rows - 1, cols)
  }

  lemma {:induction false} GridAt<T(!new)>(r: Ring<T>, v: T, rows: nat, cols: nat, k: nat, q: nat)
    requires k < rows && q < cols
    ensures k * cols + q < rows * cols && Grid(r, v, rows, cols)[k * cols + q] == Pow(r, v, k * q)
    decreases rows
  {
    if k < rows - 1 {
      GridAt(r, v, rows - 1, cols, k, q);
    }
  }

  /** The table for length n: the whole transform if n is prime, one butterfly otherwise. */
  ghost function Tab<T(!new)>(w: Roots<T>, n: nat): TwTab<T>
    requires n >= 2
  {
    TwTab(n, Grid(w.r, w.root(n), n, Factor(n)))
  }

  function Find<T>(tabs: seq<TwTab<T>>, n: nat, i: nat): Option<seq<T>>
    requires i <= |tabs|
    decreases |tabs| - i
  {
    if i == |tabs| then None else if tabs[i].n == n then Some(tabs[i].tab) else Find(tabs, n, i + 1)
  }

  /** Every table the recursion asks for is there, and is the right one. */
  ghost predicate Chain<T(!new)>(w: Roots<T>, tw: Twiddles<T>, n: nat) {
    n <= 1 ||
    if Factor(n) == n then Find(tw.base, n, 0) == Some(Tab(w, n).tab)
    else Find(tw.combine, n, 0) == Some(Tab(w, n).tab) && Chain(w, tw, Rest(n))
  }

  ghost function Combines<T(!new)>(w: Roots<T>, n: nat): seq<TwTab<T>> {
    if n <= 1 || Factor(n) == n then [] else [Tab(w, n)] + Combines(w, Rest(n))
  }

  ghost function Bases<T(!new)>(w: Roots<T>, n: nat): seq<TwTab<T>> {
    if n <= 1 then [] else if Factor(n) == n then [Tab(w, n)] else Bases(w, Rest(n))
  }

  lemma {:induction false} FindPast<T>(pre: seq<TwTab<T>>, e: TwTab<T>, post: seq<TwTab<T>>, i: nat)
    requires i <= |pre| && forall j :: 0 <= j < |pre| ==> pre[j].n != e.n
    ensures Find(pre + ([e] + post), e.n, i) == Some(e.tab)
    decreases |pre| - i
  {
    if i < |pre| {
      FindPast(pre, e, post, i + 1);
    }
  }

  lemma {:induction false} TablesChain<T(!new)>(w: Roots<T>, pre: seq<TwTab<T>>, n: nat)
    requires forall j :: 0 <= j < |pre| ==> pre[j].n > n
    ensures Chain(w, Twiddles(pre + Combines(w, n), Bases(w, n)), n)
    decreases n
  {
    if n > 1 && Factor(n) < n {
      var e, rest := Tab(w, n), Combines(w, Rest(n));
      FindPast(pre, e, rest, 0);
      TablesChain(w, pre + [e], Rest(n));
      assert (pre + [e]) + rest == pre + ([e] + rest);
    } else if n > 1 {
      FindPast([], Tab(w, n), [], 0);
      assert [] + ([Tab(w, n)] + []) == [Tab(w, n)];
    }
  }

  method BuildTable<T(!new)>(r: Ring<T>, v: T, rows: nat, cols: nat) returns (tab: seq<T>)
    ensures tab == Grid(r, v, rows, cols)
  {
    tab := [];
    for k := 0 to rows
      invariant tab == Grid(r, v, k, cols)
    {
      ghost var before := tab;
      for q := 0 to cols
        invariant tab == before + GridRow(r, v, k, q)
      {
        tab := tab + [Pow(r, v, k * q)];
      }
    }
  }

  /** newFFTTwiddles. */
  method NewTwiddles<T(!new)>(w: Roots<T>, top: nat) returns (tw: Twiddles<T>)
    ensures Chain(w, tw, top)
  {
    hide Grid, Find, Chain, Pow;
    var combine: seq<TwTab<T>>, base: seq<TwTab<T>> := [], [];
    var n := top;
    while n > 1
      invariant base == []
      invariant combine + Combines(w, n) == Combines(w, top) && Bases(w, n) == Bases(w, top)
    {
      var p := SmallestFactor(n);
      if p == n {
        var tab := BuildTable(w.r, w.root(n), n, n);
        base := [TwTab(n, tab)];
        break;
      }
      var tab := BuildTable(w.r, w.root(n), n, p);
      ghost var rest := Combines(w, Rest(n));
      assert combine + ([TwTab(n, tab)] + rest) == (combine + [TwTab(n, tab)]) + rest;
      combine := combine + [TwTab(n, tab)];
      Quotient(n, p, Rest(n), 0);
      n := n / p;
    }
    tw := Twiddles(combine, base);
    TablesChain(w, [], top);
    assert [] + Combines(w, top) == combine;
  }

  /** combineFor and baseFor; a missing table would be a panic. */
  method Lookup<T>(tabs: seq<TwTab<T>>, n: nat) returns (tab: seq<T>)
    requires Find(tabs, n, 0).Some?
    ensures Some(tab) == Find(tabs, n, 0)
  {
    var i := 0;
    while tabs[i].n != n
      invariant i < |tabs| && Find(tabs, n, i) == Find(tabs, n, 0)
      decreases |tabs| - i
    {
      i := i + 1;
    }
    tab := tabs[i].tab;
  }

  // ---------------------------------------------------------------- transform

  /** The transform itself: n bins of the first n samples of s. */
  ghost function Spectrum<T(!new)>(w: Roots<T>, s: Strided<T>, n: nat): (f: seq<T>)
    ensures |f| == n && forall k :: 0 <= k < n ==> f[k] == Bin(w.r, s, w.root(n), k, n)
  {
    seq(n, k requires 0 <= k < n => Bin(w.r, s, w.root(n), k, n))
  }

  /** The first q interleaved sub-transforms of length m, one after the other. */
  ghost function Parts<T(!new)>(w: Roots<T>, s: Strided<T>, p: nat, m: nat, q: nat): (f: seq<T>)
    ensures |f| == q * m
  {
    if q == 0 then [] else Parts(w, s, p, m, q - 1) + Spectrum(w, s.Part(p, q - 1), m)
  }

  lemma {:induction false} PartsAt<T(!new)>(w: Roots<T>, s: Strided<T>, p: nat, m: nat, n: nat, q: nat, i: nat)
    requires q < n && i < m
    ensures q * m + i < n * m && Parts(w, s, p, m, n)[q * m + i] == Bin(w.r, s.Part(p, q), w.root(m), i, m)
    decreases n
  {
    if q < n - 1 {
      PartsAt(w, s, p, m, n - 1, q, i);
    }
  }

  ghost predicate Readable<T>(s: Strided<T>, n: nat) {
    n >= 1 && s.off + (n - 1) * s.stride < |s.x|
  }

  lemma {:induction false} SampleInside<T>(s: Strided<T>, n: nat, j: nat)
    requires Readable(s, n) && j < n
    ensures s.off + j * s.stride < |s.x|
  {
    var c := n - 1 - j;
    assert (j + c) * s.stride == j * s.stride + c * s.stride;
  }

  lemma {:induction false} PartReadable<T>(s: Strided<T>, n: nat, p: nat, m: nat, q: nat)
    requires Readable(s, n) && n == p * m && q < p && m >= 1
    ensures Readable(s.Part(p, q), m)
  {
    var t := s.stride;
    Gap(m - 1, m, p);
    assert (m - 1) * p + q < n;
    SampleInside(s, n, (m - 1) * p + q);
    assert ((m - 1) * p + q) * t == (m - 1) * p * t + q * t;
    assert (m - 1) * (t * p) == (m - 1) * p * t;
  }

  /** One bin of a prime-length transform. */
  method BaseBin<T(!new)>(w: Roots<T>, s: Strided<T>, n: nat, k: nat, bt: seq<T>) returns (acc: T)
    requires Readable(s, n) && k < n && bt == Grid(w.r, w.root(n), n, n)
    ensures acc == Bin(w.r, s, w.root(n), k, n)
  {
    acc := w.r.zero;
    var row := k * n;
    for j := 0 to n
      invariant acc == Bin(w.r, s, w.root(n), k, j)
    {
      SampleInside(s, n, j);
      GridAt(w.r, w.root(n), n, n, k, j);
      acc := w.r.add(acc, w.r.mul(s.x[s.off + j * s.stride], bt[row + j]));
    }
  }

  /** One bin of the butterfly, read from the sub-transforms. */
  method CombineBin<T(!new)>(w: Roots<T>, sub: array<T>, so: nat, n: nat, p: nat, m: nat, k: nat, ct: seq<T>,
                               ghost s: Strided<T>)
    returns (acc: T)
    requires w.Good(n) && n >= 2 && p == Factor(n) < n && m == Rest(n) && k < n
    requires so + n <= sub.Length && sub[so..so + n] == Parts(w, s, p, m, p) && ct == Grid(w.r, w.root(n), n, p)
    ensures acc == Bin(w.r, s, w.root(n), k, n)
  {
    hide Grid, Parts, Factor, Rest, Pow, Bin, Roots.Coherent;
    var kmod := k % m;
    acc := w.r.zero;
    var row := k * p;
    GoodRest(w, n);
    for q := 0 to p
      invariant acc == Combined(w.r, s, w.root(n), k, p, m, q)
    {
      PartsAt(w, s, p, m, p, q, kmod);
      GridAt(w.r, w.root(n), n, p, k, q);
      BinPeriodic(w.r, s.Part(p, q), w.root(m), m, k, m);
      assert sub[so + (q * m + kmod)] == sub[so..so + n][q * m + kmod];
      acc := w.r.add(acc, w.r.mul(sub[so + (q * m + kmod)], ct[row + q]));
    }
    CooleyTukey(w.r, s, w.root(n), k, p, m);
  }

  /** What a transform may write: its output, and its arena when that is the same array. */
  predicate Writes(a: int, o: nat, n: nat, same: bool, so: nat, arena: nat) {
    o <= a < o + n || (same && so <= a < so + arena)
  }

  method FftBase<T(!new)>(w: Roots<T>, s: Strided<T>, n: nat, out: array<T>, o: nat, tw: Twiddles<T>)
    requires n >= 2 && Factor(n) == n && Readable(s, n) && Chain(w, tw, n) && o + n <= out.Length
    modifies out
    ensures out[o..o + n] == Spectrum(w, s, n)
    ensures forall a :: 0 <= a < out.Length && !(o <= a < o + n) ==> out[a] == old(out[a])
  {
    hide Grid, Find, Pow, Bin;
    var bt := Lookup(tw.base, n);
    for k := 0 to n
      invariant out[o..o + k] == Spectrum(w, s, n)[..k]
      invariant forall a :: 0 <= a < out.Length && !(o <= a < o + n) ==> out[a] == old(out[a])
    {
      var acc := BaseBin(w, s, n, k, bt);
      out[o + k] := acc;
      assert out[o..o + k + 1] == out[o..o + k] + [acc];
    }
  }

  /** The butterflies: sub-transforms at `so` of `scratch` into the output. */
  method Combine<T(!new)>(w: Roots<T>, n: nat, p: nat, out: array<T>, o: nat, scratch: array<T>, so: nat,
                            tw: Twiddles<T>, ghost s: Strided<T>)
    requires w.Good(n) && n >= 2 && p == Factor(n) < n && Chain(w, tw, n)
    requires o + n <= out.Length && so + n <= scratch.Length && (out == scratch ==> o + n <= so)
    requires scratch[so..so + n] == Parts(w, s, p, Rest(n), p)
    modifies out
    ensures out[o..o + n] == Spectrum(w, s, n)
    ensures forall a :: 0 <= a < out.Length && !(o <= a < o + n) ==> out[a] == old(out[a])
  {
    hide Grid, Parts, Factor, Find, Pow, Bin, Roots.Coherent;
    var ct := Lookup(tw.combine, n);
    ghost var m' := Rest(n);
    Quotient(n, p, m', 0);
    var m := n / p;
    for k := 0 to n
      invariant out[o..o + k] == Spectrum(w, s, n)[..k]
      invariant forall a :: 0 <= a < out.Length && !(o <= a < o + n) ==> out[a] == old(out[a])
      invariant scratch[so..so + n] == Parts(w, s, p, m, p)
    {
      var acc := CombineBin(w, scratch, so, n, p, m, k, ct, s);
      out[o + k] := acc;
      assert out[o..o + k + 1] == out[o..o + k] + [acc];
    }
  }

  /** The p interleaved sub-transforms, side by side in the first n entries of the arena. */
  method SubTransforms<T(!new)>(w: Roots<T>, s: Strided<T>, n: nat, p: nat, scratch: array<T>, so: nat, tw: Twiddles<T>)
    requires w.Good(n) && n >= 2 && p == Factor(n) < n && Readable(s, n) && Chain(w, tw, n)
    requires so + Arena(n) <= scratch.Length
    modifies scratch
    ensures scratch[so..so + n] == Parts(w, s, p, Rest(n), p)
    ensures forall a :: 0 <= a < scratch.Length && !(so <= a < so + Arena(n)) ==> scratch[a] == old(scratch[a])
    decreases n, 0
  {
    hide Spectrum, Find, Tab, Grid, Factor, Pow;
    ghost var m' := Rest(n);
    Quotient(n, p, m', 0);
    var m := n / p;
    GoodRest(w, n);
    for q := 0 to p
      invariant q * m <= n
      invariant scratch[so..so + q * m] == Parts(w, s, p, m, q)
      invariant forall a :: 0 <= a < scratch.Length && !(so <= a < so + Arena(n)) ==> scratch[a] == old(scratch[a])
    {
      PartReadable(s, n, p, m, q);
      Gap(q, p, m);
      assert (q + 1) * m == q * m + m;
      Extend(w, s.Part(p, q), m, scratch, so, q * m, n, tw);
    }
  }

  /** One sub-transform, after the `done` entries that earlier ones filled. */
  method Extend<T(!new)>(w: Roots<T>, s: Strided<T>, m: nat, scratch: array<T>, so: nat, done: nat, n: nat,
                           tw: Twiddles<T>)
    requires w.Good(m) && Readable(s, m) && Chain(w, tw, m) && done + m <= n && so + n + Arena(m) <= scratch.Length
    modifies scratch
    ensures scratch[so..so + (done + m)] == old(scratch[so..so + done]) + Spectrum(w, s, m)
    ensures forall a :: 0 <= a < scratch.Length && !(so <= a < so + (n + Arena(m))) ==> scratch[a] == old(scratch[a])
    decreases m, 2
  {
    hide Chain, Spectrum, Arena, Roots.Good;
    FftRec(w, s, m, scratch, so + done, scratch, so + n, tw);
    assert scratch[so..so + done] == old(scratch[so..so + done]);
    assert scratch[so..so + (done + m)] == scratch[so..so + done] + scratch[so + done..so + done + m];
  }

  /** fftRec: out[o..o + n] becomes the plain transform of the strided input, for every length,
      and the arena of Arena(n) entries that starts at `so` suffices. */
  method FftRec<T(!new)>(w: Roots<T>, s: Strided<T>, n: nat, out: array<T>, o: nat, scratch: array<T>, so: nat,
                            tw: Twiddles<T>)
    requires w.Good(n) && Readable(s, n) && Chain(w, tw, n)
    requires o + n <= out.Length && so + Arena(n) <= scratch.Length && (out == scratch ==> o + n <= so)
    modifies out, scratch
    ensures out[o..o + n] == Spectrum(w, s, n)
    ensures forall a :: 0 <= a < out.Length && !Writes(a, o, n, out == scratch, so, Arena(n)) ==> out[a] == old(out[a])
    ensures forall a :: 0 <= a < scratch.Length && !Writes(a, so, Arena(n), out == scratch, o, n) ==>
              scratch[a] == old(scratch[a])
    decreases n, 1
  {
    if n == 1 {
      out[o] := s.x[s.off];
      OneSample(w, s);
      return;
    }
    var p := SmallestFactor(n);
    if p == n {
      FftBase(w, s, n, out, o, tw);
      return;
    }
    SubTransforms(w, s, n, p, scratch, so, tw);
    Combine(w, n, p, out, o, scratch, so, tw, s);
  }

  lemma {:induction false} OneSample<T(!new)>(w: Roots<T>, s: Strided<T>)
    requires w.r.Lawful() && Readable(s, 1)
    ensures Spectrum(w, s, 1) == [s.x[s.off]]
  {
    var x := s.x[s.off];
    Units(w.r, x);
    assert s.At(w.r.zero, 0) == x;
    assert Bin(w.r, s, w.root(1), 0, 0) == w.r.zero;
  }

  /** cfft with the tables and the arena that newFFTScratch builds: the plain transform, bin by
      bin, for every length. */
  method Cfft<T(!new)>(w: Roots<T>, input: seq<T>, out: array<T>, arena: array<T>)
    requires |input| >= 1 && w.Good(|input|) && out != arena
    requires out.Length == |input| && arena.Length == Arena(|input|)
    modifies out, arena
    ensures forall k :: 0 <= k < |input| ==> out[k] == Bin(w.r, Strided(input, 0, 1), w.root(|input|), k, |input|)
  {
    var tw := NewTwiddles(w, |input|);
    FftRec(w, Strided(input, 0, 1), |input|, out, 0, arena, 0, tw);
    assert forall k :: 0 <= k < |input| ==> out[k] == out[0..0 + |input|][k];
  }
}
