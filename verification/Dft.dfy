/** The plain discrete Fourier transform and the Cooley-Tukey identity, over any commutative
ring with a root of unity. */
module Dft {

  /** A commutative ring, as its operations. Each law is stated for the terms a proof names
      with Law, so that laws take part in a proof only where they are called for. */
  datatype Ring<!T(!new)> = Ring(zero: T, one: T, add: (T, T) -> T, mul: (T, T) -> T) {
    ghost predicate Law(a: T, b: T, c: T) { true }

    ghost predicate Lawful() {
      forall a, b, c {:trigger Law(a, b, c)} :: Law(a, b, c) ==>
        && add(a, b) == add(b, a) && add(add(a, b), c) == add(a, add(b, c)) && add(zero, a) == a
        && mul(a, b) == mul(b, a) && mul(mul(a, b), c) == mul(a, mul(b, c)) && mul(one, a) == a
        && mul(add(a, b), c) == add(mul(a, c), mul(b, c)) && mul(zero, a) == zero
    }
  }

  lemma {:induction false} Laws<T(!new)>(r: Ring<T>, a: T, b: T, c: T)
    requires r.Lawful()
    ensures r.add(a, b) == r.add(b, a) && r.add(r.add(a, b), c) == r.add(a, r.add(b, c))
    ensures r.mul(a, b) == r.mul(b, a) && r.mul(r.mul(a, b), c) == r.mul(a, r.mul(b, c))
    ensures r.mul(r.add(a, b), c) == r.add(r.mul(a, c), r.mul(b, c))
  {
    assert r.Law(a, b, c);
  }

  lemma {:induction false} Units<T(!new)>(r: Ring<T>, a: T)
    requires r.Lawful()
    ensures r.mul(a, r.one) == a && r.mul(r.one, a) == a && r.mul(r.zero, a) == r.zero
    ensures r.add(r.zero, a) == a && r.add(a, r.zero) == a
  {
    assert r.Law(a, r.one, a) && r.Law(a, r.zero, a);
  }

  lemma {:induction false} AddSwap<T(!new)>(r: Ring<T>, a: T, b: T, c: T, d: T)
    requires r.Lawful()
    ensures r.add(r.add(a, b), r.add(c, d)) == r.add(r.add(a, c), r.add(b, d))
  {
    Laws(r, a, b, r.add(c, d));
    Laws(r, b, c, d);
    Laws(r, c, b, d);
    Laws(r, a, c, r.add(b, d));
  }

  // ------------------------------------------------------------------- powers

  function Pow<T(!new)>(r: Ring<T>, v: T, e: nat): T {
    if e == 0 then r.one else r.mul(Pow(r, v, e - 1), v)
  }

  lemma {:induction false} PowAdd<T(!new)>(r: Ring<T>, v: T, a: nat, b: nat)
    requires r.Lawful()
    ensures Pow(r, v, a + b) == r.mul(Pow(r, v, a), Pow(r, v, b))
  {
    if b == 0 {
      Units(r, Pow(r, v, a));
    } else {
      PowAdd(r, v, a, b - 1);
      Laws(r, Pow(r, v, a), Pow(r, v, b - 1), v);
    }
  }

  lemma {:induction false} PowMul<T(!new)>(r: Ring<T>, v: T, a: nat, b: nat)
    requires r.Lawful()
    ensures Pow(r, Pow(r, v, a), b) == Pow(r, v, a * b)
  {
    if b > 0 {
      PowMul(r, v, a, b - 1);
      PowAdd(r, v, a * (b - 1), a);
      assert a * (b - 1) + a == a * b;
    }
  }

  lemma {:induction false} PowOne<T(!new)>(r: Ring<T>, e: nat)
    requires r.Lawful()
    ensures Pow(r, r.one, e) == r.one
  {
    if e > 0 {
      PowOne(r, e - 1);
      Units(r, r.one);
    }
  }

  /** Exponents of an n-th root of unity count modulo n. */
  lemma {:induction false} PowPeriodic<T(!new)>(r: Ring<T>, v: T, n: nat, e: nat, t: nat, f: nat)
    requires r.Lawful() && Pow(r, v, n) == r.one && f == e + n * t
    ensures Pow(r, v, f) == Pow(r, v, e)
  {
    PowAdd(r, v, e, n * t);
    PowMul(r, v, n, t);
    PowOne(r, t);
    Units(r, Pow(r, v, e));
  }

  // ---------------------------------------------------------------- transform

  /** The samples at off, off + stride, off + 2 stride, ... of x. */
  datatype Strided<!T> = Strided(x: seq<T>, off: nat, stride: nat) {
    /** Sample j; zero past the end of x. */
    function At(zero: T, j: nat): T {
      if off + j * stride < |x| then x[off + j * stride] else zero
    }

    /** Every p-th sample, from the q-th on. */
    function Part(p: nat, q: nat): Strided<T> {
      Strided(x, off + q * stride, stride * p)
    }
  }

  ghost function Term<T(!new)>(r: Ring<T>, s: Strided<T>, v: T, k: nat, j: nat): T {
    r.mul(s.At(r.zero, j), Pow(r, v, k * j))
  }

  /** Bin k of the transform of the first n samples. */
  ghost function Bin<T(!new)>(r: Ring<T>, s: Strided<T>, v: T, k: nat, n: nat): T {
    if n == 0 then r.zero else r.add(Bin(r, s, v, k, n - 1), Term(r, s, v, k, n - 1))
  }

  /** The first q of the p interleaved sub-transforms of length m, each turned by v^(k q). */
  ghost function Combined<T(!new)>(r: Ring<T>, s: Strided<T>, v: T, k: nat, p: nat, m: nat, q: nat): T {
    if q == 0 then r.zero
    else r.add(Combined(r, s, v, k, p, m, q - 1),
               r.mul(Bin(r, s.Part(p, q - 1), Pow(r, v, p), k, m), Pow(r, v, k * (q - 1))))
  }

  /** Terms b, ..., b + q - 1 of the long transform. */
  ghost function Block<T(!new)>(r: Ring<T>, s: Strided<T>, v: T, k: nat, b: nat, q: nat): T {
    if q == 0 then r.zero else r.add(Block(r, s, v, k, b, q - 1), Term(r, s, v, k, b + (q - 1)))
  }

  lemma {:induction false} BinSplits<T(!new)>(r: Ring<T>, s: Strided<T>, v: T, k: nat, b: nat, q: nat)
    requires r.Lawful()
    ensures Bin(r, s, v, k, b + q) == r.add(Bin(r, s, v, k, b), Block(r, s, v, k, b, q))
  {
    if q == 0 {
      Units(r, Bin(r, s, v, k, b));
    } else {
      BinSplits(r, s, v, k, b, q - 1);
      Laws(r, Bin(r, s, v, k, b), Block(r, s, v, k, b, q - 1), Term(r, s, v, k, b + (q - 1)));
    }
  }

  lemma {:induction false} PartSample<T>(s: Strided<T>, zero: T, p: nat, m: nat, q: nat)
    ensures s.Part(p, q).At(zero, m) == s.At(zero, p * m + q)
  {
    var stride := s.stride;
    assert m * (stride * p) == p * m * stride;
    assert (p * m + q) * stride == p * m * stride + q * stride;
  }

  lemma {:induction false} TurnExponent(k: nat, p: nat, m: nat, q: nat)
    ensures p * (k * m) + k * q == k * (p * m + q)
  {
    assert k * (p * m + q) == k * (p * m) + k * q;
    assert p * (k * m) == k * (p * m);
  }

  /** Sample m of sub-transform q is sample p m + q of the long one. */
  lemma {:induction false} TermMoves<T(!new)>(r: Ring<T>, s: Strided<T>, v: T, k: nat, p: nat, m: nat, q: nat)
    requires r.Lawful()
    ensures r.mul(Term(r, s.Part(p, q), Pow(r, v, p), k, m), Pow(r, v, k * q)) == Term(r, s, v, k, p * m + q)
  {
    PartSample(s, r.zero, p, m, q);
    TurnExponent(k, p, m, q);
    var x := s.At(r.zero, p * m + q);
    PowMul(r, v, p, k * m);
    Laws(r, x, Pow(r, v, p * (k * m)), Pow(r, v, k * q));
    PowAdd(r, v, p * (k * m), k * q);
  }

  lemma {:induction false} CombinedGrows<T(!new)>(r: Ring<T>, s: Strided<T>, v: T, k: nat, p: nat, m: nat, q: nat)
    requires r.Lawful()
    ensures Combined(r, s, v, k, p, m + 1, q) == r.add(Combined(r, s, v, k, p, m, q), Block(r, s, v, k, p * m, q))
    decreases q
  {
    if q == 0 {
      Units(r, r.zero);
    } else {
      CombinedGrows(r, s, v, k, p, m, q - 1);
      var sub, t := Bin(r, s.Part(p, q - 1), Pow(r, v, p), k, m), Term(r, s.Part(p, q - 1), Pow(r, v, p), k, m);
      var turn := Pow(r, v, k * (q - 1));
      Laws(r, sub, t, turn);
      TermMoves(r, s, v, k, p, m, q - 1);
      AddSwap(r, Combined(r, s, v, k, p, m, q - 1), Block(r, s, v, k, p * m, q - 1), r.mul(sub, turn), r.mul(t, turn));
    }
  }

  lemma {:induction false} CombinedEmpty<T(!new)>(r: Ring<T>, s: Strided<T>, v: T, k: nat, p: nat, q: nat)
    requires r.Lawful()
    ensures Combined(r, s, v, k, p, 0, q) == r.zero
  {
    if q > 0 {
      CombinedEmpty(r, s, v, k, p, q - 1);
      Units(r, Pow(r, v, k * (q - 1)));
      Units(r, r.zero);
    }
  }

  /** Cooley-Tukey: p interleaved transforms of length m give the transform of length p m. */
  lemma {:induction false} CooleyTukey<T(!new)>(r: Ring<T>, s: Strided<T>, v: T, k: nat, p: nat, m: nat)
    requires r.Lawful()
    ensures Bin(r, s, v, k, p * m) == Combined(r, s, v, k, p, m, p)
    decreases m
  {
    if m == 0 {
      CombinedEmpty(r, s, v, k, p, p);
    } else {
      CooleyTukey(r, s, v, k, p, m - 1);
      CombinedGrows(r, s, v, k, p, m - 1, p);
      BinSplits(r, s, v, k, p * (m - 1), p);
      assert p * (m - 1) + p == p * m;
    }
  }

  /** A transform by an m-th root of unity has period m in its bin number. */
  lemma {:induction false} BinPeriodic<T(!new)>(r: Ring<T>, s: Strided<T>, v: T, m: nat, k: nat, n: nat)
    requires r.Lawful() && m > 0 && Pow(r, v, m) == r.one
    ensures Bin(r, s, v, k, n) == Bin(r, s, v, k % m, n)
    decreases n
  {
    if n > 0 {
      BinPeriodic(r, s, v, m, k, n - 1);
      TurnPeriodic(r, v, m, k, n - 1);
    }
  }

  lemma {:induction false} TurnPeriodic<T(!new)>(r: Ring<T>, v: T, m: nat, k: nat, j: nat)
    requires r.Lawful() && m > 0 && Pow(r, v, m) == r.one
    ensures Pow(r, v, k * j) == Pow(r, v, (k % m) * j)
  {
    hide Ring.Lawful, Pow;
    Wraps(k, m, j);
    PowPeriodic(r, v, m, (k % m) * j, (k / m) * j, k * j);
  }

  lemma {:induction false} Wraps(k: nat, m: nat, j: nat)
    requires m > 0
    ensures k * j == (k % m) * j + m * ((k / m) * j)
  {
    var q, r := k / m, k % m;
    assert k == m * q + r;
    assert k * j == m * q * j + r * j;
    assert m * q * j == m * (q * j);
  }

  // ---------------------------------------------------------- complex numbers

  /** cpx, with exact components. */
  datatype Cpx = Cpx(re: real, im: real) {
    function Add(b: Cpx): Cpx { Cpx(re + b.re, im + b.im) }
    function Mul(b: Cpx): Cpx { Cpx(re * b.re - im * b.im, re * b.im + im * b.re) }
  }

  const COMPLEX: Ring<Cpx> :=
    Ring(Cpx(0.0, 0.0), Cpx(1.0, 0.0), (a: Cpx, b: Cpx) => a.Add(b), (a: Cpx, b: Cpx) => a.Mul(b))

  lemma {:induction false} MulComm(a: Cpx, b: Cpx)
    ensures a.Mul(b) == b.Mul(a)
  {
  }

  lemma {:induction false} MulUnits(a: Cpx)
    ensures Cpx(1.0, 0.0).Mul(a) == a && Cpx(0.0, 0.0).Mul(a) == Cpx(0.0, 0.0)
  {
  }

  ghost predicate MulLaws(a: Cpx, b: Cpx, c: Cpx) {
    && a.Mul(b) == b.Mul(a) && a.Mul(b).Mul(c) == a.Mul(b.Mul(c)) && Cpx(1.0, 0.0).Mul(a) == a
    && a.Add(b).Mul(c) == a.Mul(c).Add(b.Mul(c)) && Cpx(0.0, 0.0).Mul(a) == Cpx(0.0, 0.0)
  }

  lemma {:induction false} MulIsLawful(a: Cpx, b: Cpx, c: Cpx)
    ensures MulLaws(a, b, c)
  {
    MulComm(a, b);
    MulUnits(a);
    MulAssoc(a, b, c);
    MulAdds(a, b, c);
  }

  /** The transform of the codec's complex numbers is an instance. */
  lemma {:induction false} ComplexIsRing()
    ensures COMPLEX.Lawful()
  {
    forall a, b, c | COMPLEX.Law(a, b, c) ensures MulLaws(a, b, c) {
      MulIsLawful(a, b, c);
    }
  }

  lemma {:induction false} MulAssoc(a: Cpx, b: Cpx, c: Cpx)
    ensures a.Mul(b).Mul(c) == a.Mul(b.Mul(c))
  {
    var ab, bc := a.Mul(b), b.Mul(c);
    Triples(a.re, a.im, b.re, b.im, c.re, c.im);
    assert ab.Mul(c).re == ab.re * c.re - ab.im * c.im && a.Mul(bc).re == a.re * bc.re - a.im * bc.im;
    assert ab.Mul(c).im == ab.re * c.im + ab.im * c.re && a.Mul(bc).im == a.re * bc.im + a.im * bc.re;
  }

  lemma {:induction false} Triples(a: real, a': real, b: real, b': real, c: real, c': real)
    ensures (a * b - a' * b') * c - (a * b' + a' * b) * c' == a * (b * c - b' * c') - a' * (b * c' + b' * c)
    ensures (a * b - a' * b') * c' + (a * b' + a' * b) * c == a * (b * c' + b' * c) + a' * (b * c - b' * c')
  {
  }

  lemma {:induction false} MulAdds(a: Cpx, b: Cpx, c: Cpx)
    ensures a.Add(b).Mul(c) == a.Mul(c).Add(b.Mul(c))
  {
  }
}
