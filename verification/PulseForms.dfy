/** What the fixed-codebook searches optimise: trains of weighted pulses, their correlation
with the target d and their energy under the banded Toeplitz matrix of the perceptual
response (internal/voip/codec/mlow/celp_enc.go, lines 471-478 and 1261-1268), in exact reals. */
module PulseForms {

  /** Weighted pulses, the latest first; several may share a position. */
  datatype Train = Nil | Pulse(rest: Train, pos: int, w: real)

  ghost function Join(a: Train, b: Train): Train {
    match b
    case Nil => a
    case Pulse(r, p, w) => Pulse(Join(a, r), p, w)
  }

  ghost function Scale(a: Train, c: real): Train {
    match a
    case Nil => Nil
    case Pulse(r, p, w) => Pulse(Scale(r, c), p, Times(c, w))
  }

  ghost function Shift(a: Train, t: int): Train {
    match a
    case Nil => Nil
    case Pulse(r, p, w) => Pulse(Shift(r, t), p - t, w)
  }

  function Gap(p: int, q: int): nat { if p < q then q - p else p - q }

  /** The search problem: subframe length n, autocorrelation phi, target d, and the pitch
      sharpening that repeats every pulse each `lag` samples, g times weaker. */
  datatype Problem = Problem(n: nat, phi: seq<real>, d: seq<real>, g: real, lag: nat) {
    ghost predicate Valid() {
      |d| == n && lag >= 1 && |phi| >= 1
    }

    /** Entry (p, q) of the banded symmetric Toeplitz matrix. */
    function Phi(p: int, q: int): real {
      if Gap(p, q) < |phi| then phi[Gap(p, q)] else 0.0
    }

    function D(p: int): real {
      if 0 <= p < |d| then d[p] else 0.0
    }

    function Fade(w: real): real { Times(w, g) }

    /** A pulse and its echoes inside the subframe. */
    ghost function Echo(pos: int, w: real): Train
      requires lag >= 1
      decreases n - pos
    {
      if pos >= n then Nil else Pulse(Echo(pos + lag, Fade(w)), pos, w)
    }

    ghost function Row(p: int, b: Train): real {
      match b
      case Nil => 0.0
      case Pulse(r, q, u) => Row(p, r) + Times(u, Phi(p, q))
    }

    /** The bilinear form of the matrix. */
    ghost function Form(a: Train, b: Train): real {
      match a
      case Nil => 0.0
      case Pulse(r, p, w) => Form(r, b) + Times(w, Row(p, b))
    }

    ghost function Corr(a: Train): real {
      match a
      case Nil => 0.0
      case Pulse(r, p, w) => Corr(r) + Times(w, D(p))
    }

    ghost function Energy(a: Train): real { Form(a, a) }

    // --------------------------------------------------------- bilinearity

    lemma {:induction false} RowJoin(p: int, a: Train, b: Train)
      ensures Row(p, Join(a, b)) == Row(p, a) + Row(p, b)
      decreases b
    {
      hide Times;
      if b.Pulse? {
        RowJoin(p, a, b.rest);
      }
    }

    lemma {:induction false} FormJoinRight(a: Train, b: Train, c: Train)
      ensures Form(a, Join(b, c)) == Form(a, b) + Form(a, c)
      decreases a
    {
      hide Times;
      if a.Pulse? {
        FormJoinRight(a.rest, b, c);
        RowJoin(a.pos, b, c);
        Distrib(a.w, Row(a.pos, b), Row(a.pos, c));
      }
    }

    lemma {:induction false} FormJoinLeft(a: Train, b: Train, c: Train)
      ensures Form(Join(a, b), c) == Form(a, c) + Form(b, c)
      decreases b
    {
      hide Times;
      if b.Pulse? {
        FormJoinLeft(a, b.rest, c);
      }
    }

    lemma {:induction false} FormPulseRight(a: Train, b: Train, q: int, u: real)
      ensures Form(a, Pulse(b, q, u)) == Form(a, b) + Times(u, Row(q, a))
      decreases a
    {
      hide Times;
      if a.Pulse? {
        FormPulseRight(a.rest, b, q, u);
        assert Phi(a.pos, q) == Phi(q, a.pos);
        var f := Phi(q, a.pos);
        Distrib(a.w, Row(a.pos, b), Times(u, f));
        Distrib(u, Row(q, a.rest), Times(a.w, f));
        Swap(a.w, u, f);
      } else {
        ByZero(u);
      }
    }

    lemma {:induction false} FormSymmetric(a: Train, b: Train)
      ensures Form(a, b) == Form(b, a)
      decreases b
    {
      hide Times;
      if b.Pulse? {
        FormSymmetric(a, b.rest);
        FormPulseRight(a, b.rest, b.pos, b.w);
      } else {
        FormNone(a);
      }
    }

    lemma {:induction false} FormNone(a: Train)
      ensures Form(a, Nil) == 0.0
    {
      hide Times;
      if a.Pulse? {
        FormNone(a.rest);
        ByZero(a.w);
      }
    }

    lemma {:induction false} RowScale(p: int, a: Train, c: real)
      ensures Row(p, Scale(a, c)) == Times(c, Row(p, a))
      decreases a
    {
      hide Times;
      if a.Pulse? {
        RowScale(p, a.rest, c);
        Assoc(c, a.w, Phi(p, a.pos));
        Distrib(c, Row(p, a.rest), Times(a.w, Phi(p, a.pos)));
      } else {
        ByZero(c);
      }
    }

    lemma {:induction false} FormScaleLeft(a: Train, c: real, b: Train)
      ensures Form(Scale(a, c), b) == Times(c, Form(a, b))
      decreases a
    {
      hide Times;
      if a.Pulse? {
        FormScaleLeft(a.rest, c, b);
        Assoc(c, a.w, Row(a.pos, b));
        Distrib(c, Form(a.rest, b), Times(a.w, Row(a.pos, b)));
      } else {
        ByZero(c);
      }
    }

    lemma {:induction false} FormScaleRight(a: Train, b: Train, c: real)
      ensures Form(a, Scale(b, c)) == Times(c, Form(a, b))
    {
      hide *;
      FormSymmetric(a, Scale(b, c));
      FormScaleLeft(b, c, a);
      FormSymmetric(a, b);
    }

    lemma {:induction false} CorrScale(a: Train, c: real)
      ensures Corr(Scale(a, c)) == Times(c, Corr(a))
    {
      hide Times;
      if a.Pulse? {
        CorrScale(a.rest, c);
        Assoc(c, a.w, D(a.pos));
        Distrib(c, Corr(a.rest), Times(a.w, D(a.pos)));
      } else {
        ByZero(c);
      }
    }

    lemma {:induction false} CorrJoin(a: Train, b: Train)
      ensures Corr(Join(a, b)) == Corr(a) + Corr(b)
      decreases b
    {
      hide Times;
      if b.Pulse? {
        CorrJoin(a, b.rest);
      }
    }

    lemma {:induction false} EnergyJoin(a: Train, b: Train)
      ensures Energy(Join(a, b)) == Energy(a) + 2.0 * Form(a, b) + Energy(b)
    {
      hide Times;
      FormJoinLeft(a, b, Join(a, b));
      FormJoinRight(a, a, b);
      FormJoinRight(b, a, b);
      FormSymmetric(b, a);
    }

    // -------------------------------------------------------------- echoes

    lemma {:induction false} EchoScale(pos: int, w: real, c: real)
      requires lag >= 1
      ensures Echo(pos, Times(c, w)) == Scale(Echo(pos, w), c)
      decreases n - pos
    {
      hide Times;
      if pos < n {
        Assoc(c, w, g);
        EchoScale(pos + lag, Fade(w), c);
      }
    }

    lemma {:induction false} EchoIsScaled(pos: int, w: real)
      requires lag >= 1
      ensures Echo(pos, w) == Scale(Echo(pos, 1.0), w)
    {
      EchoScale(pos, 1.0, w);
    }

    /** The matrix is constant along its diagonals. */
    lemma {:induction false} RowShift(p: int, b: Train, t: int)
      ensures Row(p - t, Shift(b, t)) == Row(p, b)
      decreases b
    {
      hide Times;
      if b.Pulse? {
        RowShift(p, b.rest, t);
      }
    }

    lemma {:induction false} FormShift(a: Train, b: Train, t: int)
      ensures Form(Shift(a, t), Shift(b, t)) == Form(a, b)
      decreases a
    {
      hide Times;
      if a.Pulse? {
        FormShift(a.rest, b, t);
        RowShift(a.pos, b, t);
      }
    }

    /** Two pulses less than a lag apart, the later one m lags before the last sample, have
        equally many echoes. */
    lemma {:induction false} EchoShift(i: int, t: nat, m: nat, w: real)
      requires lag >= 1 && t < lag && i == n - 1 - m * lag
      ensures Echo(i - t, w) == Shift(Echo(i, w), t)
      decreases m
    {
      hide Times;
      if m == 0 {
        assert i == n - 1;
      } else {
        assert m * lag == (m - 1) * lag + lag;
        EchoShift(i + lag, t, m - 1, Fade(w));
        assert i < n && i - t + lag == i + lag - t;
        assert Echo(i - t, w) == Pulse(Echo(i + lag - t, Fade(w)), i - t, w);
      }
    }
  }

  // ------------------------------------------------------- trains as vectors

  /** Sample x of the vector a train adds up to. */
  ghost function Val(a: Train, x: int): real {
    match a
    case Nil => 0.0
    case Pulse(r, p, w) => Val(r, x) + if p == x then w else 0.0
  }

  ghost predicate Within(a: Train, n: nat) {
    match a
    case Nil => true
    case Pulse(r, p, _) => 0 <= p < n && Within(r, n)
  }

  /** Sum over y < m of b[y] Phi[p][y]. */
  ghost function RowSum(q: Problem, p: int, b: Train, m: nat): real {
    if m == 0 then 0.0 else RowSum(q, p, b, m - 1) + Times(Val(b, m - 1), q.Phi(p, m - 1))
  }

  /** Sum over x < m of a[x] times row x of Phi b. */
  ghost function QuadSum(q: Problem, a: Train, b: Train, m: nat): real {
    if m == 0 then 0.0 else QuadSum(q, a, b, m - 1) + Times(Val(a, m - 1), RowSum(q, m - 1, b, q.n))
  }

  /** Sum over x < m of a[x] d[x]. */
  ghost function DotSum(q: Problem, a: Train, m: nat): real {
    if m == 0 then 0.0 else DotSum(q, a, m - 1) + Times(Val(a, m - 1), q.D(m - 1))
  }

  lemma {:induction false} RowSumPulse(q: Problem, p: int, b: Train, pos: int, w: real, m: nat)
    ensures RowSum(q, p, Pulse(b, pos, w), m)
            == RowSum(q, p, b, m) + if 0 <= pos < m then Times(w, q.Phi(p, pos)) else 0.0
  {
    hide Times;
    if m > 0 {
      RowSumPulse(q, p, b, pos, w, m - 1);
      DistribLeft(Val(b, m - 1), w, q.Phi(p, m - 1));
    }
  }

  lemma {:induction false} RowSumNone(q: Problem, p: int, m: nat)
    ensures RowSum(q, p, Nil, m) == 0.0
  {
    if m > 0 {
      RowSumNone(q, p, m - 1);
    }
  }

  lemma {:induction false} RowIsSum(q: Problem, p: int, b: Train)
    requires Within(b, q.n)
    ensures q.Row(p, b) == RowSum(q, p, b, q.n)
    decreases b
  {
    hide Times;
    if b.Pulse? {
      RowIsSum(q, p, b.rest);
      RowSumPulse(q, p, b.rest, b.pos, b.w, q.n);
    } else {
      RowSumNone(q, p, q.n);
    }
  }

  lemma {:induction false} QuadSumPulse(q: Problem, a: Train, pos: int, w: real, b: Train, m: nat)
    ensures QuadSum(q, Pulse(a, pos, w), b, m)
            == QuadSum(q, a, b, m) + if 0 <= pos < m then Times(w, RowSum(q, pos, b, q.n)) else 0.0
  {
    hide Times, RowSum;
    if m > 0 {
      QuadSumPulse(q, a, pos, w, b, m - 1);
      DistribLeft(Val(a, m - 1), w, RowSum(q, m - 1, b, q.n));
    }
  }

  lemma {:induction false} QuadSumNone(q: Problem, b: Train, m: nat)
    ensures QuadSum(q, Nil, b, m) == 0.0
  {
    hide RowSum;
    if m > 0 {
      QuadSumNone(q, b, m - 1);
    }
  }

  /** The form of two trains is the quadratic form of the vectors they add up to. */
  lemma {:induction false} FormIsQuadratic(q: Problem, a: Train, b: Train)
    requires Within(a, q.n) && Within(b, q.n)
    ensures q.Form(a, b) == QuadSum(q, a, b, q.n)
    decreases a
  {
    hide Times, RowSum;
    if a.Pulse? {
      FormIsQuadratic(q, a.rest, b);
      QuadSumPulse(q, a.rest, a.pos, a.w, b, q.n);
      RowIsSum(q, a.pos, b);
    } else {
      QuadSumNone(q, b, q.n);
    }
  }

  lemma {:induction false} DotSumPulse(q: Problem, a: Train, pos: int, w: real, m: nat)
    ensures DotSum(q, Pulse(a, pos, w), m) == DotSum(q, a, m) + if 0 <= pos < m then Times(w, q.D(pos)) else 0.0
  {
    hide Times;
    if m > 0 {
      DotSumPulse(q, a, pos, w, m - 1);
      DistribLeft(Val(a, m - 1), w, q.D(m - 1));
    }
  }

  lemma {:induction false} DotSumNone(q: Problem, m: nat)
    ensures DotSum(q, Nil, m) == 0.0
  {
    if m > 0 {
      DotSumNone(q, m - 1);
    }
  }

  lemma {:induction false} CorrIsDot(q: Problem, a: Train)
    requires Within(a, q.n)
    ensures q.Corr(a) == DotSum(q, a, q.n)
    decreases a
  {
    hide Times;
    if a.Pulse? {
      CorrIsDot(q, a.rest);
      DotSumPulse(q, a.rest, a.pos, a.w, q.n);
    } else {
      DotSumNone(q, q.n);
    }
  }

  lemma {:induction false} DistribLeft(a: real, b: real, c: real)
    ensures Times(a + b, c) == Times(a, c) + Times(b, c)
    ensures Times(a + 0.0, c) == Times(a, c)
  {
  }

  /** Product, kept out of the proofs below except through its laws. */
  function Times(a: real, b: real): real { a * b }

  lemma {:induction false} Distrib(a: real, b: real, c: real)
    ensures Times(a, b + c) == Times(a, b) + Times(a, c)
  {
  }

  lemma {:induction false} Assoc(a: real, b: real, c: real)
    ensures Times(Times(a, b), c) == Times(a, Times(b, c))
  {
  }

  lemma {:induction false} Swap(a: real, b: real, c: real)
    ensures Times(a, Times(b, c)) == Times(b, Times(a, c))
  {
  }

  lemma {:induction false} ByZero(a: real)
    ensures Times(a, 0.0) == 0.0
  {
  }
}
