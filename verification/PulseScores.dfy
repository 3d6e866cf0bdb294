/** The correlation and energy of a partial pulse choice, recomputed from scratch, and the
exact effect on both of one more pulse. */
module PulseScores {
  import opened PulseForms
  import opened PulseEnergy

  const EPS := 0.0000000000000001

  ghost predicate Searchable(q: Problem, h: seq<real>) {
    q.Valid() && 1 <= q.n && Autocorrelation(q, h)
  }

  /** Correlation of the target with one unit pulse and its echoes. */
  ghost function Proj(q: Problem, i: int): real
    requires q.lag >= 1
  {
    q.Corr(q.Echo(i, 1.0))
  }

  ghost function SignOf(q: Problem, i: int): real
    requires q.lag >= 1
  {
    if Proj(q, i) > 0.0 then 1.0 else -1.0
  }

  ghost function AbsOf(q: Problem, i: int): real
    requires q.lag >= 1
  {
    if Proj(q, i) > 0.0 then Proj(q, i) else -Proj(q, i)
  }

  /** Pulse i with the sign of its correlation. */
  ghost function Signed(q: Problem, i: int): Train
    requires q.lag >= 1
  {
    q.Echo(i, SignOf(q, i))
  }

  /** The first k chosen pulses. */
  ghost function Chosen(q: Problem, ps: seq<int>, k: nat): Train
    requires q.lag >= 1 && k <= |ps|
  {
    if k == 0 then Nil else Join(Chosen(q, ps, k - 1), Signed(q, ps[k - 1]))
  }

  /** All chosen pulses plus candidate i. */
  ghost function With(q: Problem, ps: seq<int>, i: int): Train
    requires q.lag >= 1
  {
    Join(Chosen(q, ps, |ps|), Signed(q, i))
  }

  ghost function Num(q: Problem, ps: seq<int>, i: int): real
    requires q.lag >= 1
  {
    q.Corr(With(q, ps, i))
  }

  ghost function Den(q: Problem, ps: seq<int>, i: int): real
    requires q.lag >= 1
  {
    q.Energy(With(q, ps, i)) + EPS
  }

  ghost predicate Inside(q: Problem, ps: seq<int>) {
    forall k :: 0 <= k < |ps| ==> 0 <= ps[k] < q.n
  }

  // ------------------------------------------------------------------ facts

  lemma {:induction false} ChosenPrefix(q: Problem, a: seq<int>, b: seq<int>, k: nat)
    requires q.lag >= 1 && k <= |a| && k <= |b| && a[..k] == b[..k]
    ensures Chosen(q, a, k) == Chosen(q, b, k)
  {
    hide Join;
    if k > 0 {
      assert a[k - 1] == a[..k][k - 1] == b[k - 1];
      assert a[..k - 1] == a[..k][..k - 1] == b[..k - 1];
      ChosenPrefix(q, a, b, k - 1);
    }
  }

  lemma {:induction false} ChosenSnoc(q: Problem, ps: seq<int>, p: int)
    requires q.lag >= 1
    ensures Chosen(q, ps + [p], |ps| + 1) == With(q, ps, p)
  {
    hide Join;
    ChosenPrefix(q, ps + [p], ps, |ps|);
  }

  /** A pulse with the sign of its correlation has the magnitude of it. */
  lemma {:induction false} SignedCorr(q: Problem, i: int)
    requires q.lag >= 1
    ensures q.Corr(Signed(q, i)) == AbsOf(q, i)
  {
    q.EchoIsScaled(i, SignOf(q, i));
    q.CorrScale(q.Echo(i, 1.0), SignOf(q, i));
  }

  lemma {:induction false} NumStart(q: Problem, i: int)
    requires q.lag >= 1
    ensures Num(q, [], i) == AbsOf(q, i)
  {
    SignedCorr(q, i);
    q.CorrJoin(Nil, Signed(q, i));
  }

  lemma {:induction false} NumStep(q: Problem, ps: seq<int>, p: int, i: int)
    requires q.lag >= 1
    ensures Num(q, ps + [p], i) == Num(q, ps, i) + AbsOf(q, p)
  {
    hide AbsOf, Signed, Join, SignOf;
    ChosenSnoc(q, ps, p);
    SignedCorr(q, p);
    q.CorrJoin(Chosen(q, ps, |ps|), Signed(q, p));
    q.CorrJoin(With(q, ps, p), Signed(q, i));
    q.CorrJoin(Chosen(q, ps, |ps|), Signed(q, i));
  }

  lemma {:induction false} SignSquared(q: Problem, i: int, x: real)
    requires q.lag >= 1
    ensures Times(SignOf(q, i), Times(SignOf(q, i), x)) == x
  {
  }

  lemma {:induction false} EnergyOfSigned(q: Problem, i: int)
    requires q.lag >= 1
    ensures q.Energy(Signed(q, i)) == q.Energy(q.Echo(i, 1.0))
  {
    hide SignOf;
    var s, e := SignOf(q, i), q.Echo(i, 1.0);
    q.EchoIsScaled(i, s);
    q.FormScaleLeft(e, s, Scale(e, s));
    q.FormScaleRight(e, e, s);
    SignSquared(q, i, q.Form(e, e));
  }

  lemma {:induction false} FormOfSigned(q: Problem, a: Train, i: int)
    requires q.lag >= 1
    ensures q.Form(a, Signed(q, i)) == Times(SignOf(q, i), q.Form(q.Echo(i, 1.0), a))
  {
    hide SignOf, Times;
    var s, e := SignOf(q, i), q.Echo(i, 1.0);
    q.EchoIsScaled(i, s);
    q.FormScaleRight(a, e, s);
    q.FormSymmetric(a, e);
  }

  lemma {:induction false} FormOfBoth(q: Problem, p: int, i: int)
    requires q.lag >= 1
    ensures q.Form(Signed(q, p), Signed(q, i))
         == Times(SignOf(q, p), Times(SignOf(q, i), q.Form(q.Echo(p, 1.0), q.Echo(i, 1.0))))
  {
    hide SignOf, Times;
    var e := q.Echo(i, 1.0);
    FormOfSigned(q, Signed(q, p), i);
    FormOfSigned(q, e, p);
    q.FormSymmetric(e, Signed(q, p));
    Swap(SignOf(q, p), SignOf(q, i), q.Form(q.Echo(p, 1.0), e));
  }

  lemma {:induction false} DenStart(q: Problem, i: int)
    requires q.lag >= 1
    ensures Den(q, [], i) == q.Energy(q.Echo(i, 1.0)) + EPS
  {
    JoinNone(Signed(q, i));
    EnergyOfSigned(q, i);
  }

  lemma {:induction false} JoinNone(a: Train)
    ensures Join(Nil, a) == a
  {
    if a.Pulse? {
      JoinNone(a.rest);
    }
  }

  /** Adding pulse p changes the energy with candidate i by a part that does not depend on
      i and a cross term that does. */
  lemma {:induction false} DenStep(q: Problem, ps: seq<int>, p: int, i: int)
    requires q.lag >= 1
    ensures Den(q, ps + [p], i) == Den(q, ps, i)
              + 2.0 * Times(SignOf(q, p), q.Form(q.Echo(p, 1.0), Chosen(q, ps, |ps|))) + q.Energy(q.Echo(p, 1.0))
              + 2.0 * Times(SignOf(q, p), Times(SignOf(q, i), q.Form(q.Echo(p, 1.0), q.Echo(i, 1.0))))
  {
    hide SignOf, Times, Signed, Join, Chosen;
    hide Problem.Form, Problem.Energy;
    var s, sp, si := Chosen(q, ps, |ps|), Signed(q, p), Signed(q, i);
    ChosenSnoc(q, ps, p);
    q.EnergyJoin(Join(s, sp), si);
    q.EnergyJoin(s, sp);
    q.FormJoinLeft(s, sp, si);
    q.EnergyJoin(s, si);
    FormOfSigned(q, s, p);
    EnergyOfSigned(q, p);
    FormOfBoth(q, p, i);
  }

  // ------------------------------------------------------- no zero division

  lemma {:induction false} EchoWithin(q: Problem, i: int, w: real)
    requires q.lag >= 1 && i >= 0
    ensures Within(q.Echo(i, w), q.n)
    decreases q.n - i
  {
    hide Problem.Fade;
    if i < q.n {
      EchoWithin(q, i + q.lag, q.Fade(w));
    }
  }

  lemma {:induction false} JoinWithin(a: Train, b: Train, n: nat)
    requires Within(a, n) && Within(b, n)
    ensures Within(Join(a, b), n)
    decreases b
  {
    if b.Pulse? {
      JoinWithin(a, b.rest, n);
    }
  }

  lemma {:induction false} ChosenWithin(q: Problem, ps: seq<int>, k: nat)
    requires q.lag >= 1 && k <= |ps| && Inside(q, ps)
    ensures Within(Chosen(q, ps, k), q.n)
  {
    hide SignOf;
    if k > 0 {
      ChosenWithin(q, ps, k - 1);
      EchoWithin(q, ps[k - 1], SignOf(q, ps[k - 1]));
      JoinWithin(Chosen(q, ps, k - 1), Signed(q, ps[k - 1]), q.n);
    }
  }

  lemma {:induction false} DenPositive(q: Problem, h: seq<real>, ps: seq<int>, i: int)
    requires Searchable(q, h) && Inside(q, ps) && 0 <= i < q.n
    ensures Den(q, ps, i) >= EPS
  {
    hide SignOf, Autocorrelation;
    ChosenWithin(q, ps, |ps|);
    EchoWithin(q, i, SignOf(q, i));
    JoinWithin(Chosen(q, ps, |ps|), Signed(q, i), q.n);
    EnergyNotNegative(q, h, With(q, ps, i));
  }
}
