/** What the searches maximise (internal/voip/codec/mlow/celp_enc.go, lines 172-177 and 1003-1025): the
score of a choice is the most that any gain takes off the squared error between the perceptual target
and the choice's response. */
module PulseMerit {
  import opened PulseForms
  import opened PulseEnergy
  import opened PulseScores
  import opened SearchTools
  import opened GreedySearch

  // --------------------------------------------------------------- best gain

  /** A vector of this correlation and energy, scaled by g, takes this much off the error. */
  function Removed(corr: real, energy: real, g: real): real {
    2.0 * g * corr - g * g * energy
  }

  /** The best gain is correlation over energy, and the score is what it removes. */
  lemma {:induction false} RatioIsMost(num: real, den: real, g: real)
    requires den > 0.0
    ensures Removed(num, den, g) <= Ratio(num, den) == Removed(num, den, num / den)
  {
    var b := num / den;
    assert b * den == num;
    RatioAt(b, num, den);
    Complete(b, g, num, den);
    SquareAbove(g - b, den);
  }

  lemma {:induction false} RatioAt(b: real, num: real, den: real)
    requires den > 0.0 && b * den == num
    ensures Ratio(num, den) == b * num && Removed(num, den, b) == b * num
  {
    assert num * num == (b * num) * den;
    OverDen(b * num, den);
    assert b * b * den == b * num;
  }

  lemma {:induction false} OverDen(x: real, den: real)
    requires den > 0.0
    ensures x * den / den == x
  {
  }

  lemma {:induction false} Complete(b: real, g: real, num: real, den: real)
    requires b * den == num
    ensures b * num - Removed(num, den, g) == (g - b) * (g - b) * den
  {
    assert (g - b) * (g - b) * den == g * g * den - 2.0 * g * (b * den) + b * (b * den);
  }

  lemma {:induction false} SquareAbove(x: real, den: real)
    requires den > 0.0
    ensures x * x * den >= 0.0
  {
    Square(x);
  }

  /** The merit of a candidate is the most that any gain removes with it. */
  lemma {:induction false} MeritIsMost(q: Problem, ps: seq<int>, i: int, g: real)
    requires q.lag >= 1 && Den(q, ps, i) > 0.0
    ensures Removed(Num(q, ps, i), Den(q, ps, i), g) <= Merit(q, ps, i)
    ensures Merit(q, ps, i) == Removed(Num(q, ps, i), Den(q, ps, i), Num(q, ps, i) / Den(q, ps, i))
  {
    hide Num, Den, Ratio, Removed;
    RatioIsMost(Num(q, ps, i), Den(q, ps, i), g);
  }

  // ------------------------------------------------------------ squared error

  /** Sum over t < m of x[t] times the response to a unit pulse at p. */
  ghost function Against(h: seq<real>, x: seq<real>, p: int, m: nat): real
    requires m <= |x|
  {
    if m == 0 then 0.0 else Against(h, x, p, m - 1) + Times(x[m - 1], H(h, m - 1 - p))
  }

  /** The target of the search is the perceptual target x seen through the response. */
  ghost predicate Backfiltered(q: Problem, h: seq<real>, x: seq<real>) {
    |x| == q.n + |h| && forall p :: 0 <= p < q.n ==> q.D(p) == Against(h, x, p, |x|)
  }

  /** Sum over t < m of x[t] times the response to a. */
  ghost function Toward(h: seq<real>, x: seq<real>, a: Train, m: nat): real
    requires m <= |x|
  {
    if m == 0 then 0.0 else Toward(h, x, a, m - 1) + Times(x[m - 1], Response(h, a, m - 1))
  }

  lemma {:induction false} TowardNone(h: seq<real>, x: seq<real>, m: nat)
    requires m <= |x|
    ensures Toward(h, x, Nil, m) == 0.0
  {
    if m > 0 {
      TowardNone(h, x, m - 1);
      ByZero(x[m - 1]);
    }
  }

  lemma {:induction false} TowardPulse(h: seq<real>, x: seq<real>, a: Train, p: int, w: real, m: nat)
    requires m <= |x|
    ensures Toward(h, x, Pulse(a, p, w), m) == Toward(h, x, a, m) + Times(w, Against(h, x, p, m))
  {
    hide Times;
    if m > 0 {
      TowardPulse(h, x, a, p, w, m - 1);
      var y, z := x[m - 1], H(h, m - 1 - p);
      Distrib(y, Response(h, a, m - 1), Times(w, z));
      Swap(y, w, z);
      Distrib(w, Against(h, x, p, m - 1), Times(y, z));
    } else {
      ByZero(w);
    }
  }

  lemma {:induction false} CorrIsToward(q: Problem, h: seq<real>, x: seq<real>, a: Train)
    requires Backfiltered(q, h, x) && Within(a, q.n)
    ensures q.Corr(a) == Toward(h, x, a, |x|)
    decreases a
  {
    hide Times;
    if a.Pulse? {
      CorrIsToward(q, h, x, a.rest);
      TowardPulse(h, x, a.rest, a.pos, a.w, |x|);
    } else {
      TowardNone(h, x, |x|);
    }
  }

  /** Squared error over the first m samples, with the response to a scaled by g. */
  ghost function SquaredError(h: seq<real>, x: seq<real>, a: Train, g: real, m: nat): real
    requires m <= |x|
  {
    if m == 0 then 0.0
    else SquaredError(h, x, a, g, m - 1) + SampleError(x[m - 1], Response(h, a, m - 1), g)
  }

  function SampleError(x: real, y: real, g: real): real { (x - g * y) * (x - g * y) }

  lemma {:induction false} ErrorExpands(h: seq<real>, x: seq<real>, a: Train, g: real, m: nat)
    requires m <= |x|
    ensures SquaredError(h, x, a, g, m)
         == SquaredError(h, x, a, 0.0, m) - Removed(Toward(h, x, a, m), Cross(h, a, a, m), g)
  {
    hide Response, Removed, SampleError, Times;
    if m > 0 {
      ErrorExpands(h, x, a, g, m - 1);
      OneError(x[m - 1], Response(h, a, m - 1), g);
      RemovedAdds(Toward(h, x, a, m - 1), Cross(h, a, a, m - 1), Times(x[m - 1], Response(h, a, m - 1)),
                  Times(Response(h, a, m - 1), Response(h, a, m - 1)), g);
    } else {
      RemovedNone(g);
    }
  }

  lemma {:induction false} OneError(x: real, y: real, g: real)
    ensures SampleError(x, y, g) == SampleError(x, y, 0.0) - Removed(Times(x, y), Times(y, y), g)
  {
    assert (x - g * y) * (x - g * y) == x * x - 2.0 * g * (x * y) + g * g * (y * y);
  }

  lemma {:induction false} RemovedAdds(a: real, b: real, c: real, d: real, g: real)
    ensures Removed(a + c, b + d, g) == Removed(a, b, g) + Removed(c, d, g)
  {
    assert g * g * (b + d) == g * g * b + g * g * d;
    assert 2.0 * g * (a + c) == 2.0 * g * a + 2.0 * g * c;
  }

  lemma {:induction false} RemovedNone(g: real)
    ensures Removed(0.0, 0.0, g) == 0.0
  {
  }

  /** A train scaled by g leaves the target's energy less 2 g times its correlation, plus g^2 times
      its energy. */
  lemma {:induction false} ErrorOf(q: Problem, h: seq<real>, x: seq<real>, a: Train, g: real)
    requires Autocorrelation(q, h) && Backfiltered(q, h, x) && Within(a, q.n)
    ensures SquaredError(h, x, a, g, |x|) == SquaredError(h, x, Nil, 0.0, |x|) - Removed(q.Corr(a), q.Energy(a), g)
  {
    hide Removed, Cross, Toward, SquaredError;
    hide Problem.Corr, Problem.Form;
    ErrorExpands(h, x, a, g, |x|);
    SilentError(h, x, a, |x|);
    CorrIsToward(q, h, x, a);
    FormIsCross(q, h, a, a, |x|);
  }

  lemma {:induction false} SilentError(h: seq<real>, x: seq<real>, a: Train, m: nat)
    requires m <= |x|
    ensures SquaredError(h, x, a, 0.0, m) == SquaredError(h, x, Nil, 0.0, m)
  {
    if m > 0 {
      SilentError(h, x, a, m - 1);
    }
  }

  /** No gain removes more with the coded train than the reported one, and it removes the score. */
  lemma {:induction false} ReportedIsMost(q: Problem, codes: seq<int>, r: Report, g: real)
    requires q.lag >= 1 && Reported(q, codes, r) && r.n > 0
    ensures var s := Coded(q, codes, |codes|);
            && Removed(q.Corr(s), q.Energy(s) + EPS, g) <= r.wnrg
            && Removed(q.Corr(s), q.Energy(s) + EPS, r.gain) == r.wnrg
  {
    hide Removed, Ratio, Coded;
    hide Problem.Corr, Problem.Form;
    RatioIsMost(q.Corr(Coded(q, codes, |codes|)), r.fcbWnrg, g);
  }

  /** Of all gains the reported one leaves the least squared error, guarded by EPS g^2, and the score
      is what it takes off. */
  lemma {:induction false} ReportedIsBest(q: Problem, h: seq<real>, x: seq<real>, codes: seq<int>, r: Report, g: real)
    requires q.lag >= 1 && Autocorrelation(q, h) && Backfiltered(q, h, x) && Reported(q, codes, r) && r.n > 0
    ensures var s, all := Coded(q, codes, |codes|), SquaredError(h, x, Nil, 0.0, |x|);
            && SquaredError(h, x, s, g, |x|) + EPS * g * g >= all - r.wnrg
            && SquaredError(h, x, s, r.gain, |x|) + EPS * r.gain * r.gain == all - r.wnrg
  {
    hide Removed, Scores, SquaredError, Coded, Autocorrelation, Backfiltered;
    hide Problem.Corr, Problem.Form;
    var s := Coded(q, codes, |codes|);
    CodedWithin(q, codes, |codes|);
    ReportedIsMost(q, codes, r, g);
    Guarded(q.Corr(s), q.Energy(s), g);
    Guarded(q.Corr(s), q.Energy(s), r.gain);
    ErrorOf(q, h, x, s, g);
    ErrorOf(q, h, x, s, r.gain);
  }

  lemma {:induction false} Guarded(corr: real, energy: real, g: real)
    ensures Removed(corr, energy + EPS, g) == Removed(corr, energy, g) - EPS * g * g
  {
    assert g * g * (energy + EPS) == g * g * energy + EPS * g * g;
  }

  /** The guarded squared error with pulse i added to ps, scaled by g. */
  ghost function ErrorWith(q: Problem, h: seq<real>, x: seq<real>, ps: seq<int>, i: int, g: real): real
    requires q.lag >= 1
  {
    SquaredError(h, x, With(q, ps, i), g, |x|) + EPS * g * g
  }

  /** A best pulse with its best gain leaves no more error than any other pulse with any gain. */
  lemma {:induction false} BestPulse(q: Problem, h: seq<real>, x: seq<real>, ps: seq<int>, p: int, i: int, g: real)
    requires Searchable(q, h) && Backfiltered(q, h, x) && Inside(q, ps) && 0 <= p < q.n && 0 <= i < q.n
    requires IsBest(q, ps, p)
    ensures Den(q, ps, p) > 0.0
    ensures ErrorWith(q, h, x, ps, p, Num(q, ps, p) / Den(q, ps, p)) <= ErrorWith(q, h, x, ps, i, g)
  {
    hide Removed, Merit, SquaredError, Autocorrelation, Backfiltered, With;
    hide Problem.Corr, Problem.Form;
    DenPositive(q, h, ps, p);
    DenPositive(q, h, ps, i);
    WithGain(q, h, x, ps, p, Num(q, ps, p) / Den(q, ps, p));
    WithGain(q, h, x, ps, i, g);
    MeritIsMost(q, ps, p, 0.0);
    MeritIsMost(q, ps, i, g);
  }

  lemma {:induction false} WithGain(q: Problem, h: seq<real>, x: seq<real>, ps: seq<int>, i: int, g: real)
    requires Searchable(q, h) && Backfiltered(q, h, x) && Inside(q, ps) && 0 <= i < q.n
    ensures ErrorWith(q, h, x, ps, i, g)
         == SquaredError(h, x, Nil, 0.0, |x|) - Removed(Num(q, ps, i), Den(q, ps, i), g)
  {
    hide Removed, SquaredError, Autocorrelation, Backfiltered, Chosen, SignOf;
    hide Problem.Corr, Problem.Form;
    ChosenWithin(q, ps, |ps|);
    EchoWithin(q, i, SignOf(q, i));
    JoinWithin(Chosen(q, ps, |ps|), Signed(q, i), q.n);
    ErrorOf(q, h, x, With(q, ps, i), g);
    Guarded(q.Corr(With(q, ps, i)), q.Energy(With(q, ps, i)), g);
  }
}
