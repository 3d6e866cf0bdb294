/** smplFcbSearch (internal/voip/codec/mlow/celp_enc.go, lines 604-701): one pulse at a time,
with correlation and energy of every candidate updated in place. */
module GreedySearch {
  import opened Helpers
  import opened PulseForms
  import opened PulseEnergy
  import opened PulseScores
  import opened SearchTools

  // ----------------------------------------------------- trains without echoes

  lemma {:induction false} Single(q: Problem, p: int, w: real)
    requires q.lag >= q.n >= 1 && 0 <= p < q.n
    ensures q.Echo(p, w) == Pulse(Nil, p, w)
  {
    assert q.Echo(p + q.lag, q.Fade(w)) == Nil;
  }

  lemma {:induction false} FormOfSingle(q: Problem, p: int, a: Train)
    requires q.lag >= q.n >= 1 && 0 <= p < q.n
    ensures q.Form(q.Echo(p, 1.0), a) == q.Row(p, a)
  {
    Single(q, p, 1.0);
    assert q.Form(Nil, a) == 0.0;
  }

  lemma {:induction false} FormOfSingles(q: Problem, p: int, i: int)
    requires q.lag >= q.n >= 1 && 0 <= p < q.n && 0 <= i < q.n
    ensures q.Form(q.Echo(p, 1.0), q.Echo(i, 1.0)) == q.Phi(p, i)
  {
    FormOfSingle(q, p, q.Echo(i, 1.0));
    Single(q, i, 1.0);
    assert q.Row(p, Nil) == 0.0;
  }

  lemma {:induction false} ProjOfSingle(q: Problem, i: int)
    requires q.lag >= q.n >= 1 && |q.d| == q.n && 0 <= i < q.n
    ensures Proj(q, i) == q.d[i]
  {
    Single(q, i, 1.0);
    assert q.Corr(Nil) == 0.0;
  }

  lemma {:induction false} RowChosen(q: Problem, p: int, ps: seq<int>, k: nat)
    requires q.lag >= q.n >= 1 && k < |ps| && 0 <= ps[k] < q.n
    ensures q.Row(p, Chosen(q, ps, k + 1)) == q.Row(p, Chosen(q, ps, k)) + Times(SignOf(q, ps[k]), q.Phi(p, ps[k]))
  {
    hide SignOf, Times;
    var w := SignOf(q, ps[k]);
    Single(q, ps[k], w);
    q.RowJoin(p, Chosen(q, ps, k), Pulse(Nil, ps[k], w));
    assert q.Row(p, Nil) == 0.0;
  }

  // --------------------------------------------------------- in-place update

  method AddAll(a: array<real>, x: real)
    modifies a
    ensures forall i :: 0 <= i < a.Length ==> a[i] == old(a[i]) + x
  {
    for i := 0 to a.Length
      invariant forall j :: 0 <= j < i ==> a[j] == old(a[j]) + x
      invariant forall j :: i <= j < a.Length ==> a[j] == old(a[j])
    {
      a[i] := a[i] + x;
    }
  }

  /** Energy that pulse p adds whatever the next candidate is. */
  method SharedEnergy(q: Problem, flip: seq<real>, dSign: array<real>, ps: seq<int>, p: int) returns (dDen: real)
    requires q.lag >= q.n >= 1 && FlipOf(q, flip) && Inside(q, ps) && 0 <= p < q.n && dSign.Length == q.n
    requires forall i :: 0 <= i < q.n ==> dSign[i] == SignOf(q, i)
    ensures dDen == 2.0 * Times(SignOf(q, p), q.Row(p, Chosen(q, ps, |ps|))) + q.Phi(p, p)
  {
    hide SignOf, Times, Chosen;
    dDen := 0.0;
    assert Chosen(q, ps, 0) == Nil && q.Row(p, Nil) == 0.0 by { NoneChosen(q, ps); }
    for i := 0 to |ps|
      invariant dDen == q.Row(p, Chosen(q, ps, i))
    {
      RowChosen(q, p, ps, i);
      dDen := dDen + Times(dSign[ps[i]], Column(q, flip, p, ps[i]));
    }
    dDen := 2.0 * Times(dSign[p], dDen);
    dDen := dDen + Column(q, flip, p, p);
  }

  lemma {:induction false} NoneChosen(q: Problem, ps: seq<int>)
    requires q.lag >= 1
    ensures Chosen(q, ps, 0) == Nil
  {
  }

  /** The cross terms, on the rows where they can be non-zero. */
  method AddCross(q: Problem, flip: seq<real>, den: array<real>, dSign: array<real>, p: int)
    requires q.lag >= q.n >= 1 && |q.phi| >= 1 && FlipOf(q, flip) && 0 <= p < q.n
    requires den.Length == dSign.Length == q.n && den != dSign
    modifies den
    ensures forall i :: 0 <= i < q.n ==> den[i] == old(den[i]) + 2.0 * Times(dSign[p], Times(dSign[i], q.Phi(p, i)))
  {
    hide Times;
    var (nz0, nz1) := NonZeroRange(q, p);
    for i := nz0 to nz1
      invariant forall j :: nz0 <= j < i ==> den[j] == old(den[j]) + 2.0 * Times(dSign[p], Times(dSign[j], q.Phi(p, j)))
      invariant forall j :: 0 <= j < q.n && !(nz0 <= j < i) ==> den[j] == old(den[j])
    {
      den[i] := den[i] + 2.0 * Times(dSign[p], Times(dSign[i], Column(q, flip, p, i)));
    }
    forall i | 0 <= i < q.n && !(nz0 <= i < nz1) ensures Times(dSign[p], Times(dSign[i], q.Phi(p, i))) == 0.0 {
      ByZero(dSign[i]);
      ByZero(dSign[p]);
    }
  }

  lemma {:induction false} DenStepSingle(q: Problem, ps: seq<int>, p: int, i: int)
    requires q.lag >= q.n >= 1 && 0 <= p < q.n && 0 <= i < q.n
    ensures Den(q, ps + [p], i) == Den(q, ps, i)
              + 2.0 * Times(SignOf(q, p), q.Row(p, Chosen(q, ps, |ps|))) + q.Phi(p, p)
              + 2.0 * Times(SignOf(q, p), Times(SignOf(q, i), q.Phi(p, i)))
  {
    hide SignOf, Times, Den, Chosen;
    DenStep(q, ps, p, i);
    FormOfSingle(q, p, Chosen(q, ps, |ps|));
    FormOfSingles(q, p, p);
    FormOfSingles(q, p, i);
  }

  /** The O(n) update after pulse p: exact for ps before, exact for ps + [p] after. */
  method Extend(q: Problem, flip: seq<real>, num: array<real>, den: array<real>, dAbs: array<real>, dSign: array<real>,
                ps: seq<int>, p: int)
    requires q.lag >= q.n >= 1 && |q.phi| >= 1 && FlipOf(q, flip) && Inside(q, ps) && 0 <= p < q.n
    requires SignsOf(q, dAbs[..], dSign[..])
    requires num != den && num != dAbs && num != dSign && den != dAbs && den != dSign
    requires Exact(q, ps, num[..], den[..])
    modifies num, den
    ensures Exact(q, ps + [p], num[..], den[..])
  {
    hide SignOf, AbsOf, Times, Den, Num, Chosen;
    SignsAt(q, dAbs, dSign);
    assert forall i :: 0 <= i < q.n ==> num[..][i] == num[i] && den[..][i] == den[i];
    AddAll(num, dAbs[p]);
    var dDen := SharedEnergy(q, flip, dSign, ps, p);
    AddAll(den, dDen);
    AddCross(q, flip, den, dSign, p);
    forall i | 0 <= i < q.n ensures num[i] == Num(q, ps + [p], i) && den[i] == Den(q, ps + [p], i) {
      NumStep(q, ps, p, i);
      DenStepSingle(q, ps, p, i);
    }
  }

  lemma {:induction false} SignsAt(q: Problem, dAbs: array<real>, dSign: array<real>)
    requires q.lag >= 1 && SignsOf(q, dAbs[..], dSign[..])
    ensures dAbs.Length == dSign.Length == q.n
    ensures forall i :: 0 <= i < q.n ==> dAbs[i] == AbsOf(q, i) && dSign[i] == SignOf(q, i)
  {
    hide AbsOf, SignOf;
    assert forall i :: 0 <= i < q.n ==> dAbs[..][i] == dAbs[i] && dSign[..][i] == dSign[i];
  }

  // ------------------------------------------------------------- the choices

  ghost predicate IsBest(q: Problem, ps: seq<int>, p: int)
    requires q.lag >= 1
  {
    0 <= p < q.n && forall j :: 0 <= j < q.n ==> Merit(q, ps, j) <= Merit(q, ps, p)
  }

  /** Each of the first k pulses is a best one given those before it. */
  ghost predicate Greedy(q: Problem, ps: seq<int>, k: nat)
    requires q.lag >= 1 && k <= |ps|
  {
    k == 0 || (Greedy(q, ps, k - 1) && IsBest(q, ps[..k - 1], ps[k - 1]))
  }

  lemma {:induction false} GreedyPrefix(q: Problem, a: seq<int>, b: seq<int>, k: nat)
    requires q.lag >= 1 && k <= |a| && k <= |b| && a[..k] == b[..k] && Greedy(q, a, k)
    ensures Greedy(q, b, k)
  {
    hide IsBest;
    if k > 0 {
      assert a[k - 1] == a[..k][k - 1] == b[k - 1];
      assert a[..k - 1] == a[..k][..k - 1] == b[..k - 1];
      GreedyPrefix(q, a, b, k - 1);
    }
  }

  lemma {:induction false} GreedySnoc(q: Problem, ps: seq<int>, p: int)
    requires q.lag >= 1 && Greedy(q, ps, |ps|) && IsBest(q, ps, p)
    ensures Greedy(q, ps + [p], |ps| + 1)
  {
    hide IsBest;
    GreedyPrefix(q, ps, ps + [p], |ps|);
    assert (ps + [p])[..|ps|] == ps;
  }

  /** The greatest quotient marks a best candidate. */
  method PickBest(q: Problem, ghost h: seq<real>, ghost ps: seq<int>, num: array<real>, den: array<real>)
    returns (p: int)
    requires Searchable(q, h) && Inside(q, ps) && Exact(q, ps, num[..], den[..])
    ensures IsBest(q, ps, p) && 0 <= p < q.n && den[p] > 0.0
  {
    hide Num, Den, Ratio, Autocorrelation;
    ExactPositive(q, h, ps, num[..], den[..]);
    var qs := Quotients(num[..], den[..]);
    p := GetMaxi(qs);
    forall j | 0 <= j < q.n ensures Merit(q, ps, j) == qs[j] {
      assert num[..][j] == Num(q, ps, j) && den[..][j] == Den(q, ps, j);
    }
    assert den[..][p] == den[p];
  }

  // ------------------------------------------------------------ running report

  ghost predicate Running(q: Problem, ps: seq<int>, r: Report)
    requires q.lag >= 1
  {
    && r.n <= |ps|
    && if r.n == 0 then r.wnrg == r.gain == r.fcbWnrg == 0.0
       else Scores(q, Chosen(q, ps, r.n), r.wnrg, r.gain, r.fcbWnrg)
  }

  lemma {:induction false} RunningSnoc(q: Problem, ps: seq<int>, p: int, r: Report)
    requires q.lag >= 1 && Running(q, ps, r)
    ensures Running(q, ps + [p], r)
  {
    hide Scores, Chosen;
    assert (ps + [p])[..r.n] == ps[..r.n];
    ChosenPrefix(q, ps + [p], ps, r.n);
  }

  /** celpCheckIfBetter with the assignments its callers make on success. */
  function Improved(r: Report, per: real, k: nat, num: real, den: real): Report
    requires den > 0.0
  {
    var thr := r.thr + per;
    if Ratio(num, den) > thr then Report(k, Ratio(num, den), num / den, den, Ratio(num, den))
    else r.(thr := thr)
  }

  lemma {:induction false} ImprovedRuns(q: Problem, ps: seq<int>, p: int, r: Report, per: real, num: real, den: real)
    requires q.lag >= 1 && Running(q, ps, r) && den > 0.0 && num == Num(q, ps, p) && den == Den(q, ps, p)
    ensures Running(q, ps + [p], Improved(r, per, |ps| + 1, num, den))
  {
    hide Ratio, Chosen, With;
    hide Problem.Corr, Problem.Energy;
    RunningSnoc(q, ps, p, r);
    ChosenSnoc(q, ps, p);
  }

  /** The codes of one rate, or silence when its threshold was never passed. */
  method Emit(q: Problem, ps: seq<int>, dSign: array<real>, r: Report) returns (codes: seq<int>, final: Report)
    requires q.lag >= 1 && Inside(q, ps) && dSign.Length == q.n && (r.thr > 0.0 ==> Running(q, ps, r))
    requires forall i :: 0 <= i < q.n ==> dSign[i] == SignOf(q, i)
    ensures CodesOf(q, ps, codes) && Reported(q, codes, final)
    ensures final.n == if r.thr > 0.0 then r.n else 0
  {
    hide SignOf, Scores, Chosen, Coded;
    codes, final := [], SILENT;
    if r.thr > 0.0 {
      for i := 0 to r.n
        invariant |codes| == i && CodesOf(q, ps, codes)
      {
        codes := codes + [Code(ps[i], dSign[ps[i]] > 0.0)];
      }
      final := r;
      CodedIsChosen(q, ps, codes, r.n);
    }
  }

  // ------------------------------------------------------- the sent prefixes

  /** The main rate hears of every pulse. */
  ghost function MainStanding(q: Problem, ps: seq<int>, per: real, k: nat): Standing
    requires q.lag >= 1 && k <= |ps|
  {
    if k == 0 then NO_WINNER else Consider(MainStanding(q, ps, per, k - 1), per, Score(q, ps[..k]), k)
  }

  /** The second rate takes the first pulse if the main rate does, without a threshold of its own;
      it then hears of pulse k while k - 1 is within its limit. */
  ghost function FecStanding(q: Problem, ps: seq<int>, perMain: real, perFec: real, maxFec: int, k: nat): Standing
    requires q.lag >= 1 && k <= |ps|
  {
    if k == 0 then NO_WINNER
    else if k == 1 then
      (if maxFec > 0 && MainStanding(q, ps, perMain, 1).n == 1 then Standing(0.0, 1, Score(q, ps[..1])) else NO_WINNER)
    else
      var before := FecStanding(q, ps, perMain, perFec, maxFec, k - 1);
      if maxFec >= k - 1 then Consider(before, perFec, Score(q, ps[..k]), k) else before
  }

  ghost function PrefixScores(q: Problem, ps: seq<int>): (x: seq<real>)
    requires q.lag >= 1
    ensures |x| == |ps| && forall k :: 0 <= k < |ps| ==> x[k] == Score(q, ps[..k + 1])
  {
    seq(|ps|, k requires 0 <= k < |ps| => Score(q, ps[..k + 1]))
  }

  /** The main rate sends the prefix with the greatest score after paying `per` for every pulse. */
  lemma {:induction false} MainIsBest(q: Problem, ps: seq<int>, per: real, k: nat, j: nat)
    requires q.lag >= 1 && j <= k <= |ps|
    ensures var st, x := MainStanding(q, ps, per, k), PrefixScores(q, ps);
            && st == Race(x, per, k) && st.n <= k && Net(x, per, j) <= Net(x, per, st.n)
            && (j < st.n ==> Net(x, per, j) < Net(x, per, st.n))
  {
    hide Score, Net, Consider;
    MainRaces(q, ps, per, k);
    RaceIsBest(PrefixScores(q, ps), per, k, j);
  }

  lemma {:induction false} MainRaces(q: Problem, ps: seq<int>, per: real, k: nat)
    requires q.lag >= 1 && k <= |ps|
    ensures MainStanding(q, ps, per, k) == Race(PrefixScores(q, ps), per, k)
  {
    hide Score, Consider;
    if k > 0 {
      MainRaces(q, ps, per, k - 1);
    }
  }

  /** What n pulses score for the second rate: the first is free, and starts it at zero. */
  ghost function FecNet(q: Problem, ps: seq<int>, per: real, n: nat): real
    requires q.lag >= 1 && n <= |ps|
  {
    if n <= 1 then 0.0 else Score(q, ps[..n]) - Cost(per, n - 1)
  }

  /** Of the pulses it hears of, at most one more than its limit, the second rate sends the prefix with
      the greatest score after paying for all but the first. */
  lemma {:induction false} FecIsBest(q: Problem, ps: seq<int>, perMain: real, perFec: real, maxFec: int, k: nat, j: nat)
    requires q.lag >= 1 && 1 <= j <= k <= |ps| && k <= maxFec + 1
    ensures var st := FecStanding(q, ps, perMain, perFec, maxFec, k);
            && st.n <= k && st.thr == FecNet(q, ps, perFec, st.n) + Cost(perFec, k - 1)
            && FecNet(q, ps, perFec, j) <= FecNet(q, ps, perFec, st.n)
            && (2 <= j < st.n ==> FecNet(q, ps, perFec, j) < FecNet(q, ps, perFec, st.n))
  {
    hide Score, Cost, MainStanding;
    CostStep(perFec, k - 1);
    if k > 1 {
      FecIsBest(q, ps, perMain, perFec, maxFec, k - 1, if j < k then j else k - 1);
    }
  }

  /** The second rate's count never passes its limit by more than one. */
  lemma {:induction false} FecCount(q: Problem, ps: seq<int>, perMain: real, perFec: real, maxFec: int, k: nat)
    requires q.lag >= 1 && k <= |ps|
    ensures var n := FecStanding(q, ps, perMain, perFec, maxFec, k).n;
            n <= k && n <= if maxFec > 0 then maxFec + 1 else 0
  {
    hide Score;
    if k > 0 {
      FecCount(q, ps, perMain, perFec, maxFec, k - 1);
    }
  }

  /** It hears of nothing after pulse maxFec + 1. */
  lemma {:induction false} FecSettled(q: Problem, ps: seq<int>, perMain: real, perFec: real, maxFec: int, k: nat)
    requires q.lag >= 1 && 1 <= maxFec < k <= |ps|
    ensures FecStanding(q, ps, perMain, perFec, maxFec, k) == FecStanding(q, ps, perMain, perFec, maxFec, maxFec + 1)
  {
    hide Score;
    if k > maxFec + 1 {
      FecSettled(q, ps, perMain, perFec, maxFec, k - 1);
    }
  }

  /** Pulse maxFec + 1 is there, passes the second rate's threshold and scores at all. */
  ghost predicate OverLimit(q: Problem, ps: seq<int>, perMain: real, perFec: real, maxFec: int)
    requires q.lag >= 1
  {
    && 1 <= maxFec < |ps|
    && Score(q, ps[..maxFec + 1]) > FecStanding(q, ps, perMain, perFec, maxFec, maxFec).thr + perFec
    && Score(q, ps[..maxFec + 1]) > 0.0
  }

  /** How many pulses the second rate sends. */
  ghost function FecSends(q: Problem, ps: seq<int>, perMain: real, perFec: real, maxFec: int): nat
    requires q.lag >= 1
  {
    var st := FecStanding(q, ps, perMain, perFec, maxFec, |ps|);
    if st.thr > 0.0 then st.n else 0
  }

  /** The second rate keeps its limit except for one pulse, and exactly when that is sent. */
  lemma {:induction false} FecLimit(q: Problem, ps: seq<int>, perMain: real, perFec: real, maxFec: int)
    requires q.lag >= 1
    ensures var n := FecSends(q, ps, perMain, perFec, maxFec);
            && (n > Max(maxFec, 0) <==> OverLimit(q, ps, perMain, perFec, maxFec))
            && n <= (if maxFec > 0 then maxFec + 1 else 0)
  {
    hide Score;
    FecCount(q, ps, perMain, perFec, maxFec, |ps|);
    if 1 <= maxFec < |ps| {
      FecSettled(q, ps, perMain, perFec, maxFec, |ps|);
      FecCount(q, ps, perMain, perFec, maxFec, maxFec);
    }
  }

  const UNIT := Problem(1, [1.0], [1.0], 0.0, 1)

  /** It does happen: one sample, a limit of one pulse, and two are sent. */
  lemma {:induction false} OneTooMany()
    ensures Searchable(UNIT, [1.0]) && OverLimit(UNIT, [0, 0], 0.0, 0.0, 1)
    ensures FecSends(UNIT, [0, 0], 0.0, 0.0, 1) == 2
  {
    hide Score, Num, Den;
    UnitSearchable();
    UnitScore([0], 0);
    UnitScore([], 0);
    assert [0, 0][..2] == [0] + [0] && [0, 0][..1] == [] + [0];
    assert FecStanding(UNIT, [0, 0], 0.0, 0.0, 1, 1).thr == 0.0;
    FecLimit(UNIT, [0, 0], 0.0, 0.0, 1);
  }

  lemma {:induction false} UnitSearchable()
    ensures Searchable(UNIT, [1.0])
  {
    assert Lagged([1.0], 0, 0) == 0.0;
    assert Lagged([1.0], 0, 1) == Times(1.0, 1.0);
  }

  /** Every further pulse on the one sample scores. */
  lemma {:induction false} UnitScore(ps: seq<int>, p: int)
    requires Inside(UNIT, ps) && |ps| <= 1 && p == 0
    ensures Score(UNIT, ps + [p]) > 0.0
  {
    hide Num, Den, Ratio, AbsOf, Searchable;
    UnitSearchable();
    DenPositive(UNIT, [1.0], ps, p);
    UnitNum(ps);
    PositiveRatio(Num(UNIT, ps, p), Den(UNIT, ps, p));
    var all := ps + [p];
    assert all[..|all| - 1] == ps;
  }

  lemma {:induction false} UnitNum(ps: seq<int>)
    requires Inside(UNIT, ps) && |ps| <= 1
    ensures Num(UNIT, ps, 0) > 0.0
  {
    hide Num;
    UnitAbs();
    NumStart(UNIT, 0);
    if |ps| == 1 {
      assert ps == [] + [0];
      NumStep(UNIT, [], 0, 0);
    }
  }

  lemma {:induction false} UnitAbs()
    ensures AbsOf(UNIT, 0) == 1.0
  {
    hide Proj;
    ProjOfSingle(UNIT, 0);
  }

  lemma {:induction false} PositiveRatio(num: real, den: real)
    requires num > 0.0 && den > 0.0
    ensures Ratio(num, den) > 0.0
  {
    PositiveScaled(num, num, den);
  }

  lemma {:induction false} PositiveScaled(a: real, b: real, den: real)
    requires a > 0.0 && b > 0.0 && den > 0.0
    ensures a * b / den > 0.0
  {
    PositiveQuotient(a * b, den);
  }

  lemma {:induction false} PositiveQuotient(x: real, den: real)
    requires x > 0.0 && den > 0.0
    ensures x / den > 0.0
  {
  }

  lemma {:induction false} StandingPrefix(q: Problem, a: seq<int>, b: seq<int>, perMain: real, perFec: real,
                                          maxFec: int, k: nat)
    requires q.lag >= 1 && k <= |a| && k <= |b| && a[..k] == b[..k]
    ensures MainStanding(q, a, perMain, k) == MainStanding(q, b, perMain, k)
    ensures FecStanding(q, a, perMain, perFec, maxFec, k) == FecStanding(q, b, perMain, perFec, maxFec, k)
  {
    hide Score;
    if k > 0 {
      assert a[..k - 1] == a[..k][..k - 1] == b[..k - 1];
      assert k > 1 ==> a[..1] == a[..k][..1] == b[..1];
      StandingPrefix(q, a, b, perMain, perFec, maxFec, k - 1);
      if k > 1 {
        StandingPrefix(q, a, b, perMain, perFec, maxFec, 1);
      }
    }
  }

  /** The running report stands where the threshold rule stands. */
  ghost predicate AtStanding(r: Report, st: Standing) {
    r.n == st.n && r.thr == st.thr
  }

  lemma {:induction false} ScoreOfPick(q: Problem, ps: seq<int>, p: int, num: real, den: real)
    requires q.lag >= 1 && den > 0.0 && num == Num(q, ps, p) && den == Den(q, ps, p)
    ensures Score(q, (ps + [p])[..|ps| + 1]) == Ratio(num, den)
  {
    hide Num, Den, Ratio;
    var all := ps + [p];
    assert all[..|ps| + 1] == all && all[..|all| - 1] == ps;
  }

  /** Standings after one more pick. */
  lemma {:induction false} NextStanding(q: Problem, ps: seq<int>, p: int, main: Report, fec: Report, perMain: real,
                                        perFec: real, maxFec: int, num: real, den: real)
    requires q.lag >= 1 && |ps| >= 1 && den > 0.0 && num == Num(q, ps, p) && den == Den(q, ps, p)
    requires AtStanding(main, MainStanding(q, ps, perMain, |ps|))
    requires AtStanding(fec, FecStanding(q, ps, perMain, perFec, maxFec, |ps|))
    ensures AtStanding(Improved(main, perMain, |ps| + 1, num, den), MainStanding(q, ps + [p], perMain, |ps| + 1))
    ensures AtStanding(if maxFec >= |ps| then Improved(fec, perFec, |ps| + 1, num, den) else fec,
                       FecStanding(q, ps + [p], perMain, perFec, maxFec, |ps| + 1))
  {
    hide Num, Den, Ratio, Score;
    var ps' := ps + [p];
    assert ps'[..|ps|] == ps[..|ps|] && ps'[..|ps| + 1] == ps';
    StandingPrefix(q, ps', ps, perMain, perFec, maxFec, |ps|);
    ScoreOfPick(q, ps, p, num, den);
  }

  // -------------------------------------------------------------- the search

  lemma {:induction false} FlatStart(q: Problem, i: int)
    requires q.lag >= q.n >= 1 && |q.phi| >= 1 && 0 <= i < q.n
    ensures Num(q, [], i) == AbsOf(q, i) && Den(q, [], i) == q.phi[0] + EPS
  {
    hide AbsOf;
    NumStart(q, i);
    DenStart(q, i);
    FormOfSingles(q, i, i);
  }

  lemma {:induction false} LargerRatio(a: real, b: real, den: real)
    requires 0.0 <= a <= b && den > 0.0
    ensures Ratio(a, den) <= Ratio(b, den)
  {
    assert a * a <= b * b;
  }

  /** With one energy for all candidates, the greatest correlation is best. */
  lemma {:induction false} FirstIsBest(q: Problem, p: int)
    requires q.lag >= q.n >= 1 && |q.phi| >= 1 && 0 <= p < q.n && q.phi[0] + EPS > 0.0
    requires forall j :: 0 <= j < q.n ==> AbsOf(q, j) <= AbsOf(q, p)
    ensures IsBest(q, [], p)
  {
    hide Ratio, Num, Den;
    FlatStart(q, p);
    forall j | 0 <= j < q.n ensures Merit(q, [], j) <= Merit(q, [], p) {
      FlatStart(q, j);
      LargerRatio(AbsOf(q, j), AbsOf(q, p), q.phi[0] + EPS);
    }
  }

  method Start(q: Problem, ghost h: seq<real>, dAbs: array<real>, ghost dSign: seq<real>)
    returns (num: array<real>, den: array<real>, p: int)
    requires Searchable(q, h) && q.lag >= q.n && SignsOf(q, dAbs[..], dSign)
    ensures fresh(num) && fresh(den) && num != den && num.Length == den.Length == q.n
    ensures Exact(q, [], num[..], den[..]) && IsBest(q, [], p) && 0 <= p < q.n && den[p] > 0.0
  {
    hide Num, Den, AbsOf, SignOf, IsBest, Autocorrelation;
    num, den := new real[q.n], new real[q.n];
    assert dAbs.Length == q.n;
    assert forall i :: 0 <= i < q.n ==> dAbs[i] == dAbs[..][i] == AbsOf(q, i);
    for i := 0 to q.n
      invariant forall j :: 0 <= j < i ==> den[j] == q.phi[0] + EPS && num[j] == AbsOf(q, j)
    {
      den[i] := q.phi[0] + EPS;
      num[i] := dAbs[i];
    }
    p := GetMaxi(num[..]);
    forall i | 0 <= i < q.n ensures num[..][i] == Num(q, [], i) && den[..][i] == Den(q, [], i) {
      FlatStart(q, i);
    }
    ExactPositive(q, h, [], num[..], den[..]);
    assert den[..][p] == den[p] && forall j :: 0 <= j < q.n ==> num[..][j] == AbsOf(q, j);
    FirstIsBest(q, p);
  }

  method FlatSigns(q: Problem) returns (dAbs: array<real>, dSign: array<real>)
    requires q.Valid() && q.lag >= q.n >= 1
    ensures fresh(dAbs) && fresh(dSign) && dAbs != dSign && SignsOf(q, dAbs[..], dSign[..])
  {
    hide Proj;
    dAbs, dSign := CalcDAbsAndSign(q.d);
    forall i | 0 <= i < q.n ensures dAbs[..][i] == AbsOf(q, i) && dSign[..][i] == SignOf(q, i) {
      ProjOfSingle(q, i);
    }
  }

  /** The second rate shares the first pulse; without room for one it stays at threshold 0. */
  ghost predicate FecRunning(q: Problem, ps: seq<int>, r: Report, maxFec: int)
    requires q.lag >= 1
  {
    Running(q, ps, r) || (maxFec <= 0 && r.thr == 0.0)
  }

  method First(q: Problem, num: array<real>, den: array<real>, p: int, perMain: real, maxFec: int)
    returns (ps: seq<int>, main: Report, fec: Report)
    requires q.lag >= 1 && 0 <= p < num.Length == den.Length == q.n && den[p] > 0.0
    requires Exact(q, [], num[..], den[..]) && IsBest(q, [], p)
    ensures ps == [p] && Greedy(q, ps, 1) && Running(q, ps, main) && FecRunning(q, ps, fec, maxFec)
    ensures AtStanding(main, MainStanding(q, ps, perMain, 1))
    ensures forall perFec :: AtStanding(fec, FecStanding(q, ps, perMain, perFec, maxFec, 1))
  {
    hide Num, Den, IsBest, Scores, Ratio, Score;
    ScoreOfPick(q, [], p, num[p], den[p]);
    assert MainStanding(q, [p], perMain, 0) == NO_WINNER;
    ps := [p];
    assert num[..][p] == num[p] && den[..][p] == den[p] && [] + [p] == [p];
    main := Improved(SILENT, perMain, 1, num[p], den[p]);
    ImprovedRuns(q, [], p, SILENT, perMain, num[p], den[p]);
    fec := SILENT;
    if main.n == 1 {
      fec := Report(if maxFec > 0 then 1 else 0, main.wnrg, main.gain, main.fcbWnrg, 0.0);
    }
    assert Greedy(q, [], 0);
    GreedySnoc(q, [], p);
  }

  /** One more pulse: update, choose, report. */
  method Next(q: Problem, flip: seq<real>, ghost h: seq<real>, num: array<real>, den: array<real>, dAbs: array<real>,
              dSign: array<real>, ps: seq<int>, main: Report, fec: Report, perMain: real, perFec: real, maxFec: int)
    returns (ps': seq<int>, main': Report, fec': Report)
    requires Searchable(q, h) && q.lag >= q.n && FlipOf(q, flip) && |ps| >= 1 && Inside(q, ps) && Greedy(q, ps, |ps|)
    requires SignsOf(q, dAbs[..], dSign[..]) && num != den && num != dAbs && num != dSign && den != dAbs && den != dSign
    requires Exact(q, ps[..|ps| - 1], num[..], den[..]) && Running(q, ps, main) && FecRunning(q, ps, fec, maxFec)
    requires AtStanding(main, MainStanding(q, ps, perMain, |ps|))
    requires AtStanding(fec, FecStanding(q, ps, perMain, perFec, maxFec, |ps|))
    modifies num, den
    ensures |ps'| == |ps| + 1 && Inside(q, ps') && Greedy(q, ps', |ps| + 1) && Exact(q, ps'[..|ps|], num[..], den[..])
    ensures Running(q, ps', main') && FecRunning(q, ps', fec', maxFec)
    ensures AtStanding(main', MainStanding(q, ps', perMain, |ps'|))
    ensures AtStanding(fec', FecStanding(q, ps', perMain, perFec, maxFec, |ps'|))
  {
    hide Num, Den, IsBest, Scores, Ratio, AbsOf, SignOf, Greedy, FlipOf, Autocorrelation, MainStanding, FecStanding;
    var k := |ps|;
    assert ps[..k - 1] + [ps[k - 1]] == ps;
    Extend(q, flip, num, den, dAbs, dSign, ps[..k - 1], ps[k - 1]);
    var p := PickBest(q, h, ps, num, den);
    ps' := ps + [p];
    assert ps'[..k] == ps;
    GreedySnoc(q, ps, p);
    assert num[..][p] == num[p] && den[..][p] == den[p];
    NextStanding(q, ps, p, main, fec, perMain, perFec, maxFec, num[p], den[p]);
    main' := Improved(main, perMain, k + 1, num[p], den[p]);
    ImprovedRuns(q, ps, p, main, perMain, num[p], den[p]);
    fec' := fec;
    if maxFec >= k {
      fec' := Improved(fec, perFec, k + 1, num[p], den[p]);
      ImprovedRuns(q, ps, p, fec, perFec, num[p], den[p]);
    } else if Running(q, ps, fec) {
      RunningSnoc(q, ps, p, fec);
    }
  }

  /** smplFcbSearch. Every pulse is the one a search that recomputed correlation and energy from
      scratch would pick; each rate sends the prefix of them that last passed its threshold, or
      nothing; and the numbers reported for it are those of the codes sent. */
  method FcbSearch(q: Problem, flip: seq<real>, ghost h: seq<real>, perMain: real, perFec: real, maxMain: int,
                   maxFec: int)
    returns (ps: seq<int>, mainCodes: seq<int>, main: Report, fecCodes: seq<int>, fec: Report)
    requires Searchable(q, h) && q.lag >= q.n && FlipOf(q, flip)
    ensures |ps| == (if maxMain > 1 then maxMain else 1) && Inside(q, ps) && Greedy(q, ps, |ps|)
    ensures CodesOf(q, ps, mainCodes) && Reported(q, mainCodes, main)
    ensures CodesOf(q, ps, fecCodes) && Reported(q, fecCodes, fec)
    ensures var st := MainStanding(q, ps, perMain, |ps|); main.n == if st.thr > 0.0 then st.n else 0
    ensures fec.n == FecSends(q, ps, perMain, perFec, maxFec)
    ensures fec.n > Max(maxFec, 0) <==> OverLimit(q, ps, perMain, perFec, maxFec)
    ensures fec.n <= (if maxFec > 0 then maxFec + 1 else 0) && (maxMain <= maxFec ==> fec.n <= Max(maxFec, 0))
  {
    hide Num, Den, IsBest, Running, Exact, SignsOf, Greedy, MainStanding, FecStanding, FlipOf, Autocorrelation, CodesOf;
    hide Reported;
    ps, main, fec := [], SILENT, SILENT;
    var dAbs, dSign := FlatSigns(q);
    var num, den, p := Start(q, h, dAbs, dSign[..]);
    ps, main, fec := First(q, num, den, p, perMain, maxFec);
    for pulseNr := 1 to if maxMain > 1 then maxMain else 1
      invariant |ps| == pulseNr && Inside(q, ps) && Greedy(q, ps, pulseNr)
      invariant SignsOf(q, dAbs[..], dSign[..]) && num != den && num != dAbs && num != dSign && den != dAbs
      invariant den != dSign
      invariant Exact(q, ps[..pulseNr - 1], num[..], den[..])
      invariant Running(q, ps, main) && FecRunning(q, ps, fec, maxFec)
      invariant AtStanding(main, MainStanding(q, ps, perMain, pulseNr))
      invariant AtStanding(fec, FecStanding(q, ps, perMain, perFec, maxFec, pulseNr))
    {
      ps, main, fec := Next(q, flip, h, num, den, dAbs, dSign, ps, main, fec, perMain, perFec, maxFec);
    }
    SignsAt(q, dAbs, dSign);
    mainCodes, main := Emit(q, ps, dSign, main);
    fecCodes, fec := Emit(q, ps, dSign, fec);
    FecLimit(q, ps, perMain, perFec, maxFec);
  }
}
