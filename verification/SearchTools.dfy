/** Helpers that both fixed-codebook searches use (internal/voip/codec/mlow/celp_enc.go, lines
172-177, 275-305, 448-478 and 1071-1081), and what a finished search reports. */
module SearchTools {
  import opened PulseForms
  import opened PulseEnergy
  import opened PulseScores

  const MAX_SF := 160

  /** celpCalcDAbsAndSign. */
  method CalcDAbsAndSign(d: seq<real>) returns (dAbs: array<real>, dSign: array<real>)
    ensures fresh(dAbs) && fresh(dSign) && dAbs.Length == dSign.Length == |d| && dAbs != dSign
    ensures forall i :: 0 <= i < |d| ==> dAbs[i] == if d[i] > 0.0 then d[i] else -d[i]
    ensures forall i :: 0 <= i < |d| ==> dSign[i] == if d[i] > 0.0 then 1.0 else -1.0
  {
    dAbs, dSign := new real[|d|], new real[|d|];
    for i := 0 to |d|
      invariant forall j :: 0 <= j < i ==> dAbs[j] == if d[j] > 0.0 then d[j] else -d[j]
      invariant forall j :: 0 <= j < i ==> dSign[j] == if d[j] > 0.0 then 1.0 else -1.0
    {
      if d[i] > 0.0 {
        dAbs[i], dSign[i] := d[i], 1.0;
      } else {
        dAbs[i], dSign[i] := -d[i], -1.0;
      }
    }
  }

  ghost predicate SignsOf(q: Problem, dAbs: seq<real>, dSign: seq<real>)
    requires q.lag >= 1
  {
    |dAbs| == |dSign| == q.n && forall i :: 0 <= i < q.n ==> dAbs[i] == AbsOf(q, i) && dSign[i] == SignOf(q, i)
  }

  /** celpNonZeroRange: the rows where column col of the matrix can be non-zero. */
  function NonZeroRange(q: Problem, col: int): (r: (int, int))
    requires 0 <= col < q.n && |q.phi| >= 1
    ensures 0 <= r.0 <= col < r.1 <= q.n
    ensures forall i :: 0 <= i < q.n && !(r.0 <= i < r.1) ==> q.Phi(col, i) == 0.0
  {
    (if col - |q.phi| + 1 > 0 then col - |q.phi| + 1 else 0,
     if col + |q.phi| < q.n then col + |q.phi| else q.n)
  }

  /** phiFlip: the autocorrelation mirrored around index 160. */
  ghost predicate FlipOf(q: Problem, flip: seq<real>) {
    q.n <= MAX_SF && |flip| == 2 * MAX_SF && forall k :: 0 < k < 2 * MAX_SF ==> flip[k] == q.Phi(MAX_SF, k)
  }

  /** Row i of column col: one window of phiFlip, at celpPhiColOffset(col). */
  function Column(q: Problem, flip: seq<real>, col: int, i: int): (x: real)
    requires FlipOf(q, flip) && 0 <= col < q.n && 0 <= i < q.n
    ensures x == q.Phi(col, i)
  {
    var colOff := MAX_SF - col;
    assert q.Phi(MAX_SF, colOff + i) == q.Phi(col, i);
    flip[colOff + i]
  }

  method BuildFlip(q: Problem, phi: seq<real>, lResp: nat) returns (flip: array<real>)
    requires q.n <= MAX_SF && |phi| == MAX_SF && lResp < MAX_SF && q.phi == phi[..lResp] && phi[lResp] == 0.0
    ensures fresh(flip) && FlipOf(q, flip[..])
  {
    flip := new real[2 * MAX_SF](_ => 0.0);
    for i := 0 to lResp + 1
      invariant forall k :: 0 < k < 2 * MAX_SF ==> flip[k] == if Gap(MAX_SF, k) < i then phi[Gap(MAX_SF, k)] else 0.0
    {
      flip[MAX_SF - i] := phi[i];
      flip[MAX_SF + i] := phi[i];
    }
  }

  /** celpGetMaxi: the first index of the greatest entry. */
  method GetMaxi(x: seq<real>) returns (i: nat)
    requires |x| >= 1
    ensures i < |x| && (forall j :: 0 <= j < |x| ==> x[j] <= x[i]) && (forall j :: 0 <= j < i ==> x[j] < x[i])
  {
    i := 0;
    for n := 1 to |x|
      invariant i < n && (forall j :: 0 <= j < n ==> x[j] <= x[i]) && (forall j :: 0 <= j < i ==> x[j] < x[i])
    {
      if x[n] > x[i] {
        i := n;
      }
    }
  }

  /** The energy a gain-scaled choice removes from the target. */
  function Ratio(num: real, den: real): real
    requires den > 0.0
  {
    num * num / den
  }

  /** num and den hold, for every candidate, correlation and energy computed from scratch. */
  ghost predicate Exact(q: Problem, ps: seq<int>, num: seq<real>, den: seq<real>)
    requires q.lag >= 1
  {
    |num| == |den| == q.n && forall i :: 0 <= i < q.n ==> num[i] == Num(q, ps, i) && den[i] == Den(q, ps, i)
  }

  ghost predicate Positive(den: seq<real>) {
    forall i :: 0 <= i < |den| ==> den[i] > 0.0
  }

  lemma {:induction false} ExactPositive(q: Problem, h: seq<real>, ps: seq<int>, num: seq<real>, den: seq<real>)
    requires Searchable(q, h) && Inside(q, ps) && Exact(q, ps, num, den)
    ensures Positive(den)
  {
    hide Den, Num, Autocorrelation;
    forall i | 0 <= i < |den| ensures den[i] > 0.0 {
      DenPositive(q, h, ps, i);
    }
  }

  /** celpQ. */
  method Quotients(num: seq<real>, den: seq<real>) returns (qs: seq<real>)
    requires |num| == |den| && Positive(den)
    ensures |qs| == |num| && forall i :: 0 <= i < |num| ==> qs[i] == Ratio(num[i], den[i])
  {
    hide Ratio;
    qs := [];
    for i := 0 to |num|
      invariant |qs| == i && forall j :: 0 <= j < i ==> qs[j] == Ratio(num[j], den[j])
    {
      qs := qs + [Ratio(num[i], den[i])];
    }
  }

  // -------------------------------------------------------------- the winner

  /** Figure of merit of candidate i after ps, from scratch. */
  ghost function Merit(q: Problem, ps: seq<int>, i: int): real
    requires q.lag >= 1
  {
    if Den(q, ps, i) > 0.0 then Ratio(Num(q, ps, i), Den(q, ps, i)) else 0.0
  }

  /** Merit of a whole choice: of its last pulse after those before it. */
  ghost function Score(q: Problem, ps: seq<int>): real
    requires q.lag >= 1 && ps != []
  {
    Merit(q, ps[..|ps| - 1], ps[|ps| - 1])
  }

  /** The threshold of one rate, how many pulses won last, and with what score. */
  datatype Standing = Standing(thr: real, n: nat, won: real)

  const NO_WINNER := Standing(0.0, 0, 0.0)

  /** celpCheckIfBetter: each further pulse has to earn `per` more. */
  function Consider(st: Standing, per: real, score: real, n: nat): Standing {
    if score > st.thr + per then Standing(score, n, score) else st.(thr := st.thr + per)
  }

  /** The standing after the first k of a list of scores, one for each number of pulses. */
  ghost function Race(scores: seq<real>, per: real, k: nat): Standing
    requires k <= |scores|
  {
    if k == 0 then NO_WINNER else Consider(Race(scores, per, k - 1), per, scores[k - 1], k)
  }

  /** What n pulses score once each has been paid for. */
  ghost function Net(scores: seq<real>, per: real, n: nat): real
    requires n <= |scores|
  {
    if n == 0 then 0.0 else scores[n - 1] - Cost(per, n)
  }

  function Cost(per: real, n: nat): real { per * n as real }

  /** The rising threshold picks the number of pulses with the greatest net score, the least of several,
      no pulse at all counting zero. */
  lemma {:induction false} RaceIsBest(scores: seq<real>, per: real, k: nat, j: nat)
    requires j <= k <= |scores|
    ensures var st := Race(scores, per, k);
            && st.n <= k && st.thr == Net(scores, per, st.n) + Cost(per, k)
            && st.won == (if st.n == 0 then 0.0 else scores[st.n - 1])
            && Net(scores, per, j) <= Net(scores, per, st.n)
            && (j < st.n ==> Net(scores, per, j) < Net(scores, per, st.n))
  {
    hide Cost;
    CostStep(per, k);
    if k > 0 {
      RaceIsBest(scores, per, k - 1, if j < k then j else k - 1);
    }
  }

  lemma {:induction false} CostStep(per: real, k: nat)
    ensures Cost(per, k) == if k == 0 then 0.0 else Cost(per, k - 1) + per
  {
  }

  // ----------------------------------------------------------------- reports

  /** What a search reports for one rate, with its running threshold. */
  datatype Report = Report(n: nat, wnrg: real, gain: real, fcbWnrg: real, thr: real)

  const SILENT := Report(0, 0.0, 0.0, 0.0, 0.0)

  ghost predicate Scores(q: Problem, a: Train, wnrg: real, gain: real, fcbWnrg: real) {
    && fcbWnrg == q.Energy(a) + 0.0000000000000001 > 0.0
    && gain == q.Corr(a) / fcbWnrg && wnrg == Ratio(q.Corr(a), fcbWnrg)
  }

  /** A pulse as sent: its position plus one, negated for a negative pulse. */
  function Code(pos: nat, positive: bool): (c: int)
    ensures c != 0 && (c > 0 <==> positive)
  {
    if positive then 1 + pos else -(1 + pos)
  }

  /** sign = 1 + 2 (c >> 15) and pos = c sign - 1, as celpFcbSynthesize takes a code apart. */
  function CodeSign(c: int): int { if c < 0 then -1 else 1 }
  function CodePos(c: int): int { c * CodeSign(c) - 1 }

  /** The train that the first k codes stand for. */
  ghost function Coded(q: Problem, codes: seq<int>, k: nat): Train
    requires q.lag >= 1 && k <= |codes|
  {
    if k == 0 then Nil
    else Join(Coded(q, codes, k - 1), q.Echo(CodePos(codes[k - 1]), if codes[k - 1] < 0 then -1.0 else 1.0))
  }

  ghost predicate CodesOf(q: Problem, ps: seq<int>, codes: seq<int>)
    requires q.lag >= 1
  {
    |codes| <= |ps| && forall k :: 0 <= k < |codes| ==> ps[k] >= 0 && codes[k] == Code(ps[k], SignOf(q, ps[k]) > 0.0)
  }

  lemma {:induction false} CodedIsChosen(q: Problem, ps: seq<int>, codes: seq<int>, k: nat)
    requires q.lag >= 1 && CodesOf(q, ps, codes) && k <= |codes|
    ensures Coded(q, codes, k) == Chosen(q, ps, k)
  {
    hide Join, Proj;
    if k > 0 {
      CodedIsChosen(q, ps, codes, k - 1);
      assert CodePos(codes[k - 1]) == ps[k - 1];
    }
  }

  /** What the searches promise: the codes and the numbers beside them agree. Either nothing is
      sent and all numbers are zero, or the numbers are those of the coded train. */
  ghost predicate Reported(q: Problem, codes: seq<int>, r: Report)
    requires q.lag >= 1
  {
    && |codes| == r.n && (forall k :: 0 <= k < |codes| ==> codes[k] != 0 && 0 <= CodePos(codes[k]) < q.n)
    && if r.n == 0 then r.wnrg == r.gain == r.fcbWnrg == 0.0
       else Scores(q, Coded(q, codes, |codes|), r.wnrg, r.gain, r.fcbWnrg)
  }

  lemma {:induction false} CodedWithin(q: Problem, codes: seq<int>, k: nat)
    requires q.lag >= 1 && k <= |codes|
    requires forall j :: 0 <= j < |codes| ==> codes[j] != 0 && 0 <= CodePos(codes[j]) < q.n
    ensures Within(Coded(q, codes, k), q.n)
  {
    if k > 0 {
      var w := if codes[k - 1] < 0 then -1.0 else 1.0;
      CodedWithin(q, codes, k - 1);
      EchoWithin(q, CodePos(codes[k - 1]), w);
      JoinWithin(Coded(q, codes, k - 1), q.Echo(CodePos(codes[k - 1]), w), q.n);
    }
  }

  /** The reported numbers in terms of the vector s that the codes add up to: energy is s' Phi s plus
      the guard, gain and score are those of the projection of d on s. */
  lemma {:induction false} ReportedVector(q: Problem, codes: seq<int>, r: Report)
    requires q.lag >= 1 && Reported(q, codes, r) && r.n > 0
    ensures var s := Coded(q, codes, |codes|);
            && r.fcbWnrg == QuadSum(q, s, s, q.n) + EPS > 0.0
            && r.gain == DotSum(q, s, q.n) / r.fcbWnrg && r.wnrg == Ratio(DotSum(q, s, q.n), r.fcbWnrg)
  {
    hide Ratio, Coded, QuadSum, DotSum;
    hide Problem.Form, Problem.Corr;
    CodedWithin(q, codes, |codes|);
    FormIsQuadratic(q, Coded(q, codes, |codes|), Coded(q, codes, |codes|));
    CorrIsDot(q, Coded(q, codes, |codes|));
  }

  /** celpFcbSynthesize: without sharpening, the vector the codes add up to. */
  method FcbSynthesize(q: Problem, codes: seq<int>) returns (fcb: array<real>)
    requires q.lag >= q.n >= 1 && forall k :: 0 <= k < |codes| ==> codes[k] != 0 && 0 <= CodePos(codes[k]) < q.n
    ensures fresh(fcb) && fcb.Length == q.n
    ensures forall x :: 0 <= x < q.n ==> fcb[x] == Val(Coded(q, codes, |codes|), x)
  {
    fcb := new real[q.n](_ => 0.0);
    for k := 0 to |codes|
      invariant forall x :: 0 <= x < q.n ==> fcb[x] == Val(Coded(q, codes, k), x)
    {
      var sign := CodeSign(codes[k]);
      var pos := codes[k] * sign - 1;
      forall x | 0 <= x < q.n
        ensures Val(Coded(q, codes, k + 1), x) == Val(Coded(q, codes, k), x) + if x == pos then sign as real else 0.0
      {
        UnitAdds(q, Coded(q, codes, k), pos, sign as real, x);
      }
      fcb[pos] := fcb[pos] + sign as real;
    }
  }

  lemma {:induction false} UnitAdds(q: Problem, a: Train, pos: int, w: real, x: int)
    requires q.lag >= q.n >= 1 && 0 <= pos < q.n
    ensures Val(Join(a, q.Echo(pos, w)), x) == Val(a, x) + if x == pos then w else 0.0
  {
    assert q.Echo(pos + q.lag, q.Fade(w)) == Nil;
  }
}
