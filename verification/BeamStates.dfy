/** Survivor states of the beam search: set-up and addPulse (internal/voip/codec/mlow/celp_enc.go,
lines 748-846 and 871-925). */
module BeamStates {
  import opened PulseForms
  import opened PulseEnergy
  import opened PulseScores
  import opened SearchTools
  import opened BeamSums
  import opened GreedySearch

  /** fcbState: the stored pulses, and correlation and energy with each candidate added. */
  datatype FcbState = FcbState(positions: seq<int>, signs: seq<real>, num: seq<real>, den: seq<real>)

  ghost predicate StateOk(q: Problem, s: FcbState)
    requires q.lag >= 1
  {
    Stored(q, s.positions, s.signs) && Exact(q, s.positions, s.num, s.den)
  }

  /** The problem the search works on: sharpening counts only with a lag inside the subframe. */
  function Effective(n: nat, phi: seq<real>, d: seq<real>, sharp: real, lag: int): (q: Problem)
    requires n >= 1
    ensures q.n == n && q.phi == phi && q.d == d && q.lag >= 1
  {
    if sharp != 0.0 && lag > 0 && lag < n then Problem(n, phi, d, sharp, lag) else Problem(n, phi, d, 0.0, n)
  }

  /** A lag from 1 to n - 1 repeats pulses, `sharp` times weaker each time; any other, or no sharpening,
      leaves every pulse alone. */
  lemma {:induction false} EffectiveEcho(n: nat, phi: seq<real>, d: seq<real>, sharp: real, lag: int, p: nat, w: real)
    requires p < n
    ensures var q := Effective(n, phi, d, sharp, lag);
            && (1 <= lag < n && sharp != 0.0 ==>
                  q.Echo(p, w) == Pulse(if p + lag < n then q.Echo(p + lag, Times(w, sharp)) else Nil, p, w))
            && (lag <= 0 || lag >= n || sharp == 0.0 ==> q.Echo(p, w) == Pulse(Nil, p, w))
  {
  }

  // ------------------------------------------------------------------ set-up

  /** dAbs and dSign of the target as seen through the echoes. */
  method SharpSigns(q: Problem) returns (dAbs: array<real>, dSign: array<real>)
    requires q.Valid()
    ensures fresh(dAbs) && fresh(dSign) && dAbs != dSign && SignsOf(q, dAbs[..], dSign[..])
  {
    hide Proj;
    var dNew := [];
    for j := 0 to q.n
      invariant |dNew| == j && forall i :: 0 <= i < j ==> dNew[i] == Proj(q, i)
    {
      var x := Project(q, j);
      dNew := dNew + [x];
    }
    dAbs, dSign := CalcDAbsAndSign(dNew);
  }

  /** One pulse's energy is that of any other with equally many echoes. */
  lemma {:induction false} SameEnergy(q: Problem, i: int, t: nat, m: nat)
    requires q.lag >= 1 && t < q.lag && i == q.n - 1 - m * q.lag
    ensures q.Energy(q.Echo(i - t, 1.0)) == q.Energy(q.Echo(i, 1.0))
  {
    hide Problem.Form, Problem.Echo;
    q.EchoShift(i, t, m, 1.0);
    q.FormShift(q.Echo(i, 1.0), q.Echo(i, 1.0), t);
  }

  ghost predicate Filled(q: Problem, den: seq<real>, from: int)
    requires q.lag >= 1
  {
    |den| == q.n && forall x :: 0 <= x < q.n && from < x ==> den[x] == q.Energy(q.Echo(x, 1.0)) + EPS
  }

  method FillBlock(q: Problem, den: array<real>, offset: int, length: nat, res: real)
    requires den.Length == q.n && length <= offset + 1 && offset < q.n
    modifies den
    ensures forall x :: 0 <= x < q.n ==> den[x] == if offset - length < x <= offset then res else old(den[x])
  {
    for jj := 0 to length
      invariant forall x :: 0 <= x < q.n ==> den[x] == if offset - jj < x <= offset then res else old(den[x])
    {
      den[offset - jj] := res;
    }
  }

  /** The initial energies, one quadratic sum per block of `lag` candidates. */
  method BlockDen(q: Problem, flip: seq<real>) returns (den: array<real>)
    requires q.Valid() && q.n >= 1 && FlipOf(q, flip)
    ensures fresh(den) && Filled(q, den[..], -1)
  {
    hide Problem.Form, Problem.Echo, Problem.Energy, FlipOf;
    den := new real[q.n](_ => 0.0);
    var offset, i := q.n - 1, q.n - 1;
    ghost var m := 0;
    while i >= 0
      invariant fresh(den) && i == q.n - 1 - m * q.lag && i < q.n && m >= 0
      invariant if i >= 0 then offset == i else offset == -1
      invariant Filled(q, den[..], offset)
      decreases i + 1
    {
      var e := SelfForm(q, flip, i);
      var res := EPS + e;
      var length := if offset + 1 < q.lag then offset + 1 else q.lag;
      forall x | offset - length < x <= offset ensures q.Energy(q.Echo(x, 1.0)) + EPS == res {
        SameEnergy(q, i, i - x, m);
      }
      ghost var before := den[..];
      FillBlock(q, den, offset, length, res);
      forall x | 0 <= x < q.n && offset - length < x ensures den[..][x] == q.Energy(q.Echo(x, 1.0)) + EPS {
        if x > offset {
          assert before[x] == q.Energy(q.Echo(x, 1.0)) + EPS;
        }
      }
      offset := offset - length;
      assert (m + 1) * q.lag == m * q.lag + q.lag;
      i, m := i - q.lag, m + 1;
    }
  }

  /** The state before any pulse is stored. */
  method StartState(q: Problem, flip: seq<real>, dAbs: array<real>, ghost dSign: seq<real>, flat: bool)
    returns (s: FcbState)
    requires q.Valid() && q.n >= 1 && FlipOf(q, flip) && SignsOf(q, dAbs[..], dSign) && (flat ==> q.lag >= q.n)
    ensures s.positions == [] && StateOk(q, s)
  {
    hide AbsOf, SignOf, Num, Den, FlipOf;
    hide Problem.Form, Problem.Energy, Problem.Echo;
    var den: array<real>;
    if flat {
      den := new real[q.n](_ => q.phi[0] + EPS);
      forall i | 0 <= i < q.n ensures den[..][i] == q.Energy(q.Echo(i, 1.0)) + EPS {
        FlatEnergy(q, i);
      }
    } else {
      den := BlockDen(q, flip);
    }
    s := FcbState([], [], dAbs[..], den[..]);
    forall i | 0 <= i < q.n ensures s.num[i] == Num(q, [], i) && s.den[i] == Den(q, [], i) {
      NumStart(q, i);
      DenStart(q, i);
    }
  }

  lemma {:induction false} FlatEnergy(q: Problem, i: int)
    requires q.lag >= q.n >= 1 && |q.phi| >= 1 && 0 <= i < q.n
    ensures q.Energy(q.Echo(i, 1.0)) == q.phi[0]
  {
    FormOfSingles(q, i, i);
  }

  // ---------------------------------------------------------------- addPulse

  /** The part of the energy change that every candidate shares, without echoes. */
  method FlatShared(q: Problem, flip: seq<real>, ps: seq<int>, signs: seq<real>, p: nat) returns (x: real, self: real)
    requires q.lag >= q.n >= 1 && FlipOf(q, flip) && Stored(q, ps, signs) && p < q.n
    ensures x == q.Form(q.Echo(p, 1.0), Chosen(q, ps, |ps|)) && self == q.Energy(q.Echo(p, 1.0))
  {
    hide SignOf, Times, Chosen;
    hide Problem.Form, Problem.Row;
    x := 0.0;
    NoneChosen(q, ps);
    RowNone(q, p);
    for i := 0 to |ps|
      invariant x == q.Row(p, Chosen(q, ps, i))
    {
      RowChosen(q, p, ps, i);
      x := x + Times(signs[i], Column(q, flip, p, ps[i]));
    }
    FormOfSingle(q, p, Chosen(q, ps, |ps|));
    FormOfSingles(q, p, p);
    self := Column(q, flip, p, p);
  }

  /** Cross terms, without echoes. */
  method FlatCross(q: Problem, flip: seq<real>, p: nat) returns (dd: array<real>)
    requires q.Valid() && q.lag >= q.n >= 1 && FlipOf(q, flip) && p < q.n
    ensures fresh(dd) && dd.Length == q.n
    ensures forall i :: 0 <= i < q.n ==> dd[i] == q.Form(q.Echo(p, 1.0), q.Echo(i, 1.0))
  {
    hide Times, FlipOf;
    hide Problem.Form, Problem.Echo;
    dd := new real[q.n](_ => 0.0);
    var (nz0, nz1) := NonZeroRange(q, p);
    for i := nz0 to nz1
      invariant fresh(dd) && forall j :: 0 <= j < q.n ==> dd[j] == if nz0 <= j < i then q.Phi(p, j) else 0.0
    {
      dd[i] := Column(q, flip, p, i);
    }
    forall i | 0 <= i < q.n ensures dd[i] == q.Form(q.Echo(p, 1.0), q.Echo(i, 1.0)) {
      FormOfSingles(q, p, i);
    }
  }

  /** addPulse's arithmetic: exact for the stored pulses before, exact with one more after. */
  method StorePulse(q: Problem, flip: seq<real>, dAbs: array<real>, dSign: array<real>, s: FcbState, p: nat,
                    sign: real, flat: bool)
    returns (s': FcbState)
    requires q.Valid() && q.n >= 1 && FlipOf(q, flip) && SignsOf(q, dAbs[..], dSign[..]) && (flat ==> q.lag >= q.n)
    requires StateOk(q, s) && p < q.n && sign == SignOf(q, p)
    ensures s'.positions == s.positions + [p] && StateOk(q, s')
  {
    hide AbsOf, SignOf, Num, Den, Times, FlipOf, Chosen;
    hide Problem.Form, Problem.Energy, Problem.Echo;
    var x, self, dd;
    if flat {
      x, self := FlatShared(q, flip, s.positions, s.signs, p);
      dd := FlatCross(q, flip, p);
    } else {
      x := StoredForm(q, flip, s.positions, s.signs, p);
      self := SelfForm(q, flip, p);
      dd := CrossForms(q, flip, p);
    }
    var num, den := Updated(q, s, dAbs, dSign, p, sign, 2.0 * Times(sign, x) + self, dd);
    s' := FcbState(s.positions + [p], s.signs + [sign], num[..], den[..]);
    SignsAt(q, dAbs, dSign);
    forall i | 0 <= i < q.n
      ensures num[..][i] == Num(q, s.positions + [p], i) && den[..][i] == Den(q, s.positions + [p], i)
    {
      NumStep(q, s.positions, p, i);
      DenStep(q, s.positions, p, i);
    }
  }

  /** num and den of the new state, from those of the old one. */
  method Updated(q: Problem, s: FcbState, dAbs: array<real>, dSign: array<real>, p: nat, sign: real, dDen: real,
                 dd: array<real>)
    returns (num: array<real>, den: array<real>)
    requires p < q.n == |s.num| == |s.den| == dAbs.Length == dSign.Length == dd.Length
    ensures fresh(num) && fresh(den) && num.Length == den.Length == q.n
    ensures forall i :: 0 <= i < q.n ==> num[i] == s.num[i] + dAbs[p]
    ensures forall i :: 0 <= i < q.n ==> den[i] == s.den[i] + dDen + 2.0 * Times(sign, Times(dSign[i], dd[i]))
  {
    hide Times;
    num, den := new real[q.n], new real[q.n];
    for i := 0 to q.n
      invariant forall j :: 0 <= j < i ==> num[j] == s.num[j] + dAbs[p] && den[j] == s.den[j]
    {
      num[i], den[i] := s.num[i] + dAbs[p], s.den[i];
    }
    for i := 0 to q.n
      invariant forall j :: 0 <= j < q.n ==> num[j] == s.num[j] + dAbs[p]
      invariant forall j :: 0 <= j < q.n ==> den[j] == s.den[j] + if j < i then dDen else 0.0
    {
      den[i] := den[i] + dDen;
    }
    for i := 0 to q.n
      invariant forall j :: 0 <= j < q.n ==> num[j] == s.num[j] + dAbs[p]
      invariant forall j :: 0 <= j < q.n ==>
                  den[j] == s.den[j] + dDen + if j < i then 2.0 * Times(sign, Times(dSign[j], dd[j])) else 0.0
    {
      den[i] := den[i] + 2.0 * Times(sign, Times(dSign[i], dd[i]));
    }
  }
}
