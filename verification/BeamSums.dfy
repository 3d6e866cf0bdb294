/** The sums of addPulse and of the beam search's set-up when pulses carry pitch-sharpened
echoes (internal/voip/codec/mlow/celp_enc.go, lines 788-838, 873-880 and 905-925), each proved
to be the correlation or form of the echo trains it abbreviates. */
module BeamSums {
  import opened PulseForms
  import opened PulseScores
  import opened SearchTools

  lemma {:induction false} Faded(q: Problem, pos: int, w: real)
    requires q.lag >= 1 && pos < q.n
    ensures q.Echo(pos, w) == Pulse(q.Echo(pos + q.lag, q.Fade(w)), pos, w)
  {
  }

  lemma {:induction false} FadedOut(q: Problem, pos: int, w: real)
    requires q.lag >= 1 && pos >= q.n
    ensures q.Echo(pos, w) == Nil
  {
  }

  lemma {:induction false} RowEcho(q: Problem, p: int, pos: int, w: real)
    requires q.lag >= 1
    ensures q.Row(p, q.Echo(pos, w)) == Times(w, q.Row(p, q.Echo(pos, 1.0)))
  {
    hide Times;
    q.EchoIsScaled(pos, w);
    q.RowScale(p, q.Echo(pos, 1.0), w);
  }

  /** dNew[j]: correlation of the target with pulse j and its echoes. */
  method Project(q: Problem, j: nat) returns (x: real)
    requires q.Valid() && j < q.n
    ensures x == Proj(q, j)
  {
    hide Times;
    hide Problem.Corr, Problem.Echo;
    x := q.d[j];
    var g := q.g;
    var i := j + q.lag;
    Faded(q, j, 1.0);
    CorrPulse(q, q.Echo(i, q.Fade(1.0)), j, 1.0);
    OneTimes(q.d[j]);
    OneTimes(q.g);
    while i < q.n
      invariant i >= 0 && x + q.Corr(q.Echo(i, g)) == Proj(q, j)
      decreases q.n - i
    {
      Faded(q, i, g);
      CorrPulse(q, q.Echo(i + q.lag, q.Fade(g)), i, g);
      x := x + Times(g, q.d[i]);
      g := q.Fade(g);
      i := i + q.lag;
    }
    FadedOut(q, i, g);
    CorrNone(q);
  }

  lemma {:induction false} CorrPulse(q: Problem, a: Train, pos: int, w: real)
    ensures q.Corr(Pulse(a, pos, w)) == q.Corr(a) + Times(w, q.D(pos))
  {
  }

  lemma {:induction false} CorrNone(q: Problem)
    ensures q.Corr(Nil) == 0.0
  {
  }

  lemma {:induction false} OneTimes(x: real)
    ensures Times(1.0, x) == x
  {
  }

  lemma {:induction false} RowPulse(q: Problem, p: int, a: Train, pos: int, w: real)
    ensures q.Row(p, Pulse(a, pos, w)) == q.Row(p, a) + Times(w, q.Phi(p, pos))
  {
  }

  lemma {:induction false} RowNone(q: Problem, p: int)
    ensures q.Row(p, Nil) == 0.0
  {
  }

  lemma {:induction false} FormPulse(q: Problem, a: Train, pos: int, w: real, b: Train)
    ensures q.Form(Pulse(a, pos, w), b) == q.Form(a, b) + Times(w, q.Row(pos, b))
  {
  }

  lemma {:induction false} NoneForm(q: Problem, b: Train)
    ensures q.Form(Nil, b) == 0.0
  {
  }

  /** One column against one train, the echo weights starting at g. */
  method RowSumOf(q: Problem, flip: seq<real>, col: int, from: nat, g: real) returns (x: real)
    requires q.Valid() && FlipOf(q, flip) && 0 <= col < q.n
    ensures x == q.Row(col, q.Echo(from, g))
  {
    hide Times, FlipOf;
    hide Problem.Row, Problem.Echo;
    x := 0.0;
    var g2, pos := g, from;
    while pos < q.n
      invariant x + q.Row(col, q.Echo(pos, g2)) == q.Row(col, q.Echo(from, g))
      decreases q.n - pos
    {
      Faded(q, pos, g2);
      RowPulse(q, col, q.Echo(pos + q.lag, q.Fade(g2)), pos, g2);
      x := x + Times(g2, Column(q, flip, col, pos));
      g2 := q.Fade(g2);
      pos := pos + q.lag;
    }
    FadedOut(q, pos, g2);
    RowNone(q, col);
  }

  lemma {:induction false} ChosenRow(q: Problem, col: int, ps: seq<int>, k: nat, g: real)
    requires q.lag >= 1 && k < |ps|
    ensures Times(g, q.Row(col, Chosen(q, ps, k + 1)))
            == Times(g, q.Row(col, Chosen(q, ps, k))) + Times(SignOf(q, ps[k]), q.Row(col, q.Echo(ps[k], g)))
  {
    hide Times, SignOf;
    var s := SignOf(q, ps[k]);
    q.RowJoin(col, Chosen(q, ps, k), Signed(q, ps[k]));
    Distrib(g, q.Row(col, Chosen(q, ps, k)), q.Row(col, Signed(q, ps[k])));
    RowEcho(q, col, ps[k], s);
    RowEcho(q, col, ps[k], g);
    Swap(g, s, q.Row(col, q.Echo(ps[k], 1.0)));
  }

  ghost predicate Stored(q: Problem, ps: seq<int>, signs: seq<real>)
    requires q.lag >= 1
  {
    |signs| == |ps| && Inside(q, ps) && forall k :: 0 <= k < |ps| ==> signs[k] == SignOf(q, ps[k])
  }

  /** One echo of the new pulse against all stored pulses. */
  method StoredRow(q: Problem, flip: seq<real>, ps: seq<int>, signs: seq<real>, col: int, g: real) returns (x: real)
    requires q.Valid() && FlipOf(q, flip) && 0 <= col < q.n && Stored(q, ps, signs)
    ensures x == Times(g, q.Row(col, Chosen(q, ps, |ps|)))
  {
    hide Times, FlipOf, SignOf;
    hide Problem.Row, Problem.Echo;
    x := 0.0;
    RowNone(q, col);
    ByZero(g);
    for i := 0 to |ps|
      invariant x == Times(g, q.Row(col, Chosen(q, ps, i)))
    {
      ChosenRow(q, col, ps, i, g);
      var one := RowSumOf(q, flip, col, ps[i], g);
      x := x + Times(signs[i], one);
    }
  }

  /** Form of the new pulse's train with all stored pulses. */
  method StoredForm(q: Problem, flip: seq<real>, ps: seq<int>, signs: seq<real>, p: nat) returns (x: real)
    requires q.Valid() && FlipOf(q, flip) && Stored(q, ps, signs)
    ensures x == q.Form(q.Echo(p, 1.0), Chosen(q, ps, |ps|))
  {
    hide Times, FlipOf, SignOf, Chosen, Stored;
    hide Problem.Row, Problem.Echo, Problem.Form;
    ghost var s := Chosen(q, ps, |ps|);
    x := 0.0;
    var g1, pos := 1.0, p;
    while pos < q.n
      invariant x + q.Form(q.Echo(pos, g1), s) == q.Form(q.Echo(p, 1.0), s)
      decreases q.n - pos
    {
      Faded(q, pos, g1);
      FormPulse(q, q.Echo(pos + q.lag, q.Fade(g1)), pos, g1, s);
      var row := StoredRow(q, flip, ps, signs, pos, g1);
      x := x + row;
      g1 := q.Fade(g1);
      pos := pos + q.lag;
    }
    FadedOut(q, pos, g1);
    NoneForm(q, s);
  }

  /** Energy of one pulse with its echoes. */
  method SelfForm(q: Problem, flip: seq<real>, p: nat) returns (x: real)
    requires q.Valid() && FlipOf(q, flip)
    ensures x == q.Energy(q.Echo(p, 1.0))
  {
    hide Times, FlipOf;
    hide Problem.Row, Problem.Echo, Problem.Form;
    ghost var e := q.Echo(p, 1.0);
    x := 0.0;
    var g1, pos := 1.0, p;
    while pos < q.n
      invariant x + q.Form(q.Echo(pos, g1), e) == q.Form(e, e)
      decreases q.n - pos
    {
      Faded(q, pos, g1);
      FormPulse(q, q.Echo(pos + q.lag, q.Fade(g1)), pos, g1, e);
      RowEcho(q, pos, p, g1);
      var row := RowSumOf(q, flip, pos, p, g1);
      x := x + row;
      g1 := q.Fade(g1);
      pos := pos + q.lag;
    }
    FadedOut(q, pos, g1);
    NoneForm(q, e);
  }

  // ------------------------------------------------------------- cross terms

  /** Row i + k of a column, weighted; nothing past the end of the subframe. */
  ghost function Diagonal(q: Problem, col: int, k: nat, g2: real, i: int): real {
    if i + k < q.n then Times(g2, q.Phi(col, i + k)) else 0.0
  }

  /** The column against what candidate i still has to echo from distance k on. */
  ghost function Tail(q: Problem, col: int, k: nat, g2: real, i: int): real
    requires q.lag >= 1
  {
    q.Row(col, q.Echo(i + k, g2))
  }

  lemma {:induction false} TailStep(q: Problem, col: int, k: nat, g2: real, i: int)
    requires q.lag >= 1
    ensures Tail(q, col, k, g2, i) == Tail(q, col, k + q.lag, q.Fade(g2), i) + Diagonal(q, col, k, g2, i)
  {
    hide Times;
    hide Problem.Fade;
    assert i + k + q.lag == i + (k + q.lag);
    if i + k < q.n {
      Faded(q, i + k, g2);
    } else {
      FadedOut(q, i + k, g2);
      FadedOut(q, i + (k + q.lag), q.Fade(g2));
    }
  }

  lemma {:induction false} TailEnd(q: Problem, col: int, k: nat, g2: real, i: int)
    requires q.lag >= 1 && i + k >= q.n
    ensures Tail(q, col, k, g2, i) == 0.0
  {
  }

  /** One echo distance k: dd[i] takes its term where row i + k of the column can be non-zero. */
  method AddDiagonal(q: Problem, flip: seq<real>, dd: array<real>, col: int, k: nat, g2: real)
    requires q.Valid() && FlipOf(q, flip) && 0 <= col < q.n && k < q.n && dd.Length == q.n
    modifies dd
    ensures forall i :: 0 <= i < q.n ==> dd[i] == old(dd[i]) + Diagonal(q, col, k, g2, i)
  {
    hide Times, FlipOf;
    var (nz0, nz1) := NonZeroRange(q, col);
    var startI := if nz0 - k > 0 then nz0 - k else 0;
    var endI := if nz1 - k < q.n - k then nz1 - k else q.n - k;
    var i := startI;
    while i < endI
      invariant startI <= i && (i <= endI || i == startI)
      invariant forall j :: 0 <= j < q.n && startI <= j < i ==> dd[j] == old(dd[j]) + Diagonal(q, col, k, g2, j)
      invariant forall j :: 0 <= j < q.n && !(startI <= j < i) ==> dd[j] == old(dd[j])
    {
      dd[i] := dd[i] + Times(g2, Column(q, flip, col, i + k));
      i := i + 1;
    }
    forall j | 0 <= j < q.n && !(startI <= j < i) ensures Diagonal(q, col, k, g2, j) == 0.0 {
      if j + k < q.n {
        assert !(nz0 <= j + k < nz1);
        ByZero(g2);
      }
    }
  }

  /** One echo of the new pulse against every candidate. */
  method AddRows(q: Problem, flip: seq<real>, dd: array<real>, col: int, g1: real)
    requires q.Valid() && FlipOf(q, flip) && 0 <= col < q.n && dd.Length == q.n
    modifies dd
    ensures forall i :: 0 <= i < q.n ==> dd[i] == old(dd[i]) + q.Row(col, q.Echo(i, g1))
  {
    hide Tail, Diagonal, FlipOf;
    var g2, k := g1, 0;
    while k < q.n
      invariant k >= 0
      invariant forall i :: 0 <= i < q.n ==> dd[i] + Tail(q, col, k, g2, i) == old(dd[i]) + Tail(q, col, 0, g1, i)
      decreases q.n - k
    {
      forall i | 0 <= i < q.n
        ensures Tail(q, col, k, g2, i) == Tail(q, col, k + q.lag, q.Fade(g2), i) + Diagonal(q, col, k, g2, i)
      {
        TailStep(q, col, k, g2, i);
      }
      AddDiagonal(q, flip, dd, col, k, g2);
      g2 := q.Fade(g2);
      k := k + q.lag;
    }
    forall i | 0 <= i < q.n
      ensures Tail(q, col, k, g2, i) == 0.0 && Tail(q, col, 0, g1, i) == q.Row(col, q.Echo(i, g1))
    {
      TailEnd(q, col, k, g2, i);
      WholeTail(q, col, g1, i);
    }
  }

  lemma {:induction false} WholeTail(q: Problem, col: int, g1: real, i: int)
    requires q.lag >= 1
    ensures Tail(q, col, 0, g1, i) == q.Row(col, q.Echo(i, g1))
  {
  }

  /** ddDen: the form of the new pulse's train with every candidate's. */
  method CrossForms(q: Problem, flip: seq<real>, p: nat) returns (dd: array<real>)
    requires q.Valid() && FlipOf(q, flip)
    ensures fresh(dd) && dd.Length == q.n
    ensures forall i :: 0 <= i < q.n ==> dd[i] == q.Form(q.Echo(p, 1.0), q.Echo(i, 1.0))
  {
    hide Times, FlipOf;
    hide Problem.Row, Problem.Echo, Problem.Form;
    dd := new real[q.n](_ => 0.0);
    var g1, pos := 1.0, p;
    while pos < q.n
      invariant fresh(dd)
      invariant forall i :: 0 <= i < q.n ==>
                  dd[i] + q.Form(q.Echo(pos, g1), q.Echo(i, 1.0)) == q.Form(q.Echo(p, 1.0), q.Echo(i, 1.0))
      decreases q.n - pos
    {
      forall i | 0 <= i < q.n
        ensures q.Form(q.Echo(pos, g1), q.Echo(i, 1.0))
             == q.Form(q.Echo(pos + q.lag, q.Fade(g1)), q.Echo(i, 1.0)) + q.Row(pos, q.Echo(i, g1))
      {
        Faded(q, pos, g1);
        FormPulse(q, q.Echo(pos + q.lag, q.Fade(g1)), pos, g1, q.Echo(i, 1.0));
        RowEcho(q, pos, i, g1);
      }
      AddRows(q, flip, dd, pos, g1);
      g1 := q.Fade(g1);
      pos := pos + q.lag;
    }
    forall i | 0 <= i < q.n ensures q.Form(q.Echo(pos, g1), q.Echo(i, 1.0)) == 0.0 {
      FadedOut(q, pos, g1);
      NoneForm(q, q.Echo(i, 1.0));
    }
  }
}
