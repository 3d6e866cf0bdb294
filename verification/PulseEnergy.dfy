/** The matrix of the searches is the autocorrelation of a perceptual response (celp_enc.go,
lines 1243-1260), so every energy is a sum of squares and no search divides by zero. */
module PulseEnergy {
  import opened PulseForms

  function H(h: seq<real>, x: int): real {
    if 0 <= x < |h| then h[x] else 0.0
  }

  /** Sum over t < m of h[t] h[t + k]. */
  ghost function Lagged(h: seq<real>, k: nat, m: nat): real {
    if m == 0 then 0.0 else Lagged(h, k, m - 1) + Times(H(h, m - 1), H(h, m - 1 + k))
  }

  ghost predicate Autocorrelation(q: Problem, h: seq<real>) {
    |q.phi| == |h| && forall k :: 0 <= k < |h| ==> q.phi[k] == Lagged(h, k, |h|)
  }

  lemma {:induction false} LaggedEnds(h: seq<real>, k: nat, m: nat)
    requires m >= |h|
    ensures Lagged(h, k, m) == Lagged(h, k, |h|)
  {
    if m > |h| {
      LaggedEnds(h, k, m - 1);
      ZeroTimes(H(h, m - 1 + k));
    }
  }

  lemma {:induction false} LaggedApart(h: seq<real>, k: nat, m: nat)
    requires k >= |h|
    ensures Lagged(h, k, m) == 0.0
  {
    if m > 0 {
      LaggedApart(h, k, m - 1);
      ByZero(H(h, m - 1));
    }
  }

  lemma {:induction false} ZeroTimes(a: real)
    ensures Times(0.0, a) == 0.0
  {
  }

  /** Sum over x < m of the responses to unit pulses at p and at r. */
  ghost function Overlap(h: seq<real>, p: int, r: int, m: nat): real {
    if m == 0 then 0.0 else Overlap(h, p, r, m - 1) + Times(H(h, m - 1 - p), H(h, m - 1 - r))
  }

  lemma {:induction false} OverlapSwap(h: seq<real>, p: int, r: int, m: nat)
    ensures Overlap(h, p, r, m) == Overlap(h, r, p, m)
  {
    if m > 0 {
      OverlapSwap(h, p, r, m - 1);
      assert Times(H(h, m - 1 - p), H(h, m - 1 - r)) == Times(H(h, m - 1 - r), H(h, m - 1 - p));
    }
  }

  lemma {:induction false} OverlapStarts(h: seq<real>, p: nat, r: nat, m: nat)
    requires r <= p
    ensures Overlap(h, p, r, m) == if m <= p then 0.0 else Lagged(h, p - r, m - p)
  {
    hide Times;
    if m > 0 {
      OverlapStarts(h, p, r, m - 1);
      if m <= p {
        ZeroTimes(H(h, m - 1 - r));
      } else {
        assert m - 1 - r == (m - p - 1) + (p - r);
      }
    }
  }

  /** Overlap of two responses is the matrix entry. */
  lemma {:induction false} OverlapIsPhi(q: Problem, h: seq<real>, p: nat, r: nat, m: nat)
    requires Autocorrelation(q, h) && p + |h| <= m && r + |h| <= m
    ensures Overlap(h, p, r, m) == q.Phi(p, r)
    decreases r
  {
    hide Times;
    if r > p {
      OverlapSwap(h, p, r, m);
      OverlapIsPhi(q, h, r, p, m);
    } else {
      OverlapStarts(h, p, r, m);
      if p - r < |h| {
        LaggedEnds(h, p - r, m - p);
      } else {
        LaggedApart(h, p - r, m - p);
      }
    }
  }

  /** Sample x of the response to a train. */
  ghost function Response(h: seq<real>, a: Train, x: int): real {
    match a
    case Nil => 0.0
    case Pulse(r, p, w) => Response(h, r, x) + Times(w, H(h, x - p))
  }

  /** Sum over x < m of the responses to a unit pulse at p and to b. */
  ghost function CrossRow(h: seq<real>, p: int, b: Train, m: nat): real {
    if m == 0 then 0.0 else CrossRow(h, p, b, m - 1) + Times(H(h, m - 1 - p), Response(h, b, m - 1))
  }

  ghost function Cross(h: seq<real>, a: Train, b: Train, m: nat): real {
    if m == 0 then 0.0 else Cross(h, a, b, m - 1) + Times(Response(h, a, m - 1), Response(h, b, m - 1))
  }

  lemma {:induction false} CrossRowPulse(h: seq<real>, p: int, b: Train, r: int, u: real, m: nat)
    ensures CrossRow(h, p, Pulse(b, r, u), m) == CrossRow(h, p, b, m) + Times(u, Overlap(h, p, r, m))
  {
    hide Times;
    if m > 0 {
      CrossRowPulse(h, p, b, r, u, m - 1);
      var x, y := H(h, m - 1 - p), H(h, m - 1 - r);
      Distrib(x, Response(h, b, m - 1), Times(u, y));
      Swap(x, u, y);
      Distrib(u, Overlap(h, p, r, m - 1), Times(x, y));
    } else {
      ByZero(u);
    }
  }

  lemma {:induction false} CrossPulse(h: seq<real>, a: Train, p: int, w: real, b: Train, m: nat)
    ensures Cross(h, Pulse(a, p, w), b, m) == Cross(h, a, b, m) + Times(w, CrossRow(h, p, b, m))
  {
    hide Times;
    if m > 0 {
      CrossPulse(h, a, p, w, b, m - 1);
      var x, y := H(h, m - 1 - p), Response(h, b, m - 1);
      DistribLeft(Response(h, a, m - 1), Times(w, x), y);
      Assoc(w, x, y);
      Distrib(w, CrossRow(h, p, b, m - 1), Times(x, y));
    } else {
      ByZero(w);
    }
  }

  lemma {:induction false} CrossNone(h: seq<real>, p: int, b: Train, m: nat)
    ensures CrossRow(h, p, Nil, m) == 0.0 && Cross(h, Nil, b, m) == 0.0
  {
    if m > 0 {
      CrossNone(h, p, b, m - 1);
      ByZero(H(h, m - 1 - p));
      ZeroTimes(Response(h, b, m - 1));
    }
  }

  lemma {:induction false} RowIsCross(q: Problem, h: seq<real>, p: nat, b: Train, m: nat)
    requires Autocorrelation(q, h) && p < q.n && Within(b, q.n) && m == q.n + |h|
    ensures q.Row(p, b) == CrossRow(h, p, b, m)
    decreases b
  {
    hide Times;
    if b.Pulse? {
      RowIsCross(q, h, p, b.rest, m);
      CrossRowPulse(h, p, b.rest, b.pos, b.w, m);
      OverlapIsPhi(q, h, p, b.pos, m);
    } else {
      CrossNone(h, p, b, m);
    }
  }

  lemma {:induction false} FormIsCross(q: Problem, h: seq<real>, a: Train, b: Train, m: nat)
    requires Autocorrelation(q, h) && Within(a, q.n) && Within(b, q.n) && m == q.n + |h|
    ensures q.Form(a, b) == Cross(h, a, b, m)
    decreases a
  {
    hide Times;
    if a.Pulse? {
      FormIsCross(q, h, a.rest, b, m);
      CrossPulse(h, a.rest, a.pos, a.w, b, m);
      RowIsCross(q, h, a.pos, b, m);
    } else {
      CrossNone(h, 0, b, m);
    }
  }

  lemma {:induction false} SquaresAdd(h: seq<real>, a: Train, m: nat)
    ensures Cross(h, a, a, m) >= 0.0
  {
    if m > 0 {
      SquaresAdd(h, a, m - 1);
      Square(Response(h, a, m - 1));
    }
  }

  lemma {:induction false} Square(x: real)
    ensures Times(x, x) >= 0.0
  {
  }

  /** An autocorrelation gives every train of the subframe a non-negative energy. */
  lemma {:induction false} EnergyNotNegative(q: Problem, h: seq<real>, a: Train)
    requires Autocorrelation(q, h) && Within(a, q.n)
    ensures q.Energy(a) >= 0.0
  {
    FormIsCross(q, h, a, a, q.n + |h|);
    SquaresAdd(h, a, q.n + |h|);
  }
}
