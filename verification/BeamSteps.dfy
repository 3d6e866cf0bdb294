/** One round of the beam search (internal/voip/codec/mlow/celp_enc.go, lines 288-305, 849-860 and
967-989) on whole choices: what a beam of survivors becomes, and how good the new beam is. */
module BeamSteps {
  import opened Words
  import opened PulseForms
  import opened PulseEnergy
  import opened PulseScores
  import opened SearchTools

  // ------------------------------------------------------------ k best entries

  /** idx lists entries of x, each the best of those not listed before it; 0 once all are listed. */
  ghost predicate TopK(x: seq<real>, idx: seq<nat>, k: nat) {
    && |idx| == k && (forall a :: 0 <= a < k ==> idx[a] < |x|)
    && (forall a :: 0 <= a < k && a < |x| ==> idx[a] !in idx[..a])
    && (forall a, n: nat :: 0 <= a < k && a < |x| && n < |x| && n !in idx[..a] ==> x[n] <= x[idx[a]])
    && (forall a :: |x| <= a < k ==> idx[a] == 0)
  }

  ghost predicate NoRepeat<T>(a: seq<T>) {
    forall i, j :: 0 <= i < j < |a| ==> a[i] != a[j]
  }

  /** Different things drawn from a list are no more than the list is long. */
  lemma {:induction false} DrawnFit<T>(a: seq<T>, b: seq<T>)
    requires NoRepeat(a) && forall i :: 0 <= i < |a| ==> a[i] in b
    ensures |a| <= |b|
  {
    if a != [] {
      var last := |a| - 1;
      var k :| 0 <= k < |b| && b[k] == a[last];
      var others := b[..k] + b[k + 1..];
      forall i | 0 <= i < last ensures a[..last][i] in others {
        assert a[i] in b;
        var j :| 0 <= j < |b| && b[j] == a[i];
        assert a[i] == others[if j < k then j else j - 1];
      }
      DrawnFit(a[..last], others);
    }
  }

  lemma {:induction false} IndicesFit(idx: seq<nat>, n: nat)
    requires NoRepeat(idx) && forall i :: 0 <= i < |idx| ==> idx[i] < n
    ensures |idx| <= n
  {
    var all: seq<nat> := seq(n, i => i);
    forall i | 0 <= i < |idx| ensures idx[i] in all {
      assert all[idx[i]] == idx[i];
    }
    DrawnFit(idx, all);
  }

  /** As many different indices as there are entries are all of them. */
  lemma {:induction false} AllListed(idx: seq<nat>, n: nat, m: nat)
    requires NoRepeat(idx) && |idx| == n && (forall i :: 0 <= i < n ==> idx[i] < n) && m < n
    ensures m in idx
  {
    if m !in idx {
      IndicesFit(idx + [m], n);
    }
  }

  lemma {:induction false} TopKDiffer(x: seq<real>, idx: seq<nat>, k: nat, m: nat)
    requires TopK(x, idx, k) && m <= k && m <= |x|
    ensures NoRepeat(idx[..m])
  {
    forall i, j | 0 <= i < j < m ensures idx[i] != idx[j] {
      assert idx[j] !in idx[..j] && idx[..j][i] == idx[i];
    }
  }

  /** An entry is listed, or scores at most every listed one. */
  lemma {:induction false} ListedOrLess(x: seq<real>, idx: seq<nat>, k: nat, c: nat, t: nat)
    requires TopK(x, idx, k) && c < |x| && t < k
    ensures c in idx || x[c] <= x[idx[t]]
  {
    if t < |x| {
      assert c in idx || c !in idx[..t];
    } else {
      TopKDiffer(x, idx, k, |x|);
      AllListed(idx[..|x|], |x|, c);
    }
  }

  // ------------------------------------------------------------- one round

  /** The signature of a choice: the sum of its positions' words. */
  function Signature(sgntrs: seq<u64>, ps: seq<int>): u64 {
    if ps == [] then 0
    else Plus(Signature(sgntrs, ps[..|ps| - 1]), Word(sgntrs, ps[|ps| - 1]))
  }

  /** 64-bit addition. */
  function Plus(a: u64, b: u64): u64 { (a + b) % 0x1_0000_0000_0000_0000 }

  function Word(sgntrs: seq<u64>, p: int): u64 {
    if 0 <= p < |sgntrs| then sgntrs[p] else 0
  }

  lemma {:induction false} SignatureSnoc(sgntrs: seq<u64>, ps: seq<int>, p: nat)
    requires p < |sgntrs|
    ensures Signature(sgntrs, ps + [p]) == Plus(Signature(sgntrs, ps), sgntrs[p])
    ensures ps == [] ==> Signature(sgntrs, ps + [p]) == sgntrs[p]
  {
    assert (ps + [p])[..|ps|] == ps;
  }

  ghost function Merits(q: Problem, ps: seq<int>): (x: seq<real>)
    requires q.lag >= 1
    ensures |x| == q.n && forall i :: 0 <= i < q.n ==> x[i] == Merit(q, ps, i)
  {
    seq(q.n, i => Merit(q, ps, i))
  }

  ghost function ScoresOf(q: Problem, cs: seq<seq<int>>): (x: seq<real>)
    requires q.lag >= 1
    ensures |x| == |cs| && forall c :: 0 <= c < |cs| && cs[c] != [] ==> x[c] == Score(q, cs[c])
  {
    seq(|cs|, c requires 0 <= c < |cs| => if cs[c] == [] then 0.0 else Score(q, cs[c]))
  }

  /** A choice with each listed position added. */
  ghost function Continued(ps: seq<int>, top: seq<nat>): (es: seq<seq<int>>)
    ensures |es| == |top| && forall t :: 0 <= t < |top| ==> es[t] == ps + [top[t]]
  {
    seq(|top|, t requires 0 <= t < |top| => ps + [top[t]])
  }

  /** What the first k survivors offer. */
  ghost function Offers(beam: seq<seq<int>>, tops: seq<seq<nat>>, k: nat): seq<seq<int>>
    requires k <= |beam| && k <= |tops|
  {
    if k == 0 then [] else Offers(beam, tops, k - 1) + Continued(beam[k - 1], tops[k - 1])
  }

  ghost predicate Known(sgntrs: seq<u64>, cs: seq<seq<int>>, e: seq<int>) {
    exists c :: 0 <= c < |cs| && Signature(sgntrs, cs[c]) == Signature(sgntrs, e)
  }

  /** The offers without those whose signature came before. */
  ghost function Kept(sgntrs: seq<u64>, es: seq<seq<int>>): seq<seq<int>> {
    if es == [] then []
    else
      var before, e := Kept(sgntrs, es[..|es| - 1]), es[|es| - 1];
      if Known(sgntrs, before, e) then before else before + [e]
  }

  lemma {:induction false} KeptSnoc(sgntrs: seq<u64>, es: seq<seq<int>>, e: seq<int>)
    ensures Kept(sgntrs, es + [e]) == Kept(sgntrs, es) + if Known(sgntrs, Kept(sgntrs, es), e) then [] else [e]
  {
    hide Known;
    assert (es + [e])[..|es|] == es;
  }

  ghost predicate Tops(q: Problem, beam: seq<seq<int>>, tops: seq<seq<nat>>, w: nat)
    requires q.lag >= 1
  {
    |tops| == |beam| && forall j :: 0 <= j < |beam| ==> TopK(Merits(q, beam[j]), tops[j], w)
  }

  /** The new beam: the w best of the candidates, the best first. */
  ghost predicate Picked(q: Problem, cands: seq<seq<int>>, picks: seq<nat>, next: seq<seq<int>>, w: nat)
    requires q.lag >= 1
  {
    TopK(ScoresOf(q, cands), picks, w) && |next| == w && forall t :: 0 <= t < w ==> next[t] == cands[picks[t]]
  }

  /** Every survivor offers its w best continuations, those with a signature already seen are
      dropped, and the w best of the rest survive. */
  ghost predicate Step(q: Problem, sgntrs: seq<u64>, beam: seq<seq<int>>, next: seq<seq<int>>, w: nat)
    requires q.lag >= 1
  {
    exists tops, picks :: StepBy(q, sgntrs, beam, tops, picks, next, w)
  }

  ghost predicate StepBy(q: Problem, sgntrs: seq<u64>, beam: seq<seq<int>>, tops: seq<seq<nat>>, picks: seq<nat>,
                         next: seq<seq<int>>, w: nat)
    requires q.lag >= 1
  {
    Tops(q, beam, tops, w) && Picked(q, Kept(sgntrs, Offers(beam, tops, |beam|)), picks, next, w)
  }

  // ------------------------------------------------------- what the steps do

  lemma {:induction false} OffersAt(beam: seq<seq<int>>, tops: seq<seq<nat>>, k: nat, j: nat, t: nat)
    requires j < k <= |beam| && k <= |tops| && t < |tops[j]|
    ensures beam[j] + [tops[j][t]] in Offers(beam, tops, k)
  {
    if j < k - 1 {
      OffersAt(beam, tops, k - 1, j, t);
    } else {
      var es := Continued(beam[j], tops[j]);
      assert es[t] in es;
    }
  }

  lemma {:induction false} OffersFirst(beam: seq<seq<int>>, tops: seq<seq<nat>>, k: nat)
    requires 0 < k <= |beam| && k <= |tops| && |tops[0]| > 0
    ensures Offers(beam, tops, k) != [] && Offers(beam, tops, k)[0] == beam[0] + [tops[0][0]]
  {
    if k > 1 {
      OffersFirst(beam, tops, k - 1);
    } else {
      assert Offers(beam, tops, 0) == [];
    }
  }

  /** One of the beam's choices and one more pulse. */
  ghost predicate Extends(q: Problem, beam: seq<seq<int>>, e: seq<int>) {
    e != [] && 0 <= e[|e| - 1] < q.n && e[..|e| - 1] in beam
  }

  lemma {:induction false} ExtendsBy(q: Problem, beam: seq<seq<int>>, j: nat, i: int)
    requires j < |beam| && 0 <= i < q.n
    ensures Extends(q, beam, beam[j] + [i])
  {
    assert (beam[j] + [i])[..|beam[j]|] == beam[j];
  }

  lemma {:induction false} OffersExtend(q: Problem, beam: seq<seq<int>>, tops: seq<seq<nat>>, w: nat, k: nat,
                                        e: seq<int>)
    requires q.lag >= 1 && Tops(q, beam, tops, w) && k <= |beam| && e in Offers(beam, tops, k)
    ensures Extends(q, beam, e)
  {
    hide Merits;
    if e in Offers(beam, tops, k - 1) {
      OffersExtend(q, beam, tops, w, k - 1, e);
    } else {
      var es := Continued(beam[k - 1], tops[k - 1]);
      var t :| 0 <= t < |es| && es[t] == e;
      assert TopK(Merits(q, beam[k - 1]), tops[k - 1], w);
      ExtendsBy(q, beam, k - 1, tops[k - 1][t]);
    }
  }

  lemma {:induction false} KeptSound(sgntrs: seq<u64>, es: seq<seq<int>>, c: nat)
    requires c < |Kept(sgntrs, es)|
    ensures Kept(sgntrs, es)[c] in es
  {
    hide Known;
    if c < |Kept(sgntrs, es[..|es| - 1])| {
      KeptSound(sgntrs, es[..|es| - 1], c);
    }
  }

  /** Every offer is kept, or one with its signature is. */
  lemma {:induction false} KeptCovers(sgntrs: seq<u64>, es: seq<seq<int>>, k: nat)
    requires k < |es|
    ensures Known(sgntrs, Kept(sgntrs, es), es[k])
  {
    var before := Kept(sgntrs, es[..|es| - 1]);
    if k < |es| - 1 {
      KeptCovers(sgntrs, es[..|es| - 1], k);
      var c :| 0 <= c < |before| && Signature(sgntrs, before[c]) == Signature(sgntrs, es[k]);
      assert Kept(sgntrs, es)[c] == before[c];
    } else if !Known(sgntrs, before, es[k]) {
      assert Kept(sgntrs, es)[|before|] == es[k];
    }
  }

  lemma {:induction false} KeptDiffer(sgntrs: seq<u64>, es: seq<seq<int>>, a: nat, b: nat)
    requires a < b < |Kept(sgntrs, es)|
    ensures Signature(sgntrs, Kept(sgntrs, es)[a]) != Signature(sgntrs, Kept(sgntrs, es)[b])
  {
    if b < |Kept(sgntrs, es[..|es| - 1])| {
      KeptDiffer(sgntrs, es[..|es| - 1], a, b);
    }
  }

  lemma {:induction false} KeptFirst(sgntrs: seq<u64>, es: seq<seq<int>>)
    requires es != []
    ensures Kept(sgntrs, es) != [] && Kept(sgntrs, es)[0] == es[0]
  {
    if |es| > 1 {
      KeptFirst(sgntrs, es[..|es| - 1]);
    }
  }

  // ------------------------------------------------ choices as sets of pulses

  ghost function Total(f: int -> real, ps: seq<int>): real {
    if ps == [] then 0.0 else Total(f, ps[..|ps| - 1]) + f(ps[|ps| - 1])
  }

  lemma {:induction false} TotalWithout(f: int -> real, ps: seq<int>, k: nat)
    requires k < |ps|
    ensures Total(f, ps) == Total(f, ps[..k] + ps[k + 1..]) + f(ps[k])
  {
    var last, others := |ps| - 1, ps[..k] + ps[k + 1..];
    if k < last {
      TotalWithout(f, ps[..last], k);
      assert others[..last - 1] == ps[..last][..k] + ps[..last][k + 1..];
    } else {
      assert others == ps[..last];
    }
  }

  lemma {:induction false} TotalReordered(f: int -> real, ps: seq<int>, rs: seq<int>)
    requires multiset(ps) == multiset(rs)
    ensures Total(f, ps) == Total(f, rs)
  {
    if ps == [] {
      SameLength(ps, rs);
    } else {
      var last := |ps| - 1;
      var k := WithoutLast(ps, rs);
      TotalReordered(f, ps[..last], rs[..k] + rs[k + 1..]);
      TotalWithout(f, rs, k);
    }
  }

  /** The last element taken from both. */
  lemma {:induction false} WithoutLast(ps: seq<int>, rs: seq<int>) returns (k: nat)
    requires ps != [] && multiset(ps) == multiset(rs)
    ensures k < |rs| && rs[k] == ps[|ps| - 1] && multiset(ps[..|ps| - 1]) == multiset(rs[..k] + rs[k + 1..])
  {
    var last := |ps| - 1;
    assert ps[last] in multiset(rs);
    k :| 0 <= k < |rs| && rs[k] == ps[last];
    assert rs == rs[..k] + [rs[k]] + rs[k + 1..];
    assert ps == ps[..last] + [ps[last]];
    assert multiset(rs[..k] + rs[k + 1..]) == multiset(rs) - multiset{rs[k]};
    assert multiset(ps[..last]) == multiset(ps) - multiset{ps[last]};
  }

  lemma {:induction false} SameLength(ps: seq<int>, rs: seq<int>)
    requires multiset(ps) == multiset(rs)
    ensures |ps| == |rs|
  {
    assert |multiset(ps)| == |ps| && |multiset(rs)| == |rs|;
  }

  lemma {:induction false} PlusSwap(a: u64, b: u64, c: u64)
    ensures Plus(Plus(a, b), c) == Plus(Plus(a, c), b)
  {
    hide Plus;
    PlusOnce(a, b);
    PlusOnce(a, c);
    PlusOnce(Plus(a, b), c);
    PlusOnce(Plus(a, c), b);
  }

  lemma {:induction false} PlusOnce(a: u64, b: u64)
    ensures Plus(a, b) == a + b || Plus(a, b) == a + b - 0x1_0000_0000_0000_0000
  {
  }

  lemma {:induction false} SignatureWithout(sgntrs: seq<u64>, ps: seq<int>, k: nat)
    requires k < |ps|
    ensures Signature(sgntrs, ps) == Plus(Signature(sgntrs, ps[..k] + ps[k + 1..]), Word(sgntrs, ps[k]))
  {
    hide Word, Plus;
    var last, others := |ps| - 1, ps[..k] + ps[k + 1..];
    if k < last {
      SignatureWithout(sgntrs, ps[..last], k);
      assert others[..last - 1] == ps[..last][..k] + ps[..last][k + 1..];
      PlusSwap(Signature(sgntrs, others[..last - 1]), Word(sgntrs, ps[k]), Word(sgntrs, ps[last]));
    } else {
      assert others == ps[..last];
    }
  }

  /** A signature does not depend on the order of the pulses. */
  lemma {:induction false} SignatureReordered(sgntrs: seq<u64>, ps: seq<int>, rs: seq<int>)
    requires multiset(ps) == multiset(rs)
    ensures Signature(sgntrs, ps) == Signature(sgntrs, rs)
  {
    hide Word, Plus;
    if ps == [] {
      SameLength(ps, rs);
    } else {
      var k := WithoutLast(ps, rs);
      SignatureReordered(sgntrs, ps[..|ps| - 1], rs[..k] + rs[k + 1..]);
      SignatureWithout(sgntrs, rs, k);
    }
  }

  ghost function CorrOfPulse(q: Problem): int -> real
    requires q.lag >= 1
  {
    p => q.Corr(Signed(q, p))
  }

  ghost function FormOfPulse(q: Problem, b: Train): int -> real
    requires q.lag >= 1
  {
    p => q.Form(Signed(q, p), b)
  }

  lemma {:induction false} CorrTotal(q: Problem, ps: seq<int>)
    requires q.lag >= 1
    ensures q.Corr(Chosen(q, ps, |ps|)) == Total(CorrOfPulse(q), ps)
  {
    hide Signed, PulseForms.Join;
    hide Problem.Form;
    if ps != [] {
      var front, p := ps[..|ps| - 1], ps[|ps| - 1];
      CorrTotal(q, front);
      ChosenPrefix(q, ps, front, |front|);
      q.CorrJoin(Chosen(q, front, |front|), Signed(q, p));
    }
  }

  lemma {:induction false} FormTotal(q: Problem, ps: seq<int>, b: Train)
    requires q.lag >= 1
    ensures q.Form(Chosen(q, ps, |ps|), b) == Total(FormOfPulse(q, b), ps)
  {
    hide Signed, PulseForms.Join;
    if ps != [] {
      var front, p := ps[..|ps| - 1], ps[|ps| - 1];
      FormTotal(q, front, b);
      ChosenPrefix(q, ps, front, |front|);
      q.FormJoinLeft(Chosen(q, front, |front|), Signed(q, p), b);
    }
  }

  /** The order in which pulses were chosen does not matter to the score. */
  lemma {:induction false} ScoreReordered(q: Problem, ps: seq<int>, rs: seq<int>)
    requires q.lag >= 1 && ps != [] && multiset(ps) == multiset(rs)
    ensures rs != [] && Score(q, ps) == Score(q, rs)
  {
    hide Chosen, Total, Ratio, PulseForms.Join;
    hide Problem.Form, Problem.Corr;
    SameLength(ps, rs);
    var a, b := Chosen(q, ps, |ps|), Chosen(q, rs, |rs|);
    CorrTotal(q, ps);
    CorrTotal(q, rs);
    TotalReordered(CorrOfPulse(q), ps, rs);
    FormTotal(q, ps, a);
    FormTotal(q, rs, a);
    TotalReordered(FormOfPulse(q, a), ps, rs);
    q.FormSymmetric(b, a);
    FormTotal(q, ps, b);
    FormTotal(q, rs, b);
    TotalReordered(FormOfPulse(q, b), ps, rs);
    WholeTrain(q, ps);
    WholeTrain(q, rs);
  }

  lemma {:induction false} WholeTrain(q: Problem, ps: seq<int>)
    requires q.lag >= 1 && ps != []
    ensures With(q, ps[..|ps| - 1], ps[|ps| - 1]) == Chosen(q, ps, |ps|)
  {
    hide With, Chosen;
    var front, p := ps[..|ps| - 1], ps[|ps| - 1];
    assert ps == front + [p];
    ChosenSnoc(q, front, p);
  }

  // --------------------------------------------------------------- the beam

  /** Among the continuations of a beam, only reorderings of one another share a signature. */
  ghost predicate Telling(q: Problem, sgntrs: seq<u64>, beam: seq<seq<int>>) {
    forall e, f :: Extends(q, beam, e) && Extends(q, beam, f) && Signature(sgntrs, e) == Signature(sgntrs, f)
                   ==> multiset(e) == multiset(f)
  }

  /** The candidate that stands for e. */
  ghost function Stand(sgntrs: seq<u64>, cands: seq<seq<int>>, e: seq<int>): (c: nat)
    requires Known(sgntrs, cands, e)
    ensures c < |cands| && Signature(sgntrs, cands[c]) == Signature(sgntrs, e)
  {
    var c :| 0 <= c < |cands| && Signature(sgntrs, cands[c]) == Signature(sgntrs, e);
    c
  }

  /** What is offered stands among the candidates with its score. */
  lemma {:induction false} Represented(q: Problem, sgntrs: seq<u64>, beam: seq<seq<int>>, tops: seq<seq<nat>>, w: nat,
                                       j: nat, a: nat)
    requires q.lag >= 1 && Tops(q, beam, tops, w) && Telling(q, sgntrs, beam) && j < |beam| && a < w && |tops[j]| == w
    ensures var e, cands := beam[j] + [tops[j][a]], Kept(sgntrs, Offers(beam, tops, |beam|));
            Known(sgntrs, cands, e)
            && var c := cands[Stand(sgntrs, cands, e)];
               multiset(c) == multiset(e) && c != [] && Score(q, c) == Score(q, e)
  {
    hide Kept, Offers, Merits, Known, Score;
    var e, es := beam[j] + [tops[j][a]], Offers(beam, tops, |beam|);
    OffersAt(beam, tops, |beam|, j, a);
    var k :| 0 <= k < |es| && es[k] == e;
    KeptCovers(sgntrs, es, k);
    var s := Stand(sgntrs, Kept(sgntrs, es), e);
    var c := Kept(sgntrs, es)[s];
    KeptSound(sgntrs, es, s);
    OffersExtend(q, beam, tops, w, |beam|, c);
    OffersExtend(q, beam, tops, w, |beam|, e);
    ScoreReordered(q, e, c);
  }

  /** A listed continuation scores at most t-th in the new beam, or is in it. */
  lemma {:induction false} ListedKept(q: Problem, sgntrs: seq<u64>, beam: seq<seq<int>>, tops: seq<seq<nat>>,
                                      picks: seq<nat>, next: seq<seq<int>>, w: nat, j: nat, a: nat, t: nat)
    requires q.lag >= 1 && StepBy(q, sgntrs, beam, tops, picks, next, w) && Telling(q, sgntrs, beam)
    requires j < |beam| && a < w && t < w && next[t] != [] && |tops| == |beam| && |tops[j]| == w
    ensures Holds(next, beam[j] + [tops[j][a]]) || Score(q, beam[j] + [tops[j][a]]) <= Score(q, next[t])
  {
    hide Kept, Offers, Merits, Known, Score, TopK, Telling;
    var e, cands := beam[j] + [tops[j][a]], Kept(sgntrs, Offers(beam, tops, |beam|));
    Represented(q, sgntrs, beam, tops, w, j, a);
    var c := Stand(sgntrs, cands, e);
    PickedAt(q, cands, picks, next, w, t);
    ListedOrLess(ScoresOf(q, cands), picks, w, c, t);
    if c in picks {
      var u :| 0 <= u < |picks| && picks[u] == c;
      PickedAt(q, cands, picks, next, w, u);
    }
  }

  /** The choice, in some order, is in the beam. */
  ghost predicate Holds(beam: seq<seq<int>>, e: seq<int>) {
    exists u :: 0 <= u < |beam| && multiset(beam[u]) == multiset(e)
  }

  lemma {:induction false} PickedAt(q: Problem, cands: seq<seq<int>>, picks: seq<nat>, next: seq<seq<int>>, w: nat,
                                    t: nat)
    requires q.lag >= 1 && Picked(q, cands, picks, next, w) && t < w
    ensures |picks| == w && picks[t] < |cands| && |next| == w && next[t] == cands[picks[t]]
  {
  }

  /** The candidates that stand for the first m listed continuations of one choice. */
  ghost function Stands(sgntrs: seq<u64>, cands: seq<seq<int>>, ps: seq<int>, top: seq<nat>): (cs: seq<nat>)
    requires forall a :: 0 <= a < |top| ==> Known(sgntrs, cands, ps + [top[a]])
    ensures |cs| == |top| && forall a :: 0 <= a < |top| ==> cs[a] == Stand(sgntrs, cands, ps + [top[a]])
  {
    seq(|top|, a requires 0 <= a < |top| => Stand(sgntrs, cands, ps + [top[a]]))
  }

  lemma {:induction false} StandsDiffer(q: Problem, sgntrs: seq<u64>, beam: seq<seq<int>>, tops: seq<seq<nat>>, w: nat,
                                        j: nat, cs: seq<nat>)
    requires q.lag >= 1 && Tops(q, beam, tops, w) && Telling(q, sgntrs, beam) && j < |beam| && |cs| == w == |tops[j]|
    requires w <= q.n
    requires var cands := Kept(sgntrs, Offers(beam, tops, |beam|));
             forall a :: 0 <= a < w ==> cs[a] < |cands| && multiset(cands[cs[a]]) == multiset(beam[j] + [tops[j][a]])
    ensures NoRepeat(cs)
  {
    hide Kept, Offers, Merits;
    assert TopK(Merits(q, beam[j]), tops[j], w);
    TopKDiffer(Merits(q, beam[j]), tops[j], w, w);
    assert tops[j][..w] == tops[j];
    forall a, b | 0 <= a < b < w ensures cs[a] != cs[b] {
      if cs[a] == cs[b] {
        OneApart(beam[j], tops[j][a], tops[j][b]);
      }
    }
  }

  lemma {:induction false} OneApart(ps: seq<int>, x: int, y: int)
    requires multiset(ps + [x]) == multiset(ps + [y])
    ensures x == y
  {
    assert multiset(ps + [x]) == multiset(ps) + multiset{x};
    assert multiset(ps + [y]) == multiset(ps) + multiset{y};
    assert (multiset(ps) + multiset{x})[x] == multiset(ps)[x] + 1;
  }

  lemma {:induction false} ContinuedScore(q: Problem, ps: seq<int>, i: int)
    requires q.lag >= 1
    ensures Score(q, ps + [i]) == Merit(q, ps, i)
  {
    hide Merit;
    assert (ps + [i])[..|ps|] == ps;
  }

  /** The candidates that stand for one survivor's offers: w different ones, with the offers' scores. */
  lemma {:induction false} StandsOf(q: Problem, sgntrs: seq<u64>, beam: seq<seq<int>>, tops: seq<seq<nat>>, w: nat,
                                    j: nat)
    returns (cs: seq<nat>)
    requires q.lag >= 1 && Tops(q, beam, tops, w) && Telling(q, sgntrs, beam) && j < |beam| && w <= q.n
    requires |tops[j]| == w
    ensures |cs| == w && NoRepeat(cs) && w <= |Kept(sgntrs, Offers(beam, tops, |beam|))|
    ensures var cands := Kept(sgntrs, Offers(beam, tops, |beam|));
            forall a :: 0 <= a < w ==>
              && cs[a] < |cands| && cands[cs[a]] != []
              && Score(q, cands[cs[a]]) == Score(q, beam[j] + [tops[j][a]])
  {
    hide Kept, Offers, Merits, Known, Score, Telling, NoRepeat, TopK;
    var cands := Kept(sgntrs, Offers(beam, tops, |beam|));
    forall a: nat | a < w
      ensures var e := beam[j] + [tops[j][a]];
              Known(sgntrs, cands, e)
              && var c := cands[Stand(sgntrs, cands, e)];
                 multiset(c) == multiset(e) && c != [] && Score(q, c) == Score(q, e)
    {
      Represented(q, sgntrs, beam, tops, w, j, a);
    }
    cs := Stands(sgntrs, cands, beam[j], tops[j]);
    StandsDiffer(q, sgntrs, beam, tops, w, j, cs);
    IndicesFit(cs, |cands|);
  }

  /** Of w different offers, not all are among the first t of the new beam. */
  lemma {:induction false} NotAllBefore(q: Problem, sgntrs: seq<u64>, beam: seq<seq<int>>, tops: seq<seq<nat>>,
                                        picks: seq<nat>, next: seq<seq<int>>, w: nat, j: nat, t: nat) returns (a: nat)
    requires q.lag >= 1 && StepBy(q, sgntrs, beam, tops, picks, next, w) && Telling(q, sgntrs, beam)
    requires j < |beam| && t < w <= q.n && next[t] != [] && |tops| == |beam| && |tops[j]| == w
    ensures a < w && Score(q, beam[j] + [tops[j][a]]) <= Score(q, next[t])
  {
    hide Kept, Offers, Merits, Score, Telling, NoRepeat;
    var cands := Kept(sgntrs, Offers(beam, tops, |beam|));
    PickedAt(q, cands, picks, next, w, t);
    var cs := StandsOf(q, sgntrs, beam, tops, w, j);
    a := OneLeft(cs, picks[..t]);
  }

  /** More different things than a list is long: one is not in it. */
  lemma {:induction false} OneLeft(a: seq<nat>, b: seq<nat>) returns (i: nat)
    requires NoRepeat(a) && |a| > |b|
    ensures i < |a| && a[i] !in b
  {
    hide NoRepeat;
    if forall i :: 0 <= i < |a| ==> a[i] in b {
      DrawnFit(a, b);
    }
    i :| 0 <= i < |a| && a[i] !in b;
  }

  /** Every choice of the new beam is one of the old beam's and one more pulse. */
  lemma {:induction false} MembersExtend(q: Problem, sgntrs: seq<u64>, beam: seq<seq<int>>, tops: seq<seq<nat>>,
                                         picks: seq<nat>, next: seq<seq<int>>, w: nat, t: nat)
    requires q.lag >= 1 && StepBy(q, sgntrs, beam, tops, picks, next, w) && t < w
    ensures |next| == w && |tops| == |beam| && Extends(q, beam, next[t])
    ensures forall j :: 0 <= j < |beam| ==> |tops[j]| == w
  {
    hide Kept, Offers, Merits, Known;
    var es := Offers(beam, tops, |beam|);
    PickedAt(q, Kept(sgntrs, es), picks, next, w, t);
    KeptSound(sgntrs, es, picks[t]);
    OffersExtend(q, beam, tops, w, |beam|, next[t]);
    forall j | 0 <= j < |beam| ensures |tops[j]| == w {
      assert TopK(Merits(q, beam[j]), tops[j], w);
    }
  }

  /** A beam of width w keeps the w best continuations: one that is not in the new beam, in any
      order of its pulses, scores at most what every choice in it scores. */
  lemma {:induction false} BeamKeepsBest(q: Problem, sgntrs: seq<u64>, beam: seq<seq<int>>, next: seq<seq<int>>,
                                         w: nat, j: nat, i: int, t: nat)
    requires q.lag >= 1 && Step(q, sgntrs, beam, next, w) && Telling(q, sgntrs, beam) && j < |beam| && 0 <= i < q.n
    requires t < w
    ensures |next| == w && Extends(q, beam, next[t])
    ensures Holds(next, beam[j] + [i]) || Score(q, beam[j] + [i]) <= Score(q, next[t])
  {
    hide Kept, Offers, Merit, Known, Score, Telling, Holds, StepBy;
    var tops, picks :| StepBy(q, sgntrs, beam, tops, picks, next, w);
    MembersExtend(q, sgntrs, beam, tops, picks, next, w, t);
    if i in tops[j] {
      var a :| 0 <= a < w && tops[j][a] == i;
      ListedKept(q, sgntrs, beam, tops, picks, next, w, j, a, t);
    } else {
      var n: nat := i;
      TopsAt(q, sgntrs, beam, tops, picks, next, w, j);
      if w >= q.n {
        TopKDiffer(Merits(q, beam[j]), tops[j], w, q.n);
        AllListed(tops[j][..q.n], q.n, n);
      }
      var a := NotAllBefore(q, sgntrs, beam, tops, picks, next, w, j, t);
      ContinuedScore(q, beam[j], i);
      ContinuedScore(q, beam[j], tops[j][a]);
      assert n !in tops[j][..a];
    }
  }

  lemma {:induction false} TopsAt(q: Problem, sgntrs: seq<u64>, beam: seq<seq<int>>, tops: seq<seq<nat>>,
                                  picks: seq<nat>, next: seq<seq<int>>, w: nat, j: nat)
    requires q.lag >= 1 && StepBy(q, sgntrs, beam, tops, picks, next, w) && j < |beam|
    ensures |tops| == |beam| && TopK(Merits(q, beam[j]), tops[j], w) && Tops(q, beam, tops, w)
    ensures Picked(q, Kept(sgntrs, Offers(beam, tops, |beam|)), picks, next, w)
  {
  }

  ghost predicate Repeats(beam: seq<seq<int>>, t: nat)
    requires t < |beam|
  {
    exists u :: 0 <= u < t && beam[u] == beam[t]
  }

  /** The new beam comes best first, no choice a reordering of another, until it repeats itself. */
  lemma {:induction false} BeamOrdered(q: Problem, sgntrs: seq<u64>, beam: seq<seq<int>>, next: seq<seq<int>>, w: nat,
                                       u: nat, t: nat)
    requires q.lag >= 1 && Step(q, sgntrs, beam, next, w) && u < t < w
    ensures |next| == w && Extends(q, beam, next[u]) && Extends(q, beam, next[t])
    ensures Repeats(next, t) || (Score(q, next[t]) <= Score(q, next[u]) && multiset(next[t]) != multiset(next[u]))
  {
    hide Kept, Offers, Score, StepBy, Signature, Repeats;
    var tops, picks :| StepBy(q, sgntrs, beam, tops, picks, next, w);
    MembersExtend(q, sgntrs, beam, tops, picks, next, w, u);
    MembersExtend(q, sgntrs, beam, tops, picks, next, w, t);
    PicksOrdered(q, sgntrs, beam, tops, picks, next, w, u, t);
    if multiset(next[t]) == multiset(next[u]) {
      SignatureReordered(sgntrs, next[t], next[u]);
    }
  }

  lemma {:induction false} PicksOrdered(q: Problem, sgntrs: seq<u64>, beam: seq<seq<int>>, tops: seq<seq<nat>>,
                                        picks: seq<nat>, next: seq<seq<int>>, w: nat, u: nat, t: nat)
    requires q.lag >= 1 && StepBy(q, sgntrs, beam, tops, picks, next, w) && u < t < w == |next| && next[u] != []
    requires next[t] != []
    ensures Repeats(next, t)
            || (Score(q, next[t]) <= Score(q, next[u]) && Signature(sgntrs, next[t]) != Signature(sgntrs, next[u]))
  {
    hide Kept, Offers, Score, Signature;
    var cands := Kept(sgntrs, Offers(beam, tops, |beam|));
    if t < |cands| {
      assert picks[t] !in picks[..t] && picks[..t][u] == picks[u];
      assert picks[t] !in picks[..u];
      assert ScoresOf(q, cands)[picks[t]] <= ScoresOf(q, cands)[picks[u]];
      if picks[u] < picks[t] {
        KeptDiffer(sgntrs, Offers(beam, tops, |beam|), picks[u], picks[t]);
      } else {
        KeptDiffer(sgntrs, Offers(beam, tops, |beam|), picks[t], picks[u]);
      }
    } else {
      var v := AllPicked(q, cands, picks, next, w, 0);
      assert picks[t] == 0;
    }
  }

  /** A beam wider than there are candidates takes them all at first. */
  lemma {:induction false} AllPicked(q: Problem, cands: seq<seq<int>>, picks: seq<nat>, next: seq<seq<int>>, w: nat,
                                     c: nat) returns (u: nat)
    requires q.lag >= 1 && Picked(q, cands, picks, next, w) && c < |cands| <= w
    ensures u < |cands| && picks[u] == c && |next| == w && next[u] == cands[c]
  {
    TopKDiffer(ScoresOf(q, cands), picks, w, |cands|);
    AllListed(picks[..|cands|], |cands|, c);
    u :| 0 <= u < |cands| && picks[..|cands|][u] == c;
  }

  lemma {:induction false} RepeatsFew(q: Problem, sgntrs: seq<u64>, beam: seq<seq<int>>, tops: seq<seq<nat>>,
                                      picks: seq<nat>, next: seq<seq<int>>, w: nat, t: nat)
    requires q.lag >= 1 && StepBy(q, sgntrs, beam, tops, picks, next, w) && t < w == |next| && Repeats(next, t)
    ensures |Kept(sgntrs, Offers(beam, tops, |beam|))| < w
  {
    hide Kept, Offers, Score, Signature;
    var es := Offers(beam, tops, |beam|);
    var cands := Kept(sgntrs, es);
    var u :| 0 <= u < t && next[u] == next[t];
    if t < |cands| {
      assert picks[t] !in picks[..t] && picks[..t][u] == picks[u];
      if picks[u] < picks[t] {
        KeptDiffer(sgntrs, es, picks[u], picks[t]);
      } else {
        KeptDiffer(sgntrs, es, picks[t], picks[u]);
      }
    }
  }

  /** It repeats itself only when it holds every continuation. */
  lemma {:induction false} RepeatsHoldAll(q: Problem, sgntrs: seq<u64>, beam: seq<seq<int>>, next: seq<seq<int>>,
                                          w: nat, j: nat, i: int, t: nat)
    requires q.lag >= 1 && Step(q, sgntrs, beam, next, w) && Telling(q, sgntrs, beam) && j < |beam| && 0 <= i < q.n
    requires t < w
    requires |next| == w && Repeats(next, t)
    ensures Holds(next, beam[j] + [i])
  {
    hide Kept, Offers, Merits, Known, Score, Telling, StepBy, Repeats, TopK, Picked;
    var tops, picks :| StepBy(q, sgntrs, beam, tops, picks, next, w);
    TopsAt(q, sgntrs, beam, tops, picks, next, w, j);
    var cands := Kept(sgntrs, Offers(beam, tops, |beam|));
    RepeatsFew(q, sgntrs, beam, tops, picks, next, w, t);
    TopKSize(Merits(q, beam[j]), tops[j], w);
    if w < q.n {
      var cs := StandsOf(q, sgntrs, beam, tops, w, j);
      assert false;
    }
    var n: nat := i;
    TopKDiffer(Merits(q, beam[j]), tops[j], w, q.n);
    AllListed(tops[j][..q.n], q.n, n);
    var a :| 0 <= a < w && tops[j][a] == i;
    Represented(q, sgntrs, beam, tops, w, j, a);
    var u := AllPicked(q, cands, picks, next, w, Stand(sgntrs, cands, beam[j] + [i]));
  }

  lemma {:induction false} TopKSize(x: seq<real>, idx: seq<nat>, k: nat)
    requires TopK(x, idx, k)
    ensures |idx| == k && forall a :: 0 <= a < k ==> idx[a] < |x|
  {
  }

  // ------------------------------------------------------------ the leader

  /** No pulse added to ps scores more than r. */
  ghost predicate Leads(q: Problem, ps: seq<int>, r: real)
    requires q.lag >= 1
  {
    forall i :: 0 <= i < q.n ==> Merit(q, ps, i) <= r
  }

  /** The best of the new beam scores at least what any continuation of the best of the old one does. */
  lemma {:induction false} LeaderLeads(q: Problem, sgntrs: seq<u64>, beam: seq<seq<int>>, next: seq<seq<int>>, w: nat)
    requires q.lag >= 1 && Step(q, sgntrs, beam, next, w) && |beam| >= 1 && w >= 1 && q.n >= 1
    ensures |next| == w && Extends(q, beam, next[0]) && Leads(q, beam[0], Score(q, next[0]))
  {
    hide Kept, Offers, Merits, Merit, Known, Score, StepBy, TopK, Picked;
    var tops, picks :| StepBy(q, sgntrs, beam, tops, picks, next, w);
    MembersExtend(q, sgntrs, beam, tops, picks, next, w, 0);
    TopsAt(q, sgntrs, beam, tops, picks, next, w, 0);
    TopKFirst(Merits(q, beam[0]), tops[0], w);
    var es := Offers(beam, tops, |beam|);
    var cands := Kept(sgntrs, es);
    OffersFirst(beam, tops, |beam|);
    KeptFirst(sgntrs, es);
    PickedAt(q, cands, picks, next, w, 0);
    TopKFirst(ScoresOf(q, cands), picks, w);
    ContinuedScore(q, beam[0], tops[0][0]);
  }

  lemma {:induction false} TopKFirst(x: seq<real>, idx: seq<nat>, k: nat)
    requires TopK(x, idx, k) && k >= 1
    ensures |idx| == k && idx[0] < |x| && forall n :: 0 <= n < |x| ==> x[n] <= x[idx[0]]
  {
    assert idx[..0] == [];
  }
}
