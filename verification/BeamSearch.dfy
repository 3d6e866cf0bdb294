/** smplFcbSearchDeldec (internal/voip/codec/mlow/celp_enc.go, lines 839-1049): a beam of
survivors, each with its own exact state. */
module BeamSearch {
  import opened Words
  import opened Helpers
  import opened PulseForms
  import opened PulseEnergy
  import opened PulseScores
  import opened SearchTools
  import opened BeamSums
  import opened BeamStates
  import opened BeamSteps
  import opened GreedySearch

  /** fcb: a stored state plus one new pulse. */
  datatype Fcb = Fcb(wnrg: real, nPulses: nat, posNew: int, signNew: real, sgntr: u64, stateIdx: nat)

  const NO_FCB := Fcb(0.0, 0, 0, 0.0, 0, 0)

  /** The whole choice that a survivor stands for. */
  ghost function Choice(f: Fcb, s: FcbState): seq<int> {
    s.positions + [f.posNew]
  }

  /** The survivor's new pulse is a candidate of its state, its score is that candidate's, and its
      signature is that of the whole choice. */
  ghost predicate Backed(q: Problem, sgntrs: seq<u64>, f: Fcb, s: FcbState)
    requires q.lag >= 1
  {
    && StateOk(q, s) && f.nPulses == |s.positions| && 0 <= f.posNew < q.n && f.signNew == SignOf(q, f.posNew)
    && s.den[f.posNew] > 0.0 && f.wnrg == Ratio(s.num[f.posNew], s.den[f.posNew])
    && f.sgntr == Signature(sgntrs, Choice(f, s))
  }

  /** All of them so, each with k pulses stored before its new one. */
  ghost predicate AllBacked(q: Problem, sgntrs: seq<u64>, fs: seq<Fcb>, states: seq<FcbState>, k: nat)
    requires q.lag >= 1
  {
    forall i :: 0 <= i < |fs| ==> BackedIn(q, sgntrs, fs[i], states, k)
  }

  ghost predicate BackedIn(q: Problem, sgntrs: seq<u64>, f: Fcb, states: seq<FcbState>, k: nat)
    requires q.lag >= 1
  {
    f.stateIdx < |states| && Backed(q, sgntrs, f, states[f.stateIdx]) && f.nPulses == k
  }

  ghost function Choices(fs: seq<Fcb>, states: seq<FcbState>): (cs: seq<seq<int>>)
    requires forall i :: 0 <= i < |fs| ==> fs[i].stateIdx < |states|
    ensures |cs| == |fs| && forall i :: 0 <= i < |fs| ==> cs[i] == Choice(fs[i], states[fs[i].stateIdx])
  {
    seq(|fs|, i requires 0 <= i < |fs| => Choice(fs[i], states[fs[i].stateIdx]))
  }

  lemma {:induction false} ChoiceScore(q: Problem, sgntrs: seq<u64>, f: Fcb, s: FcbState)
    requires q.lag >= 1 && Backed(q, sgntrs, f, s)
    ensures Score(q, Choice(f, s)) == f.wnrg && |Choice(f, s)| == f.nPulses + 1
  {
    hide Num, Den, Ratio, Signature;
    assert Choice(f, s)[..|s.positions|] == s.positions;
  }

  // ------------------------------------------------------------ k best entries

  /** celpGetMaxiK. */
  method GetMaxiK(x: seq<real>, k: nat) returns (idx: seq<nat>)
    requires |x| >= 1
    ensures TopK(x, idx, k)
  {
    idx := [];
    for kk := 0 to k
      invariant TopK(x, idx, kk)
    {
      var bi, found := BestFree(x, idx);
      TopKNext(x, idx, kk, bi, found);
      idx := idx + [bi];
    }
  }

  /** A next entry is free exactly while the list is shorter than x. */
  lemma {:induction false} TopKNext(x: seq<real>, idx: seq<nat>, k: nat, bi: nat, found: bool)
    requires TopK(x, idx, k) && bi < |x|
    requires if found then bi !in idx && forall n: nat :: n < |x| && n !in idx ==> x[n] <= x[bi]
             else bi == 0 && forall n: nat :: n < |x| ==> n in idx
    ensures TopK(x, idx + [bi], k + 1)
  {
    var more := idx + [bi];
    assert more[..k] == idx && forall a :: 0 <= a < k ==> more[..a] == idx[..a];
    if found && k >= |x| {
      TopKDiffer(x, idx, k, |x|);
      AllListed(idx[..|x|], |x|, bi);
      assert false;
    }
    if !found && k < |x| {
      var all: seq<nat> := seq(|x|, i => i);
      DrawnFit(all, idx);
      assert false;
    }
  }

  method BestFree(x: seq<real>, taken: seq<nat>) returns (bi: nat, found: bool)
    requires |x| >= 1
    ensures bi < |x|
    ensures if found then bi !in taken && forall n: nat :: n < |x| && n !in taken ==> x[n] <= x[bi]
            else bi == 0 && forall n: nat :: n < |x| ==> n in taken
  {
    bi, found := 0, false;
    for n := 0 to |x|
      invariant bi < |x|
      invariant if found then bi !in taken && forall m: nat :: m < n && m !in taken ==> x[m] <= x[bi]
                else bi == 0 && forall m: nat :: m < n ==> m in taken
    {
      if n !in taken && (!found || x[n] > x[bi]) {
        bi, found := n, true;
      }
    }
  }

  // --------------------------------------------------------------- candidates

  /** Quotients of an exact state are the merits of its candidates. */
  lemma {:induction false} QuotientsAreMerits(q: Problem, s: FcbState, qs: seq<real>)
    requires q.lag >= 1 && StateOk(q, s) && Positive(s.den) && |qs| == q.n
    requires forall i :: 0 <= i < q.n ==> qs[i] == Ratio(s.num[i], s.den[i])
    ensures qs == Merits(q, s.positions)
  {
    hide Num, Den, Ratio;
    forall i | 0 <= i < q.n ensures qs[i] == Merit(q, s.positions, i) {
      assert s.num[i] == Num(q, s.positions, i) && s.den[i] == Den(q, s.positions, i) && s.den[i] > 0.0;
    }
  }

  /** The candidates are the offers es without repeated signatures; `seen` lists theirs. */
  ghost predicate Gathered(q: Problem, sgntrs: seq<u64>, cands: seq<Fcb>, states: seq<FcbState>, seen: seq<u64>,
                           es: seq<seq<int>>, k: nat)
    requires q.lag >= 1
  {
    && AllBacked(q, sgntrs, cands, states, k) && Choices(cands, states) == Kept(sgntrs, es)
    && |seen| == |cands| && forall c :: 0 <= c < |cands| ==> seen[c] == cands[c].sgntr
  }

  lemma {:induction false} GatherState(q: Problem, sgntrs: seq<u64>, cands: seq<Fcb>, states: seq<FcbState>,
                                       seen: seq<u64>, es: seq<seq<int>>, k: nat, s: FcbState)
    requires q.lag >= 1 && Gathered(q, sgntrs, cands, states, seen, es, k)
    ensures Gathered(q, sgntrs, cands, states + [s], seen, es, k)
  {
    hide Backed, Kept, Choice;
    forall c | 0 <= c < |cands| ensures BackedIn(q, sgntrs, cands[c], states + [s], k) {
      assert BackedIn(q, sgntrs, cands[c], states, k);
    }
    assert Choices(cands, states + [s]) == Choices(cands, states);
  }

  /** One more offer: a new candidate unless its signature was seen. */
  lemma {:induction false} GatherOne(q: Problem, sgntrs: seq<u64>, cands: seq<Fcb>, states: seq<FcbState>,
                                     seen: seq<u64>, es: seq<seq<int>>, k: nat, f: Fcb)
    requires q.lag >= 1 && Gathered(q, sgntrs, cands, states, seen, es, k) && BackedIn(q, sgntrs, f, states, k)
    ensures var more := es + [Choice(f, states[f.stateIdx])];
            if f.sgntr in seen then Gathered(q, sgntrs, cands, states, seen, more, k)
            else Gathered(q, sgntrs, cands + [f], states, seen + [f.sgntr], more, k)
  {
    hide Kept, Choice, StateOk, Ratio, Signature;
    var e := Choice(f, states[f.stateIdx]);
    KeptSnoc(sgntrs, es, e);
    var before := Choices(cands, states);
    forall c | 0 <= c < |cands| ensures Signature(sgntrs, before[c]) == seen[c] {
      assert BackedIn(q, sgntrs, cands[c], states, k);
    }
    if f.sgntr in seen {
      var c :| 0 <= c < |seen| && seen[c] == f.sgntr;
      assert Signature(sgntrs, before[c]) == Signature(sgntrs, e);
    } else {
      assert !Known(sgntrs, before, e);
      assert Choices(cands + [f], states) == before + [e];
    }
  }

  lemma {:induction false} ContinuedNext(es: seq<seq<int>>, ps: seq<int>, top: seq<nat>, i: nat)
    requires i < |top|
    ensures es + Continued(ps, top[..i + 1]) == es + Continued(ps, top[..i]) + [ps + [top[i]]]
  {
    var a, b := Continued(ps, top[..i + 1]), Continued(ps, top[..i]) + [ps + [top[i]]];
    assert forall t :: 0 <= t < i + 1 ==> a[t] == b[t];
    assert a == b;
  }

  lemma {:induction false} NewBacked(q: Problem, sgntrs: seq<u64>, f: Fcb, s: FcbState)
    requires q.lag >= 1 && StateOk(q, s) && f.nPulses == |s.positions| && 0 <= f.posNew < q.n <= |sgntrs|
    requires f.signNew == SignOf(q, f.posNew) && s.den[f.posNew] > 0.0
    requires f.wnrg == Ratio(s.num[f.posNew], s.den[f.posNew])
    requires f.sgntr == Plus(Signature(sgntrs, s.positions), sgntrs[f.posNew])
    ensures Backed(q, sgntrs, f, s)
  {
    hide Num, Den, Ratio, SignOf, Plus;
    SignatureSnoc(sgntrs, s.positions, f.posNew);
  }

  /** A freshly stored state offers its numsurv best continuations. */
  method Candidates(q: Problem, ghost h: seq<real>, dSign: array<real>, s: FcbState, base: u64, sgntrs: seq<u64>,
                    numsurv: nat, ghost states: seq<FcbState>, idx: nat, cands: seq<Fcb>, seen: seq<u64>,
                    ghost es: seq<seq<int>>)
    returns (cands': seq<Fcb>, seen': seq<u64>, ghost top: seq<nat>)
    requires Searchable(q, h) && StateOk(q, s) && |sgntrs| >= q.n && dSign.Length == q.n && numsurv >= 1
    requires forall i :: 0 <= i < q.n ==> dSign[i] == SignOf(q, i)
    requires idx < |states| && states[idx] == s && base == Signature(sgntrs, s.positions)
    requires Gathered(q, sgntrs, cands, states, seen, es, |s.positions|)
    ensures TopK(Merits(q, s.positions), top, numsurv)
    ensures Gathered(q, sgntrs, cands', states, seen', es + Continued(s.positions, top), |s.positions|)
  {
    hide Ratio, SignOf, Num, Den, Autocorrelation, Signature, TopK, Gathered, Merits;
    ExactPositive(q, h, s.positions, s.num, s.den);
    var qs := Quotients(s.num, s.den);
    QuotientsAreMerits(q, s, qs);
    var sortIx := GetMaxiK(qs, numsurv);
    TopKSize(qs, sortIx, numsurv);
    cands', seen', top := cands, seen, sortIx;
    assert es + Continued(s.positions, sortIx[..0]) == es;
    for i := 0 to numsurv
      invariant Gathered(q, sgntrs, cands', states, seen', es + Continued(s.positions, sortIx[..i]), |s.positions|)
    {
      var pos := sortIx[i];
      var sgntr := (base + sgntrs[pos]) % 0x1_0000_0000_0000_0000;
      var f := Fcb(qs[pos], |s.positions|, pos, dSign[pos], sgntr, idx);
      NewBacked(q, sgntrs, f, s);
      ContinuedNext(es, s.positions, sortIx, i);
      GatherOne(q, sgntrs, cands', states, seen', es + Continued(s.positions, sortIx[..i]), |s.positions|, f);
      if sgntr !in seen' {
        cands', seen' := cands' + [f], seen' + [sgntr];
      }
    }
    assert sortIx[..numsurv] == sortIx;
  }

  /** One round: every survivor stores its pulse and offers its continuations. */
  method Round(q: Problem, flip: seq<real>, ghost h: seq<real>, dAbs: array<real>, dSign: array<real>, flat: bool,
               sgntrs: seq<u64>, fcbs: seq<Fcb>, states: seq<FcbState>, numsurv: nat, ghost k: nat)
    returns (cands: seq<Fcb>, next: seq<FcbState>, ghost tops: seq<seq<nat>>)
    requires Searchable(q, h) && FlipOf(q, flip) && SignsOf(q, dAbs[..], dSign[..]) && (flat ==> q.lag >= q.n)
    requires |sgntrs| >= q.n && |fcbs| >= 1 && AllBacked(q, sgntrs, fcbs, states, k) && numsurv >= 1
    ensures AllBacked(q, sgntrs, cands, next, k + 1) && Tops(q, Choices(fcbs, states), tops, numsurv)
    ensures |cands| >= 1 && Choices(cands, next) == Kept(sgntrs, Offers(Choices(fcbs, states), tops, |fcbs|))
  {
    hide Ratio, SignOf, AbsOf, Num, Den, Autocorrelation, FlipOf, SignsOf, StateOk, Stored, Exact, Signature, Gathered;
    hide TopK, Merits, Continued, Kept, Offers, Positive;
    cands, next, tops := [], [], [];
    var seen: seq<u64> := [];
    ghost var beam := Choices(fcbs, states);
    SignsAt(q, dAbs, dSign);
    GatherNone(q, sgntrs, beam, k + 1);
    for i := 0 to |fcbs|
      invariant InRound(q, sgntrs, beam, cands, next, seen, tops, numsurv, k, i)
    {
      var f := fcbs[i];
      assert BackedIn(q, sgntrs, f, states, k);
      var s := StorePulse(q, flip, dAbs, dSign, states[f.stateIdx], f.posNew, f.signNew, flat);
      GatherState(q, sgntrs, cands, next, seen, Offers(beam, tops, i), k + 1, s);
      ghost var top;
      ghost var before := tops;
      cands, seen, top := Candidates(q, h, dSign, s, f.sgntr, sgntrs, numsurv, next + [s], i, cands, seen,
                                     Offers(beam, tops, i));
      next, tops := next + [s], tops + [top];
      OffersNext(beam, before, top, i);
    }
    GatheredParts(q, sgntrs, cands, next, seen, Offers(beam, tops, |fcbs|), k + 1);
    SomeKept(q, sgntrs, beam, tops, numsurv);
  }

  lemma {:induction false} SomeKept(q: Problem, sgntrs: seq<u64>, beam: seq<seq<int>>, tops: seq<seq<nat>>, w: nat)
    requires q.lag >= 1 && |beam| >= 1 && w >= 1 && Tops(q, beam, tops, w)
    ensures |Kept(sgntrs, Offers(beam, tops, |beam|))| >= 1
  {
    hide Merits, Kept, Offers;
    assert TopK(Merits(q, beam[0]), tops[0], w);
    OffersFirst(beam, tops, |beam|);
    KeptFirst(sgntrs, Offers(beam, tops, |beam|));
  }

  /** The first i survivors have been served. */
  ghost predicate InRound(q: Problem, sgntrs: seq<u64>, beam: seq<seq<int>>, cands: seq<Fcb>, next: seq<FcbState>,
                          seen: seq<u64>, tops: seq<seq<nat>>, w: nat, k: nat, i: nat)
    requires q.lag >= 1 && i <= |beam|
  {
    && |next| == |tops| == i && (forall j :: 0 <= j < i ==> TopK(Merits(q, beam[j]), tops[j], w))
    && Gathered(q, sgntrs, cands, next, seen, Offers(beam, tops, i), k + 1)
  }

  lemma {:induction false} GatherNone(q: Problem, sgntrs: seq<u64>, beam: seq<seq<int>>, k: nat)
    requires q.lag >= 1
    ensures Gathered(q, sgntrs, [], [], [], Offers(beam, [], 0), k)
  {
  }

  lemma {:induction false} GatheredParts(q: Problem, sgntrs: seq<u64>, cands: seq<Fcb>, states: seq<FcbState>,
                                         seen: seq<u64>, es: seq<seq<int>>, k: nat)
    requires q.lag >= 1 && Gathered(q, sgntrs, cands, states, seen, es, k)
    ensures AllBacked(q, sgntrs, cands, states, k) && Choices(cands, states) == Kept(sgntrs, es)
  {
  }

  lemma {:induction false} OffersPrefix(beam: seq<seq<int>>, a: seq<seq<nat>>, b: seq<seq<nat>>, k: nat)
    requires k <= |beam| && k <= |a| && k <= |b| && forall j :: 0 <= j < k ==> a[j] == b[j]
    ensures Offers(beam, a, k) == Offers(beam, b, k)
  {
    hide Continued;
    if k > 0 {
      OffersPrefix(beam, a, b, k - 1);
    }
  }

  lemma {:induction false} OffersNext(beam: seq<seq<int>>, tops: seq<seq<nat>>, top: seq<nat>, i: nat)
    requires |tops| == i < |beam|
    ensures Offers(beam, tops + [top], i + 1) == Offers(beam, tops, i) + Continued(beam[i], top)
  {
    hide Continued;
    OffersPrefix(beam, tops + [top], tops, i);
  }

  /** The numsurv best candidates become the survivors. */
  method Survivors(q: Problem, sgntrs: seq<u64>, cands: seq<Fcb>, ghost states: seq<FcbState>, numsurv: nat,
                   ghost k: nat)
    returns (fcbs: seq<Fcb>, ghost picks: seq<nat>)
    requires q.lag >= 1 && |cands| >= 1 && AllBacked(q, sgntrs, cands, states, k)
    ensures AllBacked(q, sgntrs, fcbs, states, k)
    ensures Picked(q, Choices(cands, states), picks, Choices(fcbs, states), numsurv)
  {
    hide BackedIn, TopK, ScoresOf, Choice, Picked;
    var x := seq(|cands|, i requires 0 <= i < |cands| => cands[i].wnrg);
    WnrgsAreScores(q, sgntrs, cands, states, k, x);
    var sortIx := GetMaxiK(x, numsurv);
    TopKSize(x, sortIx, numsurv);
    fcbs, picks := [], sortIx;
    for i := 0 to numsurv
      invariant |fcbs| == i && forall j :: 0 <= j < i ==> fcbs[j] == cands[sortIx[j]]
    {
      fcbs := fcbs + [cands[sortIx[i]]];
    }
    SurvivorsPicked(q, sgntrs, cands, states, numsurv, k, picks, fcbs);
  }

  lemma {:induction false} WnrgsAreScores(q: Problem, sgntrs: seq<u64>, cands: seq<Fcb>, states: seq<FcbState>, k: nat,
                                          x: seq<real>)
    requires q.lag >= 1 && AllBacked(q, sgntrs, cands, states, k)
    requires |x| == |cands| && forall i :: 0 <= i < |cands| ==> x[i] == cands[i].wnrg
    ensures x == ScoresOf(q, Choices(cands, states))
  {
    hide Backed, Choice, Score;
    forall i | 0 <= i < |cands| ensures x[i] == ScoresOf(q, Choices(cands, states))[i] {
      assert BackedIn(q, sgntrs, cands[i], states, k);
      ChoiceScore(q, sgntrs, cands[i], states[cands[i].stateIdx]);
    }
  }

  lemma {:induction false} SurvivorsPicked(q: Problem, sgntrs: seq<u64>, cands: seq<Fcb>, states: seq<FcbState>,
                                           w: nat, k: nat, picks: seq<nat>, fcbs: seq<Fcb>)
    requires q.lag >= 1 && AllBacked(q, sgntrs, cands, states, k) && TopK(ScoresOf(q, Choices(cands, states)), picks, w)
    requires |fcbs| == w == |picks| && forall j :: 0 <= j < w ==> picks[j] < |cands| && fcbs[j] == cands[picks[j]]
    ensures AllBacked(q, sgntrs, fcbs, states, k) && Picked(q, Choices(cands, states), picks, Choices(fcbs, states), w)
  {
    hide TopK, ScoresOf, Choice, Backed;
    forall j | 0 <= j < w ensures BackedIn(q, sgntrs, fcbs[j], states, k) {
      assert BackedIn(q, sgntrs, cands[picks[j]], states, k);
    }
  }

  // -------------------------------------------------------------- best so far

  datatype Best = Best(f: Fcb, s: FcbState, thr: real)

  /** checkIfBetterDeldec. */
  function Better(b: Best, f: Fcb, s: FcbState, per: real): Best {
    var thr := b.thr + per;
    if f.wnrg > thr then Best(f, s, f.wnrg) else b.(thr := thr)
  }

  /** The leaders of the rounds: each the best survivor of its round, one pulse longer than the
      leader before it and scoring at least what that one's best continuation scores. */
  ghost predicate Led(q: Problem, leaders: seq<seq<int>>)
    requires q.lag >= 1
  {
    forall k :: 0 <= k < |leaders| ==> LedAt(q, leaders, k)
  }

  ghost predicate LedAt(q: Problem, leaders: seq<seq<int>>, k: nat)
    requires q.lag >= 1 && k < |leaders|
  {
    && |leaders[k]| == k + 1 && Inside(q, leaders[k])
    && Leads(q, if k == 0 then [] else leaders[k - 1], Score(q, leaders[k]))
  }

  /** The main rate hears of every round. */
  ghost function MainRank(q: Problem, leaders: seq<seq<int>>, per: real, k: nat): Standing
    requires q.lag >= 1 && k <= |leaders| && forall j :: 0 <= j < |leaders| ==> leaders[j] != []
  {
    if k == 0 then NO_WINNER else Consider(MainRank(q, leaders, per, k - 1), per, Score(q, leaders[k - 1]), k)
  }

  /** The second rate hears of round k up to its limit, and never of the last of several rounds. */
  predicate Heard(k: nat, rounds: nat, maxFec: int) {
    if k == 1 then maxFec > 0 else k < rounds && maxFec >= k
  }

  ghost function FecRank(q: Problem, leaders: seq<seq<int>>, per: real, maxFec: int, rounds: nat, k: nat): Standing
    requires q.lag >= 1 && k <= |leaders| && forall j :: 0 <= j < |leaders| ==> leaders[j] != []
  {
    if k == 0 then NO_WINNER
    else
      var before := FecRank(q, leaders, per, maxFec, rounds, k - 1);
      if Heard(k, rounds, maxFec) then Consider(before, per, Score(q, leaders[k - 1]), k) else before
  }

  ghost function LeaderScores(q: Problem, leaders: seq<seq<int>>): (x: seq<real>)
    requires q.lag >= 1 && forall j :: 0 <= j < |leaders| ==> leaders[j] != []
    ensures |x| == |leaders| && forall j :: 0 <= j < |leaders| ==> x[j] == Score(q, leaders[j])
  {
    seq(|leaders|, j requires 0 <= j < |leaders| => Score(q, leaders[j]))
  }

  /** The main rate sends the leader with the greatest score after paying `per` for every pulse. */
  lemma {:induction false} MainRankIsBest(q: Problem, leaders: seq<seq<int>>, per: real, k: nat, j: nat)
    requires q.lag >= 1 && j <= k <= |leaders| && forall i :: 0 <= i < |leaders| ==> leaders[i] != []
    ensures var st, x := MainRank(q, leaders, per, k), LeaderScores(q, leaders);
            && st == Race(x, per, k) && st.n <= k && Net(x, per, j) <= Net(x, per, st.n)
            && (j < st.n ==> Net(x, per, j) < Net(x, per, st.n))
  {
    hide Score, Net, Consider;
    RanksRace(q, leaders, per, k);
    RaceIsBest(LeaderScores(q, leaders), per, k, j);
  }

  lemma {:induction false} RanksRace(q: Problem, leaders: seq<seq<int>>, per: real, k: nat)
    requires q.lag >= 1 && k <= |leaders| && forall i :: 0 <= i < |leaders| ==> leaders[i] != []
    ensures MainRank(q, leaders, per, k) == Race(LeaderScores(q, leaders), per, k)
  {
    hide Score, Consider;
    if k > 0 {
      RanksRace(q, leaders, per, k - 1);
    }
  }

  /** The second rate hears of fewer rounds: those up to its limit, but not the last of several. */
  lemma {:induction false} FecRankIsBest(q: Problem, leaders: seq<seq<int>>, per: real, maxFec: int, rounds: nat,
                                         k: nat, j: nat)
    requires q.lag >= 1 && j <= k <= |leaders| && forall i :: 0 <= i < |leaders| ==> leaders[i] != []
    requires k <= maxFec && (k == 1 || k < rounds)
    ensures var st, x := FecRank(q, leaders, per, maxFec, rounds, k), LeaderScores(q, leaders);
            && st == Race(x, per, k) && st.n <= k && Net(x, per, j) <= Net(x, per, st.n)
            && (j < st.n ==> Net(x, per, j) < Net(x, per, st.n))
  {
    hide Score, Net, Consider;
    FecRaces(q, leaders, per, maxFec, rounds, k);
    RaceIsBest(LeaderScores(q, leaders), per, k, j);
  }

  lemma {:induction false} FecRaces(q: Problem, leaders: seq<seq<int>>, per: real, maxFec: int, rounds: nat, k: nat)
    requires q.lag >= 1 && k <= |leaders| && forall i :: 0 <= i < |leaders| ==> leaders[i] != []
    requires k <= maxFec && (k <= 1 || k < rounds)
    ensures FecRank(q, leaders, per, maxFec, rounds, k) == Race(LeaderScores(q, leaders), per, k)
  {
    hide Score, Consider;
    if k > 0 {
      FecRaces(q, leaders, per, maxFec, rounds, k - 1);
    }
  }

  /** Unlike the greedy search, the beam keeps the second rate within its limit. */
  lemma {:induction false} FecWithin(q: Problem, leaders: seq<seq<int>>, per: real, maxFec: int, rounds: nat, k: nat)
    requires q.lag >= 1 && k <= |leaders| && forall j :: 0 <= j < |leaders| ==> leaders[j] != []
    ensures FecRank(q, leaders, per, maxFec, rounds, k).n <= Max(maxFec, 0)
  {
    hide Score;
    if k > 0 {
      FecWithin(q, leaders, per, maxFec, rounds, k - 1);
    }
  }

  lemma {:induction false} RanksPrefix(q: Problem, a: seq<seq<int>>, b: seq<seq<int>>, perMain: real, perFec: real,
                                       maxFec: int, rounds: nat, k: nat)
    requires q.lag >= 1 && k <= |a| && k <= |b| && (forall j :: 0 <= j < k ==> a[j] == b[j])
    requires (forall j :: 0 <= j < |a| ==> a[j] != []) && forall j :: 0 <= j < |b| ==> b[j] != []
    ensures MainRank(q, a, perMain, k) == MainRank(q, b, perMain, k)
    ensures FecRank(q, a, perFec, maxFec, rounds, k) == FecRank(q, b, perFec, maxFec, rounds, k)
  {
    hide Score;
    if k > 0 {
      RanksPrefix(q, a, b, perMain, perFec, maxFec, rounds, k - 1);
    }
  }

  /** The best so far of one rate is the leader that won last. */
  ghost predicate BestIs(q: Problem, sgntrs: seq<u64>, b: Best, leaders: seq<seq<int>>, st: Standing)
    requires q.lag >= 1
  {
    && b.thr == st.thr && b.f.wnrg == st.won && st.n <= |leaders|
    && if st.n == 0 then st.won == 0.0
       else Backed(q, sgntrs, b.f, b.s) && Choice(b.f, b.s) == leaders[st.n - 1] && |leaders[st.n - 1]| == st.n
  }

  lemma {:induction false} BetterIs(q: Problem, sgntrs: seq<u64>, b: Best, leaders: seq<seq<int>>, st: Standing, f: Fcb,
                                    s: FcbState, per: real)
    requires q.lag >= 1 && BestIs(q, sgntrs, b, leaders, st) && Backed(q, sgntrs, f, s) && f.nPulses == |leaders|
    ensures BestIs(q, sgntrs, Better(b, f, s, per), leaders + [Choice(f, s)], Consider(st, per, f.wnrg, |leaders| + 1))
    ensures BestIs(q, sgntrs, b, leaders + [Choice(f, s)], st)
  {
    hide Backed, Score;
    ChoiceScore(q, sgntrs, f, s);
  }

  lemma {:induction false} LedMore(q: Problem, leaders: seq<seq<int>>, ps: seq<int>)
    requires q.lag >= 1 && Led(q, leaders) && |ps| == |leaders| + 1 && Inside(q, ps)
    requires Leads(q, if leaders == [] then [] else leaders[|leaders| - 1], Score(q, ps))
    ensures Led(q, leaders + [ps])
  {
    hide Score, Leads;
    var all := leaders + [ps];
    forall k | 0 <= k < |all| ensures LedAt(q, all, k) {
      if k < |leaders| {
        assert LedAt(q, leaders, k);
        assert all[k] == leaders[k] && (k > 0 ==> all[k - 1] == leaders[k - 1]);
      }
    }
  }

  lemma {:induction false} ChoiceInside(q: Problem, sgntrs: seq<u64>, f: Fcb, s: FcbState)
    requires q.lag >= 1 && Backed(q, sgntrs, f, s)
    ensures Inside(q, Choice(f, s))
  {
    hide Exact, Ratio;
  }

  /** The codes and numbers of one rate: those of its last winner, if that scored at all. */
  method Deliver(q: Problem, ghost sgntrs: seq<u64>, b: Best, ghost leaders: seq<seq<int>>, ghost st: Standing)
    returns (codes: seq<int>, r: Report)
    requires q.lag >= 1 && BestIs(q, sgntrs, b, leaders, st)
    ensures Reported(q, codes, r) && r.n == (if st.won > 0.0 then st.n else 0)
    ensures r.n > 0 ==> CodesOf(q, leaders[r.n - 1], codes) && r.wnrg == st.won
  {
    hide SignOf, Ratio, Coded, Chosen, With;
    hide Problem.Corr, Problem.Energy;
    codes, r := [], SILENT;
    if b.f.wnrg > 0.0 {
      var ps := b.s.positions + [b.f.posNew];
      for i := 0 to b.f.nPulses
        invariant |codes| == i && CodesOf(q, ps, codes)
      {
        codes := codes + [Code(b.s.positions[i], b.s.signs[i] > 0.0)];
      }
      codes := codes + [Code(b.f.posNew, b.f.signNew > 0.0)];
      assert CodesOf(q, ps, codes);
      CodedIsChosen(q, ps, codes, |codes|);
      ChosenSnoc(q, b.s.positions, b.f.posNew);
      var num, den := b.s.num[b.f.posNew], b.s.den[b.f.posNew];
      r := Report(b.f.nPulses + 1, b.f.wnrg, num / den, den, b.thr);
    }
  }

  // --------------------------------------------------------------- the search

  /** The first beam: the w best single pulses. */
  ghost predicate FirstBeam(q: Problem, beam: seq<seq<int>>, w: nat)
    requires q.lag >= 1
  {
    exists picks :: FirstPicks(q, picks, beam, w)
  }

  ghost predicate FirstPicks(q: Problem, picks: seq<nat>, beam: seq<seq<int>>, w: nat)
    requires q.lag >= 1
  {
    TopK(Merits(q, []), picks, w) && |beam| == w && forall t :: 0 <= t < w ==> beam[t] == [picks[t]]
  }

  method FirstSurvivors(q: Problem, ghost h: seq<real>, dSign: array<real>, s: FcbState, flat: bool, sgntrs: seq<u64>,
                        surv: nat)
    returns (fcbs: seq<Fcb>)
    requires Searchable(q, h) && StateOk(q, s) && s.positions == [] && |sgntrs| >= q.n && dSign.Length == q.n
    requires surv >= 1
    requires (flat ==> q.lag >= q.n) && forall i :: 0 <= i < q.n ==> dSign[i] == SignOf(q, i)
    ensures AllBacked(q, sgntrs, fcbs, [s], 0) && FirstBeam(q, Choices(fcbs, [s]), surv)
  {
    hide Ratio, SignOf, Num, Den, Autocorrelation, Signature, Merits, TopK;
    ExactPositive(q, h, s.positions, s.num, s.den);
    var qs := Quotients(s.num, s.den);
    QuotientsAreMerits(q, s, qs);
    if flat {
      qs := s.num;
    }
    var sortIx := GetMaxiK(qs, surv);
    if flat {
      FlatTop(q, s, sortIx, surv);
    }
    TopKSize(Merits(q, []), sortIx, surv);
    fcbs := [];
    for i := 0 to surv
      invariant |fcbs| == i
      invariant forall k :: 0 <= k < i ==> BackedIn(q, sgntrs, fcbs[k], [s], 0) && fcbs[k].posNew == sortIx[k]
    {
      var pos := sortIx[i];
      var f := Fcb(Ratio(s.num[pos], s.den[pos]), 0, pos, dSign[pos], sgntrs[pos], 0);
      SignatureSnoc(sgntrs, [], pos);
      assert Choice(f, s) == [pos];
      fcbs := fcbs + [f];
    }
    assert FirstPicks(q, sortIx, Choices(fcbs, [s]), surv);
  }

  /** Without echoes all first energies are equal, so the order by correlation is that by merit. */
  lemma {:induction false} FlatTop(q: Problem, s: FcbState, idx: seq<nat>, w: nat)
    requires q.lag >= q.n >= 1 && |q.phi| >= 1 && StateOk(q, s) && s.positions == [] && Positive(s.den)
    requires TopK(s.num, idx, w)
    ensures TopK(Merits(q, []), idx, w)
  {
    hide Merit;
    forall n: nat, p: nat | n < q.n && p < q.n && s.num[n] <= s.num[p] ensures Merit(q, [], n) <= Merit(q, [], p) {
      FlatOrder(q, s, n, p);
    }
  }

  lemma {:induction false} FlatOrder(q: Problem, s: FcbState, i: int, p: int)
    requires q.lag >= q.n >= 1 && |q.phi| >= 1 && StateOk(q, s) && s.positions == [] && Positive(s.den)
    requires 0 <= i < q.n && 0 <= p < q.n && s.num[i] <= s.num[p]
    ensures Merit(q, [], i) <= Merit(q, [], p)
  {
    hide Ratio, Num, Den, AbsOf;
    FlatStart(q, i);
    FlatStart(q, p);
    assert s.num[i] == Num(q, [], i) && s.den[i] == Den(q, [], i);
    assert s.num[p] == Num(q, [], p) && s.den[p] == Den(q, [], p);
    AbsNotNegative(q, i);
    LargerRatio(s.num[i], s.num[p], s.den[p]);
  }

  lemma {:induction false} AbsNotNegative(q: Problem, i: int)
    requires q.lag >= 1
    ensures AbsOf(q, i) >= 0.0
  {
  }

  /** The width of beam k: the survivor count of its round, and 1 in the last of several rounds. */
  function Width(surv: seq<nat>, rounds: nat, k: nat): nat
    requires |surv| >= 1 && |surv| >= rounds - 1 && k < rounds
  {
    if k > 0 && k == rounds - 1 then 1 else surv[k]
  }

  /** Every beam follows from the one before it. */
  ghost predicate Beamed(q: Problem, sgntrs: seq<u64>, surv: seq<nat>, rounds: nat, beams: seq<seq<seq<int>>>)
    requires q.lag >= 1 && |surv| >= 1 && |surv| >= rounds - 1 && |beams| <= rounds
  {
    forall k :: 0 <= k < |beams| ==> BeamAt(q, sgntrs, surv, rounds, beams, k)
  }

  ghost predicate BeamAt(q: Problem, sgntrs: seq<u64>, surv: seq<nat>, rounds: nat, beams: seq<seq<seq<int>>>, k: nat)
    requires q.lag >= 1 && |surv| >= 1 && |surv| >= rounds - 1 && k < |beams| <= rounds
  {
    if k == 0 then FirstBeam(q, beams[0], surv[0]) else Step(q, sgntrs, beams[k - 1], beams[k], Width(surv, rounds, k))
  }

  lemma {:induction false} BeamedMore(q: Problem, sgntrs: seq<u64>, surv: seq<nat>, rounds: nat,
                                      beams: seq<seq<seq<int>>>, beam: seq<seq<int>>)
    requires q.lag >= 1 && |surv| >= 1 && |surv| >= rounds - 1 && |beams| < rounds
    requires Beamed(q, sgntrs, surv, rounds, beams)
    requires if beams == [] then FirstBeam(q, beam, surv[0])
             else Step(q, sgntrs, beams[|beams| - 1], beam, Width(surv, rounds, |beams|))
    ensures Beamed(q, sgntrs, surv, rounds, beams + [beam])
  {
    hide FirstBeam, Step;
    var all := beams + [beam];
    forall k | 0 <= k < |all| ensures BeamAt(q, sgntrs, surv, rounds, all, k) {
      if k < |beams| {
        assert BeamAt(q, sgntrs, surv, rounds, beams, k);
        assert all[k] == beams[k] && (k > 0 ==> all[k - 1] == beams[k - 1]);
      }
    }
  }

  ghost predicate Ranked(q: Problem, sgntrs: seq<u64>, leaders: seq<seq<int>>, bestMain: Best, bestFec: Best,
                         perMain: real, perFec: real, maxFec: int, rounds: nat)
    requires q.lag >= 1
  {
    && (forall j :: 0 <= j < |leaders| ==> leaders[j] != [])
    && BestIs(q, sgntrs, bestMain, leaders, MainRank(q, leaders, perMain, |leaders|))
    && BestIs(q, sgntrs, bestFec, leaders, FecRank(q, leaders, perFec, maxFec, rounds, |leaders|))
  }

  /** A round's leader is heard by the rates. */
  lemma {:induction false} RankedMore(q: Problem, sgntrs: seq<u64>, leaders: seq<seq<int>>, bestMain: Best,
                                      bestFec: Best, perMain: real, perFec: real, maxFec: int, rounds: nat, f: Fcb,
                                      s: FcbState)
    requires q.lag >= 1 && Ranked(q, sgntrs, leaders, bestMain, bestFec, perMain, perFec, maxFec, rounds)
    requires Backed(q, sgntrs, f, s) && f.nPulses == |leaders|
    ensures var more, k := leaders + [Choice(f, s)], |leaders| + 1;
            Ranked(q, sgntrs, more, Better(bestMain, f, s, perMain),
                   if Heard(k, rounds, maxFec) then Better(bestFec, f, s, perFec) else bestFec,
                   perMain, perFec, maxFec, rounds)
  {
    hide Backed, Score, BestIs, Better, Consider, Choice;
    var more := leaders + [Choice(f, s)];
    ChoiceScore(q, sgntrs, f, s);
    assert forall j :: 0 <= j < |leaders| ==> more[j] == leaders[j];
    RanksPrefix(q, more, leaders, perMain, perFec, maxFec, rounds, |leaders|);
    BetterIs(q, sgntrs, bestMain, leaders, MainRank(q, leaders, perMain, |leaders|), f, s, perMain);
    BetterIs(q, sgntrs, bestFec, leaders, FecRank(q, leaders, perFec, maxFec, rounds, |leaders|), f, s, perFec);
  }

  lemma {:induction false} FirstRanked(q: Problem, sgntrs: seq<u64>, s: FcbState, perMain: real, perFec: real,
                                       maxFec: int, rounds: nat)
    requires q.lag >= 1
    ensures Led(q, [])
    ensures Ranked(q, sgntrs, [], Best(NO_FCB, s, 0.0), Best(NO_FCB, s, 0.0), perMain, perFec, maxFec, rounds)
  {
  }

  /** What beam k continues: the beam before it, at first the empty choice. */
  ghost function Before(beams: seq<seq<seq<int>>>, k: nat): seq<seq<int>>
    requires k < |beams|
  {
    if k == 0 then [[]] else beams[k - 1]
  }

  /** Over the whole search, every beam has its width and holds the best continuations of the beam
      before it: one that is not in it, in any order of its pulses, scores at most what every choice
      in it scores. */
  lemma {:induction false} BeamsKeepBest(q: Problem, sgntrs: seq<u64>, surv: seq<nat>, rounds: nat,
                                         beams: seq<seq<seq<int>>>, k: nat, j: nat, i: int, t: nat)
    requires q.lag >= 1 && |surv| >= 1 && |surv| >= rounds - 1 && |beams| <= rounds
    requires Beamed(q, sgntrs, surv, rounds, beams)
    requires k < |beams| && j < |Before(beams, k)| && 0 <= i < q.n && t < Width(surv, rounds, k)
    requires k > 0 ==> Telling(q, sgntrs, Before(beams, k))
    ensures |beams[k]| == Width(surv, rounds, k) && Extends(q, Before(beams, k), beams[k][t])
    ensures var e := Before(beams, k)[j] + [i];
            Holds(beams[k], e) || Score(q, e) <= Score(q, beams[k][t])
  {
    hide Telling, Holds, Step, Extends, Merit, Merits, Score;
    assert BeamAt(q, sgntrs, surv, rounds, beams, k);
    if k == 0 {
      FirstKeepsBest(q, beams[0], surv[0], i, t);
    } else {
      BeamKeepsBest(q, sgntrs, beams[k - 1], beams[k], Width(surv, rounds, k), j, i, t);
    }
  }

  lemma {:induction false} FirstKeepsBest(q: Problem, beam: seq<seq<int>>, w: nat, i: int, t: nat)
    requires q.lag >= 1 && FirstBeam(q, beam, w) && 0 <= i < q.n && t < w
    ensures |beam| == w && Extends(q, [[]], beam[t])
    ensures Holds(beam, [] + [i]) || Score(q, [] + [i]) <= Score(q, beam[t])
  {
    hide Merit, Merits, Score;
    var picks :| FirstPicks(q, picks, beam, w);
    var n: nat := i;
    TopKSize(Merits(q, []), picks, w);
    ListedOrLess(Merits(q, []), picks, w, n, t);
    ContinuedScore(q, [], i);
    ContinuedScore(q, [], picks[t]);
    ExtendsBy(q, [[]], 0, picks[t]);
    assert [] + [picks[t]] == beam[t];
    if n in picks {
      var u :| 0 <= u < w && picks[u] == n;
      assert beam[u] == [] + [i];
    }
  }

  /** Where the search stands: its beams so far and their leaders, the last beam being that of the
      survivors. */
  ghost predicate Course(q: Problem, sgntrs: seq<u64>, surv: seq<nat>, rounds: nat, fcbs: seq<Fcb>,
                         states: seq<FcbState>, beams: seq<seq<seq<int>>>, leaders: seq<seq<int>>)
    requires q.lag >= 1 && |surv| >= 1 && |surv| >= rounds - 1
  {
    && 1 <= |leaders| == |beams| <= rounds && Beamed(q, sgntrs, surv, rounds, beams) && Led(q, leaders)
    && HeadsOf(beams, leaders) && |fcbs| >= 1 && AllBacked(q, sgntrs, fcbs, states, |leaders| - 1)
    && beams[|beams| - 1] == Choices(fcbs, states)
  }

  ghost predicate HeadsOf(beams: seq<seq<seq<int>>>, leaders: seq<seq<int>>) {
    |leaders| == |beams| && forall k :: 0 <= k < |beams| ==> beams[k] != [] && leaders[k] == beams[k][0]
  }

  lemma {:induction false} CourseParts(q: Problem, sgntrs: seq<u64>, surv: seq<nat>, rounds: nat, fcbs: seq<Fcb>,
                                       states: seq<FcbState>, beams: seq<seq<seq<int>>>, leaders: seq<seq<int>>)
    requires q.lag >= 1 && |surv| >= 1 && |surv| >= rounds - 1
    requires Course(q, sgntrs, surv, rounds, fcbs, states, beams, leaders)
    ensures 1 <= |leaders| == |beams| <= rounds && |fcbs| >= 1 && AllBacked(q, sgntrs, fcbs, states, |leaders| - 1)
    ensures Beamed(q, sgntrs, surv, rounds, beams) && HeadsOf(beams, leaders) && Led(q, leaders)
  {
  }

  lemma {:induction false} LeadParts(q: Problem, sgntrs: seq<u64>, fcbs: seq<Fcb>, states: seq<FcbState>, k: nat)
    requires q.lag >= 1 && |fcbs| >= 1 && AllBacked(q, sgntrs, fcbs, states, k)
    ensures var f := fcbs[0];
            f.stateIdx < |states| && Backed(q, sgntrs, f, states[f.stateIdx]) && f.nPulses == k
            && var ps := Choice(f, states[f.stateIdx]);
               Choices(fcbs, states)[0] == ps && |ps| == k + 1 && Inside(q, ps) && Score(q, ps) == f.wnrg
  {
    hide Backed, Choice, Score, Inside;
    var f := fcbs[0];
    assert BackedIn(q, sgntrs, f, states, k);
    ChoiceScore(q, sgntrs, f, states[f.stateIdx]);
    ChoiceInside(q, sgntrs, f, states[f.stateIdx]);
  }

  lemma {:induction false} CourseStart(q: Problem, sgntrs: seq<u64>, surv: seq<nat>, rounds: nat, fcbs: seq<Fcb>,
                                       s: FcbState)
    requires q.lag >= 1 && q.n >= 1 && |surv| >= 1 && |surv| >= rounds - 1 && rounds >= 1 && surv[0] >= 1
    requires AllBacked(q, sgntrs, fcbs, [s], 0) && FirstBeam(q, Choices(fcbs, [s]), surv[0])
    ensures |fcbs| >= 1 && Course(q, sgntrs, surv, rounds, fcbs, [s], [Choices(fcbs, [s])], [Choices(fcbs, [s])[0]])
  {
    hide Backed, Choice, Score, TopK, Merits, Leads, Led;
    var beam := Choices(fcbs, [s]);
    var picks :| FirstPicks(q, picks, beam, surv[0]);
    LeadParts(q, sgntrs, fcbs, [s], 0);
    TopKFirst(Merits(q, []), picks, surv[0]);
    ContinuedScore(q, [], picks[0]);
    assert [] + [picks[0]] == beam[0];
    BestSingle(q, picks[0]);
    BeamedMore(q, sgntrs, surv, rounds, [], beam);
    assert [] + [beam] == [beam] && [] + [beam[0]] == [beam[0]];
    assert Led(q, []) by {
      NoneLed(q);
    }
    LedMore(q, [], beam[0]);
  }

  lemma {:induction false} NoneLed(q: Problem)
    requires q.lag >= 1
    ensures Led(q, [])
  {
  }

  lemma {:induction false} BestSingle(q: Problem, p: nat)
    requires q.lag >= 1 && p < q.n && forall n :: 0 <= n < q.n ==> Merits(q, [])[n] <= Merits(q, [])[p]
    ensures Leads(q, [], Merit(q, [], p))
  {
    hide Merit;
    forall i | 0 <= i < q.n ensures Merit(q, [], i) <= Merit(q, [], p) {
      assert Merits(q, [])[i] <= Merits(q, [])[p];
    }
  }

  /** A round's offers and the picks among them are one step of the beam. */
  lemma {:induction false} StepMade(q: Problem, sgntrs: seq<u64>, beam: seq<seq<int>>, tops: seq<seq<nat>>,
                                    picks: seq<nat>, next: seq<seq<int>>, w: nat)
    requires q.lag >= 1 && Tops(q, beam, tops, w) && Picked(q, Kept(sgntrs, Offers(beam, tops, |beam|)), picks, next, w)
    ensures Step(q, sgntrs, beam, next, w)
  {
    hide Picked, Tops, Kept, Offers;
    assert StepBy(q, sgntrs, beam, tops, picks, next, w);
  }

  lemma {:induction false} CourseNext(q: Problem, sgntrs: seq<u64>, surv: seq<nat>, rounds: nat, fcbs: seq<Fcb>,
                                      states: seq<FcbState>, beams: seq<seq<seq<int>>>, leaders: seq<seq<int>>,
                                      fcbs': seq<Fcb>, next: seq<FcbState>)
    requires q.lag >= 1 && q.n >= 1 && |surv| >= 1 && |surv| >= rounds - 1 && |leaders| < rounds && |fcbs'| >= 1
    requires Course(q, sgntrs, surv, rounds, fcbs, states, beams, leaders)
    requires AllBacked(q, sgntrs, fcbs', next, |leaders|)
    requires Step(q, sgntrs, Choices(fcbs, states), Choices(fcbs', next), Width(surv, rounds, |leaders|))
    requires Width(surv, rounds, |leaders|) >= 1
    ensures var beam := Choices(fcbs', next);
            Course(q, sgntrs, surv, rounds, fcbs', next, beams + [beam], leaders + [beam[0]])
  {
    hide Backed, Choice, Score, TopK, Merits, Leads, Led, Step, Width, Beamed;
    var beam := Choices(fcbs', next);
    LeaderLeads(q, sgntrs, beams[|beams| - 1], beam, Width(surv, rounds, |leaders|));
    LeadParts(q, sgntrs, fcbs', next, |leaders|);
    BeamedMore(q, sgntrs, surv, rounds, beams, beam);
    LedMore(q, leaders, beam[0]);
  }

  /** The best candidate alone is the last beam. */
  lemma {:induction false} LeadPicked(q: Problem, sgntrs: seq<u64>, cands: seq<Fcb>, states: seq<FcbState>, k: nat,
                                      best: nat)
    requires q.lag >= 1 && AllBacked(q, sgntrs, cands, states, k) && best < |cands|
    requires forall i :: 0 <= i < |cands| ==> cands[i].wnrg <= cands[best].wnrg
    ensures AllBacked(q, sgntrs, [cands[best]], states, k)
    ensures Picked(q, Choices(cands, states), [best], Choices([cands[best]], states), 1)
  {
    hide Backed, Choice, ScoresOf;
    var x := seq(|cands|, i requires 0 <= i < |cands| => cands[i].wnrg);
    WnrgsAreScores(q, sgntrs, cands, states, k, x);
    assert BackedIn(q, sgntrs, cands[best], states, k);
    var picks: seq<nat> := [best];
    assert forall n: nat :: n < |x| ==> x[n] <= x[picks[0]];
    assert TopK(x, picks, 1);
  }

  /** The course after one more round. */
  lemma {:induction false} RoundDone(q: Problem, sgntrs: seq<u64>, surv: seq<nat>, rounds: nat, fcbs: seq<Fcb>,
                                     states: seq<FcbState>, beams: seq<seq<seq<int>>>, leaders: seq<seq<int>>,
                                     cands: seq<Fcb>, next: seq<FcbState>, tops: seq<seq<nat>>, picks: seq<nat>,
                                     fcbs': seq<Fcb>) returns (beams': seq<seq<seq<int>>>)
    requires q.lag >= 1 && q.n >= 1 && |surv| >= 1 && |surv| >= rounds - 1 && |leaders| < rounds
    requires Course(q, sgntrs, surv, rounds, fcbs, states, beams, leaders) && Width(surv, rounds, |leaders|) >= 1
    requires AllBacked(q, sgntrs, cands, next, |leaders|) && AllBacked(q, sgntrs, fcbs', next, |leaders|)
    requires Tops(q, Choices(fcbs, states), tops, Width(surv, rounds, |leaders|))
    requires Choices(cands, next) == Kept(sgntrs, Offers(Choices(fcbs, states), tops, |fcbs|))
    requires Picked(q, Choices(cands, next), picks, Choices(fcbs', next), Width(surv, rounds, |leaders|))
    ensures |fcbs'| >= 1 && beams' == beams + [Choices(fcbs', next)] && |beams| == |leaders|
    ensures Course(q, sgntrs, surv, rounds, fcbs', next, beams', leaders + [beams'[|leaders|][0]])
  {
    hide Tops, Kept, Offers, Width, Beamed, Led, Step, Backed;
    var w := Width(surv, rounds, |leaders|);
    StepMade(q, sgntrs, Choices(fcbs, states), tops, picks, Choices(fcbs', next), w);
    PickedSize(q, Choices(cands, next), picks, Choices(fcbs', next), w);
    CourseNext(q, sgntrs, surv, rounds, fcbs, states, beams, leaders, fcbs', next);
    beams' := beams + [Choices(fcbs', next)];
  }

  lemma {:induction false} PickedSize(q: Problem, cands: seq<seq<int>>, picks: seq<nat>, next: seq<seq<int>>, w: nat)
    requires q.lag >= 1 && Picked(q, cands, picks, next, w)
    ensures |next| == w
  {
  }

  /** smplFcbSearchDeldec. Each beam follows from the one before it, as wide as its survivor count
      says; the best of each is at least as good as the best continuation of the best before it; each
      rate sends the leader that last passed its threshold, or nothing; and the numbers reported are
      the correlation and energy, computed from scratch, of the sharpened trains that the sent codes
      stand for. */
  method FcbSearchDeldec(n: nat, phi: seq<real>, d: seq<real>, flip: seq<real>, ghost h: seq<real>, sharp: real,
                         lag: int, perMain: real, perFec: real, maxMain: int, maxFec: int, surv: seq<nat>,
                         sgntrs: seq<u64>)
    returns (mainCodes: seq<int>, main: Report, fecCodes: seq<int>, fec: Report, ghost beams: seq<seq<seq<int>>>,
             ghost leaders: seq<seq<int>>)
    requires n >= 1 && Searchable(Effective(n, phi, d, sharp, lag), h) && FlipOf(Effective(n, phi, d, sharp, lag), flip)
    requires |sgntrs| >= n && |surv| >= 1 && |surv| >= maxMain - 1 && forall i :: 0 <= i < |surv| ==> surv[i] >= 1
    ensures Reported(Effective(n, phi, d, sharp, lag), mainCodes, main)
    ensures Reported(Effective(n, phi, d, sharp, lag), fecCodes, fec)
    ensures var q, rounds := Effective(n, phi, d, sharp, lag), if maxMain > 1 then maxMain else 1;
            && |leaders| == |beams| == rounds && Beamed(q, sgntrs, surv, rounds, beams) && HeadsOf(beams, leaders)
            && Led(q, leaders) && (forall j :: 0 <= j < |leaders| ==> leaders[j] != [])
            && Sent(q, leaders, MainRank(q, leaders, perMain, rounds), mainCodes, main)
            && Sent(q, leaders, FecRank(q, leaders, perFec, maxFec, rounds, rounds), fecCodes, fec)
    ensures fec.n <= Max(maxFec, 0)
  {
    hide Ratio, SignOf, AbsOf, Num, Den, Autocorrelation, FlipOf, SignsOf, StateOk, Backed, Reported;
    hide Led, Ranked, Better, Choice, MainRank, FecRank, Beamed, FirstBeam, Course, Inside, Signature;
    var q := Effective(n, phi, d, sharp, lag);
    var flat := !(sharp != 0.0 && lag > 0 && lag < n);
    ghost var rounds: nat := if maxMain > 1 then maxMain else 1;
    var dAbs, dSign := SharpSigns(q);
    SignsAt(q, dAbs, dSign);
    var s := StartState(q, flip, dAbs, dSign[..], flat);
    var fcbs := FirstSurvivors(q, h, dSign, s, flat, sgntrs, surv[0]);
    var states := [s];
    CourseStart(q, sgntrs, surv, rounds, fcbs, s);
    beams, leaders := [Choices(fcbs, states)], [];
    var bestMain, bestFec := Best(NO_FCB, s, 0.0), Best(NO_FCB, s, 0.0);
    FirstRanked(q, sgntrs, s, perMain, perFec, maxFec, rounds);
    LeadParts(q, sgntrs, fcbs, states, 0);
    RankedMore(q, sgntrs, leaders, bestMain, bestFec, perMain, perFec, maxFec, rounds, fcbs[0], s);
    leaders := leaders + [beams[0][0]];
    assert leaders == [beams[0][0]];
    bestMain := Better(bestMain, fcbs[0], states[fcbs[0].stateIdx], perMain);
    if maxFec > 0 {
      bestFec := Better(bestFec, fcbs[0], states[fcbs[0].stateIdx], perFec);
    }
    CourseParts(q, sgntrs, surv, rounds, fcbs, states, beams, leaders);
    if maxMain > 1 {
      for pulseNr := 2 to maxMain
        invariant |leaders| == pulseNr - 1 && Course(q, sgntrs, surv, rounds, fcbs, states, beams, leaders)
        invariant Ranked(q, sgntrs, leaders, bestMain, bestFec, perMain, perFec, maxFec, rounds)
        invariant SignsOf(q, dAbs[..], dSign[..])
      {
        CourseParts(q, sgntrs, surv, rounds, fcbs, states, beams, leaders);
        ghost var before, stored := fcbs, states;
        var cands;
        ghost var tops, picks;
        cands, states, tops := Round(q, flip, h, dAbs, dSign, flat, sgntrs, fcbs, states, surv[pulseNr - 1],
                                     pulseNr - 2);
        fcbs, picks := Survivors(q, sgntrs, cands, states, surv[pulseNr - 1], pulseNr - 1);
        beams := RoundDone(q, sgntrs, surv, rounds, before, stored, beams, leaders, cands, states, tops, picks, fcbs);
        LeadParts(q, sgntrs, fcbs, states, |leaders|);
        RankedMore(q, sgntrs, leaders, bestMain, bestFec, perMain, perFec, maxFec, rounds, fcbs[0],
                   states[fcbs[0].stateIdx]);
        leaders := leaders + [beams[|leaders|][0]];
        bestMain := Better(bestMain, fcbs[0], states[fcbs[0].stateIdx], perMain);
        if maxFec >= pulseNr {
          bestFec := Better(bestFec, fcbs[0], states[fcbs[0].stateIdx], perFec);
        }
      }
      CourseParts(q, sgntrs, surv, rounds, fcbs, states, beams, leaders);
      ghost var stored := states;
      var cands;
      ghost var tops;
      cands, states, tops := Round(q, flip, h, dAbs, dSign, flat, sgntrs, fcbs, states, 1, maxMain - 2);
      var bestIdx := BestCandidate(cands);
      var lead := cands[bestIdx];
      LeadPicked(q, sgntrs, cands, states, maxMain - 1, bestIdx);
      beams := RoundDone(q, sgntrs, surv, rounds, fcbs, stored, beams, leaders, cands, states, tops, [bestIdx], [lead]);
      LeadParts(q, sgntrs, [lead], states, |leaders|);
      RankedMore(q, sgntrs, leaders, bestMain, bestFec, perMain, perFec, maxFec, rounds, lead, states[lead.stateIdx]);
      leaders := leaders + [beams[|leaders|][0]];
      bestMain := Better(bestMain, lead, states[lead.stateIdx], perMain);
      CourseParts(q, sgntrs, surv, rounds, [lead], states, beams, leaders);
    }
    mainCodes, main, fecCodes, fec :=
      DeliverBoth(q, sgntrs, bestMain, bestFec, leaders, perMain, perFec, maxFec, rounds);
  }


  /** Codes and report are those of the leader a rate's standing names. */
  ghost predicate Sent(q: Problem, leaders: seq<seq<int>>, st: Standing, codes: seq<int>, r: Report)
    requires q.lag >= 1
  {
    && Reported(q, codes, r) && r.n == (if st.won > 0.0 then st.n else 0) && r.n <= |leaders|
    && (r.n > 0 ==> CodesOf(q, leaders[r.n - 1], codes) && r.wnrg == st.won)
  }

  method DeliverBoth(q: Problem, ghost sgntrs: seq<u64>, bestMain: Best, bestFec: Best, ghost leaders: seq<seq<int>>,
                     ghost perMain: real, ghost perFec: real, ghost maxFec: int, ghost rounds: nat)
    returns (mainCodes: seq<int>, main: Report, fecCodes: seq<int>, fec: Report)
    requires q.lag >= 1 && Ranked(q, sgntrs, leaders, bestMain, bestFec, perMain, perFec, maxFec, rounds)
    ensures (forall j :: 0 <= j < |leaders| ==> leaders[j] != [])
    ensures Sent(q, leaders, MainRank(q, leaders, perMain, |leaders|), mainCodes, main)
    ensures Sent(q, leaders, FecRank(q, leaders, perFec, maxFec, rounds, |leaders|), fecCodes, fec)
    ensures fec.n <= Max(maxFec, 0)
  {
    hide Reported, MainRank, FecRank, Backed, Score;
    mainCodes, main := Deliver(q, sgntrs, bestMain, leaders, MainRank(q, leaders, perMain, |leaders|));
    fecCodes, fec := Deliver(q, sgntrs, bestFec, leaders, FecRank(q, leaders, perFec, maxFec, rounds, |leaders|));
    FecWithin(q, leaders, perFec, maxFec, rounds, |leaders|);
  }

  method BestCandidate(cands: seq<Fcb>) returns (bestIdx: nat)
    requires |cands| >= 1
    ensures bestIdx < |cands| && forall k :: 0 <= k < |cands| ==> cands[k].wnrg <= cands[bestIdx].wnrg
  {
    bestIdx := 0;
    var maxWnrg := cands[0].wnrg;
    for i := 1 to |cands|
      invariant bestIdx < i && maxWnrg == cands[bestIdx].wnrg && forall k :: 0 <= k < i ==> cands[k].wnrg <= maxWnrg
    {
      if cands[i].wnrg > maxWnrg {
        maxWnrg, bestIdx := cands[i].wnrg, i;
      }
    }
  }
}
