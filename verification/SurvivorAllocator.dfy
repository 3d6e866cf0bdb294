/** smplDistributeFcbSurv: how many beam survivors each pulse gets
(internal/voip/codec/mlow/celp_enc.go, lines 1470-1498). */
module SurvivorAllocator {
  import opened Helpers

  const SRV_MAX := 4

  ghost function Sum(a: seq<int>, n: nat): int
    requires n <= |a|
  {
    if n == 0 then 0 else Sum(a, n - 1) + a[n - 1]
  }

  lemma {:induction false} SumOfEqual(a: seq<int>, n: nat, x: int)
    requires n <= |a| && forall i :: 0 <= i < n ==> a[i] == x
    ensures Sum(a, n) == n * x
  {
    if n > 0 {
      SumOfEqual(a, n - 1, x);
      assert n * x == (n - 1) * x + x;
    }
  }

  lemma {:induction false} SumSame(a: seq<int>, b: seq<int>, n: nat)
    requires n <= |a| && n <= |b| && forall i :: 0 <= i < n ==> a[i] == b[i]
    ensures Sum(a, n) == Sum(b, n)
  {
    if n > 0 {
      SumSame(a, b, n - 1);
    }
  }

  lemma {:induction false} SumOneMore(a: seq<int>, b: seq<int>, n: nat, k: nat)
    requires k < n <= |a| && n <= |b| && b[k] == a[k] + 1 && forall i :: 0 <= i < n && i != k ==> a[i] == b[i]
    ensures Sum(b, n) == Sum(a, n) + 1
  {
    if k == n - 1 {
      SumSame(a, b, n - 1);
    } else {
      SumOneMore(a, b, n - 1, k);
    }
  }

  /** Slots from 0 to n - 2 hold 1 + extra, those at ix + 1 or later one more; the last holds 1. */
  ghost predicate Filled(a: seq<int>, n: nat, extra: int, ix: int) {
    && 2 <= n <= |a| && a[n - 1] == 1
    && forall i :: 0 <= i < n - 1 ==> a[i] == 1 + extra + if i > ix then 1 else 0
  }

  /** How far an even share goes: slots times extra out of the spare, at most SRV_MAX - 1 each. */
  ghost predicate EvenShare(spare: nat, slots: nat, extra: nat) {
    && extra <= SRV_MAX - 1 && extra * slots <= spare
    && (extra < SRV_MAX - 1 ==> spare < extra * slots + slots)
  }

  lemma {:induction false} ShareFits(spare: nat, slots: nat, q: nat, r: nat)
    requires r < slots && spare == q * slots + r
    ensures EvenShare(spare, slots, if q < SRV_MAX - 1 then q else SRV_MAX - 1)
  {
    if q >= SRV_MAX - 1 {
      var more := q - (SRV_MAX - 1);
      assert (SRV_MAX - 1 + more) * slots == (SRV_MAX - 1) * slots + more * slots;
    }
  }

  function Whole(a: nat, m: nat): nat
    requires m >= 1
  {
    a / m
  }

  /** Division towards zero. */
  function Divided(a: int, m: nat): int
    requires m >= 1
  {
    if a >= 0 then Whole(a, m) else 0 - Whole(-a, m)
  }

  lemma {:induction false} WholeFits(x: nat, m: nat)
    requires m >= 1
    ensures var q := Whole(x, m);
            x - m < q * m <= x && (q == 0 <==> x < m)
  {
    var q := x / m;
    assert q * m + x % m == x;
    if q >= 1 {
      MulMono(1, q, m);
    }
  }

  lemma {:induction false} Negated(q: nat, m: nat)
    ensures (0 - q) * m == 0 - q * m
  {
  }

  lemma {:induction false} SpareDivided(spare: int, slots: nat)
    requires slots >= 1
    ensures var q := Divided(spare, slots);
            if spare >= 0 then q >= 0 && EvenShare(spare, slots, Min(q, SRV_MAX - 1))
            else q <= 0 && q * slots >= spare && (q == 0 <==> -spare < slots)
  {
    hide EvenShare, Whole;
    if spare >= 0 {
      var q := Whole(spare, slots);
      WholeFits(spare, slots);
      ShareFits(spare, slots, q, spare - q * slots);
    } else {
      WholeFits(-spare, slots);
      Negated(Whole(-spare, slots), slots);
    }
  }

  /** The even share of a spare that may be negative. */
  method Share(spare: int, slots: nat) returns (extra: int)
    requires slots >= 1
    ensures spare >= 0 ==> extra >= 0 && EvenShare(spare, slots, extra)
    ensures spare < 0 ==> extra <= 0 && extra * slots >= spare && (extra == 0 <==> -spare < slots)
  {
    hide EvenShare, Divided;
    extra := Divided(spare, slots);
    SpareDivided(spare, slots);
    if extra > SRV_MAX - 1 {
      extra := SRV_MAX - 1;
    }
  }

  method FillEven(numsurv: array<int>, n: nat, extra: int)
    requires 2 <= n <= numsurv.Length
    modifies numsurv
    ensures Filled(numsurv[..], n, extra, n - 2) && Sum(numsurv[..], n) == n + extra * (n - 1)
    ensures forall j :: n <= j < numsurv.Length ==> numsurv[j] == old(numsurv[j])
  {
    var slots := n - 1;
    for i := 0 to n
      invariant forall j :: 0 <= j < i ==> numsurv[j] == 1
      invariant forall j :: i <= j < numsurv.Length ==> numsurv[j] == old(numsurv[j])
    {
      numsurv[i] := 1;
    }
    for i := 0 to slots
      invariant forall j :: 0 <= j < slots ==> numsurv[j] == if j < i then 1 + extra else 1
      invariant numsurv[slots] == 1 && forall j :: n <= j < numsurv.Length ==> numsurv[j] == old(numsurv[j])
    {
      numsurv[i] := numsurv[i] + extra;
    }
    SumOfEqual(numsurv[..], slots, 1 + extra);
    Spread(slots, extra);
  }

  lemma {:induction false} Spread(slots: nat, extra: int)
    ensures slots * (1 + extra) == slots + extra * slots
  {
  }

  /** What the even share leaves over, one more per slot from the back. */
  method TopUp(numsurv: array<int>, n: nat, extra: nat, totSurv: nat)
    requires 2 <= n <= numsurv.Length && n <= totSurv && EvenShare(totSurv - n, n - 1, extra)
    requires Filled(numsurv[..], n, extra, n - 2) && Sum(numsurv[..], n) == n + extra * (n - 1)
    modifies numsurv
    ensures numsurv[n - 1] == 1 && forall i :: 0 <= i < n ==> 1 <= numsurv[i] <= SRV_MAX
    ensures Sum(numsurv[..], n) == if extra < SRV_MAX - 1 then totSurv else n + extra * (n - 1)
    ensures forall i, j :: 0 <= i <= j < n - 1 ==> numsurv[i] <= numsurv[j] <= numsurv[i] + 1
    ensures forall j :: n <= j < numsurv.Length ==> numsurv[j] == old(numsurv[j])
  {
    var slots := n - 1;
    var base := n + extra * slots;
    var sumSurv := base;
    var ix: int := slots - 1;
    while sumSurv < totSurv
      invariant 0 <= ix < slots && sumSurv <= totSurv && Sum(numsurv[..], n) == sumSurv
      invariant sumSurv == base + if extra < SRV_MAX - 1 then slots - 1 - ix else 0
      invariant Filled(numsurv[..], n, extra, if extra < SRV_MAX - 1 then ix else slots - 1)
      invariant forall j :: n <= j < numsurv.Length ==> numsurv[j] == old(numsurv[j])
      decreases ix
    {
      ghost var before := numsurv[..];
      assert before[ix] == numsurv[ix] == 1 + extra;
      if numsurv[ix] < SRV_MAX {
        numsurv[ix] := numsurv[ix] + 1;
        sumSurv := sumSurv + 1;
        SumOneMore(before, numsurv[..], n, ix);
      }
      ix := ix - 1;
      if ix < 0 {
        break;
      }
    }
    assert forall i :: 0 <= i < n ==> numsurv[..][i] == numsurv[i];
  }

  /** The survivors of all n pulses together. */
  function Budget(n: nat, totSurv: nat): int {
    if totSurv < n then n else if totSurv < 4 * (n - 1) + 1 then totSurv else 4 * (n - 1) + 1
  }

  /** Every pulse gets 1 to 4 survivors exactly when at least two are to be shared out; the budget is
      met as far as those bounds allow; the last pulse gets one, and of the others none gets fewer than one
      before it, nor two more. */
  method DistributeFcbSurv(numsurv: array<int>, maxPulses: int, totSurv: nat)
    requires 1 <= numsurv.Length && maxPulses <= numsurv.Length
    modifies numsurv
    ensures maxPulses <= 1 ==> numsurv[0] == 1 && forall i :: 1 <= i < numsurv.Length ==> numsurv[i] == old(numsurv[i])
    ensures maxPulses >= 2 ==> numsurv[maxPulses - 1] == 1
    ensures maxPulses >= 2 ==> forall i :: 0 <= i < maxPulses ==> numsurv[i] <= 4
    ensures maxPulses >= 2 ==> (totSurv >= 2 <==> forall i :: 0 <= i < maxPulses ==> 1 <= numsurv[i])
    ensures maxPulses >= 2 && totSurv >= 2 ==> Sum(numsurv[..], maxPulses) == Budget(maxPulses, totSurv)
    ensures forall i, j :: 0 <= i <= j < maxPulses - 1 ==> numsurv[i] <= numsurv[j] <= numsurv[i] + 1
    ensures maxPulses >= 2 ==> forall i :: maxPulses <= i < numsurv.Length ==> numsurv[i] == old(numsurv[i])
  {
    hide Sum, EvenShare;
    if maxPulses <= 1 {
      numsurv[0] := 1;
      return;
    }
    var extra := Share(totSurv - maxPulses, maxPulses - 1);
    FillEven(numsurv, maxPulses, extra);
    if totSurv >= maxPulses {
      TopUp(numsurv, maxPulses, extra, totSurv);
      Total(maxPulses, totSurv, extra);
    } else {
      assert numsurv[..][0] == 1 + extra;
    }
  }

  lemma {:induction false} Total(n: nat, totSurv: nat, extra: nat)
    requires 2 <= n <= totSurv && EvenShare(totSurv - n, n - 1, extra)
    ensures (if extra < SRV_MAX - 1 then totSurv else n + extra * (n - 1))
            == if totSurv < SRV_MAX * (n - 1) + 1 then totSurv else SRV_MAX * (n - 1) + 1
  {
    if extra < SRV_MAX - 1 {
      assert extra * (n - 1) + (n - 1) == (extra + 1) * (n - 1);
      assert (SRV_MAX - 1 - (extra + 1)) * (n - 1) >= 0;
    }
  }
}
