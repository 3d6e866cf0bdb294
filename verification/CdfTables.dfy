/** Integer CDF builders of the MLow tables: celpDcmfToCmf (celp_enc.go), lsfDcmfToCmf
(lsf_seed.go) and pdfToCmf, cdfWindow (cc_tables.go).

The three builders normalise weights w[i] by truncating division,
cmf[i+1] = cmf[i] + w[i] * (32767 - n) / sum + 1. `Cumulative` states that as a
function of the weights; the narrow integer types of the local variables make every
16-bit and 32-bit step of the loops an overflow proof. */
module CdfTables {
  import opened Words
  import opened Helpers
  import opened CodingInterval

  const MAX_VAL := 32767

  type i32 = x: int | -0x8000_0000 <= x < 0x8000_0000
  type i64 = x: int | -0x8000_0000_0000_0000 <= x < 0x8000_0000_0000_0000

  ghost function Sum(w: seq<nat>): nat {
    if w == [] then 0 else Sum(w[..|w| - 1]) + w[|w| - 1]
  }

  lemma {:induction false} SumPrefix(w: seq<nat>, i: nat)
    requires i < |w|
    ensures Sum(w[..i + 1]) == Sum(w[..i]) + w[i]
  {
    assert w[..i + 1][..i] == w[..i];
  }

  lemma {:induction false} SumMonotone(w: seq<nat>, i: nat)
    requires i <= |w|
    ensures Sum(w[..i]) <= Sum(w)
    decreases |w| - i
  {
    if i < |w| {
      SumPrefix(w, i);
      SumMonotone(w, i + 1);
    } else {
      assert w[..i] == w;
    }
  }

  lemma {:induction false} SumBound(w: seq<nat>, i: nat, m: nat)
    requires i <= |w| && forall k :: 0 <= k < |w| ==> w[k] <= m
    ensures Sum(w[..i]) <= i * m
  {
    if i > 0 {
      SumPrefix(w, i - 1);
      SumBound(w, i - 1, m);
      assert i * m == (i - 1) * m + m;
    }
  }

  /** The share of one weight out of the room that is left after one slot per symbol. */
  function Share(w: nat, room: nat, sum: nat): (r: nat)
    requires sum > 0
    ensures r >= 1 && (r - 1) * sum <= w * room < r * sum
  {
    DivNat(w * room, sum);
    w * room / sum + 1
  }

  lemma {:induction false} DivNat(a: nat, b: nat)
    requires b > 0
    ensures a / b >= 0 && a / b * b <= a < (a / b + 1) * b
  {
    var q, r := a / b, a % b;
    assert a == q * b + r && (q + 1) * b == q * b + b;
  }

  /** The first n + 1 entries: start at zero, add the share of each weight. */
  ghost function Table(w: seq<nat>, n: nat): (t: seq<nat>)
    requires n <= |w| <= MAX_VAL && Sum(w) > 0
    ensures |t| == n + 1
  {
    if n == 0 then [0]
    else var t := Table(w, n - 1); t + [t[n - 1] + Share(w[n - 1], MAX_VAL - |w|, Sum(w))]
  }

  ghost function Cumulative(w: seq<nat>, n: nat): nat
    requires n <= |w| <= MAX_VAL && Sum(w) > 0
  {
    Table(w, n)[n]
  }

  lemma {:induction false} ShareAdds(c: nat, x: nat, room: nat, sum: nat, before: nat)
    requires sum > 0 && c * sum <= before * room
    ensures (c + Share(x, room, sum) - 1) * sum <= (before + x) * room
  {
    var r := Share(x, room, sum) - 1;
    assert (c + r) * sum == c * sum + r * sum;
    assert (before + x) * room == before * room + x * room;
  }

  lemma {:induction false} BoundedBy(c: nat, room: nat, sum: nat, part: nat)
    requires sum > 0 && part <= sum && c * sum <= part * room
    ensures c <= room
  {
    MulMono(part, sum, room);
    if c > room {
      MulMono(room + 1, c, sum);
    }
  }

  /** Truncation only loses: i entries take at most their exact share plus i. */
  lemma {:induction false} CumulativeBound(w: seq<nat>, i: nat)
    requires i <= |w| <= MAX_VAL && Sum(w) > 0
    ensures i <= Cumulative(w, i)
    ensures (Cumulative(w, i) - i) * Sum(w) <= Sum(w[..i]) * (MAX_VAL - |w|)
  {
    if i > 0 {
      CumulativeBound(w, i - 1);
      SumPrefix(w, i - 1);
      ShareAdds(Cumulative(w, i - 1) - (i - 1), w[i - 1], MAX_VAL - |w|, Sum(w), Sum(w[..i - 1]));
    }
  }

  /** And the slot per symbol makes up for it: i entries take more than their exact share. */
  lemma {:induction false} CumulativeAbove(w: seq<nat>, i: nat)
    requires i <= |w| <= MAX_VAL && Sum(w) > 0
    ensures Cumulative(w, i) * Sum(w) >= Sum(w[..i]) * (MAX_VAL - |w|)
    ensures i > 0 ==> Cumulative(w, i) * Sum(w) > Sum(w[..i]) * (MAX_VAL - |w|)
  {
    hide Share, Table, Cumulative;
    if i > 0 {
      CumulativeAbove(w, i - 1);
      CumulativeStep(w, i);
      SumPrefix(w, i - 1);
      SharesAdd(Cumulative(w, i - 1), w[i - 1], MAX_VAL - |w|, Sum(w), Sum(w[..i - 1]));
    } else {
      assert w[..0] == [];
    }
  }

  lemma {:induction false} SharesAdd(c: nat, x: nat, room: nat, sum: nat, before: nat)
    requires sum > 0 && c * sum >= before * room
    ensures (c + Share(x, room, sum)) * sum > (before + x) * room
  {
    hide Share;
    var r := Share(x, room, sum);
    assert (c + r) * sum == c * sum + r * sum;
    assert (before + x) * room == before * room + x * room;
  }

  /** The table fills the 15-bit range but for less than one slot per symbol. */
  lemma {:induction false} CmfFills(w: seq<nat>)
    requires 0 < |w| <= 32767 && Sum(w) > 0
    ensures 32767 - |w| < Table(w, |w|)[|w|] <= 32767
  {
    hide Table, Share;
    CumulativeAbove(w, |w|);
    CumulativeAtMost(w, |w|);
    assert w[..|w|] == w;
    MoreThan(Cumulative(w, |w|), MAX_VAL - |w|, Sum(w));
  }

  lemma {:induction false} MoreThan(c: nat, room: nat, sum: nat)
    requires sum > 0 && c * sum > sum * room
    ensures c > room
  {
    if c <= room {
      MulMono(c, room, sum);
    }
  }

  lemma {:induction false} CumulativeAtMost(w: seq<nat>, i: nat)
    requires i <= |w| <= MAX_VAL && Sum(w) > 0
    ensures Cumulative(w, i) <= MAX_VAL - (|w| - i)
  {
    CumulativeBound(w, i);
    SumMonotone(w, i);
    BoundedBy(Cumulative(w, i) - i, MAX_VAL - |w|, Sum(w), Sum(w[..i]));
  }

  /** One iteration of an accumulating loop, with the 16-bit bound it needs. */
  lemma {:induction false} NextEntry(w: seq<nat>, n: nat, scaled: int)
    requires 1 <= n <= |w| <= MAX_VAL && Sum(w) > 0
    requires scaled == w[n - 1] * (MAX_VAL - |w|)
    ensures 0 <= scaled && 0 <= scaled / Sum(w)
    ensures scaled / Sum(w) + 1 == Share(w[n - 1], MAX_VAL - |w|, Sum(w))
    ensures Cumulative(w, n - 1) + (scaled / Sum(w) + 1) == Cumulative(w, n) <= MAX_VAL
  {
    hide Sum, Table, Cumulative;
    CumulativeStep(w, n);
    CumulativeAtMost(w, n);
  }

  lemma {:induction false} CumulativeStep(w: seq<nat>, n: nat)
    requires 1 <= n <= |w| <= MAX_VAL && Sum(w) > 0
    ensures Cumulative(w, n) == Cumulative(w, n - 1) + Share(w[n - 1], MAX_VAL - |w|, Sum(w))
  {
    hide Sum, Share;
  }

  lemma {:induction false} CumulativeIncreases(w: seq<nat>, i: nat, j: nat)
    requires i < j <= |w| <= MAX_VAL && Sum(w) > 0
    ensures Cumulative(w, i) < Cumulative(w, j)
  {
    if i < j - 1 {
      CumulativeIncreases(w, i, j - 1);
    }
  }

  ghost predicate IsCmf(w: seq<nat>, cmf: seq<u16>)
    requires 0 < |w| <= MAX_VAL && Sum(w) > 0
  {
    cmf == Table(w, |w|)
  }

  lemma {:induction false} TableEntry(w: seq<nat>, n: nat, i: nat)
    requires i <= n <= |w| <= MAX_VAL && Sum(w) > 0
    ensures Table(w, n)[i] == Cumulative(w, i)
  {
    if i < n {
      TableEntry(w, n - 1, i);
    }
  }

  /** What every consumer needs of a built table. */
  lemma {:induction false} CmfShape(w: seq<nat>, cmf: seq<u16>)
    requires 0 < |w| <= MAX_VAL && Sum(w) > 0 && IsCmf(w, cmf)
    ensures cmf[0] == 0 && Increasing(cmf) && cmf[|w|] <= 32767
  {
    forall i, j | 0 <= i < j < |cmf| ensures cmf[i] < cmf[j] {
      CumulativeIncreases(w, i, j);
      TableEntry(w, |w|, i);
      TableEntry(w, |w|, j);
    }
    ClimbsPairwise(cmf);
    CumulativeAtMost(w, |w|);
    TableEntry(w, |w|, 0);
  }

  // ------------------------------------------------------------ delta tables

  function Weight(d: byte): (w: nat)
    ensures 1 <= w <= 65535
  {
    var t := (d + 1) * (d + 1);
    SquareBound(d + 1);
    if t > 65535 then 65535 else t
  }

  /** The square of the delta plus one, in 16 bits. */
  lemma {:induction false} WeightIsSquare(d: byte)
    ensures Weight(d) == if d == 255 then 65535 else (d + 1) * (d + 1)
  {
    if d < 255 {
      MulMono(d + 1, 255, d + 1);
      MulMono(d + 1, 255, 255);
    }
  }

  ghost function Weights(dcmf: seq<byte>): (w: seq<nat>)
    ensures |w| == |dcmf| && forall i :: 0 <= i < |w| ==> w[i] == Weight(dcmf[i])
  {
    seq(|dcmf|, i requires 0 <= i < |dcmf| => Weight(dcmf[i]))
  }

  lemma {:induction false} WeightsSum(dcmf: seq<byte>)
    requires dcmf != []
    ensures Sum(Weights(dcmf)) > 0
  {
    var w := Weights(dcmf);
    SumPrefix(w, 0);
    SumMonotone(w, 1);
  }

  /** First loop of both delta builders: squared weights into cmf[1..], and their sum. */
  method SquareWeights(dcmf: seq<byte>, cmf: array<u16>) returns (sum: i32)
    requires 0 < |dcmf| <= MAX_VAL && cmf.Length == |dcmf| + 1
    modifies cmf
    ensures sum == Sum(Weights(dcmf)) && sum > 0
    ensures forall i :: 0 <= i < |dcmf| ==> cmf[i + 1] == Weight(dcmf[i])
  {
    ghost var w := Weights(dcmf);
    sum := 0;
    for n := 0 to |dcmf|
      invariant sum == Sum(w[..n]) && 0 <= sum <= n * 65535
      invariant forall i :: 0 <= i < n ==> cmf[i + 1] == Weight(dcmf[i])
    {
      var tmp: i32 := dcmf[n] as int + 1;
      SquareBound(tmp);
      tmp := tmp * tmp;
      if tmp > 65535 {
        tmp := 65535;
      }
      cmf[n + 1] := tmp;
      SumPrefix(w, n);
      sum := sum + tmp;
    }
    assert w[..|dcmf|] == w;
    WeightsSum(dcmf);
  }

  lemma {:induction false} TableStart(w: seq<nat>)
    requires |w| <= MAX_VAL && Sum(w) > 0
    ensures Table(w, 0) == [0]
  {
  }

  lemma {:induction false} TableGrows(w: seq<nat>, n: nat)
    requires 1 <= n <= |w| <= MAX_VAL && Sum(w) > 0
    ensures Table(w, n) == Table(w, n - 1) + [Cumulative(w, n)]
    ensures Table(w, n - 1)[n - 1] == Cumulative(w, n - 1)
  {
  }

  /** One expanded entry, in 32-bit steps. */
  method Next32(prev: u16, x: u16, len: nat, sum: i32, ghost w: seq<nat>, ghost n: nat) returns (v: u16)
    requires 1 <= n <= |w| == len <= MAX_VAL && sum == Sum(w) && sum > 0 && x == w[n - 1]
    requires prev == Table(w, n - 1)[n - 1]
    ensures v == Cumulative(w, n)
  {
    hide Sum, Share, Table;
    TableGrows(w, n);
    ProductFits(x, len);
    var scaled: i32 := x * (MAX_VAL - len);
    NextEntry(w, n, scaled);
    var share: u16 := scaled / sum;
    v := prev + share + 1;
  }

  /** One expanded entry, in 64-bit steps. */
  method Next64(prev: u16, x: nat, len: nat, sum: i64, ghost w: seq<nat>, ghost n: nat) returns (v: u16)
    requires 1 <= n <= |w| == len <= MAX_VAL && sum == Sum(w) && sum > 0 && x == w[n - 1] < 0x8000_0000
    requires prev == Table(w, n - 1)[n - 1]
    ensures v == Cumulative(w, n)
  {
    hide Sum, Share, Table;
    TableGrows(w, n);
    MulMono(MAX_VAL - len, 32767, x);
    var scaled: i64 := x * (MAX_VAL - len);
    NextEntry(w, n, scaled);
    var add: i64 := scaled / sum + 1;
    v := prev + add;
  }

  /** celpDcmfToCmf: 32-bit intermediates, expanded in place. */
  method CelpDcmfToCmf(dcmf: seq<byte>, cmf: array<u16>)
    requires 0 < |dcmf| <= MAX_VAL && cmf.Length == |dcmf| + 1
    modifies cmf
    ensures Sum(Weights(dcmf)) > 0 && IsCmf(Weights(dcmf), cmf[..])
  {
    hide Sum, Share, Weight, Cumulative, Table;
    ghost var w := Weights(dcmf);
    WeightsSum(dcmf);
    TableStart(w);
    var len := |dcmf|;
    var sum := SquareWeights(dcmf, cmf);
    cmf[0] := 0;
    for n := 1 to len + 1
      invariant cmf[..n] == Table(w, n - 1)
      invariant forall i :: n <= i <= len ==> cmf[i] == w[i - 1]
    {
      assert cmf[n - 1] == cmf[..n][n - 1];
      cmf[n] := Next32(cmf[n - 1], cmf[n], len, sum, w, n);
      TableGrows(w, n);
      assert cmf[..n + 1] == Table(w, n - 1) + [cmf[n]];
    }
    assert cmf[..] == cmf[..len + 1];
  }

  /** lsfDcmfToCmf: 64-bit intermediates, a fresh table. */
  method LsfDcmfToCmf(dcmf: seq<byte>) returns (cmf: array<u16>)
    requires 0 < |dcmf| <= MAX_VAL
    ensures fresh(cmf) && Sum(Weights(dcmf)) > 0 && IsCmf(Weights(dcmf), cmf[..])
  {
    hide Sum, Share, Weight, Cumulative, Table;
    ghost var w := Weights(dcmf);
    WeightsSum(dcmf);
    TableStart(w);
    var n := |dcmf|;
    cmf := new u16[n + 1](_ => 0);
    var sum := SquareWeights(dcmf, cmf);
    cmf[0] := 0;
    for i := 1 to n + 1
      invariant cmf[..i] == Table(w, i - 1)
      invariant forall k :: i <= k <= n ==> cmf[k] == w[k - 1]
    {
      assert cmf[i - 1] == cmf[..i][i - 1];
      cmf[i] := Next64(cmf[i - 1], cmf[i], n, sum, w, i);
      TableGrows(w, i);
      assert cmf[..i + 1] == Table(w, i - 1) + [cmf[i]];
    }
    assert cmf[..] == cmf[..n + 1];
  }

  lemma {:induction false} SquareBound(t: int)
    requires 1 <= t <= 256
    ensures 1 <= t * t <= 65536
  {
    MulMono(t, 256, t);
  }

  lemma {:induction false} ProductFits(w: nat, len: nat)
    requires w <= 65535 && 0 < len <= MAX_VAL
    ensures 0 <= w * (MAX_VAL - len) <= 65535 * 32766
  {
    MulMono(MAX_VAL - len, 32766, w);
  }

  method SumPdf(pdf: seq<nat>) returns (sump: i64)
    requires |pdf| <= MAX_VAL && forall i :: 0 <= i < |pdf| ==> pdf[i] < 0x8000_0000
    ensures sump == Sum(pdf)
  {
    sump := 0;
    for i := 0 to |pdf|
      invariant sump == Sum(pdf[..i])
    {
      SumPrefix(pdf, i);
      SumBound(pdf, i + 1, 0x8000_0000);
      sump := sump + pdf[i];
    }
    assert pdf[..|pdf|] == pdf;
  }

  /** pdfToCmf over a non-negative table of int32 weights. */
  method PdfToCmf(pdf: seq<nat>) returns (cmf: array<u16>)
    requires 0 < |pdf| <= MAX_VAL && Sum(pdf) > 0
    requires forall i :: 0 <= i < |pdf| ==> pdf[i] < 0x8000_0000
    ensures fresh(cmf) && IsCmf(pdf, cmf[..])
  {
    hide Sum, Share, Cumulative, Table;
    TableStart(pdf);
    var n := |pdf|;
    var sump := SumPdf(pdf);
    cmf := new u16[n + 1](_ => 0);
    for i := 0 to n
      invariant cmf[..i + 1] == Table(pdf, i)
    {
      assert cmf[i] == cmf[..i + 1][i];
      cmf[i + 1] := Next64(cmf[i], pdf[i], n, sump, pdf, i + 1);
      TableGrows(pdf, i + 1);
      assert cmf[..i + 2] == Table(pdf, i) + [cmf[i + 1]];
    }
    assert cmf[..] == cmf[..n + 1];
  }

  /** cdfWindow reads zeros outside its table; inside it, a slice keeps the shape. */
  function CdfWindow(base: Cdf, start: int, n: nat): (w: Cdf)
    ensures |w| == n
    ensures forall i :: 0 <= i < n ==> w[i] == if 0 <= start + i < |base| then base[start + i] else 0
  {
    seq(n, i requires 0 <= i < n => if 0 <= start + i < |base| then base[start + i] else 0)
  }

  lemma {:induction false} WindowIncreasing(base: Cdf, start: int, n: nat)
    requires Increasing(base) && 0 <= start && 2 <= n && start + n <= |base|
    ensures CdfWindow(base, start, n) == base[start..start + n] && Increasing(CdfWindow(base, start, n))
  {
    assert CdfWindow(base, start, n) == base[start..start + n];
    ClimbsPairwise(base);
    ClimbsPairwise(CdfWindow(base, start, n));
  }
}
