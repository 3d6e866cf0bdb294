/** Arithmetic and data shared by the modules. */
module Helpers {
  datatype Option<T> = None | Some(value: T)

  function Min(a: int, b: int): int { if a < b then a else b }
  function Max(a: int, b: int): int { if a < b then b else a }
  function Abs(x: int): nat { if x < 0 then -x else x }

  /** A larger factor gives a larger product. */
  lemma {:induction false} MulMono(a: int, b: int, c: nat)
    requires a <= b
    ensures c * a <= c * b && a * c <= b * c
  {
  }

  /** The next multiple of m is a whole m further on. */
  lemma {:induction false} Gap(a: nat, b: nat, m: nat)
    requires a < b
    ensures a * m + m <= b * m
  {
    MulMono(a + 1, b, m);
  }

  lemma {:induction false} Apart(d: nat, q: nat, m: nat, s: nat, r: nat)
    requires s < m && r < m && d * m + s == q * m + r
    ensures d == q
  {
    if d > q {
      Gap(q, d, m);
    }
    if d < q {
      Gap(d, q, m);
    }
  }

  /** Quotient and remainder are the only way to write x. */
  lemma {:induction false} Quotient(x: nat, m: nat, q: nat, r: nat)
    requires r < m && x == q * m + r
    ensures x / m == q && x % m == r
  {
    var d, s := x / m, x % m;
    assert x == d * m + s;
    Apart(d, q, m, s, r);
  }

  function Pow2(n: nat): (p: nat)
    ensures p >= 1
  {
    if n == 0 then 1 else 2 * Pow2(n - 1)
  }

  lemma {:induction false} Pow2Monotone(a: nat, b: nat)
    requires a <= b
    ensures Pow2(a) <= Pow2(b)
  {
    if a < b {
      Pow2Monotone(a, b - 1);
    }
  }

  lemma {:induction false} Pow2Product(a: nat, b: nat)
    ensures Pow2(a + b) == Pow2(a) * Pow2(b)
  {
    if b > 0 {
      Pow2Product(a, b - 1);
    }
  }
}
