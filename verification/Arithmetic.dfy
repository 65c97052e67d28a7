/** Multiples and quotients, in the small steps the solver needs. */
module Arithmetic {
  lemma NextMultiple(k: nat, n: nat)
    ensures (k + 1) * n == k * n + n
  {
  }

  lemma {:induction false} Bigger(a: nat, b: nat, n: nat)
    requires a < b
    ensures a * n + n <= b * n
    decreases b
  {
    NextMultiple(b - 1, n);
    if a < b - 1 { Bigger(a, b - 1, n); }
  }

  lemma Quotient(total: nat, q: nat, n: nat, r: nat)
    requires r < n && total == q * n + r
    ensures total / n == q
  {
    var d := total / n;
    if d < q { Bigger(d, q, n); }
    if q < d { Bigger(q, d, n); }
  }

  lemma BelowQuotient(k: nat, n: nat, total: nat)
    requires n > 0 && k * n <= total
    ensures k <= total / n
  {
    if total / n < k { Bigger(total / n, k, n); }
  }

  function Pow2(n: nat): nat { if n == 0 then 1 else 2 * Pow2(n - 1) }

  /** `b`, doubled `n` times. */
  function Doubled(b: nat, n: nat): nat { if n == 0 then b else 2 * Doubled(b, n - 1) }

  lemma {:induction false} DoubledIsProduct(b: nat, n: nat)
    ensures Doubled(b, n) == b * Pow2(n) && Doubled(b, n) - b == b * (Pow2(n) - 1)
  {
    if n > 0 {
      DoubledIsProduct(b, n - 1);
      assert b * (2 * Pow2(n - 1)) == 2 * (b * Pow2(n - 1));
    }
    Less(b, Pow2(n));
  }

  lemma Less(b: nat, p: nat)
    ensures b * (p - 1) == b * p - b
  {
  }
}
