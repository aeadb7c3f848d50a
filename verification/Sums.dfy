/** Products as repeated sums, so that proofs about them can stay linear. */
module Sums {

  // n copies of r added up: a product that proofs can treat as a sum.
  function Times(n: nat, r: real): real {
    if n == 0 then 0.0 else Times(n - 1, r) + r
  }

  lemma {:induction false} TimesIsProduct(n: nat, r: real)
    ensures Times(n, r) == n as real * r
  {
    if n == 0 {
    } else {
      TimesIsProduct(n - 1, r);
      OneMoreTime((n - 1) as real, r);
      assert n as real == (n - 1) as real + 1.0;
    }
  }

  lemma OneMoreTime(n: real, r: real)
    ensures n * r + r == (n + 1.0) * r
  {}

  lemma {:induction false} TimesMore(p: nat, q: nat, r: real)
    ensures Times(p + q, r) == Times(p, r) + Times(q, r)
  {
    if q > 0 {
      TimesMore(p, q - 1, r);
    }
  }

  lemma {:induction false} TimesSum(n: nat, r: real, s: real)
    ensures Times(n, r + s) == Times(n, r) + Times(n, s)
  {
    if n == 0 {
    } else {
      TimesSum(n - 1, r, s);
    }
  }

  // m added up n times.
  function Copies(n: nat, m: nat): nat {
    if n == 0 then 0 else Copies(n - 1, m) + m
  }

  lemma {:induction false} CopiesIsProduct(n: nat, m: nat)
    ensures Copies(n, m) == n * m
  {
    if n == 0 {
    } else {
      CopiesIsProduct(n - 1, m);
      OneMore(n - 1, m);
    }
  }

  lemma OneMore(n: nat, m: nat)
    ensures (n + 1) * m == n * m + m
  {}
}
