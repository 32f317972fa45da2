/** Multiplication and division in the form the proofs of other modules follow. */
module Arithmetic {
  // Products and quotients by a variable, by repeated addition and subtraction;
  // IsProduct and IsDivision say that they are what they are called.

  function Times(q: nat, k: nat): nat {
    if q == 0 then 0 else k + Times(q - 1, k)
  }

  function Over(n: nat, k: nat): nat
    requires k > 0
  {
    if n < k then 0 else 1 + Over(n - k, k)
  }

  function Rest(n: nat, k: nat): (r: nat)
    requires k > 0
    ensures r < k
  {
    if n < k then n else Rest(n - k, k)
  }

  lemma {:induction false} IsProduct(q: nat, k: nat)
    ensures Times(q, k) == q * k
  {
    if q > 0 {
      IsProduct(q - 1, k);
    }
  }

  lemma {:induction false} OverRest(n: nat, k: nat)
    requires k > 0
    ensures n == Times(Over(n, k), k) + Rest(n, k)
  {
    if n >= k {
      OverRest(n - k, k);
    }
  }

  lemma {:induction false} OverIs(n: nat, q: nat, k: nat, r: nat)
    requires n == Times(q, k) + r && r < k
    ensures Over(n, k) == q && Rest(n, k) == r
  {
    if q > 0 {
      OverIs(n - k, q - 1, k, r);
    }
  }

  lemma IsDivision(n: nat, k: nat)
    requires k > 0
    ensures Over(n, k) == n / k && Rest(n, k) == n % k
  {
    IsProduct(n / k, k);
    OverIs(n, n / k, k, n % k);
  }

  lemma {:induction false} TimesLess(p: nat, q: nat, k: nat)
    requires p < q
    ensures Times(q, k) >= Times(p, k) + k
  {
    if q > p + 1 {
      TimesLess(p, q - 1, k);
    }
  }

  lemma {:induction false} TimesApart(a: nat, b: nat, k: nat)
    ensures Times(a + b, k) == Times(a, k) + Times(b, k)
  {
    if a > 0 {
      TimesApart(a - 1, b, k);
    }
  }
}
