/**
 Products and quotients by name, so that proofs can treat them as opaque and use only
 the facts they need.
 */
module Arithmetic {
  function Min(a: int, b: int): int {
    if a <= b then a else b
  }

  function Magnitude(n: int): nat {
    if n < 0 then -n else n
  }

  function Signed(negative: bool, m: nat): int {
    if negative then 0 - (m as int) else m
  }

  function Times(a: nat, b: nat): nat {
    a * b
  }

  function Quot(n: nat, d: nat): nat
    requires d > 0
  {
    n / d
  }

  lemma QuotIff(n: nat, d: nat, k: nat)
    requires d > 0
    ensures k <= Quot(n, d) <==> Times(k, d) <= n
  {
    var q := n / d;
    assert q * d <= n < q * d + d;
    if k <= q {
      assert k * d <= q * d;
    } else {
      assert k * d >= (q + 1) * d;
    }
  }

  lemma QuotTimes(n: nat, d: nat)
    requires d > 0
    ensures Times(Quot(n, d), d) <= n < Times(Quot(n, d), d) + d && Quot(Times(n, d), d) == n
  {
    hide Quot, Times;
    QuotIff(n, d, Quot(n, d));
    QuotIff(n, d, Quot(n, d) + 1);
    TimesStep(Quot(n, d), d);
    QuotIff(Times(n, d), d, n);
    QuotIff(Times(n, d), d, n + 1);
    TimesStep(n, d);
  }

  lemma QuotQuot(n: nat, d: nat)
    requires d > 0
    ensures Quot(n, d) / 256 == Quot(n, 256 * d)
  {
    hide Quot, Times;
    var a, b := Quot(n, d) / 256, Quot(n, 256 * d);
    QuotIff(n, d, 256 * a);
    QuotIff(n, 256 * d, a);
    QuotIff(n, d, 256 * b);
    QuotIff(n, 256 * d, b);
    Times256(a, d);
    Times256(b, d);
  }

  lemma QuotByte(m: nat)
    ensures Quot(m, 256) == m / 256
  {
  }

  lemma Times256(a: nat, d: nat)
    ensures Times(256 * a, d) == Times(a, 256 * d) == 256 * Times(a, d)
  {
  }

  lemma TimesStep(a: nat, d: nat)
    ensures Times(a + 1, d) == Times(a, d) + d && Times(0, d) == 0 && Times(1, d) == d == Times(d, 1)
  {
  }

  lemma TimesGrows(a: nat, b: nat, c: nat, d: nat)
    requires a <= b && c <= d
    ensures Times(a, c) <= Times(b, d)
  {
    assert a * c <= b * c && b * c <= b * d;
  }

  lemma TimesTwo(a: nat, b: nat)
    ensures Times(2 * a, b) == 2 * Times(a, b)
  {
  }

  lemma QuotSmaller(n: nat, d: nat)
    requires n > 0 && d > 1
    ensures Quot(n, d) < n
  {
    hide Times, Quot;
    QuotIff(n, d, n);
    TimesGrows(n, n, 2, d);
    TimesDouble(n);
  }

  lemma TimesDouble(n: nat)
    ensures Times(n, 2) == 2 * n
  {
  }

  // Quotient and remainder are unique.
  lemma QuotIs(n: nat, d: nat, q: nat, r: nat)
    requires r < d && n == Times(q, d) + r
    ensures Quot(n, d) == q
  {
    hide Times, Quot;
    QuotIff(n, d, q);
    QuotIff(n, d, q + 1);
    TimesStep(q, d);
  }
}
