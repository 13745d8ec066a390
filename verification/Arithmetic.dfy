/**
 Division facts shared by the other modules.
 */
module Arithmetic {

  lemma MulAtLeast(x: int, n: nat)
    requires x >= 1
    ensures x * n >= n
  {
  }

  // Quotient and remainder are the only such pair.
  lemma DivUnique(a: nat, n: nat, q: nat, r: nat)
    requires r < n && a == q * n + r
    ensures a / n == q && a % n == r
  {
    var d := q - a / n;
    assert a == (a / n) * n + a % n;
    assert d * n == a % n - r by {
      assert d * n == q * n - (a / n) * n;
    }
    if d >= 1 {
      MulAtLeast(d, n);
    }
    if d <= -1 {
      MulAtLeast(-d, n);
    }
  }

  lemma ModSucc(a: nat, n: nat)
    requires n > 0
    ensures (a + 1) % n == (if a % n + 1 < n then a % n + 1 else 0)
  {
    var q, r := a / n, a % n;
    if r + 1 < n {
      DivUnique(a + 1, n, q, r + 1);
    } else {
      assert (q + 1) * n == q * n + n;
      DivUnique(a + 1, n, q + 1, 0);
    }
  }

  // Division by a divisor that is not known, as counting.
  function Quotient(a: nat, d: nat): (q: nat)
    requires d > 0
    decreases a
  {
    if a < d then 0 else 1 + Quotient(a - d, d)
  }

  function Remainder(a: nat, d: nat): (r: nat)
    requires d > 0
    ensures r < d
    decreases a
  {
    if a < d then a else Remainder(a - d, d)
  }

  lemma {:induction false} QuotientTimes(a: nat, d: nat)
    requires d > 0
    ensures a == Quotient(a, d) * d + Remainder(a, d)
    decreases a
  {
    if a >= d {
      QuotientTimes(a - d, d);
      assert Quotient(a, d) * d == Quotient(a - d, d) * d + d;
    }
  }

  lemma QuotientIsDivision(a: nat, d: nat)
    requires d > 0
    ensures Quotient(a, d) == a / d && Remainder(a, d) == a % d
  {
    QuotientTimes(a, d);
    DivUnique(a, d, Quotient(a, d), Remainder(a, d));
  }

  // Quotients compare as the products do.
  lemma QuotientAtLeast(n: nat, d: nat, q: nat)
    requires d > 0
    ensures Quotient(n, d) >= q <==> n >= q * d
  {
    var p := Quotient(n, d);
    QuotientTimes(n, d);
    assert (p - q) * d == p * d - q * d;
    if p > q {
      MulAtLeast(p - q, d);
    }
    if p < q {
      MulAtLeast(q - p, d);
      assert (q - p) * d == q * d - p * d;
    }
  }

  lemma QuotientIs(n: nat, d: nat, q: nat, r: nat)
    requires r < d && n == q * d + r
    ensures Quotient(n, d) == q && Remainder(n, d) == r
  {
    QuotientIsDivision(n, d);
    DivUnique(n, d, q, r);
  }
}
