/** Facts about division with remainder that the solver does not find by itself. */
module Arithmetic {

  lemma MulMono(a: int, b: int, d: nat)
    requires a <= b
    ensures a * d <= b * d
  {
    assert (b - a) * d >= 0;
  }

  lemma MulSum(m: int, n: int, d: int)
    ensures (m + n) * d == m * d + n * d
  {}

  lemma MulStep(n: int, d: int)
    ensures (n + 1) * d == n * d + d
  {}

  /** Quotient and remainder, without division in sight of the caller. */
  lemma QuotientAndRest(x: nat, d: nat, n: nat) returns (q: nat, r: nat)
    requires d != 0 && x < n * d
    ensures q < n && r < d && x == q * d + r
    ensures q == x / d && r == x % d
  {
    q, r := x / d, x % d;
    DivBelow(x, d, n);
  }

  lemma DivModUnique(q: nat, d: nat, r: nat)
    requires r < d
    ensures (q * d + r) / d == q && (q * d + r) % d == r
  {
    var x := q * d + r;
    DivModIs(x, d, x / d, x % d, q, r);
  }

  lemma DivModIs(x: nat, d: nat, k: int, m: int, q: int, r: int)
    requires x == k * d + m && 0 <= m < d
    requires x == q * d + r && 0 <= r < d
    ensures k == q && m == r
  {
    if k < q {
      MulMono(k + 1, q, d);
    } else if q < k {
      MulMono(q + 1, k, d);
    }
  }

  lemma DivModAdvance(x: nat, d: nat, k: nat)
    requires d != 0 && x % d + k < d
    ensures (x + k) / d == x / d && (x + k) % d == x % d + k
  {
    DivModIs(x + k, d, (x + k) / d, (x + k) % d, x / d, x % d + k);
  }

  lemma ModPeriod(x: nat, d: nat)
    requires 0 < d <= x
    ensures x % d == (x - d) % d
  {
    DivModIs(x, d, x / d, x % d, (x - d) / d + 1, (x - d) % d);
  }

  lemma DivBelow(x: nat, d: nat, n: nat)
    requires d != 0 && x < n * d
    ensures x / d < n
  {
    if x / d >= n {
      MulMono(n, x / d, d);
    }
  }

  lemma DivBelowIff(x: nat, d: nat, n: nat)
    requires d != 0
    ensures x / d < n <==> x < n * d
  {
    if x < n * d {
      DivBelow(x, d, n);
    } else {
      BelowQuotientIff(x, d, n - 1);
    }
  }

  lemma BelowQuotientIff(x: nat, d: nat, n: int)
    requires d != 0
    ensures n < x / d <==> (n + 1) * d <= x
  {
    var q, r := x / d, x % d;
    assert x == q * d + r;
    if n < q {
      MulMono(n + 1, q, d);
    } else {
      MulMono(q, n, d);
      MulStep(n, d);
    }
  }

  /** Quotient and remainder by their equation. */
  lemma QuotientParts(x: nat, d: nat) returns (q: nat, r: nat)
    requires d != 0
    ensures x == q * d + r && r < d && q == x / d
  {
    q, r := x / d, x % d;
  }

  lemma DivTwice(x: nat, a: nat, b: nat, ab: nat)
    requires a != 0 && b != 0 && ab == a * b && ab != 0
    ensures x / ab == x / a / b
  {
    var q, r := QuotientParts(x, a);
    var p, s := QuotientParts(q, b);
    Regroup(x, a, b, q, r, p, s);
    MulBelow(s, a, r, b);
    QuotientOf(x, ab, p, s * a + r);
  }

  lemma Regroup(x: int, a: int, b: int, q: int, r: int, p: int, s: int)
    requires x == q * a + r && q == p * b + s
    ensures x == p * (a * b) + (s * a + r)
  {
    assert (p * b + s) * a == p * (a * b) + s * a;
  }

  lemma QuotientOf(x: nat, d: nat, q: nat, r: nat)
    requires x == q * d + r && r < d
    ensures x / d == q
  {
    DivModUnique(q, d, r);
  }

  lemma MulBelow(q: nat, d: nat, r: nat, n: nat)
    requires q < n && r < d
    ensures q * d + r < n * d
  {
    MulMono(q + 1, n, d);
  }

  /** `d` goes into `n` without remainder, by repeated subtraction. */
  predicate Divides(d: nat, n: nat)
    decreases n
  {
    d != 0 && (n == 0 || (d <= n && Divides(d, n - d)))
  }

  lemma {:induction false} DividesIsMod(d: nat, n: nat)
    requires d != 0
    ensures Divides(d, n) <==> n % d == 0
    ensures Divides(d, n) ==> n / d * d == n
    decreases n
  {
    if n < d {
      DivModUnique(0, d, n);
    } else {
      DividesIsMod(d, n - d);
      DivModIs(n, d, n / d, n % d, (n - d) / d + 1, (n - d) % d);
    }
  }

  lemma ModWrap(x: nat, n: nat)
    requires x < 2 * n
    ensures x % n == if x < n then x else x - n
  {
    if x < n {
      DivModUnique(0, n, x);
    } else {
      DivModUnique(1, n, x - n);
    }
  }
}
