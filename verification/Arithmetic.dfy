/** Minimum, maximum, and division with remainder. */
module Arithmetic {
  function Min(a: nat, b: nat): nat {
    if a < b then a else b
  }

  function Max(a: nat, b: nat): nat {
    if a >= b then a else b
  }

  lemma {:induction false} ProductGrows(a: nat, b: nat, d: nat)
    requires a <= b
    ensures a * d <= b * d
  {
    assert (b - a) * d >= 0;
  }

  /** A quotient and a remainder that fit are the quotient and the remainder. */
  lemma {:induction false} RemainderIs(n: nat, d: nat, q: nat, r: nat)
    requires d > 0 && n == q * d + r && r < d
    ensures n % d == r
  {
    var p := n / d;
    assert p * d + n % d == n;
    assert (p + 1) * d == p * d + d && (q + 1) * d == q * d + d;
    if p < q {
      ProductGrows(p + 1, q, d);
    } else if q < p {
      ProductGrows(q + 1, p, d);
    }
  }

  lemma {:induction false} RemainderOfSmall(n: nat, d: nat)
    requires n < d
    ensures n % d == n
  {
    RemainderIs(n, d, 0, n);
  }

  lemma {:induction false} RemainderOfMore(n: nat, d: nat)
    requires d > 0
    ensures (n + d) % d == n % d
  {
    assert (n / d + 1) * d == (n / d) * d + d;
    RemainderIs(n + d, d, n / d + 1, n % d);
  }

  lemma {:induction false} RemainderOfMultiples(n: nat, d: nat, q: nat)
    requires d > 0
    ensures (n + q * d) % d == n % d
  {
    if q > 0 {
      assert q * d == (q - 1) * d + d;
      RemainderOfMultiples(n, d, q - 1);
      RemainderOfMore(n + (q - 1) * d, d);
    }
  }

  /** Numbers that are less than `d` apart have different remainders. */
  lemma {:induction false} RemaindersDiffer(n: nat, d: nat, more: nat)
    requires 0 < more < d
    ensures (n + more) % d != n % d
  {
    var q, r := n / d, n % d;
    assert n == q * d + r;
    assert (q + 1) * d == q * d + d;
    if r + more < d {
      RemainderIs(n + more, d, q, r + more);
    } else {
      RemainderIs(n + more, d, q + 1, r + more - d);
    }
  }

  /** From 1 to `d`: the remainder, but `d` instead of zero. */
  function Within(n: nat, d: nat): (r: nat)
    requires n > 0 && d > 0
    ensures 1 <= r <= d
  {
    (n - 1) % d + 1
  }

  lemma {:induction false} WithinOfSmall(n: nat, d: nat)
    requires 0 < n <= d
    ensures Within(n, d) == n
  {
    RemainderOfSmall(n - 1, d);
  }

  lemma {:induction false} WithinPeriodic(n: nat, d: nat)
    requires n > 0 && d > 0
    ensures Within(n + d, d) == Within(n, d)
  {
    RemainderOfMore(n - 1, d);
  }

  lemma {:induction false} WithinAdds(n: nat, more: nat, d: nat)
    requires n > 0 && d > 0
    ensures Within(Within(n, d) + more, d) == Within(n + more, d)
    decreases n
  {
    if n > d {
      WithinPeriodic(n - d, d);
      WithinPeriodic(n - d + more, d);
      WithinAdds(n - d, more, d);
    } else {
      WithinOfSmall(n, d);
    }
  }
}
