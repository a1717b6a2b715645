/** Quotients and remainders. */
module Numbers {

  function Quotient(n: nat, m: nat): nat
    requires m > 0
  {
    n / m
  }

  lemma Multiples(n: int, k: int)
    requires n > 0
    ensures k > 0 ==> n * k >= n
    ensures k < 0 ==> n * k <= -n
  {
    if k > 0 {
      assert n * (k - 1) >= 0;
    } else if k < 0 {
      assert n * (-1 - k) >= 0;
    }
  }

  lemma DivisionIs(a: int, q: int, r: int, n: int)
    requires 0 <= r < n && a == n * q + r
    ensures a % n == r && a / n == q
  {
    var q', r' := a / n, a % n;
    assert a == n * q' + r';
    assert n * (q - q') == n * q - n * q';
    Multiples(n, q - q');
  }

  lemma SameRemainder(a: int, b: int, i: int, n: int)
    requires n > 0 && a % n == b % n
    ensures (a + i) % n == (b + i) % n
  {
    var qa, qb, q, r := a / n, b / n, (b + i) / n, (b + i) % n;
    assert n * (qa - qb + q) == n * qa - n * qb + n * q;
    DivisionIs(a + i, qa - qb + q, r, n);
  }

  lemma LapsApart(a: int, b: int, k: int, n: int)
    requires n > 0 && a == b + n * k
    ensures a % n == b % n
  {
    assert n * (b / n + k) == n * (b / n) + n * k;
    DivisionIs(a, b / n + k, b % n, n);
  }

  lemma RemaindersDiffer(a: int, b: int, n: int)
    requires b < a < b + n
    ensures a % n != b % n
  {
    if a % n == b % n {
      var qa, qb := a / n, b / n;
      assert n * (qa - qb) == n * qa - n * qb;
      Multiples(n, qa - qb);
    }
  }

  lemma WithinLap(a: nat, i: nat, n: nat)
    requires n > 0 && a % n + i < n
    ensures (a + i) % n == a % n + i
  {
    DivisionIs(a + i, a / n, a % n + i, n);
  }

  lemma AcrossTheEnd(a: nat, n: nat)
    requires n > 0
    ensures (a + (n - a % n)) % n == 0
  {
    assert n * (a / n + 1) == n * (a / n) + n;
    DivisionIs(a + (n - a % n), a / n + 1, 0, n);
  }

  lemma BelowProduct(low: nat, high: nat, m: nat, bound: nat)
    requires low < m && high < bound
    ensures m * high + low < m * bound
  {
    assert m * (bound - 1 - high) >= 0;
  }
}
