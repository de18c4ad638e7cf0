/** Quotients and remainders of natural numbers. */
module Division {
  import opened WordArith

  lemma Quotient(q: nat, m: nat, r: nat)
    requires r < m
    ensures (q * m + r) / m == q && (q * m + r) % m == r
  {
    assert q * m + r == m * q + r;
    Remainder(q * m + r, m, q, r);
  }

  lemma QuotientAndRest(x: nat, m: nat)
    requires m > 0
    ensures x == x / m * m + x % m && x % m < m
  {
    assert m * (x / m) == x / m * m;
  }

  /** x lies below cnt multiples exactly when its quotient lies below cnt. */
  lemma QuotientBelow(x: nat, m: nat, cnt: nat)
    requires m > 0
    ensures x < cnt * m <==> x / m < cnt
  {
    QuotientAndRest(x, m);
    if x / m < cnt {
      assert (cnt - x / m - 1) * m >= 0;
      assert (cnt - x / m - 1) * m == cnt * m - x / m * m - m;
    } else {
      assert (x / m - cnt) * m >= 0;
      assert (x / m - cnt) * m == x / m * m - cnt * m;
    }
  }

  lemma MultipleOrder(a: int, b: int, m: nat)
    requires m > 0
    ensures a * m >= b * m <==> a >= b
  {
    assert (a - b) * m == a * m - b * m;
    if a >= b {
      NonNegative(a - b, m);
    } else {
      NonNegative(b - a - 1, m);
      assert (b - a - 1) * m == b * m - a * m - m;
    }
  }

  lemma NonNegative(a: int, m: int)
    requires a >= 0 && m >= 0
    ensures a * m >= 0
  {}

  /** Sums and differences of whole pages. */
  lemma PagesAdd(a: nat, b: nat, page: nat)
    requires page > 0 && a % page == 0 && b % page == 0
    ensures (a + b) % page == 0
    ensures a >= b ==> (a - b) % page == 0
  {
    assert a == page * (a / page) && b == page * (b / page);
    assert page * (a / page + b / page) == a + b && page * (a / page - b / page) == a - b;
    Remainder(a + b, page, a / page + b / page, 0);
    if a >= b { Remainder(a - b, page, a / page - b / page, 0); }
  }
}
