/** linux.h and ubifs.c, get_bad_peb_limit; dev.py, get_nand_reserved_size: how many eraseblocks are kept for bad
    ones. */
module BadLimit {
  import opened WordArith

  /** mult_frac on unsigned int: every product and sum wraps at 2^32. */
  function MultFrac(x: Word, numer: Word, denom: Word): (r: Word)
    requires denom > 0
  {
    var quot, rem := x / denom, x % denom;
    ((quot * numer) % B + (rem * numer) % B / denom) % B
  }

  lemma DivBound(a: nat, m: nat, b: nat)
    requires m > 0
    ensures a / m <= b <==> a < m * (b + 1)
  {
    var q, r := a / m, a % m;
    assert a == m * q + r;
    if q <= b {
      MulMono(m, q + 1, b + 1);
      assert m * (q + 1) == m * q + m;
    } else {
      MulMono(m, b + 1, q);
    }
  }

  lemma MulMono(m: nat, x: nat, y: nat)
    requires x <= y
    ensures m * x <= m * y
  {
    assert m * y - m * x == m * (y - x);
  }

  lemma FracParts(x: nat, n: nat, d: nat, quot: nat, rem: nat, s: nat, t: nat)
    requires x == d * quot + rem && rem * n == d * s + t
    ensures x * n == d * (quot * n + s) + t
  {
    assert (d * quot) * n == d * (quot * n);
  }

  lemma FracResult(x: nat, n: nat, d: nat, quot: nat, rem: nat)
    requires d > 0 && x == d * quot + rem
    ensures x * n / d == quot * n + rem * n / d
  {
    var s, t := rem * n / d, rem * n % d;
    assert rem * n == d * s + t;
    FracParts(x, n, d, quot, rem, s, t);
    Remainder(x * n, d, quot * n + s, t);
  }

  lemma Unwrapped(a: nat, b: nat, denom: nat)
    requires denom > 0 && b < B && a + b / denom < B
    ensures (a % B + b % B / denom) % B == a + b / denom
  {
    DivNonNegative(b, denom);
    Small(a);
    Small(b);
    Small(a + b / denom);
  }

  lemma DivNonNegative(b: nat, denom: nat)
    requires denom > 0
    ensures b / denom >= 0
  {}

  lemma RemainderProduct(rem: nat, numer: nat, denom: nat)
    requires rem <= denom && numer * denom < B
    ensures rem * numer < B
  {
    MulMono(numer, rem, denom);
  }

  /** While nothing wraps, splitting the quotient off first loses nothing. */
  lemma MultFracExact(x: Word, numer: Word, denom: Word)
    requires denom > 0 && x * numer / denom < B && numer * denom < B
    ensures MultFrac(x, numer, denom) == x * numer / denom
  {
    FracResult(x, numer, denom, x / denom, x % denom);
    RemainderProduct(x % denom, numer, denom);
    Unwrapped(x / denom * numer, x % denom * numer, denom);
  }

  lemma Small(x: nat)
    requires x < B
    ensures x % B == x
  {
    Remainder(x, B, 0, x);
  }

  /** Smallest n with 1024 * n >= d * m. */
  function CeilShare(d: nat, m: nat): nat
  {
    (d * m + 1023) / 1024
  }

  lemma CeilShareLeast(d: nat, m: nat, n: nat)
    ensures CeilShare(d, m) <= n <==> d * m <= 1024 * n
  {
    DivBound(d * m + 1023, 1024, n);
  }

  /** get_bad_peb_limit is the share of the device's blocks, rounded up; nothing overflows. */
  method GetBadPebLimit(devicePebs: Word, maxBebPer1024: Word) returns (limit: Word)
    requires maxBebPer1024 <= 1024
    ensures limit == CeilShare(devicePebs, maxBebPer1024)
  {
    if maxBebPer1024 == 0 {
      Remainder(1023, 1024, 0, 1023);
      return 0;
    }
    LimitParts(devicePebs, maxBebPer1024);
    limit := MultFrac(devicePebs, maxBebPer1024, 1024);
    if MultFrac(limit, 1024, maxBebPer1024) < devicePebs {
      Small(limit + 1);
      limit := (limit + 1) % B;
    }
  }

  /** Both fractions are exact, and the second one falls short exactly when the first was rounded. */
  lemma LimitParts(d: Word, m: Word)
    requires 1 <= m <= 1024
    ensures var limit := MultFrac(d, m, 1024);
            && limit == d * m / 1024
            && (MultFrac(limit, 1024, m) < d <==> 1024 * limit < d * m)
            && CeilShare(d, m) == (if 1024 * limit < d * m then limit + 1 else limit)
            && (1024 * limit < d * m ==> limit + 1 < B)
  {
    var q, r := d * m / 1024, d * m % 1024;
    assert d * m == 1024 * q + r;
    MulMono(d, m, 1024);
    assert q <= d;
    MultFracExact(d, m, 1024);
    SecondFraction(d, m, q);
    MultFracExact(q, 1024, m);
    CeilShareLeast(d, m, q);
    CeilShareLeast(d, m, q + 1);
    if q > 0 { CeilShareLeast(d, m, q - 1); }
  }

  lemma SecondFraction(d: Word, m: Word, q: nat)
    requires 1 <= m <= 1024 && 1024 * q <= d * m
    ensures q * 1024 / m <= d && (q * 1024 / m < d <==> 1024 * q < d * m)
  {
    assert m * (d + 1) == d * m + m;
    DivBound(q * 1024, m, d);
    if d > 0 {
      assert m * (d - 1 + 1) == d * m;
      DivBound(q * 1024, m, d - 1);
    } else {
      assert d * m == 0;
    }
  }

  // ---------------------------------------------------------------- the server's reserve

  const NANDFLASH_BLOCK_SIZE: nat := 2048 * 64
  const UBI_MTD_UBI_BEB_LIMIT_PER1024: nat := 20

  /** get_nand_reserved_size, in bytes. */
  function GetNandReservedSize(devsize: nat): nat
  {
    var pebs := devsize / NANDFLASH_BLOCK_SIZE;
    var quot, rem := pebs / 1024, pebs % 1024;
    var reserved := quot * UBI_MTD_UBI_BEB_LIMIT_PER1024 + rem * UBI_MTD_UBI_BEB_LIMIT_PER1024 / 1024;
    (if reserved < devsize then reserved + 1 else reserved) * NANDFLASH_BLOCK_SIZE
  }

  /** The reserve: 20 blocks for every 1024 of the device, counted in whole blocks, and one more. */
  lemma ReservedSizeIs(devsize: nat, pebs: nat, n: nat)
    requires pebs * 131072 <= devsize < (pebs + 1) * 131072 && n * 1024 <= pebs * 20 < (n + 1) * 1024
    ensures GetNandReservedSize(devsize) == if devsize == 0 then 0 else (n + 1) * 131072
  {
    Remainder(devsize, NANDFLASH_BLOCK_SIZE, pebs, devsize - pebs * NANDFLASH_BLOCK_SIZE);
    var quot, rem := pebs / 1024, pebs % 1024;
    assert pebs == 1024 * quot + rem;
    assert n == quot * 20 + rem * 20 / 1024;
    assert n <= pebs <= devsize;
  }

  /** For the same block count and the default share, the server keeps at least as many blocks as the client allows to
      go bad. */
  lemma ServerReservesEnough(devsize: nat)
    ensures CeilShare(devsize / NANDFLASH_BLOCK_SIZE,
                      UBI_MTD_UBI_BEB_LIMIT_PER1024) * NANDFLASH_BLOCK_SIZE <= GetNandReservedSize(devsize)
  {
    var pebs := devsize / NANDFLASH_BLOCK_SIZE;
    var quot, rem := pebs / 1024, pebs % 1024;
    var reserved := quot * 20 + rem * 20 / 1024;
    assert pebs == 1024 * quot + rem;
    assert 1024 * reserved <= pebs * 20 < 1024 * (reserved + 1);
    CeilShareLeast(pebs, 20, reserved + 1);
    assert devsize >= NANDFLASH_BLOCK_SIZE * pebs;
  }
}
