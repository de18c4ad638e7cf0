/** Little-endian arrays of 32-bit words read as numbers, powers, and congruence modulo n. */
module WordArith {

  const B: int := 0x1_0000_0000
  const TWO64: int := 0x1_0000_0000_0000_0000

  type Word = x: int | 0 <= x < B
  type Acc = x: int | 0 <= x < 0x1_0000_0000_0000_0000  // uint64_t: an assignment that overflows does not verify
  type Byte = x: int | 0 <= x < 256

  function Pow(b: int, e: nat): int
  {
    if e == 0 then 1 else b * Pow(b, e - 1)
  }

  /** The weight of word i: 2^(32*i). */
  function Weight(i: nat): (w: int)
    ensures w >= 1
  {
    if i == 0 then 1 else B * Weight(i - 1)
  }

  /** The number a little-endian word sequence stands for. */
  function Val(s: seq<Word>): (v: int)
  {
    if s == [] then 0 else Val(s[..|s| - 1]) + s[|s| - 1] * Weight(|s| - 1)
  }

  lemma ValSnoc(s: seq<Word>, i: nat)
    requires i < |s|
    ensures Val(s[..i + 1]) == Val(s[..i]) + s[i] * Weight(i)
  {
    assert s[..i + 1][..i] == s[..i];
  }

  lemma ValWhole(s: seq<Word>)
    ensures s[..|s|] == s && Val(s[..|s|]) == Val(s)
  {
    assert s[..|s|] == s;
  }

  lemma {:induction false} ValRange(s: seq<Word>)
    ensures 0 <= Val(s) < Weight(|s|)
  {
    if s != [] {
      var k := |s| - 1;
      ValRange(s[..k]);
      MulBounds(s[k], B - 1, Weight(k));
      assert B * Weight(k) == (B - 1) * Weight(k) + Weight(k);
    }
  }

  lemma MulBounds(x: int, hi: int, w: int)
    requires 0 <= x <= hi && 0 <= w
    ensures 0 <= x * w <= hi * w
  {}

  lemma SmallMultiple(d: int, w: int)
    requires w > 0 && -w < d * w < w
    ensures d == 0
  {
    MultipleGrows(d, w);
  }

  lemma MultipleGrows(d: int, w: int)
    requires w > 0
    ensures d >= 1 ==> d * w >= w
    ensures d <= -1 ==> d * w <= -w
  {}

  // ---------------------------------------------------------------- congruence

  /** x and y differ by a multiple of n. */
  ghost predicate Cong(x: int, y: int, n: int)
  {
    exists k: int :: Differ(x, y, n, k)
  }

  ghost predicate Differ(x: int, y: int, n: int, k: int)
  {
    x == y + k * n
  }

  lemma CongBy(x: int, y: int, n: int, k: int)
    requires x == y + k * n
    ensures Cong(x, y, n)
  {
    assert Differ(x, y, n, k);
  }

  lemma CongRefl(x: int, n: int)
    ensures Cong(x, x, n)
  {
    CongBy(x, x, n, 0);
  }

  lemma CongSym(x: int, y: int, n: int)
    requires Cong(x, y, n)
    ensures Cong(y, x, n)
  {
    var k :| Differ(x, y, n, k);
    assert (-k) * n == -(k * n);
    CongBy(y, x, n, -k);
  }

  lemma CongTrans(x: int, y: int, z: int, n: int)
    requires Cong(x, y, n) && Cong(y, z, n)
    ensures Cong(x, z, n)
  {
    var j :| Differ(x, y, n, j);
    var k :| Differ(y, z, n, k);
    assert (j + k) * n == j * n + k * n;
    CongBy(x, z, n, j + k);
  }

  lemma CongAdd(x: int, y: int, u: int, v: int, n: int)
    requires Cong(x, y, n) && Cong(u, v, n)
    ensures Cong(x + u, y + v, n)
  {
    var j :| Differ(x, y, n, j);
    var k :| Differ(u, v, n, k);
    assert (j + k) * n == j * n + k * n;
    CongBy(x + u, y + v, n, j + k);
  }

  lemma CongScale(x: int, y: int, m: int, n: int)
    requires Cong(x, y, n)
    ensures Cong(m * x, m * y, n)
  {
    var j :| Differ(x, y, n, j);
    assert m * (y + j * n) == m * y + (m * j) * n;
    CongBy(m * x, m * y, n, m * j);
  }

  lemma CongMul(x: int, y: int, u: int, v: int, n: int)
    requires Cong(x, y, n) && Cong(u, v, n)
    ensures Cong(x * u, y * v, n)
  {
    CongScale(x, y, u, n);
    CongScale(u, v, y, n);
    assert u * x == x * u && u * y == y * u;
    CongTrans(x * u, y * u, y * v, n);
  }

  /** A congruent number already in [0, n) is the remainder. */
  lemma CongMod(x: int, y: int, n: int)
    requires Cong(x, y, n) && 0 <= x < n
    ensures x == y % n
  {
    var k :| Differ(x, y, n, k);
    var q := y / n;
    assert y == n * q + y % n;
    assert (y % n - x) == (-k - q) * n by {
      assert n * q == q * n;
      assert (-k - q) * n == -(k * n) - q * n;
    }
    SmallMultiple(-k - q, n);
  }

  lemma ModCong(y: int, n: int)
    requires n > 0
    ensures Cong(y % n, y, n)
  {
    assert y == n * (y / n) + y % n;
    assert (-(y / n)) * n == -(n * (y / n));
    CongBy(y % n, y, n, -(y / n));
  }

  /** Quotient and remainder are determined by x == m*q + r. */
  lemma Remainder(x: int, m: int, q: int, r: int)
    requires m > 0 && x == m * q + r && 0 <= r < m
    ensures x % m == r && x / m == q
  {
    CongBy(r, x, m, -q);
    assert (-q) * m == -(m * q);
    CongMod(r, x, m);
    assert x == m * (x / m) + r;
    assert (x / m - q) * m == 0;
    SmallMultiple(x / m - q, m);
  }

  /** A factor with an inverse u modulo n cancels. */
  lemma CongCancel(m: int, u: int, x: int, y: int, n: int)
    requires Cong(u * m, 1, n) && Cong(m * x, m * y, n)
    ensures Cong(x, y, n)
  {
    CongScale(m * x, m * y, u, n);
    assert u * (m * x) == x * (u * m) && u * (m * y) == y * (u * m);
    CongScale(u * m, 1, x, n);
    CongScale(u * m, 1, y, n);
    CongSym(x * (u * m), x, n);
    CongTrans(x, x * (u * m), y * (u * m), n);
    CongTrans(x, y * (u * m), y, n);
  }

  /** If 2^32 is invertible modulo n then so is every weight. */
  lemma {:induction false} CancelWeight(i: nat, u: int, x: int, y: int, n: int)
    requires Cong(u * B, 1, n) && Cong(Weight(i) * x, Weight(i) * y, n)
    ensures Cong(x, y, n)
  {
    if i > 0 {
      var w := Weight(i - 1);
      assert Weight(i) * x == B * (w * x) && Weight(i) * y == B * (w * y);
      CongCancel(B, u, w * x, w * y, n);
      CancelWeight(i - 1, u, x, y, n);
    }
  }

  lemma PowAdd(b: int, d: nat, e: nat)
    ensures Pow(b, d + e) == Pow(b, d) * Pow(b, e)
  {
    if d > 0 {
      PowAdd(b, d - 1, e);
      assert Pow(b, d + e) == b * Pow(b, d - 1 + e);
    }
  }

  lemma WordPow()
    ensures Pow(2, 32) == B
  {
    assert Pow(2, 8) == 256;
    PowAdd(2, 8, 8);
    PowAdd(2, 16, 16);
  }

  // ---------------------------------------------------------------- four bytes and a word

  /** Four bytes, most significant first. */
  function WordOf(b: seq<Byte>): (w: Word)
    requires |b| == 4
  {
    (b[0] as int) * 0x1000000 + (b[1] as int) * 0x10000 + (b[2] as int) * 0x100 + b[3]
  }

  lemma SplitWord(x: Word)
    ensures 0 <= x / 0x1000000 < 256
    ensures WordOf([x / 0x1000000, x / 0x10000 % 256, x / 0x100 % 256, x % 256]) == x
  {
    var a, r := x / 0x1000000, x % 0x1000000;
    var b, q := r / 0x10000, r % 0x10000;
    var c, d := q / 0x100, q % 0x100;
    Remainder(x, 0x10000, a * 256 + b, c * 256 + d);
    Remainder(a * 256 + b, 256, a, b);
    Remainder(x, 0x100, a * 0x10000 + b * 256 + c, d);
    Remainder(a * 0x10000 + b * 256 + c, 256, a * 256 + b, c);
  }

  /** Four bytes, least significant first. */
  function WordOfLE(b: seq<Byte>): (w: Word)
    requires |b| == 4
  {
    WordOf([b[3], b[2], b[1], b[0]])
  }

  function BytesLE(w: Word): (b: seq<Byte>)
    ensures |b| == 4
  {
    [w % 256, w / 0x100 % 256, w / 0x10000 % 256, w / 0x1000000]
  }

  lemma SplitWordLE(w: Word)
    ensures WordOfLE(BytesLE(w)) == w
  {
    SplitWord(w);
  }

  lemma JoinWordLE(b: seq<Byte>)
    requires |b| == 4
    ensures BytesLE(WordOfLE(b)) == b
  {
    var w := WordOfLE(b);
    var b0: int, b1: int, b2: int, b3: int := b[0], b[1], b[2], b[3];
    Remainder(w, 256, b3 * 0x10000 + b2 * 0x100 + b1, b0);
    Remainder(b3 * 0x10000 + b2 * 0x100 + b1, 256, b3 * 0x100 + b2, b1);
    Remainder(w, 0x10000, b3 * 0x100 + b2, b1 * 0x100 + b0);
    Remainder(b3 * 0x100 + b2, 256, b3, b2);
    Remainder(w, 0x1000000, b3, b2 * 0x10000 + b1 * 0x100 + b0);
  }

  // ---------------------------------------------------------------- byte strings in parts

  function Concat(parts: seq<seq<Byte>>): seq<Byte>
  {
    if parts == [] then [] else Concat(parts[..|parts| - 1]) + parts[|parts| - 1]
  }

  lemma ConcatNext(parts: seq<seq<Byte>>, k: nat)
    requires k < |parts|
    ensures Concat(parts[..k + 1]) == Concat(parts[..k]) + parts[k]
  {
    assert parts[..k + 1][..k] == parts[..k];
  }

  lemma {:induction false} ConcatFront(first: seq<Byte>, parts: seq<seq<Byte>>)
    ensures Concat([first] + parts) == first + Concat(parts)
  {
    if parts == [] {
      assert ([first] + parts)[..0] == [];
    } else {
      var k := |parts| - 1;
      ConcatFront(first, parts[..k]);
      assert ([first] + parts)[..k + 1] == [first] + parts[..k];
    }
  }
}
