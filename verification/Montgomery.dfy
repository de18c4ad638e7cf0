/** Montgomery multiplication on little-endian word arrays, as rsa_e_3.c and rsa_e_f4.c do it in place. */
module Montgomery {
  import opened WordArith

  type SignedAcc = x: int | -0x8000_0000_0000_0000 <= x < 0x8000_0000_0000_0000  // int64_t

  /** n and rr are the first len words of the struct's arrays. */
  datatype RSAPublicKey = RSAPublicKey(len: int, n0inv: Word, n: seq<Word>, rr: seq<Word>, exponent: int)
  {
    ghost function Modulus(): int { Val(n) }

    /** 2^(32*len). */
    ghost function R(): int
      requires len >= 0
    { Weight(len) }

    /** Both arrays are full; all that the code needs in order to run. */
    predicate Whole()
    {
      1 <= len == |n| == |rr|
    }

    /** The key is of another size, which every check refuses, or its constants are right. */
    ghost predicate Exact(words: int)
    {
      len == words ==> Usable()
    }

    /** What the struct's field comments promise of n and n0inv. */
    ghost predicate Reduces()
    {
      Whole() && (n0inv * n[0]) % B == B - 1
    }

    /** The key constants an exact exponentiation needs: n0inv, rr, and a modulus with its top bit set. */
    ghost predicate Usable()
    {
      && Reduces()
      && R() <= 2 * Modulus()
      && Cong(Val(rr), R() * R(), Modulus())
    }
  }

  // ---------------------------------------------------------------- subM, geM

  lemma BorrowStep(x: int, y: int, borrow: int, va: int, vn: int, vr: int, w: int)
    requires va - vn == vr + borrow * w
    ensures (va + x * w) - (vn + y * w) == vr + ((borrow + x - y) % B) * w + ((borrow + x - y) / B) * (B * w)
  {
    var t := borrow + x - y;
    assert t == B * (t / B) + t % B;
    assert borrow * w + x * w - y * w == t * w;
    assert t * w == (t % B) * w + (t / B) * (B * w);
  }

  /** a[] -= modulus, modulo 2^(32*len). */
  method SubM(key: RSAPublicKey, a: array<Word>)
    requires 0 <= key.len == |key.n| == a.Length
    modifies a
    ensures Val(a[..]) == old(Val(a[..])) - key.Modulus()
                          + (if old(Val(a[..])) < key.Modulus() then key.R() else 0)
  {
    hide Cong;
    ghost var a0: seq<Word> := a[..];
    var acc: SignedAcc := 0;
    var i := 0;
    while i < key.len
      invariant 0 <= i <= key.len
      invariant -1 <= acc <= 0
      invariant a[i..] == a0[i..]
      invariant Val(a0[..i]) - Val(key.n[..i]) == Val(a[..i]) + acc * Weight(i)
    {
      ghost var before := acc;
      ghost var low: seq<Word> := a[..i];
      assert a[i] == a0[i] by { assert a[i] == a[i..][0]; }
      acc := acc + a[i] - key.n[i];
      BorrowStep(a0[i], key.n[i], before, Val(a0[..i]), Val(key.n[..i]), Val(low), Weight(i));
      ValSnoc(a0, i);
      ValSnoc(key.n, i);
      a[i] := acc % B;
      assert a[..i] == low;
      ValSnoc(a[..], i);
      assert a[..][..i + 1] == a[..i + 1];
      acc := acc / B;
      i := i + 1;
    }
    ValWhole(a0);
    ValWhole(key.n);
    assert a[..key.len] == a[..];
    ValRange(a[..]);
    ValRange(a0);
    ValRange(key.n);
  }

  lemma {:induction false} SameTop(s: seq<Word>, t: seq<Word>, i: nat)
    requires i <= |s| == |t| && s[i..] == t[i..]
    ensures Val(s) - Val(t) == Val(s[..i]) - Val(t[..i])
    decreases |s|
  {
    if i == |s| {
      ValWhole(s);
      ValWhole(t);
    } else {
      var k := |s| - 1;
      assert s[..k][i..] == s[i..][..k - i] && t[..k][i..] == t[i..][..k - i];
      assert s[k] == s[i..][k - i] && t[k] == t[i..][k - i];
      SameTop(s[..k], t[..k], i);
      assert s[..k][..i] == s[..i] && t[..k][..i] == t[..i];
    }
  }

  /** The highest differing word decides which number is larger. */
  lemma TopDecides(s: seq<Word>, t: seq<Word>, i: nat)
    requires i < |s| == |t| && s[i + 1..] == t[i + 1..] && s[i] < t[i]
    ensures Val(s) < Val(t)
  {
    SameTop(s, t, i + 1);
    ValSnoc(s, i);
    ValSnoc(t, i);
    ValRange(s[..i]);
    ValRange(t[..i]);
    assert (t[i] - s[i]) * Weight(i) == t[i] * Weight(i) - s[i] * Weight(i);
    MultipleGrows(t[i] - s[i], Weight(i));
  }

  /** a[] >= modulus. */
  method GeM(key: RSAPublicKey, a: array<Word>) returns (ge: bool)
    requires 0 <= key.len == |key.n| == a.Length
    ensures ge <==> Val(a[..]) >= key.Modulus()
  {
    var i := key.len;
    while i != 0
      invariant 0 <= i <= key.len
      invariant a[i..] == key.n[i..]
    {
      i := i - 1;
      if a[i] < key.n[i] {
        TopDecides(a[..], key.n, i);
        return false;
      }
      if a[i] > key.n[i] {
        TopDecides(key.n, a[..], i);
        return true;
      }
      assert a[i..] == [a[i]] + a[i + 1..] && key.n[i..] == [key.n[i]] + key.n[i + 1..];
    }
    assert a[..] == a[0..] && key.n == key.n[0..];
    return true;
  }

  // ---------------------------------------------------------------- montMulAdd

  /** A 64-bit accumulator holds a carry, a product of two words and one more word. */
  lemma AccFits(carry: Word, x: Word, y: Word, z: Word)
    ensures 0 <= x * y + z <= carry + x * y + z < 0x1_0000_0000_0000_0000
  {
    MulBounds(x, B - 1, y);
  }

  /** The multiplier d0 clears the low word: d0*n[0] + low is a multiple of 2^32. */
  lemma LowWordClears(n0: Word, n0inv: Word, low: Word)
    requires (n0inv * n0) % B == B - 1
    ensures (((low * n0inv) % B) * n0 + low) % B == 0
  {
    var d0 := (low * n0inv) % B;
    var q := (low * n0inv) / B;
    assert low * n0inv == B * q + d0;
    var p := (n0inv * n0) / B;
    assert n0inv * n0 == B * p + (B - 1);
    assert (low * n0inv) * n0 == low * (n0inv * n0);
    assert low * (B * p + (B - 1)) == B * (low * p) + low * B - low;
    assert (B * q + d0) * n0 == B * (q * n0) + d0 * n0;
    var m := low * p + low - q * n0;
    assert d0 * n0 + low == B * m;
    MultipleOfB(m);
  }

  lemma MultipleOfB(m: int)
    ensures (B * m) % B == 0
  {}

  lemma CarryStep(ah: int, bh: int, x: int, y: int, w: int)
    ensures var acc := ah + x;
            var acc2 := bh + y + acc % B;
            (ah + bh) * (B * w) + (x + y) * (B * w)
            == B * ((acc2 % B) * w) + (acc / B + acc2 / B) * (B * (B * w))
  {
    var acc := ah + x;
    var acc2 := bh + y + acc % B;
    assert acc == B * (acc / B) + acc % B;
    assert acc2 == B * (acc2 / B) + acc2 % B;
    var v := B * w;
    assert (ah + bh) * v + (x + y) * v == (ah + bh + x + y) * v;
    assert ah + bh + x + y == B * (acc / B) + B * (acc2 / B) + acc2 % B;
    assert (B * (acc / B + acc2 / B) + acc2 % B) * v
           == (acc / B + acc2 / B) * (B * v) + (acc2 % B) * v;
    assert (acc2 % B) * (B * w) == B * ((acc2 % B) * w);
  }

  lemma Distribute(a: int, d: int, vb: int, vc: int, vn: int, x: int, y: int, z: int, w: int)
    ensures a * (vb + x * w) + (vc + y * w) + d * (vn + z * w)
            == (a * vb + vc + d * vn) + ((a * x + y) + d * z) * w
  {
    assert a * (vb + x * w) == a * vb + (a * x) * w;
    assert d * (vn + z * w) == d * vn + (d * z) * w;
    assert ((a * x + y) + d * z) * w == (a * x) * w + y * w + (d * z) * w;
  }

  /** The sum that montMulAdd divides by 2^32 stays below 2^32 * (R + n). */
  lemma QuotientBound(q: int, a: Word, d: Word, b: int, c: int, n: int, r: int)
    requires 0 <= b < r && 0 <= c < r && 0 <= n
    requires B * q == a * b + c + d * n
    ensures 0 <= q < r + n
  {
    MulBounds(a, B - 1, b);
    MulBounds(d, B - 1, n);
    assert (B - 1) * b <= (B - 1) * (r - 1);
    assert B * q <= (B - 1) * (r - 1) + (r - 1) + (B - 1) * n;
  }

  /** After i words: the low i words of a*b + c0 + d0*n are 2^32 times the words stored in c, plus both carries. */
  ghost predicate RowDone(a: Word, b: seq<Word>, c0: seq<Word>, d0: Word, n: seq<Word>, c: seq<Word>, i: nat,
                          carry: int)
  {
    && 1 <= i <= |n| == |b| == |c| == |c0|
    && c[i..] == c0[i..]
    && a * Val(b[..i]) + Val(c0[..i]) + d0 * Val(n[..i]) == B * Val(c[..i - 1]) + carry * Weight(i)
  }

  lemma RowFirst(a: Word, b: seq<Word>, c0: seq<Word>, d0: Word, n: seq<Word>, acc: Acc, acc2: Acc)
    requires 1 <= |n| == |b| == |c0|
    requires acc == a * b[0] + c0[0] && acc2 == d0 * n[0] + acc % B && acc2 % B == 0
    ensures RowDone(a, b, c0, d0, n, c0, 1, acc / B + acc2 / B)
  {
    ValSnoc(b, 0);
    ValSnoc(c0, 0);
    ValSnoc(n, 0);
    assert Weight(0) == 1 && Weight(1) == B;
  }

  lemma RowNext(a: Word, b: seq<Word>, c0: seq<Word>, d0: Word, n: seq<Word>, c: seq<Word>, i: nat, ah: int, bh: int,
                acc: Acc, acc2: Acc)
    requires RowDone(a, b, c0, d0, n, c, i, ah + bh) && i < |n|
    requires acc == ah + a * b[i] + c[i] && acc2 == bh + d0 * n[i] + acc % B
    ensures RowDone(a, b, c0, d0, n, c[i - 1 := acc2 % B], i + 1, acc / B + acc2 / B)
  {
    var c' := c[i - 1 := acc2 % B];
    assert c[i] == c0[i] by { assert c[i] == c[i..][0] && c0[i] == c0[i..][0]; }
    assert c'[i + 1..] == c0[i + 1..] by { assert c'[i + 1..] == c[i..][1..] && c0[i + 1..] == c0[i..][1..]; }
    CarryStep(ah, bh, a * b[i] + c[i], d0 * n[i], Weight(i - 1));
    ValSnoc(b, i);
    ValSnoc(c0, i);
    ValSnoc(n, i);
    Distribute(a, d0, Val(b[..i]), Val(c0[..i]), Val(n[..i]), b[i], c0[i], n[i], Weight(i));
    ValSnoc(c', i - 1);
    assert c'[..i - 1] == c[..i - 1];
  }

  /** The last word takes both carries; h is what does not fit. */
  lemma RowLast(a: Word, b: seq<Word>, c0: seq<Word>, d0: Word, n: seq<Word>, c: seq<Word>, acc: Acc)
    requires RowDone(a, b, c0, d0, n, c, |n|, acc)
    ensures var q := Val(c[|n| - 1 := acc % B]) + (acc / B) * Weight(|n|);
            && a * Val(b) + Val(c0) + d0 * Val(n) == B * q
            && 0 <= q < Weight(|n|) + Val(n)
  {
    var k := |n| - 1;
    var c' := c[k := acc % B];
    ValSnoc(c', k);
    ValWhole(c'); ValWhole(b); ValWhole(c0); ValWhole(n);
    assert c'[..k] == c[..k];
    CarryOut(acc, Weight(k));
    ValRange(b); ValRange(c0); ValRange(n);
    var q := Val(c') + (acc / B) * Weight(|n|);
    assert a * Val(b) + Val(c0) + d0 * Val(n) == B * q;
    QuotientBound(q, a, d0, Val(b), Val(c0), Val(n), Weight(|n|));
  }

  lemma CarryOut(acc: int, w: int)
    ensures acc * (B * w) == B * ((acc % B) * w + (acc / B) * (B * w))
  {
    assert acc == B * (acc / B) + acc % B;
    assert acc * w == (acc % B) * w + (acc / B) * (B * w);
  }

  /** Dropping an unstorable top carry and subtracting the modulus once leaves a congruent number. */
  lemma RowResult(a: Word, vb: int, vc0: int, d0: Word, n: int, r: int, c: int, h: int, res: int)
    requires a * vb + vc0 + d0 * n == B * (c + h * r) && 0 <= c + h * r < r + n
    requires 0 <= h && 0 <= c < r && 0 <= n < r
    requires h == 0 ==> res == c
    requires h != 0 ==> res == c - n + (if c < n then r else 0)
    ensures Cong(B * res, vc0 + a * vb, n)
  {
    var q := c + h * r;
    CongBy(B * q, vc0 + a * vb, n, d0);
    if h == 0 {
      assert q == res;
    } else {
      OneSubtraction(h, c, n, r);
      CongBy(q - n, q, n, -1);
      CongScale(q - n, q, B, n);
      CongTrans(B * res, B * q, vc0 + a * vb, n);
    }
  }

  /** c[] := (c[] + a * b[]) / 2^32 modulo the modulus; c need not be fully reduced, but stays below R. No accumulator
      overflows, whatever the key. */
  method MontMulAdd(key: RSAPublicKey, c: array<Word>, a: Word, b: array<Word>)
    requires key.Whole() && key.len == c.Length == b.Length && c != b
    modifies c
    ensures key.Reduces() ==> Cong(B * Val(c[..]), old(Val(c[..])) + a * Val(b[..]), key.Modulus())
  {
    hide Val, Weight, RowDone, Cong;
    ghost var reduces := key.Reduces();
    ghost var c0: seq<Word> := c[..];
    AccFits(0, a, b[0], c[0]);
    var acc: Acc := a * b[0] + c[0];
    var d0: Word := ((acc % B) * key.n0inv) % B;
    AccFits(0, d0, key.n[0], acc % B);
    var acc2: Acc := d0 * key.n[0] + acc % B;
    if reduces {
      LowWordClears(key.n[0], key.n0inv, acc % B);
      RowFirst(a, b[..], c0, d0, key.n, acc, acc2);
    }
    var i := 1;
    while i < key.len
      invariant 1 <= i <= key.len
      invariant reduces ==> RowDone(a, b[..], c0, d0, key.n, c[..], i, acc / B + acc2 / B)
    {
      ghost var before: seq<Word>, ah, bh := c[..], acc / B, acc2 / B;
      AccFits(ah, a, b[i], c[i]);
      acc := acc / B + a * b[i] + c[i];
      AccFits(bh, d0, key.n[i], acc % B);
      acc2 := acc2 / B + d0 * key.n[i] + acc % B;
      if reduces { RowNext(a, b[..], c0, d0, key.n, before, i, ah, bh, acc, acc2); }
      c[i - 1] := acc2 % B;
      assert c[..] == before[i - 1 := acc2 % B];
      i := i + 1;
    }
    ghost var before: seq<Word> := c[..];
    acc := acc / B + acc2 / B;
    if reduces { RowLast(a, b[..], c0, d0, key.n, before, acc); }
    c[i - 1] := acc % B;
    assert c[..] == before[key.len - 1 := acc % B];
    ghost var vc := Val(c[..]);
    ValRange(c[..]);
    ValRange(key.n);
    if acc / B != 0 {
      SubM(key, c);
    }
    if reduces { RowResult(a, Val(b[..]), Val(c0), d0, key.Modulus(), key.R(), vc, acc / B, Val(c[..])); }
  }

  lemma OneSubtraction(h: int, c: int, n: int, r: int)
    requires h >= 1 && 0 <= c && 0 <= n < r && c + h * r < r + n
    ensures h == 1 && c < n
  {
    MultipleGrows(h - 1, r);
    assert h * r == r + (h - 1) * r;
  }

  // ---------------------------------------------------------------- montMul

  lemma ZeroVal(s: seq<Word>)
    requires forall j :: 0 <= j < |s| ==> s[j] == 0
    ensures Val(s) == 0
  {
    if s != [] { ZeroVal(s[..|s| - 1]); }
  }

  lemma MontAccumulate(w: int, c': int, c: int, ai: int, va: int, vb: int, n: int)
    requires Cong(w * c, va * vb, n) && Cong(B * c', c + ai * vb, n)
    ensures Cong((B * w) * c', (va + ai * w) * vb, n)
  {
    CongScale(B * c', c + ai * vb, w, n);
    assert w * (B * c') == (B * w) * c';
    assert w * (c + ai * vb) == w * c + (ai * w) * vb;
    CongRefl((ai * w) * vb, n);
    CongAdd(w * c, va * vb, (ai * w) * vb, (ai * w) * vb, n);
    assert va * vb + (ai * w) * vb == (va + ai * w) * vb;
    CongTrans((B * w) * c', w * c + (ai * w) * vb, (va + ai * w) * vb, n);
  }

  /** c[] := a[] * b[] / R modulo the modulus. */
  method MontMul(key: RSAPublicKey, c: array<Word>, a: array<Word>, b: array<Word>)
    requires key.Whole() && key.len == c.Length == a.Length == b.Length && c != a && c != b
    modifies c
    ensures key.Reduces() ==> Cong(key.R() * Val(c[..]), Val(a[..]) * Val(b[..]), key.Modulus())
  {
    var i := 0;
    while i < key.len
      invariant 0 <= i <= key.len
      invariant forall j :: 0 <= j < i ==> c[j] == 0
    {
      c[i] := 0;
      i := i + 1;
    }
    ZeroVal(c[..]);
    CongRefl(0, key.Modulus());
    i := 0;
    while i < key.len
      invariant 0 <= i <= key.len
      invariant key.Reduces() ==> Cong(Weight(i) * Val(c[..]), Val(a[..i]) * Val(b[..]), key.Modulus())
    {
      ghost var vc := Val(c[..]);
      MontMulAdd(key, c, a[i], b);
      if key.Reduces() { MontAccumulate(Weight(i), Val(c[..]), vc, a[i], Val(a[..i]), Val(b[..]), key.Modulus()); }
      ValSnoc(a[..], i); assert a[..][..i + 1] == a[..i + 1] && a[..][..i] == a[..i];
      i := i + 1;
    }
    assert a[..key.len] == a[..];
  }
}
