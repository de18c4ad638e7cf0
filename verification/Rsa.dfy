/** RSA with public exponent 3 or 65537 on top of Montgomery multiplication (rsa_e_3.c, rsa_e_f4.c). */
module Rsa {
  import opened WordArith
  import opened Montgomery
  import opened Pkcs1

  const RSANUMWORDS: int := 64
  const RSANUMBYTES: int := 256
  const SHA_DIGEST_SIZE: int := 20

  // ---------------------------------------------------------------- big-endian bytes

  function BEVal(s: seq<Byte>): int
  {
    if s == [] then 0 else 256 * BEVal(s[..|s| - 1]) + s[|s| - 1]
  }

  /** The k low bytes of v, most significant first (I2OSP of RFC 8017, section 4.1). */
  function BEBytes(v: int, k: nat): (s: seq<Byte>)
    ensures |s| == k
    decreases k, v
  {
    if k == 0 then [] else BEBytes(v / 256, k - 1) + [v % 256]
  }

  lemma {:induction false} BytesOfValue(s: seq<Byte>)
    ensures BEBytes(BEVal(s), |s|) == s
  {
    if s != [] {
      BytesOfValue(s[..|s| - 1]);
      assert s == s[..|s| - 1] + [s[|s| - 1]];
    }
  }

  lemma AppendWord(p: seq<Byte>, b: seq<Byte>)
    requires |b| == 4
    ensures BEVal(p + b) == B * BEVal(p) + WordOf(b)
  {
    var s := p + b;
    var k := |p|;
    assert s[..k + 3] == p + b[..3] && (p + b[..3])[..k + 2] == p + b[..2];
    assert (p + b[..2])[..k + 1] == p + b[..1] && (p + b[..1])[..k] == p;
    assert BEVal(p + b[..1]) == 256 * BEVal(p) + b[0];
    assert BEVal(p + b[..2]) == 256 * BEVal(p + b[..1]) + b[1];
    assert BEVal(p + b[..3]) == 256 * BEVal(p + b[..2]) + b[2];
  }

  lemma {:induction false} PrependWord(b: seq<Byte>, t: seq<Byte>, i: nat)
    requires |b| == 4 && |t| == 4 * i
    ensures BEVal(b + t) == WordOf(b) * Weight(i) + BEVal(t)
  {
    if i == 0 {
      assert b + t == [] + b;
      AppendWord([], b);
    } else {
      var t0, t1 := t[..4 * (i - 1)], t[4 * (i - 1)..];
      assert t == t0 + t1 && b + t == (b + t0) + t1;
      AppendWord(t0, t1);
      AppendWord(b + t0, t1);
      PrependWord(b, t0, i - 1);
      OutputStep(0, WordOf(b), Weight(i - 1));
    }
  }

  /** Big-endian bytes to little-endian words. */
  method WordsOfBytes(len: int, inout: array<Byte>, a: array<Word>)
    requires 0 <= len == a.Length && inout.Length == 4 * len
    modifies a
    ensures Val(a[..]) == BEVal(inout[..])
  {
    var i := 0;
    while i < len
      invariant 0 <= i <= len
      invariant Val(a[..i]) == BEVal(inout[4 * (len - i)..])
    {
      var p := (len - 1 - i) * 4;
      ghost var low: seq<Word> := a[..i];
      var tmp: Word := (inout[p] as int) * 0x1000000 + (inout[p + 1] as int) * 0x10000
                       + (inout[p + 2] as int) * 0x100 + inout[p + 3];
      PrependWord(inout[p..p + 4], inout[p + 4..], i);
      assert inout[p..] == inout[p..p + 4] + inout[p + 4..];
      a[i] := tmp;
      assert a[..i] == low;
      ValSnoc(a[..], i);
      assert a[..][..i + 1] == a[..i + 1] && a[..][..i] == a[..i];
      i := i + 1;
    }
    assert a[..len] == a[..] && inout[0..] == inout[..];
  }

  /** The bytes written so far stand for the words above index i. */
  ghost predicate Written(out: seq<Byte>, a: seq<Word>, i: int)
  {
    && -1 <= i < |a|
    && BEVal(out) * Weight(i + 1) + Val(a[..i + 1]) == Val(a)
  }

  lemma WriteWord(out: seq<Byte>, w: seq<Byte>, a: seq<Word>, i: int)
    requires 0 <= i && Written(out, a, i) && |w| == 4 && WordOf(w) == a[i]
    ensures Written(out + w, a, i - 1)
  {
    AppendWord(out, w);
    ValSnoc(a, i);
    OutputStep(BEVal(out), a[i], Weight(i));
  }

  /** The four bytes of one word, most significant first. */
  method StoreWord(inout: array<Byte>, out: nat, tmp: Word)
    requires out + 4 <= inout.Length
    modifies inout
    ensures WordOf(inout[out..out + 4]) == tmp
    ensures inout[..out + 4] == old(inout[..out]) + inout[out..out + 4]
  {
    SplitWord(tmp);
    inout[out] := tmp / 0x1000000;
    inout[out + 1] := tmp / 0x10000 % 256;
    inout[out + 2] := tmp / 0x100 % 256;
    inout[out + 3] := tmp % 256;
    assert inout[out..out + 4] == [tmp / 0x1000000, tmp / 0x10000 % 256, tmp / 0x100 % 256, tmp % 256];
  }

  /** Little-endian words to big-endian bytes. */
  method BytesOfWords(len: int, a: array<Word>, inout: array<Byte>)
    requires 0 <= len == a.Length && inout.Length == 4 * len
    modifies inout
    ensures BEVal(inout[..]) == Val(a[..])
  {
    var i := len - 1;
    var out := 0;
    ValWhole(a[..]);
    while i >= 0
      invariant -1 <= i < len && out == 4 * (len - 1 - i)
      invariant Written(inout[..out], a[..], i)
    {
      ghost var before: seq<Byte> := inout[..out];
      StoreWord(inout, out, a[i]);
      WriteWord(before, inout[out..out + 4], a[..], i);
      out := out + 4;
      i := i - 1;
    }
    assert inout[..out] == inout[..];
  }

  lemma OutputStep(v: int, w: int, x: int)
    ensures (B * v + w) * x == v * (B * x) + w * x
    ensures B * (w * x) == w * (B * x)
  {}

  // ---------------------------------------------------------------- exponentiation

  lemma {:induction false} ValHead(s: seq<Word>) returns (m: int)
    requires s != []
    ensures Val(s) == s[0] + B * m
  {
    var k := |s| - 1;
    if k == 0 {
      m := 0;
      assert s[..0] == [];
    } else {
      var m0 := ValHead(s[..k]);
      m := m0 + s[k] * Weight(k - 1);
      assert s[k] * Weight(k) == B * (s[k] * Weight(k - 1));
    }
  }

  /** The n0inv condition alone makes 2^32 invertible modulo n. */
  lemma InverseOfB(key: RSAPublicKey) returns (u: int)
    requires key.Reduces()
    ensures Cong(u * B, 1, key.Modulus())
  {
    var m := ValHead(key.n);
    var p := (key.n0inv * key.n[0]) / B;
    assert key.n0inv * key.n[0] == B * p + (B - 1);
    u := p + 1 + key.n0inv * m;
    assert key.n0inv * (key.n[0] + B * m) == key.n0inv * key.n[0] + B * (key.n0inv * m);
    CongBy(u * B, 1, key.Modulus(), key.n0inv);
  }

  /** montMul of ya*R and yb is ya*yb. */
  lemma MontProduct(key: RSAPublicKey, c: int, a: int, b: int, ya: int, yb: int)
    requires key.Reduces()
    requires Cong(key.R() * c, a * b, key.Modulus())
    requires Cong(a, ya * key.R(), key.Modulus()) && Cong(b, yb, key.Modulus())
    ensures Cong(c, ya * yb, key.Modulus())
  {
    var n, r := key.Modulus(), key.R();
    CongMul(a, ya * r, b, yb, n);
    CongTrans(r * c, a * b, (ya * r) * yb, n);
    assert (ya * r) * yb == r * (ya * yb);
    var u := InverseOfB(key);
    CancelWeight(key.len, u, c, ya * yb, n);
  }

  lemma MontSquare(key: RSAPublicKey, c: int, a: int, x: int, e: nat)
    requires key.Reduces()
    requires Cong(key.R() * c, a * a, key.Modulus()) && Cong(a, Pow(x, e) * key.R(), key.Modulus())
    ensures Cong(c, Pow(x, e + e) * key.R(), key.Modulus())
  {
    var p, r := Pow(x, e), key.R();
    MontProduct(key, c, a, a, p, p * r);
    PowAdd(x, e, e);
    assert p * (p * r) == (p * p) * r;
  }

  /** aR := a * RR / R is x*R. */
  lemma MontEnter(key: RSAPublicKey, c: int, x: int)
    requires key.Usable() && Cong(key.R() * c, x * Val(key.rr), key.Modulus())
    ensures Cong(c, Pow(x, 1) * key.R(), key.Modulus())
  {
    hide Val, Weight, Cong;
    var n, r, rr := key.Modulus(), key.R(), Val(key.rr);
    assert x * rr == rr * x;
    CongRefl(x, n);
    MontProduct(key, c, rr, x, r, x);
    assert Pow(x, 1) == x * Pow(x, 0) == x;
    assert r * x == Pow(x, 1) * r;
  }

  /** Multiplying x^e*R by x leaves x^(e+1) without the factor R. */
  lemma MontLeave(key: RSAPublicKey, c: int, a: int, x: int, e: nat)
    requires key.Reduces()
    requires Cong(key.R() * c, a * x, key.Modulus()) && Cong(a, Pow(x, e) * key.R(), key.Modulus())
    ensures Cong(c, Pow(x, e + 1), key.Modulus())
  {
    CongRefl(x, key.Modulus());
    MontProduct(key, c, a, x, Pow(x, e), x);
    assert Pow(x, e + 1) == x * Pow(x, e);
  }

  /** The closing geM/subM: below R <= 2n, one subtraction is enough. */
  method Finish(key: RSAPublicKey, aaa: array<Word>, ghost y: int)
    requires key.Whole() && aaa.Length == key.len
    modifies aaa
    ensures key.Usable() && old(Cong(Val(aaa[..]), y, key.Modulus())) ==>
              key.Modulus() > 0 && Val(aaa[..]) == y % key.Modulus()
  {
    ghost var v, n := Val(aaa[..]), key.Modulus();
    ghost var exact := key.Usable() && Cong(v, y, n);
    ValRange(aaa[..]);
    var ge := GeM(key, aaa);
    if ge {
      SubM(key, aaa);
      CongBy(v - n, v, n, -1);
      if exact { CongTrans(v - n, v, y, n); }
    }
    if exact { CongMod(Val(aaa[..]), y, n); }
  }

  /** The constant rr of the key as an array argument. */
  method ResidueArray(key: RSAPublicKey) returns (rr: array<Word>)
    requires 0 <= key.len == |key.rr|
    ensures fresh(rr) && rr[..] == key.rr
  {
    rr := new Word[key.len](i requires 0 <= i < key.len == |key.rr| => key.rr[i]);
  }

  /** In-place x^3 modulo n on big-endian bytes, for usable keys. */
  method ModPow3(key: RSAPublicKey, inout: array<Byte>)
    requires key.Whole() && inout.Length == 4 * key.len
    modifies inout
    ensures key.Usable() ==> key.Modulus() > 0 && BEVal(inout[..]) == Pow(old(BEVal(inout[..])), 3) % key.Modulus()
  {
    ghost var x := BEVal(inout[..]);
    var a := new Word[key.len];
    var aR := new Word[key.len];
    var aaR := new Word[key.len];
    var rr := ResidueArray(key);
    var aaa := aR;
    WordsOfBytes(key.len, inout, a);
    MontMul(key, aR, a, rr);
    ghost var v1 := Val(aR[..]);
    MontMul(key, aaR, aR, aR);
    MontMul(key, aaa, aaR, a);
    if key.Usable() {
      MontEnter(key, v1, x);
      MontSquare(key, Val(aaR[..]), v1, x, 1);
      MontLeave(key, Val(aaa[..]), Val(aaR[..]), x, 2);
    }
    Finish(key, aaa, Pow(x, 3));
    BytesOfWords(key.len, aaa, inout);
  }

  /** 2^k as an exponent: k squarings. */
  function Pow2(k: nat): nat
  {
    if k == 0 then 1 else Pow2(k - 1) + Pow2(k - 1)
  }

  /** In-place x^65537 modulo n on big-endian bytes, for usable keys. */
  method ModPowF4(key: RSAPublicKey, inout: array<Byte>)
    requires key.Whole() && inout.Length == 4 * key.len
    modifies inout
    ensures key.Usable() ==> key.Modulus() > 0 && BEVal(inout[..]) == Pow(old(BEVal(inout[..])), 65537) % key.Modulus()
  {
    hide Val, Weight, Cong, BEVal;
    ghost var x := BEVal(inout[..]);
    var a := new Word[key.len];
    var aR := new Word[key.len];
    var aaR := new Word[key.len];
    var rr := ResidueArray(key);
    var aaa := aaR;
    WordsOfBytes(key.len, inout, a);
    MontMul(key, aR, a, rr);
    ghost var usable := key.Usable();
    if usable { MontEnter(key, Val(aR[..]), x); }
    var i := 0;
    ghost var half := 0;
    while i < 16
      invariant 0 <= i <= 16 && i == 2 * half
      invariant Val(a[..]) == x
      invariant usable ==> Cong(Val(aR[..]), Pow(x, Pow2(i)) * key.R(), key.Modulus())
    {
      ghost var v := Val(aR[..]);
      MontMul(key, aaR, aR, aR);
      ghost var w := Val(aaR[..]);
      MontMul(key, aR, aaR, aaR);
      if usable {
        MontSquare(key, w, v, x, Pow2(i));
        MontSquare(key, Val(aR[..]), w, x, Pow2(i + 1));
      }
      i, half := i + 2, half + 1;
    }
    ghost var v := Val(aR[..]);
    MontMul(key, aaa, aR, a);
    SixteenSquarings();
    if usable { MontLeave(key, Val(aaa[..]), v, x, 65536); }
    Finish(key, aaa, Pow(x, 65537));
    BytesOfWords(key.len, aaa, inout);
  }

  lemma SixteenSquarings()
    ensures Pow2(16) == 65536
  {
    assert Pow2(4) == 16;
    assert Pow2(8) == 256;
    assert Pow2(12) == 4096;
  }

  // ---------------------------------------------------------------- PKCS #1 v1.5 check

  /** Identifier and length prefix of a SHA-1 DigestInfo (RFC 8017, section 9.2, note 1). */
  const SHA1_DIGEST_INFO: seq<Byte> :=
    [0x30, 0x21, 0x30, 0x09, 0x06, 0x05, 0x2b, 0x0e, 0x03, 0x02, 0x1a, 0x05, 0x00, 0x04, 0x14]

  const PADDING: seq<Byte> := [0x00, 0x01] + Repeat(0xff, 218) + [0x00] + SHA1_DIGEST_INFO

  /** The block that the code compares with. */
  function Encoded(sha: seq<Byte>): seq<Byte>
  {
    PADDING + sha
  }

  /** It is the encoded message of the standard for a 2048-bit key. */
  lemma EncodedIs(em: seq<Byte>, sha: seq<Byte>)
    requires |sha| == SHA_DIGEST_SIZE
    ensures |PADDING| == RSANUMBYTES - SHA_DIGEST_SIZE
    ensures em == Encoded(sha) <==> IsEmsa(em, RSANUMBYTES, sha)
  {
    EmsaIs(em, sha);
    DigestInfoBytes(sha);
    assert Encoded(sha) == [0x00, 0x01] + Repeat(0xff, 218) + [0x00] + DigestInfo(sha).Encode();
  }

  /** 1 exactly when the key and length checks pass and signature^3 mod n is the encoded digest; with the wrong
      constants in the key only the checks are certain. */
  method RsaE3Verify(key: RSAPublicKey, signature: seq<Byte>, len: int, sha: seq<Byte>) returns (r: int)
    requires len <= |signature| && |sha| == SHA_DIGEST_SIZE
    requires key.len == RSANUMWORDS ==> key.Whole()
    ensures r == 0 || r == 1
    ensures r == 1 ==> key.len == RSANUMWORDS && len == RSANUMBYTES && key.exponent == 3
    ensures key.Exact(RSANUMWORDS) ==>
              (r == 1 <==>
               && key.len == RSANUMWORDS
               && len == RSANUMBYTES
               && key.exponent == 3
               && key.Modulus() > 0
               && IsEmsa(BEBytes(Pow(BEVal(signature[..len]), 3) % key.Modulus(), RSANUMBYTES), RSANUMBYTES, sha))
  {
    if key.len != RSANUMWORDS {
      return 0;
    }
    if len != RSANUMBYTES {
      return 0;
    }
    if key.exponent != 3 {
      return 0;
    }
    var buf := new Byte[RSANUMBYTES];
    var i := 0;
    while i < len
      invariant 0 <= i <= len
      invariant buf[..i] == signature[..i]
    {
      buf[i] := signature[i];
      i := i + 1;
    }
    assert buf[..] == signature[..len];
    ModPow3(key, buf);
    BytesOfValue(buf[..]);
    var same := IsEncoded(buf, sha);
    r := if same then 1 else 0;
  }

  /** The padding, then the digest, byte by byte. */
  method IsEncoded(buf: array<Byte>, sha: seq<Byte>) returns (same: bool)
    requires buf.Length == RSANUMBYTES && |sha| == SHA_DIGEST_SIZE
    ensures same <==> IsEmsa(buf[..], RSANUMBYTES, sha)
  {
    ghost var want := Encoded(sha);
    EncodedIs(buf[..], sha);
    var i := 0;
    while i < |PADDING|
      invariant 0 <= i <= |PADDING|
      invariant buf[..i] == want[..i]
    {
      if buf[i] != PADDING[i] {
        assert buf[..][i] != want[i];
        return false;
      }
      i := i + 1;
    }
    var s := 0;
    while i < RSANUMBYTES
      invariant |PADDING| <= i <= RSANUMBYTES && s == i - |PADDING|
      invariant buf[..i] == want[..i]
    {
      if buf[i] != sha[s] {
        assert buf[..][i] != want[i];
        return false;
      }
      s := s + 1;
      i := i + 1;
    }
    assert buf[..RSANUMBYTES] == buf[..] && want[..RSANUMBYTES] == want;
    return true;
  }
}
