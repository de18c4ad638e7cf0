/** MD5 as a function of the whole message (RFC 1321, sections 3.1 to 3.5). */
module Md5 {
  import opened WordArith
  import opened Bits
  import opened BlockHash

  datatype State = State(a: Word, b: Word, c: Word, d: Word)

  const INIT: State := State(0x67452301, 0xEFCDAB89, 0x98BADCFE, 0x10325476)

  // The auxiliary functions F, G, H and I.
  function Aux1(x: Word, y: Word, z: Word): Word { BOr(BAnd(x, y), BAnd(BNot(x), z)) }
  function Aux2(x: Word, y: Word, z: Word): Word { BOr(BAnd(x, z), BAnd(y, BNot(z))) }
  function Aux3(x: Word, y: Word, z: Word): Word { BXor(BXor(x, y), z) }
  function Aux4(x: Word, y: Word, z: Word): Word { BXor(y, BOr(x, BNot(z))) }

  /** floor(2^32 * abs(sin(t + 1))) */
  function T(t: nat): Word
  {
    if t < 16 then T1(t) else if t < 32 then T2(t - 16) else if t < 48 then T3(t - 32) else T4(t - 48)
  }

  function T1(i: nat): Word
  {
    match i
    case 0 => 0xd76aa478
    case 1 => 0xe8c7b756
    case 2 => 0x242070db
    case 3 => 0xc1bdceee
    case 4 => 0xf57c0faf
    case 5 => 0x4787c62a
    case 6 => 0xa8304613
    case 7 => 0xfd469501
    case 8 => 0x698098d8
    case 9 => 0x8b44f7af
    case 10 => 0xffff5bb1
    case 11 => 0x895cd7be
    case 12 => 0x6b901122
    case 13 => 0xfd987193
    case 14 => 0xa679438e
    case _ => 0x49b40821
  }

  function T2(i: nat): Word
  {
    match i
    case 0 => 0xf61e2562
    case 1 => 0xc040b340
    case 2 => 0x265e5a51
    case 3 => 0xe9b6c7aa
    case 4 => 0xd62f105d
    case 5 => 0x02441453
    case 6 => 0xd8a1e681
    case 7 => 0xe7d3fbc8
    case 8 => 0x21e1cde6
    case 9 => 0xc33707d6
    case 10 => 0xf4d50d87
    case 11 => 0x455a14ed
    case 12 => 0xa9e3e905
    case 13 => 0xfcefa3f8
    case 14 => 0x676f02d9
    case _ => 0x8d2a4c8a
  }

  function T3(i: nat): Word
  {
    match i
    case 0 => 0xfffa3942
    case 1 => 0x8771f681
    case 2 => 0x6d9d6122
    case 3 => 0xfde5380c
    case 4 => 0xa4beea44
    case 5 => 0x4bdecfa9
    case 6 => 0xf6bb4b60
    case 7 => 0xbebfbc70
    case 8 => 0x289b7ec6
    case 9 => 0xeaa127fa
    case 10 => 0xd4ef3085
    case 11 => 0x04881d05
    case 12 => 0xd9d4d039
    case 13 => 0xe6db99e5
    case 14 => 0x1fa27cf8
    case _ => 0xc4ac5665
  }

  function T4(i: nat): Word
  {
    match i
    case 0 => 0xf4292244
    case 1 => 0x432aff97
    case 2 => 0xab9423a7
    case 3 => 0xfc93a039
    case 4 => 0x655b59c3
    case 5 => 0x8f0ccc92
    case 6 => 0xffeff47d
    case 7 => 0x85845dd1
    case 8 => 0x6fa87e4f
    case 9 => 0xfe2ce6e0
    case 10 => 0xa3014314
    case 11 => 0x4e0811a1
    case 12 => 0xf7537e82
    case 13 => 0xbd3af235
    case 14 => 0x2ad7d2bb
    case _ => 0xeb86d391
  }

  function Shift(t: nat): nat
  {
    var i := t % 4;
    if t < 16 then (if i == 0 then 7 else if i == 1 then 12 else if i == 2 then 17 else 22)
    else if t < 32 then (if i == 0 then 5 else if i == 1 then 9 else if i == 2 then 14 else 20)
    else if t < 48 then (if i == 0 then 4 else if i == 1 then 11 else if i == 2 then 16 else 23)
    else (if i == 0 then 6 else if i == 1 then 10 else if i == 2 then 15 else 21)
  }

  /** The order in which the rounds take the words of the block. */
  function WordIndex(t: nat): (k: nat)
    ensures k < 16
  {
    if t < 16 then t else if t < 32 then Order2(t - 16) else if t < 48 then Order3(t - 32) else Order4(t - 48)
  }

  function Order2(i: nat): (k: nat)
    ensures k < 16
  {
    match i
    case 0 => 1
    case 1 => 6
    case 2 => 11
    case 3 => 0
    case 4 => 5
    case 5 => 10
    case 6 => 15
    case 7 => 4
    case 8 => 9
    case 9 => 14
    case 10 => 3
    case 11 => 8
    case 12 => 13
    case 13 => 2
    case 14 => 7
    case _ => 12
  }

  function Order3(i: nat): (k: nat)
    ensures k < 16
  {
    match i
    case 0 => 5
    case 1 => 8
    case 2 => 11
    case 3 => 14
    case 4 => 1
    case 5 => 4
    case 6 => 7
    case 7 => 10
    case 8 => 13
    case 9 => 0
    case 10 => 3
    case 11 => 6
    case 12 => 9
    case 13 => 12
    case 14 => 15
    case _ => 2
  }

  function Order4(i: nat): (k: nat)
    ensures k < 16
  {
    match i
    case 0 => 0
    case 1 => 7
    case 2 => 14
    case 3 => 5
    case 4 => 12
    case 5 => 3
    case 6 => 10
    case 7 => 1
    case 8 => 8
    case 9 => 15
    case 10 => 6
    case 11 => 13
    case 12 => 4
    case 13 => 11
    case 14 => 2
    case _ => 9
  }

  function BlockWord(block: Block, k: nat): Word
    requires k < 16
  {
    WordOfLE(block[4 * k..4 * k + 4])
  }

  function Aux(t: nat, x: Word, y: Word, z: Word): Word
  {
    if t < 16 then Aux1(x, y, z) else if t < 32 then Aux2(x, y, z) else if t < 48 then Aux3(x, y, z) else Aux4(x, y, z)
  }

  /** [abcd k s i]: a = b + ((a + F(b,c,d) + X[k] + T[i]) <<< s), then the registers shift. */
  function Step(s: State, t: nat, x: Word): State
  {
    State(s.d, Add(s.b, Rotl(Add(Add(Add(s.a, Aux(t, s.b, s.c, s.d)), x), T(t)), Shift(t))), s.b, s.c)
  }

  function Steps(s: State, block: Block, t: nat): State
    decreases t, block
  {
    if t == 0 then s else Step(Steps(s, block, t - 1), t - 1, BlockWord(block, WordIndex(t - 1)))
  }

  function AddStates(s: State, r: State): State
  {
    State(Add(s.a, r.a), Add(s.b, r.b), Add(s.c, r.c), Add(s.d, r.d))
  }

  function Compress(s: State, block: Block): State
  {
    AddStates(s, Steps(s, block, 64))
  }

  // ---------------------------------------------------------------- words as little-endian bytes

  function LEBytes(ws: seq<Word>): (bs: seq<Byte>)
    ensures |bs| == 4 * |ws|
  {
    if ws == [] then [] else LEBytes(ws[..|ws| - 1]) + BytesLE(ws[|ws| - 1])
  }

  function LEWords(bs: seq<Byte>): (ws: seq<Word>)
    requires |bs| % 4 == 0
    ensures |ws| == |bs| / 4
  {
    if bs == [] then [] else LEWords(bs[..|bs| - 4]) + [WordOfLE(bs[|bs| - 4..])]
  }

  /** MD5Decode undoes MD5Encode. */
  lemma {:induction false} DecodeEncode(ws: seq<Word>)
    ensures LEWords(LEBytes(ws)) == ws
  {
    if ws != [] {
      var k := |ws| - 1;
      DecodeEncode(ws[..k]);
      SplitWordLE(ws[k]);
      var bs := LEBytes(ws);
      assert bs[..|bs| - 4] == LEBytes(ws[..k]) && bs[|bs| - 4..] == BytesLE(ws[k]);
      assert ws == ws[..k] + [ws[k]];
    }
  }

  /** MD5Encode undoes MD5Decode. */
  lemma {:induction false} EncodeDecode(bs: seq<Byte>)
    requires |bs| % 4 == 0
    ensures LEBytes(LEWords(bs)) == bs
  {
    if bs != [] {
      var k := |bs| - 4;
      EncodeDecode(bs[..k]);
      JoinWordLE(bs[k..]);
      var ws := LEWords(bs);
      assert ws[..|ws| - 1] == LEWords(bs[..k]) && ws[|ws| - 1] == WordOfLE(bs[k..]);
      assert bs == bs[..k] + bs[k..];
    }
  }

  lemma {:induction false} LEWordAt(bs: seq<Byte>, j: nat)
    requires |bs| % 4 == 0 && 4 * j < |bs|
    ensures LEWords(bs)[j] == WordOfLE(bs[4 * j..4 * j + 4])
    decreases |bs|
  {
    var k := |bs| - 4;
    if 4 * j < k {
      LEWordAt(bs[..k], j);
      assert bs[..k][4 * j..4 * j + 4] == bs[4 * j..4 * j + 4];
    } else {
      assert 4 * j == k && bs[k..] == bs[4 * j..4 * j + 4];
    }
  }

  function StateBytes(s: State): seq<Byte>
  {
    LEBytes([s.a, s.b, s.c, s.d])
  }

  /** A 64-bit count as two words, low word first. */
  function LengthField(bits: nat): (f: seq<Byte>)
    ensures |f| == 8
  {
    LEBytes([bits % B, bits / B % B])
  }

  /** The padded message; the length field is the number of bits, modulo 2^64. */
  function Pad(m: seq<Byte>): (p: seq<Byte>)
    ensures |p| % 64 == 0
  {
    m + PadBytes(|m|, LengthField(8 * |m|))
  }

  function Digest(m: seq<Byte>): seq<Byte>
  {
    StateBytes(Blocks(Compress, INIT, Pad(m)))
  }

  // ---------------------------------------------------------------- streaming gives the digest

  /** What MD5Final feeds to a context that counted this many bits. */
  function FinalPad(bits: nat): seq<Byte>
  {
    PadBytes(bits / 8, LengthField(bits))
  }

  lemma WrappedField(bits: nat)
    ensures LengthField(bits % TWO64) == LengthField(bits)
  {
    var q, r := bits / TWO64, bits % TWO64;
    assert bits == TWO64 * q + r;
    assert r == B * (r / B) + r % B;
    Remainder(bits, B, B * q + r / B, r % B);
    var h := r / B;
    assert 0 <= h < B;
    Remainder(B * q + h, B, q, h);
  }

  lemma PadPosition(m: nat, n: nat, field: seq<Byte>)
    requires |field| == 8 && m % 64 == n % 64
    ensures PadBytes(m, field) == PadBytes(n, field)
  {
    var j := m / 64 - n / 64;
    assert 55 - m == (55 - n) - 64 * j;
    assert 55 - n == 64 * ((55 - n) / 64) + (55 - n) % 64;
    Remainder(55 - m, 64, (55 - n) / 64 - j, (55 - n) % 64);
  }

  lemma WrappedPad(n: nat)
    ensures FinalPad((8 * n) % TWO64) == PadBytes(n, LengthField(8 * n))
  {
    WrappedField(8 * n);
    var q, r := (8 * n) / TWO64, (8 * n) % TWO64;
    assert 8 * n == TWO64 * q + r;
    var m := n - 0x2000_0000_0000_0000 * q;
    assert 8 * m == r;
    assert n == m + 64 * (0x80_0000_0000_0000 * q);
    assert m == 64 * (m / 64) + m % 64;
    Remainder(n, 64, 0x80_0000_0000_0000 * q + m / 64, m % 64);
    PadPosition(m, n, LengthField(8 * n));
  }

  /** MD5Init, any number of MD5Update calls, MD5Final: the digest of the concatenation. */
  lemma SplitDigest(buf: Block, parts: seq<seq<Byte>>)
    ensures var c := FeedParts(Compress, Ctx(0, INIT, buf), parts);
            var m := Concat(parts);
            StateBytes(Feed(Compress, c, FinalPad((8 * |m|) % TWO64)).state) == Digest(m)
  {
    WrappedPad(|Concat(parts)|);
    SplitFold(Compress, INIT, buf, parts, LengthField(8 * |Concat(parts)|));
  }
}
