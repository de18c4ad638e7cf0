/** SHA-1 as a function of the whole message (FIPS 180-4, sections 5.1.1 and 6.1.2). */
module Sha1 {
  import opened WordArith
  import opened Bits
  import opened BlockHash

  datatype State = State(a: Word, b: Word, c: Word, d: Word, e: Word)

  const INIT: State := State(0x67452301, 0xEFCDAB89, 0x98BADCFE, 0x10325476, 0xC3D2E1F0)

  /** Word t of the message schedule of a block. */
  function Sched(block: Block, t: nat): Word
    decreases t, block
  {
    if t < 16 then WordOf(block[4 * t..4 * t + 4])
    else Rol1(BXor(BXor(BXor(Sched(block, t - 3), Sched(block, t - 8)), Sched(block, t - 14)), Sched(block, t - 16)))
  }

  /** The round function plus the round constant. */
  function Mix(t: nat, b: Word, c: Word, d: Word): Word
  {
    if t < 20 then Add(BXor(d, BAnd(b, BXor(c, d))), 0x5A827999)
    else if t < 40 then Add(BXor(BXor(b, c), d), 0x6ED9EBA1)
    else if t < 60 then Add(BOr(BAnd(b, c), BAnd(d, BOr(b, c))), 0x8F1BBCDC)
    else Add(BXor(BXor(b, c), d), 0xCA62C1D6)
  }

  function Round(s: State, t: nat, w: Word): State
  {
    State(Add(Add(Add(Rol5(s.a), s.e), w), Mix(t, s.b, s.c, s.d)), s.a, Rol30(s.b), s.c, s.d)
  }

  function Rounds(s: State, block: Block, t: nat): State
    decreases t, block
  {
    if t == 0 then s else Round(Rounds(s, block, t - 1), t - 1, Sched(block, t - 1))
  }

  function AddStates(s: State, r: State): State
  {
    State(Add(s.a, r.a), Add(s.b, r.b), Add(s.c, r.c), Add(s.d, r.d), Add(s.e, r.e))
  }

  function Compress(s: State, block: Block): State
  {
    AddStates(s, Rounds(s, block, 80))
  }

  /** The low byte of v >> (8 * k). */
  function Octet(v: nat, k: nat): Byte
    decreases k, v
  {
    if k == 0 then v % 256 else Octet(v / 256, k - 1)
  }

  /** A 64-bit number as eight bytes, most significant first. */
  function BE64(v: nat): (s: seq<Byte>)
    ensures |s| == 8
  {
    [Octet(v, 7), Octet(v, 6), Octet(v, 5), Octet(v, 4), Octet(v, 3), Octet(v, 2), Octet(v, 1), Octet(v, 0)]
  }

  /** What SHA_final feeds to a context that counted this many bytes. */
  function FinalPad(count: nat): seq<Byte>
  {
    PadBytes(count, BE64((count * 8) % TWO64))
  }

  /** The padded message; the length field is the number of bits, modulo 2^64. */
  function Pad(m: seq<Byte>): (p: seq<Byte>)
    ensures |p| % 64 == 0
  {
    m + PadBytes(|m|, BE64((8 * |m|) % TWO64))
  }

  function WordBytes(w: Word): seq<Byte>
  {
    [w / 0x1000000, w / 0x10000 % 256, w / 0x100 % 256, w % 256]
  }

  function StateBytes(s: State): (d: seq<Byte>)
    ensures |d| == 20
  {
    WordBytes(s.a) + WordBytes(s.b) + WordBytes(s.c) + WordBytes(s.d) + WordBytes(s.e)
  }

  function Digest(m: seq<Byte>): (d: seq<Byte>)
    ensures |d| == 20
  {
    StateBytes(Blocks(Compress, INIT, Pad(m)))
  }

  // ---------------------------------------------------------------- streaming gives the digest

  lemma ModDown(x: nat)
    ensures (x % TWO64) % 64 == x % 64
  {
    var r, q := x % TWO64, x / TWO64;
    assert x == TWO64 * q + r && r == 64 * (r / 64) + r % 64;
    Remainder(x, 64, 0x400_0000_0000_0000 * q + r / 64, r % 64);
  }

  lemma WrappedPad(n: nat)
    ensures FinalPad(n % TWO64) == PadBytes(n, BE64((8 * n) % TWO64))
  {
    var r, q := n % TWO64, n / TWO64;
    assert n == TWO64 * q + r;
    var s := (8 * r) % TWO64;
    Remainder(8 * n, TWO64, 8 * q + (8 * r) / TWO64, s);
    var j := 0x400_0000_0000_0000 * q;
    assert 55 - r == (55 - n) + 64 * j;
    var k := (55 - n) % 64;
    assert 55 - n == 64 * ((55 - n) / 64) + k;
    Remainder(55 - r, 64, (55 - n) / 64 + j, k);
  }

  /** A context of count n that absorbed m finishes with the digest of m, however m was cut into updates. */
  lemma FinalIsDigest(c: Ctx<State>, n: nat, m: seq<Byte>)
    requires Absorbed(Compress, INIT, c, m) && c.Valid() && n == |m| % TWO64
    ensures StateBytes(Feed(Compress, c, FinalPad(n)).state) == Digest(m)
  {
    WrappedPad(|m|);
    PaddedFold(Compress, INIT, c, m, BE64((8 * |m|) % TWO64));
  }

  /** One update with the whole message. */
  lemma FeedDigest(buf: Block, m: seq<Byte>)
    ensures StateBytes(Feed(Compress, Feed(Compress, Ctx(0, INIT, buf), m), FinalPad(|m| % TWO64)).state) == Digest(m)
  {
    var none := m[..0];
    NothingAbsorbed(Compress, INIT, buf, none);
    AbsorbAll(Compress, INIT, Ctx(0, INIT, buf), none, m);
    assert none + m == m;
    FinalIsDigest(Feed(Compress, Ctx(0, INIT, buf), m), |m| % TWO64, m);
  }

  /** SHA_init, any number of SHA_update calls, SHA_final: the digest of the concatenation. */
  lemma SplitDigest(buf: Block, parts: seq<seq<Byte>>)
    ensures var c := FeedParts(Compress, Ctx(0, INIT, buf), parts);
            var m := Concat(parts);
            StateBytes(Feed(Compress, c, FinalPad(|m| % TWO64)).state) == Digest(m)
  {
    WrappedPad(|Concat(parts)|);
    SplitFold(Compress, INIT, buf, parts, BE64((8 * |Concat(parts)|) % TWO64));
  }
}
