/** libmd5.c: the context that is updated in place, with its two-word bit count. */
module Md5Stream {
  import opened WordArith
  import opened Bits
  import opened BlockHash
  import opened Md5

  // ---------------------------------------------------------------- MD5Transform

  // The macros: a += f(b,c,d) + x + ac; a = rotl(a, s); a += b.

  method FF(a: Word, b: Word, c: Word, d: Word, x: Word, s: nat, ac: Word, ghost t: nat, ghost k: nat, ghost s0: State,
            ghost block: Block)
    returns (a': Word)
    requires 0 <= t < 16 && State(a, b, c, d) == Steps(s0, block, t)
    requires k == WordIndex(t) && x == BlockWord(block, k) && s == Shift(t) && ac == T(t)
    ensures State(d, a', b, c) == Steps(s0, block, t + 1)
  {
    a' := Add(a, Add(Add(Aux1(b, c, d), x), ac));
    AddChain(a, Aux1(b, c, d), x, ac);
    a' := Rotl(a', s);
    a' := Add(a', b);
    AddComm(Rotl(Add(Add(Add(a, Aux1(b, c, d)), x), ac), s), b);
  }

  method GG(a: Word, b: Word, c: Word, d: Word, x: Word, s: nat, ac: Word, ghost t: nat, ghost k: nat, ghost s0: State,
            ghost block: Block)
    returns (a': Word)
    requires 16 <= t < 32 && State(a, b, c, d) == Steps(s0, block, t)
    requires k == WordIndex(t) && x == BlockWord(block, k) && s == Shift(t) && ac == T(t)
    ensures State(d, a', b, c) == Steps(s0, block, t + 1)
  {
    a' := Add(a, Add(Add(Aux2(b, c, d), x), ac));
    AddChain(a, Aux2(b, c, d), x, ac);
    a' := Rotl(a', s);
    a' := Add(a', b);
    AddComm(Rotl(Add(Add(Add(a, Aux2(b, c, d)), x), ac), s), b);
  }

  method HH(a: Word, b: Word, c: Word, d: Word, x: Word, s: nat, ac: Word, ghost t: nat, ghost k: nat, ghost s0: State,
            ghost block: Block)
    returns (a': Word)
    requires 32 <= t < 48 && State(a, b, c, d) == Steps(s0, block, t)
    requires k == WordIndex(t) && x == BlockWord(block, k) && s == Shift(t) && ac == T(t)
    ensures State(d, a', b, c) == Steps(s0, block, t + 1)
  {
    a' := Add(a, Add(Add(Aux3(b, c, d), x), ac));
    AddChain(a, Aux3(b, c, d), x, ac);
    a' := Rotl(a', s);
    a' := Add(a', b);
    AddComm(Rotl(Add(Add(Add(a, Aux3(b, c, d)), x), ac), s), b);
  }

  method II(a: Word, b: Word, c: Word, d: Word, x: Word, s: nat, ac: Word, ghost t: nat, ghost k: nat, ghost s0: State,
            ghost block: Block)
    returns (a': Word)
    requires 48 <= t < 64 && State(a, b, c, d) == Steps(s0, block, t)
    requires k == WordIndex(t) && x == BlockWord(block, k) && s == Shift(t) && ac == T(t)
    ensures State(d, a', b, c) == Steps(s0, block, t + 1)
  {
    a' := Add(a, Add(Add(Aux4(b, c, d), x), ac));
    AddChain(a, Aux4(b, c, d), x, ac);
    a' := Rotl(a', s);
    a' := Add(a', b);
    AddComm(Rotl(Add(Add(Add(a, Aux4(b, c, d)), x), ac), s), b);
  }

  // The four rounds of the transform.

  method Round1(x: array<Word>, a0: Word, b0: Word, c0: Word, d0: Word, ghost s0: State, ghost block: Block)
    returns (a: Word, b: Word, c: Word, d: Word)
    requires x.Length == 64 && (forall j :: 0 <= j < 16 ==> x[j] == BlockWord(block, j))
    requires State(a0, b0, c0, d0) == Steps(s0, block, 0)
    ensures State(a, b, c, d) == Steps(s0, block, 16)
  {
    a, b, c, d := a0, b0, c0, d0;
    a := FF(a, b, c, d, x[0], 7, 0xd76aa478, 0, 0, s0, block);
    d := FF(d, a, b, c, x[1], 12, 0xe8c7b756, 1, 1, s0, block);
    c := FF(c, d, a, b, x[2], 17, 0x242070db, 2, 2, s0, block);
    b := FF(b, c, d, a, x[3], 22, 0xc1bdceee, 3, 3, s0, block);
    a := FF(a, b, c, d, x[4], 7, 0xf57c0faf, 4, 4, s0, block);
    d := FF(d, a, b, c, x[5], 12, 0x4787c62a, 5, 5, s0, block);
    c := FF(c, d, a, b, x[6], 17, 0xa8304613, 6, 6, s0, block);
    b := FF(b, c, d, a, x[7], 22, 0xfd469501, 7, 7, s0, block);
    a := FF(a, b, c, d, x[8], 7, 0x698098d8, 8, 8, s0, block);
    d := FF(d, a, b, c, x[9], 12, 0x8b44f7af, 9, 9, s0, block);
    c := FF(c, d, a, b, x[10], 17, 0xffff5bb1, 10, 10, s0, block);
    b := FF(b, c, d, a, x[11], 22, 0x895cd7be, 11, 11, s0, block);
    a := FF(a, b, c, d, x[12], 7, 0x6b901122, 12, 12, s0, block);
    d := FF(d, a, b, c, x[13], 12, 0xfd987193, 13, 13, s0, block);
    c := FF(c, d, a, b, x[14], 17, 0xa679438e, 14, 14, s0, block);
    b := FF(b, c, d, a, x[15], 22, 0x49b40821, 15, 15, s0, block);
  }

  method Round2(x: array<Word>, a0: Word, b0: Word, c0: Word, d0: Word, ghost s0: State, ghost block: Block)
    returns (a: Word, b: Word, c: Word, d: Word)
    requires x.Length == 64 && (forall j :: 0 <= j < 16 ==> x[j] == BlockWord(block, j))
    requires State(a0, b0, c0, d0) == Steps(s0, block, 16)
    ensures State(a, b, c, d) == Steps(s0, block, 32)
  {
    a, b, c, d := a0, b0, c0, d0;
    a := GG(a, b, c, d, x[1], 5, 0xf61e2562, 16, 1, s0, block);
    d := GG(d, a, b, c, x[6], 9, 0xc040b340, 17, 6, s0, block);
    c := GG(c, d, a, b, x[11], 14, 0x265e5a51, 18, 11, s0, block);
    b := GG(b, c, d, a, x[0], 20, 0xe9b6c7aa, 19, 0, s0, block);
    a := GG(a, b, c, d, x[5], 5, 0xd62f105d, 20, 5, s0, block);
    d := GG(d, a, b, c, x[10], 9, 0x2441453, 21, 10, s0, block);
    c := GG(c, d, a, b, x[15], 14, 0xd8a1e681, 22, 15, s0, block);
    b := GG(b, c, d, a, x[4], 20, 0xe7d3fbc8, 23, 4, s0, block);
    a := GG(a, b, c, d, x[9], 5, 0x21e1cde6, 24, 9, s0, block);
    d := GG(d, a, b, c, x[14], 9, 0xc33707d6, 25, 14, s0, block);
    c := GG(c, d, a, b, x[3], 14, 0xf4d50d87, 26, 3, s0, block);
    b := GG(b, c, d, a, x[8], 20, 0x455a14ed, 27, 8, s0, block);
    a := GG(a, b, c, d, x[13], 5, 0xa9e3e905, 28, 13, s0, block);
    d := GG(d, a, b, c, x[2], 9, 0xfcefa3f8, 29, 2, s0, block);
    c := GG(c, d, a, b, x[7], 14, 0x676f02d9, 30, 7, s0, block);
    b := GG(b, c, d, a, x[12], 20, 0x8d2a4c8a, 31, 12, s0, block);
  }

  method Round3(x: array<Word>, a0: Word, b0: Word, c0: Word, d0: Word, ghost s0: State, ghost block: Block)
    returns (a: Word, b: Word, c: Word, d: Word)
    requires x.Length == 64 && (forall j :: 0 <= j < 16 ==> x[j] == BlockWord(block, j))
    requires State(a0, b0, c0, d0) == Steps(s0, block, 32)
    ensures State(a, b, c, d) == Steps(s0, block, 48)
  {
    a, b, c, d := a0, b0, c0, d0;
    a := HH(a, b, c, d, x[5], 4, 0xfffa3942, 32, 5, s0, block);
    d := HH(d, a, b, c, x[8], 11, 0x8771f681, 33, 8, s0, block);
    c := HH(c, d, a, b, x[11], 16, 0x6d9d6122, 34, 11, s0, block);
    b := HH(b, c, d, a, x[14], 23, 0xfde5380c, 35, 14, s0, block);
    a := HH(a, b, c, d, x[1], 4, 0xa4beea44, 36, 1, s0, block);
    d := HH(d, a, b, c, x[4], 11, 0x4bdecfa9, 37, 4, s0, block);
    c := HH(c, d, a, b, x[7], 16, 0xf6bb4b60, 38, 7, s0, block);
    b := HH(b, c, d, a, x[10], 23, 0xbebfbc70, 39, 10, s0, block);
    a := HH(a, b, c, d, x[13], 4, 0x289b7ec6, 40, 13, s0, block);
    d := HH(d, a, b, c, x[0], 11, 0xeaa127fa, 41, 0, s0, block);
    c := HH(c, d, a, b, x[3], 16, 0xd4ef3085, 42, 3, s0, block);
    b := HH(b, c, d, a, x[6], 23, 0x4881d05, 43, 6, s0, block);
    a := HH(a, b, c, d, x[9], 4, 0xd9d4d039, 44, 9, s0, block);
    d := HH(d, a, b, c, x[12], 11, 0xe6db99e5, 45, 12, s0, block);
    c := HH(c, d, a, b, x[15], 16, 0x1fa27cf8, 46, 15, s0, block);
    b := HH(b, c, d, a, x[2], 23, 0xc4ac5665, 47, 2, s0, block);
  }

  method Round4(x: array<Word>, a0: Word, b0: Word, c0: Word, d0: Word, ghost s0: State, ghost block: Block)
    returns (a: Word, b: Word, c: Word, d: Word)
    requires x.Length == 64 && (forall j :: 0 <= j < 16 ==> x[j] == BlockWord(block, j))
    requires State(a0, b0, c0, d0) == Steps(s0, block, 48)
    ensures State(a, b, c, d) == Steps(s0, block, 64)
  {
    a, b, c, d := a0, b0, c0, d0;
    a := II(a, b, c, d, x[0], 6, 0xf4292244, 48, 0, s0, block);
    d := II(d, a, b, c, x[7], 10, 0x432aff97, 49, 7, s0, block);
    c := II(c, d, a, b, x[14], 15, 0xab9423a7, 50, 14, s0, block);
    b := II(b, c, d, a, x[5], 21, 0xfc93a039, 51, 5, s0, block);
    a := II(a, b, c, d, x[12], 6, 0x655b59c3, 52, 12, s0, block);
    d := II(d, a, b, c, x[3], 10, 0x8f0ccc92, 53, 3, s0, block);
    c := II(c, d, a, b, x[10], 15, 0xffeff47d, 54, 10, s0, block);
    b := II(b, c, d, a, x[1], 21, 0x85845dd1, 55, 1, s0, block);
    a := II(a, b, c, d, x[8], 6, 0x6fa87e4f, 56, 8, s0, block);
    d := II(d, a, b, c, x[15], 10, 0xfe2ce6e0, 57, 15, s0, block);
    c := II(c, d, a, b, x[6], 15, 0xa3014314, 58, 6, s0, block);
    b := II(b, c, d, a, x[13], 21, 0x4e0811a1, 59, 13, s0, block);
    a := II(a, b, c, d, x[4], 6, 0xf7537e82, 60, 4, s0, block);
    d := II(d, a, b, c, x[11], 10, 0xbd3af235, 61, 11, s0, block);
    c := II(c, d, a, b, x[2], 15, 0x2ad7d2bb, 62, 2, s0, block);
    b := II(b, c, d, a, x[9], 21, 0xeb86d391, 63, 9, s0, block);
  }

  // ---------------------------------------------------------------- MD5Encode, MD5Decode

  /** The first len / 4 words of input as little-endian bytes. */
  method Encode(output: array<Byte>, input: seq<Word>, len: nat)
    requires len % 4 == 0 && len <= output.Length && len / 4 <= |input|
    modifies output
    ensures output[..len] == LEBytes(input[..len / 4])
    ensures output[len..] == old(output[len..])
  {
    var i, j := 0, 0;
    ghost var n := len / 4;
    assert len == 4 * n;
    while j < len
      invariant j == 4 * i && 0 <= i <= n
      invariant output[..j] == LEBytes(input[..i])
      invariant output[len..] == old(output[len..])
    {
      ghost var before: seq<Byte> := output[..j];
      output[j] := input[i] % 256;
      output[j + 1] := input[i] / 0x100 % 256;
      output[j + 2] := input[i] / 0x10000 % 256;
      output[j + 3] := input[i] / 0x1000000;
      assert output[..j + 4] == before + BytesLE(input[i]);
      assert input[..i + 1][..i] == input[..i];
      i := i + 1;
      j := j + 4;
    }
  }

  /** The first len bytes of input as little-endian words. */
  method Decode(output: array<Word>, input: seq<Byte>, len: nat)
    requires len % 4 == 0 && len <= |input| && len / 4 <= output.Length
    modifies output
    ensures output[..len / 4] == LEWords(input[..len])
  {
    var i, j := 0, 0;
    ghost var n := len / 4;
    assert len == 4 * n;
    while j < len
      invariant j == 4 * i && 0 <= i <= n
      invariant output[..i] == LEWords(input[..j])
    {
      ghost var before: seq<Word> := output[..i];
      output[i] := WordOfLE(input[j..j + 4]);
      assert output[..i + 1] == before + [output[i]];
      assert input[..j + 4][..j] == input[..j] && input[..j + 4][j..] == input[j..j + 4];
      i := i + 1;
      j := j + 4;
    }
  }

  /** MD5Transform on the state and one block. */
  method Transform(s: State, block: Block) returns (r: State)
    ensures r == Compress(s, block)
  {
    var x := new Word[64];
    Decode(x, block, 64);
    forall j | 0 <= j < 16 ensures x[j] == BlockWord(block, j) {
      LEWordAt(block, j);
      assert block[..64] == block && x[j] == x[..16][j];
    }
    var a, b, c, d := Round1(x, s.a, s.b, s.c, s.d, s, block);
    a, b, c, d := Round2(x, a, b, c, d, s, block);
    a, b, c, d := Round3(x, a, b, c, d, s, block);
    a, b, c, d := Round4(x, a, b, c, d, s, block);
    r := AddStates(s, State(a, b, c, d));
  }

  /** After the first i bytes the buffer is empty and the state is s. */
  ghost predicate AtBlock(c0: Ctx<State>, input: seq<Byte>, i: nat, s: State)
  {
    c0.Valid() && i <= |input| && Feed(Compress, c0, input[..i]).pos == 0 && Feed(Compress, c0, input[..i]).state == s
  }

  lemma NextBlock(c0: Ctx<State>, input: seq<Byte>, i: nat, s: State)
    requires AtBlock(c0, input, i, s) && i + 64 <= |input|
    ensures AtBlock(c0, input, i + 64, Compress(s, input[i..i + 64]))
  {
    hide Compress;
    FeedSlice(Compress, c0, input, i, 64);
    FeedWhole(Compress, Feed(Compress, c0, input[..i]), input[i..i + 64]);
  }

  /** The unsigned 32-bit length test of the loop over whole blocks. */
  predicate BlockLeft(i: nat, n: nat)
  {
    (i + 64) % B <= n
  }

  /** The test is right: it does not take a wrapped sum for a small one. */
  predicate TestRight(i: nat, n: nat)
  {
    BlockLeft(i, n) <==> i + 64 <= n
  }

  /** Where the loop may get to when index bytes were waiting. */
  predicate OnGrid(index: nat, i: nat)
    requires index <= 64
  {
    i % 64 == (64 - index) % 64
  }

  /** Inputs for which the sum never wraps. */
  predicate LoopSafe(index: nat, n: nat)
    requires index <= 64
  {
    n < B - 64 + (64 - index) % 64
  }

  lemma SafeStep(index: nat, i: nat, n: nat)
    requires index <= 64 && LoopSafe(index, n) && OnGrid(index, i) && i <= n
    ensures TestRight(i, n) && OnGrid(index, i + 64)
  {
    var r := (64 - index) % 64;
    assert i == 64 * (i / 64) + r;
    assert i + 64 == 64 * (i / 64 + 1) + r;
    Remainder(i + 64, 64, i / 64 + 1, r);
    Remainder(i + 64, B, 0, i + 64);
  }

  /** Exactly for longer inputs the loop gets to a place where the test is wrong, and compresses 64 bytes from there on,
      beyond the end of the input. */
  lemma LoopSafeExactly(index: nat, n: nat)
    requires index < 64 && n < B
    ensures LoopSafe(index, n) <==> forall i: nat :: OnGrid(index, i) && i <= n ==> TestRight(i, n)
    ensures !LoopSafe(index, n) ==> exists i :: 64 - index <= i <= n < i + 64 && OnGrid(index, i) && BlockLeft(i, n)
  {
    var r := (64 - index) % 64;
    if LoopSafe(index, n) {
      forall i: nat | OnGrid(index, i) && i <= n
        ensures TestRight(i, n)
      {
        SafeStep(index, i, n);
      }
    } else {
      var i := B - 64 + r;
      assert i == 64 * (B / 64 - 1) + r;
      Remainder(i, 64, B / 64 - 1, r);
      Remainder(i + 64, B, 1, r);
      assert OnGrid(index, i) && BlockLeft(i, n) && !TestRight(i, n);
    }
  }

  /** The loop over the whole blocks behind the first one. */
  method BulkBlocks(s0: State, input: seq<Byte>, index: nat, ghost c0: Ctx<State>) returns (s: State, i: nat)
    requires index < 64 && LoopSafe(index, |input|) && 64 - index <= |input| && AtBlock(c0, input, 64 - index, s0)
    ensures AtBlock(c0, input, i, s) && |input| < i + 64
  {
    hide AtBlock, LoopSafe, OnGrid;
    s := s0;
    i := 64 - index;
    GridStart(index);
    AtBlockInside(c0, input, i, s);
    while BlockLeft(i, |input|)
      invariant i <= |input| && OnGrid(index, i) && AtBlock(c0, input, i, s)
      decreases |input| - i
    {
      SafeStep(index, i, |input|);
      NextBlock(c0, input, i, s);
      s := Transform(s, input[i..i + 64]);
      i := i + 64;
    }
    SafeStep(index, i, |input|);
  }

  lemma GridStart(index: nat)
    requires index < 64
    ensures OnGrid(index, 64 - index)
  {}

  lemma AtBlockInside(c0: Ctx<State>, input: seq<Byte>, i: nat, s: State)
    requires AtBlock(c0, input, i, s)
    ensures i <= |input|
  {}

  // ---------------------------------------------------------------- the context

  class Md5Ctx {
    var count0: Word
    var count1: Word
    var state: State
    const buffer: array<Byte>

    ghost predicate Valid()
    {
      buffer.Length == 64
    }

    /** The 64-bit bit count that the two words hold. */
    ghost function Bits(): (n: nat)
      reads this
    {
      count1 * B + count0
    }

    ghost function Value(): (c: Ctx<State>)
      reads this, buffer
      requires Valid()
      ensures c.Valid()
    {
      Ctx(count0 / 8 % 64, state, buffer[..])
    }

    /** MD5Init. */
    constructor ()
      ensures Valid() && fresh(buffer) && Bits() == 0 && state == INIT && Value().pos == 0
    {
      count0, count1 := 0, 0;
      state := INIT;
      buffer := new Byte[64];
    }

    /** The carry test: the low word wrapped exactly when it ends up below what was added. */
    method AddBits(inputlen: Word)
      modifies this`count0, this`count1
      ensures count0 == (old(count0) + (8 * inputlen) % B) % B
      ensures Bits() == (old(Bits()) + 8 * inputlen) % TWO64
    {
      ghost var bits := Bits();
      var low := (8 * inputlen) % B;
      count0 := (count0 + low) % B;
      if count0 < low {
        count1 := (count1 + 1) % B;
      }
      count1 := (count1 + inputlen / 0x2000_0000) % B;
      CarryTest(old(count0), old(count1), inputlen, count0, count1);
    }

    /** MD5Update, for every input whose length test does not wrap. */
    method Update(input: seq<Byte>)
      requires Valid() && LoopSafe(Value().pos, |input|)
      modifies this, buffer
      ensures Valid() && Bits() == (old(Bits()) + 8 * |input|) % TWO64
      ensures Same(Value(), Feed(Compress, old(Value()), input))
    {
      ghost var c0 := Value();
      var inputlen := |input|;
      var index := count0 / 8 % 64;
      var partlen := 64 - index;
      PositionAfter(c0, input, count0);
      AddBits(inputlen);
      var i;
      index, i := Advance(index, input, partlen, c0);
      Store(index, input, i, c0);
    }

    /** Whole blocks, when the input reaches the end of the buffer. */
    method Advance(index0: nat, input: seq<Byte>, partlen: nat, ghost c0: Ctx<State>) returns (index: nat, i: nat)
      requires Valid() && index0 < 64 && partlen == 64 - index0 && LoopSafe(index0, |input|)
      requires c0 == Ctx(index0, state, buffer[..])
      modifies this`state, buffer
      ensures i <= |input| && index + (|input| - i) < 64
      ensures Same(Ctx(index, state, buffer[..]), Feed(Compress, c0, input[..i]))
    {
      if |input| >= partlen {
        i := FillAndBulk(index0, input, c0);
        index := 0;
      } else {
        index, i := index0, 0;
      }
    }

    /** Fills the buffer, compresses it, then compresses whole blocks straight from the input. */
    method FillAndBulk(index: nat, input: seq<Byte>, ghost c0: Ctx<State>) returns (i: nat)
      requires Valid() && index < 64 && 64 - index <= |input| && LoopSafe(index, |input|)
      requires c0 == Ctx(index, state, buffer[..])
      modifies this`state, buffer
      ensures i <= |input| < i + 64
      ensures Same(Ctx(0, state, buffer[..]), Feed(Compress, c0, input[..i]))
    {
      FillBuffer(index, input, c0);
      state, i := BulkBlocks(state, input, index, c0);
    }

    method FillBuffer(index: nat, input: seq<Byte>, ghost c0: Ctx<State>)
      requires Valid() && index < 64 && 64 - index <= |input|
      requires c0 == Ctx(index, state, buffer[..])
      modifies this`state, buffer
      ensures Same(Ctx(0, state, buffer[..]), Feed(Compress, c0, input[..64 - index]))
    {
      var partlen := 64 - index;
      FeedFill(Compress, c0, input[..partlen]);
      CopyIn(index, input, 0, partlen);
      assert input[0..partlen] == input[..partlen];
      ghost var full: Block := c0.buf[..index] + input[..partlen];
      assert buffer[..] == full;
      state := Transform(state, buffer[..]);
    }

    /** The last copy: the bytes that are left never overflow the buffer. */
    method Store(index: nat, input: seq<Byte>, i: nat, ghost c0: Ctx<State>)
      requires Valid() && c0.Valid() && i <= |input| && index + (|input| - i) < 64
      requires Same(Ctx(index, state, buffer[..]), Feed(Compress, c0, input[..i]))
      requires count0 / 8 % 64 == Feed(Compress, c0, input).pos
      modifies buffer
      ensures Same(Value(), Feed(Compress, c0, input))
    {
      hide Compress, Feed;
      StoredRest(Ctx(index, state, buffer[..]), c0, input, i);
      CopyIn(index, input, i, |input| - i);
    }

    method CopyIn(index: nat, input: seq<Byte>, i: nat, n: nat)
      requires Valid() && index + n <= 64 && i + n <= |input|
      modifies buffer
      ensures buffer[..] == old(buffer[..index]) + input[i..i + n] + old(buffer[index + n..])
    {
      forall j | 0 <= j < n {
        buffer[index + j] := input[i + j];
      }
    }

    /** MD5Final: pad to byte 56, append the bit count, write the state out. */
    method Final(digest: array<Byte>)
      requires Valid() && digest.Length == 16 && digest != buffer
      modifies this, buffer, digest
      ensures Valid()
      ensures digest[..] == StateBytes(Feed(Compress, old(Value()), FinalPad(old(Bits()))).state)
    {
      hide Compress, Feed, LoopSafe, Blocks;
      var index := count0 / 8 % 64;
      var padlen := if index < 56 then 56 - index else 120 - index;
      var bits := new Byte[8];
      Encode(bits, [count0, count1], 8);
      assert bits[..8] == bits[..] && [count0, count1][..2] == [count0, count1];
      var padding: seq<Byte> := [0x80] + Zeros(63);
      PaddingPrefix(count0, count1, padding, padlen);
      UpdateTwice(padding[..padlen], bits[..]);
      WriteState(digest);
    }

    method UpdateTwice(x: seq<Byte>, y: seq<Byte>)
      requires Valid() && |x| <= 64 && |y| <= 64
      modifies this, buffer
      ensures Valid()
      ensures Same(Value(), Feed(Compress, old(Value()), x + y))
    {
      ghost var c0 := Value();
      Update(x);
      ghost var c1 := Value();
      Update(y);
      SameFeed(Compress, c1, Feed(Compress, c0, x), y);
      FeedConcat(Compress, c0, x, y);
    }

    method WriteState(digest: array<Byte>)
      requires digest.Length == 16
      modifies digest
      ensures digest[..] == StateBytes(state)
    {
      Encode(digest, [state.a, state.b, state.c, state.d], 16);
      assert [state.a, state.b, state.c, state.d][..4] == [state.a, state.b, state.c, state.d];
      assert digest[..16] == digest[..];
    }
  }

  lemma StoredRest(c: Ctx<State>, c0: Ctx<State>, input: seq<Byte>, i: nat)
    requires c0.Valid() && i <= |input| && c.pos + (|input| - i) < 64 && Same(c, Feed(Compress, c0, input[..i]))
    ensures var n := |input| - i;
            Same(Ctx(c.pos + n, c.state, c.buf[..c.pos] + input[i..i + n] + c.buf[c.pos + n..]),
                 Feed(Compress, c0, input))
  {
    hide Compress, Feed;
    var n := |input| - i;
    assert input[..i + n] == input;
    FeedSlice(Compress, c0, input, i, n);
    ShortStored(Compress, c, Feed(Compress, c0, input[..i]), input[i..i + n]);
  }

  lemma {:induction false} ZerosPrefix(n: nat, k: nat)
    requires k <= n
    ensures Zeros(n)[..k] == Zeros(k)
  {
    if k < n {
      ZerosPrefix(n - 1, k);
      assert Zeros(n)[..k] == Zeros(n - 1)[..k];
    } else {
      assert Zeros(n)[..n] == Zeros(n);
    }
  }

  /** The byte position that the low count word shows is the one of the whole count. */
  lemma LowWordPosition(count0: Word, count1: Word) returns (q: nat)
    ensures (count1 * B + count0) / 8 == 64 * q + count0 / 8 % 64
  {
    var bits := count1 * B + count0;
    assert bits == 8 * (0x2000_0000 * count1 + count0 / 8) + count0 % 8;
    Remainder(bits, 8, 0x2000_0000 * count1 + count0 / 8, count0 % 8);
    q := 0x80_0000 * count1 + count0 / 8 / 64;
  }

  lemma ZeroCount(len: nat, q: nat, index: nat)
    requires len == 64 * q + index && index < 64
    ensures (55 - len) % 64 == (if index < 56 then 55 - index else 119 - index)
  {
    Remainder(55 - len, 64, (if index < 56 then 0 else -1) - q, if index < 56 then 55 - index else 119 - index);
  }

  /** The padding that the low count word selects is the one of the whole count. */
  lemma PadLength(count0: Word, count1: Word)
    ensures var bits := count1 * B + count0;
            var index := count0 / 8 % 64;
            && LengthField(bits) == LEBytes([count0, count1])
            && FinalPad(bits) == [0x80] + Zeros((if index < 56 then 56 - index else 120 - index) - 1)
                 + LengthField(bits)
  {
    hide LEBytes, Zeros;
    var bits := count1 * B + count0;
    Remainder(bits, B, count1, count0);
    var q := LowWordPosition(count0, count1);
    ZeroCount(bits / 8, q, count0 / 8 % 64);
  }

  lemma PaddingPrefix(count0: Word, count1: Word, padding: seq<Byte>, padlen: nat)
    requires padding == [0x80] + Zeros(63)
    requires padlen == var index := count0 / 8 % 64; if index < 56 then 56 - index else 120 - index
    ensures padlen <= 64 && padding[..padlen] + LEBytes([count0, count1]) == FinalPad(count1 * B + count0)
  {
    PadLength(count0, count1);
    ZerosPrefix(63, padlen - 1);
    assert padding[..padlen] == [0x80] + Zeros(padlen - 1);
  }

  lemma PositionAfter(c0: Ctx<State>, input: seq<Byte>, count0: Word)
    requires c0.Valid() && c0.pos == count0 / 8 % 64
    ensures Feed(Compress, c0, input).pos == (count0 + (8 * |input|) % B) % B / 8 % 64
  {
    hide Compress, Feed;
    FeedPosition(Compress, c0, input);
    BitPosition(count0, |input|, c0.pos);
  }

  lemma BitPosition(count0: Word, len: nat, p: nat)
    requires p == count0 / 8 % 64
    ensures (count0 + (8 * len) % B) % B / 8 % 64 == (p + len) % 64
  {
    var low, q := (8 * len) % B, (8 * len) / B;
    assert 8 * len == B * q + low;
    var m := len - 0x2000_0000 * q;
    assert low == 8 * m;
    var sum := count0 + low;
    var d, carry := sum % B, sum / B;
    assert sum == B * carry + d;
    assert count0 == 8 * (count0 / 8) + count0 % 8;
    var e := count0 / 8 + m - 0x2000_0000 * carry;
    assert d == 8 * e + count0 % 8;
    Remainder(d, 8, e, count0 % 8);
    assert count0 / 8 == 64 * (count0 / 8 / 64) + p;
    var s := p + len;
    assert s == 64 * (s / 64) + s % 64;
    assert e == 64 * (count0 / 8 / 64) + s - 0x2000_0000 * q - 0x2000_0000 * carry;
    Remainder(e, 64, count0 / 8 / 64 + s / 64 - 0x80_0000 * q - 0x80_0000 * carry, s % 64);
  }

  lemma CarryTest(c0: Word, c1: Word, len: Word, d0: Word, d1: Word)
    requires d0 == (c0 + (8 * len) % B) % B
    requires d1 == ((if d0 < (8 * len) % B then (c1 + 1) % B else c1) + len / 0x2000_0000) % B
    ensures d1 * B + d0 == (c1 * B + c0 + 8 * len) % TWO64
  {
    var low, high := (8 * len) % B, len / 0x2000_0000;
    assert 8 * len == B * high + low;
    var carry := if d0 < low then 1 else 0;
    assert c0 + low == B * carry + d0;
    var sum := c1 + carry + high;
    assert d1 == sum % B;
    assert sum == B * (sum / B) + d1;
    Remainder(c1 * B + c0 + 8 * len, TWO64, sum / B, d1 * B + d0);
  }

  // ---------------------------------------------------------------- a message in any number of parts

  /** The bits counted after one more part. */
  lemma BitsAdd(a: nat, b: nat)
    ensures ((8 * a) % TWO64 + 8 * b) % TWO64 == (8 * (a + b)) % TWO64
  {
    var q, r := (8 * a) / TWO64, (8 * a) % TWO64;
    assert 8 * a == TWO64 * q + r;
    var q', r' := (r + 8 * b) / TWO64, (r + 8 * b) % TWO64;
    assert r + 8 * b == TWO64 * q' + r';
    Remainder(8 * (a + b), TWO64, q + q', r');
  }

  /** The context has taken these bytes in. */
  ghost predicate Took(c: Ctx<State>, bits: nat, c0: Ctx<State>, m: seq<Byte>)
  {
    c0.Valid() && Same(c, Feed(Compress, c0, m)) && bits == (8 * |m|) % TWO64
  }

  lemma TookMore(c: Ctx<State>, c': Ctx<State>, bits: nat, c0: Ctx<State>, m: seq<Byte>, part: seq<Byte>)
    requires Took(c, bits, c0, m) && Same(c', Feed(Compress, c, part))
    ensures Took(c', (bits + 8 * |part|) % TWO64, c0, m + part)
  {
    hide Compress, Feed;
    SameFeed(Compress, c, Feed(Compress, c0, m), part);
    FeedConcat(Compress, c0, m, part);
    SameTrans(c', Feed(Compress, c, part), Feed(Compress, c0, m + part));
    assert |m + part| == |m| + |part|;
    BitsAdd(|m|, |part|);
  }

  lemma SameTrans(a: Ctx<State>, b: Ctx<State>, c: Ctx<State>)
    requires Same(a, b) && Same(b, c)
    ensures Same(a, c)
  {}

  lemma TookPosition(c: Ctx<State>, bits: nat, c0: Ctx<State>, m: seq<Byte>)
    requires Took(c, bits, c0, m) && c0.pos == 0
    ensures c.pos == |m| % 64
  {
    FeedPosition(Compress, c0, m);
  }

  lemma TookAll(c: Ctx<State>, bits: nat, c0: Ctx<State>, parts: seq<seq<Byte>>)
    requires Took(c, bits, c0, Concat(parts)) && c0 == Ctx(0, INIT, c0.buf)
    ensures StateBytes(Feed(Compress, c, FinalPad(bits)).state) == Digest(Concat(parts))
  {
    SplitIrrelevant(Compress, c0, parts);
    SameFeed(Compress, c, FeedParts(Compress, c0, parts), FinalPad(bits));
    SplitDigest(c0.buf, parts);
  }

  /** MD5Init, one MD5Update per part, MD5Final: the digest of the whole message, however it was cut. */
  method HashParts(parts: seq<seq<Byte>>) returns (digest: array<Byte>)
    requires forall k :: 0 <= k < |parts| ==> LoopSafe(|Concat(parts[..k])| % 64, |parts[k]|)
    ensures fresh(digest) && digest[..] == Digest(Concat(parts))
  {
    hide Took, LoopSafe, Same;
    var c := new Md5Ctx();
    ghost var c0 := c.Value();
    NothingTaken(c0);
    var k := 0;
    while k < |parts|
      invariant 0 <= k <= |parts| && c.Valid() && fresh(c) && fresh(c.buffer)
      invariant Took(c.Value(), c.Bits(), c0, Concat(parts[..k]))
    {
      ghost var before, bits, m := c.Value(), c.Bits(), Concat(parts[..k]);
      TookPosition(before, bits, c0, m);
      c.Update(parts[k]);
      TookMore(before, c.Value(), bits, c0, m, parts[k]);
      ConcatNext(parts, k);
      k := k + 1;
    }
    assert parts[..k] == parts;
    digest := new Byte[16];
    TookAll(c.Value(), c.Bits(), c0, parts);
    c.Final(digest);
  }

  lemma NothingTaken(c0: Ctx<State>)
    requires c0.Valid()
    ensures Took(c0, 0, c0, Concat([]))
  {}
}
