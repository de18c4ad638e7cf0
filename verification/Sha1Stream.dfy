/** The two SHA-1 implementations of sha.c, on a context that is updated in place. */
module Sha1Stream {
  import opened WordArith
  import opened Bits
  import opened BlockHash
  import opened Sha1

  // ---------------------------------------------------------------- the little-endian helpers

  function Ror27(x: Word): Word { BOr(x / 0x800_0000, (0x20 * x) % B) }
  function Ror2(x: Word): Word { BOr(x / 4, (0x4000_0000 * x) % B) }
  function Ror31(x: Word): Word { BOr(x / 0x8000_0000, (2 * x) % B) }

  /** bswap_32 of byteswap.h: the four bytes in reverse order. */
  function Bswap32(x: Word): Word
  {
    (x % 256) * 0x1000000 + (x / 0x100 % 256) * 0x10000 + (x / 0x10000 % 256) * 0x100 + x / 0x1000000
  }

  /** A little-endian load followed by a swap is a big-endian load. */
  lemma SwapLoads(b: seq<Byte>)
    requires |b| == 4
    ensures Bswap32(WordOfLE(b)) == WordOf(b)
  {
    JoinWordLE(b);
  }

  /** So a swap followed by a little-endian store is a big-endian store. */
  lemma SwapStores(w: Word)
    ensures WordOfLE(WordBytes(w)) == Bswap32(w)
  {
    SplitWord(w);
  }

  lemma RotationsAgree(x: Word)
    ensures Ror27(x) == Rol5(x) && Ror2(x) == Rol30(x) && Ror31(x) == Rol1(x)
  {
    BitwiseComm(Or, 32, x / 0x800_0000, (0x20 * x) % B);
    BitwiseComm(Or, 32, x / 4, (0x4000_0000 * x) % B);
    BitwiseComm(Or, 32, x / 0x8000_0000, (2 * x) % B);
  }

  /** Words 0..t of the schedule are in W and the registers hold the state after t rounds. */
  ghost predicate Reached(w: seq<Word>, s0: State, block: Block, t: nat, s: State)
  {
    && t <= |w| == 80
    && (forall j :: 0 <= j < t ==> w[j] == Sched(block, j))
    && s == Rounds(s0, block, t)
  }

  lemma ReachedNext(w: seq<Word>, s0: State, block: Block, t: nat, s: State, x: Word)
    requires Reached(w, s0, block, t, s) && t < 80 && x == Sched(block, t)
    ensures Reached(w[t := x], s0, block, t + 1, Round(s, t, x))
  {}

  /** E += ... ; B = ror2(B): one round that leaves the other registers where they are. */
  lemma MacroIsRound(a: Word, b: Word, c: Word, d: Word, e: Word, t: nat, w: Word, f: Word, k: Word)
    requires Add(f, k) == Mix(t, b, c, d)
    ensures State(Add(e, Add(Add(Add(Ror27(a), w), f), k)), a, Ror2(b), c, d) == Round(State(a, b, c, d, e), t, w)
  {
    RotationsAgree(a);
    RotationsAgree(b);
    AddRegroup(e, Rol5(a), w, f, k);
  }

  /** One more round from a state that a full schedule belongs to. */
  lemma RoundsNext(s0: State, block: Block, t: nat, w: seq<Word>)
    requires t < |w| == 80 && forall j :: 0 <= j < 80 ==> w[j] == Sched(block, j)
    ensures Rounds(s0, block, t + 1) == Round(Rounds(s0, block, t), t, w[t])
  {}

  /** The first SHA_F1: the word is loaded from the buffer. */
  method F1Load(W: array<Word>, t: nat, a: Word, b: Word, c: Word, d: Word, e: Word, buf: array<Byte>, ghost s0: State)
    returns (e': Word, b': Word)
    requires t < 16 && buf.Length == 64 && Reached(W[..], s0, buf[..], t, State(a, b, c, d, e))
    modifies W
    ensures Reached(W[..], s0, buf[..], t + 1, State(e', a, b', c, d))
  {
    ghost var w0 := W[..];
    SwapLoads(buf[4 * t..4 * t + 4]);
    assert buf[..][4 * t..4 * t + 4] == buf[4 * t..4 * t + 4];
    W[t] := Bswap32(WordOfLE(buf[4 * t..4 * t + 4]));
    MacroIsRound(a, b, c, d, e, t, W[t], BXor(d, BAnd(b, BXor(c, d))), 0x5A827999);
    ReachedNext(w0, s0, buf[..], t, State(a, b, c, d, e), W[t]);
    e' := Add(e, Add(Add(Add(Ror27(a), W[t]), BXor(d, BAnd(b, BXor(c, d)))), 0x5A827999));
    b' := Ror2(b);
    assert W[..] == w0[t := W[t]];
  }

  /** W[t] = ror31(...): the next schedule word. */
  method Extend(W: array<Word>, t: nat, ghost block: Block, ghost s0: State, ghost s: State)
    requires 16 <= t < 80 && Reached(W[..], s0, block, t, s)
    modifies W
    ensures W[..] == old(W[..])[t := Sched(block, t)]
  {
    RotationsAgree(BXor(BXor(BXor(W[t - 3], W[t - 8]), W[t - 14]), W[t - 16]));
    assert forall j :: 0 <= j < t ==> W[j] == Sched(block, j) by {
      assert forall j :: 0 <= j < t ==> W[j] == W[..][j];
    }
    W[t] := Ror31(BXor(BXor(BXor(W[t - 3], W[t - 8]), W[t - 14]), W[t - 16]));
  }

  /** The second SHA_F1. */
  method F1(W: array<Word>, t: nat, a: Word, b: Word, c: Word, d: Word, e: Word, ghost block: Block, ghost s0: State)
    returns (e': Word, b': Word)
    requires 16 <= t < 20 && Reached(W[..], s0, block, t, State(a, b, c, d, e))
    modifies W
    ensures Reached(W[..], s0, block, t + 1, State(e', a, b', c, d))
  {
    ghost var w0 := W[..];
    Extend(W, t, block, s0, State(a, b, c, d, e));
    MacroIsRound(a, b, c, d, e, t, W[t], BXor(d, BAnd(b, BXor(c, d))), 0x5A827999);
    ReachedNext(w0, s0, block, t, State(a, b, c, d, e), W[t]);
    e' := Add(e, Add(Add(Add(Ror27(a), W[t]), BXor(d, BAnd(b, BXor(c, d)))), 0x5A827999));
    b' := Ror2(b);
  }

  method F2(W: array<Word>, t: nat, a: Word, b: Word, c: Word, d: Word, e: Word, ghost block: Block, ghost s0: State)
    returns (e': Word, b': Word)
    requires 20 <= t < 40 && Reached(W[..], s0, block, t, State(a, b, c, d, e))
    modifies W
    ensures Reached(W[..], s0, block, t + 1, State(e', a, b', c, d))
  {
    ghost var w0 := W[..];
    Extend(W, t, block, s0, State(a, b, c, d, e));
    MacroIsRound(a, b, c, d, e, t, W[t], BXor(BXor(b, c), d), 0x6ED9EBA1);
    ReachedNext(w0, s0, block, t, State(a, b, c, d, e), W[t]);
    e' := Add(e, Add(Add(Add(Ror27(a), W[t]), BXor(BXor(b, c), d)), 0x6ED9EBA1));
    b' := Ror2(b);
  }

  method F3(W: array<Word>, t: nat, a: Word, b: Word, c: Word, d: Word, e: Word, ghost block: Block, ghost s0: State)
    returns (e': Word, b': Word)
    requires 40 <= t < 60 && Reached(W[..], s0, block, t, State(a, b, c, d, e))
    modifies W
    ensures Reached(W[..], s0, block, t + 1, State(e', a, b', c, d))
  {
    ghost var w0 := W[..];
    Extend(W, t, block, s0, State(a, b, c, d, e));
    MacroIsRound(a, b, c, d, e, t, W[t], BOr(BAnd(b, c), BAnd(d, BOr(b, c))), 0x8F1BBCDC);
    ReachedNext(w0, s0, block, t, State(a, b, c, d, e), W[t]);
    e' := Add(e, Add(Add(Add(Ror27(a), W[t]), BOr(BAnd(b, c), BAnd(d, BOr(b, c)))), 0x8F1BBCDC));
    b' := Ror2(b);
  }

  method F4(W: array<Word>, t: nat, a: Word, b: Word, c: Word, d: Word, e: Word, ghost block: Block, ghost s0: State)
    returns (e': Word, b': Word)
    requires 60 <= t < 80 && Reached(W[..], s0, block, t, State(a, b, c, d, e))
    modifies W
    ensures Reached(W[..], s0, block, t + 1, State(e', a, b', c, d))
  {
    ghost var w0 := W[..];
    Extend(W, t, block, s0, State(a, b, c, d, e));
    MacroIsRound(a, b, c, d, e, t, W[t], BXor(BXor(b, c), d), 0xCA62C1D6);
    ReachedNext(w0, s0, block, t, State(a, b, c, d, e), W[t]);
    e' := Add(e, Add(Add(Add(Ror27(a), W[t]), BXor(BXor(b, c), d)), 0xCA62C1D6));
    b' := Ror2(b);
  }

  // Each stage is one loop of the unrolled transform; the register names rotate through the five macro calls.

  method Rounds0To20(W: array<Word>, s0: State, buf: array<Byte>) returns (a: Word, b: Word, c: Word, d: Word, e: Word)
    requires W.Length == 80 && buf.Length == 64
    modifies W
    ensures Reached(W[..], s0, buf[..], 20, State(a, b, c, d, e))
  {
    a, b, c, d, e := s0.a, s0.b, s0.c, s0.d, s0.e;
    var t := 0;
    while t < 15
      invariant t in {0, 5, 10, 15}
      invariant Reached(W[..], s0, buf[..], t, State(a, b, c, d, e))
    {
      e, b := F1Load(W, t, a, b, c, d, e, buf, s0);
      d, a := F1Load(W, t + 1, e, a, b, c, d, buf, s0);
      c, e := F1Load(W, t + 2, d, e, a, b, c, buf, s0);
      b, d := F1Load(W, t + 3, c, d, e, a, b, buf, s0);
      a, c := F1Load(W, t + 4, b, c, d, e, a, buf, s0);
      t := t + 5;
    }
    e, b := F1Load(W, t, a, b, c, d, e, buf, s0);
    d, a := F1(W, t + 1, e, a, b, c, d, buf[..], s0);
    c, e := F1(W, t + 2, d, e, a, b, c, buf[..], s0);
    b, d := F1(W, t + 3, c, d, e, a, b, buf[..], s0);
    a, c := F1(W, t + 4, b, c, d, e, a, buf[..], s0);
  }

  method Rounds20To40(W: array<Word>, a0: Word, b0: Word, c0: Word, d0: Word, e0: Word, ghost block: Block,
                      ghost s0: State)
    returns (a: Word, b: Word, c: Word, d: Word, e: Word)
    requires Reached(W[..], s0, block, 20, State(a0, b0, c0, d0, e0))
    modifies W
    ensures Reached(W[..], s0, block, 40, State(a, b, c, d, e))
  {
    a, b, c, d, e := a0, b0, c0, d0, e0;
    var t := 20;
    while t < 40
      invariant t in {20, 25, 30, 35, 40}
      invariant Reached(W[..], s0, block, t, State(a, b, c, d, e))
    {
      e, b := F2(W, t, a, b, c, d, e, block, s0);
      d, a := F2(W, t + 1, e, a, b, c, d, block, s0);
      c, e := F2(W, t + 2, d, e, a, b, c, block, s0);
      b, d := F2(W, t + 3, c, d, e, a, b, block, s0);
      a, c := F2(W, t + 4, b, c, d, e, a, block, s0);
      t := t + 5;
    }
  }

  method Rounds40To60(W: array<Word>, a0: Word, b0: Word, c0: Word, d0: Word, e0: Word, ghost block: Block,
                      ghost s0: State)
    returns (a: Word, b: Word, c: Word, d: Word, e: Word)
    requires Reached(W[..], s0, block, 40, State(a0, b0, c0, d0, e0))
    modifies W
    ensures Reached(W[..], s0, block, 60, State(a, b, c, d, e))
  {
    a, b, c, d, e := a0, b0, c0, d0, e0;
    var t := 40;
    while t < 60
      invariant t in {40, 45, 50, 55, 60}
      invariant Reached(W[..], s0, block, t, State(a, b, c, d, e))
    {
      e, b := F3(W, t, a, b, c, d, e, block, s0);
      d, a := F3(W, t + 1, e, a, b, c, d, block, s0);
      c, e := F3(W, t + 2, d, e, a, b, c, block, s0);
      b, d := F3(W, t + 3, c, d, e, a, b, block, s0);
      a, c := F3(W, t + 4, b, c, d, e, a, block, s0);
      t := t + 5;
    }
  }

  method Rounds60To80(W: array<Word>, a0: Word, b0: Word, c0: Word, d0: Word, e0: Word, ghost block: Block,
                      ghost s0: State)
    returns (a: Word, b: Word, c: Word, d: Word, e: Word)
    requires Reached(W[..], s0, block, 60, State(a0, b0, c0, d0, e0))
    modifies W
    ensures Reached(W[..], s0, block, 80, State(a, b, c, d, e))
  {
    a, b, c, d, e := a0, b0, c0, d0, e0;
    var t := 60;
    while t < 80
      invariant t in {60, 65, 70, 75, 80}
      invariant Reached(W[..], s0, block, t, State(a, b, c, d, e))
    {
      e, b := F4(W, t, a, b, c, d, e, block, s0);
      d, a := F4(W, t + 1, e, a, b, c, d, block, s0);
      c, e := F4(W, t + 2, d, e, a, b, c, block, s0);
      b, d := F4(W, t + 3, c, d, e, a, b, block, s0);
      a, c := F4(W, t + 4, b, c, d, e, a, block, s0);
      t := t + 5;
    }
  }

  /** The schedule of the generic transform. */
  method Schedule(buf: array<Byte>) returns (W: array<Word>)
    requires buf.Length == 64
    ensures fresh(W) && W.Length == 80 && forall j :: 0 <= j < 80 ==> W[j] == Sched(buf[..], j)
  {
    W := new Word[80];
    var t := 0;
    while t < 16
      invariant 0 <= t <= 16
      invariant forall j :: 0 <= j < t ==> W[j] == Sched(buf[..], j)
    {
      assert buf[..][4 * t..4 * t + 4] == buf[4 * t..4 * t + 4];
      W[t] := WordOf(buf[4 * t..4 * t + 4]);
      t := t + 1;
    }
    while t < 80
      invariant 16 <= t <= 80
      invariant forall j :: 0 <= j < t ==> W[j] == Sched(buf[..], j)
    {
      W[t] := Rol1(BXor(BXor(BXor(W[t - 3], W[t - 8]), W[t - 14]), W[t - 16]));
      t := t + 1;
    }
  }

  /** tmp += f + K, by the range that t is in. */
  method AddMix(tmp: Word, t: nat, b: Word, c: Word, d: Word) returns (r: Word)
    ensures r == Add(tmp, Mix(t, b, c, d))
  {
    if t < 20 {
      r := Add(tmp, Add(BXor(d, BAnd(b, BXor(c, d))), 0x5A827999));
    } else if t < 40 {
      r := Add(tmp, Add(BXor(BXor(b, c), d), 0x6ED9EBA1));
    } else if t < 60 {
      r := Add(tmp, Add(BOr(BAnd(b, c), BAnd(d, BOr(b, c))), 0x8F1BBCDC));
    } else {
      r := Add(tmp, Add(BXor(BXor(b, c), d), 0xCA62C1D6));
    }
  }

  /** The rounds of the generic transform: one loop that shifts the registers. */
  method RoundLoop(W: array<Word>, s0: State, ghost block: Block) returns (a: Word, b: Word, c: Word, d: Word, e: Word)
    requires W.Length == 80 && forall j :: 0 <= j < 80 ==> W[j] == Sched(block, j)
    ensures State(a, b, c, d, e) == Rounds(s0, block, 80)
  {
    a, b, c, d, e := s0.a, s0.b, s0.c, s0.d, s0.e;
    var t := 0;
    while t < 80
      invariant 0 <= t <= 80
      invariant State(a, b, c, d, e) == Rounds(s0, block, t)
    {
      var tmp := Add(Add(Rol5(a), e), W[t]);
      tmp := AddMix(tmp, t, b, c, d);
      RoundsNext(s0, block, t, W[..]);
      e := d;
      d := c;
      c := Rol30(b);
      b := a;
      a := tmp;
      t := t + 1;
    }
  }

  // ---------------------------------------------------------------- the context

  class ShaCtx {
    var count: nat
    var state: State
    const buf: array<Byte>

    ghost predicate Valid()
      reads this
    {
      buf.Length == 64 && count < TWO64
    }

    /** The buffered bytes and the state, without the total. */
    ghost function Value(): (c: Ctx<State>)
      reads this, buf
      requires Valid()
      ensures c.Valid()
    {
      Ctx(count % 64, state, buf[..])
    }

    /** SHA_init; the buffer is whatever memory held. */
    constructor ()
      ensures Valid() && fresh(buf) && count == 0 && state == INIT
    {
      count := 0;
      state := INIT;
      buf := new Byte[64];
    }

    /** The generic transform: a full schedule, then 80 rounds that shift the registers. */
    method TransformSimple()
      requires Valid()
      modifies this`state
      ensures state == Compress(old(state), buf[..])
    {
      var W := Schedule(buf);
      ghost var block: Block := buf[..];
      var a, b, c, d, e := RoundLoop(W, state, block);
      state := AddStates(state, State(a, b, c, d, e));
    }

    /** The unrolled transform: the schedule is made as it is used and the macros rotate the register names. */
    method TransformFast()
      requires Valid()
      modifies this`state
      ensures state == Compress(old(state), buf[..])
    {
      var W := new Word[80];
      ghost var block: Block := buf[..];
      var a, b, c, d, e := Rounds0To20(W, state, buf);
      a, b, c, d, e := Rounds20To40(W, a, b, c, d, e, block, state);
      a, b, c, d, e := Rounds40To60(W, a, b, c, d, e, block, state);
      a, b, c, d, e := Rounds60To80(W, a, b, c, d, e, block, state);
      state := AddStates(state, State(a, b, c, d, e));
    }

    /** SHA_update of the generic version: byte by byte. */
    method UpdateSimple(data: seq<Byte>)
      requires Valid()
      modifies this, buf
      ensures Valid() && count == (old(count) + |data|) % TWO64
      ensures Value() == Feed(Compress, old(Value()), data)
    {
      ghost var c0 := Value();
      var i := count % 64;
      count := (count + |data|) % TWO64;
      var p := 0;
      while p < |data|
        invariant 0 <= p <= |data| && 0 <= i < 64
        invariant count == (old(count) + |data|) % TWO64
        invariant Ctx(i, state, buf[..]) == Feed(Compress, c0, data[..p])
      {
        FeedStep(Compress, c0, data, p);
        ghost var before: Block := buf[..];
        buf[i] := data[p];
        assert buf[..] == before[i := data[p]];
        i := i + 1;
        if i == 64 {
          TransformSimple();
          i := 0;
        }
        p := p + 1;
      }
      assert data[..p] == data;
      PositionAfter(c0, data, old(count));
    }

    /** SHA_update of the little-endian version: whole blocks by memcpy, the rest byte by byte. */
    method UpdateFast(data: seq<Byte>)
      requires Valid()
      modifies this, buf
      ensures Valid() && count == (old(count) + |data|) % TWO64
      ensures Value() == Feed(Compress, old(Value()), data)
    {
      ghost var c0 := Value();
      var i := count % 64;
      count := (count + |data|) % TWO64;
      var p := 0;
      var len := |data|;
      assert data[..0] == [];
      while len > 64 - i
        invariant 0 <= i < 64 && len == |data| - p && 0 <= p <= |data|
        invariant count == (old(count) + |data|) % TWO64
        invariant Ctx(i, state, buf[..]) == Feed(Compress, c0, data[..p])
        decreases len
      {
        var n := 64 - i;
        FeedConcat(Compress, c0, data[..p], data[p..p + n]);
        assert data[..p] + data[p..p + n] == data[..p + n];
        BulkStep(i, data, p);
        len := len - n;
        p := p + n;
        i := 0;
      }
      FeedConcat(Compress, c0, data[..p], data[p..]);
      assert data[..p] + data[p..] == data;
      i := TailBytes(i, data[p..]);
      PositionAfter(c0, data, old(count));
    }

    /** The byte loop after the bulk copies. */
    method TailBytes(i0: nat, data: seq<Byte>) returns (i: nat)
      requires Valid() && i0 < 64
      modifies this`state, buf
      ensures i < 64 && Ctx(i, state, buf[..]) == Feed(Compress, Ctx(i0, old(state), old(buf[..])), data)
    {
      ghost var c0 := Ctx(i0, state, buf[..]);
      i := i0;
      var p := 0;
      while p < |data|
        invariant 0 <= p <= |data| && i < 64
        invariant Ctx(i, state, buf[..]) == Feed(Compress, c0, data[..p])
      {
        FeedStep(Compress, c0, data, p);
        ghost var before: Block := buf[..];
        buf[i] := data[p];
        assert buf[..] == before[i := data[p]];
        i := i + 1;
        if i == 64 {
          TransformFast();
          i := 0;
        }
        p := p + 1;
      }
      assert data[..p] == data;
    }

    /** Fills the buffer from position i and compresses it. */
    method BulkStep(i: nat, data: seq<Byte>, p: nat)
      requires Valid() && i < 64 && p + (64 - i) <= |data|
      modifies this`state, buf
      ensures Ctx(0, state, buf[..]) == Feed(Compress, Ctx(i, old(state), old(buf[..])), data[p..p + (64 - i)])
    {
      ghost var chunk := data[p..p + (64 - i)];
      FeedFill(Compress, Ctx(i, state, buf[..]), chunk);
      ghost var full: Block := buf[..i] + chunk;
      CopyIn(i, data, p, 64 - i);
      assert buf[..] == full;
      TransformFast();
    }

    /** The copy of n bytes into the buffer from position i on. */
    method CopyIn(i: nat, data: seq<Byte>, p: nat, n: nat)
      requires Valid() && i + n <= 64 && p + n <= |data|
      modifies buf
      ensures buf[..] == old(buf[..i]) + data[p..p + n] + old(buf[i + n..])
    {
      forall j | 0 <= j < n {
        buf[i + j] := data[p + j];
      }
    }

    /** The one bit and the zeros of the padding. */
    method PadZeros()
      requires Valid()
      modifies this, buf
      ensures Valid()
      ensures Value() == Feed(Compress, old(Value()), [0x80] + Zeros((55 - old(count)) % 64))
    {
      ghost var c0, n: int := Value(), count;
      ghost var fed: seq<Byte> := [0x80];
      UpdateSimple([0x80]);
      ghost var zeros := 0;
      ModDown(n + 1);
      ZerosEnd(n, 0);
      assert [0x80] + Zeros(0) == [0x80];
      while count % 64 != 56
        invariant Valid() && zeros <= (55 - n) % 64
        invariant count % 64 == (n + 1 + zeros) % 64
        invariant fed == [0x80] + Zeros(zeros) && Value() == Feed(Compress, c0, fed)
        decreases (55 - n) % 64 - zeros
      {
        ZerosEnd(n, zeros);
        FeedConcat(Compress, c0, fed, [0]);
        NextCount(count, n + 1 + zeros);
        UpdateSimple([0]);
        fed := fed + [0];
        zeros := zeros + 1;
      }
      ZerosEnd(n, zeros);
    }

    /** The last eight bytes of the padding. */
    method LengthBytes(cnt: nat)
      requires Valid()
      modifies this, buf
      ensures Valid() && Value() == Feed(Compress, old(Value()), BE64(cnt))
    {
      ghost var c0, field := Value(), BE64(cnt);
      var i := 0;
      while i < 8
        invariant 0 <= i <= 8 && Valid()
        invariant Value() == Feed(Compress, c0, field[..i])
      {
        var tmp := Octet(cnt, 7 - i);
        OctetAt(cnt, i);
        FeedConcat(Compress, c0, field[..i], [tmp]);
        assert field[..i] + [tmp] == field[..i + 1];
        UpdateSimple([tmp]);
        i := i + 1;
      }
      assert field[..8] == field;
    }

    /** The state, as bytes, at the start of the buffer. */
    method StoreDigest()
      requires Valid()
      modifies buf
      ensures buf[..20] == StateBytes(state)
    {
      var i := 0;
      while i < 5
        invariant 0 <= i <= 5
        invariant buf[..4 * i] == StateBytes(state)[..4 * i]
      {
        var tmp := StateWord(state, i);
        StateWordBytes(state, i);
        ghost var before: seq<Byte> := buf[..4 * i];
        buf[4 * i] := tmp / 0x1000000;
        buf[4 * i + 1] := tmp / 0x10000 % 256;
        buf[4 * i + 2] := tmp / 0x100 % 256;
        buf[4 * i + 3] := tmp % 256;
        assert buf[..4 * i + 4] == before + WordBytes(tmp);
        i := i + 1;
      }
    }

    /** SHA_final: one bit, zeros, the bit count, then the state as bytes at the start of the buffer. */
    method Final()
      requires Valid()
      modifies this, buf
      ensures Valid()
      ensures buf[..20] == StateBytes(Feed(Compress, old(Value()), FinalPad(old(count))).state)
    {
      ghost var c0 := Value();
      var cnt := (count * 8) % TWO64;
      FeedConcat(Compress, c0, [0x80] + Zeros((55 - count) % 64), BE64(cnt));
      PadZeros();
      LengthBytes(cnt);
      StoreDigest();
    }
  }

  lemma OctetAt(v: nat, i: nat)
    requires i < 8
    ensures BE64(v)[i] == Octet(v, 7 - i)
  {}

  lemma NextCount(count: nat, x: nat)
    requires count % 64 == x % 64
    ensures ((count + 1) % TWO64) % 64 == (x + 1) % 64
  {
    ModDown(count + 1);
    ModAdd(count, 1);
    ModAdd(x, 1);
  }

  function StateWord(s: State, i: nat): Word
    requires i < 5
  {
    if i == 0 then s.a else if i == 1 then s.b else if i == 2 then s.c else if i == 3 then s.d else s.e
  }

  lemma StateWordBytes(s: State, i: nat)
    requires i < 5
    ensures StateBytes(s)[..4 * i + 4] == StateBytes(s)[..4 * i] + WordBytes(StateWord(s, i))
  {}

  /** The counter and the buffer position stay in step. */
  lemma PositionAfter(c0: Ctx<State>, data: seq<Byte>, n: nat)
    requires c0.Valid() && c0.pos == n % 64
    ensures Feed(Compress, c0, data).pos == ((n + |data|) % TWO64) % 64
  {
    FeedPosition(Compress, c0, data);
    ModDown(n + |data|);
    ModAdd(n, |data|);
  }

  lemma ModAdd(n: nat, k: nat)
    ensures (n % 64 + k) % 64 == (n + k) % 64
  {
    var r := n % 64 + k;
    assert n == 64 * (n / 64) + n % 64 && r == 64 * (r / 64) + r % 64;
    Remainder(n + k, 64, n / 64 + r / 64, r % 64);
  }
}
