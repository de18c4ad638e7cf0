/** Hashing a byte stream in 64-byte blocks, for any compression function: the frame that SHA-1 and MD5 share. */
module BlockHash {
  import opened WordArith

  type Block = b: seq<Byte> | |b| == 64 witness seq(64, i => 0)

  /** pos bytes of buf wait for their block to fill; the rest of buf is left over from earlier blocks. */
  datatype Ctx<S> = Ctx(pos: nat, state: S, buf: Block)
  {
    ghost predicate Valid() { pos < 64 }
  }

  /** One byte goes into the buffer; a full buffer is compressed. */
  function PutByte<S>(f: (S, Block) -> S, c: Ctx<S>, b: Byte): (r: Ctx<S>)
    requires c.Valid()
    ensures r.Valid()
  {
    var buf: Block := c.buf[c.pos := b];
    if c.pos == 63 then Ctx(0, f(c.state, buf), buf) else Ctx(c.pos + 1, c.state, buf)
  }

  function Feed<S>(f: (S, Block) -> S, c: Ctx<S>, data: seq<Byte>): (r: Ctx<S>)
    requires c.Valid()
    ensures r.Valid()
    decreases |data|
  {
    if data == [] then c else PutByte(f, Feed(f, c, data[..|data| - 1]), data[|data| - 1])
  }

  lemma FeedStep<S>(f: (S, Block) -> S, c: Ctx<S>, data: seq<Byte>, k: nat)
    requires c.Valid() && k < |data|
    ensures Feed(f, c, data[..k + 1]) == PutByte(f, Feed(f, c, data[..k]), data[k])
  {
    assert data[..k + 1][..k] == data[..k];
  }

  /** Feeding a message in two pieces is feeding it whole. */
  lemma {:induction false} FeedConcat<S>(f: (S, Block) -> S, c: Ctx<S>, x: seq<Byte>, y: seq<Byte>)
    requires c.Valid()
    ensures Feed(f, c, x + y) == Feed(f, Feed(f, c, x), y)
    decreases |y|
  {
    if y == [] {
      assert x + y == x;
    } else {
      var k := |y| - 1;
      assert (x + y)[..|x + y| - 1] == x + y[..k];
      FeedConcat(f, c, x, y[..k]);
    }
  }

  lemma {:induction false} FeedPosition<S>(f: (S, Block) -> S, c: Ctx<S>, data: seq<Byte>)
    requires c.Valid()
    ensures Feed(f, c, data).pos == (c.pos + |data|) % 64
    decreases |data|
  {
    if data != [] { FeedPosition(f, c, data[..|data| - 1]); }
  }

  /** Bytes that do not fill the buffer are only stored. */
  lemma {:induction false} FeedShort<S>(f: (S, Block) -> S, c: Ctx<S>, data: seq<Byte>)
    requires c.Valid() && c.pos + |data| < 64
    ensures Feed(f, c, data) == Ctx(c.pos + |data|, c.state, c.buf[..c.pos] + data + c.buf[c.pos + |data|..])
    decreases |data|
  {
    var i := c.pos;
    if data == [] {
      assert c.buf[..i] + data + c.buf[i..] == c.buf;
    } else {
      var k := |data| - 1;
      FeedShort(f, c, data[..k]);
      var was := c.buf[..i] + data[..k] + c.buf[i + k..];
      assert was[i + k := data[k]] == c.buf[..i] + data + c.buf[i + |data|..];
    }
  }

  /** Bytes that exactly fill the buffer are stored and compressed once. */
  lemma FeedFill<S>(f: (S, Block) -> S, c: Ctx<S>, data: seq<Byte>)
    requires c.Valid() && c.pos + |data| == 64
    ensures Feed(f, c, data) == Ctx(0, f(c.state, c.buf[..c.pos] + data), c.buf[..c.pos] + data)
  {
    var i, k := c.pos, |data| - 1;
    FeedShort(f, c, data[..k]);
    var was := c.buf[..i] + data[..k] + c.buf[i + k..];
    assert was[63 := data[k]] == c.buf[..i] + data;
  }

  // ---------------------------------------------------------------- stale buffer bytes

  /** Contexts that differ at most in stale buffer bytes. */
  ghost predicate Same<S>(c: Ctx<S>, d: Ctx<S>)
  {
    c.Valid() && c.pos == d.pos && c.state == d.state && c.buf[..c.pos] == d.buf[..c.pos]
  }

  lemma SameByte<S>(f: (S, Block) -> S, c: Ctx<S>, d: Ctx<S>, b: Byte)
    requires Same(c, d)
    ensures Same(PutByte(f, c, b), PutByte(f, d, b))
  {
    var i := c.pos;
    var x, y := c.buf[i := b], d.buf[i := b];
    assert x[..i + 1] == c.buf[..i] + [b] && y[..i + 1] == d.buf[..i] + [b];
    if i == 63 {
      assert x == x[..i + 1] && y == y[..i + 1];
    }
  }

  /** Stale bytes never matter. */
  lemma {:induction false} SameFeed<S>(f: (S, Block) -> S, c: Ctx<S>, d: Ctx<S>, data: seq<Byte>)
    requires Same(c, d)
    ensures Same(Feed(f, c, data), Feed(f, d, data))
    decreases |data|
  {
    if data != [] {
      var k := |data| - 1;
      SameFeed(f, c, d, data[..k]);
      SameByte(f, Feed(f, c, data[..k]), Feed(f, d, data[..k]), data[k]);
    }
  }

  lemma SliceJoin(input: seq<Byte>, i: nat, n: nat)
    requires i + n <= |input|
    ensures input[..i] + input[i..i + n] == input[..i + n]
  {}

  lemma FeedSlice<S>(f: (S, Block) -> S, c: Ctx<S>, input: seq<Byte>, i: nat, n: nat)
    requires c.Valid() && i + n <= |input|
    ensures Feed(f, Feed(f, c, input[..i]), input[i..i + n]) == Feed(f, c, input[..i + n])
  {
    FeedConcat(f, c, input[..i], input[i..i + n]);
    SliceJoin(input, i, n);
  }

  /** Bytes that do not fill the buffer are stored behind those of any equivalent context. */
  lemma ShortStored<S>(f: (S, Block) -> S, c: Ctx<S>, d: Ctx<S>, rest: seq<Byte>)
    requires Same(c, d) && c.pos + |rest| < 64
    ensures Same(Ctx(c.pos + |rest|, c.state, c.buf[..c.pos] + rest + c.buf[c.pos + |rest|..]), Feed(f, d, rest))
  {
    FeedShort(f, c, rest);
    SameFeed(f, c, d, rest);
  }

  /** A whole block that meets an empty buffer is compressed as it is. */
  lemma FeedWhole<S>(f: (S, Block) -> S, c: Ctx<S>, chunk: Block)
    requires c.Valid() && c.pos == 0
    ensures Feed(f, c, chunk) == Ctx(0, f(c.state, chunk), chunk)
  {
    FeedFill(f, c, chunk);
    assert c.buf[..0] + chunk == chunk;
  }

  // ---------------------------------------------------------------- whole messages

  /** The compression folded over the blocks of a message. */
  function Blocks<S>(f: (S, Block) -> S, init: S, m: seq<Byte>): S
    requires |m| % 64 == 0
    decreases |m|
  {
    if m == [] then init else f(Blocks(f, init, m[..|m| - 64]), m[|m| - 64..])
  }

  function Zeros(k: nat): (z: seq<Byte>)
    ensures |z| == k
  {
    if k == 0 then [] else Zeros(k - 1) + [0]
  }

  lemma {:induction false} ZeroAt(k: nat, i: nat)
    requires i < k
    ensures Zeros(k)[i] == 0
  {
    if i < k - 1 { ZeroAt(k - 1, i); }
  }

  /** The message "abc", whose digests the standards give. */
  const ABC: seq<Byte> := [0x61, 0x62, 0x63]

  /** What completes a message of len bytes: a one bit, zeros up to byte 56 of a block, the length field. */
  function PadBytes(len: nat, field: seq<Byte>): (p: seq<Byte>)
    requires |field| == 8
    ensures (len + |p|) % 64 == 0
  {
    PadAligns(len);
    [0x80] + Zeros((55 - len) % 64) + field
  }

  /** The zeros stop exactly when eight bytes are left in the block. */
  lemma ZerosEnd(len: nat, z: nat)
    requires z <= (55 - len) % 64
    ensures (len + 1 + z) % 64 == 56 <==> z == (55 - len) % 64
  {
    var k, q := (55 - len) % 64, (55 - len) / 64;
    assert 55 - len == 64 * q + k;
    assert len + 1 + z == 64 * (-q) + (56 - (k - z));
    if k - z <= 56 {
      Remainder(len + 1 + z, 64, -q, 56 - (k - z));
    } else {
      Remainder(len + 1 + z, 64, -q - 1, 120 - (k - z));
    }
  }

  lemma PadAligns(len: nat)
    ensures (len + 1 + (55 - len) % 64 + 8) % 64 == 0
  {
    var k, q := (55 - len) % 64, (55 - len) / 64;
    assert 55 - len == 64 * q + k;
    assert len + 1 + k + 8 == 64 * (1 - q);
  }

  /** c has absorbed exactly the bytes m, starting from init. */
  ghost predicate Absorbed<S>(f: (S, Block) -> S, init: S, c: Ctx<S>, m: seq<Byte>)
  {
    var full := |m| - |m| % 64;
    && c.pos == |m| % 64
    && c.state == Blocks(f, init, m[..full])
    && c.buf[..c.pos] == m[full..]
  }

  lemma NothingAbsorbed<S>(f: (S, Block) -> S, init: S, buf: Block, none: seq<Byte>)
    requires none == []
    ensures Absorbed(f, init, Ctx(0, init, buf), none)
  {}

  lemma AbsorbByte<S>(f: (S, Block) -> S, init: S, c: Ctx<S>, m: seq<Byte>, b: Byte)
    requires Absorbed(f, init, c, m)
    ensures Absorbed(f, init, PutByte(f, c, b), m + [b])
  {
    var i := c.pos;
    var full := |m| - i;
    var m' := m + [b];
    var buf := c.buf[i := b];
    assert buf[..i + 1] == c.buf[..i] + [b];
    if i == 63 {
      assert |m'| % 64 == 0 && m'[..|m'|] == m';
      assert m'[..|m'| - 64] == m[..full];
      assert m'[|m'| - 64..] == m[full..] + [b] == buf;
    } else {
      assert |m'| % 64 == i + 1;
      assert m'[..full] == m[..full] && m'[full..] == m[full..] + [b];
    }
  }

  /** Whatever was absorbed, feeding data absorbs data behind it. */
  lemma {:induction false} AbsorbAll<S>(f: (S, Block) -> S, init: S, c: Ctx<S>, m: seq<Byte>, data: seq<Byte>)
    requires Absorbed(f, init, c, m)
    ensures Absorbed(f, init, Feed(f, c, data), m + data)
    decreases |data|
  {
    if data == [] {
      assert m + data == m;
    } else {
      var k := |data| - 1;
      AbsorbAll(f, init, c, m, data[..k]);
      AbsorbByte(f, init, Feed(f, c, data[..k]), m + data[..k], data[k]);
      assert m + data == (m + data[..k]) + [data[k]];
    }
  }

  /** Absorbing the padding too leaves the fold over the padded message. */
  lemma PaddedFold<S>(f: (S, Block) -> S, init: S, c: Ctx<S>, m: seq<Byte>, field: seq<Byte>)
    requires Absorbed(f, init, c, m) && |field| == 8
    ensures Feed(f, c, PadBytes(|m|, field)).state == Blocks(f, init, m + PadBytes(|m|, field))
  {
    var p := m + PadBytes(|m|, field);
    AbsorbAll(f, init, c, m, PadBytes(|m|, field));
    assert p[..|p|] == p;
  }

  /** Starting from an empty context: the state is the fold over the padded message, however the message was cut. */
  lemma SplitFold<S>(f: (S, Block) -> S, init: S, buf: Block, parts: seq<seq<Byte>>, field: seq<Byte>)
    requires |field| == 8
    ensures var c := FeedParts(f, Ctx(0, init, buf), parts);
            var m := Concat(parts);
            Feed(f, c, PadBytes(|m|, field)).state == Blocks(f, init, m + PadBytes(|m|, field))
  {
    var c0 := Ctx(0, init, buf);
    var none, m := Concat(parts[..0]), Concat(parts);
    SplitIrrelevant(f, c0, parts);
    NothingAbsorbed(f, init, buf, none);
    AbsorbAll(f, init, c0, none, m);
    assert none + m == m;
    PaddedFold(f, init, Feed(f, c0, m), m, field);
  }

  // ---------------------------------------------------------------- any split of the input

  /** One update per part. */
  function FeedParts<S>(f: (S, Block) -> S, c: Ctx<S>, parts: seq<seq<Byte>>): (r: Ctx<S>)
    requires c.Valid()
    ensures r.Valid()
  {
    if parts == [] then c else Feed(f, FeedParts(f, c, parts[..|parts| - 1]), parts[|parts| - 1])
  }

  /** The context after the updates depends on the whole message only, not on how it was cut. */
  lemma {:induction false} SplitIrrelevant<S>(f: (S, Block) -> S, c: Ctx<S>, parts: seq<seq<Byte>>)
    requires c.Valid()
    ensures FeedParts(f, c, parts) == Feed(f, c, Concat(parts))
    decreases |parts|
  {
    if parts != [] {
      var k := |parts| - 1;
      SplitIrrelevant(f, c, parts[..k]);
      FeedConcat(f, c, Concat(parts[..k]), parts[k]);
    }
  }
}
