/** SHA-1 on 32-bit vectors, with the functions and constants of FIPS 180-4, sections 4.1.1, 4.2.1 and 5.3.1, and the
    digest of a known message. */
module Sha1Machine {
  import opened WordArith
  import opened Bits
  import opened BlockHash
  import opened WordBits
  import opened Sha1Functions
  import opened Sha1

  datatype Machine = Machine(a: bv32, b: bv32, c: bv32, d: bv32, e: bv32)

  function StateOf(s: Machine): State { State(Num(s.a), Num(s.b), Num(s.c), Num(s.d), Num(s.e)) }

  // ---------------------------------------------------------------- functions and constants

  function F(t: nat, x: bv32, y: bv32, z: bv32): bv32
  {
    if t < 20 then Ch(x, y, z) else if t < 40 then Parity(x, y, z) else if t < 60 then Maj(x, y, z)
    else Parity(x, y, z)
  }

  lemma NumCh(x: bv32, y: bv32, z: bv32)
    ensures BXor(Num(z), BAnd(Num(x), BXor(Num(y), Num(z)))) == Num(Ch(x, y, z))
  {
    hide Num, XorOf, AndOf, Ch;
    NumOp(y, z);
    NumOp(x, XorOf(y, z));
    NumOp(z, AndOf(x, XorOf(y, z)));
    ChoiceForm(x, y, z);
  }

  lemma NumParity(x: bv32, y: bv32, z: bv32)
    ensures BXor(BXor(Num(x), Num(y)), Num(z)) == Num(Parity(x, y, z))
  {
    hide Num, XorOf, Parity;
    NumOp(x, y);
    NumOp(XorOf(x, y), z);
    ParityForm(x, y, z);
  }

  lemma NumMaj(x: bv32, y: bv32, z: bv32)
    ensures BOr(BAnd(Num(x), Num(y)), BAnd(Num(z), BOr(Num(x), Num(y)))) == Num(Maj(x, y, z))
  {
    hide Num, AndOf, OrOf, Maj;
    NumOp(x, y);
    NumOp(z, OrOf(x, y));
    NumOp(AndOf(x, y), AndOf(z, OrOf(x, y)));
    MajorityForm(x, y, z);
  }

  /** The number whose square root gives the constant of round t. */
  function Radicand(t: nat): nat { if t < 20 then 2 else if t < 40 then 3 else if t < 60 then 5 else 10 }

  /** k is the integer part of 2^30 times the square root of n. */
  predicate IsRoot(k: nat, n: nat) { k * k <= n * 0x1000_0000_0000_0000 < (k + 1) * (k + 1) }

  lemma RootOnce(j: nat, k: nat, n: nat)
    requires IsRoot(j, n) && IsRoot(k, n)
    ensures j == k
  {
    Squares(j, k);
    Squares(k, j);
  }

  lemma Squares(j: nat, k: nat)
    ensures j < k ==> (j + 1) * (j + 1) <= k * k
  {
    if j < k {
      assert k * k == (j + 1) * (j + 1) + (k - j - 1) * (k + j + 1);
      assert (k - j - 1) * (k + j + 1) >= 0;
    }
  }

  function K(t: nat): bv32
  {
    if t < 20 then 0x5A827999 else if t < 40 then 0x6ED9EBA1 else if t < 60 then 0x8F1BBCDC else 0xCA62C1D6
  }

  lemma NumK(t: nat)
    ensures Num(K(t)) == if t < 20 then 0x5A827999 else if t < 40 then 0x6ED9EBA1 else if t < 60 then 0x8F1BBCDC
              else 0xCA62C1D6
    ensures IsRoot(Num(K(t)), Radicand(t))
  {
    hide Num;
    NumDigits(0x5A827999);
    NumDigits(0x6ED9EBA1);
    NumDigits(0x8F1BBCDC);
    NumDigits(0xCA62C1D6);
  }

  /** The round function and constant of every round are those of the standard. */
  lemma MixIs(t: nat, x: bv32, y: bv32, z: bv32, k: Word)
    requires IsRoot(k, Radicand(t))
    ensures Mix(t, Num(x), Num(y), Num(z)) == Add(Num(F(t, x, y, z)), k)
  {
    hide Num, Ch, Maj, Parity, IsRoot, K;
    NumK(t);
    RootOnce(k, Num(K(t)), Radicand(t));
    NumCh(x, y, z);
    NumParity(x, y, z);
    NumMaj(x, y, z);
  }

  /** The initial words are the bytes 01 23 .. ef, fe dc .. 10 and f0 e1 d2 c3, each word with its low byte first. */
  lemma InitialBytes()
    ensures var bytes := BytesLE(INIT.a) + BytesLE(INIT.b) + BytesLE(INIT.c) + BytesLE(INIT.d) + BytesLE(INIT.e);
            && |bytes| == 20
            && (forall i :: 0 <= i < 8 ==> bytes[i] == 0x01 + 0x22 * i)
            && (forall i :: 8 <= i < 16 ==> bytes[i] == 0xfe - 0x22 * (i - 8))
            && (forall i :: 16 <= i < 20 ==> bytes[i] == 0xf0 - 0x0f * (i - 16))
  {
    assert BytesLE(INIT.a) == [0x01, 0x23, 0x45, 0x67] && BytesLE(INIT.b) == [0x89, 0xab, 0xcd, 0xef];
    assert BytesLE(INIT.c) == [0xfe, 0xdc, 0xba, 0x98] && BytesLE(INIT.d) == [0x76, 0x54, 0x32, 0x10];
    assert BytesLE(INIT.e) == [0xf0, 0xe1, 0xd2, 0xc3];
  }

  // ---------------------------------------------------------------- rounds

  lemma NumLeft(v: bv32)
    ensures Rol1(Num(v)) == Num(Left1(v)) && Rol5(Num(v)) == Num(Left5(v)) && Rol30(Num(v)) == Num(Left30(v))
  {
    hide Num, Left1, Left5, Left30, Rotate, Pow, BOr;
    var x := Num(v);
    Powers();
    Rotate1(v);
    Rotate5(v);
    Rotate30(v);
    NumRotate(v, 1, 1, (2 * x) % B, x / 0x8000_0000);
    NumRotate(v, 5, 5, (0x20 * x) % B, x / 0x800_0000);
    NumRotate(v, 30, 30, (0x4000_0000 * x) % B, x / 4);
  }

  function RoundOf(s: Machine, t: nat, w: bv32): Machine
  {
    Machine(SumOf(SumOf(SumOf(Left5(s.a), s.e), w), SumOf(F(t, s.b, s.c, s.d), K(t))), s.a, Left30(s.b), s.c, s.d)
  }

  lemma RoundIs(s: Machine, t: nat, w: bv32)
    ensures Round(StateOf(s), t, Num(w)) == StateOf(RoundOf(s, t, w))
  {
    hide Num, Left1, Left5, Left30, F, Mix, IsRoot, K, SumOf;
    var f, k := F(t, s.b, s.c, s.d), K(t);
    NumLeft(s.a);
    NumLeft(s.b);
    NumK(t);
    MixIs(t, s.b, s.c, s.d, Num(k));
    NumSum(f, k);
    NumSum(Left5(s.a), s.e);
    NumSum(SumOf(Left5(s.a), s.e), w);
    NumSum(SumOf(SumOf(Left5(s.a), s.e), w), SumOf(f, k));
  }

  /** The next sixteen words of the schedule. */
  datatype Window = Window(w0: bv32, w1: bv32, w2: bv32, w3: bv32, w4: bv32, w5: bv32, w6: bv32, w7: bv32, w8: bv32,
                           w9: bv32, w10: bv32, w11: bv32, w12: bv32, w13: bv32, w14: bv32, w15: bv32)

  function Slide(w: Window): Window
  {
    Window(w.w1, w.w2, w.w3, w.w4, w.w5, w.w6, w.w7, w.w8, w.w9, w.w10, w.w11, w.w12, w.w13, w.w14, w.w15,
           Left1(w.w13 ^ w.w8 ^ w.w2 ^ w.w0))
  }

  ghost predicate Shows(block: Block, t: nat, w: Window)
  {
    && Sched(block, t) == Num(w.w0) && Sched(block, t + 1) == Num(w.w1) && Sched(block, t + 2) == Num(w.w2)
    && Sched(block, t + 3) == Num(w.w3) && Sched(block, t + 4) == Num(w.w4) && Sched(block, t + 5) == Num(w.w5)
    && Sched(block, t + 6) == Num(w.w6) && Sched(block, t + 7) == Num(w.w7) && Sched(block, t + 8) == Num(w.w8)
    && Sched(block, t + 9) == Num(w.w9) && Sched(block, t + 10) == Num(w.w10) && Sched(block, t + 11) == Num(w.w11)
    && Sched(block, t + 12) == Num(w.w12) && Sched(block, t + 13) == Num(w.w13) && Sched(block, t + 14) == Num(w.w14)
    && Sched(block, t + 15) == Num(w.w15)
  }

  lemma SlideShows(block: Block, t: nat, w: Window)
    requires Shows(block, t, w)
    ensures Shows(block, t + 1, Slide(w))
  {
    hide Num, Left1, XorOf;
    MixedForm(w.w13, w.w8, w.w2, w.w0);
    NumOp(w.w13, w.w8);
    NumOp(XorOf(w.w13, w.w8), w.w2);
    NumOp(XorOf(XorOf(w.w13, w.w8), w.w2), w.w0);
    NumLeft(w.w13 ^ w.w8 ^ w.w2 ^ w.w0);
    SixteenBack(block, t + 16);
  }

  lemma SixteenBack(block: Block, t: nat)
    requires t >= 16
    ensures Sched(block, t) == Rol1(BXor(BXor(BXor(Sched(block, t - 3), Sched(block, t - 8)), Sched(block, t - 14)),
                                         Sched(block, t - 16)))
  {}

  /** A state before round t and the words from t on. */
  datatype Point = Point(s: Machine, w: Window)

  ghost predicate At(init: State, block: Block, t: nat, p: Point)
  {
    Rounds(init, block, t) == StateOf(p.s) && Shows(block, t, p.w)
  }

  lemma AtStart(block: Block, p: Point)
    requires Shows(block, 0, p.w)
    ensures At(StateOf(p.s), block, 0, p)
  {}

  function One(p: Point, t: nat): Point { Point(RoundOf(p.s, t, p.w.w0), Slide(p.w)) }
  function Two(p: Point, t: nat): Point { One(One(p, t), t + 1) }
  function Four(p: Point, t: nat): Point { Two(Two(p, t), t + 2) }
  function Sixteen(p: Point, t: nat): Point { Four(Four(Four(Four(p, t), t + 4), t + 8), t + 12) }

  lemma OneIs(init: State, block: Block, p: Point, t: nat)
    requires At(init, block, t, p)
    ensures At(init, block, t + 1, One(p, t))
  {
    hide Num, RoundOf, Slide, StateOf, Round, Sched;
    RoundIs(p.s, t, p.w.w0);
    assert Rounds(init, block, t + 1) == Round(Rounds(init, block, t), t, Sched(block, t));
    SlideShows(block, t, p.w);
  }

  lemma TwoIs(init: State, block: Block, p: Point, t: nat)
    requires At(init, block, t, p)
    ensures At(init, block, t + 2, Two(p, t))
  {
    hide At, One;
    OneIs(init, block, p, t);
    OneIs(init, block, One(p, t), t + 1);
    assert t + 1 + 1 == t + 2;
  }

  lemma FourIs(init: State, block: Block, p: Point, t: nat)
    requires At(init, block, t, p)
    ensures At(init, block, t + 4, Four(p, t))
  {
    hide At, Two;
    TwoIs(init, block, p, t);
    TwoIs(init, block, Two(p, t), t + 2);
    assert t + 2 + 2 == t + 4;
  }

  lemma SixteenIs(init: State, block: Block, p: Point, t: nat)
    requires At(init, block, t, p)
    ensures At(init, block, t + 16, Sixteen(p, t))
  {
    hide At, Four;
    var p4 := Four(p, t);
    var p8 := Four(p4, t + 4);
    FourIs(init, block, p, t);
    FourIs(init, block, p4, t + 4);
    FourIs(init, block, p8, t + 8);
    FourIs(init, block, Four(p8, t + 8), t + 12);
  }

  // ---------------------------------------------------------------- the digest of "abc"

  lemma Rounds0To16()
    ensures Sixteen(Point(Machine(0x67452301, 0xefcdab89, 0x98badcfe, 0x10325476, 0xc3d2e1f0),
                          Window(0x61626380, 0x00000000, 0x00000000, 0x00000000, 0x00000000, 0x00000000, 0x00000000,
                                 0x00000000, 0x00000000, 0x00000000, 0x00000000, 0x00000000, 0x00000000, 0x00000000,
                                 0x00000000, 0x00000018)), 0)
            == Point(Machine(0x20bdd62f, 0x196bee77, 0x644a3da5, 0x1181ed99, 0x18c623f9),
                     Window(0xc2c4c700, 0x00000000, 0x00000030, 0x85898e01, 0x00000000, 0x00000060, 0x0b131c03,
                            0x00000030, 0x85898ec1, 0x16263806, 0x00000000, 0x00000180, 0x2c4c700c, 0x000000f0,
                            0x93afb507, 0x5898e048))
  {}

  lemma Rounds16To32()
    ensures Sixteen(Point(Machine(0x20bdd62f, 0x196bee77, 0x644a3da5, 0x1181ed99, 0x18c623f9),
                          Window(0xc2c4c700, 0x00000000, 0x00000030, 0x85898e01, 0x00000000, 0x00000060, 0x0b131c03,
                                 0x00000030, 0x85898ec1, 0x16263806, 0x00000000, 0x00000180, 0x2c4c700c, 0x000000f0,
                                 0x93afb507, 0x5898e048)), 16)
            == Point(Machine(0x3b845d33, 0x1267b407, 0x717eebd7, 0xa0dc2d4b, 0xd2aa1365),
                     Window(0x8e9a9202, 0x00000600, 0xb131c0f0, 0x16263bc6, 0x4ebed41e, 0x626380a1, 0x16263806,
                            0x000018c0, 0xd2e138c4, 0x00000f00, 0x3afb5079, 0x898e04e5, 0xe2ba3c2b, 0x000060c0,
                            0x053a37cd, 0x74458547))
  {}

  lemma Rounds32To48()
    ensures Sixteen(Point(Machine(0x3b845d33, 0x1267b407, 0x717eebd7, 0xa0dc2d4b, 0xd2aa1365),
                          Window(0x8e9a9202, 0x00000600, 0xb131c0f0, 0x16263bc6, 0x4ebed41e, 0x626380a1, 0x16263806,
                                 0x000018c0, 0xd2e138c4, 0x00000f00, 0x3afb5079, 0x898e04e5, 0xe2ba3c2b, 0x000060c0,
                                 0x053a37cd, 0x74458547)), 32)
            == Point(Machine(0xbead02ca, 0xa01b846c, 0x8714787c, 0x503ca382, 0xfb86c6ab),
                     Window(0xda9415ed, 0x26380a16, 0x626383a1, 0x4ebf54de, 0x3835b44b, 0x0000f600, 0x1e84c7a3,
                            0x98e04d98, 0x651d16a0, 0x62658ca1, 0x458544d6, 0x44584cb7, 0x7ba06619, 0x6380aea2,
                            0x0ae55269, 0x627b49a1))
  {}

  lemma Rounds48To64()
    ensures Sixteen(Point(Machine(0xbead02ca, 0xa01b846c, 0x8714787c, 0x503ca382, 0xfb86c6ab),
                          Window(0xda9415ed, 0x26380a16, 0x626383a1, 0x4ebf54de, 0x3835b44b, 0x0000f600, 0x1e84c7a3,
                                 0x98e04d98, 0x651d16a0, 0x62658ca1, 0x458544d6, 0x44584cb7, 0x7ba06619, 0x6380aea2,
                                 0x0ae55269, 0x627b49a1)), 48)
            == Point(Machine(0x6b61c9e1, 0xb66c020b, 0x9523272c, 0xf5d5b051, 0x8fd4b796),
                     Window(0x7cd45c9d, 0x000f0000, 0xfb50753a, 0xec6765e8, 0xba3c2be2, 0x0060c000, 0x3a37cd05,
                            0x458546f4, 0xb8599dd6, 0x380a1a26, 0x01e02203, 0xe7cc3456, 0xe6e60b69, 0x00f60a00,
                            0x5795ef4f, 0x822e0879))
  {}

  lemma Rounds64To80()
    ensures Sixteen(Point(Machine(0x6b61c9e1, 0xb66c020b, 0x9523272c, 0xf5d5b051, 0x8fd4b796),
                          Window(0x7cd45c9d, 0x000f0000, 0xfb50753a, 0xec6765e8, 0xba3c2be2, 0x0060c000, 0x3a37cd05,
                                 0x458546f4, 0xb8599dd6, 0x380a1a26, 0x01e02203, 0xe7cc3456, 0xe6e60b69, 0x00f60a00,
                                 0x5795ef4f, 0x822e0879)), 64)
            == Point(Machine(0x42541b35, 0x5738d5e1, 0x21834873, 0x681e6df6, 0xd8fdf6ad),
                     Window(0x7e577ce2, 0x07ef2103, 0x8544e945, 0xeb39dab8, 0xc205991a, 0x80aecb63, 0x7d84ca48,
                            0x7b499b62, 0x8e8010a8, 0x4b5b8a77, 0x3216b69a, 0x0507e88d, 0x705bee96, 0x60c0ff00,
                            0xa28362d0, 0x1da6b91d))
  {}

  function Plus(s: Machine, r: Machine): Machine
  {
    Machine(SumOf(s.a, r.a), SumOf(s.b, r.b), SumOf(s.c, r.c), SumOf(s.d, r.d), SumOf(s.e, r.e))
  }

  lemma PlusIs(s: Machine, r: Machine)
    ensures AddStates(StateOf(s), StateOf(r)) == StateOf(Plus(s, r))
  {
    hide Num, SumOf;
    NumSum(s.a, r.a);
    NumSum(s.b, r.b);
    NumSum(s.c, r.c);
    NumSum(s.d, r.d);
    NumSum(s.e, r.e);
  }

  /** The only block of the padded message. */
  lemma AbcBlock()
    ensures |Pad(ABC)| == 64
    ensures Pad(ABC)[..4] == [0x61, 0x62, 0x63, 0x80] && Pad(ABC)[60..] == [0, 0, 0, 24]
    ensures forall i :: 4 <= i < 60 ==> Pad(ABC)[i] == 0
  {
    assert (55 - |ABC|) % 64 == 52;
    var field := BE64(24);
    assert field == [0, 0, 0, 0, 0, 0, 0, 24];
    var p := Pad(ABC);
    assert p == ABC + [0x80] + Zeros(52) + field;
    forall i | 4 <= i < 60
      ensures p[i] == 0
    {
      if i < 56 { ZeroAt(52, i - 4); }
    }
  }

  lemma AbcWords(block: Block)
    requires block == Pad(ABC)
    ensures Sched(block, 0) == 0x61626380 && Sched(block, 15) == 24
    ensures forall t :: 1 <= t < 15 ==> Sched(block, t) == 0
  {
    AbcBlock();
    assert block[0..4] == [0x61, 0x62, 0x63, 0x80] && block[60..64] == [0, 0, 0, 24];
    forall t | 1 <= t < 15
      ensures Sched(block, t) == 0
    {
      assert block[4 * t..4 * t + 4] == [0, 0, 0, 0];
    }
  }

  lemma AbcStarts(block: Block)
    requires block == Pad(ABC)
    ensures At(INIT, block, 0, Point(Machine(0x67452301, 0xefcdab89, 0x98badcfe, 0x10325476, 0xc3d2e1f0),
                            Window(0x61626380, 0x00000000, 0x00000000, 0x00000000, 0x00000000, 0x00000000,
                                   0x00000000, 0x00000000, 0x00000000, 0x00000000, 0x00000000, 0x00000000,
                                   0x00000000, 0x00000000, 0x00000000, 0x00000018)))
  {
    hide Num, Sched;
    AbcWords(block);
    NumDigits(0);
    NumDigits(0x18);
    NumDigits(0x61626380);
    InitialWords();
  }

  lemma InitialWords()
    ensures INIT == StateOf(Machine(0x67452301, 0xefcdab89, 0x98badcfe, 0x10325476, 0xc3d2e1f0))
  {
    hide Num;
    NumDigits(0x67452301);
    NumDigits(0xefcdab89);
    NumDigits(0x98badcfe);
    NumDigits(0x10325476);
    NumDigits(0xc3d2e1f0);
  }

  lemma AbcRounds(block: Block)
    requires block == Pad(ABC)
    ensures Rounds(INIT, block, 80) == StateOf(Machine(0x42541b35, 0x5738d5e1, 0x21834873, 0x681e6df6, 0xd8fdf6ad))
  {
    hide Sixteen, Four, Two, One, Shows, Rounds, Num;
    AbcStarts(block);
    var p := Point(Machine(0x67452301, 0xefcdab89, 0x98badcfe, 0x10325476, 0xc3d2e1f0),
                  Window(0x61626380, 0x00000000, 0x00000000, 0x00000000, 0x00000000, 0x00000000, 0x00000000,
                         0x00000000, 0x00000000, 0x00000000, 0x00000000, 0x00000000, 0x00000000, 0x00000000,
                         0x00000000, 0x00000018));
    SixteenIs(INIT, block, p, 0);
    Rounds0To16();
    p := Sixteen(p, 0);
    SixteenIs(INIT, block, p, 16);
    Rounds16To32();
    p := Sixteen(p, 16);
    SixteenIs(INIT, block, p, 32);
    Rounds32To48();
    p := Sixteen(p, 32);
    SixteenIs(INIT, block, p, 48);
    Rounds48To64();
    p := Sixteen(p, 48);
    SixteenIs(INIT, block, p, 64);
    Rounds64To80();
    p := Sixteen(p, 64);
  }

  lemma AbcState(block: Block)
    requires block == Pad(ABC)
    ensures Compress(INIT, block) == State(0xa9993e36, 0x4706816a, 0xba3e2571, 0x7850c26c, 0x9cd0d89d)
  {
    hide Num, Rounds;
    AbcRounds(block);
    NumDigits(0x42541b35);
    NumDigits(0x5738d5e1);
    NumDigits(0x21834873);
    NumDigits(0x681e6df6);
    NumDigits(0xd8fdf6ad);
  }

  /** SHA-1 of "abc", the example of RFC 3174, section 7.3. */
  lemma AbcDigest()
    ensures Digest(ABC) == [0xa9, 0x99, 0x3e, 0x36, 0x47, 0x06, 0x81, 0x6a, 0xba, 0x3e,
                            0x25, 0x71, 0x78, 0x50, 0xc2, 0x6c, 0x9c, 0xd0, 0xd8, 0x9d]
  {
    hide Compress, Pad;
    AbcBlock();
    var p := Pad(ABC);
    assert p[..0] == [] && p[0..] == p;
    AbcState(p);
  }
}
