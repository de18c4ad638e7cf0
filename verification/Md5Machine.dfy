/** MD5 on 32-bit vectors, with the functions of RFC 1321, section 3.4, and the digest of a known message. */
module Md5Machine {
  import opened WordArith
  import opened Bits
  import opened BlockHash
  import opened WordBits
  import opened Md5

  datatype Machine = Machine(a: bv32, b: bv32, c: bv32, d: bv32)

  function StateOf(s: Machine): State { State(Num(s.a), Num(s.b), Num(s.c), Num(s.d)) }

  // ---------------------------------------------------------------- functions and rotations

  function F(x: bv32, y: bv32, z: bv32): bv32 { (x & y) | (!x & z) }
  function G(x: bv32, y: bv32, z: bv32): bv32 { (x & z) | (y & !z) }
  function H(x: bv32, y: bv32, z: bv32): bv32 { XorOf(XorOf(x, y), z) }
  function I(x: bv32, y: bv32, z: bv32): bv32 { y ^ (x | !z) }

  lemma FIs(x: bv32, y: bv32, z: bv32)
    ensures OrOf(AndOf(x, y), AndOf(NotOf(x), z)) == F(x, y, z)
  {}

  lemma GIs(x: bv32, y: bv32, z: bv32)
    ensures OrOf(AndOf(x, z), AndOf(y, NotOf(z))) == G(x, y, z)
  {}

  lemma IIs(x: bv32, y: bv32, z: bv32)
    ensures XorOf(y, OrOf(x, NotOf(z))) == I(x, y, z)
  {}

  /** The auxiliary functions are those of the standard. */
  lemma AuxIs(x: bv32, y: bv32, z: bv32)
    ensures Aux1(Num(x), Num(y), Num(z)) == Num(F(x, y, z)) && Aux2(Num(x), Num(y), Num(z)) == Num(G(x, y, z))
    ensures Aux3(Num(x), Num(y), Num(z)) == Num(H(x, y, z)) && Aux4(Num(x), Num(y), Num(z)) == Num(I(x, y, z))
  {
    hide Num, BAnd, BOr, BXor, BNot, AndOf, OrOf, XorOf, NotOf, F, G, I;
    NumNot(x);
    NumNot(z);
    NumOp(x, y);
    NumOp(x, z);
    NumOp(NotOf(x), z);
    NumOp(y, NotOf(z));
    NumOp(x, NotOf(z));
    NumOp(AndOf(x, y), AndOf(NotOf(x), z));
    NumOp(AndOf(x, z), AndOf(y, NotOf(z)));
    NumOp(XorOf(x, y), z);
    NumOp(y, OrOf(x, NotOf(z)));
    FIs(x, y, z);
    GIs(x, y, z);
    IIs(x, y, z);
  }

  function Left4(v: bv32): bv32 { (v << 4) | (v >> 28) }
  function Left5(v: bv32): bv32 { (v << 5) | (v >> 27) }
  function Left6(v: bv32): bv32 { (v << 6) | (v >> 26) }
  function Left7(v: bv32): bv32 { (v << 7) | (v >> 25) }
  function Left9(v: bv32): bv32 { (v << 9) | (v >> 23) }
  function Left10(v: bv32): bv32 { (v << 10) | (v >> 22) }
  function Left11(v: bv32): bv32 { (v << 11) | (v >> 21) }
  function Left12(v: bv32): bv32 { (v << 12) | (v >> 20) }
  function Left14(v: bv32): bv32 { (v << 14) | (v >> 18) }
  function Left15(v: bv32): bv32 { (v << 15) | (v >> 17) }
  function Left16(v: bv32): bv32 { (v << 16) | (v >> 16) }
  function Left17(v: bv32): bv32 { (v << 17) | (v >> 15) }
  function Left20(v: bv32): bv32 { (v << 20) | (v >> 12) }
  function Left21(v: bv32): bv32 { (v << 21) | (v >> 11) }
  function Left22(v: bv32): bv32 { (v << 22) | (v >> 10) }
  function Left23(v: bv32): bv32 { (v << 23) | (v >> 9) }

  lemma Rotate4(v: bv32)
    ensures Rotate(v, 4) == Left4(v)
  {}

  lemma NumLeft4(v: bv32)
    ensures Rotl(Num(v), 4) == Num(Left4(v))
  {
    hide Num, BOr, Rotate, Left4;
    Powers();
    Rotate4(v);
    NumRotate(v, 4, 4, (0x10 * Num(v)) % B, Num(v) / 0x10000000);
  }

  lemma Rotate5(v: bv32)
    ensures Rotate(v, 5) == Left5(v)
  {}

  lemma NumLeft5(v: bv32)
    ensures Rotl(Num(v), 5) == Num(Left5(v))
  {
    hide Num, BOr, Rotate, Left5;
    Powers();
    Rotate5(v);
    NumRotate(v, 5, 5, (0x20 * Num(v)) % B, Num(v) / 0x8000000);
  }

  lemma Rotate6(v: bv32)
    ensures Rotate(v, 6) == Left6(v)
  {}

  lemma NumLeft6(v: bv32)
    ensures Rotl(Num(v), 6) == Num(Left6(v))
  {
    hide Num, BOr, Rotate, Left6;
    Powers();
    Rotate6(v);
    NumRotate(v, 6, 6, (0x40 * Num(v)) % B, Num(v) / 0x4000000);
  }

  lemma Rotate7(v: bv32)
    ensures Rotate(v, 7) == Left7(v)
  {}

  lemma NumLeft7(v: bv32)
    ensures Rotl(Num(v), 7) == Num(Left7(v))
  {
    hide Num, BOr, Rotate, Left7;
    Powers();
    Rotate7(v);
    NumRotate(v, 7, 7, (0x80 * Num(v)) % B, Num(v) / 0x2000000);
  }

  lemma Rotate9(v: bv32)
    ensures Rotate(v, 9) == Left9(v)
  {}

  lemma NumLeft9(v: bv32)
    ensures Rotl(Num(v), 9) == Num(Left9(v))
  {
    hide Num, BOr, Rotate, Left9;
    Powers();
    Rotate9(v);
    NumRotate(v, 9, 9, (0x200 * Num(v)) % B, Num(v) / 0x800000);
  }

  lemma Rotate10(v: bv32)
    ensures Rotate(v, 10) == Left10(v)
  {}

  lemma NumLeft10(v: bv32)
    ensures Rotl(Num(v), 10) == Num(Left10(v))
  {
    hide Num, BOr, Rotate, Left10;
    Powers();
    Rotate10(v);
    NumRotate(v, 10, 10, (0x400 * Num(v)) % B, Num(v) / 0x400000);
  }

  lemma Rotate11(v: bv32)
    ensures Rotate(v, 11) == Left11(v)
  {}

  lemma NumLeft11(v: bv32)
    ensures Rotl(Num(v), 11) == Num(Left11(v))
  {
    hide Num, BOr, Rotate, Left11;
    Powers();
    Rotate11(v);
    NumRotate(v, 11, 11, (0x800 * Num(v)) % B, Num(v) / 0x200000);
  }

  lemma Rotate12(v: bv32)
    ensures Rotate(v, 12) == Left12(v)
  {}

  lemma NumLeft12(v: bv32)
    ensures Rotl(Num(v), 12) == Num(Left12(v))
  {
    hide Num, BOr, Rotate, Left12;
    Powers();
    Rotate12(v);
    NumRotate(v, 12, 12, (0x1000 * Num(v)) % B, Num(v) / 0x100000);
  }

  lemma Rotate14(v: bv32)
    ensures Rotate(v, 14) == Left14(v)
  {}

  lemma NumLeft14(v: bv32)
    ensures Rotl(Num(v), 14) == Num(Left14(v))
  {
    hide Num, BOr, Rotate, Left14;
    Powers();
    Rotate14(v);
    NumRotate(v, 14, 14, (0x4000 * Num(v)) % B, Num(v) / 0x40000);
  }

  lemma Rotate15(v: bv32)
    ensures Rotate(v, 15) == Left15(v)
  {}

  lemma NumLeft15(v: bv32)
    ensures Rotl(Num(v), 15) == Num(Left15(v))
  {
    hide Num, BOr, Rotate, Left15;
    Powers();
    Rotate15(v);
    NumRotate(v, 15, 15, (0x8000 * Num(v)) % B, Num(v) / 0x20000);
  }

  lemma Rotate16(v: bv32)
    ensures Rotate(v, 16) == Left16(v)
  {}

  lemma NumLeft16(v: bv32)
    ensures Rotl(Num(v), 16) == Num(Left16(v))
  {
    hide Num, BOr, Rotate, Left16;
    Powers();
    Rotate16(v);
    NumRotate(v, 16, 16, (0x10000 * Num(v)) % B, Num(v) / 0x10000);
  }

  lemma Rotate17(v: bv32)
    ensures Rotate(v, 17) == Left17(v)
  {}

  lemma NumLeft17(v: bv32)
    ensures Rotl(Num(v), 17) == Num(Left17(v))
  {
    hide Num, BOr, Rotate, Left17;
    Powers();
    Rotate17(v);
    NumRotate(v, 17, 17, (0x20000 * Num(v)) % B, Num(v) / 0x8000);
  }

  lemma Rotate20(v: bv32)
    ensures Rotate(v, 20) == Left20(v)
  {}

  lemma NumLeft20(v: bv32)
    ensures Rotl(Num(v), 20) == Num(Left20(v))
  {
    hide Num, BOr, Rotate, Left20;
    Powers();
    Rotate20(v);
    NumRotate(v, 20, 20, (0x100000 * Num(v)) % B, Num(v) / 0x1000);
  }

  lemma Rotate21(v: bv32)
    ensures Rotate(v, 21) == Left21(v)
  {}

  lemma NumLeft21(v: bv32)
    ensures Rotl(Num(v), 21) == Num(Left21(v))
  {
    hide Num, BOr, Rotate, Left21;
    Powers();
    Rotate21(v);
    NumRotate(v, 21, 21, (0x200000 * Num(v)) % B, Num(v) / 0x800);
  }

  lemma Rotate22(v: bv32)
    ensures Rotate(v, 22) == Left22(v)
  {}

  lemma NumLeft22(v: bv32)
    ensures Rotl(Num(v), 22) == Num(Left22(v))
  {
    hide Num, BOr, Rotate, Left22;
    Powers();
    Rotate22(v);
    NumRotate(v, 22, 22, (0x400000 * Num(v)) % B, Num(v) / 0x400);
  }

  lemma Rotate23(v: bv32)
    ensures Rotate(v, 23) == Left23(v)
  {}

  lemma NumLeft23(v: bv32)
    ensures Rotl(Num(v), 23) == Num(Left23(v))
  {
    hide Num, BOr, Rotate, Left23;
    Powers();
    Rotate23(v);
    NumRotate(v, 23, 23, (0x800000 * Num(v)) % B, Num(v) / 0x200);
  }

  // ---------------------------------------------------------------- steps

  /** The registers after a step that rotated its sum to r. */
  function Turned(s: Machine, r: bv32): Machine { Machine(s.d, SumOf(s.b, r), s.b, s.c) }

  function Sum4(a: bv32, f: bv32, x: bv32, k: bv32): bv32 { SumOf(SumOf(SumOf(a, f), x), k) }

  lemma Sum4Is(a: bv32, f: bv32, x: bv32, k: bv32)
    ensures Add(Add(Add(Num(a), Num(f)), Num(x)), Num(k)) == Num(Sum4(a, f, x, k))
  {
    hide Num, Add, SumOf;
    NumSum(a, f);
    NumSum(SumOf(a, f), x);
    NumSum(SumOf(SumOf(a, f), x), k);
  }

  lemma StepIs(s: Machine, t: nat, f: bv32, x: bv32, k: bv32, r: bv32)
    requires t < 64 && Num(k) == T(t) && Aux(t, Num(s.b), Num(s.c), Num(s.d)) == Num(f)
    requires Rotl(Num(Sum4(s.a, f, x, k)), Shift(t)) == Num(r)
    ensures Step(StateOf(s), t, Num(x)) == StateOf(Turned(s, r))
  {
    hide Num, Aux, Shift, T, Rotl, Add, Sum4, SumOf;
    Sum4Is(s.a, f, x, k);
    NumSum(s.b, r);
  }

  /** Four steps of round 1. */
  function Four1(s: Machine, x0: bv32, x1: bv32, x2: bv32, x3: bv32, k0: bv32, k1: bv32, k2: bv32, k3: bv32): Machine
  {
    var s1 := Turned(s, Left7(Sum4(s.a, F(s.b, s.c, s.d), x0, k0)));
    var s2 := Turned(s1, Left12(Sum4(s1.a, F(s1.b, s1.c, s1.d), x1, k1)));
    var s3 := Turned(s2, Left17(Sum4(s2.a, F(s2.b, s2.c, s2.d), x2, k2)));
    Turned(s3, Left22(Sum4(s3.a, F(s3.b, s3.c, s3.d), x3, k3)))
  }

  /** Four steps of round 2. */
  function Four2(s: Machine, x0: bv32, x1: bv32, x2: bv32, x3: bv32, k0: bv32, k1: bv32, k2: bv32, k3: bv32): Machine
  {
    var s1 := Turned(s, Left5(Sum4(s.a, G(s.b, s.c, s.d), x0, k0)));
    var s2 := Turned(s1, Left9(Sum4(s1.a, G(s1.b, s1.c, s1.d), x1, k1)));
    var s3 := Turned(s2, Left14(Sum4(s2.a, G(s2.b, s2.c, s2.d), x2, k2)));
    Turned(s3, Left20(Sum4(s3.a, G(s3.b, s3.c, s3.d), x3, k3)))
  }

  /** Four steps of round 3. */
  function Four3(s: Machine, x0: bv32, x1: bv32, x2: bv32, x3: bv32, k0: bv32, k1: bv32, k2: bv32, k3: bv32): Machine
  {
    var s1 := Turned(s, Left4(Sum4(s.a, H(s.b, s.c, s.d), x0, k0)));
    var s2 := Turned(s1, Left11(Sum4(s1.a, H(s1.b, s1.c, s1.d), x1, k1)));
    var s3 := Turned(s2, Left16(Sum4(s2.a, H(s2.b, s2.c, s2.d), x2, k2)));
    Turned(s3, Left23(Sum4(s3.a, H(s3.b, s3.c, s3.d), x3, k3)))
  }

  /** Four steps of round 4. */
  function Four4(s: Machine, x0: bv32, x1: bv32, x2: bv32, x3: bv32, k0: bv32, k1: bv32, k2: bv32, k3: bv32): Machine
  {
    var s1 := Turned(s, Left6(Sum4(s.a, I(s.b, s.c, s.d), x0, k0)));
    var s2 := Turned(s1, Left10(Sum4(s1.a, I(s1.b, s1.c, s1.d), x1, k1)));
    var s3 := Turned(s2, Left15(Sum4(s2.a, I(s2.b, s2.c, s2.d), x2, k2)));
    Turned(s3, Left21(Sum4(s3.a, I(s3.b, s3.c, s3.d), x3, k3)))
  }

  lemma Steps0To4()
    ensures Four1(Machine(0x67452301, 0xefcdab89, 0x98badcfe, 0x10325476),
                  0x80636261, 0x00000000, 0x00000000, 0x00000000,
                  0xd76aa478, 0xe8c7b756, 0x242070db, 0xc1bdceee)
            == Machine(0xd6d117b4, 0x7ad956f2, 0x2f6fbd72, 0x344a8432)
  {}

  lemma Steps4To8()
    ensures Four1(Machine(0xd6d117b4, 0x7ad956f2, 0x2f6fbd72, 0x344a8432),
                  0x00000000, 0x00000000, 0x00000000, 0x00000000,
                  0xf57c0faf, 0x4787c62a, 0xa8304613, 0xfd469501)
            == Machine(0xc73741ef, 0x928d99f6, 0x207dc67b, 0x8bac3051)
  {}

  lemma Steps8To12()
    ensures Four1(Machine(0xc73741ef, 0x928d99f6, 0x207dc67b, 0x8bac3051),
                  0x00000000, 0x00000000, 0x00000000, 0x00000000,
                  0x698098d8, 0x8b44f7af, 0xffff5bb1, 0x895cd7be)
            == Machine(0x854b3712, 0x5ed49596, 0x3020401c, 0x74e2f284)
  {}

  lemma Steps12To16()
    ensures Four1(Machine(0x854b3712, 0x5ed49596, 0x3020401c, 0x74e2f284),
                  0x00000000, 0x00000000, 0x00000018, 0x00000000,
                  0x6b901122, 0xfd987193, 0xa679438e, 0x49b40821)
            == Machine(0xdda9b9a6, 0x72aff2e0, 0xe396856b, 0xa1051895)
  {}

  lemma Steps16To20()
    ensures Four2(Machine(0xdda9b9a6, 0x72aff2e0, 0xe396856b, 0xa1051895),
                  0x00000000, 0x00000000, 0x00000000, 0x80636261,
                  0xf61e2562, 0xc040b340, 0x265e5a51, 0xe9b6c7aa)
            == Machine(0x3e9e9126, 0xb5b204e4, 0xe25e1652, 0x4a1d804e)
  {}

  lemma Steps20To24()
    ensures Four2(Machine(0x3e9e9126, 0xb5b204e4, 0xe25e1652, 0x4a1d804e),
                  0x00000000, 0x00000000, 0x00000000, 0x00000000,
                  0xd62f105d, 0x02441453, 0xd8a1e681, 0xe7d3fbc8)
            == Machine(0x59a8ffda, 0x47092c07, 0xabfc7920, 0x6d002f1e)
  {}

  lemma Steps24To28()
    ensures Four2(Machine(0x59a8ffda, 0x47092c07, 0xabfc7920, 0x6d002f1e),
                  0x00000000, 0x00000018, 0x00000000, 0x00000000,
                  0x21e1cde6, 0xc33707d6, 0xf4d50d87, 0x455a14ed)
            == Machine(0xb7f268cf, 0x786acb8f, 0xfe1623b1, 0x09388eff)
  {}

  lemma Steps28To32()
    ensures Four2(Machine(0xb7f268cf, 0x786acb8f, 0xfe1623b1, 0x09388eff),
                  0x00000000, 0x00000000, 0x00000000, 0x00000000,
                  0xa9e3e905, 0xfcefa3f8, 0x676f02d9, 0x8d2a4c8a)
            == Machine(0x790a77fb, 0x726342d3, 0xa62884aa, 0x9f47e4f8)
  {}

  lemma Steps32To36()
    ensures Four3(Machine(0x790a77fb, 0x726342d3, 0xa62884aa, 0x9f47e4f8),
                  0x00000000, 0x00000000, 0x00000000, 0x00000018,
                  0xfffa3942, 0x8771f681, 0x6d9d6122, 0xfde5380c)
            == Machine(0xb3707ebf, 0x3b0875c7, 0x8d212ff5, 0x60127b2e)
  {}

  lemma Steps36To40()
    ensures Four3(Machine(0xb3707ebf, 0x3b0875c7, 0x8d212ff5, 0x60127b2e),
                  0x00000000, 0x00000000, 0x00000000, 0x00000000,
                  0xa4beea44, 0x4bdecfa9, 0xf6bb4b60, 0xbebfbc70)
            == Machine(0x21b117b9, 0x5a2f5ea5, 0x3575227e, 0x6e7429d5)
  {}

  lemma Steps40To44()
    ensures Four3(Machine(0x21b117b9, 0x5a2f5ea5, 0x3575227e, 0x6e7429d5),
                  0x00000000, 0x80636261, 0x00000000, 0x00000000,
                  0x289b7ec6, 0xeaa127fa, 0xd4ef3085, 0x04881d05)
            == Machine(0x11de1779, 0x4c6124f4, 0x31c465ca, 0xfadcaa38)
  {}

  lemma Steps44To48()
    ensures Four3(Machine(0x11de1779, 0x4c6124f4, 0x31c465ca, 0xfadcaa38),
                  0x00000000, 0x00000000, 0x00000000, 0x00000000,
                  0xd9d4d039, 0xe6db99e5, 0x1fa27cf8, 0xc4ac5665)
            == Machine(0x7f2e507b, 0x7beb9700, 0x8fae6399, 0x99d9679d)
  {}

  lemma Steps48To52()
    ensures Four4(Machine(0x7f2e507b, 0x7beb9700, 0x8fae6399, 0x99d9679d),
                  0x80636261, 0x00000000, 0x00000018, 0x00000000,
                  0xf4292244, 0x432aff97, 0xab9423a7, 0xfc93a039)
            == Machine(0x7b201df8, 0x8bf025c4, 0xb298cefd, 0xf4e8e96e)
  {}

  lemma Steps52To56()
    ensures Four4(Machine(0x7b201df8, 0x8bf025c4, 0xb298cefd, 0xf4e8e96e),
                  0x00000000, 0x00000000, 0x00000000, 0x00000000,
                  0x655b59c3, 0x8f0ccc92, 0xffeff47d, 0x85845dd1)
            == Machine(0x06cc5e8a, 0x3bfa2c27, 0x7d632dd0, 0x5b0d97aa)
  {}

  lemma Steps56To60()
    ensures Four4(Machine(0x06cc5e8a, 0x3bfa2c27, 0x7d632dd0, 0x5b0d97aa),
                  0x00000000, 0x00000000, 0x00000000, 0x00000000,
                  0x6fa87e4f, 0xfe2ce6e0, 0xa3014314, 0x4e0811a1)
            == Machine(0x7f81cc35, 0x7327d604, 0x4f9dbe3f, 0x094454ab)
  {}

  lemma Steps60To64()
    ensures Four4(Machine(0x7f81cc35, 0x7327d604, 0x4f9dbe3f, 0x094454ab),
                  0x00000000, 0x00000000, 0x00000000, 0x00000000,
                  0xf7537e82, 0xbd3af235, 0x2ad7d2bb, 0xeb86d391)
            == Machine(0x310ade8f, 0xc08226b3, 0xe484b9d8, 0x624d8cb2)
  {}

  // ---------------------------------------------------------------- the digest of "abc"

  ghost predicate At(block: Block, t: nat, s: Machine)
  {
    Steps(INIT, block, t) == StateOf(s)
  }

  lemma Four1Is(block: Block, t: nat, s: Machine, x0: bv32, x1: bv32, x2: bv32, x3: bv32, k0: bv32, k1: bv32, k2: bv32,
               k3: bv32)
    requires 0 <= t <= 12 && t % 4 == 0 && At(block, t, s)
    requires BlockWord(block, WordIndex(t)) == Num(x0) && BlockWord(block, WordIndex(t + 1)) == Num(x1)
             && BlockWord(block, WordIndex(t + 2)) == Num(x2) && BlockWord(block, WordIndex(t + 3)) == Num(x3)
    requires Num(k0) == T(t) && Num(k1) == T(t + 1) && Num(k2) == T(t + 2) && Num(k3) == T(t + 3)
    ensures At(block, t + 4, Four1(s, x0, x1, x2, x3, k0, k1, k2, k3))
  {
    hide Num, T, WordIndex, BlockWord, Rotl, Sum4, F, At, Turned, Left7, Left12, Left17, Left22;
    var s1 := Round1(block, t, s, x0, k0);
    var s2 := Round1(block, t + 1, s1, x1, k1);
    var s3 := Round1(block, t + 2, s2, x2, k2);
    var s4 := Round1(block, t + 3, s3, x3, k3);
  }

  /** One step of round 1. */
  lemma Round1(block: Block, t: nat, s: Machine, x: bv32, k: bv32) returns (s': Machine)
    requires 0 <= t < 16 && At(block, t, s) && BlockWord(block, WordIndex(t)) == Num(x) && Num(k) == T(t)
    ensures var sum := Sum4(s.a, F(s.b, s.c, s.d), x, k);
            s' == Turned(s, if t % 4 == 0 then Left7(sum) else if t % 4 == 1 then Left12(sum)
                            else if t % 4 == 2 then Left17(sum) else Left22(sum))
    ensures At(block, t + 1, s')
  {
    hide Num, T, WordIndex, BlockWord, Rotl, Sum4, F, Turned, StateOf, Step, Left7, Left12, Left17, Left22;
    var f := F(s.b, s.c, s.d);
    var sum := Sum4(s.a, f, x, k);
    var r := if t % 4 == 0 then Left7(sum) else if t % 4 == 1 then Left12(sum) else if t % 4 == 2 then Left17(sum)
             else Left22(sum);
    s' := Turned(s, r);
    AuxIs(s.b, s.c, s.d);
    NumLeft7(sum);
    NumLeft12(sum);
    NumLeft17(sum);
    NumLeft22(sum);
    StepIs(s, t, f, x, k, r);
    assert Steps(INIT, block, t + 1) == Step(Steps(INIT, block, t), t, BlockWord(block, WordIndex(t)));
  }

  lemma Four2Is(block: Block, t: nat, s: Machine, x0: bv32, x1: bv32, x2: bv32, x3: bv32, k0: bv32, k1: bv32, k2: bv32,
               k3: bv32)
    requires 16 <= t <= 28 && t % 4 == 0 && At(block, t, s)
    requires BlockWord(block, WordIndex(t)) == Num(x0) && BlockWord(block, WordIndex(t + 1)) == Num(x1)
             && BlockWord(block, WordIndex(t + 2)) == Num(x2) && BlockWord(block, WordIndex(t + 3)) == Num(x3)
    requires Num(k0) == T(t) && Num(k1) == T(t + 1) && Num(k2) == T(t + 2) && Num(k3) == T(t + 3)
    ensures At(block, t + 4, Four2(s, x0, x1, x2, x3, k0, k1, k2, k3))
  {
    hide Num, T, WordIndex, BlockWord, Rotl, Sum4, G, At, Turned, Left5, Left9, Left14, Left20;
    var s1 := Round2(block, t, s, x0, k0);
    var s2 := Round2(block, t + 1, s1, x1, k1);
    var s3 := Round2(block, t + 2, s2, x2, k2);
    var s4 := Round2(block, t + 3, s3, x3, k3);
  }

  /** One step of round 2. */
  lemma Round2(block: Block, t: nat, s: Machine, x: bv32, k: bv32) returns (s': Machine)
    requires 16 <= t < 32 && At(block, t, s) && BlockWord(block, WordIndex(t)) == Num(x) && Num(k) == T(t)
    ensures var sum := Sum4(s.a, G(s.b, s.c, s.d), x, k);
            s' == Turned(s, if t % 4 == 0 then Left5(sum) else if t % 4 == 1 then Left9(sum)
                            else if t % 4 == 2 then Left14(sum) else Left20(sum))
    ensures At(block, t + 1, s')
  {
    hide Num, T, WordIndex, BlockWord, Rotl, Sum4, G, Turned, StateOf, Step, Left5, Left9, Left14, Left20;
    var f := G(s.b, s.c, s.d);
    var sum := Sum4(s.a, f, x, k);
    var r := if t % 4 == 0 then Left5(sum) else if t % 4 == 1 then Left9(sum) else if t % 4 == 2 then Left14(sum)
             else Left20(sum);
    s' := Turned(s, r);
    AuxIs(s.b, s.c, s.d);
    NumLeft5(sum);
    NumLeft9(sum);
    NumLeft14(sum);
    NumLeft20(sum);
    StepIs(s, t, f, x, k, r);
    assert Steps(INIT, block, t + 1) == Step(Steps(INIT, block, t), t, BlockWord(block, WordIndex(t)));
  }

  lemma Four3Is(block: Block, t: nat, s: Machine, x0: bv32, x1: bv32, x2: bv32, x3: bv32, k0: bv32, k1: bv32, k2: bv32,
               k3: bv32)
    requires 32 <= t <= 44 && t % 4 == 0 && At(block, t, s)
    requires BlockWord(block, WordIndex(t)) == Num(x0) && BlockWord(block, WordIndex(t + 1)) == Num(x1)
             && BlockWord(block, WordIndex(t + 2)) == Num(x2) && BlockWord(block, WordIndex(t + 3)) == Num(x3)
    requires Num(k0) == T(t) && Num(k1) == T(t + 1) && Num(k2) == T(t + 2) && Num(k3) == T(t + 3)
    ensures At(block, t + 4, Four3(s, x0, x1, x2, x3, k0, k1, k2, k3))
  {
    hide Num, T, WordIndex, BlockWord, Rotl, Sum4, H, At, Turned, Left4, Left11, Left16, Left23;
    var s1 := Round3(block, t, s, x0, k0);
    var s2 := Round3(block, t + 1, s1, x1, k1);
    var s3 := Round3(block, t + 2, s2, x2, k2);
    var s4 := Round3(block, t + 3, s3, x3, k3);
  }

  /** One step of round 3. */
  lemma Round3(block: Block, t: nat, s: Machine, x: bv32, k: bv32) returns (s': Machine)
    requires 32 <= t < 48 && At(block, t, s) && BlockWord(block, WordIndex(t)) == Num(x) && Num(k) == T(t)
    ensures var sum := Sum4(s.a, H(s.b, s.c, s.d), x, k);
            s' == Turned(s, if t % 4 == 0 then Left4(sum) else if t % 4 == 1 then Left11(sum)
                            else if t % 4 == 2 then Left16(sum) else Left23(sum))
    ensures At(block, t + 1, s')
  {
    hide Num, T, WordIndex, BlockWord, Rotl, Sum4, H, Turned, StateOf, Step, Left4, Left11, Left16, Left23;
    var f := H(s.b, s.c, s.d);
    var sum := Sum4(s.a, f, x, k);
    var r := if t % 4 == 0 then Left4(sum) else if t % 4 == 1 then Left11(sum) else if t % 4 == 2 then Left16(sum)
             else Left23(sum);
    s' := Turned(s, r);
    AuxIs(s.b, s.c, s.d);
    NumLeft4(sum);
    NumLeft11(sum);
    NumLeft16(sum);
    NumLeft23(sum);
    StepIs(s, t, f, x, k, r);
    assert Steps(INIT, block, t + 1) == Step(Steps(INIT, block, t), t, BlockWord(block, WordIndex(t)));
  }

  lemma Four4Is(block: Block, t: nat, s: Machine, x0: bv32, x1: bv32, x2: bv32, x3: bv32, k0: bv32, k1: bv32, k2: bv32,
               k3: bv32)
    requires 48 <= t <= 60 && t % 4 == 0 && At(block, t, s)
    requires BlockWord(block, WordIndex(t)) == Num(x0) && BlockWord(block, WordIndex(t + 1)) == Num(x1)
             && BlockWord(block, WordIndex(t + 2)) == Num(x2) && BlockWord(block, WordIndex(t + 3)) == Num(x3)
    requires Num(k0) == T(t) && Num(k1) == T(t + 1) && Num(k2) == T(t + 2) && Num(k3) == T(t + 3)
    ensures At(block, t + 4, Four4(s, x0, x1, x2, x3, k0, k1, k2, k3))
  {
    hide Num, T, WordIndex, BlockWord, Rotl, Sum4, I, At, Turned, Left6, Left10, Left15, Left21;
    var s1 := Round4(block, t, s, x0, k0);
    var s2 := Round4(block, t + 1, s1, x1, k1);
    var s3 := Round4(block, t + 2, s2, x2, k2);
    var s4 := Round4(block, t + 3, s3, x3, k3);
  }

  /** One step of round 4. */
  lemma Round4(block: Block, t: nat, s: Machine, x: bv32, k: bv32) returns (s': Machine)
    requires 48 <= t < 64 && At(block, t, s) && BlockWord(block, WordIndex(t)) == Num(x) && Num(k) == T(t)
    ensures var sum := Sum4(s.a, I(s.b, s.c, s.d), x, k);
            s' == Turned(s, if t % 4 == 0 then Left6(sum) else if t % 4 == 1 then Left10(sum)
                            else if t % 4 == 2 then Left15(sum) else Left21(sum))
    ensures At(block, t + 1, s')
  {
    hide Num, T, WordIndex, BlockWord, Rotl, Sum4, I, Turned, StateOf, Step, Left6, Left10, Left15, Left21;
    var f := I(s.b, s.c, s.d);
    var sum := Sum4(s.a, f, x, k);
    var r := if t % 4 == 0 then Left6(sum) else if t % 4 == 1 then Left10(sum) else if t % 4 == 2 then Left15(sum)
             else Left21(sum);
    s' := Turned(s, r);
    AuxIs(s.b, s.c, s.d);
    NumLeft6(sum);
    NumLeft10(sum);
    NumLeft15(sum);
    NumLeft21(sum);
    StepIs(s, t, f, x, k, r);
    assert Steps(INIT, block, t + 1) == Step(Steps(INIT, block, t), t, BlockWord(block, WordIndex(t)));
  }

  /** The block is the padded message "abc". */
  ghost predicate Spells(block: Block)
  {
    forall k :: 0 <= k < 16 ==> BlockWord(block, k) == if k == 0 then Num(0x80636261) else if k == 14 then Num(0x18)
      else Num(0)
  }

  lemma Abc0To8(block: Block)
    requires Spells(block) && At(block, 0, Machine(0x67452301, 0xefcdab89, 0x98badcfe, 0x10325476))
    ensures At(block, 8, Machine(0xc73741ef, 0x928d99f6, 0x207dc67b, 0x8bac3051))
  {
    hide Num, At, Four1, BlockWord;
    NumDigits(0xd76aa478);
    NumDigits(0xe8c7b756);
    NumDigits(0x242070db);
    NumDigits(0xc1bdceee);
    NumDigits(0xf57c0faf);
    NumDigits(0x4787c62a);
    NumDigits(0xa8304613);
    NumDigits(0xfd469501);
    Four1Is(block, 0, Machine(0x67452301, 0xefcdab89, 0x98badcfe, 0x10325476),
            0x80636261, 0x00000000, 0x00000000, 0x00000000, 0xd76aa478, 0xe8c7b756, 0x242070db, 0xc1bdceee);
    Steps0To4();
    Four1Is(block, 4, Machine(0xd6d117b4, 0x7ad956f2, 0x2f6fbd72, 0x344a8432),
            0x00000000, 0x00000000, 0x00000000, 0x00000000, 0xf57c0faf, 0x4787c62a, 0xa8304613, 0xfd469501);
    Steps4To8();
  }

  lemma Abc8To16(block: Block)
    requires Spells(block) && At(block, 8, Machine(0xc73741ef, 0x928d99f6, 0x207dc67b, 0x8bac3051))
    ensures At(block, 16, Machine(0xdda9b9a6, 0x72aff2e0, 0xe396856b, 0xa1051895))
  {
    hide Num, At, Four1, BlockWord;
    NumDigits(0x698098d8);
    NumDigits(0x8b44f7af);
    NumDigits(0xffff5bb1);
    NumDigits(0x895cd7be);
    NumDigits(0x6b901122);
    NumDigits(0xfd987193);
    NumDigits(0xa679438e);
    NumDigits(0x49b40821);
    Four1Is(block, 8, Machine(0xc73741ef, 0x928d99f6, 0x207dc67b, 0x8bac3051),
            0x00000000, 0x00000000, 0x00000000, 0x00000000, 0x698098d8, 0x8b44f7af, 0xffff5bb1, 0x895cd7be);
    Steps8To12();
    Four1Is(block, 12, Machine(0x854b3712, 0x5ed49596, 0x3020401c, 0x74e2f284),
            0x00000000, 0x00000000, 0x00000018, 0x00000000, 0x6b901122, 0xfd987193, 0xa679438e, 0x49b40821);
    Steps12To16();
  }

  lemma Abc16To24(block: Block)
    requires Spells(block) && At(block, 16, Machine(0xdda9b9a6, 0x72aff2e0, 0xe396856b, 0xa1051895))
    ensures At(block, 24, Machine(0x59a8ffda, 0x47092c07, 0xabfc7920, 0x6d002f1e))
  {
    hide Num, At, Four2, BlockWord;
    NumDigits(0xf61e2562);
    NumDigits(0xc040b340);
    NumDigits(0x265e5a51);
    NumDigits(0xe9b6c7aa);
    NumDigits(0xd62f105d);
    NumDigits(0x02441453);
    NumDigits(0xd8a1e681);
    NumDigits(0xe7d3fbc8);
    Four2Is(block, 16, Machine(0xdda9b9a6, 0x72aff2e0, 0xe396856b, 0xa1051895),
            0x00000000, 0x00000000, 0x00000000, 0x80636261, 0xf61e2562, 0xc040b340, 0x265e5a51, 0xe9b6c7aa);
    Steps16To20();
    Four2Is(block, 20, Machine(0x3e9e9126, 0xb5b204e4, 0xe25e1652, 0x4a1d804e),
            0x00000000, 0x00000000, 0x00000000, 0x00000000, 0xd62f105d, 0x02441453, 0xd8a1e681, 0xe7d3fbc8);
    Steps20To24();
  }

  lemma Abc24To32(block: Block)
    requires Spells(block) && At(block, 24, Machine(0x59a8ffda, 0x47092c07, 0xabfc7920, 0x6d002f1e))
    ensures At(block, 32, Machine(0x790a77fb, 0x726342d3, 0xa62884aa, 0x9f47e4f8))
  {
    hide Num, At, Four2, BlockWord;
    NumDigits(0x21e1cde6);
    NumDigits(0xc33707d6);
    NumDigits(0xf4d50d87);
    NumDigits(0x455a14ed);
    NumDigits(0xa9e3e905);
    NumDigits(0xfcefa3f8);
    NumDigits(0x676f02d9);
    NumDigits(0x8d2a4c8a);
    Four2Is(block, 24, Machine(0x59a8ffda, 0x47092c07, 0xabfc7920, 0x6d002f1e),
            0x00000000, 0x00000018, 0x00000000, 0x00000000, 0x21e1cde6, 0xc33707d6, 0xf4d50d87, 0x455a14ed);
    Steps24To28();
    Four2Is(block, 28, Machine(0xb7f268cf, 0x786acb8f, 0xfe1623b1, 0x09388eff),
            0x00000000, 0x00000000, 0x00000000, 0x00000000, 0xa9e3e905, 0xfcefa3f8, 0x676f02d9, 0x8d2a4c8a);
    Steps28To32();
  }

  lemma Abc32To40(block: Block)
    requires Spells(block) && At(block, 32, Machine(0x790a77fb, 0x726342d3, 0xa62884aa, 0x9f47e4f8))
    ensures At(block, 40, Machine(0x21b117b9, 0x5a2f5ea5, 0x3575227e, 0x6e7429d5))
  {
    hide Num, At, Four3, BlockWord;
    NumDigits(0xfffa3942);
    NumDigits(0x8771f681);
    NumDigits(0x6d9d6122);
    NumDigits(0xfde5380c);
    NumDigits(0xa4beea44);
    NumDigits(0x4bdecfa9);
    NumDigits(0xf6bb4b60);
    NumDigits(0xbebfbc70);
    Four3Is(block, 32, Machine(0x790a77fb, 0x726342d3, 0xa62884aa, 0x9f47e4f8),
            0x00000000, 0x00000000, 0x00000000, 0x00000018, 0xfffa3942, 0x8771f681, 0x6d9d6122, 0xfde5380c);
    Steps32To36();
    Four3Is(block, 36, Machine(0xb3707ebf, 0x3b0875c7, 0x8d212ff5, 0x60127b2e),
            0x00000000, 0x00000000, 0x00000000, 0x00000000, 0xa4beea44, 0x4bdecfa9, 0xf6bb4b60, 0xbebfbc70);
    Steps36To40();
  }

  lemma Abc40To48(block: Block)
    requires Spells(block) && At(block, 40, Machine(0x21b117b9, 0x5a2f5ea5, 0x3575227e, 0x6e7429d5))
    ensures At(block, 48, Machine(0x7f2e507b, 0x7beb9700, 0x8fae6399, 0x99d9679d))
  {
    hide Num, At, Four3, BlockWord;
    NumDigits(0x289b7ec6);
    NumDigits(0xeaa127fa);
    NumDigits(0xd4ef3085);
    NumDigits(0x04881d05);
    NumDigits(0xd9d4d039);
    NumDigits(0xe6db99e5);
    NumDigits(0x1fa27cf8);
    NumDigits(0xc4ac5665);
    Four3Is(block, 40, Machine(0x21b117b9, 0x5a2f5ea5, 0x3575227e, 0x6e7429d5),
            0x00000000, 0x80636261, 0x00000000, 0x00000000, 0x289b7ec6, 0xeaa127fa, 0xd4ef3085, 0x04881d05);
    Steps40To44();
    Four3Is(block, 44, Machine(0x11de1779, 0x4c6124f4, 0x31c465ca, 0xfadcaa38),
            0x00000000, 0x00000000, 0x00000000, 0x00000000, 0xd9d4d039, 0xe6db99e5, 0x1fa27cf8, 0xc4ac5665);
    Steps44To48();
  }

  lemma Abc48To56(block: Block)
    requires Spells(block) && At(block, 48, Machine(0x7f2e507b, 0x7beb9700, 0x8fae6399, 0x99d9679d))
    ensures At(block, 56, Machine(0x06cc5e8a, 0x3bfa2c27, 0x7d632dd0, 0x5b0d97aa))
  {
    hide Num, At, Four4, BlockWord;
    NumDigits(0xf4292244);
    NumDigits(0x432aff97);
    NumDigits(0xab9423a7);
    NumDigits(0xfc93a039);
    NumDigits(0x655b59c3);
    NumDigits(0x8f0ccc92);
    NumDigits(0xffeff47d);
    NumDigits(0x85845dd1);
    Four4Is(block, 48, Machine(0x7f2e507b, 0x7beb9700, 0x8fae6399, 0x99d9679d),
            0x80636261, 0x00000000, 0x00000018, 0x00000000, 0xf4292244, 0x432aff97, 0xab9423a7, 0xfc93a039);
    Steps48To52();
    Four4Is(block, 52, Machine(0x7b201df8, 0x8bf025c4, 0xb298cefd, 0xf4e8e96e),
            0x00000000, 0x00000000, 0x00000000, 0x00000000, 0x655b59c3, 0x8f0ccc92, 0xffeff47d, 0x85845dd1);
    Steps52To56();
  }

  lemma Abc56To64(block: Block)
    requires Spells(block) && At(block, 56, Machine(0x06cc5e8a, 0x3bfa2c27, 0x7d632dd0, 0x5b0d97aa))
    ensures At(block, 64, Machine(0x310ade8f, 0xc08226b3, 0xe484b9d8, 0x624d8cb2))
  {
    hide Num, At, Four4, BlockWord;
    NumDigits(0x6fa87e4f);
    NumDigits(0xfe2ce6e0);
    NumDigits(0xa3014314);
    NumDigits(0x4e0811a1);
    NumDigits(0xf7537e82);
    NumDigits(0xbd3af235);
    NumDigits(0x2ad7d2bb);
    NumDigits(0xeb86d391);
    Four4Is(block, 56, Machine(0x06cc5e8a, 0x3bfa2c27, 0x7d632dd0, 0x5b0d97aa),
            0x00000000, 0x00000000, 0x00000000, 0x00000000, 0x6fa87e4f, 0xfe2ce6e0, 0xa3014314, 0x4e0811a1);
    Steps56To60();
    Four4Is(block, 60, Machine(0x7f81cc35, 0x7327d604, 0x4f9dbe3f, 0x094454ab),
            0x00000000, 0x00000000, 0x00000000, 0x00000000, 0xf7537e82, 0xbd3af235, 0x2ad7d2bb, 0xeb86d391);
    Steps60To64();
  }

  /** The only block of the padded message. */
  lemma AbcBlock()
    ensures |Pad(ABC)| == 64
    ensures Pad(ABC)[..4] == [0x61, 0x62, 0x63, 0x80] && Pad(ABC)[56..60] == [24, 0, 0, 0]
    ensures forall i :: 4 <= i < 56 || 60 <= i < 64 ==> Pad(ABC)[i] == 0
  {
    assert (55 - |ABC|) % 64 == 52;
    var field := LengthField(24);
    LengthBytes();
    var p := Pad(ABC);
    assert p == ABC + [0x80] + Zeros(52) + field;
    forall i | 4 <= i < 56 || 60 <= i < 64
      ensures p[i] == 0
    {
      if i < 56 { ZeroAt(52, i - 4); }
    }
  }

  lemma LengthBytes()
    ensures LengthField(24) == [24, 0, 0, 0, 0, 0, 0, 0]
  {
    assert 24 / B % B == 0 && BytesLE(24) == [24, 0, 0, 0] && BytesLE(0) == [0, 0, 0, 0];
    TwoWords(24, 0);
  }

  lemma TwoWords(x: Word, y: Word)
    ensures LEBytes([x, y]) == BytesLE(x) + BytesLE(y)
  {
    assert [x, y][..1] == [x] && [x][..0] == [];
    assert LEBytes([x]) == LEBytes([]) + BytesLE(x);
  }

  lemma AbcSpells(block: Block)
    requires block == Pad(ABC)
    ensures Spells(block)
  {
    hide Num, Pad;
    AbcBlock();
    NumDigits(0x80636261);
    NumDigits(0x18);
    NumDigits(0);
    forall k | 0 <= k < 16
      ensures BlockWord(block, k) == if k == 0 then Num(0x80636261) else if k == 14 then Num(0x18) else Num(0)
    {
      if k == 0 {
        assert block[0..4] == [0x61, 0x62, 0x63, 0x80];
      } else if k == 14 {
        assert block[56..60] == [24, 0, 0, 0];
      } else {
        assert block[4 * k..4 * k + 4] == [0, 0, 0, 0];
      }
    }
  }

  lemma InitialWords()
    ensures INIT == StateOf(Machine(0x67452301, 0xefcdab89, 0x98badcfe, 0x10325476))
  {
    hide Num;
    NumDigits(0x67452301);
    NumDigits(0xefcdab89);
    NumDigits(0x98badcfe);
    NumDigits(0x10325476);
  }

  lemma AbcState(block: Block)
    requires block == Pad(ABC)
    ensures Compress(INIT, block) == State(0x98500190, 0xb04fd23c, 0x7d3f96d6, 0x727fe128)
  {
    hide Num, Spells, Pad;
    AbcSpells(block);
    InitialWords();
    Abc0To8(block);
    Abc8To16(block);
    Abc16To24(block);
    Abc24To32(block);
    Abc32To40(block);
    Abc40To48(block);
    Abc48To56(block);
    Abc56To64(block);
    NumDigits(0x310ade8f);
    NumDigits(0xc08226b3);
    NumDigits(0xe484b9d8);
    NumDigits(0x624d8cb2);
  }

  /** MD5 of "abc", from the test suite of RFC 1321, appendix A.5. */
  lemma AbcDigest()
    ensures Digest(ABC) == [0x90, 0x01, 0x50, 0x98, 0x3c, 0xd2, 0x4f, 0xb0,
                            0xd6, 0x96, 0x3f, 0x7d, 0x28, 0xe1, 0x7f, 0x72]
  {
    hide Compress, Pad;
    AbcBlock();
    var p := Pad(ABC);
    assert p[..0] == [] && p[0..] == p;
    AbcState(p);
    FourWords(0x98500190, 0xb04fd23c, 0x7d3f96d6, 0x727fe128);
  }

  lemma FourWords(a: Word, b: Word, c: Word, d: Word)
    ensures LEBytes([a, b, c, d]) == BytesLE(a) + BytesLE(b) + BytesLE(c) + BytesLE(d)
  {
    TwoWords(a, b);
    assert [a, b, c, d][..3] == [a, b, c] && [a, b, c][..2] == [a, b];
    assert LEBytes([a, b, c]) == LEBytes([a, b]) + BytesLE(c);
  }
}
