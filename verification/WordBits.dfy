/** The operations on words as numbers are those of a machine: & | ^ ~ + << >> on 32-bit vectors. */
module WordBits {
  import opened WordArith
  import opened Bits

  // ---------------------------------------------------------------- the machine's operations

  predicate Odd(v: bv32) { v & 1 == 1 }
  function Half(v: bv32): bv32 { v >> 1 }
  function AndOf(x: bv32, y: bv32): bv32 { x & y }
  function OrOf(x: bv32, y: bv32): bv32 { x | y }
  function XorOf(x: bv32, y: bv32): bv32 { x ^ y }
  function NotOf(x: bv32): bv32 { !x }
  function SumOf(x: bv32, y: bv32): bv32 { x + y }

  lemma AndStep(x: bv32, y: bv32)
    ensures Half(AndOf(x, y)) == AndOf(Half(x), Half(y)) && (Odd(AndOf(x, y)) <==> Odd(x) && Odd(y))
  {}

  lemma OrStep(x: bv32, y: bv32)
    ensures Half(OrOf(x, y)) == OrOf(Half(x), Half(y)) && (Odd(OrOf(x, y)) <==> Odd(x) || Odd(y))
  {}

  lemma XorStep(x: bv32, y: bv32)
    ensures Half(XorOf(x, y)) == XorOf(Half(x), Half(y)) && (Odd(XorOf(x, y)) <==> (Odd(x) <==> !Odd(y)))
  {}

  // ---------------------------------------------------------------- the number of a bit vector

  function Bit(v: bv32): (b: nat)
    ensures b <= 1
  {
    if Odd(v) then 1 else 0
  }

  /** The number that the low k bits stand for. */
  function Low(v: bv32, k: nat): nat
    decreases k
  {
    if k == 0 then 0 else Bit(v) + 2 * Low(Half(v), k - 1)
  }

  lemma LowParts(v: bv32, k: nat)
    requires k > 0
    ensures Low(v, k) % 2 == Bit(v) && Low(v, k) / 2 == Low(Half(v), k - 1)
  {}

  lemma {:induction false} LowRange(v: bv32, k: nat)
    ensures Low(v, k) < Pow(2, k)
    decreases k
  {
    hide Odd, Half;
    if k > 0 { LowRange(Half(v), k - 1); }
  }

  function Num(v: bv32): Word
  {
    LowRange(v, 32);
    WordPow();
    Low(v, 32)
  }

  /** The lowest hexadecimal digit, and what is above it. */
  function Digit(v: bv32): int { ((v & 0xf) as bv4) as int }
  function Above(v: bv32): bv32 { v >> 4 }

  lemma FourBits(v: bv32)
    ensures Low(v, 4) == Digit(v)
  {}

  lemma FourHalves(v: bv32)
    ensures Half(Half(Half(Half(v)))) == Above(v)
  {}

  lemma LowDigit(v: bv32, k: nat)
    ensures Low(v, k + 4) == Digit(v) + 16 * Low(Above(v), k)
  {
    hide Odd, Half, Digit, Above;
    FourBits(v);
    FourHalves(v);
    var a, b, c := Half(v), Half(Half(v)), Half(Half(Half(v)));
    assert Low(v, k + 4) == Bit(v) + 2 * Low(a, k + 3);
    assert Low(a, k + 3) == Bit(a) + 2 * Low(b, k + 2);
    assert Low(b, k + 2) == Bit(b) + 2 * Low(c, k + 1);
    assert Low(c, k + 1) == Bit(c) + 2 * Low(Half(c), k);
    assert Low(v, 4) == Bit(v) + 2 * Low(a, 3);
    assert Low(a, 3) == Bit(a) + 2 * Low(b, 2);
    assert Low(b, 2) == Bit(b) + 2 * Low(c, 1);
    assert Low(c, 1) == Bit(c) + 2 * Low(Half(c), 0);
  }

  lemma Aboves(v: bv32)
    ensures Above(v) == v >> 4 && Above(v >> 4) == v >> 8 && Above(v >> 8) == v >> 12 && Above(v >> 12) == v >> 16
    ensures Above(v >> 16) == v >> 20 && Above(v >> 20) == v >> 24 && Above(v >> 24) == v >> 28
  {}

  /** The low seven digits. */
  function SevenDigits(v: bv32): int
  {
    Digit(v) + 0x10 * Digit(v >> 4) + 0x100 * Digit(v >> 8) + 0x1000 * Digit(v >> 12) + 0x10000 * Digit(v >> 16)
    + 0x100000 * Digit(v >> 20) + 0x1000000 * Digit(v >> 24)
  }

  lemma LowDigits(v: bv32, k: nat)
    ensures Low(v, k + 28) == SevenDigits(v) + 0x10000000 * Low(v >> 28, k)
  {
    hide Low, Digit, Above;
    Aboves(v);
    LowDigit(v, k + 24);
    LowDigit(v >> 4, k + 20);
    LowDigit(v >> 8, k + 16);
    LowDigit(v >> 12, k + 12);
    LowDigit(v >> 16, k + 8);
    LowDigit(v >> 20, k + 4);
    LowDigit(v >> 24, k);
  }

  /** The number, digit by digit: what a machine prints in hexadecimal. */
  lemma NumDigits(v: bv32)
    ensures Num(v) == SevenDigits(v) + 0x10000000 * Digit(v >> 28)
  {
    hide Low, Digit, SevenDigits;
    LowDigits(v, 4);
    FourBits(v >> 28);
  }

  lemma {:induction false} LowAnd(k: nat, x: bv32, y: bv32)
    ensures Bitwise(And, k, Low(x, k), Low(y, k)) == Low(AndOf(x, y), k)
    decreases k
  {
    hide Odd, Half, AndOf;
    if k > 0 {
      AndStep(x, y);
      LowParts(x, k);
      LowParts(y, k);
      LowAnd(k - 1, Half(x), Half(y));
    }
  }

  lemma {:induction false} LowOr(k: nat, x: bv32, y: bv32)
    ensures Bitwise(Or, k, Low(x, k), Low(y, k)) == Low(OrOf(x, y), k)
    decreases k
  {
    hide Odd, Half, OrOf;
    if k > 0 {
      OrStep(x, y);
      LowParts(x, k);
      LowParts(y, k);
      LowOr(k - 1, Half(x), Half(y));
    }
  }

  lemma {:induction false} LowXor(k: nat, x: bv32, y: bv32)
    ensures Bitwise(Xor, k, Low(x, k), Low(y, k)) == Low(XorOf(x, y), k)
    decreases k
  {
    hide Odd, Half, XorOf;
    if k > 0 {
      XorStep(x, y);
      LowParts(x, k);
      LowParts(y, k);
      LowXor(k - 1, Half(x), Half(y));
    }
  }

  /** BAnd, BOr and BXor are the machine's operations. */
  lemma NumOp(x: bv32, y: bv32)
    ensures BAnd(Num(x), Num(y)) == Num(AndOf(x, y))
    ensures BOr(Num(x), Num(y)) == Num(OrOf(x, y))
    ensures BXor(Num(x), Num(y)) == Num(XorOf(x, y))
  {
    hide Bitwise, Low, AndOf, OrOf, XorOf;
    LowAnd(32, x, y);
    LowOr(32, x, y);
    LowXor(32, x, y);
  }

  // ---------------------------------------------------------------- the top bit

  const TOP_OFF: bv32 := 0x7fff_ffff

  lemma AllOnes()
    ensures Low(TOP_OFF, 31) == Pow(2, 31) - 1
  {
    hide Pow;
    HalfPow();
    LowDigits(TOP_OFF, 3);
    assert SevenDigits(TOP_OFF) == 0xfff_ffff;
    assert Low(7, 3) == 7;
  }

  lemma HalfPow()
    ensures Pow(2, 31) == 0x8000_0000
  {
    WordPow();
  }

  lemma TopOff(v: bv32)
    ensures Low(AndOf(v, TOP_OFF), 31) == Low(v, 31)
  {
    hide Bitwise, Low, AndOf;
    AllOnes();
    LowAnd(31, v, TOP_OFF);
    BitwiseComm(And, 31, Low(v, 31), Low(TOP_OFF, 31));
    LowRange(v, 31);
    AndOnes(31, Low(TOP_OFF, 31), Low(v, 31));
  }

  /** The top bit does not matter for the others. */
  lemma {:induction false} SameLow(v: bv32, w: bv32, k: nat)
    requires AndOf(v, TOP_OFF) == AndOf(w, TOP_OFF) && k <= 31
    ensures Low(v, k) == Low(w, k)
  {
    hide Low, AndOf;
    TopOff(v);
    TopOff(w);
    LowFewer(v, w, k, 31);
  }

  lemma {:induction false} LowFewer(v: bv32, w: bv32, k: nat, n: nat)
    requires k <= n && Low(v, n) == Low(w, n)
    ensures Low(v, k) == Low(w, k)
    decreases k
  {
    hide Odd, Half;
    if k > 0 { LowFewer(Half(v), Half(w), k - 1, n - 1); }
  }

  // ---------------------------------------------------------------- addition

  function Carried(x: bv32, y: bv32, c: bv32): bv32 { x + y + c }
  function Carry(x: bv32, y: bv32, c: bv32): bv32 { ((x & y) | (x & c) | (y & c)) & 1 }

  lemma CarryStep(x: bv32, y: bv32, c: bv32)
    ensures Odd(Carried(x, y, c)) <==> ((Odd(x) <==> Odd(y)) <==> Odd(c))
    ensures Odd(Carry(x, y, c)) <==> (Odd(x) && Odd(y)) || (Odd(x) && Odd(c)) || (Odd(y) && Odd(c))
    ensures Carry(x, y, c) <= 1
  {}

  lemma CarryOn(x: bv32, y: bv32, c: bv32)
    requires c <= 1
    ensures AndOf(Half(Carried(x, y, c)), TOP_OFF) == AndOf(Carried(Half(x), Half(y), Carry(x, y, c)), TOP_OFF)
  {}

  /** Addition of the low k bits, modulo 2^k. */
  lemma {:induction false} LowSum(k: nat, x: bv32, y: bv32, c: bv32)
    requires k <= 32 && c <= 1
    ensures var s := Low(x, k) + Low(y, k) + Bit(c);
            Low(Carried(x, y, c), k) == if s < Pow(2, k) then s else s - Pow(2, k)
    decreases k
  {
    hide Odd, Half, Carried, Carry, AndOf;
    LowRange(x, k);
    LowRange(y, k);
    if k > 0 {
      CarryStep(x, y, c);
      CarryOn(x, y, c);
      LowParts(Carried(x, y, c), k);
      SameLow(Half(Carried(x, y, c)), Carried(Half(x), Half(y), Carry(x, y, c)), k - 1);
      LowSum(k - 1, Half(x), Half(y), Carry(x, y, c));
    }
  }

  lemma NoCarry(x: bv32, y: bv32)
    ensures Carried(x, y, 0) == SumOf(x, y) && !Odd(0)
  {}

  lemma NumSum(x: bv32, y: bv32)
    ensures Add(Num(x), Num(y)) == Num(SumOf(x, y))
  {
    hide Low, Carried, SumOf, Odd;
    NoCarry(x, y);
    LowSum(32, x, y, 0);
    LowRange(SumOf(x, y), 32);
    WordPow();
  }

  lemma AllBits(x: bv32)
    ensures SumOf(x, NotOf(x)) == 0xffff_ffff
  {}

  /** BNot is the machine's complement. */
  lemma NumNot(x: bv32)
    ensures BNot(Num(x)) == Num(NotOf(x))
  {
    hide Num, SumOf, NotOf;
    AllBits(x);
    NumSum(x, NotOf(x));
    NumDigits(0xffff_ffff);
  }

  // ---------------------------------------------------------------- shifts

  function Twice(v: bv32): bv32 { v << 1 }

  lemma TwiceIs(v: bv32)
    ensures Twice(v) == SumOf(v, v)
  {}

  /** v doubled n times, and halved n times. */
  function Doubled(v: bv32, n: nat): bv32 decreases n { if n == 0 then v else Twice(Doubled(v, n - 1)) }
  function Halved(v: bv32, n: nat): bv32 decreases n { if n == 0 then v else Half(Halved(v, n - 1)) }

  lemma {:induction false} NumDoubled(v: bv32, n: nat)
    ensures Num(Doubled(v, n)) == (Pow(2, n) * Num(v)) % B
    decreases n
  {
    hide Num, SumOf, Twice;
    if n > 0 {
      NumDoubled(v, n - 1);
      PowTwo(n - 1);
      NumTwice(Doubled(v, n - 1), Pow(2, n - 1), Num(v));
    } else {
      Remainder(Num(v), B, 0, Num(v));
    }
  }

  lemma {:induction false} PowTwo(n: nat)
    ensures Pow(2, n) > 0
  {
    if n > 0 { PowTwo(n - 1); }
  }

  lemma NumTwice(u: bv32, p: int, x: nat)
    requires p >= 0 && Num(u) == (p * x) % B
    ensures Num(Twice(u)) == ((2 * p) * x) % B
  {
    hide Num, SumOf, Twice;
    TwiceIs(u);
    NumSum(u, u);
    assert (2 * p) * x == 2 * (p * x) && p * x >= 0;
    DoubleMod(p * x);
    Remainder(2 * Num(u), B, if 2 * Num(u) < B then 0 else 1, Num(Twice(u)));
  }

  lemma DoubleMod(x: nat)
    ensures (2 * (x % B)) % B == (2 * x) % B
  {
    var y := 2 * (x % B);
    assert x == B * (x / B) + x % B && y == B * (y / B) + y % B;
    Remainder(2 * x, B, 2 * (x / B) + y / B, y % B);
  }

  lemma NumHalf(v: bv32)
    ensures Num(Half(v)) == Num(v) / 2
  {
    hide Odd;
    HalfTop(v);
    TopBit(Half(v));
    LowParts(v, 32);
  }

  lemma HalfTop(v: bv32)
    ensures Half(v) & TOP_OFF == Half(v)
  {}

  lemma TopBit(v: bv32)
    requires v & TOP_OFF == v
    ensures Low(v, 32) == Low(v, 31)
  {
    hide Low, SevenDigits;
    LowDigits(v, 4);
    LowDigits(v, 3);
    TopDigit(v);
  }

  lemma TopDigit(v: bv32)
    requires v & TOP_OFF == v
    ensures Low(v >> 28, 4) == Low(v >> 28, 3)
  {
    hide Half, Odd;
    NoTop(v);
    var u := v >> 28;
    assert Low(u, 4) == Bit(u) + 2 * Low(Half(u), 3);
    assert Low(Half(Half(Half(u))), 1) == Bit(Half(Half(Half(u)))) == 0;
  }

  lemma NoTop(v: bv32)
    requires v & TOP_OFF == v
    ensures !Odd(Half(Half(Half(v >> 28))))
  {}

  lemma {:induction false} NumHalved(v: bv32, n: nat)
    ensures Pow(2, n) > 0 && Num(Halved(v, n)) == Num(v) / Pow(2, n)
    decreases n
  {
    hide Num, Half;
    if n > 0 {
      NumHalved(v, n - 1);
      NumHalf(Halved(v, n - 1));
      HalfOf(Num(v), Pow(2, n - 1));
    }
  }

  lemma HalfOf(x: nat, p: nat)
    requires p > 0
    ensures x / p / 2 == x / (2 * p)
  {
    var q := x / p;
    assert x == p * q + x % p && q == 2 * (q / 2) + q % 2;
    assert p * q == (2 * p) * (q / 2) + p * (q % 2);
    assert p * (q % 2) <= p;
    Remainder(x, 2 * p, q / 2, p * (q % 2) + x % p);
  }

  function Up(v: bv32, n: bv32): bv32 requires n <= 32 { v << n }
  function Down(v: bv32, n: bv32): bv32 requires n <= 32 { v >> n }

  lemma {:induction false} DoubledIs(v: bv32, n: bv5)
    ensures Doubled(v, n as int) == Up(v, n as bv32)
    decreases n
  {
    hide Twice, Up;
    if n > 0 {
      OneLess(n);
      DoubledIs(v, n - 1);
      TwiceMore(v, n as bv32);
    } else {
      Unmoved(v);
    }
  }

  lemma {:induction false} HalvedIs(v: bv32, n: bv5)
    ensures Halved(v, n as int) == Down(v, n as bv32)
    decreases n
  {
    hide Half, Down;
    if n > 0 {
      OneLess(n);
      HalvedIs(v, n - 1);
      HalfMore(v, n as bv32);
    } else {
      Unmoved(v);
    }
  }

  lemma OneLess(n: bv5)
    requires n > 0
    ensures (n - 1) as int == n as int - 1 && (n - 1) as bv32 == (n as bv32) - 1 && 0 < n as bv32 < 32
  {}

  lemma Unmoved(v: bv32)
    ensures Up(v, 0) == v && Down(v, 0) == v
  {}

  lemma TwiceMore(v: bv32, n: bv32)
    requires 0 < n < 32
    ensures Twice(Up(v, n - 1)) == Up(v, n)
  {}

  lemma HalfMore(v: bv32, n: bv32)
    requires 0 < n < 32
    ensures Half(Down(v, n - 1)) == Down(v, n)
  {}

  // ---------------------------------------------------------------- rotation

  lemma Amount(n: bv5)
    ensures n as bv32 < 32
  {}

  function Rotate(v: bv32, n: bv5): bv32
  {
    Amount(n);
    OrOf(Up(v, n as bv32), Down(v, 32 - (n as bv32)))
  }

  lemma Opposite(n: bv5)
    requires n > 0
    ensures 0 < n as int < 32 && (0 - n) as int == 32 - n as int && (0 - n) as bv32 == 32 - (n as bv32)
  {}

  /** (x << n) | (x >> (32 - n)), as powers of two say it. */
  lemma NumRotate(v: bv32, n: bv5, k: nat, hi: Word, lo: Word)
    requires n > 0 && k == n as int && k < 32
    requires hi == (Pow(2, k) * Num(v)) % B && Pow(2, 32 - k) > 0 && lo == Num(v) / Pow(2, 32 - k)
    ensures BOr(hi, lo) == Num(Rotate(v, n))
  {
    hide Num, Doubled, Halved, Up, Down, OrOf, BOr, Pow;
    Amount(n);
    Opposite(n);
    NumDoubled(v, k);
    NumHalved(v, 32 - k);
    DoubledIs(v, n);
    HalvedIs(v, 0 - n);
    NumOp(Up(v, n as bv32), Down(v, 32 - (n as bv32)));
  }

  lemma Powers()
    ensures Pow(2, 1) == 2 && Pow(2, 2) == 4 && Pow(2, 3) == 8 && Pow(2, 4) == 0x10
    ensures Pow(2, 5) == 0x20 && Pow(2, 6) == 0x40 && Pow(2, 7) == 0x80 && Pow(2, 8) == 0x100
    ensures Pow(2, 9) == 0x200 && Pow(2, 10) == 0x400 && Pow(2, 11) == 0x800 && Pow(2, 12) == 0x1000
    ensures Pow(2, 13) == 0x2000 && Pow(2, 14) == 0x4000 && Pow(2, 15) == 0x8000 && Pow(2, 16) == 0x10000
    ensures Pow(2, 17) == 0x20000 && Pow(2, 18) == 0x40000 && Pow(2, 20) == 0x100000 && Pow(2, 21) == 0x200000
    ensures Pow(2, 22) == 0x400000 && Pow(2, 23) == 0x800000 && Pow(2, 25) == 0x2000000
    ensures Pow(2, 26) == 0x4000000 && Pow(2, 27) == 0x8000000 && Pow(2, 28) == 0x10000000
    ensures Pow(2, 30) == 0x40000000 && Pow(2, 31) == 0x80000000
  {
    assert Pow(2, 8) == 0x100;
    assert Pow(2, 16) == 0x10000;
    assert Pow(2, 24) == 0x1000000;
  }

  /** Every word is the number of a vector. */
  lemma {:induction false} VectorOf(x: Word) returns (v: bv32)
    ensures Num(v) == x
    decreases x
  {
    hide Num, SumOf, Twice;
    NumDigits(0);
    NumDigits(1);
    if x == 0 {
      v := 0;
    } else {
      var u := VectorOf(x / 2);
      var bit: bv32 := if x % 2 == 1 then 1 else 0;
      NumTwice(u, 1, x / 2);
      NumSum(Twice(u), bit);
      v := SumOf(Twice(u), bit);
    }
  }

  /** Rotating words multiplies them modulo 2^32 - 1. */
  lemma RotationMultiplies(x: Word)
    ensures Rol1(x) == 2 * x - (B - 1) * (x / 0x8000_0000)
    ensures Rol5(x) == 0x20 * x - (B - 1) * (x / 0x800_0000)
    ensures Rol30(x) == 0x4000_0000 * x - (B - 1) * (x / 4)
  {
    hide Num, BOr, Pow;
    var v := VectorOf(x);
    Powers();
    HighAndLow(x);
    RotationAdds(v, 1, 1, (2 * x) % B, x / 0x8000_0000);
    RotationAdds(v, 5, 5, (0x20 * x) % B, x / 0x800_0000);
    RotationAdds(v, 30, 30, (0x4000_0000 * x) % B, x / 4);
  }

  lemma HighAndLow(x: Word)
    ensures (2 * x) % B + x / 0x8000_0000 == 2 * x - (B - 1) * (x / 0x8000_0000) < B
    ensures (0x20 * x) % B + x / 0x800_0000 == 0x20 * x - (B - 1) * (x / 0x800_0000) < B
    ensures (0x4000_0000 * x) % B + x / 4 == 0x4000_0000 * x - (B - 1) * (x / 4) < B
  {
    Remainder(2 * x, B, x / 0x8000_0000, 2 * (x % 0x8000_0000));
    Remainder(0x20 * x, B, x / 0x800_0000, 0x20 * (x % 0x800_0000));
    Remainder(0x4000_0000 * x, B, x / 4, 0x4000_0000 * (x % 4));
  }

  lemma NoneInCommon(a: bv32, b: bv32)
    requires AndOf(a, b) == 0
    ensures !(Odd(a) && Odd(b)) && AndOf(Half(a), Half(b)) == 0
  {
    AndStep(a, b);
  }

  lemma {:induction false} LowDisjoint(k: nat, a: bv32, b: bv32)
    requires AndOf(a, b) == 0
    ensures Low(OrOf(a, b), k) == Low(a, k) + Low(b, k)
    decreases k
  {
    hide Odd, Half, OrOf, AndOf;
    if k > 0 {
      OrStep(a, b);
      NoneInCommon(a, b);
      LowDisjoint(k - 1, Half(a), Half(b));
    }
  }

  lemma NoOverlap(v: bv32, n: bv32)
    requires 0 < n < 32
    ensures AndOf(Up(v, n), Down(v, 32 - n)) == 0
  {}

  /** The two parts of a rotated word do not overlap. */
  lemma RotationAdds(v: bv32, n: bv5, k: nat, hi: Word, lo: Word)
    requires n > 0 && k == n as int && k < 32
    requires hi == (Pow(2, k) * Num(v)) % B && Pow(2, 32 - k) > 0 && lo == Num(v) / Pow(2, 32 - k)
    ensures BOr(hi, lo) == hi + lo
  {
    hide Low, Doubled, Halved, Up, Down, OrOf, AndOf, BOr, Pow;
    Amount(n);
    Opposite(n);
    NumDoubled(v, k);
    NumHalved(v, 32 - k);
    DoubledIs(v, n);
    HalvedIs(v, 0 - n);
    var a, b := Up(v, n as bv32), Down(v, 32 - (n as bv32));
    NumOp(a, b);
    NoOverlap(v, n as bv32);
    LowDisjoint(32, a, b);
  }
}
