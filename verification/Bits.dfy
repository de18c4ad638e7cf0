/** Bitwise operations and rotations on 32-bit words, as functions on numbers below 2^32. */
module Bits {
  import opened WordArith

  datatype BitOp = And | Or | Xor
  {
    function Apply(x: int, y: int): (r: int)
      requires 0 <= x <= 1 && 0 <= y <= 1
      ensures 0 <= r <= 1
    {
      match this
      case And => if x == 1 && y == 1 then 1 else 0
      case Or => if x == 1 || y == 1 then 1 else 0
      case Xor => if x == y then 0 else 1
    }
  }

  /** The operation on the k low bits, bit by bit. */
  function Bitwise(op: BitOp, k: nat, x: nat, y: nat): (r: nat)
    ensures r < Pow(2, k)
    decreases k, x
  {
    if k == 0 then 0 else op.Apply(x % 2, y % 2) + 2 * Bitwise(op, k - 1, x / 2, y / 2)
  }

  function BAnd(x: Word, y: Word): Word { WordPow(); Bitwise(And, 32, x, y) }
  function BOr(x: Word, y: Word): Word { WordPow(); Bitwise(Or, 32, x, y) }
  function BXor(x: Word, y: Word): Word { WordPow(); Bitwise(Xor, 32, x, y) }
  function BNot(x: Word): Word { B - 1 - x }

  lemma BytePow()
    ensures Pow(2, 8) == 256
  {
    PowAdd(2, 4, 4);
    assert Pow(2, 4) == 16;
  }

  function ByteAnd(x: Byte, y: Byte): Byte { BytePow(); Bitwise(And, 8, x, y) }
  function ByteXor(x: Byte, y: Byte): Byte { BytePow(); Bitwise(Xor, 8, x, y) }

  lemma {:induction false} XorZero(k: nat, x: nat, y: nat)
    requires x < Pow(2, k) && y < Pow(2, k)
    ensures Bitwise(Xor, k, x, y) == 0 <==> x == y
    decreases k
  {
    if k > 0 {
      XorZero(k - 1, x / 2, y / 2);
    }
  }

  lemma {:induction false} AndOnes(k: nat, x: nat, y: nat)
    requires x == Pow(2, k) - 1 && y < Pow(2, k)
    ensures Bitwise(And, k, x, y) == y
    decreases k
  {
    if k > 0 {
      AndOnes(k - 1, x / 2, y / 2);
    }
  }

  /** A byte of all ones takes any value. */
  lemma ByteAndOnes(y: Byte)
    ensures ByteAnd(0xff, y) == y
  {
    BytePow();
    AndOnes(8, 0xff, y);
  }

  /** uint32_t addition. */
  function Add(x: Word, y: Word): Word { if x + y < B then x + y else x + y - B }

  /** (x << k) | (x >> (32 - k)). */
  function Rol1(x: Word): Word { BOr((2 * x) % B, x / 0x8000_0000) }
  function Rol5(x: Word): Word { BOr((0x20 * x) % B, x / 0x800_0000) }
  function Rol30(x: Word): Word { BOr((0x4000_0000 * x) % B, x / 4) }

  lemma {:induction false} BitwiseComm(op: BitOp, k: nat, x: nat, y: nat)
    ensures Bitwise(op, k, x, y) == Bitwise(op, k, y, x)
    decreases k
  {
    if k > 0 { BitwiseComm(op, k - 1, x / 2, y / 2); }
  }

  /** Addition modulo 2^32 may be regrouped. */
  lemma AddRegroup(e: Word, r: Word, w: Word, f: Word, k: Word)
    ensures Add(e, Add(Add(Add(r, w), f), k)) == Add(Add(Add(r, e), w), Add(f, k))
  {}

  lemma AddChain(a: Word, f: Word, x: Word, k: Word)
    ensures Add(a, Add(Add(f, x), k)) == Add(Add(Add(a, f), x), k)
  {}

  lemma AddComm(x: Word, y: Word)
    ensures Add(x, y) == Add(y, x)
  {}

  /** (x << n) | (x >> (32 - n)) for the shifts that MD5 uses. */
  function Rotl(x: Word, n: nat): Word
  {
    match n
    case 4 => BOr((0x10 * x) % B, x / 0x10000000)
    case 5 => BOr((0x20 * x) % B, x / 0x8000000)
    case 6 => BOr((0x40 * x) % B, x / 0x4000000)
    case 7 => BOr((0x80 * x) % B, x / 0x2000000)
    case 9 => BOr((0x200 * x) % B, x / 0x800000)
    case 10 => BOr((0x400 * x) % B, x / 0x400000)
    case 11 => BOr((0x800 * x) % B, x / 0x200000)
    case 12 => BOr((0x1000 * x) % B, x / 0x100000)
    case 14 => BOr((0x4000 * x) % B, x / 0x40000)
    case 15 => BOr((0x8000 * x) % B, x / 0x20000)
    case 16 => BOr((0x10000 * x) % B, x / 0x10000)
    case 17 => BOr((0x20000 * x) % B, x / 0x8000)
    case 20 => BOr((0x100000 * x) % B, x / 0x1000)
    case 21 => BOr((0x200000 * x) % B, x / 0x800)
    case 22 => BOr((0x400000 * x) % B, x / 0x400)
    case 23 => BOr((0x800000 * x) % B, x / 0x200)
    case _ => x
  }
}
