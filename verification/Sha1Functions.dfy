/** The functions of FIPS 180-4, section 4.1.1, on 32-bit vectors. */
module Sha1Functions {
  import opened WordBits

  function Ch(x: bv32, y: bv32, z: bv32): bv32 { (x & y) ^ (!x & z) }
  function Parity(x: bv32, y: bv32, z: bv32): bv32 { x ^ y ^ z }
  function Maj(x: bv32, y: bv32, z: bv32): bv32 { (x & y) ^ (x & z) ^ (y & z) }

  /** Ch takes the bits of y where x is set, and those of z elsewhere. */
  lemma ChChooses(x: bv32, y: bv32, z: bv32)
    ensures Ch(x, y, z) & x == y & x && Ch(x, y, z) & !x == z & !x
  {}

  /** Maj is set where two of the three are. */
  lemma MajCounts(x: bv32, y: bv32, z: bv32)
    ensures Maj(x, y, z) == (x & y) | (x & z) | (y & z)
  {}

  // ---------------------------------------------------------------- how the code computes them

  lemma ChoiceForm(x: bv32, y: bv32, z: bv32)
    ensures XorOf(z, AndOf(x, XorOf(y, z))) == Ch(x, y, z)
  {}

  lemma ParityForm(x: bv32, y: bv32, z: bv32)
    ensures XorOf(XorOf(x, y), z) == Parity(x, y, z)
  {
    hide XorOf, Parity;
    XorIs(x, y);
    XorIs(XorOf(x, y), z);
    Three(x, y, z, XorOf(x, y));
  }

  lemma Three(x: bv32, y: bv32, z: bv32, xy: bv32)
    requires xy == x ^ y
    ensures xy ^ z == Parity(x, y, z)
  {}

  lemma MajorityForm(x: bv32, y: bv32, z: bv32)
    ensures OrOf(AndOf(x, y), AndOf(z, OrOf(x, y))) == Maj(x, y, z)
  {}

  /** The four words of the schedule. */
  lemma MixedForm(a: bv32, b: bv32, c: bv32, d: bv32)
    ensures XorOf(XorOf(XorOf(a, b), c), d) == a ^ b ^ c ^ d
  {
    hide XorOf, Parity;
    ParityForm(a, b, c);
    XorIs(Parity(a, b, c), d);
    Four(a, b, c, d, Parity(a, b, c));
  }

  lemma Four(a: bv32, b: bv32, c: bv32, d: bv32, abc: bv32)
    requires abc == Parity(a, b, c)
    ensures abc ^ d == a ^ b ^ c ^ d
  {}

  lemma XorIs(x: bv32, y: bv32)
    ensures XorOf(x, y) == x ^ y
  {}

  function Left1(v: bv32): bv32 { (v << 1) | (v >> 31) }
  function Left5(v: bv32): bv32 { (v << 5) | (v >> 27) }
  function Left30(v: bv32): bv32 { (v << 30) | (v >> 2) }

  lemma Rotate1(v: bv32)
    ensures Rotate(v, 1) == Left1(v)
  {}

  lemma Rotate5(v: bv32)
    ensures Rotate(v, 5) == Left5(v)
  {}

  lemma Rotate30(v: bv32)
    ensures Rotate(v, 30) == Left30(v)
  {}
}
