/** libcrc.c, local_crc32: the table-driven checksum against division of the message bit by bit. */
module Crc {
  type Bytes = seq<bv8>

  const ROW0: seq<bv32> :=
    [0x00000000, 0x77073096, 0xee0e612c, 0x990951ba, 0x076dc419, 0x706af48f, 0xe963a535, 0x9e6495a3]
  const ROW1: seq<bv32> :=
    [0x0edb8832, 0x79dcb8a4, 0xe0d5e91e, 0x97d2d988, 0x09b64c2b, 0x7eb17cbd, 0xe7b82d07, 0x90bf1d91]
  const ROW2: seq<bv32> :=
    [0x1db71064, 0x6ab020f2, 0xf3b97148, 0x84be41de, 0x1adad47d, 0x6ddde4eb, 0xf4d4b551, 0x83d385c7]
  const ROW3: seq<bv32> :=
    [0x136c9856, 0x646ba8c0, 0xfd62f97a, 0x8a65c9ec, 0x14015c4f, 0x63066cd9, 0xfa0f3d63, 0x8d080df5]
  const ROW4: seq<bv32> :=
    [0x3b6e20c8, 0x4c69105e, 0xd56041e4, 0xa2677172, 0x3c03e4d1, 0x4b04d447, 0xd20d85fd, 0xa50ab56b]
  const ROW5: seq<bv32> :=
    [0x35b5a8fa, 0x42b2986c, 0xdbbbc9d6, 0xacbcf940, 0x32d86ce3, 0x45df5c75, 0xdcd60dcf, 0xabd13d59]
  const ROW6: seq<bv32> :=
    [0x26d930ac, 0x51de003a, 0xc8d75180, 0xbfd06116, 0x21b4f4b5, 0x56b3c423, 0xcfba9599, 0xb8bda50f]
  const ROW7: seq<bv32> :=
    [0x2802b89e, 0x5f058808, 0xc60cd9b2, 0xb10be924, 0x2f6f7c87, 0x58684c11, 0xc1611dab, 0xb6662d3d]
  const ROW8: seq<bv32> :=
    [0x76dc4190, 0x01db7106, 0x98d220bc, 0xefd5102a, 0x71b18589, 0x06b6b51f, 0x9fbfe4a5, 0xe8b8d433]
  const ROW9: seq<bv32> :=
    [0x7807c9a2, 0x0f00f934, 0x9609a88e, 0xe10e9818, 0x7f6a0dbb, 0x086d3d2d, 0x91646c97, 0xe6635c01]
  const ROW10: seq<bv32> :=
    [0x6b6b51f4, 0x1c6c6162, 0x856530d8, 0xf262004e, 0x6c0695ed, 0x1b01a57b, 0x8208f4c1, 0xf50fc457]
  const ROW11: seq<bv32> :=
    [0x65b0d9c6, 0x12b7e950, 0x8bbeb8ea, 0xfcb9887c, 0x62dd1ddf, 0x15da2d49, 0x8cd37cf3, 0xfbd44c65]
  const ROW12: seq<bv32> :=
    [0x4db26158, 0x3ab551ce, 0xa3bc0074, 0xd4bb30e2, 0x4adfa541, 0x3dd895d7, 0xa4d1c46d, 0xd3d6f4fb]
  const ROW13: seq<bv32> :=
    [0x4369e96a, 0x346ed9fc, 0xad678846, 0xda60b8d0, 0x44042d73, 0x33031de5, 0xaa0a4c5f, 0xdd0d7cc9]
  const ROW14: seq<bv32> :=
    [0x5005713c, 0x270241aa, 0xbe0b1010, 0xc90c2086, 0x5768b525, 0x206f85b3, 0xb966d409, 0xce61e49f]
  const ROW15: seq<bv32> :=
    [0x5edef90e, 0x29d9c998, 0xb0d09822, 0xc7d7a8b4, 0x59b33d17, 0x2eb40d81, 0xb7bd5c3b, 0xc0ba6cad]
  const ROW16: seq<bv32> :=
    [0xedb88320, 0x9abfb3b6, 0x03b6e20c, 0x74b1d29a, 0xead54739, 0x9dd277af, 0x04db2615, 0x73dc1683]
  const ROW17: seq<bv32> :=
    [0xe3630b12, 0x94643b84, 0x0d6d6a3e, 0x7a6a5aa8, 0xe40ecf0b, 0x9309ff9d, 0x0a00ae27, 0x7d079eb1]
  const ROW18: seq<bv32> :=
    [0xf00f9344, 0x8708a3d2, 0x1e01f268, 0x6906c2fe, 0xf762575d, 0x806567cb, 0x196c3671, 0x6e6b06e7]
  const ROW19: seq<bv32> :=
    [0xfed41b76, 0x89d32be0, 0x10da7a5a, 0x67dd4acc, 0xf9b9df6f, 0x8ebeeff9, 0x17b7be43, 0x60b08ed5]
  const ROW20: seq<bv32> :=
    [0xd6d6a3e8, 0xa1d1937e, 0x38d8c2c4, 0x4fdff252, 0xd1bb67f1, 0xa6bc5767, 0x3fb506dd, 0x48b2364b]
  const ROW21: seq<bv32> :=
    [0xd80d2bda, 0xaf0a1b4c, 0x36034af6, 0x41047a60, 0xdf60efc3, 0xa867df55, 0x316e8eef, 0x4669be79]
  const ROW22: seq<bv32> :=
    [0xcb61b38c, 0xbc66831a, 0x256fd2a0, 0x5268e236, 0xcc0c7795, 0xbb0b4703, 0x220216b9, 0x5505262f]
  const ROW23: seq<bv32> :=
    [0xc5ba3bbe, 0xb2bd0b28, 0x2bb45a92, 0x5cb36a04, 0xc2d7ffa7, 0xb5d0cf31, 0x2cd99e8b, 0x5bdeae1d]
  const ROW24: seq<bv32> :=
    [0x9b64c2b0, 0xec63f226, 0x756aa39c, 0x026d930a, 0x9c0906a9, 0xeb0e363f, 0x72076785, 0x05005713]
  const ROW25: seq<bv32> :=
    [0x95bf4a82, 0xe2b87a14, 0x7bb12bae, 0x0cb61b38, 0x92d28e9b, 0xe5d5be0d, 0x7cdcefb7, 0x0bdbdf21]
  const ROW26: seq<bv32> :=
    [0x86d3d2d4, 0xf1d4e242, 0x68ddb3f8, 0x1fda836e, 0x81be16cd, 0xf6b9265b, 0x6fb077e1, 0x18b74777]
  const ROW27: seq<bv32> :=
    [0x88085ae6, 0xff0f6a70, 0x66063bca, 0x11010b5c, 0x8f659eff, 0xf862ae69, 0x616bffd3, 0x166ccf45]
  const ROW28: seq<bv32> :=
    [0xa00ae278, 0xd70dd2ee, 0x4e048354, 0x3903b3c2, 0xa7672661, 0xd06016f7, 0x4969474d, 0x3e6e77db]
  const ROW29: seq<bv32> :=
    [0xaed16a4a, 0xd9d65adc, 0x40df0b66, 0x37d83bf0, 0xa9bcae53, 0xdebb9ec5, 0x47b2cf7f, 0x30b5ffe9]
  const ROW30: seq<bv32> :=
    [0xbdbdf21c, 0xcabac28a, 0x53b39330, 0x24b4a3a6, 0xbad03605, 0xcdd70693, 0x54de5729, 0x23d967bf]
  const ROW31: seq<bv32> :=
    [0xb3667a2e, 0xc4614ab8, 0x5d681b02, 0x2a6f2b94, 0xb40bbe37, 0xc30c8ea1, 0x5a05df1b, 0x2d02ef8d]

  /** crc32_table, in rows of eight. */
  const CRC32_TABLE: seq<seq<bv32>> :=
    [ROW0, ROW1, ROW2, ROW3, ROW4, ROW5, ROW6, ROW7,
     ROW8, ROW9, ROW10, ROW11, ROW12, ROW13, ROW14, ROW15,
     ROW16, ROW17, ROW18, ROW19, ROW20, ROW21, ROW22, ROW23,
     ROW24, ROW25, ROW26, ROW27, ROW28, ROW29, ROW30, ROW31]

  const POLY: bv32 := 0xEDB88320

  function Xor(a: bv32, b: bv32): bv32 { a ^ b }

  function ShiftUp(v: bv32): bv32 { v << 8 }

  function Widen(b: bv8): bv32 { b as bv32 }

  /** One bit of division by the reflected polynomial. */
  function Bit(v: bv32): bv32
  {
    if v & 1 == 1 then (v >> 1) ^ POLY else v >> 1
  }

  /** n bits of division. */
  function Divide(v: bv32, n: nat): bv32
    decreases n, v
  {
    if n == 0 then v else Bit(Divide(v, n - 1))
  }

  /** Division of the message bit by bit, the low bit of each byte first. */
  function Serial(v: bv32, s: Bytes): bv32
  {
    if s == [] then v else Divide(Xor(Serial(v, s[..|s| - 1]), Widen(s[|s| - 1])), 8)
  }

  // ---------------------------------------------------------------- division is linear and can be undone

  predicate Odd(v: bv32) { v & 1 == 1 }

  function Half(v: bv32): bv32 { v >> 1 }

  lemma BitCases(v: bv32)
    ensures Bit(v) == if Odd(v) then Xor(Half(v), POLY) else Half(v)
  {}

  lemma OddXor(x: bv32, y: bv32)
    ensures Odd(Xor(x, y)) <==> Odd(x) != Odd(y)
  {}

  lemma HalfXor(x: bv32, y: bv32)
    ensures Half(Xor(x, y)) == Xor(Half(x), Half(y))
  {}

  lemma XorComm(x: bv32, y: bv32)
    ensures Xor(x, y) == Xor(y, x)
  {}

  lemma XorAssoc(x: bv32, y: bv32, z: bv32)
    ensures Xor(Xor(x, y), z) == Xor(x, Xor(y, z))
  {}

  lemma XorUndo(d: bv32, e: bv32)
    ensures Xor(Xor(d, e), e) == d
  {}

  lemma XorSwap(u: bv32, a: bv32, w: bv32, b: bv32)
    ensures Xor(Xor(u, a), Xor(w, b)) == Xor(Xor(u, w), Xor(a, b))
  {
    XorAssoc(u, a, Xor(w, b));
    XorAssoc(a, w, b);
    XorComm(a, w);
    XorAssoc(w, a, b);
    XorAssoc(u, w, Xor(a, b));
  }

  lemma BitLinear(x: bv32, y: bv32)
    ensures Bit(Xor(x, y)) == Xor(Bit(x), Bit(y))
  {
    var z := Xor(x, y);
    BitCases(x);
    BitCases(y);
    BitCases(z);
    OddXor(x, y);
    HalfXor(x, y);
    LinearByCases(Odd(x), Odd(y), Half(x), Half(y), Half(z), Bit(x), Bit(y), Bit(z));
  }

  lemma LinearByCases(p: bool, q: bool, x: bv32, y: bv32, z: bv32, bx: bv32, by_: bv32, bz: bv32)
    requires z == Xor(x, y) && bx == (if p then Xor(x, POLY) else x) && by_ == (if q then Xor(y, POLY) else y)
    requires bz == if p != q then Xor(z, POLY) else z
    ensures bz == Xor(bx, by_)
  {
    XorAssoc(x, y, POLY);
    XorComm(x, POLY);
    XorComm(y, POLY);
    XorAssoc(x, POLY, y);
    XorSwap(x, POLY, y, POLY);
    XorUndo(Xor(x, y), POLY);
    XorAssoc(Xor(x, y), POLY, POLY);
  }

  lemma {:induction false} DivideLinear(x: bv32, y: bv32, n: nat)
    ensures Divide(Xor(x, y), n) == Xor(Divide(x, n), Divide(y, n))
    decreases n
  {
    if n > 0 {
      DivideLinear(x, y, n - 1);
      BitLinear(Divide(x, n - 1), Divide(y, n - 1));
    }
  }

  /** The top bit tells whether the polynomial was added. */
  function Unbit(w: bv32): bv32
  {
    if w & 0x80000000 != 0 then ((w ^ POLY) << 1) | 1 else w << 1
  }

  lemma BitInverse(v: bv32)
    ensures Unbit(Bit(v)) == v
  {}

  lemma {:induction false} DivideInjective(x: bv32, y: bv32, n: nat)
    requires Divide(x, n) == Divide(y, n)
    ensures x == y
    decreases n
  {
    if n > 0 {
      BitInverse(Divide(x, n - 1));
      BitInverse(Divide(y, n - 1));
      DivideInjective(x, y, n - 1);
    }
  }

  lemma EightShifts(r: bv32)
    requires r & 0xff000000 == 0
    ensures Bit(Bit(Bit(Bit(Bit(Bit(Bit(Bit(ShiftUp(r))))))))) == r
  {}

  lemma DivideNext(v: bv32, n: nat)
    requires n > 0
    ensures Divide(v, n) == Bit(Divide(v, n - 1))
  {}

  lemma DivideEight(v: bv32, n: nat)
    requires n == 8
    ensures Divide(v, n) == Bit(Bit(Bit(Bit(Bit(Bit(Bit(Bit(v))))))))
  {
    DivideNext(v, n);
    DivideNext(v, n - 1);
    DivideNext(v, n - 2);
    DivideNext(v, n - 3);
    DivideNext(v, n - 4);
    DivideNext(v, n - 5);
    DivideNext(v, n - 6);
    DivideNext(v, n - 7);
  }

  /** Eight zero bits only shift. */
  lemma ShiftedBack(r: bv32, n: nat)
    requires r & 0xff000000 == 0 && n == 8
    ensures Divide(ShiftUp(r), n) == r
  {
    DivideEight(ShiftUp(r), n);
    EightShifts(r);
  }

  // ---------------------------------------------------------------- the table, row by row

  /** A row is the first row with the row's head added to every entry. */
  predicate Derived(row: seq<bv32>)
  {
    && |row| == 8
    && row[0] == Xor(row[0], ROW0[0]) && row[1] == Xor(row[0], ROW0[1])
    && row[2] == Xor(row[0], ROW0[2]) && row[3] == Xor(row[0], ROW0[3])
    && row[4] == Xor(row[0], ROW0[4]) && row[5] == Xor(row[0], ROW0[5])
    && row[6] == Xor(row[0], ROW0[6]) && row[7] == Xor(row[0], ROW0[7])
  }

  lemma DerivedFrom0(k: int)
    requires 0 <= k < 8
    ensures Derived(CRC32_TABLE[k])
  {
    assert Derived(ROW0) && Derived(ROW1);
    assert Derived(ROW2) && Derived(ROW3);
    assert Derived(ROW4) && Derived(ROW5);
    assert Derived(ROW6) && Derived(ROW7);
  }

  lemma DerivedFrom8(k: int)
    requires 8 <= k < 16
    ensures Derived(CRC32_TABLE[k])
  {
    assert Derived(ROW8) && Derived(ROW9);
    assert Derived(ROW10) && Derived(ROW11);
    assert Derived(ROW12) && Derived(ROW13);
    assert Derived(ROW14) && Derived(ROW15);
  }

  lemma DerivedFrom16(k: int)
    requires 16 <= k < 24
    ensures Derived(CRC32_TABLE[k])
  {
    assert Derived(ROW16) && Derived(ROW17);
    assert Derived(ROW18) && Derived(ROW19);
    assert Derived(ROW20) && Derived(ROW21);
    assert Derived(ROW22) && Derived(ROW23);
  }

  lemma DerivedFrom24(k: int)
    requires 24 <= k < 32
    ensures Derived(CRC32_TABLE[k])
  {
    assert Derived(ROW24) && Derived(ROW25);
    assert Derived(ROW26) && Derived(ROW27);
    assert Derived(ROW28) && Derived(ROW29);
    assert Derived(ROW30) && Derived(ROW31);
  }

  /** The head of row h. */
  function Head(h: bv32): bv32
  {
    Divide(FirstIndex(h), 8)
  }

  function FirstIndex(h: bv32): bv32 { h << 3 }

  lemma FirstIndexXor(g: bv32, h: bv32)
    ensures FirstIndex(Xor(g, h)) == Xor(FirstIndex(g), FirstIndex(h))
  {}

  lemma HeadXor(g: bv32, h: bv32)
    ensures Head(Xor(g, h)) == Xor(Head(g), Head(h))
  {
    hide Xor, FirstIndex, Divide;
    FirstIndexXor(g, h);
    DivideLinear(FirstIndex(g), FirstIndex(h), 8);
  }

  lemma HeadPowers()
    ensures Head(0) == ROW0[0] && Head(1) == ROW1[0] && Head(2) == ROW2[0]
    ensures Head(4) == ROW4[0] && Head(8) == ROW8[0] && Head(16) == ROW16[0]
  {
    assert Divide(0, 8) == ROW0[0] && Divide(8, 8) == ROW1[0] && Divide(16, 8) == ROW2[0];
    assert Divide(32, 8) == ROW4[0] && Divide(64, 8) == ROW8[0] && Divide(128, 8) == ROW16[0];
  }

  lemma LowHeads()
    ensures Head(3) == ROW3[0] && Head(5) == ROW5[0] && Head(6) == ROW6[0] && Head(7) == ROW7[0] && Head(24) == ROW24[0]
  {
    hide Head;
    HeadPowers();
    HeadXor(2, 1);
    HeadXor(4, 1);
    HeadXor(4, 2);
    HeadXor(6, 1);
    HeadXor(16, 8);
  }

  lemma LowHead(h: bv32, k: int)
    requires k == h as int && 0 <= k < 8
    ensures CRC32_TABLE[k][0] == Head(h)
  {
    hide Head;
    HeadPowers();
    LowHeads();
    if k == 0 { assert h == 0 && CRC32_TABLE[0] == ROW0; }
    else if k == 1 { assert h == 1 && CRC32_TABLE[1] == ROW1; }
    else if k == 2 { assert h == 2 && CRC32_TABLE[2] == ROW2; }
    else if k == 3 { assert h == 3 && CRC32_TABLE[3] == ROW3; }
    else if k == 4 { assert h == 4 && CRC32_TABLE[4] == ROW4; }
    else if k == 5 { assert h == 5 && CRC32_TABLE[5] == ROW5; }
    else if k == 6 { assert h == 6 && CRC32_TABLE[6] == ROW6; }
    else { assert h == 7 && CRC32_TABLE[7] == ROW7; }
  }

  lemma SumsFrom8(k: int)
    requires 8 <= k < 16
    ensures CRC32_TABLE[k][0] == Xor(CRC32_TABLE[8][0], CRC32_TABLE[k - 8][0])
  {
    assert ROW8[0] == Xor(ROW8[0], ROW0[0]) && ROW9[0] == Xor(ROW8[0], ROW1[0]) && ROW10[0] == Xor(ROW8[0], ROW2[0])
           && ROW11[0] == Xor(ROW8[0], ROW3[0]);
    assert ROW12[0] == Xor(ROW8[0], ROW4[0]) && ROW13[0] == Xor(ROW8[0], ROW5[0]) && ROW14[0] == Xor(ROW8[0], ROW6[0])
           && ROW15[0] == Xor(ROW8[0], ROW7[0]);
  }

  lemma SumsFrom16(k: int)
    requires 16 <= k < 24
    ensures CRC32_TABLE[k][0] == Xor(CRC32_TABLE[16][0], CRC32_TABLE[k - 16][0])
  {
    assert ROW16[0] == Xor(ROW16[0], ROW0[0]) && ROW17[0] == Xor(ROW16[0], ROW1[0])
           && ROW18[0] == Xor(ROW16[0], ROW2[0]) && ROW19[0] == Xor(ROW16[0], ROW3[0]);
    assert ROW20[0] == Xor(ROW16[0], ROW4[0]) && ROW21[0] == Xor(ROW16[0], ROW5[0])
           && ROW22[0] == Xor(ROW16[0], ROW6[0]) && ROW23[0] == Xor(ROW16[0], ROW7[0]);
  }

  lemma SumsFrom24(k: int)
    requires 24 <= k < 32
    ensures CRC32_TABLE[k][0] == Xor(CRC32_TABLE[24][0], CRC32_TABLE[k - 24][0])
  {
    assert ROW24[0] == Xor(ROW24[0], ROW0[0]) && ROW25[0] == Xor(ROW24[0], ROW1[0])
           && ROW26[0] == Xor(ROW24[0], ROW2[0]) && ROW27[0] == Xor(ROW24[0], ROW3[0]);
    assert ROW28[0] == Xor(ROW24[0], ROW4[0]) && ROW29[0] == Xor(ROW24[0], ROW5[0])
           && ROW30[0] == Xor(ROW24[0], ROW6[0]) && ROW31[0] == Xor(ROW24[0], ROW7[0]);
  }

  lemma HeadParts(h: bv32, k: int)
    requires k == h as int && 8 <= k < 32
    ensures (h & 7) as int == (if k < 16 then k - 8 else if k < 24 then k - 16 else k - 24) && Xor(h & 24, h & 7) == h
    ensures h & 24 == if k < 16 then 8 else if k < 24 then 16 else 24
  {}

  lemma HighHead(h: bv32, k: int)
    requires k == h as int && 8 <= k < 32
    ensures CRC32_TABLE[k][0] == Head(h)
  {
    hide Head;
    HeadParts(h, k);
    HeadPowers();
    LowHeads();
    LowHead(h & 7, (h & 7) as int);
    HeadXor(h & 24, h & 7);
    if k < 16 { SumsFrom8(k); } else if k < 24 { SumsFrom16(k); } else { SumsFrom24(k); }
  }

  lemma Row(h: bv32, k: int)
    requires k == h as int && 0 <= k < 32
    ensures Derived(CRC32_TABLE[k]) && CRC32_TABLE[k][0] == Head(h)
  {
    if k < 8 { LowHead(h, k); } else { HighHead(h, k); }
    if k < 8 {
      DerivedFrom0(k);
    } else if k < 16 {
      DerivedFrom8(k);
    } else if k < 24 {
      DerivedFrom16(k);
    } else {
      DerivedFrom24(k);
    }
  }

  /** The first row is computed bit by bit. */
  lemma FirstRow(j: bv32, k: int)
    requires k == j as int && 0 <= k < 8
    ensures ROW0[k] == Divide(j, 8)
  {
    if k == 0 { assert j == 0; assert ROW0[0] == Divide(0, 8); }
    else if k == 1 { assert j == 1; assert ROW0[1] == Divide(1, 8); }
    else if k == 2 { assert j == 2; assert ROW0[2] == Divide(2, 8); }
    else if k == 3 { assert j == 3; assert ROW0[3] == Divide(3, 8); }
    else if k == 4 { assert j == 4; assert ROW0[4] == Divide(4, 8); }
    else if k == 5 { assert j == 5; assert ROW0[5] == Divide(5, 8); }
    else if k == 6 { assert j == 6; assert ROW0[6] == Divide(6, 8); }
    else { assert j == 7; assert ROW0[7] == Divide(7, 8); }
  }

  lemma IndexParts(i: bv32)
    requires i < 256
    ensures 0 <= (i >> 3) as int < 32 && 0 <= (i & 7) as int < 8 && i == Xor(FirstIndex(i >> 3), i & 7)
  {}

  /** Every entry is its index divided bit by bit. */
  lemma TableEntry(i: bv32, h: bv32, k: int)
    requires i < 256 && h == i >> 3 && k == h as int
    ensures 0 <= k < 32 && 0 <= (i & 7) as int < 8 && |CRC32_TABLE[k]| == 8
            && CRC32_TABLE[k][(i & 7) as int] == Divide(i, 8)
  {
    IndexParts(i);
    Row(h, k);
    FirstRow(i & 7, (i & 7) as int);
    DivideLinear(FirstIndex(h), i & 7, 8);
    InRow(CRC32_TABLE[k], (i & 7) as int);
  }

  lemma InRow(row: seq<bv32>, j: int)
    requires Derived(row) && 0 <= j < 8
    ensures row[j] == Xor(row[0], ROW0[j])
  {}

  // ---------------------------------------------------------------- the table loop

  lemma SplitLow(x: bv32)
    ensures Xor(x & 0xff, ShiftUp(x >> 8)) == x && (x >> 8) & 0xff000000 == 0 && x & 0xff < 256
  {}

  lemma DropsByte(v: bv32, b: bv8)
    ensures Xor(v, Widen(b)) >> 8 == v >> 8
  {}

  /** One turn of the table loop divides by one more byte. */
  lemma TableStep(v: bv32, b: bv8, n: nat)
    requires n == 8
    ensures Xor(Divide(Xor(v, Widen(b)) & 0xff, n), v >> 8) == Divide(Xor(v, Widen(b)), n)
  {
    var x := Xor(v, Widen(b));
    SplitLow(x);
    DivideLinear(x & 0xff, ShiftUp(x >> 8), n);
    ShiftedBack(x >> 8, n);
    DropsByte(v, b);
  }

  /** crc32_table[i] */
  function Lookup(i: bv32): (r: bv32)
    requires i < 256
    ensures r == Divide(i, 8)
  {
    TableEntry(i, i >> 3, (i >> 3) as int);
    CRC32_TABLE[(i >> 3) as int][(i & 7) as int]
  }

  lemma LowByte(x: bv32)
    ensures x & 0xff < 256
  {}

  /** local_crc32 divides bit by bit, for every starting value. */
  method LocalCrc32(val: bv32, s: Bytes) returns (r: bv32)
    ensures r == Serial(val, s)
  {
    r := val;
    var k := 0;
    while k < |s|
      invariant 0 <= k <= |s| && r == Serial(val, s[..k])
    {
      TableStep(r, s[k], 8);
      assert s[..k + 1][..k] == s[..k];
      LowByte(Xor(r, Widen(s[k])));
      r := Xor(Lookup(Xor(r, Widen(s[k])) & 0xff), r >> 8);
      k := k + 1;
    }
    assert s[..k] == s;
  }

  /** Composition over concatenation. */
  lemma {:induction false} SerialConcat(v: bv32, x: Bytes, y: Bytes)
    ensures Serial(v, x + y) == Serial(Serial(v, x), y)
    decreases |y|
  {
    if y == [] {
      assert x + y == x;
    } else {
      assert (x + y)[..|x + y| - 1] == x + y[..|y| - 1];
      SerialConcat(v, x, y[..|y| - 1]);
    }
  }

  // ---------------------------------------------------------------- what the checksum detects

  lemma XorCancels(x: bv32, y: bv32, b: bv32)
    requires Xor(x, b) == Xor(y, b)
    ensures x == y
  {}

  /** Different states stay different over the same bytes. */
  lemma {:induction false} SerialInjective(v: bv32, w: bv32, s: Bytes)
    requires Serial(v, s) == Serial(w, s)
    ensures v == w
  {
    if s != [] {
      var k := |s| - 1;
      var x, y := Serial(v, s[..k]), Serial(w, s[..k]);
      DivideInjective(Xor(x, Widen(s[k])), Xor(y, Widen(s[k])), 8);
      XorCancels(x, y, Widen(s[k]));
      SerialInjective(v, w, s[..k]);
    }
  }

  lemma XorBack(u: bv32, w: bv32, a: bv32, b: bv32, r: bv32)
    requires Xor(Xor(u, a), Xor(w, b)) == r
    ensures Xor(u, w) == Xor(Xor(a, b), r)
  {
    XorSwap(u, a, w, b);
    XorUndo(Xor(u, w), Xor(a, b));
    XorComm(Xor(a, b), r);
  }

  /** If two states differ by r, less than 24 bits, after one byte each, the states before differ by the bytes and r
      shifted. */
  lemma OneByteBack(u: bv32, w: bv32, a: bv32, b: bv32, r: bv32, n: nat)
    requires n == 8 && Xor(Divide(Xor(u, a), n), Divide(Xor(w, b), n)) == r && r & 0xff000000 == 0
    ensures Xor(u, w) == Xor(Xor(a, b), ShiftUp(r))
  {
    var x, y := Xor(u, a), Xor(w, b);
    DivideLinear(x, y, n);
    ShiftedBack(r, n);
    DivideInjective(Xor(x, y), ShiftUp(r), n);
    XorBack(u, w, a, b, ShiftUp(r));
  }

  lemma NarrowDifference(a: bv8, b: bv8, r: bv32)
    ensures r & 0xffffffff == 0 ==> Xor(Xor(Widen(a), Widen(b)), ShiftUp(r)) & 0xffffff00 == 0
    ensures r & 0xffffff00 == 0 ==> Xor(Xor(Widen(a), Widen(b)), ShiftUp(r)) & 0xffff0000 == 0
    ensures r & 0xffff0000 == 0 ==> Xor(Xor(Widen(a), Widen(b)), ShiftUp(r)) & 0xff000000 == 0
    ensures r & 0xffffff00 == 0 ==> r & 0xff000000 == 0
    ensures r & 0xffff0000 == 0 ==> r & 0xff000000 == 0
    ensures r & 0xffffffff == 0 ==> r & 0xff000000 == 0
  {}

  lemma NothingLeft(a: bv8, b: bv8, r: bv32)
    requires Xor(Xor(Widen(a), Widen(b)), ShiftUp(r)) == 0 && r & 0xff000000 == 0
    ensures a == b && r == 0
  {}

  lemma XorSelf(v: bv32)
    ensures Xor(v, v) == 0
  {}

  /** Four bytes are determined by the states before and after them. */
  lemma FourBytes(v: bv32, x: Bytes, y: Bytes)
    requires |x| == |y| == 4 && Serial(v, x) == Serial(v, y)
    ensures x == y
  {
    Steps(v, x, 8);
    Steps(v, y, 8);
    FourBack(v, Serial(v, x[..1]), Serial(v, x[..2]), Serial(v, x[..3]), Serial(v, x), x,
             Serial(v, y[..1]), Serial(v, y[..2]), Serial(v, y[..3]), y, 8);
  }

  lemma FourBack(v: bv32, u1: bv32, u2: bv32, u3: bv32, u4: bv32, x: Bytes, w1: bv32, w2: bv32, w3: bv32, y: Bytes,
                 n: nat)
    requires |x| == |y| == 4 && n == 8
    requires u1 == Divide(Xor(v, Widen(x[0])), n) && w1 == Divide(Xor(v, Widen(y[0])), n)
    requires u2 == Divide(Xor(u1, Widen(x[1])), n) && w2 == Divide(Xor(w1, Widen(y[1])), n)
    requires u3 == Divide(Xor(u2, Widen(x[2])), n) && w3 == Divide(Xor(w2, Widen(y[2])), n)
    requires u4 == Divide(Xor(u3, Widen(x[3])), n) && u4 == Divide(Xor(w3, Widen(y[3])), n)
    ensures x == y
  {
    var r4: bv32 := 0;
    XorSelf(u4);
    NarrowDifference(x[3], y[3], r4);
    OneByteBack(u3, w3, Widen(x[3]), Widen(y[3]), r4, n);
    var r3 := Xor(u3, w3);
    NarrowDifference(x[2], y[2], r3);
    OneByteBack(u2, w2, Widen(x[2]), Widen(y[2]), r3, n);
    var r2 := Xor(u2, w2);
    NarrowDifference(x[1], y[1], r2);
    OneByteBack(u1, w1, Widen(x[1]), Widen(y[1]), r2, n);
    var r1 := Xor(u1, w1);
    OneByteBack(v, v, Widen(x[0]), Widen(y[0]), r1, n);
    XorSelf(v);
    NothingLeft(x[0], y[0], r1);
    NothingLeft(x[1], y[1], r2);
    NothingLeft(x[2], y[2], r3);
    NothingLeft(x[3], y[3], r4);
  }

  lemma Steps(v: bv32, x: Bytes, n: nat)
    requires |x| == 4 && n == 8
    ensures Serial(v, x[..1]) == Divide(Xor(v, Widen(x[0])), n)
    ensures Serial(v, x[..2]) == Divide(Xor(Serial(v, x[..1]), Widen(x[1])), n)
    ensures Serial(v, x[..3]) == Divide(Xor(Serial(v, x[..2]), Widen(x[2])), n)
    ensures Serial(v, x) == Divide(Xor(Serial(v, x[..3]), Widen(x[3])), n)
  {
    assert x[..1][..0] == [] && x[..2][..1] == x[..1] && x[..3][..2] == x[..2];
    assert Serial(v, x[..1][..0]) == v;
  }

  /** Messages of equal length whose differences all lie within four consecutive bytes never share a CRC-32. */
  lemma BurstDetected(v: bv32, front: Bytes, x: Bytes, y: Bytes, back: Bytes)
    requires |x| == |y| <= 4 && Serial(v, front + x + back) == Serial(v, front + y + back)
    ensures x == y
  {
    SerialConcat(v, front + x, back);
    SerialConcat(v, front + y, back);
    SerialInjective(Serial(v, front + x), Serial(v, front + y), back);
    SerialConcat(v, front, x);
    SerialConcat(v, front, y);
    var zeros: Bytes := seq(4 - |x|, i => 0);
    SerialConcat(Serial(v, front), x, zeros);
    SerialConcat(Serial(v, front), y, zeros);
    FourBytes(Serial(v, front), x + zeros, y + zeros);
    assert x == (x + zeros)[..|x|] && y == (y + zeros)[..|y|];
  }

  /** In particular a changed byte changes the checksum. */
  lemma ByteChangeDetected(v: bv32, s: Bytes, i: nat, b: bv8)
    requires i < |s|
    ensures Serial(v, s[i := b]) == Serial(v, s) <==> b == s[i]
  {
    assert s == s[..i] + [s[i]] + s[i + 1..];
    assert s[i := b] == s[..i] + [b] + s[i + 1..];
    if Serial(v, s[i := b]) == Serial(v, s) {
      BurstDetected(v, s[..i], [b], [s[i]], s[i + 1..]);
    }
  }
}
