/** Where a stream of bytes lands on a device whose bad blocks are skipped. Block b covers the eb bytes from EbStart(b,
    eb) on. */
module Placement {
  import opened Division

  // ---------------------------------------------------------------- eraseblocks

  /** MTD_OFFSET_TO_EB_INDEX: the block of an offset, x / eb; by recursion, so that no proof depends on nonlinear
      arithmetic. */
  function EbIndex(x: nat, eb: nat): nat
    requires eb > 0
    decreases x
  {
    if x < eb then 0 else 1 + EbIndex(x - eb, eb)
  }

  /** The position inside the block, x % eb. */
  function EbOffset(x: nat, eb: nat): (r: nat)
    requires eb > 0
    ensures r < eb
    decreases x
  {
    if x < eb then x else EbOffset(x - eb, eb)
  }

  /** Where block b starts, b * eb; also the size of b blocks. */
  function EbStart(b: nat, eb: nat): nat
  {
    if b == 0 then 0 else EbStart(b - 1, eb) + eb
  }

  lemma {:induction false} EbIsDivision(x: nat, b: nat, eb: nat)
    requires eb > 0
    ensures EbIndex(x, eb) == x / eb && EbOffset(x, eb) == x % eb
    ensures EbStart(b, eb) == b * eb
    decreases x, b
  {
    StartIsProduct(b, eb);
    if x < eb {
      Quotient(0, eb, x);
    } else {
      EbIsDivision(x - eb, b, eb);
      QuotientAndRest(x - eb, eb);
      assert ((x - eb) / eb + 1) * eb == (x - eb) / eb * eb + eb;
      Quotient((x - eb) / eb + 1, eb, (x - eb) % eb);
    }
  }

  lemma {:induction false} StartIsProduct(b: nat, eb: nat)
    ensures EbStart(b, eb) == b * eb
  {
    if b > 0 {
      StartIsProduct(b - 1, eb);
      assert b * eb == (b - 1) * eb + eb;
    }
  }

  lemma {:induction false} DivMod(q: nat, eb: nat, r: nat)
    requires r < eb
    ensures EbIndex(EbStart(q, eb) + r, eb) == q && EbOffset(EbStart(q, eb) + r, eb) == r
  {
    if q > 0 { DivMod(q - 1, eb, r); }
  }

  lemma {:induction false} Split(x: nat, eb: nat)
    requires eb > 0
    ensures x == EbStart(EbIndex(x, eb), eb) + EbOffset(x, eb)
    decreases x
  {
    if x >= eb { Split(x - eb, eb); }
  }

  /** Blocks add up. */
  lemma {:induction false} StartAdds(a: nat, b: nat, eb: nat)
    ensures EbStart(a + b, eb) == EbStart(a, eb) + EbStart(b, eb)
    decreases b
  {
    if b > 0 { StartAdds(a, b - 1, eb); }
  }

  lemma OneBlockSize(eb: nat)
    ensures EbStart(0, eb) == 0 && EbStart(1, eb) == eb && EbStart(2, eb) == 2 * eb
  {
    assert EbStart(1, eb) == EbStart(0, eb) + eb;
    assert EbStart(2, eb) == EbStart(1, eb) + eb;
  }

  lemma StartOrder(a: nat, b: nat, eb: nat)
    requires eb > 0
    ensures EbStart(a, eb) <= EbStart(b, eb) <==> a <= b
    ensures a < b ==> EbStart(a, eb) + eb <= EbStart(b, eb)
  {
    if a < b {
      StartAdds(a + 1, b - a - 1, eb);
    } else if b < a {
      StartAdds(b + 1, a - b - 1, eb);
    }
  }

  lemma NextBlock(x: nat, eb: nat)
    requires eb > 0
    ensures EbStart(EbIndex(x, eb) + 1, eb) == x - EbOffset(x, eb) + eb
    ensures EbIndex(EbStart(EbIndex(x, eb) + 1, eb), eb) == EbIndex(x, eb) + 1
    ensures EbOffset(EbStart(EbIndex(x, eb) + 1, eb), eb) == 0
  {
    Split(x, eb);
    DivMod(EbIndex(x, eb) + 1, eb, 0);
  }

  /** x lies inside cnt blocks exactly when its block index does. */
  lemma Inside(x: nat, eb: nat, cnt: nat)
    requires eb > 0
    ensures x < EbStart(cnt, eb) <==> EbIndex(x, eb) < cnt
  {
    Split(x, eb);
    StartOrder(EbIndex(x, eb), cnt, eb);
    StartOrder(cnt, EbIndex(x, eb), eb);
  }

  lemma DivMonotone(x: nat, y: nat, eb: nat)
    requires eb > 0 && x <= y
    ensures EbIndex(x, eb) <= EbIndex(y, eb)
  {
    Inside(x, eb, EbIndex(y, eb) + 1);
    Split(y, eb);
  }

  /** The byte after x is in the same block, or starts the next one. */
  lemma NextByte(x: nat, eb: nat)
    requires eb > 0
    ensures EbOffset(x, eb) + 1 < eb ==>
              EbIndex(x + 1, eb) == EbIndex(x, eb) && EbOffset(x + 1, eb) == EbOffset(x, eb) + 1
    ensures EbOffset(x, eb) + 1 == eb ==>
              && x + 1 == EbStart(EbIndex(x, eb) + 1, eb)
              && EbIndex(x + 1, eb) == EbIndex(x, eb) + 1 && EbOffset(x + 1, eb) == 0
  {
    Split(x, eb);
    if EbOffset(x, eb) + 1 < eb {
      DivMod(EbIndex(x, eb), eb, EbOffset(x, eb) + 1);
    } else {
      NextBlock(x, eb);
    }
  }

  /** Bytes of one block share its index. */
  lemma SameBlock(x: nat, i: nat, eb: nat)
    requires eb > 0 && EbOffset(x, eb) + i < eb
    ensures EbIndex(x + i, eb) == EbIndex(x, eb) && EbOffset(x + i, eb) == EbOffset(x, eb) + i
  {
    Split(x, eb);
    DivMod(EbIndex(x, eb), eb, EbOffset(x, eb) + i);
  }

  // ---------------------------------------------------------------- skipping

  predicate OnGood(bad: seq<bool>, eb: nat, x: nat)
    requires eb > 0
  {
    EbIndex(x, eb) < |bad| && !bad[EbIndex(x, eb)]
  }

  predicate OnBad(bad: seq<bool>, eb: nat, x: nat)
    requires eb > 0
  {
    EbIndex(x, eb) < |bad| && bad[EbIndex(x, eb)]
  }

  /** The first position from x on that is not in a bad block; past the last block when there is none. */
  function Skip(bad: seq<bool>, eb: nat, x: nat): (r: nat)
    requires eb > 0
    ensures r >= x && !OnBad(bad, eb, r)
    ensures !OnBad(bad, eb, x) ==> r == x
    decreases |bad| - EbIndex(x, eb)
  {
    NextBlock(x, eb);
    Split(x, eb);
    if OnBad(bad, eb, x) then Skip(bad, eb, EbStart(EbIndex(x, eb) + 1, eb)) else x
  }

  /** What is skipped is bad throughout. */
  lemma {:induction false} SkippedIsBad(bad: seq<bool>, eb: nat, x: nat, y: nat)
    requires eb > 0 && x <= y < Skip(bad, eb, x)
    ensures OnBad(bad, eb, y)
    decreases |bad| - EbIndex(x, eb)
  {
    NextBlock(x, eb);
    Inside(y, eb, EbIndex(x, eb) + 1);
    DivMonotone(x, y, eb);
    if y >= EbStart(EbIndex(x, eb) + 1, eb) {
      SkippedIsBad(bad, eb, EbStart(EbIndex(x, eb) + 1, eb), y);
    }
  }

  /** The cursor after k bytes have been placed from x on. */
  function After(bad: seq<bool>, eb: nat, x: nat, k: nat): (r: nat)
    requires eb > 0
    ensures r >= x + k
  {
    if k == 0 then x else Skip(bad, eb, After(bad, eb, x, k - 1)) + 1
  }

  /** Where byte k of the stream lands. */
  function Place(bad: seq<bool>, eb: nat, x: nat, k: nat): nat
    requires eb > 0
  {
    Skip(bad, eb, After(bad, eb, x, k))
  }

  /** n bytes find good blocks from x on. */
  predicate Fits(bad: seq<bool>, eb: nat, x: nat, n: nat)
    requires eb > 0
  {
    n == 0 || EbIndex(Place(bad, eb, x, n - 1), eb) < |bad|
  }

  lemma {:induction false} PlaceGrows(bad: seq<bool>, eb: nat, x: nat, j: nat, k: nat)
    requires eb > 0 && j < k
    ensures x <= Place(bad, eb, x, j) < After(bad, eb, x, k) <= Place(bad, eb, x, k)
    decreases k
  {
    if j < k - 1 { PlaceGrows(bad, eb, x, j, k - 1); }
  }

  lemma FitsFewer(bad: seq<bool>, eb: nat, x: nat, j: nat, k: nat)
    requires eb > 0 && j <= k && Fits(bad, eb, x, k)
    ensures Fits(bad, eb, x, j)
    ensures forall i :: 0 <= i < j ==> OnGood(bad, eb, Place(bad, eb, x, i))
  {
    forall i | 0 <= i < k
      ensures OnGood(bad, eb, Place(bad, eb, x, i))
    {
      if i < k - 1 {
        PlaceGrows(bad, eb, x, i, k - 1);
        DivMonotone(Place(bad, eb, x, i), Place(bad, eb, x, k - 1), eb);
      }
    }
  }

  lemma {:induction false} ContiguousAt(bad: seq<bool>, eb: nat, x: nat, k: nat, i: nat)
    requires eb > 0
    requires var p := Place(bad, eb, x, k); EbIndex(p, eb) < |bad| && EbOffset(p, eb) + i < eb
    ensures var p := Place(bad, eb, x, k); Place(bad, eb, x, k + i) == p + i && EbIndex(p + i, eb) < |bad|
    decreases i
  {
    SameBlock(Place(bad, eb, x, k), i, eb);
    if i > 0 {
      ContiguousAt(bad, eb, x, k, i - 1);
      assert After(bad, eb, x, k + i) == Place(bad, eb, x, k + (i - 1)) + 1;
    }
  }

  /** A run of n bytes that starts in a good block and stays in it is laid out contiguously. */
  lemma Contiguous(bad: seq<bool>, eb: nat, x: nat, k: nat, n: nat)
    requires eb > 0 && n > 0
    requires var p := Place(bad, eb, x, k); EbIndex(p, eb) < |bad| && EbOffset(p, eb) + n <= eb
    ensures var p := Place(bad, eb, x, k);
            && After(bad, eb, x, k + n) == p + n
            && (forall j :: k <= j < k + n ==> Place(bad, eb, x, j) == p + (j - k))
            && Fits(bad, eb, x, k + n)
  {
    forall j | k <= j < k + n
      ensures Place(bad, eb, x, j) == Place(bad, eb, x, k) + (j - k)
    {
      ContiguousAt(bad, eb, x, k, j - k);
    }
    ContiguousAt(bad, eb, x, k, n - 1);
    assert k + (n - 1) == k + n - 1;
  }

  // ---------------------------------------------------------------- counting good bytes

  /** How many of the first j blocks are good. */
  function GoodBlocks(bad: seq<bool>, j: nat): (n: nat)
    requires j <= |bad|
    ensures n <= j
  {
    if j == 0 then 0 else GoodBlocks(bad, j - 1) + (if bad[j - 1] then 0 else 1)
  }

  /** How many good bytes lie below x. */
  function GoodBytes(bad: seq<bool>, eb: nat, x: nat): nat
    requires eb > 0 && EbIndex(x, eb) <= |bad|
  {
    EbStart(GoodBlocks(bad, EbIndex(x, eb)), eb) + (if OnGood(bad, eb, x) then EbOffset(x, eb) else 0)
  }

  lemma OneMoreByte(bad: seq<bool>, eb: nat, x: nat)
    requires eb > 0 && EbIndex(x, eb) < |bad|
    ensures EbIndex(x + 1, eb) <= |bad|
    ensures GoodBytes(bad, eb, x + 1) == GoodBytes(bad, eb, x) + (if bad[EbIndex(x, eb)] then 0 else 1)
  {
    NextByte(x, eb);
    var g := GoodBlocks(bad, EbIndex(x, eb));
    assert EbStart(g + 1, eb) == EbStart(g, eb) + eb;
  }

  lemma {:induction false} GoodBytesMonotone(bad: seq<bool>, eb: nat, x: nat, y: nat)
    requires eb > 0 && x <= y && EbIndex(y, eb) <= |bad|
    ensures EbIndex(x, eb) <= EbIndex(y, eb) && GoodBytes(bad, eb, x) <= GoodBytes(bad, eb, y)
    decreases y
  {
    DivMonotone(x, y, eb);
    if x < y {
      DivMonotone(x, y - 1, eb);
      NextByte(y - 1, eb);
      if EbIndex(y - 1, eb) < |bad| {
        GoodBytesMonotone(bad, eb, x, y - 1);
        OneMoreByte(bad, eb, y - 1);
      } else {
        GoodBytesMonotone(bad, eb, x, y - 1);
      }
    }
  }

  lemma {:induction false} SkipKeepsCount(bad: seq<bool>, eb: nat, x: nat)
    requires eb > 0 && EbIndex(x, eb) <= |bad|
    ensures EbIndex(Skip(bad, eb, x), eb) <= |bad|
    ensures GoodBytes(bad, eb, Skip(bad, eb, x)) == GoodBytes(bad, eb, x)
    decreases |bad| - EbIndex(x, eb)
  {
    if OnBad(bad, eb, x) {
      NextBlock(x, eb);
      SkipKeepsCount(bad, eb, EbStart(EbIndex(x, eb) + 1, eb));
    }
  }

  /** Byte k goes to the good byte of rank k, counted from x on. */
  lemma {:induction false} PlaceRank(bad: seq<bool>, eb: nat, x: nat, k: nat)
    requires eb > 0 && EbIndex(x, eb) <= |bad| && Fits(bad, eb, x, k)
    ensures EbIndex(After(bad, eb, x, k), eb) <= |bad|
    ensures GoodBytes(bad, eb, After(bad, eb, x, k)) == GoodBytes(bad, eb, x) + k
    decreases k
  {
    if k > 0 {
      FitsFewer(bad, eb, x, k - 1, k);
      PlaceRank(bad, eb, x, k - 1);
      SkipKeepsCount(bad, eb, After(bad, eb, x, k - 1));
      OneMoreByte(bad, eb, Place(bad, eb, x, k - 1));
    }
  }

  /** A stream finds room before the end exactly when enough good bytes lie between. */
  lemma {:induction false} FitsBelow(bad: seq<bool>, eb: nat, x: nat, n: nat, end: nat)
    requires eb > 0 && x <= end && EbIndex(end, eb) <= |bad| && n > 0
    ensures EbIndex(x, eb) <= |bad|
    ensures Fits(bad, eb, x, n) && Place(bad, eb, x, n - 1) < end
            <==> GoodBytes(bad, eb, x) + n <= GoodBytes(bad, eb, end)
    decreases n
  {
    DivMonotone(x, end, eb);
    var p := Place(bad, eb, x, n - 1);
    if Fits(bad, eb, x, n - 1) {
      PlaceRank(bad, eb, x, n - 1);
      SkipKeepsCount(bad, eb, After(bad, eb, x, n - 1));
      if p < end {
        if EbIndex(p, eb) < |bad| {
          OneMoreByte(bad, eb, p);
        }
        DivMonotone(p, end, eb);
        EndOrGood(bad, eb, p, end);
      } else {
        GoodBytesMonotone(bad, eb, end, p);
      }
    } else {
      FitsBelow(bad, eb, x, n - 1, end);
      if Fits(bad, eb, x, n) { FitsFewer(bad, eb, x, n - 1, n); }
    }
  }

  /** A position on no bad block that lies below end is followed by one good byte at least, or lies past every block. */
  lemma EndOrGood(bad: seq<bool>, eb: nat, p: nat, end: nat)
    requires eb > 0 && p < end && EbIndex(end, eb) <= |bad| && !OnBad(bad, eb, p) && EbIndex(p, eb) <= |bad|
    ensures EbIndex(p, eb) < |bad| ==> GoodBytes(bad, eb, p) + 1 <= GoodBytes(bad, eb, end)
    ensures EbIndex(p, eb) == |bad| ==> GoodBytes(bad, eb, p) == GoodBytes(bad, eb, end)
  {
    if EbIndex(p, eb) < |bad| {
      OneMoreByte(bad, eb, p);
      GoodBytesMonotone(bad, eb, p + 1, end);
    } else {
      DivMonotone(p, end, eb);
    }
  }

  /** Every good position between the start and the cursor received a byte. */
  lemma {:induction false} EveryGoodPosition(bad: seq<bool>, eb: nat, x: nat, n: nat, p: nat) returns (k: nat)
    requires eb > 0 && Fits(bad, eb, x, n) && x <= p < After(bad, eb, x, n) && OnGood(bad, eb, p)
    ensures k < n && Place(bad, eb, x, k) == p
    decreases n
  {
    var q := Place(bad, eb, x, n - 1);
    FitsFewer(bad, eb, x, n - 1, n);
    if p == q {
      k := n - 1;
    } else if p < After(bad, eb, x, n - 1) {
      k := EveryGoodPosition(bad, eb, x, n - 1, p);
    } else {
      SkippedIsBad(bad, eb, After(bad, eb, x, n - 1), p);
      assert false;
    }
  }
}
