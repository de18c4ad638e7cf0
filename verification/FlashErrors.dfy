/** What a write of base.c keeps when the device reports errors on the way. */
module FlashErrors {
  import opened WordArith
  import opened Division
  import opened Placement
  import opened Mtd
  import opened Sysinfo
  import opened FlashErase
  import opened FlashWrite
  import opened FlashLaws

  // ---------------------------------------------------------------- one more bad block

  lemma {:induction false} SkipKept(bad: seq<bool>, eb: nat, b: nat, c: nat)
    requires eb > 0 && b < |bad| && EbIndex(Skip(bad, eb, c), eb) != b
    ensures Skip(bad[b := true], eb, c) == Skip(bad, eb, c)
    decreases |bad| - EbIndex(c, eb)
  {
    if OnBad(bad, eb, c) {
      NextBlock(c, eb);
      SkipKept(bad, eb, b, EbStart(EbIndex(c, eb) + 1, eb));
    }
  }

  /** Bytes that were placed elsewhere stay where they are. */
  lemma {:induction false} AfterKept(bad: seq<bool>, eb: nat, x: nat, k: nat, b: nat)
    requires eb > 0 && b < |bad| && forall i :: 0 <= i < k ==> EbIndex(Place(bad, eb, x, i), eb) != b
    ensures After(bad[b := true], eb, x, k) == After(bad, eb, x, k)
    ensures forall i :: 0 <= i < k ==> Place(bad[b := true], eb, x, i) == Place(bad, eb, x, i)
    decreases k
  {
    if k > 0 {
      AfterKept(bad, eb, x, k - 1, b);
      assert EbIndex(Place(bad, eb, x, k - 1), eb) != b;
      SkipKept(bad, eb, b, After(bad, eb, x, k - 1));
    }
  }

  /** A cursor that would have stopped in the new bad block goes on behind it. */
  lemma {:induction false} SkipThrough(bad: seq<bool>, eb: nat, b: nat, c: nat)
    requires eb > 0 && b < |bad| && EbIndex(Skip(bad, eb, c), eb) == b
    ensures Skip(bad[b := true], eb, c) == Skip(bad[b := true], eb, EbStart(b + 1, eb))
    decreases |bad| - EbIndex(c, eb)
  {
    NextBlock(c, eb);
    if OnBad(bad, eb, c) {
      SkipThrough(bad, eb, b, EbStart(EbIndex(c, eb) + 1, eb));
    }
  }

  lemma {:induction false} OneGoodLess(bad: seq<bool>, b: nat, j: nat)
    requires b < |bad| && !bad[b] && j <= |bad|
    ensures GoodBlocks(bad[b := true], j) == GoodBlocks(bad, j) - (if b < j then 1 else 0)
  {
    if j > 0 { OneGoodLess(bad, b, j - 1); }
  }

  // ---------------------------------------------------------------- where errors strike

  /** No byte of a stream that starts at x lies in front of q in the block of q. */
  predicate FirstOfBlock(p: Partition, x: nat, q: nat)
    requires p.ebSize > 0
  {
    q == x || EbOffset(q, p.ebSize) == 0
  }

  /** Every page that fails is the first one that the run puts into its block, and the block is skipped later. */
  ghost predicate FirstOnly(p: Partition, lay: seq<Region>, markbad: bool, s: WriteState, x: nat)
    requires StateOk(p, s) && ValidLayout(lay)
    decreases p.Size() - s.off
  {
    Inside(s.off, p.ebSize, p.ebCnt);
    s.rest != [] && InPartition(p.ebCnt, p.ebSize, s.off) ==>
      var t := Turn(p, lay, markbad, s);
      && (t.0 == Skipped ==> p.IsNand() && FirstOfBlock(p, x, Target(p, s)))
      && (t.0 == Crashed || FirstOnly(p, lay, markbad, t.1, x))
  }

  /** Every page that fails is the same page when it is tried again. */
  ghost predicate PagesKept(p: Partition, lay: seq<Region>, markbad: bool, s: WriteState)
    requires StateOk(p, s) && ValidLayout(lay)
    decreases p.Size() - s.off
  {
    Inside(s.off, p.ebSize, p.ebCnt);
    s.rest != [] && InPartition(p.ebCnt, p.ebSize, s.off) ==>
      var t := Turn(p, lay, markbad, s);
      && (t.0 == Skipped ==> NextPage(t.1, p.minIo) == NextPage(s, p.minIo))
      && (t.0 == Crashed || PagesKept(p, lay, markbad, t.1))
  }

  /** The flags behind a page that failed. */
  lemma FlagsAfter(p: Partition, lay: seq<Region>, markbad: bool, s: WriteState)
    requires StateOk(p, s) && ValidLayout(lay)
    ensures var t, q := Turn(p, lay, markbad, s), Target(p, s);
            && (t.0 == Skipped ==>
                  && EbIndex(q, p.ebSize) < p.ebCnt && !Flags(p, s)[EbIndex(q, p.ebSize)]
                  && t.1.off == EbStart(EbIndex(q, p.ebSize) + 1, p.ebSize)
                  && Flags(p, t.1) == if p.IsNand() then Flags(p, s)[EbIndex(q, p.ebSize) := true] else Flags(p, s))
            && (t.0 == Done ==> Flags(p, t.1) == Flags(p, s) && EbIndex(q, p.ebSize) < p.ebCnt
                                && t.1.off == q + p.minIo)
  {
    hide EbIndex, EbOffset, EbStart, Skip, Merged, Overlay, Unsaved, Programmed;
    AlignNext(Target(p, s), p.ebSize);
  }

  // ---------------------------------------------------------------- how far the cursor gets

  /** How many bytes are left to write when k have been: the last page is filled up. */
  predicate Left(n: nat, len: nat, k: nat, page: nat)
    requires page > 0
  {
    k % page == 0 && if len == 0 then k == n + PadLength(n, page) else k + len == n
  }

  lemma LeftStart(n: nat, page: nat)
    requires page > 0
    ensures Left(n, n, 0, page)
  {
    if n == 0 { WholePages(0, page); }
  }

  lemma LeftNext(n: nat, len: nat, k: nat, page: nat)
    requires page > 0 && len > 0 && Left(n, len, k, page)
    ensures Left(n, if len > page then len - page else 0, k + page, page)
  {
    NextPageAligned(k, page);
    if len == page {
      WholePages(k + page, page);
    } else if len < page {
      LastPage(k, len, page);
    }
  }

  /** A run of bytes in one good block counts in full. */
  lemma {:induction false} GoodRun(bad: seq<bool>, eb: nat, q: nat, n: nat)
    requires eb > 0 && OnGood(bad, eb, q) && EbOffset(q, eb) + n <= eb
    ensures EbIndex(q + n, eb) <= |bad| && GoodBytes(bad, eb, q + n) == GoodBytes(bad, eb, q) + n
    decreases n
  {
    if n > 0 {
      GoodRun(bad, eb, q, n - 1);
      SameBlock(q, n - 1, eb);
      OneMoreByte(bad, eb, q + (n - 1));
    }
  }

  /** How many of k bytes written from x on are not on good blocks in front of the cursor. */
  function Missing(bad: seq<bool>, eb: nat, x: nat, off: nat, k: nat): int
    requires eb > 0 && EbIndex(x, eb) <= |bad| && EbIndex(off, eb) <= |bad|
  {
    GoodBytes(bad, eb, x) + k - GoodBytes(bad, eb, off)
  }

  /** A page that is written is not missing. */
  lemma PageCounts(bad: seq<bool>, eb: nat, x: nat, off: nat, k: nat, n: nat)
    requires eb > 0 && EbIndex(x, eb) <= |bad| && EbIndex(off, eb) <= |bad|
    requires var q := Skip(bad, eb, off); EbIndex(q, eb) < |bad| && EbOffset(q, eb) + n <= eb
    ensures var q := Skip(bad, eb, off);
            EbIndex(q + n, eb) <= |bad| && Missing(bad, eb, x, q + n, k + n) == Missing(bad, eb, x, off, k)
  {
    SkipKeepsCount(bad, eb, off);
    GoodRun(bad, eb, Skip(bad, eb, off), n);
  }

  /** A block that goes bad takes with it what the stream put into it. */
  lemma BlockMisses(bad: seq<bool>, eb: nat, x: nat, off: nat, k: nat)
    requires eb > 0 && x <= off && EbIndex(x, eb) <= |bad| && EbIndex(off, eb) <= |bad|
             && EbIndex(Skip(bad, eb, off), eb) < |bad|
    ensures var q := Skip(bad, eb, off);
            var b := EbIndex(q, eb);
            && EbIndex(EbStart(b + 1, eb), eb) <= |bad|
            && Missing(bad[b := true], eb, x, EbStart(b + 1, eb), k) ==
               Missing(bad, eb, x, off, k) + (if EbIndex(x, eb) == b then q - x else EbOffset(q, eb))
  {
    var q := Skip(bad, eb, off);
    var b := EbIndex(q, eb);
    SkipKeepsCount(bad, eb, off);
    DivMonotone(x, q, eb);
    DivMod(b + 1, eb, 0);
    Split(q, eb);
    Split(x, eb);
    OneGoodLess(bad, b, b + 1);
    OneGoodLess(bad, b, EbIndex(x, eb));
  }

  lemma FirstMissesNone(p: Partition, x: nat, q: nat)
    requires p.ebSize > 0 && x <= q
    ensures (if EbIndex(x, p.ebSize) == EbIndex(q, p.ebSize) then q - x else EbOffset(q, p.ebSize)) >= 0
    ensures (if EbIndex(x, p.ebSize) == EbIndex(q, p.ebSize) then q - x else EbOffset(q, p.ebSize)) == 0
            <==> FirstOfBlock(p, x, q)
  {
    Split(x, p.ebSize);
    Split(q, p.ebSize);
  }

  /** Where no block is skipped the cursor runs ahead. */
  lemma BlockAhead(bad: seq<bool>, eb: nat, x: nat, off: nat, k: nat)
    requires eb > 0 && EbIndex(x, eb) <= |bad| && EbIndex(off, eb) <= |bad| && EbIndex(Skip(bad, eb, off), eb) < |bad|
    ensures var b := EbIndex(Skip(bad, eb, off), eb);
            EbIndex(EbStart(b + 1, eb), eb) <= |bad|
            && Missing(bad, eb, x, EbStart(b + 1, eb), k) < Missing(bad, eb, x, off, k)
  {
    var q := Skip(bad, eb, off);
    SkipKeepsCount(bad, eb, off);
    NextBlock(q, eb);
    GoodRun(bad, eb, q, eb - EbOffset(q, eb));
  }

  /** What is missing in this state. */
  ghost function MissingIn(p: Partition, s: WriteState, x: nat, k: nat): int
    requires StateOk(p, s) && x <= p.Size() && s.off <= p.Size()
  {
    AtMost(p, x);
    AtMost(p, s.off);
    Missing(Flags(p, s), p.ebSize, x, s.off, k)
  }

  lemma AtMost(p: Partition, x: nat)
    requires p.Geometry() && x <= p.Size()
    ensures EbIndex(x, p.ebSize) <= p.ebCnt
  {
    DivMod(p.ebCnt, p.ebSize, 0);
    DivMonotone(x, p.Size(), p.ebSize);
  }

  /** One turn: nothing more is missing exactly when it writes its page, or fails on the first page of its block. */
  lemma TurnMisses(p: Partition, lay: seq<Region>, markbad: bool, s: WriteState, x: nat, k: nat)
    requires StateOk(p, s) && ValidLayout(lay) && x <= s.off <= p.Size() && Turn(p, lay, markbad, s).0 != Crashed
    ensures var t := Turn(p, lay, markbad, s);
            var k' := if t.0 == Done then k + p.minIo else k;
            && x <= t.1.off <= p.Size()
            && (p.IsNand() ==> MissingIn(p, t.1, x, k') >= MissingIn(p, s, x, k))
            && (!p.IsNand() ==> MissingIn(p, t.1, x, k') <= MissingIn(p, s, x, k))
            && (MissingIn(p, t.1, x, k') == MissingIn(p, s, x, k) <==>
                  (t.0 == Skipped ==> p.IsNand() && FirstOfBlock(p, x, Target(p, s))))
  {
    hide EbIndex, EbOffset, EbStart, Skip, Turn, GoodBytes;
    var t, q, bad := Turn(p, lay, markbad, s), Target(p, s), Flags(p, s);
    AtMost(p, x);
    AtMost(p, s.off);
    FlagsAfter(p, lay, markbad, s);
    if t.0 == Done {
      PlaceForPage(p, bad, s.off);
      PageCounts(bad, p.ebSize, x, s.off, k, p.minIo);
    } else {
      StartOrder(EbIndex(q, p.ebSize) + 1, p.ebCnt, p.ebSize);
      BlockMisses(bad, p.ebSize, x, s.off, k);
      FirstMissesNone(p, x, q);
      BlockAhead(bad, p.ebSize, x, s.off, k);
    }
  }

  lemma TurnLeaves(p: Partition, lay: seq<Region>, markbad: bool, s: WriteState, n: nat, k: nat)
    requires StateOk(p, s) && ValidLayout(lay) && s.rest != [] && Left(n, |s.rest|, k, p.minIo)
    ensures var t := Turn(p, lay, markbad, s);
            && (t.0 == Done ==> Left(n, |t.1.rest|, k + p.minIo, p.minIo)
                                && OnGood(Flags(p, t.1), p.ebSize, t.1.off - 1))
            && (t.0 == Skipped ==> |t.1.rest| == |s.rest|)
  {
    hide EbIndex, EbOffset, EbStart, Skip, Turn, Left, Merged, Overlay;
    LeftNext(n, |s.rest|, k, p.minIo);
    FlagsAfter(p, lay, markbad, s);
    if EbIndex(Target(p, s), p.ebSize) < p.ebCnt {
      TurnAt(p, lay, markbad, s);
      PlaceForPage(p, Flags(p, s), s.off);
      SameBlock(Target(p, s), p.minIo - 1, p.ebSize);
    }
  }

  /** A run that writes everything misses no more than it did before exactly when every page that fails is the first of
      its block. */
  lemma {:induction false} RunMisses(p: Partition, lay: seq<Region>, markbad: bool, s: WriteState, x: nat, n: nat,
                                     k: nat)
    returns (total: nat)
    requires StateOk(p, s) && ValidLayout(lay) && x <= s.off <= p.Size() && Left(n, |s.rest|, k, p.minIo)
    requires Run(p, lay, markbad, s).0 != -1 && Run(p, lay, markbad, s).1.rest == []
    ensures var t := Run(p, lay, markbad, s);
            && total == n + PadLength(n, p.minIo) && x <= t.1.off <= p.Size() && t.0 == p.Start() + t.1.off
            && (p.IsNand() ==> MissingIn(p, t.1, x, total) >= MissingIn(p, s, x, k))
            && (!p.IsNand() ==> MissingIn(p, t.1, x, total) <= MissingIn(p, s, x, k))
            && (MissingIn(p, t.1, x, total) == MissingIn(p, s, x, k) <==> FirstOnly(p, lay, markbad, s, x))
            && (s.rest != [] ==> t.1.off > 0 && OnGood(Flags(p, t.1), p.ebSize, t.1.off - 1))
    decreases p.Size() - s.off
  {
    hide EbIndex, EbOffset, EbStart, Skip, Turn, MissingIn, Left, Target, Flags;
    Inside(s.off, p.ebSize, p.ebCnt);
    if s.rest != [] {
      var t := Turn(p, lay, markbad, s);
      assert t.0 != Crashed && InPartition(p.ebCnt, p.ebSize, s.off);
      TurnMisses(p, lay, markbad, s, x, k);
      TurnLeaves(p, lay, markbad, s, n, k);
      total := RunMisses(p, lay, markbad, t.1, x, n, if t.0 == Done then k + p.minIo else k);
      if t.1.rest == [] { EndsHere(p, lay, markbad, t.1); }
    } else {
      total := k;
      assert Left(n, 0, k, p.minIo) ==> k == n + PadLength(n, p.minIo) by { LeftEnds(n, k, p.minIo); }
    }
  }

  lemma LeftEnds(n: nat, k: nat, page: nat)
    requires page > 0
    ensures Left(n, 0, k, page) ==> k == n + PadLength(n, page)
  {}

  lemma EndsHere(p: Partition, lay: seq<Region>, markbad: bool, s: WriteState)
    requires StateOk(p, s) && ValidLayout(lay) && s.rest == []
    ensures Run(p, lay, markbad, s) == (p.Start() + s.off, s)
  {}

  /** A cursor behind a good byte is where total bytes end exactly when none of them is missing. */
  lemma EndByCount(bad: seq<bool>, eb: nat, x: nat, off: nat, total: nat)
    requires eb > 0 && total > 0 && 0 < off && x <= off && EbIndex(off, eb) <= |bad| && OnGood(bad, eb, off - 1)
    ensures EbIndex(x, eb) <= |bad|
    ensures off == After(bad, eb, x, total) <==> Missing(bad, eb, x, off, total) == 0
  {
    hide EbIndex, EbOffset, EbStart, Skip, GoodBytes;
    DivMonotone(x, off, eb);
    FitsBelow(bad, eb, x, total, off);
    assert After(bad, eb, x, total) == Place(bad, eb, x, total - 1) + 1;
    if Missing(bad, eb, x, off, total) == 0 {
      PlaceRank(bad, eb, x, total);
      if After(bad, eb, x, total) < off {
        OneMoreByte(bad, eb, off - 1);
        GoodBytesMonotone(bad, eb, After(bad, eb, x, total), off - 1);
      }
    } else if off == After(bad, eb, x, total) {
      PlaceRank(bad, eb, x, total);
    }
  }

  /** A write that reports success and wrote everything returns the end of its padded stream, laid out on the blocks
      that are good afterwards, exactly when every page that failed was the first one it put into its block. Otherwise
      pages in front of the failed one were lost with its block. */
  lemma CursorTells(p: Partition, lay: seq<Region>, markbad: bool, s: WriteState)
    requires StateOk(p, s) && ValidLayout(lay) && s.off <= p.Size() && s.rest != []
    requires Run(p, lay, markbad, s).0 != -1 && Run(p, lay, markbad, s).1.rest == []
    ensures var t := Run(p, lay, markbad, s);
            t.0 == p.Start() + After(Flags(p, t.1), p.ebSize, s.off, |Padded(s.rest, p.minIo)|) <==>
            FirstOnly(p, lay, markbad, s, s.off)
  {
    hide EbIndex, EbOffset, EbStart, Skip, After, GoodBytes, Run, FirstOnly, Missing;
    var t, x := Run(p, lay, markbad, s), s.off;
    LeftStart(|s.rest|, p.minIo);
    var total := RunMisses(p, lay, markbad, s, x, |s.rest|, 0);
    AtMost(p, x);
    AtMost(p, t.1.off);
    NoneMissing(p, s);
    EndByCount(Flags(p, t.1), p.ebSize, x, t.1.off, total);
  }

  lemma NoneMissing(p: Partition, s: WriteState)
    requires StateOk(p, s) && s.off <= p.Size()
    ensures MissingIn(p, s, s.off, 0) == 0
  {}

  // ---------------------------------------------------------------- what the blocks hold

  /** The cells from before, but for blocks that are bad now. */
  function Mixed(bad: seq<bool>, eb: nat, cells0: seq<Byte>, cells: seq<Byte>): (r: seq<Byte>)
    requires eb > 0 && |cells0| == |cells|
    ensures |r| == |cells|
  {
    seq(|cells|,
        q requires 0 <= q < |cells| && |cells0| == |cells| => if OnBad(bad, eb, q) then cells[q] else cells0[q])
  }

  /** The first k bytes of the padded data are where a run without errors would have put them, had the blocks that are
      bad now been so from the start. */
  ghost predicate Kept(p: Partition, x: nat, lay: seq<Region>, data: seq<Byte>, cells0: seq<Byte>, s: WriteState,
                       k: nat)
    requires StateOk(p, s) && ValidLayout(lay) && |cells0| == p.Size()
  {
    var bad, stream := Flags(p, s), Padded(data, p.minIo);
    && Waiting(data, s.rest, k, p.minIo) && k <= |stream| && (s.lost ==> LostIsBlank(s, p.minIo))
    && Target(p, s) == Place(bad, p.ebSize, x, k) && (s.rest == [] ==> s.off == After(bad, p.ebSize, x, k))
    && Written(bad, p.ebSize, x, p.Start(), lay, stream[..k], Mixed(bad, p.ebSize, cells0, s.cells), s.cells)
  }

  /** What was lost in the pad buffer was blank. */
  ghost predicate LostIsBlank(s: WriteState, minIo: nat)
  {
    |s.rest| < minIo && s.rest + Blank(minIo - |s.rest|) == Blank(minIo)
  }

  lemma KeptStart(p: Partition, lay: seq<Region>, s: WriteState)
    requires StateOk(p, s) && ValidLayout(lay) && !s.lost
    ensures Kept(p, s.off, lay, s.rest, s.cells, s, 0)
  {
    WaitingStart(s.rest, p.minIo);
    assert Mixed(Flags(p, s), p.ebSize, s.cells, s.cells) == s.cells;
    WrittenNothing(Flags(p, s), p.ebSize, s.off, p.Start(), lay, Padded(s.rest, p.minIo)[..0], s.cells);
  }

  /** A page on a good block changes none of the bad ones. */
  lemma MixedStays(bad: seq<bool>, eb: nat, cells0: seq<Byte>, cells: seq<Byte>, q: nat, page: seq<Byte>)
    requires eb > 0 && |cells0| == |cells| && q + |page| <= |cells| && !OnBad(bad, eb, q)
             && EbOffset(q, eb) + |page| <= eb
    ensures Mixed(bad, eb, cells0, Programmed(cells, q, page)) == Mixed(bad, eb, cells0, cells)
  {
    PageOnGood(bad, eb, q, |page|);
  }

  lemma KeptDone(p: Partition, x: nat, lay: seq<Region>, markbad: bool, data: seq<Byte>, cells0: seq<Byte>,
                 s: WriteState, k: nat)
    requires StateOk(p, s) && ValidLayout(lay) && |cells0| == p.Size() && Kept(p, x, lay, data, cells0, s, k)
    requires s.rest != [] && Turn(p, lay, markbad, s).0 == Done
    ensures Kept(p, x, lay, data, cells0, Turn(p, lay, markbad, s).1, k + p.minIo)
  {
    hide EbIndex, EbOffset, EbStart, After, Skip, Padded, Overlay, Merged, Unsaved, Written, OverlaidBy, Waiting, Turn,
         Mixed;
    var q, page, stream, bad := Target(p, s), NextPage(s, p.minIo), Padded(data, p.minIo), Flags(p, s);
    FlagsAfter(p, lay, markbad, s);
    TurnAt(p, lay, markbad, s);
    PlaceForPage(p, bad, s.off);
    PageOfStream(data, s.rest, k, p.minIo, page);
    MergedOverlaid(lay, p.Start() + q, page);
    AtPage(data, s.rest, k, p.minIo);
    MixedStays(bad, p.ebSize, cells0, s.cells, q, Merged(lay, p.Start() + q, page));
    StreamNext(bad, p.ebSize, p.ebCnt, x, p.Start(), lay, stream, Mixed(bad, p.ebSize, cells0, s.cells), s.cells, k,
               p.minIo, Merged(lay, p.Start() + q, page));
  }

  /** A block that goes bad with nothing of the stream in it. */
  lemma WrittenAround(bad: seq<bool>, eb: nat, b: nat, x: nat, start: nat, lay: seq<Region>, data: seq<Byte>,
                      cells0: seq<Byte>, cells: seq<Byte>, cells': seq<Byte>)
    requires eb > 0 && b < |bad| && |cells0| == |cells| && forall i :: 0 <= i < |lay| ==> lay[i].Valid()
    requires Written(bad, eb, x, start, lay, data, Mixed(bad, eb, cells0, cells), cells)
    requires forall i :: 0 <= i < |data| ==> EbIndex(Place(bad, eb, x, i), eb) != b
    requires ChangesOnly(eb, b, cells, cells')
    ensures Written(bad[b := true], eb, x, start, lay, data, Mixed(bad[b := true], eb, cells0, cells'), cells')
  {
    hide EbIndex, EbOffset, Overlay, After, Skip;
    var bad' := bad[b := true];
    AfterKept(bad, eb, x, |data|, b);
    FitsFewer(bad, eb, x, |data|, |data|);
    forall k | 0 <= k < |data|
      ensures StreamByte(bad', eb, x, start, lay, data, Mixed(bad', eb, cells0, cells'), cells', k)
    {
      assert StreamByte(bad, eb, x, start, lay, data, Mixed(bad, eb, cells0, cells), cells, k);
    }
  }

  /** When q is the first place of the stream in its block, what lies in front of it lies in other blocks. */
  lemma NothingThere(p: Partition, bad: seq<bool>, x: nat, k: nat)
    requires p.ebSize > 0 && FirstOfBlock(p, x, Place(bad, p.ebSize, x, k))
    ensures forall i :: 0 <= i < k ==>
              EbIndex(Place(bad, p.ebSize, x, i), p.ebSize) != EbIndex(Place(bad, p.ebSize, x, k), p.ebSize)
  {
    var q := Place(bad, p.ebSize, x, k);
    Split(q, p.ebSize);
    forall i | 0 <= i < k
      ensures EbIndex(Place(bad, p.ebSize, x, i), p.ebSize) != EbIndex(q, p.ebSize)
    {
      PlaceGrows(bad, p.ebSize, x, i, k);
      Inside(Place(bad, p.ebSize, x, i), p.ebSize, EbIndex(q, p.ebSize));
    }
  }

  /** The bytes to write are unchanged when the page is. */
  lemma RestKept(p: Partition, lay: seq<Region>, markbad: bool, s: WriteState)
    requires StateOk(p, s) && ValidLayout(lay) && s.rest != [] && Turn(p, lay, markbad, s).0 == Skipped
    requires NextPage(Turn(p, lay, markbad, s).1, p.minIo) == NextPage(s, p.minIo)
    requires s.lost ==> LostIsBlank(s, p.minIo)
    ensures var t := Turn(p, lay, markbad, s);
            t.1.rest == s.rest && (t.1.lost ==> LostIsBlank(t.1, p.minIo))
  {
    hide EbIndex, EbOffset, EbStart, Skip, Overlay, Merged, Turn, Blank;
    FlagsAfter(p, lay, markbad, s);
    TurnAt(p, lay, markbad, s);
    var t := Turn(p, lay, markbad, s);
    if |s.rest| >= p.minIo {
      assert t.1.rest == t.1.rest[..p.minIo] + t.1.rest[p.minIo..];
      assert s.rest == s.rest[..p.minIo] + s.rest[p.minIo..];
    }
  }

  lemma KeptSkipped(p: Partition, x: nat, lay: seq<Region>, markbad: bool, data: seq<Byte>, cells0: seq<Byte>,
                    s: WriteState, k: nat)
    requires StateOk(p, s) && ValidLayout(lay) && |cells0| == p.Size() && Kept(p, x, lay, data, cells0, s, k)
    requires s.rest != [] && Turn(p, lay, markbad, s).0 == Skipped && p.IsNand() && FirstOfBlock(p, x, Target(p, s))
    requires NextPage(Turn(p, lay, markbad, s).1, p.minIo) == NextPage(s, p.minIo)
    ensures Kept(p, x, lay, data, cells0, Turn(p, lay, markbad, s).1, k)
  {
    hide EbIndex, EbOffset, EbStart, Skip, After, Padded, Written, Waiting, Turn, Mixed, NextPage, CountBad, BadFlags;
    var q, bad, t, b := Target(p, s), Flags(p, s), Turn(p, lay, markbad, s), EbIndex(Target(p, s), p.ebSize);
    FlagsAfter(p, lay, markbad, s);
    TurnChanges(p, lay, markbad, s);
    RestKept(p, lay, markbad, s);
    NothingThere(p, bad, x, k);
    AfterKept(bad, p.ebSize, x, k, b);
    SkipThrough(bad, p.ebSize, b, After(bad, p.ebSize, x, k));
    WrittenAround(bad, p.ebSize, b, x, p.Start(), lay, Padded(data, p.minIo)[..k], cells0, s.cells, t.1.cells);
  }

  /** A run that reports success, with errors on first pages only that leave the page as it is. */
  lemma {:induction false} KeptRun(p: Partition, x: nat, lay: seq<Region>, markbad: bool, data: seq<Byte>,
                                   cells0: seq<Byte>, s: WriteState, k: nat)
    returns (done: nat)
    requires StateOk(p, s) && ValidLayout(lay) && |cells0| == p.Size() && Kept(p, x, lay, data, cells0, s, k)
    requires FirstOnly(p, lay, markbad, s, x) && PagesKept(p, lay, markbad, s) && Run(p, lay, markbad, s).0 != -1
    ensures Kept(p, x, lay, data, cells0, Run(p, lay, markbad, s).1, done)
    decreases p.Size() - s.off
  {
    hide EbIndex, EbOffset, EbStart, Kept, Turn, NextPage, Target;
    Inside(s.off, p.ebSize, p.ebCnt);
    if s.rest != [] && InPartition(p.ebCnt, p.ebSize, s.off) {
      var t := Turn(p, lay, markbad, s);
      if t.0 == Done {
        KeptDone(p, x, lay, markbad, data, cells0, s, k);
        done := KeptRun(p, x, lay, markbad, data, cells0, t.1, k + p.minIo);
      } else {
        KeptSkipped(p, x, lay, markbad, data, cells0, s, k);
        done := KeptRun(p, x, lay, markbad, data, cells0, t.1, k);
      }
    } else {
      done := k;
    }
  }

  /** What a write that reports success leaves, when every page that fails is the first of its block and stays the same:
      on the blocks that are good afterwards, the stream as if the others had been bad from the start; all of it, unless
      the end of the partition was reached. */
  lemma SuccessfulWrite(p: Partition, lay: seq<Region>, markbad: bool, s: WriteState) returns (done: nat)
    requires StateOk(p, s) && ValidLayout(lay) && !s.lost && s.off <= p.Size() && s.rest != []
    requires FirstOnly(p, lay, markbad, s, s.off) && PagesKept(p, lay, markbad, s) && Run(p, lay, markbad, s).0 != -1
    ensures var t, stream := Run(p, lay, markbad, s), Padded(s.rest, p.minIo);
            var bad := Flags(p, t.1);
            && done <= |stream|
            && Written(bad, p.ebSize, s.off, p.Start(), lay, stream[..done], Mixed(bad, p.ebSize, s.cells, t.1.cells),
                       t.1.cells)
            && (t.1.rest == [] ==> done == |stream| && t.0 == p.Start() + After(bad, p.ebSize, s.off, done))
            && (t.1.rest != [] ==> t.0 >= p.Start() + p.Size())
  {
    hide EbIndex, EbOffset, EbStart, Skip, After, Padded, Written, FirstOnly, PagesKept, Run, Mixed;
    KeptStart(p, lay, s);
    done := KeptRun(p, s.off, lay, markbad, s.rest, s.cells, s, 0);
    RunStops(p, lay, markbad, s);
    AtPage(s.rest, Run(p, lay, markbad, s).1.rest, done, p.minIo);
  }

  /** A run that does not fail stops at the end of its data or of the partition. */
  lemma {:induction false} RunStops(p: Partition, lay: seq<Region>, markbad: bool, s: WriteState)
    requires StateOk(p, s) && ValidLayout(lay)
    ensures var t := Run(p, lay, markbad, s);
            t.0 != -1 ==> t.0 == p.Start() + t.1.off && (t.1.rest == [] || t.1.off >= p.Size())
    decreases p.Size() - s.off
  {
    hide EbIndex, EbOffset, EbStart, Turn;
    Inside(s.off, p.ebSize, p.ebCnt);
    if s.rest != [] && InPartition(p.ebCnt, p.ebSize, s.off) && Turn(p, lay, markbad, s).0 != Crashed {
      RunStops(p, lay, markbad, Turn(p, lay, markbad, s).1);
    }
  }

  /** What was written reads back, errors or not: on erased pages that no reserved region meets, a read of the same
      length from the same offset, which skips the blocks that are bad now, returns the buffer. */
  lemma ReadsBack(p: Partition, lay: seq<Region>, markbad: bool, s: WriteState, back: seq<Byte>)
    requires StateOk(p, s) && ValidLayout(lay) && !s.lost && s.off <= p.Size() && s.rest != []
    requires FirstOnly(p, lay, markbad, s, s.off) && PagesKept(p, lay, markbad, s)
    requires Run(p, lay, markbad, s).0 != -1 && Run(p, lay, markbad, s).1.rest == []
    requires var t := Run(p, lay, markbad, s);
             && ErasedAt(Flags(p, t.1), p.ebSize, s.off, s.cells, |s.rest|)
             && ClearOfRegions(Flags(p, t.1), p.ebSize, s.off, p.Start(), lay, |Padded(s.rest, p.minIo)|)
             && ReadsAs(Flags(p, t.1), p.ebSize, s.off, t.1.cells, back) && |back| == |s.rest|
    ensures back == s.rest
  {
    hide EbIndex, EbOffset, EbStart, Skip, After, FirstOnly, PagesKept, Run, Overlay;
    var t, stream := Run(p, lay, markbad, s), Padded(s.rest, p.minIo);
    var bad := Flags(p, t.1);
    var done := SuccessfulWrite(p, lay, markbad, s);
    assert stream[..done] == stream;
    var cells0 := Mixed(bad, p.ebSize, s.cells, t.1.cells);
    ReadsWhatWasWritten(bad, p.ebSize, s.off, p.Start(), lay, stream, cells0, t.1.cells, back);
    NothingLost(bad, p.ebSize, s.off, p.Start(), lay, stream, cells0, back);
  }

  /** No reserved region meets the partition. */
  predicate NoRegions(p: Partition, lay: seq<Region>)
  {
    forall i :: 0 <= i < |lay| && lay[i].reserve == Reserved ==>
      !Overlaps(lay[i], p.Start(), p.Start() + p.Size())
  }

  lemma MergeKeeps(p: Partition, lay: seq<Region>, q: nat, page: seq<Byte>)
    requires ValidLayout(lay) && NoRegions(p, lay) && q + |page| <= p.Size()
    ensures Merged(lay, p.Start() + q, page) == page
  {
    forall k | 0 <= k < |page|
      ensures Merged(lay, p.Start() + q, page)[k] == page[k]
    {
      NotCovered(lay, p.Start() + q + k, page[k]);
    }
  }

  /** Whole pages, no region, and errors at the start of blocks only: such a device loses nothing. */
  lemma {:induction false} ErrorsAtStarts(p: Partition, lay: seq<Region>, markbad: bool, s: WriteState, x: nat)
    requires StateOk(p, s) && ValidLayout(lay) && NoRegions(p, lay) && p.IsNand() && |s.rest| % p.minIo == 0
    requires forall q :: p.writeFault(q) == Eio ==> EbOffset(q, p.ebSize) == 0
    ensures FirstOnly(p, lay, markbad, s, x) && PagesKept(p, lay, markbad, s)
    decreases p.Size() - s.off
  {
    hide EbIndex, EbOffset, EbStart, Turn, Merged, Unsaved, Skip;
    Inside(s.off, p.ebSize, p.ebCnt);
    if s.rest != [] && InPartition(p.ebCnt, p.ebSize, s.off) && Turn(p, lay, markbad, s).0 != Crashed {
      var t := Turn(p, lay, markbad, s);
      FlagsAfter(p, lay, markbad, s);
      TurnAt(p, lay, markbad, s);
      AtLeastOnePage(|s.rest|, p.minIo);
      Remainder(p.minIo, p.minIo, 1, 0);
      PagesAdd(|s.rest|, p.minIo, p.minIo);
      Remainder(0, p.minIo, 0, 0);
      if t.0 == Skipped {
        RetriedPage(p, lay, markbad, s);
        MergeKeeps(p, lay, Target(p, s), NextPage(s, p.minIo));
      }
      ErrorsAtStarts(p, lay, markbad, t.1, x);
    }
  }

  /** The device and the request are such that nothing is lost, whatever errors the write meets. */
  ghost predicate LosesNothing(s: SysinfoManager, offset: nat, data: seq<Byte>, markbad: bool)
    reads s, s.part
    requires s.Valid() && s.part.hasMap && data != []
  {
    var p, x := s.part, offset - s.part.Start();
    0 <= x <= p.Size() && x % p.minIo == 0
    && var start := WriteStart(p, x, data);
       var t := Run(p, s.layout, markbad, start);
       && FirstOnly(p, s.layout, markbad, start, x) && PagesKept(p, s.layout, markbad, start)
       && t.0 != -1 && t.1.rest == []
       && ErasedAt(Flags(p, t.1), p.ebSize, x, p.cells, |data|)
       && ClearOfRegions(Flags(p, t.1), p.ebSize, x, p.Start(), s.layout, |Padded(data, p.minIo)|)
  }

  /** The write and the read in a row: what was in the buffer comes back, although blocks went bad on the way. */
  method WriteThenReadAround(s: SysinfoManager, offset: nat, buf: array<Byte>, markbad: bool)
    returns (r: int, r': int, back: array<Byte>)
    requires s.Valid() && s.part.hasMap && !HasReadFault(s.part) && buf.Length > 0
    requires !WriteRefused(s.part, offset, buf.Length, true) && LosesNothing(s, offset, buf[..], markbad)
    modifies s.part, buf
    ensures fresh(back) && r >= 0 && r' >= 0 && back[..] == old(buf[..])
  {
    hide EbIndex, EbOffset, EbStart, After, Skip, Written, ReadsAs, GoodBytes, GoodBlocks, Run, Spared, FirstOnly,
         PagesKept, ErasedAt, ClearOfRegions, Padded, WriteResult, Mixed;
    var p := s.part;
    ghost var image := buf[..];
    assert buf[..buf.Length] == image;
    ghost var start := WriteStart(p, offset - p.Start(), image);
    ghost var done, done';
    r, done := Write(s, offset, buf.Length, buf, true, markbad);
    back := new Byte[buf.Length];
    var failed;
    r', failed, done' := Read(p, offset, buf.Length, back);
    done := SuccessfulWrite(p, s.layout, markbad, start);
    Room(p.RelBad(), p.ebSize, offset - p.Start(), p.Start(), s.layout, Padded(image, p.minIo)[..done],
         Mixed(p.RelBad(), p.ebSize, start.cells, p.cells), p.cells, buf.Length);
    ReadCompletes(p.RelBad(), p.ebSize, offset - p.Start(), buf.Length, done', p.Start(), r');
    assert back[..done'] == back[..];
    ReadsBack(p, s.layout, markbad, start, back[..]);
  }

  lemma Room(bad: seq<bool>, eb: nat, x: nat, start: nat, lay: seq<Region>, stream: seq<Byte>, cells0: seq<Byte>,
             cells: seq<Byte>, n: nat)
    requires eb > 0 && (forall i :: 0 <= i < |lay| ==> lay[i].Valid()) && n <= |stream|
    requires Written(bad, eb, x, start, lay, stream, cells0, cells)
    ensures Fits(bad, eb, x, n)
  {
    FitsFewer(bad, eb, x, n, |stream|);
  }
}
