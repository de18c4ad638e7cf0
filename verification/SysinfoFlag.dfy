/** sysinfo_manager.c, sysinfo_set_value, and flag.c: one region of an eraseblock is rewritten, the rest of the block is
    carried over. */
module SysinfoFlag {
  import opened Wrappers
  import opened WordArith
  import opened Bits
  import opened Division
  import opened Placement
  import opened Mtd
  import opened Sysinfo
  import opened FlashErase
  import opened FlashWrite
  import opened FlashLaws

  // ---------------------------------------------------------------- one block of the partition

  /** Block b of a partition that starts at block 0 is good, for the device and for the map, and nothing fails. */
  ghost predicate BlockGood(p: Partition, b: nat)
    reads p
    requires p.Valid()
  {
    p.startEb == 0 && b < p.ebCnt && Quiet(p) && !p.devBad[b] && p.Map()[b] != Bad
  }

  /** After a scan the map says so too. */
  ghost predicate BlockTagged(p: Partition, es: seq<Status>, b: nat)
    requires |es| == p.totalEb
  {
    p.startEb == 0 && b < p.ebCnt <= p.totalEb && Quiet(p) && es[b] !in {Untagged, Bad}
  }

  /** The map after a scan of a good block. */
  function Visited(es: seq<Status>, b: nat): (r: seq<Status>)
    requires b < |es|
    ensures |r| == |es|
  {
    es[b := ScanStatus(es[b], false)]
  }

  /** Every reserved region of the partition lies in block b, or in a block that was scanned before and is good. */
  ghost predicate ReservedKnown(p: Partition, es: seq<Status>, lay: seq<Region>, b: nat)
    requires p.Geometry() && |es| == p.totalEb
  {
    forall i :: 0 <= i < |lay| && lay[i].reserve == Reserved && InPartitionOf(p, lay[i]) ==>
      BlockIndex(p, lay[i]) == b || ReadyIn(p, es, lay[i])
  }

  /** Every reserved region in block b has a value to merge. */
  ghost predicate BlockSaved(p: Partition, lay: seq<Region>, b: nat)
    requires p.ebSize > 0
  {
    forall i :: 0 <= i < |lay| && lay[i].reserve == Reserved && InPartitionOf(p, lay[i]) ==>
      (BlockIndex(p, lay[i]) == b ==> lay[i].value.Some?)
  }

  /** The blocks that a write skips with this map. */
  function RelFlags(p: Partition, es: seq<Status>): (bad: seq<bool>)
    requires p.Geometry() && |es| == p.totalEb
    ensures |bad| == p.ebCnt
  {
    BadFlags(es[..p.ebCnt], p.IsNand())
  }

  /** No block in front of b is used, so b is the block that the erase of one block finds, unless it is bad itself. */
  predicate FirstGood(bad: seq<bool>, b: nat)
    requires b <= |bad|
  {
    forall i :: 0 <= i < b ==> bad[i]
  }

  /** A rewrite of block b gets through: the erase saves its reserved regions, or they have values from earlier. */
  ghost predicate Takes(p: Partition, bad: seq<bool>, lay: seq<Region>, b: nat)
    requires p.ebSize > 0 && b <= |bad|
  {
    FirstGood(bad, b) || BlockSaved(p, lay, b)
  }

  /** Byte q of the rewritten block b, which held before and was to hold c. The erase takes place only when b is the
      first good block; elsewhere the write can only clear bits. */
  ghost function BlockByte(bad: seq<bool>, lay: seq<Region>, b: nat, q: nat, before: Byte, c: Byte): Byte
    requires b <= |bad| && ValidLayout(lay)
  {
    if FirstGood(bad, b) then if InReserved(lay, q) then before else c else ByteAnd(before, Overlay(lay, q, c))
  }

  /** A byte of another block: the first good block was erased. */
  function OtherByte(bad: seq<bool>, i: nat, before: Byte): Byte
  {
    if i < |bad| && !bad[i] && FirstGood(bad, i) then ERASED_BYTE else before
  }

  /** What the rewrite of block b makes of the device, when it was to hold want. */
  ghost predicate RewriteOutcome(p: Partition, bad: seq<bool>, lay: seq<Region>, b: nat, cells0: seq<Byte>,
                                 want: seq<Byte>, cells: seq<Byte>, ok: bool)
    requires p.ebSize > 0 && b < |bad| && ValidLayout(lay)
  {
    && (ok <==> Takes(p, bad, lay, b)) && |cells| == |want| == |cells0|
    && (forall q :: 0 <= q < |cells| && EbIndex(q, p.ebSize) != b ==>
          cells[q] == OtherByte(bad, EbIndex(q, p.ebSize), cells0[q]))
    && (ok ==> forall q :: 0 <= q < |cells| && EbIndex(q, p.ebSize) == b ==>
          cells[q] == BlockByte(bad, lay, b, q, cells0[q], want[q]))
  }

  /** The contents with the value put at its place. */
  function Patched(data: seq<Byte>, at: nat, value: seq<Byte>): (r: seq<Byte>)
    requires at + |value| <= |data|
    ensures |r| == |data|
  {
    data[..at] + value + data[at + |value|..]
  }

  lemma ScanOfBlock(p: Partition, blk: nat)
    requires p.Geometry() && p.startEb == 0 && EbOffset(blk, p.ebSize) == 0 && EbIndex(blk, p.ebSize) < p.ebCnt
    ensures ScanFrom(p, blk) == EbIndex(blk, p.ebSize)
    ensures Need(p, blk, p.ebSize, Random) == 1 && !ScanRefused(p, blk, p.ebSize, Random)
  {
    Split(blk, p.ebSize);
    DivMod(EbIndex(blk, p.ebSize) + 1, p.ebSize, p.ebSize - 1);
  }

  lemma GoodScan(es: seq<Status>, es': seq<Status>, devBad: seq<bool>, checked: bool, b: nat, found: bool, span: nat,
                 r: int, eb: nat)
    requires |devBad| <= |es| && b < |devBad| && !devBad[b] && b + span <= |devBad|
    requires ScanOutcome(Unfit(es, 0, devBad, checked), b, 1, Random, found, span, r, eb)
    requires es' == ScannedMap(es, 0, devBad, checked, b, b + span)
    ensures r == eb && es' == Visited(es, b)
  {
    FirstIsFit(Unfit(es, 0, devBad, checked), b, found, span, r, eb);
    assert ScannedMap(es, 0, devBad, checked, b, b) == es;
  }

  /** The scan of one block. */
  method ScanBlockAt(p: Partition, blk: nat) returns (ok: bool)
    requires p.Valid()
    modifies p`hasMap, p`es, p`badCnt
    ensures p.Valid() && (old(p.hasMap) ==> p.hasMap) && Sticky(old(p.Map()), p.Map())
    ensures EbOffset(blk, p.ebSize) == 0 && old(BlockGood(p, EbIndex(blk, p.ebSize))) ==>
              ok && p.hasMap && p.es == Visited(old(p.Map()), EbIndex(blk, p.ebSize))
  {
    hide EbIndex, EbOffset, EbStart, CountBad, ScannedMap, Unfit, GoodBlocks;
    ghost var b, es := EbIndex(blk, p.ebSize), p.Map();
    ghost var good := EbOffset(blk, p.ebSize) == 0 && BlockGood(p, b);
    if good { ScanOfBlock(p, blk); }
    var r, failed;
    ghost var found, span;
    r, failed, found, span := Scan(p, blk, p.ebSize, Random, false);
    if good {
      assert !failed;
      GoodScan(es, p.es, p.devBad, Checked(p, false), b, found, span, r, p.ebSize);
    }
    ok := r > 0;
  }

  /** A stream of one block that starts at a good one stays in it. */
  lemma BlockPlaces(bad: seq<bool>, eb: nat, b: nat)
    requires eb > 0 && b < |bad| && !bad[b]
    ensures var x := EbStart(b, eb);
            && EbIndex(x, eb) == b && EbOffset(x, eb) == 0
            && Fits(bad, eb, x, eb) && After(bad, eb, x, eb) == x + eb && forall k :: 0 <= k < eb ==>
                 Place(bad, eb, x, k) == x + k
  {
    DivMod(b, eb, 0);
    assert Place(bad, eb, EbStart(b, eb), 0) == EbStart(b, eb);
    Contiguous(bad, eb, EbStart(b, eb), 0, eb);
  }

  lemma WholeBlockRead(bad: seq<bool>, eb: nat, b: nat, cells: seq<Byte>, data: seq<Byte>, done: nat, r: int)
    requires eb > 0 && b < |bad| && !bad[b] && |cells| == EbStart(|bad|, eb) && done <= |data| == eb
    requires ReadsAs(bad, eb, EbStart(b, eb), cells, data[..done]) && Ends(bad, eb, EbStart(b, eb), eb, done, 0, r)
    ensures r >= 0 && EbStart(b, eb) + eb <= |cells| && data == cells[EbStart(b, eb)..EbStart(b, eb) + eb]
  {
    hide EbIndex, EbOffset, EbStart, After, Skip;
    var x := EbStart(b, eb);
    BlockPlaces(bad, eb, b);
    ReadCompletes(bad, eb, x, eb, done, 0, r);
    UnitInside(x, eb, eb, |bad|);
    assert data[..done] == data;
    forall k | 0 <= k < eb
      ensures data[k] == cells[x + k]
    {
      assert Place(bad, eb, x, k) == x + k;
    }
  }

  /** The read of one block. */
  method ReadBlockAt(p: Partition, blk: nat, tmp: array<Byte>) returns (ok: bool)
    requires p.Valid() && p.Start() <= blk && tmp.Length == p.ebSize && EbOffset(blk, p.ebSize) == 0
    modifies tmp
    ensures p.hasMap && BlockTagged(p, p.es, EbIndex(blk, p.ebSize)) ==>
              ok && blk + p.ebSize <= |p.cells| && tmp[..] == p.cells[blk..blk + p.ebSize]
  {
    hide EbIndex, EbOffset, CountBad, After, Skip, ReadsAs, Ends;
    var r, failed;
    ghost var done;
    r, failed, done := Read(p, blk, p.ebSize, tmp);
    ghost var b := EbIndex(blk, p.ebSize);
    if p.hasMap && BlockTagged(p, p.es, b) {
      Split(blk, p.ebSize);
      assert tmp[..][..done] == tmp[..done];
      WholeBlockRead(p.RelBad(), p.ebSize, b, p.cells, tmp[..], done, r);
    }
    ok := r >= 0;
  }

  /** Once block b is tagged every reserved region of the partition is readable. */
  lemma KnownReady(p: Partition, es: seq<Status>, lay: seq<Region>, b: nat)
    requires p.Geometry() && |es| == p.totalEb && BlockTagged(p, es, b) && ReservedKnown(p, es, lay, b)
    ensures RegionsReady(p, es, lay)
  {
    forall i | 0 <= i < |lay| && lay[i].reserve == Reserved && InPartitionOf(p, lay[i])
      ensures ReadyIn(p, es, lay[i])
    {
      assert BlockIndex(p, lay[i]) == b || ReadyIn(p, es, lay[i]);
    }
  }

  /** An erase of one block ends behind the first good one. */
  lemma {:induction false} OneErased(bad: seq<bool>, e: nat, b: nat)
    requires b < |bad| && !bad[b] && ErasedSpan(bad, 1, e)
    ensures b < e <==> FirstGood(bad, b)
    ensures e > 0 && GoodBlocks(bad, |bad|) >= 1 && (b == 0 ==> e == 1)
  {
    GoodBlocksMonotone(bad, b + 1, |bad|);
    if b < e {
      NoneBefore(bad, e - 1);
    } else if e > 0 {
      assert !bad[e - 1];
    }
  }

  lemma {:induction false} NoneBefore(bad: seq<bool>, n: nat)
    requires n <= |bad| && GoodBlocks(bad, n) == 0
    ensures FirstGood(bad, n)
  {
    if n > 0 { NoneBefore(bad, n - 1); }
  }

  /** A reserved region in block b has a value after the erase exactly if it was just saved or had one. */
  lemma SavedAfterErase(p: Partition, cells0: seq<Byte>, lay0: seq<Region>, lay: seq<Region>, e: nat, b: nat)
    requires p.Geometry() && SavedUpTo(p, cells0, lay0, lay, e) && SameShape(lay0, lay)
    ensures BlockSaved(p, lay, b) <==> b < e || BlockSaved(p, lay0, b)
  {
    forall i | 0 <= i < |lay0|
      ensures lay[i].reserve == lay0[i].reserve && InPartitionOf(p, lay[i]) == InPartitionOf(p, lay0[i])
              && lay[i].offset == lay0[i].offset
    {
      assert lay[i] == lay0[i].(value := lay[i].value);
    }
  }

  /** The page of byte y. */
  lemma PageOf(y: nat, page: nat) returns (j: nat)
    requires page > 0
    ensures j % page == 0 && j <= y < j + page
  {
    QuotientAndRest(y, page);
    Quotient(y / page, page, 0);
    j := y / page * page;
  }

  /** A write of one block to a good block b succeeds exactly if its reserved regions have values. */
  lemma BlockWriteEnds(p: Partition, bad: seq<bool>, b: nat, lay: seq<Region>, done: nat, r: int)
    requires p.Geometry() && p.startEb == 0 && |bad| == p.ebCnt && b < p.ebCnt && !bad[b]
    requires forall i :: 0 <= i < |lay| ==> lay[i].Valid() && InOneBlock(p, lay[i])
    requires WriteEnds(p, bad, EbStart(b, p.ebSize), lay, p.ebSize, done, r)
    ensures done <= p.ebSize && (r >= 0 <==> BlockSaved(p, lay, b)) && (r >= 0 ==> done == p.ebSize)
  {
    hide EbIndex, EbOffset, After, Skip, Fits;
    var eb, x := p.ebSize, EbStart(b, p.ebSize);
    BlockPlaces(bad, eb, b);
    if done < eb { BlockRoom(bad, eb, b, done); }
    if BlockSaved(p, lay, b) {
      if done < eb { SavedPage(p, bad, b, lay, done); }
    } else {
      var i :| 0 <= i < |lay| && lay[i].reserve == Reserved && InPartitionOf(p, lay[i]) && BlockIndex(p, lay[i]) == b
          && lay[i].value == None;
      Split(lay[i].offset, eb);
      var j := PageOf(lay[i].offset - x, p.minIo);
      assert Place(bad, eb, x, j) == x + j;
      assert !PageClear(bad, eb, x, p.Start(), lay, p.minIo, j);
    }
  }

  /** While bytes are left the cursor stays in the block. */
  lemma BlockRoom(bad: seq<bool>, eb: nat, b: nat, done: nat)
    requires eb > 0 && b < |bad| && !bad[b] && done < eb
    ensures Fits(bad, eb, EbStart(b, eb), done + 1) && InPartition(|bad|, eb, After(bad, eb, EbStart(b, eb), done))
  {
    BlockPlaces(bad, eb, b);
    FitsFewer(bad, eb, EbStart(b, eb), done + 1, eb);
    DivMonotone(After(bad, eb, EbStart(b, eb), done), Place(bad, eb, EbStart(b, eb), done), eb);
  }

  lemma SavedPage(p: Partition, bad: seq<bool>, b: nat, lay: seq<Region>, j: nat)
    requires p.Geometry() && p.startEb == 0 && |bad| == p.ebCnt && b < p.ebCnt && !bad[b] && BlockSaved(p, lay, b)
    requires forall i :: 0 <= i < |lay| ==> lay[i].Valid() && InOneBlock(p, lay[i])
    requires j % p.minIo == 0 && j < p.ebSize
    ensures PageClear(bad, p.ebSize, EbStart(b, p.ebSize), p.Start(), lay, p.minIo, j)
  {
    hide EbIndex, EbOffset, After, Skip, Fits;
    var eb, x := p.ebSize, EbStart(b, p.ebSize);
    BlockPlaces(bad, eb, b);
    LessPage(j, eb, p.minIo);
    SameBlock(x, j, eb);
    forall i | 0 <= i < |lay| && lay[i].reserve == Reserved && Overlaps(lay[i], x + j, x + j + p.minIo)
      ensures lay[i].value.Some?
    {
      RegionOfRun(p, lay[i], x + j, p.minIo);
    }
    assert Place(bad, eb, x, j) == x + j;
  }

  /** The map tells that block b is good, and where the reserved regions can be read. */
  ghost predicate Prepared(s: SysinfoManager, b: nat)
    reads s, s.part
    requires s.Valid()
  {
    s.part.hasMap && BlockTagged(s.part, s.part.es, b) && ReservedKnown(s.part, s.part.es, s.layout, b)
  }

  /** The erase of one block, when block b is prepared. */
  method EraseOne(s: SysinfoManager, ghost b: nat) returns (ok: bool, ghost e: nat)
    requires s.Valid()
    modifies s, s.part
    ensures s.Valid() && s.part.hasMap == old(s.part.hasMap) && SameShape(old(s.layout), s.layout)
    ensures old(Prepared(s, b)) ==>
              && ok && ErasedSpan(old(s.part.RelBad()), 1, e) && s.part.RelBad() == old(s.part.RelBad())
              && Erasing(s.part, old(s.part.RelBad()), old(Snapshot(s)), Snapshot(s), e)
  {
    hide EbOffset, EbStart, CountBad, ErasedMap, Blanked, GoodBlocks, BadFlags, ReservedKnown;
    var p := s.part;
    ghost var prepared, es0, lay0 := Prepared(s, b), p.es, s.layout;
    if prepared {
      KnownReady(p, es0, lay0, b);
      OneEraseBlock(p);
      SameFlags(p);
    }
    var r;
    r, e := Erase(s, p.ebSize, false);
    if prepared { EraseKeepsFlags(es0, 0, BadFlags(es0[..p.ebCnt], p.IsNand()), e, p.ebCnt, p.IsNand()); }
    ok := r >= 0;
  }

  lemma OneEraseBlock(p: Partition)
    requires p.ebSize > 0
    ensures EraseBlocks(p, p.ebSize) == 1
  {
    OneBlockSize(p.ebSize);
    DivMod(1, p.ebSize, p.ebSize - 1);
  }

  lemma SameFlags(p: Partition)
    requires p.Valid() && p.hasMap && p.startEb == 0
    ensures p.FlagsOf(p.es, false) == p.RelBad()
  {}

  /** The erase and the write of one block. */
  method EraseWrite(s: SysinfoManager, blk: nat, tmp: array<Byte>) returns (ok: bool, ghost e: nat)
    requires s.Valid() && tmp.Length == s.part.ebSize && EbOffset(blk, s.part.ebSize) == 0
    modifies s, s.part, tmp
    ensures s.Valid() && SameShape(old(s.layout), s.layout)
    ensures old(Prepared(s, EbIndex(blk, s.part.ebSize))) ==>
              && s.part.hasMap && BlockTagged(s.part, s.part.es, EbIndex(blk, s.part.ebSize))
              && blk + s.part.ebSize <= |old(s.part.cells)|
              && RewriteOutcome(s.part, old(s.part.RelBad()), old(s.layout), EbIndex(blk, s.part.ebSize),
                                old(s.part.cells), Patched(old(s.part.cells), blk, old(tmp[..])), s.part.cells, ok)
              && ErasedSpan(old(s.part.RelBad()), 1, e)
              && SavedUpTo(s.part, old(s.part.cells), old(s.layout), s.layout, e)
  {
    hide EbOffset, EbStart, CountBad, ErasedMap, Blanked, GoodBlocks, BadFlags, ReservedKnown, RegionsReady, Written,
         WriteEnds, Padded, SavedUpTo, SameShape, Run, Spared, OnDevice, RewriteOutcome, Patched;
    var p := s.part;
    ghost var b, was, image := EbIndex(blk, p.ebSize), Snapshot(s), tmp[..];
    ghost var prepared := Prepared(s, b);
    ghost var bad := if prepared then p.RelBad() else [];
    ghost var done;
    ok, e := EraseOne(s, b);
    if !ok {
      return;
    }
    ghost var now := Snapshot(s);
    if prepared { BlockAccepted(p, blk, image); }
    assert tmp[..p.ebSize] == image;
    var r;
    r, done := Write(s, blk, p.ebSize, tmp, true, true);
    ok := r >= 0;
    if prepared {
      BlockOutcome(p, bad, was, now, e, b, image, p.cells, done, r);
    }
  }

  /** An erase of one block erases exactly the first good one. */
  lemma OnlyFirstErased(bad: seq<bool>, e: nat, i: nat)
    requires ErasedSpan(bad, 1, e) && i < |bad|
    ensures i < e && !bad[i] <==> !bad[i] && FirstGood(bad, i)
  {
    if !bad[i] { OneErased(bad, e, i); }
  }

  /** The erase of one block, and then the write of an image to block b, both undisturbed. */
  ghost predicate EraseWriteRun(p: Partition, bad: seq<bool>, was: Flash, now: Flash, e: nat, b: nat, image: seq<Byte>,
                                cells: seq<Byte>, done: nat, r: int)
  {
    && p.Geometry() && ValidLayout(was.lay) && ValidLayout(now.lay) && |was.es| == p.totalEb && |was.cells| == p.Size()
    && (forall i :: 0 <= i < |was.lay| ==> InOneBlock(p, was.lay[i]))
    && (forall i :: 0 <= i < |now.lay| ==> InOneBlock(p, now.lay[i]))
    && BlockTagged(p, was.es, b) && bad == RelFlags(p, was.es)
    && ErasedSpan(bad, 1, e) && Erasing(p, bad, was, now, e) && |image| == p.ebSize
    && WriteResult(p, bad, EbStart(b, p.ebSize), now.lay, image, now.cells, cells, done, r)
  }

  lemma BlockTakes(p: Partition, bad: seq<bool>, was: Flash, now: Flash, e: nat, b: nat, image: seq<Byte>,
                   cells: seq<Byte>, done: nat, r: int)
    requires EraseWriteRun(p, bad, was, now, e, b, image, cells, done, r)
    ensures (r >= 0 <==> Takes(p, bad, was.lay, b)) && done <= p.ebSize && (r >= 0 ==> done == p.ebSize)
  {
    hide EbIndex, EbOffset, EbStart, Blanked, ErasedMap, GoodBlocks, Written, WriteEnds, SavedUpTo, SameShape,
         BlockSaved, FirstGood, InOneBlock;
    OneErased(bad, e, b);
    BlockWriteEnds(p, bad, b, now.lay, done, r);
    SavedAfterErase(p, was.cells, was.lay, now.lay, e, b);
  }

  /** A byte outside block b. */
  lemma OutsideBlock(p: Partition, bad: seq<bool>, was: Flash, now: Flash, e: nat, b: nat, image: seq<Byte>,
                     cells: seq<Byte>, done: nat, r: int, q: nat)
    requires EraseWriteRun(p, bad, was, now, e, b, image, cells, done, r) && done <= p.ebSize
    requires q < |cells| == |was.cells| && EbIndex(q, p.ebSize) != b
    ensures cells[q] == OtherByte(bad, EbIndex(q, p.ebSize), was.cells[q])
  {
    hide EbIndex, EbOffset, EbStart, Blanked, ErasedMap, GoodBlocks, WriteEnds, SavedUpTo, SameShape, InOneBlock,
         After, Skip, ErasedSpan, Overlay, InReserved;
    var x, i := EbStart(b, p.ebSize), EbIndex(q, p.ebSize);
    BlockPlaces(bad, p.ebSize, b);
    if done < p.ebSize { PlaceGrows(bad, p.ebSize, x, done, p.ebSize); }
    OtherBlock(b, p.ebSize, q);
    Inside(q, p.ebSize, p.ebCnt);
    OnlyFirstErased(bad, e, i);
    EraseThenWrite(p, bad, bad, was, now, e, x, image, cells, done, r);
  }

  lemma OtherBlock(b: nat, eb: nat, q: nat)
    requires eb > 0 && EbIndex(q, eb) != b
    ensures q < EbStart(b, eb) || q >= EbStart(b, eb) + eb
  {
    Inside(q, eb, b);
    Inside(q, eb, b + 1);
  }

  /** A byte of block b, when all of it was written. */
  lemma InsideBlock(p: Partition, bad: seq<bool>, was: Flash, now: Flash, e: nat, b: nat, image: seq<Byte>,
                    cells: seq<Byte>, done: nat, r: int, q: nat)
    requires EraseWriteRun(p, bad, was, now, e, b, image, cells, done, r) && done == p.ebSize
    requires q < |cells| == |was.cells| && EbIndex(q, p.ebSize) == b
    ensures EbStart(b, p.ebSize) <= q < EbStart(b, p.ebSize) + p.ebSize
    ensures cells[q] == BlockByte(bad, was.lay, b, q, was.cells[q], image[q - EbStart(b, p.ebSize)])
  {
    hide EbIndex, EbOffset, EbStart, Blanked, ErasedMap, GoodBlocks, WriteEnds, SavedUpTo, SameShape, InOneBlock,
         After, Skip, ErasedSpan, Overlay, InReserved, Place;
    var x := EbStart(b, p.ebSize);
    OneBlockSize(p.ebSize);
    BlockPlaces(bad, p.ebSize, b);
    Split(q, p.ebSize);
    assert Place(bad, p.ebSize, x, q - x) == x + (q - x);
    OnlyFirstErased(bad, e, b);
    OneErased(bad, e, b);
    EraseThenWrite(p, bad, bad, was, now, e, x, image, cells, done, r);
    assert Rewritten(p, bad, bad, was, e, x, image, cells, q - x);
  }

  lemma BlockOutcome(p: Partition, bad: seq<bool>, was: Flash, now: Flash, e: nat, b: nat, image: seq<Byte>,
                     cells: seq<Byte>, done: nat, r: int)
    requires EraseWriteRun(p, bad, was, now, e, b, image, cells, done, r)
    ensures EbStart(b, p.ebSize) + p.ebSize <= |was.cells| && BlockTagged(p, now.es, b)
    ensures RewriteOutcome(p, bad, was.lay, b, was.cells, Patched(was.cells, EbStart(b, p.ebSize), image), cells,
                           r >= 0)
  {
    hide EbIndex, EbOffset, EbStart, Blanked, GoodBlocks, WriteEnds, SavedUpTo, SameShape, Takes, BlockByte, OtherByte,
         InReserved, FirstGood, InOneBlock, ErasedSpan;
    var x, eb := EbStart(b, p.ebSize), p.ebSize;
    BlockPlaces(bad, eb, b);
    UnitInside(x, eb, eb, p.ebCnt);
    BlockTakes(p, bad, was, now, e, b, image, cells, done, r);
    ErasedMapAt(was.es, 0, bad, e, b);
    forall q | 0 <= q < |cells| && EbIndex(q, eb) != b
      ensures cells[q] == OtherByte(bad, EbIndex(q, eb), was.cells[q])
    {
      OutsideBlock(p, bad, was, now, e, b, image, cells, done, r, q);
    }
    if r >= 0 {
      forall q | 0 <= q < |cells| && EbIndex(q, eb) == b
        ensures cells[q] == BlockByte(bad, was.lay, b, q, was.cells[q], Patched(was.cells, x, image)[q])
      {
        InsideBlock(p, bad, was, now, e, b, image, cells, done, r, q);
      }
    }
  }

  /** A write of one whole block is not refused and needs no padding. */
  lemma BlockAccepted(p: Partition, blk: nat, image: seq<Byte>)
    requires p.Geometry() && p.startEb == 0 && EbOffset(blk, p.ebSize) == 0 && EbIndex(blk, p.ebSize) < p.ebCnt
             && p.hasMap && |image| == p.ebSize
    ensures p.Start() == 0 && blk == EbStart(EbIndex(blk, p.ebSize), p.ebSize)
    ensures !WriteRefused(p, blk, p.ebSize, true)
    ensures Padded(image, p.minIo) == image
  {
    var b := EbIndex(blk, p.ebSize);
    Split(blk, p.ebSize);
    StartOrder(b, p.ebCnt, p.ebSize);
    MultipleAligned(b, p.ebSize, p.minIo);
    WholePages(p.ebSize, p.minIo);
    QuotientAndRest(p.ebSize, p.minIo);
  }

  // ---------------------------------------------------------------- sysinfo_set_value

  /** Block b is good, nothing fails, and the reserved regions can be read. */
  ghost predicate Ripe(s: SysinfoManager, b: nat)
    reads s, s.part
    requires s.Valid()
  {
    BlockGood(s.part, b) && ReservedKnown(s.part, s.part.Map(), s.layout, b)
  }

  /** A scan of block b prepares it, and changes no flag. */
  lemma RipePrepared(p: Partition, es: seq<Status>, lay: seq<Region>, b: nat)
    requires p.Geometry() && |es| == p.totalEb && p.startEb == 0 && b < p.ebCnt && Quiet(p) && es[b] != Bad
             && ReservedKnown(p, es, lay, b)
    ensures BlockTagged(p, Visited(es, b), b) && ReservedKnown(p, Visited(es, b), lay, b)
    ensures RelFlags(p, Visited(es, b)) == RelFlags(p, es)
  {
    forall i | 0 <= i < |lay| && lay[i].reserve == Reserved && InPartitionOf(p, lay[i]) && BlockIndex(p, lay[i]) != b
      ensures ReadyIn(p, Visited(es, b), lay[i])
    {
      assert ReadyIn(p, es, lay[i]);
    }
  }

  /** A value put into a block, and the block into the partition. */
  lemma PatchedTwice(data: seq<Byte>, from: nat, n: nat, at: nat, value: seq<Byte>)
    requires from + n <= |data| && at + |value| <= n
    ensures Patched(data, from, Patched(data[from..from + n], at, value)) == Patched(data, from + at, value)
  {}

  /** Read the block, put the value in, erase, write it back. */
  method Rewrite(s: SysinfoManager, blk: nat, at: nat, value: seq<Byte>) returns (ok: bool, ghost e: nat)
    requires s.Valid() && s.part.Start() <= blk && EbOffset(blk, s.part.ebSize) == 0 && at + |value| <= s.part.ebSize
    modifies s, s.part
    ensures s.Valid() && SameShape(old(s.layout), s.layout)
    ensures old(Ripe(s, EbIndex(blk, s.part.ebSize))) ==>
              && s.part.hasMap && BlockTagged(s.part, s.part.es, EbIndex(blk, s.part.ebSize))
              && blk + at + |value| <= |old(s.part.cells)|
              && RewriteOutcome(s.part, RelFlags(s.part, old(s.part.Map())), old(s.layout), EbIndex(blk, s.part.ebSize),
                                old(s.part.cells), Patched(old(s.part.cells), blk + at, value), s.part.cells, ok)
              && ErasedSpan(RelFlags(s.part, old(s.part.Map())), 1, e)
              && SavedUpTo(s.part, old(s.part.cells), old(s.layout), s.layout, e)
  {
    hide EbOffset, EbStart, CountBad, BadFlags, ReservedKnown, RewriteOutcome, Visited, Patched, SavedUpTo, ErasedSpan;
    var p := s.part;
    e := 0;
    ghost var b, es0, cells0 := EbIndex(blk, p.ebSize), p.Map(), p.cells;
    ghost var ripe := Ripe(s, b);
    var tmp := new Byte[p.ebSize];
    if ripe { RipePrepared(p, es0, s.layout, b); }
    ok := ScanBlockAt(p, blk);
    if !ok {
      return;
    }
    ok := ReadBlockAt(p, blk, tmp);
    if !ok {
      return;
    }
    PutInto(tmp, at, value);
    if ripe { PatchedTwice(cells0, blk, p.ebSize, at, value); }
    ok, e := EraseWrite(s, blk, tmp);
  }

  method PutInto(tmp: array<Byte>, at: nat, value: seq<Byte>)
    requires at + |value| <= tmp.Length
    modifies tmp
    ensures tmp[..] == Patched(old(tmp[..]), at, value)
  {
    forall j | 0 <= j < |value| {
      tmp[at + j] := value[j];
    }
  }

  /** The regions with a new value in one buffer. */
  function Valued(lay: seq<Region>, id: nat, value: seq<Byte>): (r: seq<Region>)
    requires id < |lay|
    ensures |r| == |lay|
  {
    lay[id := lay[id].(value := Some(value))]
  }

  /** Programming the value over these bytes leaves the value. */
  ghost predicate BitsHeld(cells: seq<Byte>, at: nat, value: seq<Byte>)
    requires at + |value| <= |cells|
  {
    forall j :: 0 <= j < |value| ==> ByteAnd(cells[at + j], value[j]) == value[j]
  }

  /** What setting region id to value makes of the device: the rewrite of its block; from the first good block on, the
      value and nothing else, or nothing at all when the region is reserved; in any other block the value exactly when
      the bytes from before had its bits. */
  ghost predicate SetOutcome(p: Partition, bad: seq<bool>, lay: seq<Region>, id: nat, value: seq<Byte>,
                             cells0: seq<Byte>, cells: seq<Byte>, ok: bool)
    requires p.ebSize > 0 && id < |lay| && ValidLayout(Valued(lay, id, value)) && p.Start() <= lay[id].offset
             && BlockIndex(p, lay[id]) < |bad|
  {
    var at, b := lay[id].offset, BlockIndex(p, lay[id]);
    && at + |value| <= |cells0|
    && RewriteOutcome(p, bad, Valued(lay, id, value), b, cells0, Patched(cells0, at, value), cells, ok)
    && (FirstGood(bad, b) ==>
          ok && cells == if lay[id].reserve == Reserved then cells0 else Patched(cells0, at, value))
    && (ok && lay[id].reserve == NotReserved ==>
          (IsContents(cells, at, value) <==> FirstGood(bad, b) || BitsHeld(cells0, at, value)))
  }

  /** What the rewrite means for the region, and for everything else when its block is the first good one. */
  lemma SetConcludes(p: Partition, bad: seq<bool>, lay: seq<Region>, id: nat, value: seq<Byte>, cells0: seq<Byte>,
                     cells: seq<Byte>, ok: bool)
    requires p.Geometry() && p.startEb == 0 && |bad| == p.ebCnt && |cells0| == p.Size() && id < |lay|
    requires ValidLayout(lay) && ValidLayout(Valued(lay, id, value)) && InOneBlock(p, lay[id])
             && InPartitionOf(p, lay[id])
    requires BlockIndex(p, lay[id]) < |bad| && !bad[BlockIndex(p, lay[id])]
    requires lay[id].offset + |value| <= |cells0|
    requires RewriteOutcome(p, bad, Valued(lay, id, value), BlockIndex(p, lay[id]), cells0,
                            Patched(cells0, lay[id].offset, value), cells, ok)
    ensures SetOutcome(p, bad, lay, id, value, cells0, cells, ok)
  {
    hide EbIndex, EbOffset, EbStart, Takes, Overlay, BlockByte, OtherByte, InReserved;
    var at, b, lay' := lay[id].offset, BlockIndex(p, lay[id]), Valued(lay, id, value);
    OneBlockSize(p.ebSize);
    if FirstGood(bad, b) {
      assert ok by { TakesFront(p, bad, lay', b); }
      var want := if lay[id].reserve == Reserved then cells0 else Patched(cells0, at, value);
      forall q | 0 <= q < |cells|
        ensures cells[q] == want[q]
      {
        FrontByte(p, bad, lay', id, value, cells0, cells, q);
      }
    }
    if ok && lay[id].reserve == NotReserved {
      forall j | 0 <= j < |value|
        ensures cells[at + j] == if FirstGood(bad, b) then value[j] else ByteAnd(cells0[at + j], value[j])
      {
        RegionByte(p, bad, lay', id, value, cells0, cells, j);
      }
      Contents(cells, at, value);
    }
  }

  lemma TakesFront(p: Partition, bad: seq<bool>, lay: seq<Region>, b: nat)
    requires p.ebSize > 0 && b <= |bad| && FirstGood(bad, b)
    ensures Takes(p, bad, lay, b)
  {}

  lemma Contents(cells: seq<Byte>, at: nat, value: seq<Byte>)
    requires at + |value| <= |cells|
    ensures IsContents(cells, at, value) <==> forall j :: 0 <= j < |value| ==> cells[at + j] == value[j]
  {
    if forall j :: 0 <= j < |value| ==> cells[at + j] == value[j] {
      assert cells[at..at + |value|] == value;
    } else {
      var j :| 0 <= j < |value| && cells[at + j] != value[j];
      assert cells[at..at + |value|][j] == cells[at + j];
    }
  }

  /** The bytes of a region lie in its block. */
  lemma RegionInBlock(p: Partition, l: Region, q: nat)
    requires p.Geometry() && p.startEb == 0 && l.Valid() && InOneBlock(p, l) && InPartitionOf(p, l) && l.Holds(q)
    ensures EbIndex(q, p.ebSize) == BlockIndex(p, l)
  {
    SameBlock(l.offset, q - l.offset, p.ebSize);
  }

  /** Regions do not share bytes. */
  lemma OnlyRegion(lay: seq<Region>, id: nat, q: nat)
    requires ValidLayout(lay) && id < |lay| && lay[id].Holds(q)
    ensures InReserved(lay, q) <==> lay[id].reserve == Reserved
    ensures forall i :: 0 <= i < |lay| && lay[i].Holds(q) ==> i == id
  {
    forall i | 0 <= i < |lay| && i != id
      ensures !lay[i].Holds(q)
    {
      assert i < id ==> lay[i].End() <= lay[id].offset;
      assert id < i ==> lay[id].End() <= lay[i].offset;
    }
  }

  lemma FrontByte(p: Partition, bad: seq<bool>, lay: seq<Region>, id: nat, value: seq<Byte>, cells0: seq<Byte>,
                  cells: seq<Byte>, q: nat)
    requires p.Geometry() && p.startEb == 0 && ValidLayout(lay) && id < |lay| && |value| == lay[id].length
    requires InOneBlock(p, lay[id]) && InPartitionOf(p, lay[id]) && lay[id].offset + |value| <= |cells0|
    requires BlockIndex(p, lay[id]) < |bad| && !bad[BlockIndex(p, lay[id])] && FirstGood(bad, BlockIndex(p, lay[id]))
    requires RewriteOutcome(p, bad, lay, BlockIndex(p, lay[id]), cells0, Patched(cells0, lay[id].offset, value), cells,
                            true) && q < |cells|
    ensures cells[q] == if lay[id].reserve == Reserved then cells0[q] else Patched(cells0, lay[id].offset, value)[q]
  {
    hide EbIndex, EbOffset, EbStart, Takes, Overlay, InReserved;
    if lay[id].Holds(q) {
      RegionInBlock(p, lay[id], q);
      OnlyRegion(lay, id, q);
    }
  }

  lemma RegionByte(p: Partition, bad: seq<bool>, lay: seq<Region>, id: nat, value: seq<Byte>, cells0: seq<Byte>,
                   cells: seq<Byte>, j: nat)
    requires p.Geometry() && p.startEb == 0 && ValidLayout(lay) && id < |lay| && |value| == lay[id].length
             && j < |value|
    requires InOneBlock(p, lay[id]) && InPartitionOf(p, lay[id]) && lay[id].offset + |value| <= |cells0|
    requires lay[id].reserve == NotReserved && BlockIndex(p, lay[id]) < |bad|
    requires RewriteOutcome(p, bad, lay, BlockIndex(p, lay[id]), cells0, Patched(cells0, lay[id].offset, value), cells,
                            true)
    ensures var q := lay[id].offset + j;
            cells[q] == if FirstGood(bad, BlockIndex(p, lay[id])) then value[j] else ByteAnd(cells0[q], value[j])
  {
    hide EbIndex, EbOffset, EbStart, Takes, Overlay, InReserved;
    var q := lay[id].offset + j;
    RegionInBlock(p, lay[id], q);
    OnlyRegion(lay, id, q);
    NotCovered(lay, q, value[j]);
    assert Patched(cells0, lay[id].offset, value)[q] == value[j];
  }

  /** sysinfo_set_value in device mode, with or without a new value for the buffer; a failure frees the buffer. */
  method SetValueDev(s: SysinfoManager, id: int, buf: Option<seq<Byte>>) returns (ok: bool)
    requires s.Valid() && (s.IsId(id) && buf.Some? ==> |buf.value| == s.layout[id].length)
    modifies s, s.part
    ensures s.Valid() && SameShape(old(s.layout), s.layout)
    ensures !old(s.IsId(id)) ==> !ok && s.layout == old(s.layout) && s.part.cells == old(s.part.cells)
    ensures old(s.IsId(id) && !Holdable(s.part, s.layout[id])) ==> !ok && s.part.cells == old(s.part.cells)
    ensures old(s.IsId(id) && SetsBlock(s, id)) ==>
              var value := if buf.Some? then buf.value else old(s.layout[id].Buffer());
              && SetOutcome(s.part, RelFlags(s.part, old(s.part.Map())), old(s.layout), id, value, old(s.part.cells),
                            s.part.cells, ok)
              && s.part.hasMap && BlockTagged(s.part, s.part.es, BlockIndex(s.part, old(s.layout[id])))
              && (ok && old(s.layout[id]).reserve == NotReserved ==>
                    s.layout[id] == old(s.layout[id]).(value := Some(value)))
  {
    if !s.IsId(id) {
      return false;
    }
    var l := s.layout[id];
    ok := SetRegion(s, id, if buf.Some? then buf.value else l.Buffer());
  }

  /** The partition and one of its blocks can hold the region. */
  predicate Holdable(p: Partition, l: Region)
  {
    InPartitionOf(p, l) && l.length <= p.ebSize
  }

  /** The region's block is ripe. */
  ghost predicate SetsBlock(s: SysinfoManager, id: nat)
    reads s, s.part
    requires s.Valid() && id < |s.layout|
  {
    InPartitionOf(s.part, s.layout[id]) && Ripe(s, BlockIndex(s.part, s.layout[id]))
  }

  lemma NotBad(p: Partition, es: seq<Status>, b: nat)
    requires p.Geometry() && |es| == p.totalEb && b < p.ebCnt && es[b] != Bad
    ensures !RelFlags(p, es)[b]
  {}

  /** The new value goes to the buffer, then to the device. */
  method SetRegion(s: SysinfoManager, id: nat, value: seq<Byte>) returns (ok: bool)
    requires s.Valid() && id < |s.layout| && |value| == s.layout[id].length
    modifies s, s.part
    ensures s.Valid() && SameShape(old(s.layout), s.layout)
    ensures old(!Holdable(s.part, s.layout[id])) ==> !ok && s.part.cells == old(s.part.cells)
    ensures old(SetsBlock(s, id)) ==>
              && SetOutcome(s.part, RelFlags(s.part, old(s.part.Map())), old(s.layout), id, value, old(s.part.cells),
                            s.part.cells, ok)
              && s.part.hasMap && BlockTagged(s.part, s.part.es, BlockIndex(s.part, old(s.layout[id])))
              && (ok && old(s.layout[id]).reserve == NotReserved ==>
                    s.layout[id] == old(s.layout[id]).(value := Some(value)))
  {
    hide EbIndex, EbOffset, EbStart, CountBad, BadFlags, ReservedKnown, BlockTagged, Patched, InReserved,
         RewriteOutcome, SetOutcome;
    ghost var lay0, cells0, es0, sets := s.layout, s.part.cells, s.part.Map(), SetsBlock(s, id);
    Revalued(s.part, es0, lay0, id, lay0[id].(value := Some(value)));
    s.layout := Valued(s.layout, id, value);
    ghost var lay1 := s.layout;
    ok := StoreBlock(s, id, value);
    if sets {
      NotBad(s.part, es0, BlockIndex(s.part, lay0[id]));
      SetConcludes(s.part, RelFlags(s.part, es0), lay0, id, value, cells0, s.part.cells, ok);
    }
    ShapeTrans(lay0, lay1, s.layout);
    if !ok {
      Revalued(s.part, es0, s.layout, id, s.layout[id].(value := None));
      ShapeTrans(lay0, s.layout, s.layout[id := s.layout[id].(value := None)]);
      s.layout := s.layout[id := s.layout[id].(value := None)];
    }
  }

  /** A new value in a buffer does not matter for the places of the regions. */
  lemma Revalued(p: Partition, es: seq<Status>, lay: seq<Region>, id: nat, l: Region)
    requires p.Geometry() && |es| == p.totalEb && id < |lay| && l == lay[id].(value := l.value)
    ensures SameShape(lay, lay[id := l])
    ensures ValidLayout(lay) && l.Valid() ==> ValidLayout(lay[id := l])
    ensures forall b: nat :: ReservedKnown(p, es, lay[id := l], b) <==> ReservedKnown(p, es, lay, b)
  {
    var lay' := lay[id := l];
    assert forall i :: 0 <= i < |lay| ==> lay[i] == lay'[i].(value := lay[i].value);
    forall b: nat
      ensures ReservedKnown(p, es, lay', b) <==> ReservedKnown(p, es, lay, b)
    {
      if ReservedKnown(p, es, lay, b) { SamePlacesKnown(p, es, lay, lay', b); }
      if ReservedKnown(p, es, lay', b) { SamePlacesKnown(p, es, lay', lay, b); }
    }
  }

  lemma SamePlacesKnown(p: Partition, es: seq<Status>, lay: seq<Region>, lay': seq<Region>, b: nat)
    requires p.Geometry() && |es| == p.totalEb && SameShape(lay, lay') && ReservedKnown(p, es, lay, b)
    ensures ReservedKnown(p, es, lay', b)
  {
    forall i | 0 <= i < |lay| && lay'[i].reserve == Reserved && InPartitionOf(p, lay'[i])
      ensures BlockIndex(p, lay'[i]) == b || ReadyIn(p, es, lay'[i])
    {
      assert lay'[i] == lay[i].(value := lay'[i].value);
      assert BlockIndex(p, lay[i]) == b || ReadyIn(p, es, lay[i]);
    }
  }

  /** The rewrite of the region's block, unless no partition or block can hold it. */
  method StoreBlock(s: SysinfoManager, id: nat, value: seq<Byte>) returns (ok: bool)
    requires s.Valid() && id < |s.layout| && |value| == s.layout[id].length
    modifies s, s.part
    ensures s.Valid() && SameShape(old(s.layout), s.layout)
    ensures old(!Holdable(s.part, s.layout[id])) ==> !ok && s.part.cells == old(s.part.cells)
    ensures old(SetsBlock(s, id)) ==>
              var l := old(s.layout[id]);
              && s.part.hasMap && BlockTagged(s.part, s.part.es, BlockIndex(s.part, l))
              && l.offset + |value| <= |old(s.part.cells)|
              && RewriteOutcome(s.part, RelFlags(s.part, old(s.part.Map())), old(s.layout), BlockIndex(s.part, l),
                                old(s.part.cells), Patched(old(s.part.cells), l.offset, value), s.part.cells, ok)
              && (l.reserve == NotReserved ==> s.layout[id] == l)
  {
    hide EbIndex, EbOffset, EbStart, CountBad, BadFlags, ReservedKnown, BlockTagged, Patched, RewriteOutcome,
         ErasedSpan;
    var p, l := s.part, s.layout[id];
    if !InPartitionOf(p, l) || l.length > p.ebSize {
      assert !SetsBlock(s, id) by {
        if InPartitionOf(p, l) { BlockStart(p, l); }
      }
      return false;
    }
    BlockStart(p, l);
    var blk := Align(l.offset, p.ebSize);
    ghost var e;
    ok, e := Rewrite(s, blk, l.offset - blk, value);
  }

  /** Where the region's block starts. */
  lemma BlockStart(p: Partition, l: Region)
    requires p.Geometry() && l.Valid() && InOneBlock(p, l) && InPartitionOf(p, l)
    ensures var blk := Align(l.offset, p.ebSize);
            && p.Start() <= blk && EbOffset(blk, p.ebSize) == 0 && l.offset - blk + l.length <= p.ebSize
            && BlockIndex(p, l) < p.ebCnt
            && (p.startEb == 0 ==> EbIndex(blk, p.ebSize) == BlockIndex(p, l))
  {
    var eb, x := p.ebSize, l.offset - p.Start();
    AlignRelative(p.startEb, eb, x);
    Inside(x, eb, p.ebCnt);
  }

  lemma AlignRelative(b: nat, eb: nat, x: nat)
    requires eb > 0
    ensures var blk := Align(EbStart(b, eb) + x, eb);
            && EbStart(b, eb) <= blk && EbOffset(blk, eb) == 0
            && EbIndex(blk, eb) == b + EbIndex(x, eb) && EbStart(b, eb) + x - blk == EbOffset(x, eb)
  {
    Split(x, eb);
    StartAdds(b, EbIndex(x, eb), eb);
    DivMod(b + EbIndex(x, eb), eb, EbOffset(x, eb));
    DivMod(b + EbIndex(x, eb), eb, 0);
  }

  // ---------------------------------------------------------------- flag.c

  /** struct sysinfo_flag_layout: offsets are relative to the flag region. */
  datatype FlagEntry = FlagEntry(offset: nat, length: nat)

  const FLAG_LAYOUT: seq<FlagEntry> := [FlagEntry(0, 4)]

  predicate IsFlagId(id: int) { 0 <= id < |FLAG_LAYOUT| }

  /** The layout with the flag region not reserved. */
  function Released(lay: seq<Region>): (r: seq<Region>)
    requires FLAG < |lay|
    ensures |r| == |lay|
  {
    lay[FLAG := lay[FLAG].(reserve := NotReserved)]
  }

  /** Block b is good, nothing fails, and the other reserved regions can be read. */
  ghost predicate FlagRipe(s: SysinfoManager, b: nat)
    reads s, s.part
    requires s.Valid() && FLAG < |s.layout|
  {
    BlockGood(s.part, b) && ReservedKnown(s.part, s.part.Map(), Released(s.layout), b)
  }

  /** The block of the flag region is ripe. */
  ghost predicate FlagSets(s: SysinfoManager)
    reads s, s.part
    requires s.Valid() && FLAG < |s.layout|
  {
    InPartitionOf(s.part, s.layout[FLAG]) && FlagRipe(s, BlockIndex(s.part, s.layout[FLAG]))
  }

  ghost predicate SamePlaces(lay: seq<Region>, lay': seq<Region>)
  {
    |lay| == |lay'| && forall i :: 0 <= i < |lay| ==> lay'[i].offset == lay[i].offset && lay'[i].length == lay[i].length
  }

  /** In a block that is tagged a region can be read as it is. */
  lemma TaggedReady(p: Partition, l: Region)
    requires p.Valid() && p.hasMap && InPartitionOf(p, l) && BlockTagged(p, p.es, BlockIndex(p, l))
    ensures Ready(p, l)
  {}

  /** What the buffer of the flag region holds once the flag was put into it. */
  function FlagBuffer(lay: seq<Region>, flag: seq<Byte>): (b: seq<Byte>)
    requires FLAG < |lay| && lay[FLAG].Valid() && |flag| <= lay[FLAG].length
    ensures |b| == lay[FLAG].length
  {
    Patched(lay[FLAG].Buffer(), 0, flag)
  }

  /** The flag put into the region's buffer, and the region released. */
  method PutFlag(s: SysinfoManager, entry: FlagEntry, flag: seq<Byte>)
    requires s.Valid() && FLAG < |s.layout| && entry.offset + |flag| <= s.layout[FLAG].length
    modifies s
    ensures s.Valid() && |s.layout| == |old(s.layout)|
    ensures var lay := Released(old(s.layout));
            s.layout == lay[FLAG := lay[FLAG].(value := Some(Patched(old(s.layout[FLAG].Buffer()), entry.offset,
                                                                     flag)))]
  {
    var ok, value := s.GetValueRam(FLAG);
    value := Patched(value, entry.offset, flag);
    s.layout := s.layout[FLAG := s.layout[FLAG].(value := Some(value), reserve := NotReserved)];
  }

  /** sysinfo_write_flag: the region is not reserved while it is being rewritten, and stays so when the rewrite
      fails. */
  method WriteFlag(s: SysinfoManager, id: int, flag: Option<seq<Byte>>) returns (ok: bool)
    requires s.Valid() && FLAG < |s.layout| && s.layout[FLAG].length >= 4
    requires IsFlagId(id) && flag.Some? ==> |flag.value| == FLAG_LAYOUT[id].length
    modifies s, s.part
    ensures s.Valid() && SamePlaces(old(s.layout), s.layout)
    ensures !(IsFlagId(id) && flag.Some?) ==> !ok && s.layout == old(s.layout) && s.part.cells == old(s.part.cells)
    ensures IsFlagId(id) && flag.Some? ==>
              s.layout[FLAG].reserve == if ok then old(s.layout[FLAG].reserve) else NotReserved
    ensures IsFlagId(id) && flag.Some? && old(!Holdable(s.part, s.layout[FLAG])) ==>
              !ok && s.part.cells == old(s.part.cells)
    ensures IsFlagId(id) && flag.Some? && old(FlagSets(s)) ==>
              var value := FlagBuffer(old(s.layout), flag.value);
              && SetOutcome(s.part, RelFlags(s.part, old(s.part.Map())), Released(old(s.layout)), FLAG, value,
                            old(s.part.cells), s.part.cells, ok)
              && s.part.hasMap && BlockTagged(s.part, s.part.es, BlockIndex(s.part, old(s.layout[FLAG])))
              && (ok ==> s.layout[FLAG].value == Some(value))
  {
    hide EbIndex, EbOffset, EbStart, CountBad, BadFlags, ReservedKnown, BlockTagged, Patched, SameShape, SetOutcome,
         SamePlaces, ValidLayout;
    SamePlacesSelf(s.layout);
    if !IsFlagId(id) || flag == None {
      return false;
    }
    var reserve := s.layout[FLAG].reserve;
    ghost var lay0, es0 := s.layout, s.part.Map();
    PutFlag(s, FLAG_LAYOUT[id], flag.value);
    ghost var lay1 := s.layout;
    Revalued(s.part, es0, Released(lay0), FLAG, lay1[FLAG]);
    SameSetting(s.part, lay0, lay1, flag.value);
    ok := SetValueDev(s, FLAG, None);
    FlagPlaces(lay0, lay1, s.layout);
    if !ok {
      return false;
    }
    ghost var lay2 := s.layout;
    SetReserve(s, FLAG, reserve);
    PlacesTrans(lay0, lay2, s.layout);
  }

  /** sysinfo_set_reserve. */
  method SetReserve(s: SysinfoManager, id: nat, reserve: Reserve)
    requires s.Valid() && id < |s.layout|
    modifies s
    ensures s.Valid() && s.layout == old(s.layout)[id := old(s.layout)[id].(reserve := reserve)]
    ensures SamePlaces(old(s.layout), s.layout)
  {
    s.layout := s.layout[id := s.layout[id].(reserve := reserve)];
  }

  lemma FlagPlaces(lay0: seq<Region>, lay1: seq<Region>, lay2: seq<Region>)
    requires FLAG < |lay0| == |lay1| && lay1 == Released(lay0)[FLAG := Released(lay0)[FLAG].(value := lay1[FLAG].value)]
        && SameShape(lay1, lay2)
    ensures SamePlaces(lay0, lay2) && lay2[FLAG].reserve == NotReserved
  {
    forall i | 0 <= i < |lay0|
      ensures lay2[i].offset == lay0[i].offset && lay2[i].length == lay0[i].length
    {
      assert lay2[i] == lay1[i].(value := lay2[i].value);
    }
  }

  /** Putting the flag into the buffer first changes nothing for the rewrite of the region with that buffer. */
  lemma SameSetting(p: Partition, lay0: seq<Region>, lay1: seq<Region>, flag: seq<Byte>)
    requires p.Geometry() && FLAG < |lay0| && ValidLayout(lay0) && |flag| <= lay0[FLAG].length
    requires lay1 == Valued(Released(lay0), FLAG, FlagBuffer(lay0, flag))
    ensures ValidLayout(lay1)
            && Valued(Released(lay0), FLAG, FlagBuffer(lay0, flag)) == Valued(lay1, FLAG, FlagBuffer(lay0, flag))
    ensures InPartitionOf(p, lay1[FLAG]) ==> forall bad, cells0, cells, ok :: BlockIndex(p, lay1[FLAG]) < |bad| ==>
              SetOutcome(p, bad, lay1, FLAG, FlagBuffer(lay0, flag), cells0, cells, ok) ==
              SetOutcome(p, bad, Released(lay0), FLAG, FlagBuffer(lay0, flag), cells0, cells, ok)
  {
    hide RewriteOutcome, EbIndex;
  }

  lemma SamePlacesSelf(lay: seq<Region>)
    ensures SamePlaces(lay, lay)
  {}

  lemma PlacesTrans(lay0: seq<Region>, lay1: seq<Region>, lay2: seq<Region>)
    requires SamePlaces(lay0, lay1) && SamePlaces(lay1, lay2)
    ensures SamePlaces(lay0, lay2)
  {}

  /** The initial layout, whose flag region ends at 0x6400, and a partition that starts behind it: no flag is written,
      and the region that was reserved no longer is. */
  method FlagOutside(p: Partition, flag: seq<Byte>) returns (s: SysinfoManager, ok: bool)
    requires p.Valid() && p.Start() >= 0x6400 && |flag| == FLAG_LAYOUT[0].length
    modifies p
    ensures !ok && |s.layout| == |InitialLayout()| && InitialLayout()[FLAG].reserve == Reserved
            && s.layout[FLAG].reserve == NotReserved
    ensures p.cells == old(p.cells)
  {
    hide EbIndex, EbOffset, EbStart;
    s := new SysinfoManager(p);
    ok := WriteFlag(s, 0, Some(flag));
  }

  /** The region of a flag that is written before the region was ever read: the rest of it becomes zero, whatever the
      device held there. */
  method FirstFlag(p: Partition, flag: seq<Byte>) returns (s: SysinfoManager, ok: bool)
    requires p.Valid() && |flag| == FLAG_LAYOUT[0].length
    requires forall i :: 0 <= i < |InitialLayout()| ==> InOneBlock(p, InitialLayout()[i])
    requires InPartitionOf(p, InitialLayout()[FLAG])
    requires var b := BlockIndex(p, InitialLayout()[FLAG]);
             && BlockGood(p, b) && ReservedKnown(p, p.Map(), Released(InitialLayout()), b)
             && FirstGood(RelFlags(p, p.Map()), b)
    modifies p
    ensures ok && 0x6400 <= |old(p.cells)|
    ensures p.cells == Patched(old(p.cells), 0x6000, flag + seq(0x3fc, i => 0))
  {
    hide EbIndex, EbOffset, EbStart, RewriteOutcome, CountBad, ReservedKnown, BadFlags;
    s := new SysinfoManager(p);
    ZeroFilled(flag);
    ok := WriteFlag(s, 0, Some(flag));
  }

  lemma ZeroFilled(flag: seq<Byte>)
    requires |flag| == 4
    ensures FlagBuffer(InitialLayout(), flag) == flag + seq(0x3fc, i => 0)
  {}

  /** sysinfo_read_flag. */
  method ReadFlag(s: SysinfoManager, id: int) returns (ok: bool, flag: seq<Byte>)
    requires s.Valid() && FLAG < |s.layout| && s.layout[FLAG].length >= 4
    modifies s, s.part`hasMap, s.part`es, s.part`badCnt
    ensures s.Valid() && SameShape(old(s.layout), s.layout)
    ensures IsFlagId(id) && Quiet(s.part)
            && old(InPartitionOf(s.part, s.layout[FLAG]) && Ready(s.part, s.layout[FLAG])) ==>
              && ok && |flag| == 4
              && IsContents(s.part.cells, old(s.layout[FLAG].offset) + FLAG_LAYOUT[id].offset - s.part.Start(), flag)
  {
    if !IsFlagId(id) {
      return false, [];
    }
    if !InPartitionOf(s.part, s.layout[FLAG]) {
      return false, [];
    }
    var entry := FLAG_LAYOUT[id];
    var failed, value;
    ok, failed, value := s.GetValueDev(FLAG);
    if !ok {
      return false, [];
    }
    flag := value[entry.offset..entry.offset + entry.length];
  }

  lemma ReleasedValid(lay: seq<Region>, value: seq<Byte>)
    requires FLAG < |lay| && ValidLayout(lay) && |value| == lay[FLAG].length
    ensures ValidLayout(Valued(Released(lay), FLAG, value))
  {}

  lemma TakesReleased(p: Partition, bad: seq<bool>, lay: seq<Region>, id: nat, value: seq<Byte>, b: nat)
    requires p.ebSize > 0 && id < |lay| && lay[id].reserve == NotReserved && b <= |bad|
    ensures Takes(p, bad, Valued(lay, id, value), b) <==> Takes(p, bad, lay, b)
  {
    var lay' := Valued(lay, id, value);
    forall i | 0 <= i < |lay|
      ensures lay'[i].reserve == lay[i].reserve && (lay[i].reserve == Reserved ==> lay'[i] == lay[i])
    {}
  }

  /** What setting the flag region means for the flag at its start. */
  lemma FlagStored(p: Partition, bad: seq<bool>, lay: seq<Region>, flag: seq<Byte>, cells0: seq<Byte>, cells: seq<Byte>,
                   ok: bool)
    requires p.Geometry() && p.startEb == 0 && FLAG < |lay| && ValidLayout(lay) && |flag| <= lay[FLAG].length
    requires InOneBlock(p, lay[FLAG]) && InPartitionOf(p, lay[FLAG]) && BlockIndex(p, lay[FLAG]) < |bad|
    requires ValidLayout(Valued(Released(lay), FLAG, FlagBuffer(lay, flag)))
    requires SetOutcome(p, bad, Released(lay), FLAG, FlagBuffer(lay, flag), cells0, cells, ok)
    ensures var l, b := lay[FLAG], BlockIndex(p, lay[FLAG]);
            && |cells| == |cells0| && l.End() <= |cells0| && (ok <==> Takes(p, bad, Released(lay), b))
            && (ok ==> (IsContents(cells, l.offset, flag) <==> FirstGood(bad, b) || BitsHeld(cells0, l.offset, flag)))
            && (FirstGood(bad, b) ==> ok && forall q :: 0 <= q < |cells0| && !l.Holds(q) ==> cells[q] == cells0[q])
  {
    hide EbIndex, EbOffset, EbStart, Takes, RewriteOutcome, InReserved;
    var at, b, value := lay[FLAG].offset, BlockIndex(p, lay[FLAG]), FlagBuffer(lay, flag);
    var lay' := Valued(Released(lay), FLAG, value);
    TakesReleased(p, bad, Released(lay), FLAG, value, b);
    Extent(p, bad, lay', b, cells0, Patched(cells0, at, value), cells, ok);
    if ok {
      forall j | 0 <= j < |flag|
        ensures cells[at + j] == if FirstGood(bad, b) then flag[j] else ByteAnd(cells0[at + j], flag[j])
      {
        RegionByte(p, bad, lay', FLAG, value, cells0, cells, j);
      }
      Contents(cells, at, flag);
    }
  }

  lemma Extent(p: Partition, bad: seq<bool>, lay: seq<Region>, b: nat, cells0: seq<Byte>, want: seq<Byte>,
               cells: seq<Byte>, ok: bool)
    requires p.ebSize > 0 && b < |bad| && ValidLayout(lay) && RewriteOutcome(p, bad, lay, b, cells0, want, cells, ok)
    ensures |cells| == |cells0| && (ok <==> Takes(p, bad, lay, b))
  {}

  /** A flag that was written successfully is the flag that is read exactly when its block is the first good one, or the
      bytes from before had all its bits. In the first case the write succeeds, every byte outside the region is kept,
      and the region is reserved again if it was. */
  method FlagRoundTrip(s: SysinfoManager, id: int, flag: seq<Byte>) returns (ok: bool, read: seq<Byte>)
    requires s.Valid() && FLAG < |s.layout| && s.layout[FLAG].length >= 4 && FlagSets(s)
    requires IsFlagId(id) && |flag| == FLAG_LAYOUT[id].length
    modifies s, s.part
    ensures var p, l, cells0 := s.part, old(s.layout[FLAG]), old(s.part.cells);
            var bad, b := RelFlags(p, old(p.Map())), BlockIndex(p, old(s.layout[FLAG]));
            && |p.cells| == |cells0| && l.End() <= |cells0| && |s.layout| == |old(s.layout)|
            && (ok <==> Takes(p, bad, Released(old(s.layout)), b))
            && (ok ==> (read == flag <==> FirstGood(bad, b) || BitsHeld(cells0, l.offset, flag)))
            && (ok ==> s.layout[FLAG].reserve == l.reserve)
            && (FirstGood(bad, b) ==> ok && forall q :: 0 <= q < |cells0| && !l.Holds(q) ==> p.cells[q] == cells0[q])
  {
    hide EbIndex, EbOffset, CountBad, BadFlags, ReservedKnown, ValidLayout, SameShape, ReadyIn, SetOutcome;
    ghost var lay0, cells0, es0 := s.layout, s.part.cells, s.part.Map();
    ok := WriteFlag(s, id, Some(flag));
    ReleasedValid(lay0, FlagBuffer(lay0, flag));
    FlagStored(s.part, RelFlags(s.part, es0), lay0, flag, cells0, s.part.cells, ok);
    if !ok {
      return false, [];
    }
    TaggedReady(s.part, s.layout[FLAG]);
    ok, read := ReadFlag(s, id);
  }
}
