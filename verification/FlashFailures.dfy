/** Inputs on which base.c, sysinfo_manager.c and flag.c report success and lose data. */
module FlashFailures {
  import opened Wrappers
  import opened WordArith
  import opened Bits
  import opened Division
  import opened Placement
  import opened Mtd
  import opened Sysinfo
  import opened FlashErase
  import opened FlashWrite
  import opened FlashLaws
  import opened FlashErrors
  import opened SysinfoFlag

  // ---------------------------------------------------------------- a page that fails once

  /** Two blocks of one page of n bytes each; the first one reports EIO when it is programmed. */
  ghost predicate FailsInFront(p: Partition, n: nat)
  {
    && p.kind == Nand && p.ebSize == p.minIo == n > 0 && p.ebCnt == 2 && p.startEb == 0 && p.totalEb == 2
    && p.writeFault(0) == Eio && p.writeFault(n) == Fine && p.eraseFault(0) == Fine && !p.markFails(0)
  }

  lemma TwoBlocks(n: nat)
    requires n > 0
    ensures EbStart(0, n) == 0 && EbStart(2, n) == n + n && 0 % n == 0 && n % n == 0
    ensures EbIndex(0, n) == 0 && EbIndex(n, n) == 1 && EbIndex(n + n, n) == 2 && Align(n, n) == n
  {
    OneBlockSize(n);
    DivMod(0, n, 0);
    DivMod(1, n, 0);
    DivMod(2, n, 0);
    Remainder(0, n, 0, 0);
    Remainder(n, n, 1, 0);
  }

  /** A write that stands on a good block stays there. */
  lemma StandsOnGood(p: Partition, s: WriteState, b: nat)
    requires StateOk(p, s) && b < p.ebCnt && EbIndex(s.off, p.ebSize) == b && s.es[b] != Bad
    ensures Target(p, s) == s.off
  {
    assert !OnBad(Flags(p, s), p.ebSize, s.off);
  }

  /** A fresh device and a fresh map. */
  function FirstState(n: nat, data: seq<Byte>): WriteState
  {
    WriteState([Untagged, Untagged], [false, false], Blank(n + n), 0, data, false)
  }

  /** Behind the failure. */
  function SecondState(lay: seq<Region>, n: nat, data: seq<Byte>): WriteState
    requires ValidLayout(lay)
  {
    WriteState([Bad, Untagged], [true, false], Blank(n + n), n, if |data| == n then Merged(lay, 0, data) else data,
               |data| < n)
  }

  /** The page that the second block takes. */
  function SecondPage(lay: seq<Region>, n: nat, data: seq<Byte>): (page: seq<Byte>)
    requires ValidLayout(lay)
    ensures |data| <= n ==> |page| == n
  {
    Merged(lay, n, if |data| == n then Merged(lay, 0, data) else Blank(n))
  }

  lemma StillBlank(n: nat, eb: nat, b: nat)
    requires eb > 0
    ensures BlankBlock(Blank(n), eb, b) == Blank(n)
  {}

  /** The first turn fails. */
  lemma FirstTurn(p: Partition, lay: seq<Region>, n: nat, data: seq<Byte>)
    requires FailsInFront(p, n) && ValidLayout(lay) && !Unsaved(lay, 0, n) && 0 < |data| <= n
    ensures StateOk(p, FirstState(n, data))
    ensures Turn(p, lay, true, FirstState(n, data)) == (Skipped, SecondState(lay, n, data))
  {
    hide EbIndex, EbOffset, EbStart, Merged, Overlay, Unsaved, BlankBlock, Blank;
    var s := FirstState(n, data);
    TwoBlocks(n);
    StillBlank(n + n, n, 0);
    StandsOnGood(p, s, 0);
    assert s.es[0 := Bad] == [Bad, Untagged] && s.devBad[0 := true] == [true, false];
    if |data| == n {
      assert data[..n] == data && Merged(lay, 0, data) + data[n..] == Merged(lay, 0, data);
    }
  }

  /** The second one takes what the buffers hold now. */
  lemma SecondTurn(p: Partition, lay: seq<Region>, n: nat, data: seq<Byte>)
    requires FailsInFront(p, n) && ValidLayout(lay) && !Unsaved(lay, n, n + n) && 0 < |data| <= n
    ensures StateOk(p, SecondState(lay, n, data))
    ensures var t := Turn(p, lay, true, SecondState(lay, n, data));
            t.0 == Done && t.1.cells == Blank(n) + SecondPage(lay, n, data) && t.1.off == n + n && t.1.rest == []
  {
    hide EbIndex, EbOffset, EbStart, Merged, Overlay, Unsaved;
    TwoBlocks(n);
    var s := SecondState(lay, n, data);
    StandsOnGood(p, s, 1);
    assert NextPage(s, n) == if |data| == n then Merged(lay, 0, data) else Blank(n);
    ProgrammedBlank(n, SecondPage(lay, n, data));
  }

  lemma ProgrammedBlank(n: nat, page: seq<Byte>)
    requires |page| == n
    ensures Programmed(Blank(n + n), n, page) == Blank(n) + page
  {
    hide ByteAnd;
    forall j | 0 <= j < n + n
      ensures Programmed(Blank(n + n), n, page)[j] == (Blank(n) + page)[j]
    {
      if j >= n { ByteAndOnes(page[j - n]); }
    }
  }

  lemma BothTurns(p: Partition, lay: seq<Region>, n: nat, data: seq<Byte>)
    requires FailsInFront(p, n) && ValidLayout(lay) && !Unsaved(lay, 0, n) && !Unsaved(lay, n, n + n) && 0 < |data| <= n
    ensures StateOk(p, FirstState(n, data))
    ensures var t := Run(p, lay, true, FirstState(n, data));
            t.0 == n + n && t.1.cells == Blank(n) + SecondPage(lay, n, data)
  {
    hide EbIndex, EbOffset, EbStart, Turn, Merged, SecondPage, Blank, Unsaved;
    TwoBlocks(n);
    FirstTurn(p, lay, n, data);
    SecondTurn(p, lay, n, data);
    OneMoreTurn(p, lay, FirstState(n, data));
    OneMoreTurn(p, lay, SecondState(lay, n, data));
  }

  /** A run goes on behind a turn that did not give up. */
  lemma OneMoreTurn(p: Partition, lay: seq<Region>, s: WriteState)
    requires StateOk(p, s) && ValidLayout(lay) && s.rest != [] && InPartition(p.ebCnt, p.ebSize, s.off)
             && Turn(p, lay, true, s).0 != Crashed
    ensures Run(p, lay, true, s) == Run(p, lay, true, Turn(p, lay, true, s).1)
  {
    hide EbIndex, Turn;
  }

  /** Such a device, and one write from its start. */
  method WriteOverFailure(n: nat, lay: seq<Region>, data: seq<Byte>) returns (p: Partition, r: int)
    requires 0 < |data| <= n <= 0x1e00 && ValidLayout(lay) && !Unsaved(lay, 0, n) && !Unsaved(lay, n, n + n)
    requires forall i :: 0 <= i < |lay| ==> lay[i].offset >= n + n || (lay[i].offset == 0 && lay[i].length <= n)
    ensures fresh(p) && r == n + n && p.cells == Blank(n) + SecondPage(lay, n, data)
  {
    hide EbIndex, EbOffset, EbStart, SecondPage, Run, Unsaved, Padded, WriteResult, Spared, ValidLayout;
    TwoBlocks(n);
    p := new Partition(Nand, n, n, 2, 0, 2, _ => false, _ => false, _ => Fine, q => if q == 0 then Eio else Fine,
                       _ => false, Blank(n + n), [false, false]);
    p.MapInit();
    assert p.es == [Untagged, Untagged];
    var s := new SysinfoManager(p);
    Fitting(p, lay, n);
    s.layout := lay;
    var buf := new Byte[|data|](i requires 0 <= i < |data| => data[i]);
    assert buf[..|data|] == data;
    BothTurns(p, lay, n, data);
    QuotientAndRest(|data|, n);
    ghost var done;
    r, done := Write(s, 0, |data|, buf, true, true);
  }

  lemma Fitting(p: Partition, lay: seq<Region>, n: nat)
    requires p.Geometry() && p.ebSize == n && p.ebCnt == 2 && p.startEb == 0
    requires forall i :: 0 <= i < |lay| ==> lay[i].offset >= n + n || (lay[i].offset == 0 && lay[i].length <= n)
    ensures forall i :: 0 <= i < |lay| ==> InOneBlock(p, lay[i])
  {
    OneBlockSize(n);
    DivMod(0, n, 0);
  }

  /** One byte to write, and blocks of two bytes: the write reports success up to the end of the second block, and the
      byte is nowhere on the flash. */
  method LostByte(b: Byte) returns (p: Partition, r: int)
    ensures r == 4 && p.cells == [0xff, 0xff, 0xff, 0xff]
  {
    hide SecondPage, Unsaved;
    var lay := InitialLayout();
    OutOfTheWay(lay, 0, 2);
    OutOfTheWay(lay, 2, 4);
    p, r := WriteOverFailure(2, lay, [b]);
    EmptyPage(lay, 2, [b]);
    assert Blank(2) == [0xff, 0xff];
  }

  lemma OutOfTheWay(lay: seq<Region>, start: nat, end: nat)
    requires forall i :: 0 <= i < |lay| ==> lay[i].offset >= end
    ensures !Unsaved(lay, start, end)
  {}

  lemma EmptyPage(lay: seq<Region>, n: nat, data: seq<Byte>)
    requires ValidLayout(lay) && |data| < n && forall i :: 0 <= i < |lay| ==> lay[i].offset >= n + n
    ensures SecondPage(lay, n, data) == Blank(n)
  {
    forall k | 0 <= k < n
      ensures SecondPage(lay, n, data)[k] == ERASED_BYTE
    {
      NotCovered(lay, n + k, ERASED_BYTE);
    }
  }

  /** One page of one byte, and a saved reserved region under the page that fails: the write reports success, and what
      the second block holds is the region's byte in place of the one to write. */
  method StrayByte(b: Byte, v: Byte) returns (p: Partition, r: int)
    ensures r == 2 && p.cells == [0xff, v]
  {
    var lay := [Region(0, 1, Some([v]), Reserved)];
    p, r := WriteOverFailure(1, lay, [b]);
    assert lay[..0] == [];
    assert Overlay(lay, 0, b) == v && Overlay(lay, 1, v) == v;
    assert Merged(lay, 0, [b]) == [v] && Merged(lay, 1, [v]) == [v];
    assert Blank(1) == [0xff];
  }

  // ---------------------------------------------------------------- a page in front of one that fails

  /** Two blocks of two pages of n bytes each; the second page of the first block reports EIO. */
  ghost predicate FailsBehind(p: Partition, n: nat)
  {
    && p.kind == Nand && p.ebSize == n + n && p.minIo == n > 0 && p.ebCnt == 2 && p.startEb == 0 && p.totalEb == 2
    && (n + n) % n == 0 && p.writeFault(0) == Fine && p.writeFault(n) == Eio && p.writeFault(n + n) == Fine
    && p.eraseFault(0) == Fine && !p.markFails(0)
  }

  /** Between its turns: after the first page, after the failure, and after the second page. */
  function PageState(n: nat, turn: nat, a: seq<Byte>, b: seq<Byte>): WriteState
  {
    if turn == 0 then WriteState([Untagged, Untagged], [false, false], Blank(n + n + n + n), 0, a + b, false)
    else if turn == 1 then WriteState([Untagged, Untagged], [false, false], a + Blank(n + n + n), n, b, false)
    else if turn == 2 then WriteState([Bad, Untagged], [true, false], Blank(n + n + n + n), n + n, b, false)
    else WriteState([Bad, Untagged], [true, false], Blank(n + n) + b + Blank(n), n + n + n, [], false)
  }

  lemma PageSpots(p: Partition, n: nat)
    requires FailsBehind(p, n)
    ensures p.Geometry() && p.Start() == 0 && p.Size() == n + n + n + n
    ensures EbIndex(0, n + n) == 0 && EbIndex(n, n + n) == 0 && EbIndex(n + n, n + n) == 1
            && Align(n + (n + n), n + n) == n + n
    ensures 0 % n == 0 && n % n == 0 && (n + n + n) % n == 0
  {
    OneBlockSize(n + n);
    DivMod(0, n + n, 0);
    DivMod(0, n + n, n);
    DivMod(1, n + n, 0);
    AlignNext(n, n + n);
    Remainder(0, n, 0, 0);
    Remainder(n, n, 1, 0);
    Remainder(n + n + n, n, 3, 0);
  }

  lemma PageTurns(p: Partition, lay: seq<Region>, n: nat, a: seq<Byte>, b: seq<Byte>)
    requires FailsBehind(p, n) && ValidLayout(lay) && NoRegions(p, lay) && |a| == |b| == n
    ensures forall i :: 0 <= i < 4 ==> StateOk(p, PageState(n, i, a, b))
    ensures Turn(p, lay, true, PageState(n, 0, a, b)) == (Done, PageState(n, 1, a, b))
    ensures Turn(p, lay, true, PageState(n, 1, a, b)) == (Skipped, PageState(n, 2, a, b))
    ensures Turn(p, lay, true, PageState(n, 2, a, b)) == (Done, PageState(n, 3, a, b))
  {
    FirstPageTurn(p, lay, n, a, b);
    FailingTurn(p, lay, n, a, b);
    LastPageTurn(p, lay, n, a, b);
  }

  lemma FirstPageTurn(p: Partition, lay: seq<Region>, n: nat, a: seq<Byte>, b: seq<Byte>)
    requires FailsBehind(p, n) && ValidLayout(lay) && NoRegions(p, lay) && |a| == |b| == n
    ensures StateOk(p, PageState(n, 0, a, b))
    ensures Turn(p, lay, true, PageState(n, 0, a, b)) == (Done, PageState(n, 1, a, b))
  {
    hide EbIndex, EbOffset, EbStart, Merged, Overlay, Unsaved, Programmed, Blank;
    PageSpots(p, n);
    var s := PageState(n, 0, a, b);
    StandsOnGood(p, s, 0);
    FreePage(p, lay, 0, a);
    PutAt([], a, Blank(n + n + n), n, 0);
    assert [] + a + Blank(n + n + n) == a + Blank(n + n + n);
    assert (a + b)[..n] == a && (a + b)[n..] == b;
  }

  lemma FailingTurn(p: Partition, lay: seq<Region>, n: nat, a: seq<Byte>, b: seq<Byte>)
    requires FailsBehind(p, n) && ValidLayout(lay) && NoRegions(p, lay) && |a| == |b| == n
    ensures StateOk(p, PageState(n, 1, a, b))
    ensures Turn(p, lay, true, PageState(n, 1, a, b)) == (Skipped, PageState(n, 2, a, b))
  {
    hide EbIndex, EbOffset, EbStart, Merged, Overlay, Unsaved, Programmed, Blank, BlankBlock;
    PageSpots(p, n);
    var s := PageState(n, 1, a, b);
    StandsOnGood(p, s, 0);
    FreePage(p, lay, n, b);
    BlankAgain(n, a);
    assert s.es[0 := Bad] == [Bad, Untagged] && s.devBad[0 := true] == [true, false];
    assert b[..n] == b && b + b[n..] == b;
  }

  lemma LastPageTurn(p: Partition, lay: seq<Region>, n: nat, a: seq<Byte>, b: seq<Byte>)
    requires FailsBehind(p, n) && ValidLayout(lay) && NoRegions(p, lay) && |a| == |b| == n
    ensures StateOk(p, PageState(n, 2, a, b)) && StateOk(p, PageState(n, 3, a, b))
    ensures Turn(p, lay, true, PageState(n, 2, a, b)) == (Done, PageState(n, 3, a, b))
  {
    hide EbIndex, EbOffset, EbStart, Merged, Overlay, Unsaved, Programmed, Blank;
    PageSpots(p, n);
    var s := PageState(n, 2, a, b);
    StandsOnGood(p, s, 1);
    FreePage(p, lay, n + n, b);
    PutAt(Blank(n + n), b, Blank(n), n, n + n);
    assert b[..n] == b;
  }

  /** A page that meets no region is taken as it is. */
  lemma FreePage(p: Partition, lay: seq<Region>, q: nat, page: seq<Byte>)
    requires ValidLayout(lay) && NoRegions(p, lay) && q + |page| <= p.Size() && |page| > 0 && p.Start() == 0
    ensures Merged(lay, q, page) == page && !Unsaved(lay, q, q + |page|)
  {
    MergeKeeps(p, lay, q, page);
  }

  /** A page put behind what is in front of it, on blank cells. */
  lemma PutAt(front: seq<Byte>, page: seq<Byte>, rest: seq<Byte>, n: nat, q: nat)
    requires |front| == q && |page| == n && front == Blank(q) && rest == Blank(|rest|)
    ensures Programmed(Blank(q + n + |rest|), q, page) == front + page + rest
  {
    hide ByteAnd;
    forall j | 0 <= j < q + n + |rest|
      ensures Programmed(Blank(q + n + |rest|), q, page)[j] == (front + page + rest)[j]
    {
      if q <= j < q + n {
        ByteAndOnes(page[j - q]);
      } else if j >= q + n {
        assert rest[j - q - n] == ERASED_BYTE;
      }
    }
  }

  lemma BlankAgain(n: nat, a: seq<Byte>)
    requires n > 0 && |a| == n
    ensures BlankBlock(a + Blank(n + n + n), n + n, 0) == Blank(n + n + n + n)
  {
    var r := BlankBlock(a + Blank(n + n + n), n + n, 0);
    forall q | 0 <= q < |r|
      ensures r[q] == ERASED_BYTE
    {
      assert q < n ==> EbIndex(q, n + n) == 0;
    }
  }

  /** Two pages to write: the write reports success behind the third page of the partition, which holds the second page
      of the buffer, and the first one is nowhere on the flash. */
  method LostPage(n: nat, a: seq<Byte>, b: seq<Byte>) returns (p: Partition, r: int)
    requires 0 < |a| == |b| == n <= 0xf00
    ensures r == n + n + n && p.cells == Blank(n + n) + b + Blank(n)
  {
    hide EbIndex, EbOffset, EbStart, Run, Turn, Padded, WriteResult, Spared, Blank;
    OneBlockSize(n + n);
    Remainder(n + n, n, 2, 0);
    p := new Partition(Nand, n + n, n, 2, 0, 2, _ => false, _ => false, _ => Fine, q => if q == n then Eio else Fine,
                       _ => false, Blank(n + n + n + n), [false, false]);
    p.MapInit();
    assert p.es == [Untagged, Untagged];
    var s := new SysinfoManager(p);
    var buf := new Byte[n + n](i requires 0 <= i < n + n == |a + b| => (a + b)[i]);
    assert buf[..n + n] == a + b;
    PageSpots(p, n);
    PageTurns(p, s.layout, n, a, b);
    OneMoreTurn(p, s.layout, PageState(n, 0, a, b));
    OneMoreTurn(p, s.layout, PageState(n, 1, a, b));
    OneMoreTurn(p, s.layout, PageState(n, 2, a, b));
    EndsHere(p, s.layout, true, PageState(n, 3, a, b));
    QuotientAndRest(n + n, n);
    ghost var done;
    r, done := Write(s, 0, n + n, buf, true, true);
  }

  // ---------------------------------------------------------------- an erase without good blocks

  /** The only block of the partition is known as bad: its erase reports success up to its end, and erases nothing. */
  method ErasesNothing(n: nat, cells: seq<Byte>) returns (p: Partition, r: int)
    requires 0 < n == |cells| <= 0x3c00
    ensures r == n && p.cells == cells
  {
    hide EbIndex, EbOffset, EbStart, Blanked, ErasedMap, SavedUpTo, Rough;
    OneBlockSize(n);
    p := new Partition(Nand, n, n, 1, 0, 1, _ => false, _ => false, _ => Fine, _ => Fine, _ => false, cells, [false])
      by { Remainder(n, n, 1, 0); }
    p.MapInit();
    p.SetStatus(0, Bad);
    var s := new SysinfoManager(p);
    ghost var bad := p.FlagsOf(p.es, false);
    assert bad == [true];
    OneEraseBlock(p);
    assert forall i :: 0 <= i < |s.layout| ==> !InPartitionOf(p, s.layout[i]);
    ghost var end;
    r, end := Erase(s, n, false);
    AllBad(cells, n, end, bad);
  }

  /** An erase for one good block goes past the bad one and finds none. */
  lemma AllBad(cells: seq<Byte>, n: nat, end: nat, bad: seq<bool>)
    requires n > 0 && bad == [true] && ErasedSpan(bad, 1, end)
    ensures end == 1 && Blanked(cells, n, bad, end) == cells
  {
    assert GoodBlocks(bad, 1) == 0;
  }

  // ---------------------------------------------------------------- a flag behind the first good block

  const BLOCK: nat := 0x4000

  /** Blocks of 16 KiB put the two regions of the device into different ones. */
  lemma RegionBlocks(p: Partition)
    requires p.Geometry() && p.ebSize == BLOCK && p.ebCnt == 2 && p.startEb == 0
    ensures forall i :: 0 <= i < |InitialLayout()| ==>
              InOneBlock(p, InitialLayout()[i]) && InPartitionOf(p, InitialLayout()[i])
    ensures BlockIndex(p, InitialLayout()[0]) == 0 && BlockIndex(p, InitialLayout()[FLAG]) == 1 && p.Start() == 0
            && p.Size() == BLOCK + BLOCK
  {
    hide EbIndex, EbOffset, EbStart;
    OneBlockSize(p.ebSize);
    DivMod(0, p.ebSize, 0x3c00);
    DivMod(1, p.ebSize, 0x2000);
  }

  /** Both blocks are good and known to be, and every byte is zero: the flag is written with success, its bytes stay
      zero, and the reserved region in front of it is blank. */
  method FlagNotStored(flag: seq<Byte>) returns (p: Partition, ok: bool)
    requires |flag| == FLAG_LAYOUT[0].length
    ensures ok && |p.cells| == BLOCK + BLOCK
    ensures forall q :: 0x6000 <= q < 0x6004 ==> p.cells[q] == 0
    ensures forall q :: 0x3c00 <= q < 0x4000 ==> p.cells[q] == ERASED_BYTE
  {
    hide EbIndex, EbOffset, EbStart, SetOutcome;
    OneBlockSize(BLOCK);
    p := new Partition(Nand, BLOCK, 0x800, 2, 0, 2, _ => false, _ => false, _ => Fine, _ => Fine, _ => false,
                       seq(BLOCK + BLOCK, _ => 0), [false, false]);
    RegionBlocks(p);
    p.MapInit();
    p.SetStatus(0, Scanned);
    var s := new SysinfoManager(p);
    ghost var cells0, bad := p.cells, RelFlags(p, p.es);
    assert bad == [false, false];
    assert FlagSets(s);
    ok := WriteFlag(s, 0, Some(flag));
    Rewrote(p, bad, flag, cells0, p.cells, ok);
    NotFirst(p, bad, flag, cells0, p.cells, ok);
  }

  /** The layout that such a write works with. */
  function FlagLayout(flag: seq<Byte>): (lay: seq<Region>)
    requires |flag| == 4
    ensures |lay| == 2 && ValidLayout(lay)
  {
    Valued(Released(InitialLayout()), FLAG, FlagBuffer(InitialLayout(), flag))
  }

  lemma Rewrote(p: Partition, bad: seq<bool>, flag: seq<Byte>, cells0: seq<Byte>, cells: seq<Byte>, ok: bool)
    requires p.Geometry() && |flag| == 4 && |cells0| == BLOCK + BLOCK
    requires var lay := Released(InitialLayout());
             && ValidLayout(Valued(lay, FLAG, FlagBuffer(InitialLayout(), flag))) && p.Start() <= lay[FLAG].offset
             && BlockIndex(p, lay[FLAG]) == 1 < |bad|
             && SetOutcome(p, bad, lay, FLAG, FlagBuffer(InitialLayout(), flag), cells0, cells, ok)
    ensures RewriteOutcome(p, bad, FlagLayout(flag), 1, cells0,
                           Patched(cells0, 0x6000, FlagBuffer(InitialLayout(), flag)), cells, ok)
  {
    hide EbIndex, RewriteOutcome, FlagBuffer, Patched;
  }

  lemma NotFirst(p: Partition, bad: seq<bool>, flag: seq<Byte>, cells0: seq<Byte>, cells: seq<Byte>, ok: bool)
    requires p.Geometry() && p.ebSize == BLOCK && p.ebCnt == 2 && p.startEb == 0 && |flag| == 4
    requires bad == [false, false] && cells0 == seq(BLOCK + BLOCK, i => 0)
    requires RewriteOutcome(p, bad, FlagLayout(flag), 1, cells0,
                            Patched(cells0, 0x6000, FlagBuffer(InitialLayout(), flag)), cells, ok)
    ensures ok && |cells| == BLOCK + BLOCK
    ensures forall q :: 0x6000 <= q < 0x6004 ==> cells[q] == 0
    ensures forall q :: 0x3c00 <= q < 0x4000 ==> cells[q] == ERASED_BYTE
  {
    hide EbIndex, EbOffset, EbStart, BlockByte, OtherByte, Patched, Takes, FlagLayout, FlagBuffer;
    OnlyFlag(p, bad, flag);
    forall q | 0x6000 <= q < 0x6004
      ensures cells[q] == 0
    {
      FlagCleared(p, bad, flag, cells0, cells, q);
    }
    forall q | 0x3c00 <= q < 0x4000
      ensures cells[q] == ERASED_BYTE
    {
      InFrontBlank(p, bad, flag, cells0, cells, q);
    }
  }

  /** No reserved region is left in the block of the flag. */
  lemma OnlyFlag(p: Partition, bad: seq<bool>, flag: seq<Byte>)
    requires p.Geometry() && p.ebSize == BLOCK && p.ebCnt == 2 && p.startEb == 0 && |flag| == 4 && bad == [false, false]
    ensures Takes(p, bad, FlagLayout(flag), 1)
  {
    hide EbIndex, EbOffset, EbStart;
    RegionBlocks(p);
    assert FlagLayout(flag)[0] == InitialLayout()[0] && FlagLayout(flag)[1].reserve == NotReserved;
  }

  lemma FlagCleared(p: Partition, bad: seq<bool>, flag: seq<Byte>, cells0: seq<Byte>, cells: seq<Byte>, q: nat)
    requires p.Geometry() && p.ebSize == BLOCK && p.ebCnt == 2 && p.startEb == 0 && |flag| == 4
    requires bad == [false, false] && cells0 == seq(BLOCK + BLOCK, i => 0) && 0x6000 <= q < 0x6004
    requires RewriteOutcome(p, bad, FlagLayout(flag), 1, cells0,
                            Patched(cells0, 0x6000, FlagBuffer(InitialLayout(), flag)), cells, true)
    ensures cells[q] == 0
  {
    hide EbIndex, EbOffset, EbStart, RewriteOutcome, Patched, FlagBuffer, InReserved;
    RegionBlocks(p);
    var value := FlagBuffer(InitialLayout(), flag);
    RegionByte(p, bad, FlagLayout(flag), FLAG, value, cells0, cells, q - 0x6000);
    assert !bad[0] && !FirstGood(bad, 1);
    NothingToClear(value[q - 0x6000]);
  }

  lemma InFrontBlank(p: Partition, bad: seq<bool>, flag: seq<Byte>, cells0: seq<Byte>, cells: seq<Byte>, q: nat)
    requires p.Geometry() && p.ebSize == BLOCK && |flag| == 4 && bad == [false, false] && q < BLOCK
    requires |cells0| == BLOCK + BLOCK
    requires RewriteOutcome(p, bad, FlagLayout(flag), 1, cells0,
                            Patched(cells0, 0x6000, FlagBuffer(InitialLayout(), flag)), cells, true)
    ensures cells[q] == ERASED_BYTE
  {
    hide EbIndex, EbOffset, EbStart, BlockByte, Patched, Takes, FlagLayout, FlagBuffer;
    OneBlockSize(p.ebSize);
    DivMod(0, p.ebSize, q);
  }

  lemma {:induction false} AndZero(k: nat, y: nat)
    ensures Bitwise(And, k, 0, y) == 0
    decreases k
  {
    if k > 0 { AndZero(k - 1, y / 2); }
  }

  lemma NothingToClear(b: Byte)
    ensures ByteAnd(0, b) == 0
  {
    AndZero(8, b);
  }
}
