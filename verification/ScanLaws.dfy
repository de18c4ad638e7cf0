/** What the scan of base.c and the write behind it guarantee together. */
module ScanLaws {
  import opened Wrappers
  import opened WordArith
  import opened Bits
  import opened Division
  import opened Placement
  import opened Mtd
  import opened Sysinfo
  import opened FlashErase
  import opened FlashWrite
  import opened FlashLaws

  /** The map has no bad block that the device does not know, and has not tagged as good any block that the device calls
      bad. */
  predicate MapAgrees(es: seq<Status>, devBad: seq<bool>)
    requires |devBad| <= |es|
  {
    forall b :: 0 <= b < |devBad| ==> if devBad[b] then es[b] == Untagged || es[b] == Bad else es[b] != Bad
  }

  /** No reserved region waits to be saved. */
  predicate AllSaved(lay: seq<Region>)
  {
    forall i :: 0 <= i < |lay| && lay[i].reserve == Reserved ==> lay[i].value.Some?
  }

  /** The blocks of the span that the write skips are those that the device calls bad. */
  lemma SpanFlags(p: Partition, was: seq<Status>, es: seq<Status>, lo: nat, span: nat)
    requires p.Geometry() && p.IsNand() && |was| == |es| == p.totalEb && lo + span <= p.ebCnt
    requires |p.devBad| == p.ebCnt && MapAgrees(was, p.devBad)
    requires forall j :: lo <= j < lo + span && was[j] == Untagged ==> es[j] == if p.devBad[j] then Bad else Scanned
    requires forall j :: lo <= j < lo + span && was[j] != Untagged ==> es[j] == was[j]
    ensures forall b :: lo <= b < lo + span ==>
              p.devBad[b] == BadFlags(es[..p.ebCnt], p.IsNand())[b] == Unfit(was, 0, p.devBad, true)[b]
  {
    forall b | lo <= b < lo + span
      ensures p.devBad[b] == BadFlags(es[..p.ebCnt], p.IsNand())[b] == Unfit(was, 0, p.devBad, true)[b]
    {
      assert es[..p.ebCnt][b] == es[b];
    }
  }

  /** Filling up the last page asks for no further block. */
  lemma PaddedNeed(x: nat, n: nat, m: nat, eb: nat, page: nat)
    requires eb > 0 && page > 0 && eb % page == 0 && x % page == 0 && m % page == 0 && n <= m < n + page
    ensures EbIndex(x + m + eb - 1, eb) == EbIndex(x + n + eb - 1, eb)
  {
    hide EbIndex, EbOffset, EbStart;
    var k := EbIndex(x + n + eb - 1, eb);
    Split(x + n + eb - 1, eb);
    assert x + n <= EbStart(k, eb);
    MultipleAligned(k, eb, page);
    PagesAdd(x, m, page);
    if x + m > EbStart(k, eb) { LessPage(EbStart(k, eb), x + m, page); }
    Inside(x + m + eb - 1, eb, k + 1);
    StartAdds(k, 1, eb);
    OneBlockSize(eb);
    DivMonotone(x + n + eb - 1, x + m + eb - 1, eb);
  }

  /** No byte changed on a block below upto that the device calls bad. */
  ghost predicate BadKept(eb: nat, devBad: seq<bool>, upto: nat, cells0: seq<Byte>, cells: seq<Byte>)
    requires eb > 0
  {
    && upto <= |devBad| && |cells| == |cells0| == |devBad| * eb
    && forall q :: 0 <= q < |cells| && q / eb < upto && devBad[q / eb] ==> cells[q] == cells0[q]
  }

  /** The whole stream was written from x on, on good blocks inside the span; the blocks skipped there are those that
      the device calls bad. */
  ghost predicate SpanFilled(p: Partition, rel: seq<bool>, devBad: seq<bool>, x: nat, span: nat, lay: seq<Region>,
                             stream: seq<Byte>, cells0: seq<Byte>, cells: seq<Byte>, r: int)
    requires p.Geometry() && ValidLayout(lay)
  {
    && x / p.ebSize + span <= |rel| == |devBad| && |stream| > 0
    && rel[x / p.ebSize..x / p.ebSize + span] == devBad[x / p.ebSize..x / p.ebSize + span]
    && Place(rel, p.ebSize, x, |stream| - 1) < (x / p.ebSize + span) * p.ebSize
    && Written(rel, p.ebSize, x, 0, lay, stream, cells0, cells)
    && r == After(rel, p.ebSize, x, |stream|)
  }

  /** The length test of the write passes what the scan accepted. */
  lemma ScannedIsAccepted(p: Partition, offset: nat, length: nat)
    requires p.Geometry() && p.startEb == 0 && !ScanRefused(p, offset, length, Random)
    ensures 0 < length && offset + length <= p.ebCnt * p.ebSize == p.Size() && p.Start() == 0
    ensures length / p.minIo * p.minIo <= p.Size() - offset
    ensures EbIndex(offset, p.ebSize) == offset / p.ebSize
  {
    hide EbIndex, EbOffset, EbStart;
    RefusedBytes(p, offset, length, Random);
    EbIsDivision(offset, p.ebCnt, p.ebSize);
    EbIsDivision(offset, 0, p.ebSize);
    assert length == length / p.minIo * p.minIo + length % p.minIo;
  }

  /** The number of blocks asked for, when the request has a byte. */
  lemma NeedIs(p: Partition, offset: nat, length: nat)
    requires p.Geometry() && p.startEb == 0 && length > 0
    ensures Need(p, offset, length, Random) == EbIndex(offset + length + p.ebSize - 1, p.ebSize)
                                               - EbIndex(offset, p.ebSize) > 0
  {
    hide EbIndex, EbOffset, EbStart;
    DivMonotone(offset + p.ebSize, offset + length + p.ebSize - 1, p.ebSize);
    AlignNext(offset, p.ebSize);
  }

  /** The span is the shortest that holds the request around the blocks that the device calls
      bad. */
  ghost predicate SpanFor(p: Partition, rel: seq<bool>, devBad: seq<bool>, x: nat, length: nat, span: nat)
    requires p.ebSize > 0
  {
    && Shortest(rel, EbIndex(x, p.ebSize), Need(p, x, length, Random), span) && |rel| == |devBad|
    && forall b :: EbIndex(x, p.ebSize) <= b < EbIndex(x, p.ebSize) + span ==> devBad[b] == rel[b]
  }

  lemma SpanAgrees(p: Partition, unfit: seq<bool>, rel: seq<bool>, devBad: seq<bool>, x: nat, length: nat, span: nat)
    requires p.ebSize > 0 && |rel| == |unfit| == |devBad|
    requires Shortest(unfit, EbIndex(x, p.ebSize), Need(p, x, length, Random), span)
    requires forall b :: EbIndex(x, p.ebSize) <= b < EbIndex(x, p.ebSize) + span ==> devBad[b] == rel[b] == unfit[b]
    ensures SpanFor(p, rel, devBad, x, length, span)
  {
    hide EbIndex, EbOffset, Need, GoodBlocks;
    SameCount(unfit, rel, EbIndex(x, p.ebSize), EbIndex(x, p.ebSize) + span);
  }

  /** The scan of a request for bytes. */
  method ScanRequest(p: Partition, offset: nat, length: nat) returns (r: int, ghost span: nat)
    requires p.Valid() && p.startEb == 0 && p.IsNand() && MapAgrees(p.Map(), p.devBad)
    modifies p`hasMap, p`es, p`badCnt
    ensures p.Valid()
    ensures r != -1 ==>
              && p.hasMap && r == span * p.ebSize && !ScanRefused(p, offset, length, Random)
              && SpanFor(p, p.RelBad(), p.devBad, offset, length, span)
  {
    hide EbIndex, EbOffset, EbStart, Need, ScanRefused, ScannedMap, BadFlags, Unfit, CountBad, GoodBlocks, Shortest,
         Sticky, SpanFor, MapAgrees;
    ghost var was := p.Map();
    var failed;
    ghost var found;
    r, failed, found, span := Scan(p, offset, length, Random, false);
    if r == -1 {
      return;
    }
    ScannedIsAccepted(p, offset, length);
    SpanFlags(p, was, p.es, EbIndex(offset, p.ebSize), span);
    EbIsDivision(offset, span, p.ebSize);
    SpanAgrees(p, Unfit(was, 0, p.devBad, true), p.RelBad(), p.devBad, offset, length, span);
  }

  /** The write spares the blocks of the span that the device calls bad, and all blocks before it. */
  lemma SpanSpared(p: Partition, bad: seq<bool>, devBad: seq<bool>, x: nat, length: nat, span: nat, cells0: seq<Byte>,
                   cells: seq<Byte>)
    requires p.Geometry() && |bad| == p.ebCnt && SpanFor(p, bad, devBad, x, length, span)
    requires |cells0| == EbStart(p.ebCnt, p.ebSize)
    requires cells == cells0 || Spared(bad, p.ebSize, x, cells0, cells)
    ensures BadKept(p.ebSize, devBad, x / p.ebSize + span, cells0, cells)
  {
    hide EbIndex, EbOffset, EbStart, Need, GoodBlocks;
    EbIsDivision(x, p.ebCnt, p.ebSize);
    forall q | 0 <= q < |cells| && q / p.ebSize < x / p.ebSize + span && devBad[q / p.ebSize]
      ensures cells[q] == cells0[q]
    {
      EbIsDivision(q, p.ebCnt, p.ebSize);
    }
  }

  /** With all regions saved, an undisturbed write of the scanned request is complete and stays inside the span. */
  lemma SpanHolds(p: Partition, bad: seq<bool>, devBad: seq<bool>, x: nat, lay: seq<Region>, data: seq<Byte>, span: nat,
                  cells0: seq<Byte>, cells: seq<Byte>, done: nat, r: int)
    requires p.Geometry() && ValidLayout(lay) && AllSaved(lay) && data != [] && x % p.minIo == 0 && p.startEb == 0
    requires SpanFor(p, bad, devBad, x, |data|, span)
    requires WriteResult(p, bad, x, lay, Padded(data, p.minIo), cells0, cells, done, r)
    ensures SpanFilled(p, bad, devBad, x, span, lay, Padded(data, p.minIo), cells0, cells, r)
  {
    hide EbIndex, EbOffset, EbStart, After, Skip, Written, GoodBlocks, Need, Place;
    var stream, need := Padded(data, p.minIo), Need(p, x, |data|, Random);
    NeedIs(p, x, |data|);
    PaddedNeed(x, |data|, |stream|, p.ebSize, p.minIo);
    ScanThenFits(bad, bad, p.ebSize, x, |stream|, need, span);
    WriteCompletes(p, bad, x, lay, stream, cells0, cells, done, r);
    EbIsDivision(x, EbIndex(x, p.ebSize) + span, p.ebSize);
    EbIsDivision(x, 0, p.ebSize);
    assert stream[..|stream|] == stream;
  }

  /** A scan, and then a write of as many bytes: whatever the write errors, no byte changes on a block of the scanned
      span that the device calls bad; and without write errors, a page-aligned request whose regions are saved is
      written completely, inside the span and around those blocks. */
  method ScanThenWrite(s: SysinfoManager, offset: nat, length: nat, buf: array<Byte>, pad: bool, markbad: bool)
    returns (r: int, r': int, ghost span: nat)
    requires s.Valid() && length <= buf.Length && s.part.startEb == 0
             && (s.part.kind == Nand || s.part.kind == MlcNand)
    requires MapAgrees(s.part.Map(), s.part.devBad)
    modifies s.part, buf
    ensures s.Valid() && (r == -1 ==> r' == -1 && s.part.cells == old(s.part.cells) && buf[..] == old(buf[..]))
    ensures r != -1 ==>
              var eb := s.part.ebSize;
              && 0 < length && offset + length <= s.part.ebCnt * eb && r == span * eb
              && BadKept(eb, old(s.part.devBad), offset / eb + span, old(s.part.cells), s.part.cells)
    ensures r != -1 && NoWriteFaults(s.part) && AllSaved(s.layout) && offset % s.part.minIo == 0
            && (pad || length % s.part.minIo == 0) ==>
              && s.part.hasMap
              && SpanFilled(s.part, s.part.RelBad(), old(s.part.devBad), offset, span, s.layout,
                            Padded(old(buf[..length]), s.part.minIo), old(s.part.cells), s.part.cells, r')
  {
    hide EbIndex, EbOffset, EbStart, Need, ScanRefused, Written, Run, OnDevice, Spared, WriteResult, Padded, After,
         Place, Skip, BadFlags, CountBad, ValidLayout, AllSaved, Shortest, BadKept, SpanFilled, SpanFor, MapAgrees,
         Sticky;
    var p := s.part;
    ghost var devBad, cells0, data, done := p.devBad, p.cells, buf[..length], 0;
    r, span := ScanRequest(p, offset, length);
    r' := -1;
    if r == -1 {
      return;
    }
    ScannedIsAccepted(p, offset, length);
    ghost var rel := p.RelBad();
    r', done := Write(s, offset, length, buf, pad, markbad);
    SpanSpared(p, rel, devBad, offset, length, span, cells0, p.cells);
    if NoWriteFaults(p) && AllSaved(s.layout) && offset % p.minIo == 0 && (pad || length % p.minIo == 0) {
      SpanHolds(p, rel, devBad, offset, s.layout, data, span, cells0, p.cells, done, r');
    }
  }

  lemma FirstBadSecondGood(bad: seq<bool>)
    requires bad == [true, false]
    ensures GoodBlocks(bad, 0) == GoodBlocks(bad, 1) == 0 && GoodBlocks(bad, 2) == 1
  {}

  /** Two blocks, the first one bad, and no map yet: a scan for one block tags the first one BAD and goes on to the
      second. */
  method FirstBlockBad(p: Partition) returns (r: int)
    requires p.Valid() && p.IsNand() && p.startEb == 0 && p.ebCnt == p.totalEb == 2 && !p.hasMap
    requires p.devBad == [true, false] && forall i :: !p.checkFails(i)
    modifies p`hasMap, p`es, p`badCnt
    ensures r == 2 * p.ebSize && p.hasMap && p.es == [Bad, Scanned]
  {
    hide EbOffset, ScannedMap, CountBad, Sticky;
    ghost var unfit := UnfitIn(p, false);
    assert unfit == [true, false];
    FirstBadSecondGood(unfit);
    OneBlockSize(p.ebSize);
    RefusedBytes(p, 0, p.ebSize, Random);
    DivMod(1, p.ebSize, p.ebSize - 1);
    var failed;
    ghost var found, span;
    r, failed, found, span := Scan(p, 0, p.ebSize, Random, false);
    StopsExactly(unfit, 0, 1, Random, found, span, r, p.ebSize);
    assert span == 2;
  }
}
