/** base.c, mtd_basic_write: pages go to good blocks in order, with the saved regions merged in. */
module FlashWrite {
  import opened WordArith
  import opened Bits
  import opened Division
  import opened Placement
  import opened Mtd
  import opened Sysinfo
  import opened FlashErase

  // ---------------------------------------------------------------- what a write does

  /** Programming flash can clear bits only. */
  function Programmed(cells: seq<Byte>, q: nat, data: seq<Byte>): (r: seq<Byte>)
    requires q + |data| <= |cells|
    ensures |r| == |cells|
  {
    seq(|cells|, j requires 0 <= j < |cells| => if q <= j < q + |data| then ByteAnd(cells[j], data[j - q])
        else cells[j])
  }

  /** Byte k of the stream arrived. */
  ghost predicate StreamByte(bad: seq<bool>, eb: nat, x: nat, start: nat, lay: seq<Region>, data: seq<Byte>,
                             cells0: seq<Byte>, cells: seq<Byte>, k: nat)
    requires eb > 0 && k < |data| && |cells| == |cells0| && forall i :: 0 <= i < |lay| ==> lay[i].Valid()
  {
    var q := Place(bad, eb, x, k);
    q < |cells0| && cells[q] == ByteAnd(cells0[q], Overlay(lay, start + q, data[k]))
  }

  /** Every byte of the stream, merged with the saved regions, was programmed at its place; nothing else changed. */
  ghost predicate Written(bad: seq<bool>, eb: nat, x: nat, start: nat, lay: seq<Region>, data: seq<Byte>,
                          cells0: seq<Byte>, cells: seq<Byte>)
    requires eb > 0 && forall i :: 0 <= i < |lay| ==> lay[i].Valid()
  {
    && |cells| == |cells0|
    && Fits(bad, eb, x, |data|)
    && (forall k :: 0 <= k < |data| ==> StreamByte(bad, eb, x, start, lay, data, cells0, cells, k))
    && (forall q :: 0 <= q < |cells0| && (q < x || q >= After(bad, eb, x, |data|) || OnBad(bad, eb, q)) ==>
        cells[q] == cells0[q])
  }

  /** The next page goes behind what was written. */
  lemma WrittenMore(bad: seq<bool>, eb: nat, x: nat, start: nat, lay: seq<Region>, data: seq<Byte>, page: seq<Byte>,
                    whole: seq<Byte>, merged: seq<Byte>, cells0: seq<Byte>, cells: seq<Byte>)
    requires eb > 0 && forall i :: 0 <= i < |lay| ==> lay[i].Valid()
    requires Written(bad, eb, x, start, lay, data, cells0, cells) && |page| > 0 && whole == data + page
             && |cells| == EbStart(|bad|, eb)
    requires var q := Place(bad, eb, x, |data|);
             EbIndex(q, eb) < |bad| && EbOffset(q, eb) + |page| <= eb && OverlaidBy(lay, start + q, page, merged)
    ensures var q := Place(bad, eb, x, |data|);
            && q + |page| <= |cells|
            && After(bad, eb, x, |whole|) == q + |page|
            && Written(bad, eb, x, start, lay, whole, cells0, Programmed(cells, q, merged))
  {
    hide EbIndex, EbOffset, EbStart, After, Skip;
    var q, n := Place(bad, eb, x, |data|), |data|;
    UnitInside(q, |page|, eb, |bad|);
    Contiguous(bad, eb, x, n, |page|);
    var now := Programmed(cells, q, merged);
    forall k | 0 <= k < |whole|
      ensures StreamByte(bad, eb, x, start, lay, whole, cells0, now, k)
    {
      if k < n {
        PlaceGrows(bad, eb, x, k, n);
        assert StreamByte(bad, eb, x, start, lay, data, cells0, cells, k);
      } else {
        NewByte(bad, eb, x, start, lay, data, page, merged, cells0, cells, k);
      }
    }
    PageOnGood(bad, eb, q, |page|);
  }

  lemma PageOnGood(bad: seq<bool>, eb: nat, q: nat, n: nat)
    requires eb > 0 && !OnBad(bad, eb, q) && EbOffset(q, eb) + n <= eb
    ensures forall p :: q <= p < q + n ==> !OnBad(bad, eb, p)
  {
    forall p | q <= p < q + n
      ensures !OnBad(bad, eb, p)
    {
      SameBlock(q, p - q, eb);
    }
  }

  lemma NewByte(bad: seq<bool>, eb: nat, x: nat, start: nat, lay: seq<Region>, data: seq<Byte>, page: seq<Byte>,
                merged: seq<Byte>, cells0: seq<Byte>, cells: seq<Byte>, k: nat)
    requires eb > 0 && forall i :: 0 <= i < |lay| ==> lay[i].Valid()
    requires |cells| == |cells0| && |data| <= k < |data| + |page|
    requires var q := Place(bad, eb, x, |data|);
             && q + |page| <= |cells| && OverlaidBy(lay, start + q, page, merged)
             && Place(bad, eb, x, k) == q + (k - |data|)
             && cells[q + (k - |data|)] == cells0[q + (k - |data|)]
    ensures StreamByte(bad, eb, x, start, lay, data + page, cells0,
                       Programmed(cells, Place(bad, eb, x, |data|), merged), k)
  {
    var q, i := Place(bad, eb, x, |data|), k - |data|;
    assert merged[i] == Overlay(lay, (start + q) + i, page[i]);
    assert (start + q) + i == start + (q + i);
  }

  lemma WrittenNothing(bad: seq<bool>, eb: nat, x: nat, start: nat, lay: seq<Region>, none: seq<Byte>, cells: seq<Byte>)
    requires eb > 0 && none == [] && forall i :: 0 <= i < |lay| ==> lay[i].Valid()
    ensures Written(bad, eb, x, start, lay, none, cells, cells)
  {}

  /** The data, filled up with 0xff to whole pages. */
  function Padded(data: seq<Byte>, page: nat): (d: seq<Byte>)
    requires page > 0
    ensures |d| >= |data| && d[..|data|] == data
    ensures |d| % page == 0 && |d| < |data| + page
  {
    PadTo(|data|, page);
    data + seq(PadLength(|data|, page), i => ERASED_BYTE)
  }

  function PadLength(n: int, page: nat): (k: nat)
    requires page > 0
    ensures k < page
  {
    (-n) % page
  }

  lemma PadTo(n: int, page: nat)
    requires page > 0
    ensures (n + PadLength(n, page)) % page == 0
  {
    var k, q := (-n) % page, (-n) / page;
    assert -n == page * q + k;
    assert page * (-q) == -(page * q);
    Remainder(n + k, page, -q, 0);
  }

  /** Pages never straddle blocks. */
  lemma {:induction false} SkipAligned(bad: seq<bool>, eb: nat, x: nat, page: nat)
    requires eb > 0 && page > 0 && eb % page == 0 && x % page == 0
    ensures Skip(bad, eb, x) % page == 0
    decreases |bad| - EbIndex(x, eb)
  {
    if OnBad(bad, eb, x) {
      NextBlock(x, eb);
      MultipleAligned(EbIndex(x, eb) + 1, eb, page);
      SkipAligned(bad, eb, EbStart(EbIndex(x, eb) + 1, eb), page);
    }
  }

  lemma {:induction false} MultipleAligned(k: nat, eb: nat, page: nat)
    requires page > 0 && eb % page == 0
    ensures EbStart(k, eb) % page == 0
  {
    if k > 0 {
      MultipleAligned(k - 1, eb, page);
      PagesAdd(EbStart(k - 1, eb), eb, page);
    } else {
      Remainder(0, page, 0, 0);
    }
  }

  /** What is left of a block in front of its end is at least a page, when it is a number of pages and not empty. */
  lemma AtLeastOnePage(n: nat, page: nat)
    requires page > 0 && n % page == 0 && n > 0
    ensures n >= page
  {
    if n < page { Remainder(n, page, 0, n); }
  }

  lemma PageInBlock(x: nat, eb: nat, page: nat)
    requires eb > 0 && page > 0 && eb % page == 0 && x % page == 0
    ensures EbOffset(x, eb) + page <= eb && (x + page) % page == 0
  {
    Split(x, eb);
    MultipleAligned(EbIndex(x, eb), eb, page);
    PagesAdd(x, EbStart(EbIndex(x, eb), eb), page);
    PagesAdd(eb, EbOffset(x, eb), page);
    AtLeastOnePage(eb - EbOffset(x, eb), page);
    Remainder(page, page, 1, 0);
    PagesAdd(x, page, page);
  }

  // ---------------------------------------------------------------- one turn of mtd_basic_write, on values

  /** Only bytes of block b differ. */
  ghost predicate ChangesOnly(eb: nat, b: nat, cells: seq<Byte>, cells': seq<Byte>)
    requires eb > 0
  {
    |cells'| == |cells| && forall q :: 0 <= q < |cells| && EbIndex(q, eb) != b ==> cells'[q] == cells[q]
  }

  lemma ProgramsOneBlock(eb: nat, cells: seq<Byte>, q: nat, data: seq<Byte>)
    requires eb > 0 && q + |data| <= |cells| && EbOffset(q, eb) + |data| <= eb
    ensures ChangesOnly(eb, EbIndex(q, eb), cells, Programmed(cells, q, data))
  {
    forall j | q <= j < q + |data|
      ensures EbIndex(j, eb) == EbIndex(q, eb)
    {
      SameBlock(q, j - q, eb);
    }
  }

  /** n erased bytes. */
  function Blank(n: nat): (s: seq<Byte>)
    ensures |s| == n
  {
    seq(n, i => ERASED_BYTE)
  }

  /** The state of the write loop: the map, the device's bad marks, the cells, the cursor, and the bytes still to write
      as the buffers hold them. When lost, they lie in the pad buffer, which is erased before it is filled again. */
  datatype WriteState = WriteState(es: seq<Status>, devBad: seq<bool>, cells: seq<Byte>, off: nat, rest: seq<Byte>,
                                   lost: bool)

  ghost predicate StateOk(p: Partition, s: WriteState)
  {
    && p.Geometry()
    && |s.es| == p.totalEb && |s.devBad| == p.ebCnt && |s.cells| == p.Size() && s.off % p.minIo == 0
    && (s.lost ==> |s.rest| < p.minIo)
  }

  /** The blocks that the write skips in this state. */
  function Flags(p: Partition, s: WriteState): (bad: seq<bool>)
    requires |s.es| == p.totalEb && p.ebCnt <= p.totalEb
    ensures |bad| == p.ebCnt
  {
    BadFlags(s.es[..p.ebCnt], p.IsNand())
  }

  /** Where the next page goes. */
  function Target(p: Partition, s: WriteState): (q: nat)
    requires p.ebSize > 0 && |s.es| == p.totalEb && p.ebCnt <= p.totalEb
    ensures q >= s.off
  {
    Skip(Flags(p, s), p.ebSize, s.off)
  }

  /** The next page: from the buffer, filled up with 0xff when less than a page is left; from an erased pad buffer after
      a failed attempt at such a page. */
  function NextPage(s: WriteState, minIo: nat): (page: seq<Byte>)
    ensures |page| == minIo
  {
    if |s.rest| >= minIo then s.rest[..minIo]
    else if s.lost then Blank(minIo)
    else s.rest + Blank(minIo - |s.rest|)
  }

  /** The page as the buffer holds it after the saved regions were merged in. */
  function Merged(lay: seq<Region>, addr: int, page: seq<Byte>): (r: seq<Byte>)
    requires forall i :: 0 <= i < |lay| ==> lay[i].Valid()
    ensures |r| == |page|
  {
    seq(|page|,
        k requires 0 <= k < |page| && forall i :: 0 <= i < |lay| ==> lay[i].Valid() =>
          Overlay(lay, addr + k, page[k]))
  }

  /** The page at q can be merged, the device reports EIO for it, and the block can be erased and marked. */
  predicate PageFails(p: Partition, lay: seq<Region>, q: nat, markbad: bool)
    requires p.ebSize > 0
  {
    !Unsaved(lay, p.Start() + q, p.Start() + q + p.minIo) && DeviceSkips(p, q, markbad)
  }

  predicate DeviceSkips(p: Partition, q: nat, markbad: bool)
    requires p.ebSize > 0
  {
    var b := EbIndex(q, p.ebSize);
    p.writeFault(q) == Eio && p.eraseFault(b) != Fatal && (markbad ==> !p.markFails(b))
  }

  /** The page at q can be merged and is programmed. */
  predicate PageTakes(p: Partition, lay: seq<Region>, q: nat)
  {
    !Unsaved(lay, p.Start() + q, p.Start() + q + p.minIo) && p.writeFault(q) == Fine
  }

  /** The cells after the device reported EIO at q and the block was erased. */
  function FailedCells(p: Partition, cells: seq<Byte>, q: nat): (r: seq<Byte>)
    requires p.ebSize > 0
    ensures |r| == |cells|
  {
    if p.eraseFault(EbIndex(q, p.ebSize)) == Fine then BlankBlock(cells, p.ebSize, EbIndex(q, p.ebSize)) else cells
  }

  /** What is still to be written after a page was. */
  function Behind(rest: seq<Byte>, minIo: nat): seq<Byte>
  {
    if |rest| > minIo then rest[minIo..] else []
  }

  function ProgramsAt(p: Partition, lay: seq<Region>, s: WriteState, q: nat): (s': WriteState)
    requires StateOk(p, s) && ValidLayout(lay) && q + p.minIo <= p.Size() && (q + p.minIo) % p.minIo == 0
    ensures StateOk(p, s') && s'.off == q + p.minIo && s'.es == s.es
  {
    s.(cells := Programmed(s.cells, q, Merged(lay, p.Start() + q, NextPage(s, p.minIo))), off := q + p.minIo,
       rest := Behind(s.rest, p.minIo), lost := false)
  }

  /** A page was programmed. */
  function Programs(p: Partition, lay: seq<Region>, s: WriteState): (s': WriteState)
    requires StateOk(p, s) && ValidLayout(lay) && EbIndex(Target(p, s), p.ebSize) < p.ebCnt
    ensures StateOk(p, s') && s'.off > s.off
  {
    PlaceForPage(p, Flags(p, s), s.off);
    ProgramsAt(p, lay, s, Target(p, s))
  }

  /** A page failed: its block is erased and BAD, and the write goes on in the next block with the buffers as they
      are. */
  function FailsOver(p: Partition, lay: seq<Region>, markbad: bool, s: WriteState): (s': WriteState)
    requires StateOk(p, s) && ValidLayout(lay) && EbIndex(Target(p, s), p.ebSize) < p.ebCnt
    ensures StateOk(p, s') && s'.off > s.off
  {
    var q := Target(p, s);
    var b := EbIndex(q, p.ebSize);
    NextBlockAligned(p, q);
    WriteState(MapSet(s.es, b, Bad), if markbad then s.devBad[b := true] else s.devBad, FailedCells(p, s.cells, q),
               Align(q + p.ebSize, p.ebSize),
               if |s.rest| < p.minIo then s.rest
               else Merged(lay, p.Start() + q, s.rest[..p.minIo]) + s.rest[p.minIo..],
               |s.rest| < p.minIo)
  }

  /** One turn of the loop: how it ends, and the state behind it. */
  function Turn(p: Partition, lay: seq<Region>, markbad: bool, s: WriteState): (t: (Step, WriteState))
    requires StateOk(p, s) && ValidLayout(lay)
    ensures StateOk(p, t.1) && (t.0 != Crashed ==> t.1.off > s.off)
  {
    var q := Target(p, s);
    if !InPartition(p.ebCnt, p.ebSize, q) then (Crashed, s)
    else if PageTakes(p, lay, q) then (Done, Programs(p, lay, s))
    else if PageFails(p, lay, q, markbad) then (Skipped, FailsOver(p, lay, markbad, s))
    else (Crashed, s.(cells := CrashedCells(p, lay, s.cells, q)))
  }

  /** A turn that gives up may have erased the block of its page. */
  function CrashedCells(p: Partition, lay: seq<Region>, cells: seq<Byte>, q: nat): (r: seq<Byte>)
    requires p.ebSize > 0
    ensures |r| == |cells|
  {
    if !Unsaved(lay, p.Start() + q, p.Start() + q + p.minIo) && p.writeFault(q) == Eio then FailedCells(p, cells, q)
      else cells
  }

  lemma NextBlockAligned(p: Partition, q: nat)
    requires p.Geometry()
    ensures Align(q + p.ebSize, p.ebSize) > q && Align(q + p.ebSize, p.ebSize) % p.minIo == 0
  {
    AlignNext(q, p.ebSize);
    NextBlock(q, p.ebSize);
    MultipleAligned(EbIndex(q, p.ebSize) + 1, p.ebSize, p.minIo);
  }

  /** The page that starts at the next good position stays in its block. */
  lemma PlaceForPage(p: Partition, flags: seq<bool>, off: nat)
    requires p.Geometry() && |flags| == p.ebCnt && off % p.minIo == 0
             && EbIndex(Skip(flags, p.ebSize, off), p.ebSize) < p.ebCnt
    ensures Skip(flags, p.ebSize, off) + p.minIo <= p.Size()
            && EbOffset(Skip(flags, p.ebSize, off), p.ebSize) + p.minIo <= p.ebSize
            && (Skip(flags, p.ebSize, off) + p.minIo) % p.minIo == 0
  {
    SkipAligned(flags, p.ebSize, off, p.minIo);
    PageInBlock(Skip(flags, p.ebSize, off), p.ebSize, p.minIo);
    UnitInside(Skip(flags, p.ebSize, off), p.minIo, p.ebSize, p.ebCnt);
  }

  /** The loop: the result, and the state it leaves. */
  function Run(p: Partition, lay: seq<Region>, markbad: bool, s: WriteState): (t: (int, WriteState))
    requires StateOk(p, s) && ValidLayout(lay)
    ensures StateOk(p, t.1) && (t.0 == -1 || t.0 >= p.Start() + s.off)
    decreases p.Size() - s.off
  {
    Inside(s.off, p.ebSize, p.ebCnt);
    if s.rest == [] || !InPartition(p.ebCnt, p.ebSize, s.off) then (s.off + p.Start(), s)
    else
      var t := Turn(p, lay, markbad, s);
      if t.0 == Crashed then (-1, t.1) else Run(p, lay, markbad, t.1)
  }

  // ---------------------------------------------------------------- what every run keeps

  /** Whatever the errors, a write that starts at x leaves the blocks before its start, and those known as bad from the
      start, alone. */
  ghost predicate Spared(bad: seq<bool>, eb: nat, x: nat, cells0: seq<Byte>, cells: seq<Byte>)
    requires eb > 0
  {
    |cells| == |cells0| && forall q :: 0 <= q < |cells0| && (EbIndex(q, eb) < EbIndex(x, eb) || OnBad(bad, eb, q)) ==>
      cells[q] == cells0[q]
  }

  /** One turn changes one block at most, and the map only sets that block to BAD. */
  lemma TurnChanges(p: Partition, lay: seq<Region>, markbad: bool, s: WriteState)
    requires StateOk(p, s) && ValidLayout(lay)
    ensures var s' := Turn(p, lay, markbad, s).1;
            && Sticky(s.es, s'.es) && (InPartition(p.ebCnt, p.ebSize, Target(p, s)) || s'.cells == s.cells)
            && ChangesOnly(p.ebSize, EbIndex(Target(p, s), p.ebSize), s.cells, s'.cells)
  {
    hide EbIndex, EbOffset, EbStart, Overlay, Merged, Unsaved, Skip;
    var q := Target(p, s);
    Inside(q, p.ebSize, p.ebCnt);
    if PageTakes(p, lay, q) && InPartition(p.ebCnt, p.ebSize, q) {
      PlaceForPage(p, Flags(p, s), s.off);
      ProgramsOneBlock(p.ebSize, s.cells, q, Merged(lay, p.Start() + q, NextPage(s, p.minIo)));
    }
  }

  lemma {:induction false} RunSpares(p: Partition, lay: seq<Region>, markbad: bool, s: WriteState, es0: seq<Status>,
                                     cells0: seq<Byte>, x: nat)
    requires StateOk(p, s) && ValidLayout(lay) && |es0| == p.totalEb && Sticky(es0, s.es) && x <= s.off
    requires Spared(BadFlags(es0[..p.ebCnt], p.IsNand()), p.ebSize, x, cells0, s.cells)
    ensures var s' := Run(p, lay, markbad, s).1;
            Sticky(es0, s'.es) && Spared(BadFlags(es0[..p.ebCnt], p.IsNand()), p.ebSize, x, cells0, s'.cells)
    decreases p.Size() - s.off
  {
    hide EbIndex, EbOffset, EbStart, Turn, Spared, Sticky;
    Inside(s.off, p.ebSize, p.ebCnt);
    if s.rest != [] && InPartition(p.ebCnt, p.ebSize, s.off) {
      var t := Turn(p, lay, markbad, s);
      TurnChanges(p, lay, markbad, s);
      TurnSpares(p, es0, s, t.1, x, cells0);
      if t.0 != Crashed { RunSpares(p, lay, markbad, t.1, es0, cells0, x); }
    }
  }

  lemma TurnSpares(p: Partition, es0: seq<Status>, s: WriteState, s': WriteState, x: nat, cells0: seq<Byte>)
    requires StateOk(p, s) && StateOk(p, s') && |es0| == p.totalEb && Sticky(es0, s.es) && Sticky(s.es, s'.es)
             && x <= s.off
    requires Spared(BadFlags(es0[..p.ebCnt], p.IsNand()), p.ebSize, x, cells0, s.cells)
    requires InPartition(p.ebCnt, p.ebSize, Target(p, s)) || s'.cells == s.cells
    requires ChangesOnly(p.ebSize, EbIndex(Target(p, s), p.ebSize), s.cells, s'.cells)
    ensures Sticky(es0, s'.es) && Spared(BadFlags(es0[..p.ebCnt], p.IsNand()), p.ebSize, x, cells0, s'.cells)
  {
    hide EbIndex, EbOffset, EbStart;
    StickyTrans(es0, s.es, s'.es);
    DivMonotone(x, Target(p, s), p.ebSize);
  }

  // ---------------------------------------------------------------- a page that failed once

  /** A turn passes a page over exactly when there is room for it, it can be merged, the device reports EIO, and the
      block can be erased and marked. The page of the next turn, wherever it goes, is then the same page exactly when it
      is a whole one that the merge left as it was, or an empty one. */
  lemma RetriedPage(p: Partition, lay: seq<Region>, markbad: bool, s: WriteState)
    requires StateOk(p, s) && ValidLayout(lay) && s.rest != []
    ensures var q, t := Target(p, s), Turn(p, lay, markbad, s);
            && (t.0 == Skipped <==> InPartition(p.ebCnt, p.ebSize, q) && PageFails(p, lay, q, markbad))
            && (t.0 == Skipped ==>
                  && |t.1.rest| == |s.rest|
                  && (NextPage(t.1, p.minIo) == NextPage(s, p.minIo) <==>
                        if |s.rest| >= p.minIo
                          then Merged(lay, p.Start() + q, NextPage(s, p.minIo)) == NextPage(s, p.minIo)
                        else NextPage(s, p.minIo) == Blank(p.minIo)))
  {
    hide EbIndex, EbOffset, EbStart, Skip, Overlay, Merged, Unsaved;
    var t := Turn(p, lay, markbad, s);
    if t.0 == Skipped && |s.rest| >= p.minIo {
      assert t.1.rest[..p.minIo] == Merged(lay, p.Start() + Target(p, s), s.rest[..p.minIo]);
    }
  }

  // ---------------------------------------------------------------- a run without write errors

  /** No page among the first k bytes of the stream met a reserved region that was never saved. */
  ghost predicate PagesClear(bad: seq<bool>, eb: nat, x: nat, start: nat, lay: seq<Region>, page: nat, k: nat)
    requires eb > 0 && page > 0
  {
    forall j :: 0 <= j < k && j % page == 0 ==> PageClear(bad, eb, x, start, lay, page, j)
  }

  predicate PageClear(bad: seq<bool>, eb: nat, x: nat, start: nat, lay: seq<Region>, page: nat, j: nat)
    requires eb > 0
  {
    !Unsaved(lay, start + Place(bad, eb, x, j), start + Place(bad, eb, x, j) + page)
  }

  lemma ClearNext(bad: seq<bool>, eb: nat, x: nat, start: nat, lay: seq<Region>, page: nat, k: nat)
    requires eb > 0 && page > 0 && k % page == 0 && PagesClear(bad, eb, x, start, lay, page, k)
             && PageClear(bad, eb, x, start, lay, page, k)
    ensures PagesClear(bad, eb, x, start, lay, page, k + page)
  {
    forall j | 0 <= j < k + page && j % page == 0
      ensures PageClear(bad, eb, x, start, lay, page, j)
    {
      if k < j { LessPage(k, j, page); }
    }
  }

  lemma LessPage(k: nat, n: nat, page: nat)
    requires page > 0 && k % page == 0 && n % page == 0 && k < n
    ensures k + page <= n
  {
    var a, b := k / page, n / page;
    assert k == page * a && n == page * b;
    assert page * (b - a) == page * b - page * a;
    MultipleOrder(0, b - a, page);
    MultipleOrder(b - a, 1, page);
  }

  lemma StreamNext(bad: seq<bool>, eb: nat, cnt: nat, x: nat, start: nat, lay: seq<Region>, data: seq<Byte>,
                   cells0: seq<Byte>, cells: seq<Byte>, k: nat, n: nat, merged: seq<Byte>)
    requires eb > 0 && n > 0 && k + n <= |data| && |bad| == cnt && |cells| == EbStart(cnt, eb)
             && forall i :: 0 <= i < |lay| ==> lay[i].Valid()
    requires Written(bad, eb, x, start, lay, data[..k], cells0, cells)
    requires var q := Place(bad, eb, x, k);
             && EbIndex(q, eb) < cnt && EbOffset(q, eb) + n <= eb
             && OverlaidBy(lay, start + q, data[k..k + n], merged)
    ensures var q := Place(bad, eb, x, k);
            && q + n <= |cells| && q + n == After(bad, eb, x, k + n)
            && Written(bad, eb, x, start, lay, data[..k + n], cells0, Programmed(cells, q, merged))
  {
    hide EbIndex, EbOffset, EbStart, After, Skip;
    Joined(data, k, n);
    WrittenMore(bad, eb, x, start, lay, data[..k], data[k..k + n], data[..k + n], merged, cells0, cells);
  }

  lemma Joined(data: seq<Byte>, k: nat, n: nat)
    requires k + n <= |data|
    ensures data[..k + n] == data[..k] + data[k..k + n]
  {}

  /** The bytes of data from byte k on are still waiting. */
  ghost predicate Waiting(data: seq<Byte>, rest: seq<Byte>, k: nat, page: nat)
    requires page > 0
  {
    k % page == 0 && if rest == [] then k == |Padded(data, page)| else k + |rest| == |data| && rest == data[k..]
  }

  lemma WaitingStart(data: seq<Byte>, page: nat)
    requires page > 0
    ensures Waiting(data, data, 0, page)
  {
    if data == [] { WholePages(0, page); }
  }

  lemma WholePages(n: nat, page: nat)
    requires page > 0 && n % page == 0
    ensures PadLength(n, page) == 0
  {
    var q := n / page;
    assert n == page * q;
    assert page * (-q) == -(page * q);
    Remainder(-(n as int), page, -q, 0);
  }

  lemma LastPage(k: nat, n: nat, page: nat)
    requires page > 0 && k % page == 0 && 0 < n < page
    ensures PadLength(k + n, page) == page - n
  {
    var q := k / page;
    assert k == page * q;
    assert page * (-q - 1) == -(page * q) - page;
    Remainder(-(k + n), page, -q - 1, page - n);
  }

  lemma NextPageAligned(k: nat, page: nat)
    requires page > 0 && k % page == 0
    ensures (k + page) % page == 0
  {
    assert page * (k / page + 1) == page * (k / page) + page;
    Remainder(k + page, page, k / page + 1, 0);
  }

  /** A whole page of the waiting bytes is the next page of the padded data. */
  lemma FullPage(data: seq<Byte>, rest: seq<Byte>, k: nat, page: nat)
    requires page > 0 && Waiting(data, rest, k, page) && |rest| >= page
    ensures var d := Padded(data, page); k + page <= |d| && rest[..page] == d[k..k + page]
    ensures Waiting(data, rest[page..], k + page, page)
  {
    var d := Padded(data, page);
    assert d[k..k + page] == d[..|data|][k..k + page];
    NextPageAligned(k, page);
    if |rest| == page { WholePages(k + page, page); }
  }

  /** So is what is left at the end, filled up with 0xff. */
  lemma PartPage(data: seq<Byte>, rest: seq<Byte>, k: nat, page: nat, none: seq<Byte>)
    requires page > 0 && Waiting(data, rest, k, page) && 0 < |rest| < page && none == []
    ensures var d := Padded(data, page);
            && k + page == |d|
            && rest + seq(page - |rest|, i => ERASED_BYTE) == d[k..k + page]
    ensures Waiting(data, none, k + page, page)
  {
    LastPage(k, |rest|, page);
    NextPageAligned(k, page);
  }

  /** Where and how a write ends: everything written, or no room left, which is an error only before the very end, or a
      region that was never saved. */
  ghost predicate WriteEnds(p: Partition, bad: seq<bool>, x: nat, lay: seq<Region>, want: nat, done: nat, r: int)
    requires p.Geometry()
  {
    && done <= want && done % p.minIo == 0 && Fits(bad, p.ebSize, x, done)
    && PagesClear(bad, p.ebSize, x, p.Start(), lay, p.minIo, done)
    && (|| done == want
        || !Fits(bad, p.ebSize, x, done + 1)
        || !PageClear(bad, p.ebSize, x, p.Start(), lay, p.minIo, done))
    && r == if done == want || !InPartition(|bad|, p.ebSize, After(bad, p.ebSize, x, done))
         then p.Start() + After(bad, p.ebSize, x, done) else -1
  }

  ghost predicate NoWriteFaults(p: Partition)
  {
    forall q :: p.writeFault(q) == Fine
  }

  /** What the next page consists of, and what is waiting behind it. */
  lemma PageOfStream(data: seq<Byte>, rest: seq<Byte>, k: nat, minIo: nat, page: seq<Byte>)
    requires minIo > 0 && Waiting(data, rest, k, minIo) && rest != []
    requires page == if |rest| < minIo then rest + Blank(minIo - |rest|) else rest[..minIo]
    ensures k + minIo <= |Padded(data, minIo)| && page == Padded(data, minIo)[k..k + minIo]
    ensures Waiting(data, if |rest| < minIo then [] else rest[minIo..], k + minIo, minIo)
  {
    if |rest| < minIo { PartPage(data, rest, k, minIo, []); } else { FullPage(data, rest, k, minIo); }
  }

  /** The whole effect of an undisturbed write of this stream. */
  ghost predicate WriteResult(p: Partition, bad: seq<bool>, x: nat, lay: seq<Region>, stream: seq<Byte>,
                              cells0: seq<Byte>, cells: seq<Byte>, done: nat, r: int)
    requires p.Geometry() && ValidLayout(lay)
  {
    && WriteEnds(p, bad, x, lay, |stream|, done, r)
    && Written(bad, p.ebSize, x, p.Start(), lay, stream[..done], cells0, cells)
  }

  /** A run without write errors has programmed the first k bytes of data, from x on. */
  ghost predicate Calm(p: Partition, bad: seq<bool>, x: nat, lay: seq<Region>, data: seq<Byte>, cells0: seq<Byte>,
                       s: WriteState, k: nat)
    requires StateOk(p, s) && ValidLayout(lay)
  {
    var stream := Padded(data, p.minIo);
    && bad == Flags(p, s) && !s.lost && Waiting(data, s.rest, k, p.minIo) && k <= |stream|
    && s.off == After(bad, p.ebSize, x, k)
    && Written(bad, p.ebSize, x, p.Start(), lay, stream[..k], cells0, s.cells)
    && PagesClear(bad, p.ebSize, x, p.Start(), lay, p.minIo, k)
  }

  lemma CalmStart(p: Partition, x: nat, lay: seq<Region>, s: WriteState)
    requires StateOk(p, s) && ValidLayout(lay) && !s.lost && s.off == x
    ensures Calm(p, Flags(p, s), x, lay, s.rest, s.cells, s, 0)
  {
    WaitingStart(s.rest, p.minIo);
    WrittenNothing(Flags(p, s), p.ebSize, x, p.Start(), lay, Padded(s.rest, p.minIo)[..0], s.cells);
  }

  lemma MergedOverlaid(lay: seq<Region>, addr: nat, page: seq<Byte>)
    requires ValidLayout(lay)
    ensures OverlaidBy(lay, addr, page, Merged(lay, addr, page))
  {}

  lemma OverlaidMerged(lay: seq<Region>, addr: nat, page: seq<Byte>, merged: seq<Byte>)
    requires ValidLayout(lay) && OverlaidBy(lay, addr, page, merged)
    ensures merged == Merged(lay, addr, page)
  {}

  /** One more page. */
  lemma CalmNext(p: Partition, bad: seq<bool>, x: nat, lay: seq<Region>, data: seq<Byte>, cells0: seq<Byte>,
                 s: WriteState, k: nat)
    requires StateOk(p, s) && ValidLayout(lay) && s.rest != [] && Calm(p, bad, x, lay, data, cells0, s, k)
    requires EbIndex(Target(p, s), p.ebSize) < p.ebCnt && PageTakes(p, lay, Target(p, s))
    ensures Programs(p, lay, s).es == s.es && Calm(p, bad, x, lay, data, cells0, Programs(p, lay, s), k + p.minIo)
  {
    hide EbIndex, EbOffset, EbStart, After, Skip, Padded, Overlay, Merged, Unsaved, Written, PagesClear, OverlaidBy,
         Waiting;
    var q, page, stream := Target(p, s), NextPage(s, p.minIo), Padded(data, p.minIo);
    PlaceForPage(p, bad, s.off);
    PageOfStream(data, s.rest, k, p.minIo, page);
    MergedOverlaid(lay, p.Start() + q, page);
    AtPage(data, s.rest, k, p.minIo);
    ClearNext(bad, p.ebSize, x, p.Start(), lay, p.minIo, k);
    StreamNext(bad, p.ebSize, p.ebCnt, x, p.Start(), lay, stream, cells0, s.cells, k, p.minIo,
               Merged(lay, p.Start() + q, page));
  }

  lemma AtPage(data: seq<Byte>, rest: seq<Byte>, k: nat, page: nat)
    requires page > 0 && Waiting(data, rest, k, page)
    ensures k % page == 0 && (rest == [] ==> k == |Padded(data, page)|) && (rest != [] ==> k < |Padded(data, page)|)
  {}

  /** Where a run without write errors ends. */
  lemma CalmEnds(p: Partition, bad: seq<bool>, x: nat, lay: seq<Region>, data: seq<Byte>, cells0: seq<Byte>,
                 s: WriteState, k: nat, r: int)
    requires StateOk(p, s) && ValidLayout(lay) && Calm(p, bad, x, lay, data, cells0, s, k)
    requires || (s.rest == [] && r == s.off + p.Start())
             || (s.rest != [] && !InPartition(p.ebCnt, p.ebSize, s.off) && r == s.off + p.Start())
             || (s.rest != [] && InPartition(p.ebCnt, p.ebSize, s.off) && r == -1
                 && (!InPartition(p.ebCnt, p.ebSize, Target(p, s))
                     || !PageClear(bad, p.ebSize, x, p.Start(), lay, p.minIo, k)))
    ensures WriteResult(p, bad, x, lay, Padded(data, p.minIo), cells0, s.cells, k, r)
  {
    hide EbIndex, EbOffset, After, Skip, Padded, Written, PagesClear, Unsaved, Waiting;
    AtPage(data, s.rest, k, p.minIo);
    DivMonotone(s.off, Target(p, s), p.ebSize);
    CalmFits(p, bad, x, lay, data, cells0, s, k);
  }

  lemma CalmFits(p: Partition, bad: seq<bool>, x: nat, lay: seq<Region>, data: seq<Byte>, cells0: seq<Byte>,
                 s: WriteState, k: nat)
    requires StateOk(p, s) && ValidLayout(lay) && Calm(p, bad, x, lay, data, cells0, s, k)
    ensures Fits(bad, p.ebSize, x, k) && Target(p, s) == Place(bad, p.ebSize, x, k)
  {
    assert |Padded(data, p.minIo)[..k]| == k;
  }

  /** A whole run without write errors. */
  lemma {:induction false} CalmRun(p: Partition, bad: seq<bool>, x: nat, lay: seq<Region>, markbad: bool,
                                   data: seq<Byte>, cells0: seq<Byte>, s: WriteState, k: nat)
    returns (done: nat)
    requires StateOk(p, s) && ValidLayout(lay) && NoWriteFaults(p) && Calm(p, bad, x, lay, data, cells0, s, k)
    ensures var t := Run(p, lay, markbad, s);
            t.1.es == s.es && WriteResult(p, bad, x, lay, Padded(data, p.minIo), cells0, t.1.cells, done, t.0)
    decreases p.Size() - s.off
  {
    hide EbIndex, EbOffset, EbStart, Calm, WriteResult, Programs, FailsOver, Padded, Unsaved, Skip;
    Inside(s.off, p.ebSize, p.ebCnt);
    var q := Target(p, s);
    CalmTarget(p, bad, x, lay, data, cells0, s, k);
    if s.rest != [] && InPartition(p.ebCnt, p.ebSize, s.off)
      && InPartition(p.ebCnt, p.ebSize, q) && PageTakes(p, lay, q)
    {
      CalmNext(p, bad, x, lay, data, cells0, s, k);
      done := CalmRun(p, bad, x, lay, markbad, data, cells0, Programs(p, lay, s), k + p.minIo);
    } else {
      done := k;
      CalmEnds(p, bad, x, lay, data, cells0, s, k, Run(p, lay, markbad, s).0);
    }
  }

  lemma CalmTarget(p: Partition, bad: seq<bool>, x: nat, lay: seq<Region>, data: seq<Byte>, cells0: seq<Byte>,
                   s: WriteState, k: nat)
    requires StateOk(p, s) && ValidLayout(lay) && Calm(p, bad, x, lay, data, cells0, s, k) && NoWriteFaults(p)
    ensures PageTakes(p, lay, Target(p, s)) <==> PageClear(bad, p.ebSize, x, p.Start(), lay, p.minIo, k)
  {
    CalmFits(p, bad, x, lay, data, cells0, s, k);
  }

  // ---------------------------------------------------------------- mtd_basic_write

  /** One page on the device: on EIO the block is erased, marked bad and left. */
  method WriteDevice(p: Partition, off: nat, page: seq<Byte>, markbad: bool) returns (step: Step)
    requires p.Valid() && p.hasMap && EbIndex(off, p.ebSize) < p.ebCnt && off + |page| <= |p.cells|
    modifies p`cells, p`devBad, p`es, p`badCnt
    ensures p.Valid()
    ensures step == Done <==> p.writeFault(off) == Fine
    ensures step == Skipped <==> DeviceSkips(p, off, markbad)
    ensures p.es == if step == Skipped then MapSet(old(p.es), EbIndex(off, p.ebSize), Bad) else old(p.es)
    ensures p.devBad == if step == Skipped && markbad then old(p.devBad)[EbIndex(off, p.ebSize) := true]
              else old(p.devBad)
    ensures p.cells == match p.writeFault(off)
                       case Fine => Programmed(old(p.cells), off, page)
                       case Eio => FailedCells(p, old(p.cells), off)
                       case Fatal => old(p.cells)
  {
    hide EbIndex, EbOffset;
    var b := EbIndex(off, p.ebSize);
    match p.writeFault(off)
    case Fatal =>
      return Crashed;
    case Eio =>
      match p.eraseFault(b) {
        case Fatal => return Crashed;
        case Eio =>
        case Fine => p.cells := BlankBlock(p.cells, p.ebSize, b);
      }
      if markbad {
        if p.markFails(b) {
          return Crashed;
        }
        p.devBad := p.devBad[b := true];
      }
      p.SetStatus(b, Bad);
      return Skipped;
    case Fine =>
      p.cells := Programmed(p.cells, off, page);
      return Done;
  }

  /** The page to write: from the buffer, or from the pad buffer, filled up with 0xff, when less than a page is left. */
  method PreparePage(w: array<Byte>, pos: nat, len: nat, minIo: nat, pad0: array?<Byte>)
    returns (w': array<Byte>, pos': nat, pad: array?<Byte>)
    requires 0 < len && 0 < minIo && pos + len <= w.Length
    requires pad0 != null ==> pad0.Length == minIo
    modifies pad0
    ensures pos' + minIo <= w'.Length
    ensures pad == pad0 || (pad0 == null && fresh(pad))
    ensures pad != null ==> pad.Length == minIo
    ensures if len < minIo then w' == pad && pos' == 0 else w' == w && pos' == pos && pad == pad0
    ensures w != pad0 || len >= minIo ==> w[..] == old(w[..])
    ensures len < minIo ==> w'[..] == if w == pad0 then Blank(minIo) else old(w[pos..pos + len]) + Blank(minIo - len)
  {
    w', pos', pad := w, pos, pad0;
    if len < minIo {
      if pad == null {
        pad := new Byte[minIo];
      }
      forall i | 0 <= i < minIo {
        pad[i] := ERASED_BYTE;
      }
      forall i | 0 <= i < len {
        pad[i] := w[pos + i];
      }
      w', pos' := pad, 0;
    }
  }

  /** Merge and program one page. */
  method PutPage(p: Partition, lay: seq<Region>, w: array<Byte>, pos: nat, q: nat, markbad: bool) returns (step: Step)
    requires p.Valid() && p.hasMap && ValidLayout(lay) && pos + p.minIo <= w.Length
    requires EbIndex(q, p.ebSize) < p.ebCnt && q + p.minIo <= |p.cells|
    modifies p`cells, p`devBad, p`es, p`badCnt, w
    ensures p.Valid() && w[pos + p.minIo..] == old(w[pos + p.minIo..])
    ensures step == Done <==> PageTakes(p, lay, q)
    ensures step == Skipped <==> PageFails(p, lay, q, markbad)
    ensures step != Crashed ==> w[pos..pos + p.minIo] == Merged(lay, p.Start() + q, old(w[pos..pos + p.minIo]))
    ensures p.es == if step == Skipped then MapSet(old(p.es), EbIndex(q, p.ebSize), Bad) else old(p.es)
    ensures p.devBad == if step == Skipped && markbad then old(p.devBad)[EbIndex(q, p.ebSize) := true]
              else old(p.devBad)
    ensures p.cells == if step == Done
              then Programmed(old(p.cells), q, Merged(lay, p.Start() + q, old(w[pos..pos + p.minIo])))
                       else CrashedCells(p, lay, old(p.cells), q)
  {
    hide EbIndex, Overlay, Merged, Programmed, Unsaved;
    ghost var page: seq<Byte> := w[pos..pos + p.minIo];
    var ok := TraversalMerge(lay, w, pos, q + p.Start(), p.minIo);
    if !ok {
      return Crashed;
    }
    OverlaidMerged(lay, p.Start() + q, page, w[pos..pos + p.minIo]);
    step := WriteDevice(p, q, w[pos..pos + p.minIo], markbad);
  }

  /** The pointers of the loop: the next bytes are w[pos..pos + len]. */
  datatype Source = Source(w: array<Byte>, pos: nat, len: nat, pad: array?<Byte>)

  ghost predicate SourceOk(c: Source, minIo: nat)
  {
    (c.len > 0 ==> c.pos + c.len <= c.w.Length) && (c.pad != null ==> c.pad.Length == minIo)
  }

  /** The bytes still to write are at the pointers, or lost. */
  ghost predicate Stream(c: Source, s: WriteState, minIo: nat)
    reads c.w
    requires SourceOk(c, minIo)
  {
    && c.len == |s.rest|
    && (c.len > 0 ==> if s.lost then c.w == c.pad && c.len < minIo
                      else c.w != c.pad && c.w[c.pos..c.pos + c.len] == s.rest)
  }

  /** The device is in this state. */
  ghost predicate OnDevice(p: Partition, s: WriteState)
    reads p
  {
    p.es == s.es && p.devBad == s.devBad && p.cells == s.cells
  }

  /** What a turn does when there is room for its page. */
  lemma TurnAt(p: Partition, lay: seq<Region>, markbad: bool, s: WriteState)
    requires StateOk(p, s) && ValidLayout(lay) && EbIndex(Target(p, s), p.ebSize) < p.ebCnt
    ensures var q, t, page := Target(p, s), Turn(p, lay, markbad, s), NextPage(s, p.minIo);
            var b := EbIndex(q, p.ebSize);
            && q + p.minIo <= p.Size()
            && (t.0 == Done <==> PageTakes(p, lay, q)) && (t.0 == Skipped <==> PageFails(p, lay, q, markbad))
            && t.1.es == (if t.0 == Skipped then MapSet(s.es, b, Bad) else s.es)
            && t.1.devBad == (if t.0 == Skipped && markbad then s.devBad[b := true] else s.devBad)
            && t.1.cells == (if t.0 == Done then Programmed(s.cells, q, Merged(lay, p.Start() + q, page))
                             else CrashedCells(p, lay, s.cells, q))
            && (t.0 == Done ==> t.1.rest == Behind(s.rest, p.minIo) && !t.1.lost)
            && (t.0 == Skipped && |s.rest| < p.minIo ==> t.1.rest == s.rest && t.1.lost)
            && (t.0 == Skipped && |s.rest| >= p.minIo ==>
                  t.1.rest == Merged(lay, p.Start() + q, page) + s.rest[p.minIo..] && !t.1.lost)
  {
    hide EbIndex, EbOffset, EbStart, Skip, Overlay, Merged, Unsaved, Programmed;
    PlaceForPage(p, Flags(p, s), s.off);
  }

  lemma InFront(all: seq<Byte>, pos: nat, n: nat, len: nat)
    requires n <= len && pos + len <= |all|
    ensures all[pos..pos + n] == all[pos..pos + len][..n]
    ensures all[pos + n..][..len - n] == all[pos..pos + len][n..]
  {}

  /** The next page at w[pos..]; behind a whole one lies what is waiting. */
  method PageAtHand(c: Source, minIo: nat, ghost s: WriteState) returns (w: array<Byte>, pos: nat, pad: array?<Byte>)
    requires minIo > 0 && SourceOk(c, minIo) && c.len > 0 && Stream(c, s, minIo)
    modifies c.pad
    ensures pos + minIo <= w.Length && (pad == c.pad || (c.pad == null && fresh(pad)))
            && (pad != null ==> pad.Length == minIo)
    ensures if c.len < minIo then w == pad && pos == 0 else w == c.w != pad == c.pad && pos == c.pos
    ensures w[pos..pos + minIo] == NextPage(s, minIo)
    ensures c.len >= minIo ==> w[pos + minIo..][..c.len - minIo] == s.rest[minIo..]
  {
    hide Blank;
    ghost var all: seq<Byte> := c.w[..];
    w, pos, pad := PreparePage(c.w, c.pos, c.len, minIo, c.pad);
    if c.len >= minIo {
      InFront(all, c.pos, minIo, c.len);
      assert w[..] == all;
    } else {
      assert w[..] == NextPage(s, minIo);
    }
  }

  /** Prepare, merge and program one page at q; a whole page is merged where it lies, in front of what is waiting. */
  method MergePage(p: Partition, lay: seq<Region>, c: Source, q: nat, markbad: bool, ghost s: WriteState)
    returns (step: Step, w: array<Byte>, pos: nat, pad: array?<Byte>)
    requires p.Valid() && p.hasMap && ValidLayout(lay) && SourceOk(c, p.minIo) && c.len > 0
    requires StateOk(p, s) && OnDevice(p, s) && Stream(c, s, p.minIo)
    requires q == Target(p, s) && EbIndex(q, p.ebSize) < p.ebCnt
    modifies p`cells, p`devBad, p`es, p`badCnt, c.w, c.pad
    ensures p.Valid() && step == Turn(p, lay, markbad, s).0 && OnDevice(p, Turn(p, lay, markbad, s).1)
    ensures pos + p.minIo <= w.Length && (pad == c.pad || (c.pad == null && fresh(pad)))
            && (pad != null ==> pad.Length == p.minIo)
    ensures if c.len < p.minIo then w == pad && pos == 0 else w == c.w != pad == c.pad && pos == c.pos
    ensures c.len >= p.minIo ==> w[pos + p.minIo..][..c.len - p.minIo] == s.rest[p.minIo..]
    ensures step != Crashed ==> w[pos..pos + p.minIo] == Merged(lay, p.Start() + q, NextPage(s, p.minIo))
  {
    hide EbIndex, EbOffset, EbStart, CountBad, Overlay, Merged, Programmed, Unsaved, ValidLayout, Blank, BlankBlock,
         Turn, Skip, CrashedCells, PageTakes, PageFails, Target;
    TurnAt(p, lay, markbad, s);
    w, pos, pad := PageAtHand(c, p.minIo, s);
    step := PutPage(p, lay, w, pos, q, markbad);
  }

  /** What is waiting behind a turn, when a whole page was merged where it lay. */
  lemma RestOfTurn(p: Partition, lay: seq<Region>, markbad: bool, s: WriteState, now: seq<Byte>)
    requires StateOk(p, s) && ValidLayout(lay) && EbIndex(Target(p, s), p.ebSize) < p.ebCnt && s.rest != []
    requires Turn(p, lay, markbad, s).0 != Crashed && |s.rest| >= p.minIo ==>
               now == Merged(lay, p.Start() + Target(p, s), NextPage(s, p.minIo)) + s.rest[p.minIo..]
    ensures var t, n := Turn(p, lay, markbad, s), |s.rest|;
            && (t.0 == Done ==> !t.1.lost && t.1.rest == if n > p.minIo then now[p.minIo..] else [])
            && (t.0 == Skipped ==> |t.1.rest| == n && t.1.lost == (n < p.minIo) && (n >= p.minIo ==> t.1.rest == now))
  {
    hide EbIndex, EbOffset, EbStart, Skip, Overlay, Merged, Turn;
    TurnAt(p, lay, markbad, s);
  }

  /** The pointers behind a page that was programmed. */
  function Advanced(c: Source, minIo: nat): Source
  {
    c.(pos := c.pos + minIo, len := if c.len > minIo then c.len - minIo else 0)
  }

  lemma AdvancedStream(c: Source, s': WriteState, now: seq<Byte>, minIo: nat)
    requires minIo > 0 && c.len > 0 && (c.pad != null ==> c.pad.Length == minIo)
    requires c.len >= minIo ==> c.pos + c.len <= c.w.Length && c.w != c.pad && c.w[c.pos..c.pos + c.len] == now
    requires !s'.lost && s'.rest == if c.len > minIo then now[minIo..] else []
    ensures SourceOk(Advanced(c, minIo), minIo) && Stream(Advanced(c, minIo), s', minIo)
  {
    if c.len > minIo {
      assert c.w[c.pos + minIo..c.pos + c.len] == now[minIo..];
    }
  }

  lemma Rejoined(w: array<Byte>, pos: nat, n: nat, len: nat)
    requires n <= len && pos + len <= w.Length
    ensures w[pos..pos + len] == w[pos..pos + n] + w[pos + n..][..len - n]
  {}

  /** One page, and the pointers advanced; on a write error they stay. */
  method WritePage(p: Partition, lay: seq<Region>, c: Source, q: nat, markbad: bool, ghost s: WriteState)
    returns (step: Step, c': Source)
    requires p.Valid() && p.hasMap && ValidLayout(lay) && SourceOk(c, p.minIo) && c.len > 0
    requires StateOk(p, s) && OnDevice(p, s) && Stream(c, s, p.minIo)
    requires q == Target(p, s) && EbIndex(q, p.ebSize) < p.ebCnt
    modifies p`cells, p`devBad, p`es, p`badCnt, c.w, c.pad
    ensures p.Valid() && SourceOk(c', p.minIo)
    ensures (c'.w == c.w || c'.w == c'.pad) && (c'.pad == c.pad || (c.pad == null && fresh(c'.pad)))
    ensures var t := Turn(p, lay, markbad, s);
            step == t.0 && OnDevice(p, t.1) && (step != Crashed ==> Stream(c', t.1, p.minIo))
  {
    hide EbIndex, EbOffset, EbStart, CountBad, Overlay, Merged, Unsaved, ValidLayout, Blank, Turn, Skip, NextPage,
         Target, OnDevice;
    var w, pos, pad;
    step, w, pos, pad := MergePage(p, lay, c, q, markbad, s);
    ghost var now: seq<Byte> := [];
    if c.len >= p.minIo {
      Rejoined(w, pos, p.minIo, c.len);
      now := w[pos..pos + c.len];
    }
    RestOfTurn(p, lay, markbad, s, now);
    c' := Source(w, pos, c.len, pad);
    if step == Done {
      AdvancedStream(c', Turn(p, lay, markbad, s).1, now, p.minIo);
      c' := Advanced(c', p.minIo);
    }
  }

  /** One turn: past bad blocks to the next page, and write it. */
  method WriteTurn(p: Partition, lay: seq<Region>, c: Source, off: nat, blockstart: int, markbad: bool,
                   ghost s: WriteState)
    returns (step: Step, c': Source, off': nat, blockstart': int)
    requires p.Valid() && p.hasMap && ValidLayout(lay) && SourceOk(c, p.minIo) && c.len > 0
             && InPartition(p.ebCnt, p.ebSize, off)
    requires StateOk(p, s) && OnDevice(p, s) && Stream(c, s, p.minIo) && AtCursor(p, s, off, blockstart)
    modifies p`cells, p`devBad, p`es, p`badCnt, c.w, c.pad
    ensures p.Valid() && SourceOk(c', p.minIo)
    ensures (c'.w == c.w || c'.w == c'.pad) && (c'.pad == c.pad || (c.pad == null && fresh(c'.pad)))
    ensures var t := Turn(p, lay, markbad, s);
            && step == t.0 && OnDevice(p, t.1)
            && (step != Crashed ==> Stream(c', t.1, p.minIo) && AtCursor(p, t.1, off', blockstart'))
  {
    hide EbIndex, EbOffset, EbStart, CountBad, Overlay, Merged, Programmed, Unsaved, ValidLayout, BlankBlock, Skip,
         Stream;
    var ok;
    ok, off', blockstart' := SeekGood(p.es[..p.ebCnt], p.IsNand(), p.ebSize, off, blockstart);
    c' := c;
    if !ok {
      return Crashed, c', off', blockstart';
    }
    var q := off';
    step, c' := WritePage(p, lay, c, q, markbad, s);
    CursorMoves(p, lay, markbad, s);
    blockstart' := Align(q, p.ebSize);
    if step == Done {
      off' := q + p.minIo;
    } else if step == Skipped {
      off' := Align(q + p.ebSize, p.ebSize);
    }
  }

  /** The cursor of the loop, and the block it looked at last, which is a good one. */
  ghost predicate AtCursor(p: Partition, s: WriteState, off: nat, blockstart: int)
    requires StateOk(p, s)
  {
    off == s.off && (blockstart == Align(off, p.ebSize) ==> !OnBad(Flags(p, s), p.ebSize, off))
  }

  lemma CursorMoves(p: Partition, lay: seq<Region>, markbad: bool, s: WriteState)
    requires StateOk(p, s) && ValidLayout(lay)
    ensures var q, t := Target(p, s), Turn(p, lay, markbad, s);
            && (t.0 == Done ==> AtCursor(p, t.1, q + p.minIo, Align(q, p.ebSize)))
            && (t.0 == Skipped ==> AtCursor(p, t.1, Align(q + p.ebSize, p.ebSize), Align(q, p.ebSize)))
  {
    hide EbIndex, EbOffset, EbStart, Overlay, Merged, Programmed, Unsaved, BlankBlock;
    var q, t := Target(p, s), Turn(p, lay, markbad, s);
    if t.0 == Done {
      PlaceForPage(p, Flags(p, s), s.off);
      NextStart(Flags(p, s), p.ebSize, q, p.minIo);
    } else {
      AlignNext(q, p.ebSize);
      NextBlock(q, p.ebSize);
      AlignSame(q, Align(q + p.ebSize, p.ebSize), p.ebSize);
      assert Align(Align(q + p.ebSize, p.ebSize), p.ebSize) == Align(q + p.ebSize, p.ebSize);
    }
  }

  /** The loop leaves what Run says. */
  method WriteLoop(p: Partition, lay: seq<Region>, buf: array<Byte>, length: nat, x: nat, markbad: bool,
                   ghost start: WriteState)
    returns (r: int)
    requires p.Valid() && p.hasMap && ValidLayout(lay) && length <= buf.Length && x % p.minIo == 0
    requires start == WriteState(p.es, p.devBad, p.cells, x, buf[..length], false)
    modifies p`cells, p`devBad, p`es, p`badCnt, buf
    ensures p.Valid() && r == Run(p, lay, markbad, start).0 && OnDevice(p, Run(p, lay, markbad, start).1)
  {
    hide EbIndex, EbOffset, EbStart, CountBad, ValidLayout, Turn;
    var c := Source(buf, 0, length, null);
    var off, blockstart: int := x, -1;
    ghost var s := start;
    assert c.len > 0 ==> buf[0..0 + c.len] == s.rest;
    while c.len > 0 && InPartition(p.ebCnt, p.ebSize, off)
      invariant p.Valid() && p.hasMap && SourceOk(c, p.minIo)
      invariant (c.w == buf || c.w == c.pad) && (c.pad == null || fresh(c.pad))
      invariant StateOk(p, s) && OnDevice(p, s) && Stream(c, s, p.minIo) && AtCursor(p, s, off, blockstart)
      invariant Run(p, lay, markbad, s) == Run(p, lay, markbad, start)
      decreases p.Size() - off
    {
      Inside(off, p.ebSize, p.ebCnt);
      var step;
      ghost var t := Turn(p, lay, markbad, s);
      step, c, off, blockstart := WriteTurn(p, lay, c, off, blockstart, markbad, s);
      if step == Crashed {
        return -1;
      }
      s := t.1;
    }
    r := off + p.Start();
  }

  /** The requests that are refused before anything is written. */
  predicate WriteRefused(p: Partition, offset: int, length: nat, pad: bool)
    reads p
    requires p.minIo > 0
  {
    || offset < p.Start()
    || (offset - p.Start()) % p.minIo != 0
    || (!pad && length % p.minIo != 0)
    || length / p.minIo * p.minIo > p.Size() - (offset - p.Start())
    || !p.hasMap
  }

  /** The refused requests in bytes, pages being the number of whole ones: a start in front of the partition or inside a
      page, a part of a page that may not be padded, more whole pages than there is room behind the start, or no map. */
  lemma WriteRefusedIs(p: Partition, offset: int, length: nat, pad: bool, pages: nat)
    requires p.Geometry() && pages * p.minIo <= length < (pages + 1) * p.minIo
    ensures WriteRefused(p, offset, length, pad) <==>
            || offset < p.startEb * p.ebSize
            || (offset - p.startEb * p.ebSize) % p.minIo != 0
            || (!pad && length != pages * p.minIo)
            || offset + pages * p.minIo > (p.startEb + p.ebCnt) * p.ebSize
            || !p.hasMap
  {
    hide EbIndex, EbOffset, EbStart;
    Quotient(pages, p.minIo, length - pages * p.minIo);
    EbIsDivision(0, p.startEb, p.ebSize);
    EbIsDivision(0, p.ebCnt, p.ebSize);
    assert (p.startEb + p.ebCnt) * p.ebSize == p.startEb * p.ebSize + p.ebCnt * p.ebSize;
  }

  /** The state in which the loop of a request starts. */
  function WriteStart(p: Partition, x: nat, data: seq<Byte>): WriteState
    reads p
  {
    WriteState(p.es, p.devBad, p.cells, x, data, false)
  }

  /** mtd_basic_write without OOB data: with whatever errors, result, map, bad marks and cells are those of Run. Without
      write errors done counts the bytes of the padded stream that were written. */
  method Write(s: SysinfoManager, offset: int, length: nat, buf: array<Byte>, pad: bool, markbad: bool)
    returns (r: int, ghost done: nat)
    requires s.Valid() && length <= buf.Length
    modifies s.part, buf
    ensures s.Valid() && s.part.hasMap == old(s.part.hasMap) && Sticky(old(s.part.Map()), s.part.Map())
    ensures old(WriteRefused(s.part, offset, length, pad)) ==>
              && r == -1 && s.part.cells == old(s.part.cells) && buf[..] == old(buf[..])
              && s.part.es == old(s.part.es) && s.part.devBad == old(s.part.devBad)
    ensures !old(WriteRefused(s.part, offset, length, pad)) ==>
              var start := old(WriteStart(s.part, offset - s.part.Start(), buf[..length]));
              && r == Run(s.part, s.layout, markbad, start).0 && (r == -1 || r >= offset)
              && OnDevice(s.part, Run(s.part, s.layout, markbad, start).1)
              && Spared(old(s.part.RelBad()), s.part.ebSize, offset - s.part.Start(), old(s.part.cells), s.part.cells)
    ensures !old(WriteRefused(s.part, offset, length, pad)) && NoWriteFaults(s.part) ==>
              var data := Padded(old(buf[..length]), s.part.minIo);
              var x := offset - s.part.Start();
              && s.part.es == old(s.part.es)
              && WriteResult(s.part, old(s.part.RelBad()), x, s.layout, data, old(s.part.cells), s.part.cells, done, r)
  {
    hide EbIndex, EbOffset, Padded, Written, WriteEnds, CountBad, ValidLayout, BadFlags, Run, Calm;
    var p := s.part;
    done := 0;
    var off := offset - p.Start();
    if off < 0 {
      return -1, 0;
    }
    if off % p.minIo != 0 {
      return -1, 0;
    }
    if !pad && length % p.minIo != 0 {
      return -1, 0;
    }
    if length / p.minIo * p.minIo > p.Size() - off {
      return -1, 0;
    }
    if !p.hasMap {
      return -1, 0;
    }
    ghost var start := WriteStart(p, off, buf[..length]);
    r := WriteLoop(p, s.layout, buf, length, off, markbad, start);
    RunSpares(p, s.layout, markbad, start, start.es, start.cells, off);
    if NoWriteFaults(p) {
      CalmStart(p, off, s.layout, start);
      done := CalmRun(p, Flags(p, start), off, s.layout, markbad, start.rest, start.cells, start, 0);
    }
  }
}
