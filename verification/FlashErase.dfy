/** base.c, mtd_basic_erase: erases good blocks from the start of the partition and saves the reserved regions it
    meets. */
module FlashErase {
  import opened Wrappers
  import opened WordArith
  import opened Division
  import opened Placement
  import opened Mtd
  import opened Sysinfo

  // ---------------------------------------------------------------- sysinfo_traversal_save

  /** The region's block, counted from the start of the partition. */
  function BlockIndex(p: Partition, l: Region): nat
    requires p.ebSize > 0 && p.Start() <= l.offset
  {
    EbIndex(l.offset - p.Start(), p.ebSize)
  }

  ghost predicate RegionsReady(p: Partition, es: seq<Status>, lay: seq<Region>)
    requires p.Geometry() && |es| == p.totalEb
  {
    forall i :: 0 <= i < |lay| && lay[i].reserve == Reserved && InPartitionOf(p, lay[i]) ==> ReadyIn(p, es, lay[i])
  }

  predicate Touched(l: Region, start: int, end: int)
  {
    l.reserve == Reserved && Overlaps(l, start, end)
  }

  /** Region l became l' by a save when cells were on the flash. */
  ghost predicate SavedAs(cells: seq<Byte>, from: int, l: Region, l': Region)
  {
    l'.value.Some? && l' == l.(value := l'.value) && IsContents(cells, from, l'.value.value)
        && |l'.value.value| == l.length
  }

  /** Only values may differ. */
  ghost predicate SameShape(lay: seq<Region>, lay': seq<Region>)
  {
    |lay| == |lay'| && forall i :: 0 <= i < |lay| ==> lay'[i] == lay[i].(value := lay'[i].value)
  }

  /** Touched regions were saved, the others are as before. */
  ghost predicate Saved(cells: seq<Byte>, start: int, lay: seq<Region>, lay': seq<Region>, from: int, to: int)
  {
    && |lay| == |lay'|
    && forall i :: 0 <= i < |lay| ==>
         if Touched(lay[i], from, to) then SavedAs(cells, lay[i].offset - start, lay[i], lay'[i]) else lay'[i] == lay[i]
  }

  /** What a save does to one region, as far as the later ones are concerned. */
  lemma SavedNext(cells: seq<Byte>, start: int, lay: seq<Region>, cur: seq<Region>, i: nat, from: int, to: int,
                  l': Region)
    requires i < |lay| == |cur| && Saved(cells, start, lay[..i], cur[..i], from, to) && cur[i..] == lay[i..]
    requires if Touched(lay[i], from, to) then SavedAs(cells, lay[i].offset - start, lay[i], l') else l' == lay[i]
    ensures Saved(cells, start, lay[..i + 1], cur[i := l'][..i + 1], from, to)
  {
    var now := cur[i := l'];
    forall j | 0 <= j < i
      ensures lay[..i + 1][j] == lay[..i][j] && now[..i + 1][j] == cur[..i][j]
    {}
    assert lay[..i + 1][i] == lay[i] && now[..i + 1][i] == l';
  }

  /** Regions that meet a range of the partition lie in the partition. */
  lemma TouchedInside(p: Partition, l: Region, from: int, to: int)
    requires p.Geometry() && InOneBlock(p, l) && l.Valid() && Overlaps(l, from, to)
             && p.Start() <= from <= to <= p.Start() + p.Size()
    ensures InPartitionOf(p, l)
  {}

  /** The save loop over the regions. */
  method SaveRegions(p: Partition, lay: seq<Region>, from: nat, to: nat)
    returns (ok: bool, failed: bool, cur: seq<Region>)
    requires p.Valid() && p.Start() <= from <= to <= p.Start() + p.Size()
    requires forall i :: 0 <= i < |lay| ==> lay[i].Valid() && InOneBlock(p, lay[i])
    modifies p`hasMap, p`es, p`badCnt
    ensures p.Valid() && Sticky(old(p.Map()), p.Map()) && (old(p.hasMap) ==> p.hasMap)
    ensures failed ==> !ok && HasReadFault(p)
    ensures SameShape(lay, cur) && forall i :: 0 <= i < |cur| ==> cur[i].Valid()
    ensures !failed && old(p.hasMap && RegionsReady(p, p.es, lay)) ==>
              ok && p.es == old(p.es) && Saved(p.cells, p.Start(), lay, cur, from, to)
  {
    hide EbIndex, EbOffset, EbStart, CountBad;
    ghost var calm, es, m := p.hasMap && RegionsReady(p, p.es, lay), p.es, p.Map();
    cur, failed := lay, false;
    var i := 0;
    while i < |lay|
      invariant 0 <= i <= |lay| == |cur| && p.Valid() && !failed
      invariant Sticky(m, p.Map()) && (old(p.hasMap) ==> p.hasMap)
      invariant SameShape(lay, cur) && cur[i..] == lay[i..] && forall i :: 0 <= i < |cur| ==> cur[i].Valid()
      invariant calm ==> p.hasMap && p.es == es && Saved(p.cells, p.Start(), lay[..i], cur[..i], from, to)
    {
      var l := lay[i];
      if Overlaps(l, from, to) && l.reserve == Reserved {
        TouchedInside(p, l, from, to);
        ghost var mid := p.Map();
        var value;
        ok, failed, value := FetchRegion(p, l);
        StickyTrans(m, mid, p.Map());
        if calm && !failed { SavedNext(p.cells, p.Start(), lay, cur, i, from, to, l.(value := Some(value))); }
        cur := cur[i := l.(value := Some(value))];
        if !ok {
          return;
        }
      } else if calm {
        SavedNext(p.cells, p.Start(), lay, cur, i, from, to, l);
        assert cur[i := l] == cur;
      }
      i := i + 1;
    }
    assert lay[..i] == lay && cur[..i] == cur;
    ok := true;
  }

  /** sysinfo_traversal_save for a range inside the partition. */
  method TraversalSave(s: SysinfoManager, offset: nat, length: nat) returns (ok: bool, failed: bool)
    requires s.Valid() && s.part.Start() <= offset && offset + length <= s.part.Start() + s.part.Size()
    modifies s, s.part`hasMap, s.part`es, s.part`badCnt
    ensures s.Valid() && Sticky(old(s.part.Map()), s.part.Map()) && (old(s.part.hasMap) ==> s.part.hasMap)
    ensures failed ==> !ok && HasReadFault(s.part)
    ensures SameShape(old(s.layout), s.layout)
    ensures !failed && old(s.part.hasMap && RegionsReady(s.part, s.part.es, s.layout)) ==>
              && ok && s.part.es == old(s.part.es)
              && Saved(s.part.cells, s.part.Start(), old(s.layout), s.layout, offset, offset + length)
  {
    hide EbIndex, EbOffset, EbStart, CountBad;
    var last := s.layout[|s.layout| - 1];
    if offset > last.offset + last.length {
      return true, false;
    }
    var lay;
    ok, failed, lay := SaveRegions(s.part, s.layout, offset, offset + length);
    s.layout := lay;
  }

  // ---------------------------------------------------------------- what an erase does

  function BlankBlock(cells: seq<Byte>, eb: nat, b: nat): (r: seq<Byte>)
    requires eb > 0
    ensures |r| == |cells|
  {
    seq(|cells|, q requires 0 <= q < |cells| => if EbIndex(q, eb) == b then ERASED_BYTE else cells[q])
  }

  /** The good blocks among the first n are blank. */
  function Blanked(cells: seq<Byte>, eb: nat, bad: seq<bool>, n: nat): (r: seq<Byte>)
    requires eb > 0 && n <= |bad|
    ensures |r| == |cells|
  {
    if n == 0 then cells
    else if bad[n - 1] then Blanked(cells, eb, bad, n - 1)
    else BlankBlock(Blanked(cells, eb, bad, n - 1), eb, n - 1)
  }

  lemma {:induction false} BlankedAt(cells: seq<Byte>, eb: nat, bad: seq<bool>, n: nat, q: nat)
    requires eb > 0 && n <= |bad| && q < |cells|
    ensures Blanked(cells, eb, bad, n)[q] == if EbIndex(q, eb) < n && !bad[EbIndex(q, eb)] then ERASED_BYTE
              else cells[q]
  {
    if n > 0 { BlankedAt(cells, eb, bad, n - 1, q); }
  }

  /** The map after the good blocks among the first n were erased. */
  function ErasedMap(es: seq<Status>, startEb: nat, bad: seq<bool>, n: nat): (r: seq<Status>)
    requires n <= |bad| && startEb + |bad| <= |es|
    ensures |r| == |es|
  {
    if n == 0 then es
    else if bad[n - 1] then ErasedMap(es, startEb, bad, n - 1)
    else MapSet(ErasedMap(es, startEb, bad, n - 1), startEb + n - 1, Erased)
  }

  /** Erasing never changes which entries are BAD or untouched. */
  lemma {:induction false} ErasedMapAt(es: seq<Status>, startEb: nat, bad: seq<bool>, n: nat, j: nat)
    requires n <= |bad| && startEb + |bad| <= |es| && j < |es|
    ensures ErasedMap(es, startEb, bad, n)[j]
            == if startEb <= j < startEb + n && !bad[j - startEb] && es[j] != Bad then Erased else es[j]
  {
    if n > 0 { ErasedMapAt(es, startEb, bad, n - 1, j); }
  }

  /** Every reserved region of the partition in the first n blocks was saved, the others are as before. */
  ghost predicate SavedUpTo(p: Partition, cells: seq<Byte>, lay: seq<Region>, lay': seq<Region>, n: nat)
    requires p.ebSize > 0
  {
    && |lay| == |lay'|
    && forall i :: 0 <= i < |lay| ==>
         if lay[i].reserve == Reserved && InPartitionOf(p, lay[i]) && BlockIndex(p, lay[i]) < n
         then SavedAs(cells, lay[i].offset - p.Start(), lay[i], lay'[i]) else lay'[i] == lay[i]
  }

  /** A region meets the range of a block exactly when it lies in that block. */
  lemma MeetsBlock(p: Partition, l: Region, b: nat)
    requires p.Geometry() && l.Valid() && InOneBlock(p, l) && b < p.ebCnt
    ensures var from := p.Start() + EbStart(b, p.ebSize);
            && p.Start() <= from && from + p.ebSize <= p.Start() + p.Size()
            && (Overlaps(l, from, from + p.ebSize) <==> InPartitionOf(p, l) && BlockIndex(p, l) == b)
  {
    var eb := p.ebSize;
    DivMod(b, eb, 0);
    UnitInside(EbStart(b, eb), eb, eb, p.ebCnt);
    if p.Start() <= l.offset {
      var x := l.offset - p.Start();
      Split(x, eb);
      StartOrder(EbIndex(x, eb), b, eb);
      StartOrder(b, EbIndex(x, eb), eb);
      Inside(x, eb, p.ebCnt);
    }
  }

  /** Blocks erased so far do not touch the bytes of a region in block n. */
  lemma ContentsKept(p: Partition, cells: seq<Byte>, bad: seq<bool>, n: nat, l: Region, value: seq<Byte>)
    requires p.Geometry() && l.Valid() && InOneBlock(p, l) && InPartitionOf(p, l) && BlockIndex(p, l) == n <= |bad|
    requires |value| == l.length && IsContents(Blanked(cells, p.ebSize, bad, n), l.offset - p.Start(), value)
    ensures IsContents(cells, l.offset - p.Start(), value)
  {
    var x := l.offset - p.Start();
    forall k | 0 <= k < |value|
      ensures value[k] == cells[x + k]
    {
      SameBlock(x, k, p.ebSize);
      BlankedAt(cells, p.ebSize, bad, n, x + k);
    }
  }

  lemma SavedBlock(p: Partition, cells: seq<Byte>, bad: seq<bool>, n: nat, lay: seq<Region>, cur: seq<Region>,
                   lay': seq<Region>)
    requires p.Geometry() && n < |bad| == p.ebCnt
    requires forall i :: 0 <= i < |lay| ==> lay[i].Valid() && InOneBlock(p, lay[i])
    requires SavedUpTo(p, cells, lay, cur, n) && SameShape(lay, cur)
    requires Saved(Blanked(cells, p.ebSize, bad, n), p.Start(), cur, lay', p.Start() + EbStart(n, p.ebSize),
                   p.Start() + EbStart(n, p.ebSize) + p.ebSize)
    ensures SavedUpTo(p, cells, lay, lay', n + 1)
  {
    forall i | 0 <= i < |lay|
      ensures if lay[i].reserve == Reserved && InPartitionOf(p, lay[i]) && BlockIndex(p, lay[i]) < n + 1
              then SavedAs(cells, lay[i].offset - p.Start(), lay[i], lay'[i]) else lay'[i] == lay[i]
    {
      MeetsBlock(p, lay[i], n);
      if lay[i].reserve == Reserved && InPartitionOf(p, lay[i]) && BlockIndex(p, lay[i]) == n {
        ContentsKept(p, cells, bad, n, lay[i], lay'[i].value.value);
      }
    }
  }

  // ---------------------------------------------------------------- mtd_basic_erase

  datatype Step = Done | Skipped | Crashed

  ghost predicate Quiet(p: Partition)
  {
    !HasReadFault(p) && forall q :: p.eraseFault(q) == Fine && p.writeFault(q) == Fine
  }

  /** A block that is not BAD afterwards is blank. */
  ghost predicate BadOrBlank(es: seq<Status>, startEb: nat, eb: nat, cells: seq<Byte>, n: nat)
    requires eb > 0
  {
    forall q :: 0 <= q < |cells| && EbIndex(q, eb) < n ==>
      (startEb + EbIndex(q, eb) < |es| && es[startEb + EbIndex(q, eb)] != Bad ==> cells[q] == ERASED_BYTE)
  }

  ghost predicate Untouched(eb: nat, cells: seq<Byte>, cells': seq<Byte>, n: nat)
    requires eb > 0
  {
    |cells| == |cells'| && forall q :: 0 <= q < |cells| && EbIndex(q, eb) >= n ==> cells'[q] == cells[q]
  }

  /** One good block: save the reserved regions in it, erase it, and mark it; a block that fails is marked bad and
      left. */
  method EraseBlock(s: SysinfoManager, b: nat) returns (step: Step)
    requires s.Valid() && s.part.hasMap && b < s.part.ebCnt
    modifies s, s.part
    ensures s.Valid() && s.part.hasMap && Sticky(old(s.part.es), s.part.es) && SameShape(old(s.layout), s.layout)
    ensures s.part.cells == if step == Done then BlankBlock(old(s.part.cells), s.part.ebSize, b) else old(s.part.cells)
    ensures step == Skipped ==> s.part.es[s.part.startEb + b] == Bad
    ensures Quiet(s.part) && RegionsReady(s.part, old(s.part.es), old(s.layout)) ==>
              && step == Done
              && s.part.es == MapSet(old(s.part.es), s.part.startEb + b, Erased)
              && Saved(old(s.part.cells), s.part.Start(), old(s.layout), s.layout,
                       s.part.Start() + EbStart(b, s.part.ebSize),
                       s.part.Start() + EbStart(b, s.part.ebSize) + s.part.ebSize)
  {
    hide EbIndex, EbOffset, CountBad;
    var p := s.part;
    DivMod(b, p.ebSize, 0);
    UnitInside(EbStart(b, p.ebSize), p.ebSize, p.ebSize, p.ebCnt);
    ghost var es := p.es;
    var ok, failed := TraversalSave(s, EbStart(b, p.ebSize) + p.Start(), p.ebSize);
    if !ok {
      return Crashed;
    }
    step := EraseDevice(p, b);
  }

  method EraseDevice(p: Partition, b: nat) returns (step: Step)
    requires p.Valid() && p.hasMap && b < p.ebCnt
    modifies p`cells, p`devBad, p`es, p`badCnt
    ensures p.Valid() && Sticky(old(p.es), p.es)
    ensures p.cells == if step == Done then BlankBlock(old(p.cells), p.ebSize, b) else old(p.cells)
    ensures step == Skipped ==> p.es[p.startEb + b] == Bad
    ensures p.eraseFault(b) == Fine ==> step == Done && p.es == MapSet(old(p.es), p.startEb + b, Erased)
  {
    match p.eraseFault(b)
    case Fatal =>
      return Crashed;
    case Eio =>
      if p.markFails(b) {
        return Crashed;
      }
      p.devBad := p.devBad[b := true];
      p.SetStatus(p.startEb + b, Bad);
      return Skipped;
    case Fine =>
      p.cells := BlankBlock(p.cells, p.ebSize, b);
      p.SetStatus(p.startEb + b, Erased);
      return Done;
  }

  /** What an erase reads and changes: the regions, the block map and the cells. */
  datatype Flash = Flash(lay: seq<Region>, es: seq<Status>, cells: seq<Byte>)

  function Snapshot(s: SysinfoManager): (f: Flash)
    reads s, s.part
    requires s.part.Valid()
    ensures |f.es| == s.part.totalEb && |f.cells| == s.part.Size()
  {
    Flash(s.layout, s.part.Map(), s.part.cells)
  }

  /** What an undisturbed erase has done before block n: was became now. */
  ghost predicate Erasing(p: Partition, bad: seq<bool>, was: Flash, now: Flash, n: nat)
    requires p.Geometry() && |was.es| == p.totalEb && |bad| == p.ebCnt
  {
    && n <= |bad|
    && now.es == ErasedMap(was.es, p.startEb, bad, n)
    && now.cells == Blanked(was.cells, p.ebSize, bad, n)
    && SavedUpTo(p, was.cells, was.lay, now.lay, n) && SameShape(was.lay, now.lay)
  }

  lemma NothingErased(p: Partition, bad: seq<bool>, f: Flash)
    requires p.Geometry() && |f.es| == p.totalEb && |bad| == p.ebCnt
    ensures Erasing(p, bad, f, f, 0)
  {}

  /** Erasing other blocks leaves a good region's block good. */
  lemma ReadyKept(p: Partition, bad: seq<bool>, lay0: seq<Region>, es0: seq<Status>, lay: seq<Region>, n: nat)
    requires p.Geometry() && |es0| == p.totalEb && |bad| == p.ebCnt && n <= |bad| && SameShape(lay0, lay)
    requires RegionsReady(p, es0, lay0)
    ensures RegionsReady(p, ErasedMap(es0, p.startEb, bad, n), lay)
  {
    forall i | 0 <= i < |lay| && lay[i].reserve == Reserved && InPartitionOf(p, lay[i])
      ensures ReadyIn(p, ErasedMap(es0, p.startEb, bad, n), lay[i])
    {
      assert ReadyIn(p, es0, lay0[i]);
      var b := BlockIndex(p, lay[i]);
      ErasedMapAt(es0, p.startEb, bad, n, p.startEb + b);
      ErasedMapAt(es0, p.startEb, bad, n, b);
    }
  }

  /** A block that is skipped holds no reserved region. */
  lemma SkipNextBlock(p: Partition, bad: seq<bool>, was: Flash, now: Flash, n: nat)
    requires p.Geometry() && |was.es| == p.totalEb && |bad| == p.ebCnt && n < |bad|
    requires Erasing(p, bad, was, now, n) && RegionsReady(p, was.es, was.lay)
    requires bad[n] && was.es[p.startEb + n] == Bad
    ensures Erasing(p, bad, was, now, n + 1)
  {
    forall i | 0 <= i < |was.lay| && was.lay[i].reserve == Reserved && InPartitionOf(p, was.lay[i])
      ensures BlockIndex(p, was.lay[i]) != n
    {
      assert ReadyIn(p, was.es, was.lay[i]);
    }
  }

  lemma EraseNextBlock(p: Partition, bad: seq<bool>, was: Flash, now: Flash, lay': seq<Region>, n: nat)
    requires p.Geometry() && |was.es| == p.totalEb && |bad| == p.ebCnt && n < |bad|
    requires forall i :: 0 <= i < |was.lay| ==> was.lay[i].Valid() && InOneBlock(p, was.lay[i])
    requires Erasing(p, bad, was, now, n) && !bad[n]
    requires Saved(now.cells, p.Start(), now.lay, lay', p.Start() + EbStart(n, p.ebSize),
                   p.Start() + EbStart(n, p.ebSize) + p.ebSize)
    ensures Erasing(p, bad, was, Flash(lay', MapSet(now.es, p.startEb + n, Erased), BlankBlock(now.cells, p.ebSize, n)),
                    n + 1)
  {
    SavedBlock(p, was.cells, bad, n, was.lay, now.lay, lay');
    ShapeTrans(was.lay, now.lay, lay');
  }

  /** The first e blocks are the fewest that hold n good ones, or all there are. */
  ghost predicate ErasedSpan(bad: seq<bool>, n: nat, e: nat)
  {
    && e <= |bad| && GoodBlocks(bad, e) <= n
    && (GoodBlocks(bad, e) == n || e == |bad|)
    && (e > 0 ==> GoodBlocks(bad, e - 1) < n)
  }

  lemma ShapeTrans(lay: seq<Region>, mid: seq<Region>, lay': seq<Region>)
    requires SameShape(lay, mid) && SameShape(mid, lay')
    ensures SameShape(lay, lay')
  {
    forall i | 0 <= i < |lay|
      ensures lay'[i] == lay[i].(value := lay'[i].value)
    {
      assert mid[i] == lay[i].(value := mid[i].value);
    }
  }

  /** One turn of the loop: a block that the map knows as bad is passed over, any other is erased. */
  method EraseStep(s: SysinfoManager, b: nat, noskipbad: bool, ghost bad: seq<bool>, ghost was: Flash)
    returns (step: Step)
    requires s.Valid() && s.part.hasMap && b < s.part.ebCnt && |was.es| == s.part.totalEb
    requires bad == s.part.FlagsOf(was.es, noskipbad)
    requires forall i :: 0 <= i < |was.lay| ==> was.lay[i].Valid() && InOneBlock(s.part, was.lay[i])
    modifies s, s.part
    ensures s.Valid() && s.part.hasMap && Sticky(old(s.part.es), s.part.es) && SameShape(old(s.layout), s.layout)
    ensures s.part.cells == if step == Done then BlankBlock(old(s.part.cells), s.part.ebSize, b) else old(s.part.cells)
    ensures step == Skipped ==> s.part.es[s.part.startEb + b] == Bad
    ensures Quiet(s.part) && RegionsReady(s.part, was.es, was.lay)
            && Erasing(s.part, bad, was, old(Snapshot(s)), b) ==>
              && step == (if bad[b] then Skipped else Done)
              && Erasing(s.part, bad, was, Snapshot(s), b + 1)
  {
    hide EbIndex, EbOffset, EbStart, Blanked, CountBad;
    var p := s.part;
    ghost var now := Snapshot(s);
    ghost var calm := Quiet(p) && RegionsReady(p, was.es, was.lay) && Erasing(p, bad, was, now, b);
    if calm {
      ErasedMapAt(was.es, p.startEb, bad, b, p.startEb + b);
      ReadyKept(p, bad, was.lay, was.es, now.lay, b);
    }
    if p.IsNand() && !noskipbad && p.es[p.startEb + b] == Bad {
      if calm { SkipNextBlock(p, bad, was, now, b); }
      return Skipped;
    }
    step := EraseBlock(s, b);
    if calm { EraseNextBlock(p, bad, was, now, s.layout, b); }
  }

  /** What holds of every run, disturbed or not, after n blocks. */
  ghost predicate Rough(startEb: nat, eb: nat, was: Flash, now: Flash, n: nat)
    requires eb > 0
  {
    && Sticky(was.es, now.es) && SameShape(was.lay, now.lay)
    && Untouched(eb, was.cells, now.cells, n) && BadOrBlank(now.es, startEb, eb, now.cells, n)
  }

  lemma RoughNext(startEb: nat, eb: nat, was: Flash, now: Flash, lay': seq<Region>, es': seq<Status>, n: nat,
                  step: Step)
    requires eb > 0 && Rough(startEb, eb, was, now, n)
    requires Sticky(now.es, es') && SameShape(now.lay, lay')
    requires step == Skipped ==> startEb + n < |es'| && es'[startEb + n] == Bad
    ensures Rough(startEb, eb, was, Flash(lay', es', if step == Done then BlankBlock(now.cells, eb, n) else now.cells),
                  if step == Crashed then n else n + 1)
  {
    StickyTrans(was.es, now.es, es');
    ShapeTrans(was.lay, now.lay, lay');
  }

  /** An undisturbed loop before block n. */
  ghost predicate CalmCount(bad: seq<bool>, want: nat, count: nat, n: nat)
  {
    && n <= |bad| && count == GoodBlocks(bad, n) <= want
    && (n > 0 ==> GoodBlocks(bad, n - 1) < want)
  }

  /** The loop invariant: rough facts always, exact ones when nothing disturbs the run. */
  ghost predicate EraseInv(p: Partition, calm: bool, bad: seq<bool>, want: nat, was: Flash, now: Flash, count: nat,
                           n: nat)
    requires p.Geometry() && |was.es| == p.totalEb && |bad| == p.ebCnt
  {
    && Rough(p.startEb, p.ebSize, was, now, n)
    && (calm ==> CalmCount(bad, want, count, n) && Erasing(p, bad, was, now, n))
  }

  lemma EraseStart(p: Partition, calm: bool, bad: seq<bool>, want: nat, f: Flash)
    requires p.Geometry() && |f.es| == p.totalEb && |bad| == p.ebCnt
    ensures EraseInv(p, calm, bad, want, f, f, 0, 0)
  {
    NothingErased(p, bad, f);
  }

  /** One turn keeps the invariant. */
  method EraseTurn(s: SysinfoManager, b: nat, noskipbad: bool, count: nat, skipped: nat, ghost calm: bool,
                   ghost bad: seq<bool>, ghost want: nat, ghost was: Flash)
    returns (crashed: bool, count': nat, skipped': nat)
    requires s.Valid() && s.part.hasMap && b < s.part.ebCnt && |was.es| == s.part.totalEb
    requires bad == s.part.FlagsOf(was.es, noskipbad)
    requires forall i :: 0 <= i < |was.lay| ==> was.lay[i].Valid() && InOneBlock(s.part, was.lay[i])
    requires calm == (Quiet(s.part) && RegionsReady(s.part, was.es, was.lay)) && count < want
    requires EraseInv(s.part, calm, bad, want, was, Snapshot(s), count, b)
    modifies s, s.part
    ensures s.Valid() && s.part.hasMap && (crashed ==> !calm)
    ensures !crashed ==> count' + skipped' == count + skipped + 1
    ensures EraseInv(s.part, calm, bad, want, was, Snapshot(s), count', if crashed then b else b + 1)
  {
    hide EbIndex, EbOffset, EbStart, Blanked, BlankBlock, ErasedMap, Erasing, RegionsReady, CountBad, BadFlags,
         ValidLayout, Rough, SameShape, Quiet;
    ghost var now := Snapshot(s);
    var step := EraseStep(s, b, noskipbad, bad, was);
    RoughNext(s.part.startEb, s.part.ebSize, was, now, s.layout, s.part.es, b, step);
    crashed := step == Crashed;
    count' := if step == Done then count + 1 else count;
    skipped' := if step == Skipped then skipped + 1 else skipped;
  }

  /** The erase loop; crashed when a save or the device gave up. Every block passed was erased or skipped. */
  method EraseLoop(s: SysinfoManager, want: nat, noskipbad: bool)
    returns (crashed: bool, eb: nat, count: nat, skipped: nat)
    requires s.Valid() && s.part.hasMap
    modifies s, s.part
    ensures s.Valid() && s.part.hasMap && eb <= s.part.ebCnt
    ensures !crashed ==> eb == count + skipped && (eb == s.part.ebCnt || count >= want)
    ensures Rough(s.part.startEb, s.part.ebSize, old(Snapshot(s)), Snapshot(s), eb)
    ensures Quiet(s.part) && RegionsReady(s.part, old(s.part.es), old(s.layout)) ==>
              && !crashed
              && ErasedSpan(old(s.part.AbsBad(noskipbad)), want, eb)
              && Erasing(s.part, old(s.part.AbsBad(noskipbad)), old(Snapshot(s)), Snapshot(s), eb)
  {
    hide EbIndex, EbOffset, Erasing, RegionsReady, CountBad, BadFlags, Rough, SameShape, Quiet;
    var p := s.part;
    ghost var bad, was := p.AbsBad(noskipbad), Snapshot(s);
    ghost var calm := Quiet(p) && RegionsReady(p, was.es, was.lay);
    count, skipped := 0, 0;
    eb, crashed := 0, false;
    EraseStart(p, calm, bad, want, was);
    while MoreToErase(count, want, p.ebSize) && eb < p.ebCnt
      invariant eb <= p.ebCnt && s.Valid() && p.hasMap && eb == count + skipped
      invariant EraseInv(p, calm, bad, want, was, Snapshot(s), count, eb)
      decreases p.ebCnt - eb
    {
      crashed, count, skipped := EraseTurn(s, eb, noskipbad, count, skipped, calm, bad, want, was);
      if crashed {
        return;
      }
      eb := eb + 1;
    }
  }

  /** erased_bytes < total_bytes, for whole blocks. */
  predicate MoreToErase(count: nat, want: nat, eb: nat)
    requires eb > 0
    ensures MoreToErase(count, want, eb) <==> count < want
  {
    StartOrder(want, count, eb);
    EbStart(count, eb) < EbStart(want, eb)
  }

  /** The number of blocks an erase of this length asks for. */
  function EraseBlocks(p: Partition, length: nat): nat
    requires p.ebSize > 0
  {
    EbIndex(length + p.ebSize - 1, p.ebSize)
  }

  lemma EraseEnd(p: Partition, length: nat)
    requires p.ebSize > 0
    ensures EbIndex(p.Start() + length + p.ebSize - 1, p.ebSize) - p.startEb == EraseBlocks(p, length)
    ensures EbIndex(p.Start(), p.ebSize) == p.startEb
  {
    Relative(p, length + p.ebSize - 1);
    Relative(p, 0);
    DivMod(0, p.ebSize, 0);
  }

  /** The length test after the loop: the partition ended, and what was erased and skipped is less than was asked
      for. */
  predicate TooLong(eb: nat, cnt: nat, count: nat, skipped: nat, want: nat, ebSize: nat)
  {
    eb >= cnt && EbStart(count, ebSize) + EbStart(skipped, ebSize) < EbStart(want, ebSize)
  }

  /** It never holds: at the end of the partition every block was erased or skipped, and no more were asked for. */
  lemma NeverTooLong(eb: nat, cnt: nat, count: nat, skipped: nat, want: nat, ebSize: nat)
    requires ebSize > 0 && eb == count + skipped && want <= cnt
    ensures !TooLong(eb, cnt, count, skipped, want, ebSize)
  {
    StartAdds(count, skipped, ebSize);
    StartOrder(want, eb, ebSize);
  }

  lemma ShortSpan(bad: seq<bool>, want: nat, e: nat)
    requires ErasedSpan(bad, want, e)
    ensures GoodBlocks(bad, |bad|) < want ==> e == |bad|
  {
    GoodBlocksMonotone(bad, e, |bad|);
  }

  /** What an undisturbed erase of want blocks returns and leaves behind; too few good blocks are no error. */
  ghost predicate EraseResult(p: Partition, bad: seq<bool>, want: nat, was: Flash, now: Flash, end: nat, r: int)
    requires p.Geometry() && |was.es| == p.totalEb && |bad| == p.ebCnt
  {
    && r != -1 && ErasedSpan(bad, want, end)
    && (GoodBlocks(bad, p.ebCnt) < want ==> end == p.ebCnt)
    && Erasing(p, bad, was, now, end)
  }

  /** The erase of an accepted number of blocks, with the length test. */
  method EraseAccepted(s: SysinfoManager, want: nat, noskipbad: bool) returns (r: int, ghost end: nat)
    requires s.Valid() && s.part.hasMap && want <= s.part.ebCnt
    modifies s, s.part
    ensures s.Valid() && s.part.hasMap && end <= s.part.ebCnt
    ensures Rough(s.part.startEb, s.part.ebSize, old(Snapshot(s)), Snapshot(s), end)
    ensures r == -1 || r == EbStart(s.part.startEb + end, s.part.ebSize)
    ensures Quiet(s.part) && RegionsReady(s.part, old(s.part.es), old(s.layout)) ==>
              EraseResult(s.part, old(s.part.AbsBad(noskipbad)), want, old(Snapshot(s)), Snapshot(s), end, r)
  {
    var p := s.part;
    ghost var bad := p.AbsBad(noskipbad);
    var crashed, eb, count, skipped := EraseLoop(s, want, noskipbad);
    end := eb;
    if crashed {
      return -1, end;
    }
    NeverTooLong(eb, p.ebCnt, count, skipped, want, p.ebSize);
    r := if TooLong(eb, p.ebCnt, count, skipped, want, p.ebSize) then -1 else EbStart(p.startEb + eb, p.ebSize);
    if ErasedSpan(bad, want, end) { ShortSpan(bad, want, end); }
  }

  /** mtd_basic_erase: always from the start of the partition, whatever the offset of the request. */
  method Erase(s: SysinfoManager, length: nat, noskipbad: bool) returns (r: int, ghost end: nat)
    requires s.Valid()
    modifies s, s.part
    ensures s.Valid() && s.part.hasMap == old(s.part.hasMap) && end <= s.part.ebCnt
    ensures !s.part.hasMap ==> s.layout == old(s.layout) && s.part.cells == old(s.part.cells)
    ensures s.part.hasMap ==> Rough(s.part.startEb, s.part.ebSize, old(Snapshot(s)), Snapshot(s), end)
    ensures !s.part.hasMap || EraseBlocks(s.part, length) > s.part.ebCnt ==> r == -1 && end == 0
    ensures r == -1 || r == EbStart(s.part.startEb + end, s.part.ebSize)
    ensures s.part.hasMap && EraseBlocks(s.part, length) <= s.part.ebCnt
            && Quiet(s.part) && RegionsReady(s.part, old(s.part.Map()), old(s.layout)) ==>
              EraseResult(s.part, s.part.FlagsOf(old(s.part.Map()), noskipbad), EraseBlocks(s.part, length),
                          old(Snapshot(s)), Snapshot(s), end, r)
  {
    var p := s.part;
    EraseEnd(p, length);
    var start := EbIndex(p.Start(), p.ebSize) - p.startEb;
    var stop := EbIndex(p.Start() + length + p.ebSize - 1, p.ebSize) - p.startEb;
    if stop > p.ebCnt {
      if p.hasMap { RoughStart(p.startEb, p.ebSize, Snapshot(s)); }
      return -1, 0;
    }
    if !p.hasMap {
      return -1, 0;
    }
    r, end := EraseAccepted(s, stop - start, noskipbad);
  }

  lemma RoughStart(startEb: nat, eb: nat, f: Flash)
    requires eb > 0
    ensures Rough(startEb, eb, f, f, 0)
  {}

  // ---------------------------------------------------------------- what an erase is good for

  /** A stream from the start of the partition that is no longer than what was erased lands on erased blocks only, when
      the partition has enough good blocks. */
  lemma StreamIsErased(bad: seq<bool>, eb: nat, want: nat, e: nat, n: nat)
    requires eb > 0 && ErasedSpan(bad, want, e) && GoodBlocks(bad, |bad|) >= want && n <= EbStart(want, eb)
    ensures Fits(bad, eb, 0, n)
    ensures forall k :: 0 <= k < n ==> EbIndex(Place(bad, eb, 0, k), eb) < e && OnGood(bad, eb, Place(bad, eb, 0, k))
  {
    if n > 0 {
      DivMod(e, eb, 0);
      DivMod(0, eb, 0);
      assert GoodBytes(bad, eb, 0) == 0;
      GoodBlocksMonotone(bad, e, |bad|);
      assert GoodBytes(bad, eb, EbStart(e, eb)) == EbStart(want, eb);
      FitsBelow(bad, eb, 0, n, EbStart(e, eb));
      FitsFewer(bad, eb, 0, n, n);
      forall k | 0 <= k < n
        ensures EbIndex(Place(bad, eb, 0, k), eb) < e
      {
        if k < n - 1 { PlaceGrows(bad, eb, 0, k, n - 1); }
        Inside(Place(bad, eb, 0, k), eb, e);
      }
    }
  }
}
