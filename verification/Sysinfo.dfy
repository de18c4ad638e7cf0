/** sysinfo_manager.c: regions of the flash that survive an erase, saved before it and merged into what is written. */
module Sysinfo {
  import opened Wrappers
  import opened WordArith
  import opened Division
  import opened Placement
  import opened Mtd

  datatype Reserve = Reserved | NotReserved

  /** struct sysinfo_layout: addresses are absolute. */
  datatype Region = Region(offset: nat, length: nat, value: Option<seq<Byte>>, reserve: Reserve)
  {
    predicate Valid() { length > 0 && (value.Some? ==> |value.value| == length) }

    function End(): nat { offset + length }

    predicate Holds(addr: int) { offset <= addr < End() }

    /** calloc: a buffer that does not exist yet is zero-filled. */
    function Buffer(): (b: seq<Byte>)
      requires Valid()
      ensures |b| == length
    {
      if value.Some? then value.value else seq(length, i => 0)
    }
  }

  predicate ValidLayout(lay: seq<Region>)
  {
    && lay != []
    && (forall i :: 0 <= i < |lay| ==> lay[i].Valid())
    && (forall i, j :: 0 <= i < j < |lay| ==> lay[i].End() <= lay[j].offset)
  }

  /** The flag region is the second of the two regions of the device. */
  const FLAG: int := 1

  function InitialLayout(): seq<Region>
  {
    [Region(0x3c00, 0x400, None, Reserved), Region(0x6000, 0x400, None, Reserved)]
  }

  // ---------------------------------------------------------------- traversal_merge

  /** What is written at addr when the image has b there. */
  function Overlay(lay: seq<Region>, addr: int, b: Byte): Byte
    requires forall i :: 0 <= i < |lay| ==> lay[i].Valid()
  {
    if lay == [] then b
    else
      var l := lay[|lay| - 1];
      OverlayOne(l, addr, Overlay(lay[..|lay| - 1], addr, b))
  }

  /** Inside a saved reserved region the saved byte wins; outside every reserved region the image's byte stays. */
  lemma {:induction false} OverlayIs(lay: seq<Region>, addr: int, b: Byte)
    requires forall i :: 0 <= i < |lay| ==> lay[i].Valid()
    requires forall i, j :: 0 <= i < j < |lay| ==> lay[i].End() <= lay[j].offset
    ensures forall i :: 0 <= i < |lay| && lay[i].reserve == Reserved && lay[i].value.Some? && lay[i].Holds(addr) ==>
              Overlay(lay, addr, b) == lay[i].value.value[addr - lay[i].offset]
    ensures (forall i :: 0 <= i < |lay| && lay[i].Holds(addr) ==> lay[i].reserve == NotReserved) ==>
              Overlay(lay, addr, b) == b
  {
    if lay != [] {
      OverlayIs(lay[..|lay| - 1], addr, b);
    }
  }

  predicate Overlaps(l: Region, start: int, end: int)
  {
    !(end <= l.offset || start >= l.End())
  }

  /** A region and a range overlap exactly when they share a byte. */
  lemma OverlapsIs(l: Region, start: int, end: int)
    requires l.Valid() && start < end
    ensures Overlaps(l, start, end) <==> exists addr :: start <= addr < end && l.Holds(addr)
  {
    if Overlaps(l, start, end) { assert l.Holds(if start < l.offset then l.offset else start); }
  }

  /** A reserved region that the range touches was never saved. */
  predicate Unsaved(lay: seq<Region>, start: int, end: int)
  {
    exists i :: 0 <= i < |lay| && lay[i].reserve == Reserved && Overlaps(lay[i], start, end) && lay[i].value == None
  }

  ghost predicate OverlaidBy(lay: seq<Region>, offset: nat, before: seq<Byte>, after: seq<Byte>)
    requires forall i :: 0 <= i < |lay| ==> lay[i].Valid()
  {
    |after| == |before| && forall k :: 0 <= k < |before| ==> after[k] == Overlay(lay, offset + k, before[k])
  }

  /** sysinfo_traversal_merge on the page buf[pos..pos + length] that goes to this absolute offset. */
  method TraversalMerge(lay: seq<Region>, buf: array<Byte>, pos: nat, offset: nat, length: nat) returns (ok: bool)
    requires ValidLayout(lay) && pos + length <= buf.Length
    modifies buf
    ensures ok <==> !Unsaved(lay, offset, offset + length)
    ensures ok ==> OverlaidBy(lay, offset, old(buf[pos..pos + length]), buf[pos..pos + length])
    ensures buf[..pos] == old(buf[..pos]) && buf[pos + length..] == old(buf[pos + length..])
  {
    ghost var page: seq<Byte> := buf[pos..pos + length];
    var last := lay[|lay| - 1];
    if offset >= last.offset + last.length {
      BeyondAll(lay, offset, page);
      return true;
    }
    var i := 0;
    while i < |lay|
      invariant 0 <= i <= |lay|
      invariant !Unsaved(lay[..i], offset, offset + length)
      invariant OverlaidBy(lay[..i], offset, page, buf[pos..pos + length])
      invariant buf[..pos] == old(buf[..pos]) && buf[pos + length..] == old(buf[pos + length..])
    {
      var merged := MergeRegion(lay[i], buf, pos, offset, length);
      if !merged {
        return false;
      }
      OverlayNext(lay, i, offset, page);
      i := i + 1;
    }
    assert lay[..|lay|] == lay;
    return true;
  }

  /** One region's part of the loop: the overlapping bytes are copied; false when there is nothing to copy from. */
  method MergeRegion(l: Region, buf: array<Byte>, pos: nat, offset: nat, length: nat) returns (ok: bool)
    requires l.Valid() && pos + length <= buf.Length
    modifies buf
    ensures ok <==> !(l.reserve == Reserved && Overlaps(l, offset, offset + length) && l.value == None)
    ensures ok ==> OneOverlaid(l, offset, old(buf[pos..pos + length]), buf[pos..pos + length])
    ensures buf[..pos] == old(buf[..pos]) && buf[pos + length..] == old(buf[pos + length..])
  {
    var start, end := offset, offset + length;
    if l.reserve != Reserved {
      return true;
    }
    if !Overlaps(l, start, end) {
      return true;
    }
    if l.value == None {
      return false;
    }
    var left := if l.offset > start then l.offset else start;
    var right := if end < l.End() then end else l.End();
    forall k | 0 <= k < right - left {
      buf[pos + (left - start) + k] := l.value.value[left - l.offset + k];
    }
    return true;
  }

  ghost predicate OneOverlaid(l: Region, offset: nat, before: seq<Byte>, after: seq<Byte>)
    requires l.Valid()
  {
    |after| == |before| && forall k :: 0 <= k < |before| ==> after[k] == OverlayOne(l, offset + k, before[k])
  }

  function OverlayOne(l: Region, addr: int, b: Byte): Byte
    requires l.Valid()
  {
    if l.reserve == Reserved && l.value.Some? && l.Holds(addr) then l.value.value[addr - l.offset] else b
  }

  lemma OverlayNext(lay: seq<Region>, i: nat, offset: nat, page: seq<Byte>)
    requires i < |lay| && forall i :: 0 <= i < |lay| ==> lay[i].Valid()
    ensures lay[..i + 1][..i] == lay[..i]
    ensures forall k {:trigger page[k]} :: 0 <= k < |page| ==>
              Overlay(lay[..i + 1], offset + k, page[k]) ==
                OverlayOne(lay[i], offset + k, Overlay(lay[..i], offset + k, page[k]))
  {
    assert lay[..i + 1][..i] == lay[..i];
  }

  /** A page behind the last region meets none. */
  lemma BeyondAll(lay: seq<Region>, offset: nat, page: seq<Byte>)
    requires ValidLayout(lay) && offset >= lay[|lay| - 1].End()
    ensures !Unsaved(lay, offset, offset + |page|) && OverlaidBy(lay, offset, page, page)
  {
    forall i | 0 <= i < |lay|
      ensures lay[i].End() <= offset
    {}
    forall k | 0 <= k < |page|
      ensures Overlay(lay, offset + k, page[k]) == page[k]
    {
      OutsideAll(lay, offset + k, page[k]);
    }
  }

  lemma {:induction false} OutsideAll(lay: seq<Region>, addr: int, b: Byte)
    requires forall i :: 0 <= i < |lay| ==> lay[i].Valid() && !lay[i].Holds(addr)
    ensures Overlay(lay, addr, b) == b
  {
    if lay != [] { OutsideAll(lay[..|lay| - 1], addr, b); }
  }

  // ---------------------------------------------------------------- the manager

  /** A region that the partition holds lies inside one of its blocks. */
  predicate InOneBlock(p: Partition, l: Region)
    requires p.ebSize > 0
  {
    || l.End() <= p.Start() || p.Start() + p.Size() <= l.offset
    || (p.Start() <= l.offset && EbOffset(l.offset - p.Start(), p.ebSize) + l.length <= p.ebSize
        && EbIndex(l.offset - p.Start(), p.ebSize) < p.ebCnt)
  }

  class SysinfoManager {
    const part: Partition
    var layout: seq<Region>

    ghost predicate Valid()
      reads this, part
    {
      part.Valid() && ValidLayout(layout) && forall i :: 0 <= i < |layout| ==> InOneBlock(part, layout[i])
    }

    constructor (p: Partition)
      requires p.Valid() && forall i :: 0 <= i < |InitialLayout()| ==> InOneBlock(p, InitialLayout()[i])
      ensures Valid() && part == p && layout == InitialLayout()
      ensures layout == [Region(15360, 1024, None, Reserved), Region(24576, 1024, None, Reserved)]
    {
      part := p;
      layout := InitialLayout();
    }

    predicate IsId(id: int)
      reads this
    {
      0 <= id < |layout|
    }

    /** sysinfo_get_value in RAM mode: the buffer, made on first use. */
    method GetValueRam(id: int) returns (ok: bool, value: seq<Byte>)
      requires Valid()
      modifies this
      ensures Valid() && ok == old(IsId(id))
      ensures old(IsId(id)) ==>
                value == old(layout[id].Buffer()) && layout == old(layout)[id := old(layout)[id].(value := Some(value))]
      ensures !old(IsId(id)) ==> layout == old(layout)
    {
      if !IsId(id) {
        return false, [];
      }
      value := layout[id].Buffer();
      layout := layout[id := layout[id].(value := Some(value))];
      ok := true;
    }

    /** sysinfo_get_value in device mode: the region is fetched into its buffer. */
    method GetValueDev(id: int) returns (ok: bool, failed: bool, value: seq<Byte>)
      requires Valid()
      modifies this, part`hasMap, part`es, part`badCnt
      ensures Valid() && Sticky(old(part.Map()), part.Map()) && (old(part.hasMap) ==> part.hasMap)
      ensures failed ==> !ok && HasReadFault(part)
      ensures old(IsId(id)) ==> |value| == old(layout[id]).length
      ensures !old(IsId(id)) ==> !ok && !failed && layout == old(layout)
      ensures old(IsId(id) && !InPartitionOf(part, layout[id])) ==> !ok && !failed && value == old(layout[id].Buffer())
      ensures old(IsId(id)) ==> layout == old(layout)[id := old(layout)[id].(value := Some(value))]
      ensures old(IsId(id) && InPartitionOf(part, layout[id]) && Ready(part, layout[id])) && !failed ==>
                part.es == old(part.es) && ok && IsContents(part.cells, old(layout)[id].offset - part.Start(), value)
    {
      if !IsId(id) {
        return false, false, [];
      }
      if InPartitionOf(part, layout[id]) {
        ok, failed, value := FetchRegion(part, layout[id]);
      } else {
        ok, failed, value := false, false, layout[id].Buffer();
      }
      layout := layout[id := layout[id].(value := Some(value))];
    }
  }

  /** The region lies in the partition. */
  predicate InPartitionOf(p: Partition, l: Region)
  {
    p.Start() <= l.offset < p.Start() + p.Size()
  }

  ghost predicate HasReadFault(p: Partition)
  {
    exists q :: p.checkFails(q) || p.readFails(q)
  }

  ghost predicate IsContents(cells: seq<Byte>, from: int, value: seq<Byte>)
  {
    0 <= from && from + |value| <= |cells| && value == cells[from..from + |value|]
  }

  /** The scan of the region's block. */
  method ScanRegion(p: Partition, l: Region) returns (ok: bool, failed: bool)
    requires p.Valid() && l.Valid() && InOneBlock(p, l) && InPartitionOf(p, l)
    modifies p`hasMap, p`es, p`badCnt
    ensures p.Valid() && Sticky(old(p.Map()), p.Map()) && (old(p.hasMap) ==> p.hasMap)
    ensures failed ==> !ok && HasReadFault(p)
    ensures old(Ready(p, l)) && !failed ==> p.es == old(p.es) && p.hasMap && ok
  {
    ghost var ready, es, unfit, b := Ready(p, l), p.es, UnfitIn(p, false), EbIndex(l.offset - p.Start(), p.ebSize);
    RegionBlock(p, l);
    if ready { ReadyFit(p, l); }
    var r;
    ghost var found, span;
    r, failed, found, span := Scan(p, l.offset, l.length, Random, false);
    if ready && !failed {
      ReadyScan(unfit, es, p.es, p.startEb, p.devBad, Checked(p, false), b, found, span, r, p.ebSize);
    }
    ok := r > 0;
  }

  /** The read of the whole region into its buffer. */
  method ReadRegion(p: Partition, l: Region) returns (ok: bool, failed: bool, value: seq<Byte>)
    requires p.Valid() && l.Valid() && InOneBlock(p, l) && InPartitionOf(p, l)
    ensures |value| == l.length
    ensures failed ==> !ok && HasReadFault(p)
    ensures Ready(p, l) ==> failed || (ok && IsContents(p.cells, l.offset - p.Start(), value))
  {
    hide EbIndex, EbOffset, EbStart, After, Skip, CountBad;
    var was := l.Buffer();
    var buf := new Byte[l.length](i requires 0 <= i < |was| == l.length => was[i]);
    ghost var done;
    var r;
    r, failed, done := Read(p, l.offset, l.length, buf);
    value := buf[..];
    if !failed && Ready(p, l) {
      ReadyRead(p, l, value, done, r);
    }
    ok := r >= 0;
  }

  /** The device half of sysinfo_get_value. */
  method FetchRegion(p: Partition, l: Region) returns (ok: bool, failed: bool, value: seq<Byte>)
    requires p.Valid() && l.Valid() && InOneBlock(p, l) && InPartitionOf(p, l)
    modifies p`hasMap, p`es, p`badCnt
    ensures p.Valid() && Sticky(old(p.Map()), p.Map()) && (old(p.hasMap) ==> p.hasMap)
    ensures |value| == l.length
    ensures failed ==> !ok && HasReadFault(p)
    ensures old(Ready(p, l)) && !failed ==> p.es == old(p.es) && ok && IsContents(p.cells, l.offset - p.Start(), value)
  {
    ok, failed := ScanRegion(p, l);
    if !ok {
      return false, failed, l.Buffer();
    }
    ok, failed, value := ReadRegion(p, l);
  }

  lemma Relative(p: Partition, x: nat)
    requires p.ebSize > 0
    ensures EbIndex(p.Start() + x, p.ebSize) == p.startEb + EbIndex(x, p.ebSize)
  {
    Split(x, p.ebSize);
    StartAdds(p.startEb, EbIndex(x, p.ebSize), p.ebSize);
    DivMod(p.startEb + EbIndex(x, p.ebSize), p.ebSize, EbOffset(x, p.ebSize));
  }

  /** A request of one region is a request for its one block. */
  lemma RegionBlock(p: Partition, l: Region)
    requires p.Geometry() && l.Valid() && InOneBlock(p, l) && InPartitionOf(p, l)
    ensures var b := EbIndex(l.offset - p.Start(), p.ebSize);
            && b < p.ebCnt
            && ScanFrom(p, l.offset) == b
            && Need(p, l.offset, l.length, Random) == 1
            && !ScanRefused(p, l.offset, l.length, Random)
            && l.End() <= p.Start() + p.Size()
  {
    var x, eb := l.offset - p.Start(), p.ebSize;
    Inside(x, eb, p.ebCnt);
    Relative(p, x);
    var y := x + l.length + eb - 1;
    Relative(p, y);
    Split(x, eb);
    DivMod(EbIndex(x, eb) + 1, eb, EbOffset(x, eb) + l.length - 1);
    UnitInside(x, l.length, eb, p.ebCnt);
  }

  lemma ReadyFit(p: Partition, l: Region)
    requires p.Valid() && Ready(p, l)
    ensures !UnfitIn(p, false)[EbIndex(l.offset - p.Start(), p.ebSize)]
  {}

  /** A scan for one block that starts at a fit one stops there. */
  lemma FirstIsFit(unfit: seq<bool>, lo: nat, found: bool, span: nat, r: int, ebSize: nat)
    requires lo < |unfit| && !unfit[lo] && ScanOutcome(unfit, lo, 1, Random, found, span, r, ebSize)
    ensures found && span == 1 && r == ebSize
  {
    OneBlockSize(ebSize);
    if found {
      ShortestIsLeast(unfit, lo, 1, span, 1);
    } else {
      GoodBlocksMonotone(unfit, lo + 1, |unfit|);
    }
  }

  lemma TaggedStays(es: seq<Status>, startEb: nat, devBad: seq<bool>, checked: bool, lo: nat)
    requires startEb + |devBad| <= |es| && lo < |devBad| && es[startEb + lo] != Untagged
    ensures ScannedMap(es, startEb, devBad, checked, lo, lo + 1) == es
  {
    assert ScannedMap(es, startEb, devBad, checked, lo, lo) == es;
  }

  lemma ReadyScan(unfit: seq<bool>, es: seq<Status>, es': seq<Status>, startEb: nat, devBad: seq<bool>, checked: bool,
                  b: nat, found: bool, span: nat, r: int, ebSize: nat)
    requires |unfit| == |devBad| && startEb + |devBad| <= |es| && b < |devBad| && b + span <= |devBad|
    requires !unfit[b] && es[startEb + b] != Untagged
    requires ScanOutcome(unfit, b, 1, Random, found, span, r, ebSize)
    requires es' == ScannedMap(es, startEb, devBad, checked, b, b + span)
    ensures es' == es && r == ebSize
  {
    FirstIsFit(unfit, b, found, span, r, ebSize);
    TaggedStays(es, startEb, devBad, checked, b);
  }

  /** A region in a good block is read as it is. */
  lemma ReadyRead(p: Partition, l: Region, data: seq<Byte>, done: nat, r: int)
    requires p.Valid() && l.Valid() && InOneBlock(p, l) && Ready(p, l) && InPartitionOf(p, l)
    requires |data| == l.length && done <= |data|
    requires ReadsAs(p.RelBad(), p.ebSize, l.offset - p.Start(), p.cells, data[..done])
    requires Ends(p.RelBad(), p.ebSize, l.offset - p.Start(), l.length, done, p.Start(), r)
    ensures r >= 0 && IsContents(p.cells, l.offset - p.Start(), data)
  {
    hide EbIndex, EbOffset, EbStart;
    var x, bad := l.offset - p.Start(), p.RelBad();
    RegionBlock(p, l);
    Contiguous(bad, p.ebSize, x, 0, l.length);
    FitsFewer(bad, p.ebSize, x, if done < l.length then done + 1 else done, l.length);
    assert data[..l.length] == data;
    forall k | 0 <= k < l.length
      ensures data[k] == p.cells[x + k]
    {
      assert Place(bad, p.ebSize, x, k) == x + k;
    }
  }

  /** The block that holds the region was scanned and found good, under both ways of looking it up. */
  ghost predicate Ready(p: Partition, l: Region)
    reads p
    requires p.Valid()
  {
    p.hasMap && ReadyIn(p, p.es, l)
  }

  ghost predicate ReadyIn(p: Partition, es: seq<Status>, l: Region)
    requires p.Geometry() && |es| == p.totalEb
  {
    && p.Start() <= l.offset
    && var b := EbIndex(l.offset - p.Start(), p.ebSize);
    b < p.ebCnt && es[p.startEb + b] !in {Untagged, Bad} && !(p.IsNand() && es[b] == Bad)
  }
}
