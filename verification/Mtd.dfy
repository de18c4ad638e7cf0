/** base.c: a flash partition, the block map of the whole device, the scan and the read. */
module Mtd {
  import opened WordArith
  import opened Division
  import opened Placement

  datatype FlashType = Nand | MlcNand | Nor | OtherFlash
  datatype Status = Untagged | Scanned | Bad | Erased
  datatype Fault = Fine | Eio | Fatal
  datatype OperationMethod = Random | WholePartition(nextStart: nat)

  const ERASED_BYTE: Byte := 0xff

  // ---------------------------------------------------------------- the block map as a sequence

  /** mtd_bm_block_map_set: a bad block stays bad. */
  function MapSet(es: seq<Status>, eb: nat, status: Status): (r: seq<Status>)
    requires eb < |es|
    ensures |r| == |es|
  {
    if es[eb] == Bad then es else es[eb := status]
  }

  /** The blocks that count as bad, when the flash has bad blocks to skip. */
  function BadFlags(es: seq<Status>, skips: bool): (bad: seq<bool>)
    ensures |bad| == |es|
  {
    seq(|es|, i requires 0 <= i < |es| => skips && es[i] == Bad)
  }

  function CountBad(es: seq<Status>): (n: nat)
    ensures n <= |es|
  {
    if es == [] then 0 else CountBad(es[..|es| - 1]) + (if es[|es| - 1] == Bad then 1 else 0)
  }

  lemma {:induction false} CountBadUpdate(es: seq<Status>, i: nat, status: Status)
    requires i < |es| && es[i] != Bad
    ensures CountBad(es[i := status]) == CountBad(es) + (if status == Bad then 1 else 0)
    decreases |es|
  {
    var k := |es| - 1;
    if i < k {
      assert es[i := status][..k] == es[..k][i := status];
      CountBadUpdate(es[..k], i, status);
    } else {
      assert es[i := status][..k] == es[..k];
    }
  }

  lemma {:induction false} NoneBad(es: seq<Status>)
    requires forall i :: 0 <= i < |es| ==> es[i] != Bad
    ensures CountBad(es) == 0
  {
    if es != [] { NoneBad(es[..|es| - 1]); }
  }

  /** Every entry that was BAD is still BAD. */
  ghost predicate Sticky(es: seq<Status>, es': seq<Status>)
  {
    |es| == |es'| && forall i :: 0 <= i < |es| && es[i] == Bad ==> es'[i] == Bad
  }

  /** Any run of map updates. */
  function MapRun(es: seq<Status>, sets: seq<(nat, Status)>): (r: seq<Status>)
    requires forall k :: 0 <= k < |sets| ==> sets[k].0 < |es|
    ensures |r| == |es|
  {
    if sets == [] then es else MapSet(MapRun(es, sets[..|sets| - 1]), sets[|sets| - 1].0, sets[|sets| - 1].1)
  }

  /** At the end of a run exactly those entries are BAD that were, or that some step set to BAD. */
  lemma {:induction false} MapRunBad(es: seq<Status>, sets: seq<(nat, Status)>, i: nat)
    requires i < |es| && forall k :: 0 <= k < |sets| ==> sets[k].0 < |es|
    ensures MapRun(es, sets)[i] == Bad <==> es[i] == Bad || (i, Bad) in sets
  {
    if sets != [] {
      var k := |sets| - 1;
      assert sets == sets[..k] + [sets[k]];
      MapRunBad(es, sets[..k], i);
    }
  }

  // ---------------------------------------------------------------- the partition

  /** The geometry and the hardware never change; the cells, the device's bad marks and the block map do. */
  class Partition {
    const kind: FlashType
    const ebSize: nat
    const minIo: nat
    const ebCnt: nat
    const startEb: nat
    const totalEb: nat
    const checkFails: nat -> bool
    const readFails: nat -> bool
    const eraseFault: nat -> Fault
    const writeFault: nat -> Fault
    const markFails: nat -> bool
    var cells: seq<Byte>
    var devBad: seq<bool>
    var hasMap: bool
    var es: seq<Status>
    var badCnt: nat

    /** A partition that no scan has seen yet. */
    constructor (kind: FlashType, ebSize: nat, minIo: nat, ebCnt: nat, startEb: nat, totalEb: nat,
                 checkFails: nat -> bool, readFails: nat -> bool, eraseFault: nat -> Fault, writeFault: nat -> Fault,
                 markFails: nat -> bool, cells: seq<Byte>, devBad: seq<bool>)
      requires 0 < ebSize && 0 < minIo && ebSize % minIo == 0 && startEb + ebCnt <= totalEb
      requires |cells| == EbStart(ebCnt, ebSize) && |devBad| == ebCnt
      ensures Valid() && !hasMap && this.cells == cells && this.devBad == devBad
      ensures this.kind == kind && this.ebSize == ebSize && this.minIo == minIo
      ensures this.ebCnt == ebCnt && this.startEb == startEb && this.totalEb == totalEb
      ensures this.checkFails == checkFails && this.readFails == readFails
      ensures this.eraseFault == eraseFault && this.writeFault == writeFault && this.markFails == markFails
    {
      this.kind, this.ebSize, this.minIo := kind, ebSize, minIo;
      this.ebCnt, this.startEb, this.totalEb := ebCnt, startEb, totalEb;
      this.checkFails, this.readFails, this.markFails := checkFails, readFails, markFails;
      this.eraseFault, this.writeFault := eraseFault, writeFault;
      this.cells, this.devBad := cells, devBad;
      hasMap, es, badCnt := false, [], 0;
    }

    ghost predicate Valid()
      reads this
    {
      && Geometry()
      && |cells| == EbStart(ebCnt, ebSize)
      && |devBad| == ebCnt
      && (hasMap ==> |es| == totalEb && badCnt == CountBad(es))
    }

    predicate Geometry()
    {
      0 < ebSize && 0 < minIo && ebSize % minIo == 0 && startEb + ebCnt <= totalEb
    }

    function Size(): nat { EbStart(ebCnt, ebSize) }

    function Start(): nat { EbStart(startEb, ebSize) }

    predicate IsNand() { kind == Nand || kind == MlcNand }

    /** Which blocks mtd_basic_write and mtd_basic_read skip: they look blocks up by partition-relative index. */
    function RelBad(): (bad: seq<bool>)
      reads this
      requires hasMap && |es| == totalEb && startEb + ebCnt <= totalEb
      ensures |bad| == ebCnt
    {
      BadFlags(es[..ebCnt], IsNand())
    }

    /** Which blocks mtd_basic_erase skips: it looks blocks up by absolute index. */
    function AbsBad(noskipbad: bool): (bad: seq<bool>)
      reads this
      requires hasMap && |es| == totalEb && startEb + ebCnt <= totalEb
      ensures |bad| == ebCnt
    {
      FlagsOf(es, noskipbad)
    }

    /** The blocks that mtd_basic_erase would skip with this map. */
    function FlagsOf(es: seq<Status>, noskipbad: bool): (bad: seq<bool>)
      requires |es| == totalEb && startEb + ebCnt <= totalEb
      ensures |bad| == ebCnt
    {
      BadFlags(es[startEb..startEb + ebCnt], IsNand() && !noskipbad)
    }

    /** The map, or the fresh one that a scan would make. */
    function Map(): (r: seq<Status>)
      reads this
      requires Valid()
      ensures |r| == totalEb
    {
      if hasMap then es else seq(totalEb, i => Untagged)
    }

    /** mtd_bm_block_map_init. */
    method MapInit()
      requires Valid()
      modifies this`hasMap, this`es, this`badCnt
      ensures Valid() && hasMap && es == old(Map())
    {
      if !hasMap {
        hasMap, badCnt := true, 0;
        es := seq(totalEb, i => Untagged);
        NoneBad(es);
      }
    }

    /** mtd_bm_block_map_set, with its counter. */
    method SetStatus(eb: nat, status: Status)
      requires Valid() && hasMap && eb < totalEb
      modifies this`es, this`badCnt
      ensures Valid() && es == MapSet(old(es), eb, status) && Sticky(old(es), es)
    {
      if es[eb] != status {
        if es[eb] != Bad { CountBadUpdate(es, eb, status); }
        if status == Bad { badCnt := badCnt + 1; }
        if es[eb] == Bad {
          return;
        }
        es := es[eb := status];
      }
    }
  }

  /** Writes and reads skip a block of NAND flash when the entry at its relative index is BAD, an erase when the one at
      its absolute index is and bad blocks are to be skipped; no block of other flash is skipped. */
  lemma SkippedBlocks(p: Partition, noskipbad: bool, b: nat)
    requires p.Valid() && p.hasMap && b < p.ebCnt
    ensures p.RelBad()[b] <==> (p.kind == Nand || p.kind == MlcNand) && p.es[b] == Bad
    ensures p.AbsBad(noskipbad)[b] <==>
            (p.kind == Nand || p.kind == MlcNand) && !noskipbad && p.es[p.startEb + b] == Bad
  {
    assert p.es[..p.ebCnt][b] == p.es[b];
    assert p.es[p.startEb..p.startEb + p.ebCnt][b] == p.es[p.startEb + b];
  }

  // ---------------------------------------------------------------- mtd_block_scan

  /** A block does not count when it needs the device's check and fails it; only untagged and BAD blocks are checked. */
  function Unfit(es: seq<Status>, startEb: nat, devBad: seq<bool>, checked: bool): (u: seq<bool>)
    requires startEb + |devBad| <= |es|
    ensures |u| == |devBad|
  {
    seq(|devBad|, i requires 0 <= i < |devBad| && startEb + |devBad| <= |es| =>
      (es[startEb + i] == Untagged || es[startEb + i] == Bad) && checked && devBad[i])
  }

  /** The map entry of a visited block. */
  function ScanStatus(s: Status, bad: bool): Status
  {
    if s != Untagged then s else if bad then Bad else Scanned
  }

  /** The map after blocks lo to hi were visited. */
  function ScannedMap(es: seq<Status>, startEb: nat, devBad: seq<bool>, checked: bool, lo: nat, hi: nat)
    : (r: seq<Status>)
    requires startEb + |devBad| <= |es| && lo <= hi <= |devBad|
    ensures |r| == |es|
    decreases hi
  {
    if hi == lo then es
    else ScannedMap(es, startEb, devBad, checked, lo, hi - 1)
         [startEb + hi - 1 := ScanStatus(es[startEb + hi - 1], checked && devBad[hi - 1])]
  }

  /** Entry by entry: only visited blocks change, and an entry becomes BAD only by the device's word. */
  lemma {:induction false} ScannedMapAt(es: seq<Status>, startEb: nat, devBad: seq<bool>, checked: bool, lo: nat,
                                        hi: nat, j: nat)
    requires startEb + |devBad| <= |es| && lo <= hi <= |devBad| && j < |es|
    ensures ScannedMap(es, startEb, devBad, checked, lo, hi)[j]
            == if startEb + lo <= j < startEb + hi then ScanStatus(es[j], checked && devBad[j - startEb]) else es[j]
    decreases hi
  {
    if lo < hi { ScannedMapAt(es, startEb, devBad, checked, lo, hi - 1, j); }
  }

  /** A visited block that was untagged is Bad afterwards if it was checked and the device calls it bad, and Scanned if
      not; every other entry is as it was. */
  lemma VisitedTags(es: seq<Status>, startEb: nat, devBad: seq<bool>, checked: bool, lo: nat, hi: nat)
    requires startEb + |devBad| <= |es| && lo <= hi <= |devBad|
    ensures var now := ScannedMap(es, startEb, devBad, checked, lo, hi);
            && (forall j :: startEb + lo <= j < startEb + hi && es[j] == Untagged ==>
                  now[j] == if checked && devBad[j - startEb] then Bad else Scanned)
            && (forall j :: 0 <= j < |es| && !(startEb + lo <= j < startEb + hi && es[j] == Untagged) ==>
                  now[j] == es[j])
  {
    forall j | 0 <= j < |es|
      ensures ScannedMap(es, startEb, devBad, checked, lo, hi)[j]
              == if startEb + lo <= j < startEb + hi then ScanStatus(es[j], checked && devBad[j - startEb]) else es[j]
    {
      ScannedMapAt(es, startEb, devBad, checked, lo, hi, j);
    }
  }

  /** span blocks from lo on are the fewest that hold need fit ones. */
  ghost predicate Shortest(unfit: seq<bool>, lo: nat, need: nat, span: nat)
  {
    && 0 < span && lo + span <= |unfit|
    && GoodBlocks(unfit, lo + span) - GoodBlocks(unfit, lo) == need
    && !unfit[lo + span - 1]
  }

  lemma {:induction false} GoodBlocksMonotone(bad: seq<bool>, j: nat, k: nat)
    requires j <= k <= |bad|
    ensures GoodBlocks(bad, j) <= GoodBlocks(bad, k)
    decreases k
  {
    if j < k { GoodBlocksMonotone(bad, j, k - 1); }
  }

  /** No shorter span will do. */
  lemma ShortestIsLeast(unfit: seq<bool>, lo: nat, need: nat, span: nat, other: nat)
    requires Shortest(unfit, lo, need, span) && lo + other <= |unfit|
    requires GoodBlocks(unfit, lo + other) - GoodBlocks(unfit, lo) >= need
    ensures span <= other
  {
    if other < span {
      GoodBlocksMonotone(unfit, lo + other, lo + span - 1);
    }
  }

  /** First block of the request, and the block after its last one, counted from the start of the partition. */
  function ScanFrom(p: Partition, offset: nat): int
    requires p.ebSize > 0
  {
    EbIndex(offset, p.ebSize) - p.startEb
  }

  function ScanEnd(p: Partition, offset: nat, length: nat, op: OperationMethod): int
    requires p.ebSize > 0
  {
    (match op
     case Random => EbIndex(offset + length + p.ebSize - 1, p.ebSize)
     case WholePartition(next) => EbIndex(next, p.ebSize)) - p.startEb
  }

  /** The number of fit blocks asked for; one is looked for even when none is asked for. */
  function Need(p: Partition, offset: nat, length: nat, op: OperationMethod): (n: nat)
    requires p.ebSize > 0
  {
    var n := ScanEnd(p, offset, length, op) - ScanFrom(p, offset);
    if n < 1 then 1 else n
  }

  /** The requests that are refused before any block is looked at. */
  predicate ScanRefused(p: Partition, offset: nat, length: int, op: OperationMethod)
    requires p.ebSize > 0
  {
    || length < 0
    || (op == Random && length == 0)
    || ScanFrom(p, offset) < 0
    || ScanEnd(p, offset, length, op) > p.ebCnt
  }

  /** The request in bytes: it starts in its first block, and its last block is the one that its end lies in or the one
      that it ends with; for a whole partition the block after its last one is the first of the next partition. */
  lemma RequestBlocks(p: Partition, offset: nat, length: nat, op: OperationMethod)
    requires p.ebSize > 0 && (op == Random ==> length > 0)
    ensures var from, end := ScanFrom(p, offset) + p.startEb, ScanEnd(p, offset, length, op) + p.startEb;
            && from * p.ebSize <= offset < (from + 1) * p.ebSize
            && match op {
                 case Random => (end - 1) * p.ebSize < offset + length <= end * p.ebSize
                 case WholePartition(next) => end * p.ebSize <= next < (end + 1) * p.ebSize
               }
  {
    BlockOfByte(offset, p.ebSize);
    match op
    case Random =>
      BlockOfByte(offset + length + p.ebSize - 1, p.ebSize);
      var end := EbIndex(offset + length + p.ebSize - 1, p.ebSize);
      assert (end - 1) * p.ebSize == end * p.ebSize - p.ebSize && (end + 1) * p.ebSize == end * p.ebSize + p.ebSize;
    case WholePartition(next) =>
      BlockOfByte(next, p.ebSize);
  }

  lemma BlockOfByte(x: nat, eb: nat)
    requires eb > 0
    ensures EbIndex(x, eb) * eb <= x < (EbIndex(x, eb) + 1) * eb
  {
    Split(x, eb);
    EbIsDivision(x, EbIndex(x, eb), eb);
  }

  /** The refused requests in bytes: empty ones, and those that leave the partition. A whole partition may end one block
      behind, but for its last byte. */
  lemma RefusedBytes(p: Partition, offset: nat, length: int, op: OperationMethod)
    requires p.Geometry()
    ensures ScanRefused(p, offset, length, op) <==>
            || length < 0
            || offset < p.startEb * p.ebSize
            || match op {
                 case Random => length == 0 || offset + length > (p.startEb + p.ebCnt) * p.ebSize
                 case WholePartition(next) => next >= (p.startEb + p.ebCnt + 1) * p.ebSize
               }
  {
    var last := p.startEb + p.ebCnt;
    Inside(offset, p.ebSize, p.startEb);
    EbIsDivision(offset, p.startEb, p.ebSize);
    EbIsDivision(offset, last, p.ebSize);
    EbIsDivision(offset, last + 1, p.ebSize);
    match op
    case Random => if length > 0 { Inside(offset + length + p.ebSize - 1, p.ebSize, last + 1); }
    case WholePartition(next) => Inside(next, p.ebSize, last + 1);
  }

  /** Blocks are checked except on NOR flash and when the caller asks not to skip bad blocks. */
  predicate Checked(p: Partition, noskipbad: bool)
  {
    p.kind != Nor && !noskipbad
  }

  function UnfitIn(p: Partition, noskipbad: bool): (u: seq<bool>)
    reads p
    requires p.Valid()
    ensures |u| == p.ebCnt
  {
    Unfit(p.Map(), p.startEb, p.devBad, Checked(p, noskipbad))
  }

  /** What one visited block does to the map; err when its bad block check itself fails. */
  method ScanBlock(p: Partition, eb: nat, noskipbad: bool) returns (err: bool, fit: bool)
    requires p.Valid() && p.hasMap && eb < p.ebCnt
    modifies p`es, p`badCnt
    ensures p.Valid() && Sticky(old(p.es), p.es)
    ensures err ==> p.checkFails(eb)
    ensures !err ==>
              var s, i, bad := old(p.es), p.startEb + eb, p.kind != Nor && !noskipbad && p.devBad[eb];
              && fit == !(bad && s[i] in {Untagged, Bad})
              && p.es == if s[i] == Untagged then s[i := if bad then Bad else Scanned] else s
  {
    var abs := p.startEb + eb;
    if p.es[abs] != Untagged && p.es[abs] != Bad {
      return false, true;
    }
    p.SetStatus(abs, Scanned);
    if p.kind == Nor {
      return false, true;
    }
    if noskipbad {
      return false, true;
    }
    if p.checkFails(eb) {
      return true, false;
    }
    if p.devBad[eb] {
      p.SetStatus(abs, Bad);
      return false, false;
    }
    return false, true;
  }

  lemma {:induction false} ScannedMapSticky(es: seq<Status>, startEb: nat, devBad: seq<bool>, checked: bool, lo: nat,
                                            hi: nat)
    requires startEb + |devBad| <= |es| && lo <= hi <= |devBad|
    ensures Sticky(es, ScannedMap(es, startEb, devBad, checked, lo, hi))
    decreases hi
  {
    if lo < hi { ScannedMapSticky(es, startEb, devBad, checked, lo, hi - 1); }
  }

  lemma StickyTrans(es: seq<Status>, mid: seq<Status>, es': seq<Status>)
    requires Sticky(es, mid) && Sticky(mid, es')
    ensures Sticky(es, es')
  {}

  lemma UnfitAt(es: seq<Status>, startEb: nat, devBad: seq<bool>, checked: bool, i: nat)
    requires startEb + |devBad| <= |es| && i < |devBad|
    ensures Unfit(es, startEb, devBad, checked)[i] == (checked && devBad[i] && es[startEb + i] in {Untagged, Bad})
  {}

  /** The scan of blocks lo to hi made the map es out of es0 and found count fit blocks. */
  ghost predicate Scanning(es0: seq<Status>, es: seq<Status>, startEb: nat, devBad: seq<bool>, checked: bool, lo: nat,
                           hi: nat, count: int)
  {
    && startEb + |devBad| <= |es0| && lo <= hi <= |devBad|
    && es == ScannedMap(es0, startEb, devBad, checked, lo, hi)
    && count == GoodBlocks(Unfit(es0, startEb, devBad, checked), hi) - GoodBlocks(Unfit(es0, startEb, devBad, checked),
                                                                                  lo)
  }

  lemma ScanningNext(es0: seq<Status>, es: seq<Status>, startEb: nat, devBad: seq<bool>, checked: bool, lo: nat,
                     hi: nat, count: int)
    requires Scanning(es0, es, startEb, devBad, checked, lo, hi, count) && hi < |devBad|
    ensures Sticky(es0, es)
    ensures var i := startEb + hi;
            var fit := !(checked && devBad[hi] && es[i] in {Untagged, Bad});
            && fit == !Unfit(es0, startEb, devBad, checked)[hi]
            && Scanning(es0, es[i := ScanStatus(es[i], checked && devBad[hi])], startEb, devBad, checked, lo, hi + 1,
                        count + if fit then 1 else 0)
  {
    ScannedMapAt(es0, startEb, devBad, checked, lo, hi, startEb + hi);
    ScannedMapSticky(es0, startEb, devBad, checked, lo, hi);
    UnfitAt(es0, startEb, devBad, checked, hi);
  }

  lemma ScanningStart(es0: seq<Status>, startEb: nat, devBad: seq<bool>, checked: bool, lo: nat)
    requires startEb + |devBad| <= |es0| && lo <= |devBad|
    ensures Scanning(es0, es0, startEb, devBad, checked, lo, lo, 0)
  {}

  /** Visits blocks from lo on until need of them are fit. */
  method ScanLoop(p: Partition, lo: nat, want: int, noskipbad: bool, ghost need: nat)
    returns (err: bool, eb: nat, ghost count: int)
    requires p.Valid() && p.hasMap && lo <= p.ebCnt && need == if want < 1 then 1 else want
    modifies p`es, p`badCnt
    ensures p.Valid() && Sticky(old(p.es), p.es)
    ensures err ==> exists i :: 0 <= i < p.ebCnt && p.checkFails(i)
    ensures !err ==> lo <= eb <= p.ebCnt
    ensures !err ==> Scanning(old(p.es), p.es, p.startEb, p.devBad, Checked(p, noskipbad), lo,
                              if eb < p.ebCnt then eb + 1 else eb, count)
    ensures !err ==> if eb < p.ebCnt then count == need && !old(UnfitIn(p, noskipbad))[eb] else count < need
  {
    hide EbIndex, EbOffset, ScannedMap, GoodBlocks, CountBad, Unfit;
    ghost var es, checked := p.es, Checked(p, noskipbad);
    count := 0;
    var total := if want < 0 then 0 else EbStart(want, p.ebSize);
    var pass := 0;
    eb, err := lo, false;
    ScanningStart(es, p.startEb, p.devBad, checked, lo);
    while eb < p.ebCnt
      invariant lo <= eb <= p.ebCnt && p.Valid()
      invariant Scanning(es, p.es, p.startEb, p.devBad, checked, lo, eb, count)
      invariant pass == EbStart(count, p.ebSize) && 0 <= count < need
    {
      ScanningNext(es, p.es, p.startEb, p.devBad, checked, lo, eb, count);
      ghost var visited := p.es;
      var fit;
      err, fit := ScanBlock(p, eb, noskipbad);
      StickyTrans(es, visited, p.es);
      if err {
        return;
      }
      if fit {
        if want >= 0 { StartOrder(want, count + 1, p.ebSize); }
        pass, count := pass + p.ebSize, count + 1;
        if pass >= total {
          break;
        }
      }
      eb := eb + 1;
    }
    if eb == p.ebCnt { ScannedMapSticky(es, p.startEb, p.devBad, checked, lo, eb); }
  }

  /** What a scan that met no device error returns: the shortest span, or, when the partition runs out, an error or one
      block too many. */
  ghost predicate ScanOutcome(unfit: seq<bool>, lo: nat, need: nat, op: OperationMethod, found: bool, span: nat, r: int,
                              ebSize: nat)
  {
    if found then Shortest(unfit, lo, need, span) && r == EbStart(span, ebSize)
    else (
      && lo + span == |unfit| && GoodBlocks(unfit, lo + span) - GoodBlocks(unfit, lo) < need
      && r == (if op == Random then -1 else EbStart(span + 1, ebSize))
    )
  }

  /** From lo on fewer blocks count than are asked for. */
  predicate TooFewFit(unfit: seq<bool>, lo: nat, need: nat)
    requires lo <= |unfit|
  {
    GoodBlocks(unfit, |unfit|) - GoodBlocks(unfit, lo) < need
  }

  /** The loop stops at a block exactly when enough of them count. */
  lemma StopsExactly(unfit: seq<bool>, lo: nat, need: nat, op: OperationMethod, found: bool, span: nat, r: int,
                     ebSize: nat)
    requires lo <= |unfit| && ScanOutcome(unfit, lo, need, op, found, span, r, ebSize)
    ensures found <==> !TooFewFit(unfit, lo, need)
  {
    if found { GoodBlocksMonotone(unfit, lo + span, |unfit|); }
  }

  /** A scan of the whole partition for more good blocks than there are returns one block more than the partition has
      from lo on, and only then; every other scan then fails. */
  lemma TooFewResult(unfit: seq<bool>, lo: nat, need: nat, op: OperationMethod, found: bool, span: nat, r: int,
                     ebSize: nat)
    requires ebSize > 0 && lo <= |unfit| && ScanOutcome(unfit, lo, need, op, found, span, r, ebSize)
    ensures TooFewFit(unfit, lo, need) <==> r == if op == Random then -1 else EbStart(|unfit| - lo + 1, ebSize)
  {
    StopsExactly(unfit, lo, need, op, found, span, r, ebSize);
    if found { StartOrder(|unfit| - lo + 1, span, ebSize); }
  }

  /** One block, which is bad: the scan of the whole partition reports two. */
  lemma TwoOfOne(unfit: seq<bool>, next: nat, found: bool, span: nat, r: int, ebSize: nat)
    requires unfit == [true] && ebSize > 0 && ScanOutcome(unfit, 0, 1, WholePartition(next), found, span, r, ebSize)
    ensures r == EbStart(2, ebSize) == EbStart(|unfit|, ebSize) + ebSize
  {
    assert GoodBlocks(unfit, 1) == GoodBlocks(unfit, 0);
    TooFewResult(unfit, 0, 1, WholePartition(next), found, span, r, ebSize);
  }

  /** mtd_block_scan; found when the loop stopped at a block. A scan of the whole partition that starts behind its end
      visits no block and returns the size of one. */
  method Scan(p: Partition, offset: nat, length: int, op: OperationMethod, noskipbad: bool)
    returns (r: int, failed: bool, ghost found: bool, ghost span: nat)
    requires p.Valid()
    modifies p`hasMap, p`es, p`badCnt
    ensures p.Valid() && (old(p.hasMap) ==> p.hasMap) && Sticky(old(p.Map()), p.Map())
    ensures ScanRefused(p, offset, length, op) ==> r == -1
    ensures failed ==> r == -1 && exists i :: 0 <= i < p.ebCnt && p.checkFails(i)
    ensures !ScanRefused(p, offset, length, op) && ScanFrom(p, offset) > p.ebCnt ==>
              !failed && op != Random && r == p.ebSize && p.hasMap && p.es == old(p.Map())
    ensures !failed && !ScanRefused(p, offset, length, op) && ScanFrom(p, offset) <= p.ebCnt ==>
              && ScanOutcome(old(UnfitIn(p, noskipbad)), ScanFrom(p, offset), Need(p, offset, length, op), op, found,
                             span, r, p.ebSize)
              && p.hasMap
              && p.es == ScannedMap(old(p.Map()), p.startEb, p.devBad, Checked(p, noskipbad), ScanFrom(p, offset),
                                    ScanFrom(p, offset) + span)
    ensures !failed && !ScanRefused(p, offset, length, op) && ScanFrom(p, offset) <= p.ebCnt ==>
              var from, was := EbIndex(offset, p.ebSize), old(p.Map());
              && p.startEb <= from <= from + span <= p.startEb + p.ebCnt
              && (forall j :: from <= j < from + span && was[j] == Untagged ==>
                    p.es[j] == if p.kind != Nor && !noskipbad && p.devBad[j - p.startEb] then Bad else Scanned)
              && (forall j :: 0 <= j < p.totalEb && !(from <= j < from + span && was[j] == Untagged) ==>
                    p.es[j] == was[j])
  {
    hide EbIndex, EbOffset, EbStart, ScannedMap, GoodBlocks, CountBad, Unfit, ScanOutcome, ScanStatus;
    failed, found, span := false, false, 0;
    if length < 0 {
      return -1, failed, found, span;
    }
    if op == Random && length == 0 {
      return -1, failed, found, span;
    }
    var startEb := ScanFrom(p, offset);
    var endEb := ScanEnd(p, offset, length, op);
    if startEb < 0 || endEb > p.ebCnt {
      return -1, failed, found, span;
    }
    if startEb > p.ebCnt {
      DivMonotone(offset, offset + length + p.ebSize - 1, p.ebSize);
      p.MapInit();
      return p.ebSize, failed, found, span;
    }
    ghost var was := p.Map();
    r, failed, found, span := ScanBlocks(p, startEb, endEb - startEb, op, noskipbad);
    if !failed { VisitedTags(was, p.startEb, p.devBad, Checked(p, noskipbad), startEb, startEb + span); }
  }

  /** The scan of an accepted request for want blocks from lo on. */
  method ScanBlocks(p: Partition, lo: nat, want: int, op: OperationMethod, noskipbad: bool)
    returns (r: int, failed: bool, ghost found: bool, ghost span: nat)
    requires p.Valid() && lo <= p.ebCnt
    modifies p`hasMap, p`es, p`badCnt
    ensures p.Valid() && p.hasMap && Sticky(old(p.Map()), p.es)
    ensures failed ==> r == -1 && exists i :: 0 <= i < p.ebCnt && p.checkFails(i)
    ensures !failed ==>
              && lo + span <= p.ebCnt
              && ScanOutcome(old(UnfitIn(p, noskipbad)), lo, if want < 1 then 1 else want, op, found, span, r, p.ebSize)
              && p.es == ScannedMap(old(p.Map()), p.startEb, p.devBad, Checked(p, noskipbad), lo, lo + span)
  {
    hide EbIndex, EbOffset, ScannedMap, GoodBlocks, CountBad, Unfit;
    ghost var unfit, need: nat := UnfitIn(p, noskipbad), if want < 1 then 1 else want;
    p.MapInit();
    ghost var count;
    var eb;
    failed, eb, count := ScanLoop(p, lo, want, noskipbad, need);
    if failed {
      return -1, true, false, 0;
    }
    found := eb < p.ebCnt;
    span := if found then eb + 1 - lo else eb - lo;
    r := Outcome(unfit, lo, eb, p.ebCnt, need, op, count, p.ebSize);
  }

  /** The last test and the length returned. */
  function Outcome(ghost unfit: seq<bool>, lo: nat, eb: nat, cnt: nat, ghost need: nat, op: OperationMethod,
                   ghost count: int, ebSize: nat): (r: int)
    requires lo <= eb <= |unfit| == cnt
    requires count == GoodBlocks(unfit, if eb < |unfit| then eb + 1 else eb) - GoodBlocks(unfit, lo)
    requires if eb < |unfit| then count == need && !unfit[eb] else count < need
    ensures ScanOutcome(unfit, lo, need, op, eb < |unfit|, if eb < |unfit| then eb + 1 - lo else eb - lo, r, ebSize)
  {
    if op == Random && eb >= cnt then -1 else EbStart(eb - lo + 1, ebSize)
  }

  // ---------------------------------------------------------------- mtd_basic_read

  /** MTD_BLOCK_ALIGN. */
  function Align(x: nat, eb: nat): (r: nat)
    requires eb > 0
    ensures r <= x
  {
    x - EbOffset(x, eb)
  }

  lemma AlignNext(x: nat, eb: nat)
    requires eb > 0
    ensures Align(x + eb, eb) == EbStart(EbIndex(x, eb) + 1, eb)
    ensures EbIndex(x + eb, eb) == EbIndex(x, eb) + 1
  {
    Split(x, eb);
    DivMod(EbIndex(x, eb) + 1, eb, EbOffset(x, eb));
  }

  lemma AlignSame(x: nat, y: nat, eb: nat)
    requires eb > 0
    ensures Align(x, eb) == Align(y, eb) <==> EbIndex(x, eb) == EbIndex(y, eb)
  {
    Split(x, eb);
    Split(y, eb);
    DivMod(EbIndex(x, eb), eb, 0);
    DivMod(EbIndex(y, eb), eb, 0);
  }

  lemma SkipNext(bad: seq<bool>, eb: nat, x: nat)
    requires eb > 0 && OnBad(bad, eb, x)
    ensures var y := Align(x + eb, eb); EbIndex(y, eb) == EbIndex(x, eb) + 1 && Skip(bad, eb, y) == Skip(bad, eb, x)
  {
    AlignNext(x, eb);
    NextBlock(x, eb);
    Split(x, eb);
  }

  /** The offset, counted from the start of the partition, lies in it. */
  predicate InPartition(cnt: nat, eb: nat, x: nat)
    requires eb > 0
    ensures InPartition(cnt, eb, x) <==> EbIndex(x, eb) < cnt
  {
    Inside(x, eb, cnt);
    x < EbStart(cnt, eb)
  }

  /** On the first byte of a block not looked at yet, moves past bad blocks; ok while the partition lasts. */
  method SeekGood(es: seq<Status>, nand: bool, eb: nat, offset: nat, blockstart: int)
    returns (ok: bool, offset': nat, blockstart': int)
    requires eb > 0 && InPartition(|es|, eb, offset)
    requires blockstart == Align(offset, eb) ==> !OnBad(BadFlags(es, nand), eb, offset)
    ensures offset' == Skip(BadFlags(es, nand), eb, offset)
    ensures ok <==> InPartition(|es|, eb, offset')
    ensures ok ==> blockstart' == Align(offset', eb)
  {
    ok, offset', blockstart' := true, offset, blockstart;
    if blockstart != Align(offset, eb) {
      blockstart' := Align(offset, eb);
      if nand {
        offset' := SkipLoop(es, eb, offset, BadFlags(es, nand));
        if !InPartition(|es|, eb, offset') {
          return false, offset', blockstart';
        }
        blockstart' := Align(offset', eb);
      }
    }
  }

  /** The inner loop over bad blocks. */
  method SkipLoop(es: seq<Status>, eb: nat, offset: nat, ghost bad: seq<bool>) returns (offset': nat)
    requires eb > 0
    requires bad == BadFlags(es, true)
    ensures offset' == Skip(bad, eb, offset)
  {
    offset' := offset;
    ghost var left := BlocksLeft(bad, eb, offset);
    while InBadBlock(es, eb, offset')
      invariant Skip(bad, eb, offset') == Skip(bad, eb, offset)
      invariant left == BlocksLeft(bad, eb, offset')
      decreases left
    {
      offset', left := StepOver(bad, eb, offset'), left - 1;
    }
  }

  ghost function BlocksLeft(bad: seq<bool>, eb: nat, x: nat): nat
    requires eb > 0
  {
    if EbIndex(x, eb) < |bad| then |bad| - EbIndex(x, eb) else 0
  }

  /** The offset lies in the partition and the map calls its block BAD. */
  predicate InBadBlock(es: seq<Status>, eb: nat, x: nat)
    requires eb > 0
    ensures InBadBlock(es, eb, x) <==> OnBad(BadFlags(es, true), eb, x)
  {
    InPartition(|es|, eb, x) && es[EbIndex(x, eb)] == Bad
  }

  /** The first byte of the next block. */
  function StepOver(ghost bad: seq<bool>, eb: nat, x: nat): (y: nat)
    requires eb > 0 && OnBad(bad, eb, x)
    ensures Skip(bad, eb, y) == Skip(bad, eb, x)
    ensures BlocksLeft(bad, eb, x) == BlocksLeft(bad, eb, y) + 1
  {
    SkipNext(bad, eb, x);
    Align(x + eb, eb)
  }

  /** data is what the cells hold at the places of the stream that starts at x. */
  ghost predicate ReadsAs(bad: seq<bool>, eb: nat, x: nat, cells: seq<Byte>, data: seq<Byte>)
    requires eb > 0
  {
    && Fits(bad, eb, x, |data|)
    && forall k :: 0 <= k < |data| ==> Place(bad, eb, x, k) < |cells| && data[k] == cells[Place(bad, eb, x, k)]
  }

  lemma ReadsMore(bad: seq<bool>, eb: nat, x: nat, cells: seq<Byte>, data: seq<Byte>, n: nat)
    requires eb > 0 && ReadsAs(bad, eb, x, cells, data) && n > 0
    requires var q := Place(bad, eb, x, |data|); EbIndex(q, eb) < |bad| && EbOffset(q, eb) + n <= eb && q + n <= |cells|
    ensures var q := Place(bad, eb, x, |data|);
            Reading(bad, eb, x, cells, q + n, Align(q, eb), data + cells[q..q + n])
  {
    hide EbIndex, EbOffset, EbStart;
    Contiguous(bad, eb, x, |data|, n);
    NextStart(bad, eb, Place(bad, eb, x, |data|), n);
  }

  /** Inside one block, as the length test of the device demands. */
  lemma UnitInside(q: nat, n: nat, eb: nat, cnt: nat)
    requires eb > 0 && EbIndex(q, eb) < cnt && EbOffset(q, eb) + n <= eb
    ensures q + n <= EbStart(cnt, eb)
  {
    Split(q, eb);
    StartOrder(EbIndex(q, eb), cnt, eb);
  }

  function Wanted(length: int): nat { if length < 0 then 0 else length }

  /** After done bytes the transfer ends: all wanted bytes found room, or the partition ran out, which is an error only
      before its very end. */
  ghost predicate Ends(bad: seq<bool>, eb: nat, x: nat, want: nat, done: nat, start: nat, r: int)
    requires eb > 0
  {
    && done <= want && Fits(bad, eb, x, done)
    && (done == want || !Fits(bad, eb, x, done + 1))
    && r == if done == want || !InPartition(|bad|, eb, After(bad, eb, x, done)) then start + After(bad, eb, x, done)
         else -1
  }

  /** The next unit: what is still wanted, up to the end of the block. */
  function Unit(len: nat, off: nat, eb: nat): (n: nat)
    requires eb > 0 && len > 0
    ensures 0 < n <= len && EbOffset(off, eb) + n <= eb
  {
    if len > eb - EbOffset(off, eb) then eb - EbOffset(off, eb) else len
  }

  /** mtd_basic_read: the bytes of good blocks, in order; failed when the device refuses a read. */
  method Read(p: Partition, offset: nat, length: int, buffer: array<Byte>)
    returns (r: int, failed: bool, ghost done: nat)
    requires p.Valid() && p.Start() <= offset && length <= buffer.Length
    modifies buffer
    ensures done <= buffer.Length && buffer[done..] == old(buffer[done..])
    ensures !p.hasMap ==> r == -1 && done == 0
    ensures failed ==> r == -1 && exists q :: p.readFails(q)
    ensures p.hasMap ==> ReadsAs(p.RelBad(), p.ebSize, offset - p.Start(), p.cells, buffer[..done])
    ensures p.hasMap && !failed ==>
              Ends(p.RelBad(), p.ebSize, offset - p.Start(), Wanted(length), done, p.Start(), r)
  {
    if !p.hasMap {
      return -1, false, 0;
    }
    r, failed, done := ReadLoop(p.es[..p.ebCnt], p.cells, p.IsNand(), p.ebSize, p.Start(), p.readFails,
                                offset - p.Start(), length, buffer);
  }

  method ReadLoop(es: seq<Status>, cells: seq<Byte>, nand: bool, eb: nat, start: nat, readFails: nat -> bool, x: nat,
                  length: int, buffer: array<Byte>)
    returns (r: int, failed: bool, ghost done: nat)
    requires eb > 0 && |cells| == EbStart(|es|, eb) && length <= buffer.Length
    modifies buffer
    ensures done <= buffer.Length && buffer[done..] == old(buffer[done..])
    ensures ReadsAs(BadFlags(es, nand), eb, x, cells, buffer[..done])
    ensures failed ==> r == -1 && exists q :: readFails(q)
    ensures !failed ==> Ends(BadFlags(es, nand), eb, x, Wanted(length), done, start, r)
  {
    hide EbIndex, EbOffset, EbStart;
    ghost var bad := BadFlags(es, nand);
    var len, off: nat, blockstart: int, pos := length, x, -1, 0;
    failed, done := false, 0;
    while len > 0 && InPartition(|es|, eb, off)
      invariant 0 <= pos <= Wanted(length) && Wanted(length) - pos == Wanted(len)
      invariant Reading(bad, eb, x, cells, off, blockstart, buffer[..pos])
      invariant buffer[pos..] == old(buffer[pos..])
      decreases len
    {
      var ok;
      done := pos;
      ok, off, blockstart := SeekGood(es, nand, eb, off, blockstart);
      if !ok {
        return -1, false, done;
      }
      var unit := Unit(len, off, eb);
      if readFails(off) {
        return -1, true, done;
      }
      ReadUnit(bad, eb, x, cells, off, unit, buffer, pos);
      len, pos, off := len - unit, pos + unit, off + unit;
    }
    done := pos;
    r := off + start;
  }

  /** One unit: the rest of a block at most. */
  method ReadUnit(ghost bad: seq<bool>, eb: nat, ghost x: nat, cells: seq<Byte>, off: nat, unit: nat,
                  buffer: array<Byte>, pos: nat)
    requires eb > 0 && pos + unit <= buffer.Length && |cells| == EbStart(|bad|, eb)
    requires ReadsAs(bad, eb, x, cells, buffer[..pos]) && off == Place(bad, eb, x, pos)
    requires EbIndex(off, eb) < |bad| && 0 < unit <= eb - EbOffset(off, eb)
    modifies buffer
    ensures off + unit <= |cells|
    ensures Reading(bad, eb, x, cells, off + unit, Align(off, eb), buffer[..pos + unit])
    ensures buffer[pos + unit..] == old(buffer[pos + unit..])
  {
    hide EbIndex, EbOffset, EbStart;
    UnitInside(off, unit, eb, |bad|);
    ghost var data, chunk := buffer[..pos], cells[off..off + unit];
    ReadsMore(bad, eb, x, cells, data, unit);
    CopyOut(cells[off..off + unit], buffer, pos);
    assert buffer[..pos + unit] == data + chunk;
  }

  /** The loop state: the bytes read so far, the cursor behind them, and the block last looked at. */
  ghost predicate Reading(bad: seq<bool>, eb: nat, x: nat, cells: seq<Byte>, off: nat, blockstart: int, data: seq<Byte>)
    requires eb > 0
  {
    && ReadsAs(bad, eb, x, cells, data)
    && off == After(bad, eb, x, |data|)
    && (blockstart == Align(off, eb) ==> !OnBad(bad, eb, off))
  }

  /** Behind a unit of a good block either the same block goes on, or another block starts. */
  lemma NextStart(bad: seq<bool>, eb: nat, q: nat, n: nat)
    requires eb > 0 && !OnBad(bad, eb, q) && EbOffset(q, eb) + n <= eb
    ensures Align(q, eb) == Align(q + n, eb) ==> !OnBad(bad, eb, q + n)
  {
    AlignSame(q, q + n, eb);
  }

  /** The device's read: data goes to buffer[pos..]. */
  method CopyOut(data: seq<Byte>, buffer: array<Byte>, pos: nat)
    requires pos + |data| <= buffer.Length
    modifies buffer
    ensures buffer[..pos + |data|] == old(buffer[..pos]) + data
    ensures buffer[pos + |data|..] == old(buffer[pos + |data|..])
  {
    forall j | 0 <= j < |data| {
      buffer[pos + j] := data[j];
    }
  }
}
