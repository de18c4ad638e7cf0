/** ubifs.c: a volume is written logical eraseblock by logical eraseblock onto the good blocks of a partition. */
module Ubi {
  import opened Wrappers
  import opened WordArith
  import opened Bits
  import opened Division
  import opened Placement
  import opened Mtd
  import opened FlashErase
  import opened FlashWrite

  const EB_BAD: int := 0xFFFFFFFC
  const EC_MAX: int := 0x7FFFFFFF
  const MAX_CONSECUTIVE_BAD_BLOCKS: int := 4

  // ---------------------------------------------------------------- drop_ffs

  /** The rest of buf from n on is 0xff. */
  predicate OnlyFfs(buf: seq<Byte>, n: int)
  {
    forall i :: n <= i < |buf| && 0 <= i ==> buf[i] == ERASED_BYTE
  }

  /** The shortest multiple of the I/O size behind which buf holds 0xff only. */
  method DropFfs(minIo: nat, buf: seq<Byte>) returns (len: nat)
    requires minIo > 0
    ensures len % minIo == 0 && OnlyFfs(buf, len)
    ensures forall n: nat | n % minIo == 0 && OnlyFfs(buf, n) :: len <= n
    ensures |buf| % minIo == 0 ==> len <= |buf|
  {
    var i := |buf| - 1;
    while i >= 0
      invariant -1 <= i < |buf| && OnlyFfs(buf, i + 1)
    {
      if buf[i] != 0xFF {
        break;
      }
      i := i - 1;
    }
    var used := i + 1;
    len := (used + minIo - 1) / minIo * minIo;
    forall n: nat | used <= n && n % minIo == 0
      ensures len <= n
    {
      RoundUp(used, minIo, n);
    }
    RoundUp(used, minIo, 0);
  }

  /** Rounding up to a multiple gives the smallest multiple that is not below. */
  lemma RoundUp(used: nat, m: nat, n: nat)
    requires m > 0 && n % m == 0
    ensures var len := (used + m - 1) / m * m; used <= len && len % m == 0 && (used <= n ==> len <= n)
  {
    var q, r := (used + m - 1) / m, (used + m - 1) % m;
    QuotientAndRest(used + m - 1, m);
    Quotient(q, m, 0);
    QuotientAndRest(n, m);
    MultipleOrder(n / m, q, m);
    MultipleOrder(q, n / m + 1, m);
    assert (n / m + 1) * m == n / m * m + m;
  }

  /** Written to an erased block, the prefix of n bytes leaves what the whole buffer would exactly when only 0xff
      follows it. */
  lemma PrefixSuffices(buf: seq<Byte>, n: nat)
    requires n <= |buf|
    ensures Programmed(Blank(|buf|), 0, buf[..n]) == Programmed(Blank(|buf|), 0, buf) <==> OnlyFfs(buf, n)
    ensures Programmed(Blank(|buf|), 0, buf) == buf
  {
    var part, whole := Programmed(Blank(|buf|), 0, buf[..n]), Programmed(Blank(|buf|), 0, buf);
    forall j | 0 <= j < |buf|
      ensures whole[j] == buf[j] && part[j] == if j < n then buf[j] else ERASED_BYTE
    {
      ByteAndOnes(buf[j]);
    }
    if part == whole {
      forall j | n <= j < |buf|
        ensures buf[j] == ERASED_BYTE
      {
        assert part[j] == whole[j];
      }
    }
  }

  // ---------------------------------------------------------------- consecutive_bad_check

  /** The counter after these blocks were marked, in this order. */
  function RunLength(marked: seq<nat>): (run: nat)
    ensures run > 0
  {
    var k := |marked| - 1;
    if k <= 0 then 1 else if marked[k] == marked[k - 1] + 1 then RunLength(marked[..k]) + 1 else 1
  }

  /** It reaches n exactly when the last n blocks marked follow each other. */
  lemma {:induction false} RunIs(marked: seq<nat>, n: nat)
    requires marked != [] && n > 0
    ensures RunLength(marked) <= |marked|
    ensures RunLength(marked) >= n <==>
              |marked| >= n && forall i :: |marked| - n < i < |marked| ==> marked[i] == marked[i - 1] + 1
    decreases |marked|
  {
    var k := |marked| - 1;
    if k > 0 && marked[k] == marked[k - 1] + 1 {
      if n > 1 { RunIs(marked[..k], n - 1); } else { RunIs(marked[..k], 1); }
    }
  }

  lemma RunNext(marked: seq<nat>, eb: nat)
    ensures RunLength(marked + [eb]) == if marked != [] && eb == marked[|marked| - 1] + 1 then RunLength(marked) + 1
              else 1
  {
    assert (marked + [eb])[..|marked|] == marked;
  }

  predicate FourInARow(marked: seq<nat>)
  {
    |marked| >= MAX_CONSECUTIVE_BAD_BLOCKS && forall i :: |marked| - MAX_CONSECUTIVE_BAD_BLOCKS < i < |marked| ==>
      marked[i] == marked[i - 1] + 1
  }

  // ---------------------------------------------------------------- the volume being written

  /** The scan result, the header generators of the UBI library, and the output buffer of one eraseblock. */
  class Volume {
    const part: Partition
    const vidHdrOffs: nat
    const dataOffs: nat
    const lebSize: nat
    const bbAllowed: bool
    const overrideEc: bool
    const presetEc: int
    const meanEc: int
    const changeEch: (seq<Byte>, int) -> Option<seq<Byte>>
    const vidHdr: (nat, seq<Byte>) -> seq<Byte>
    const tortureFails: nat -> bool
    const tortureLeaves: nat -> Byte
    var ec: seq<int>
    var badCnt: int
    var prevBad: int
    var consecutiveBad: int
    var lnum: nat
    var outbuf: seq<Byte>
    ghost var marked: seq<nat>

    /** ubi_params_init: the first logical eraseblock is number 0, and the output buffer is blank up to the data. */
    constructor (p: Partition, vidHdrOffs: nat, dataOffs: nat, lebSize: nat, bbAllowed: bool, overrideEc: bool,
                 presetEc: int, scanned: seq<int>, scannedBad: int, meanEc: int,
                 changeEch: (seq<Byte>, int) -> Option<seq<Byte>>, vidHdr: (nat, seq<Byte>) -> seq<Byte>,
                 tortureFails: nat -> bool, tortureLeaves: nat -> Byte)
      ensures part == p && ec == scanned && lnum == 0 && outbuf == Blank(p.ebSize)
      ensures this.vidHdrOffs == vidHdrOffs && this.dataOffs == dataOffs && this.lebSize == lebSize
      ensures this.changeEch == changeEch && this.vidHdr == vidHdr
      ensures this.bbAllowed == bbAllowed && marked == [] && Counted()
      ensures this.overrideEc == overrideEc && this.presetEc == presetEc && this.meanEc == meanEc
      ensures this.tortureFails == tortureFails && this.tortureLeaves == tortureLeaves
    {
      part, ec, badCnt, lnum := p, scanned, scannedBad, 0;
      outbuf := Blank(p.ebSize);
      prevBad, consecutiveBad, marked := -1, 1, [];
      this.vidHdrOffs, this.dataOffs, this.lebSize := vidHdrOffs, dataOffs, lebSize;
      this.bbAllowed, this.overrideEc, this.presetEc, this.meanEc := bbAllowed, overrideEc, presetEc, meanEc;
      this.changeEch, this.vidHdr := changeEch, vidHdr;
      this.tortureFails, this.tortureLeaves := tortureFails, tortureLeaves;
    }

    /** The header functions keep to their place in the buffer. */
    ghost predicate Headers()
    {
      && vidHdrOffs <= dataOffs && dataOffs + lebSize <= part.ebSize && lebSize > 0
      && (forall b, e :: changeEch(b, e).Some? ==>
          |changeEch(b, e).value| == |b| && SameFrom(changeEch(b, e).value, b, vidHdrOffs))
      && (forall n, d :: |vidHdr(n, d)| <= dataOffs - vidHdrOffs)
    }

    ghost predicate Valid()
      reads this, part
    {
      part.Valid() && part.hasMap && |ec| == part.ebCnt && |outbuf| == part.ebSize && Headers() && Counted()
    }

    /** The static counters of consecutive_bad_check tell how many of the blocks marked last are neighbours. */
    ghost predicate Counted()
      reads this
    {
      if marked == [] then prevBad == -1 else prevBad == marked[|marked| - 1] && consecutiveBad == RunLength(marked)
    }

    /** consecutive_bad_check: gives up when the last four blocks marked are neighbours. */
    method ConsecutiveBadCheck(eb: nat) returns (ok: bool)
      requires Counted()
      modifies this`prevBad, this`consecutiveBad, this`marked
      ensures Counted() && marked == old(marked) + [eb]
      ensures ok <==> !FourInARow(marked)
      ensures var n := |marked|;
              ok <==> !(n >= 4 && marked[n - 3] == marked[n - 4] + 1 && marked[n - 2] == marked[n - 3] + 1
                        && marked[n - 1] == marked[n - 2] + 1)
    {
      hide RunLength;
      if prevBad == -1 {
        prevBad := eb;
      }
      if eb == prevBad + 1 {
        consecutiveBad := consecutiveBad + 1;
      } else {
        consecutiveBad := 1;
      }
      prevBad := eb;
      ok := consecutiveBad < MAX_CONSECUTIVE_BAD_BLOCKS;
      RunNext(marked, eb);
      marked := marked + [eb];
      RunIs(marked, MAX_CONSECUTIVE_BAD_BLOCKS);
    }

    /** mark_bad: fails when bad blocks are not supported, when the device fails, or after four neighbours. */
    method MarkBad(eb: nat) returns (ok: bool)
      requires Valid() && eb < part.ebCnt
      modifies this`prevBad, this`consecutiveBad, this`marked, this`badCnt, this`ec, part`devBad
      ensures Valid()
      ensures ok <==> bbAllowed && !part.markFails(eb) && !FourInARow(old(marked) + [eb])
      ensures if bbAllowed && !part.markFails(eb)
              then ec == old(ec)[eb := 0xFFFFFFFC] && part.devBad == old(part.devBad)[eb := true]
                  && marked == old(marked) + [eb]
              else ec == old(ec) && part.devBad == old(part.devBad) && marked == old(marked)
    {
      if !bbAllowed {
        return false;
      }
      if part.markFails(eb) {
        return false;
      }
      part.devBad := part.devBad[eb := true];
      badCnt := badCnt + 1;
      ec := ec[eb := EB_BAD];
      ok := ConsecutiveBadCheck(eb);
    }

    /** The erase counter for the header. */
    function NextEc(eb: nat): int
      reads this
      requires eb < |ec|
    {
      if overrideEc then presetEc else if ec[eb] <= EC_MAX then ec[eb] + 1 else meanEc
    }
  }

  ghost predicate SameFrom(a: seq<Byte>, b: seq<Byte>, n: nat)
  {
    |a| == |b| && forall i :: n <= i < |a| ==> a[i] == b[i]
  }

  // ---------------------------------------------------------------- ubi_write_one_peb

  /** Block b holds the buffer. */
  ghost predicate BlockHolds(cells: seq<Byte>, eb: nat, b: nat, buf: seq<Byte>)
    requires eb > 0
  {
    |buf| == eb && forall q :: 0 <= q < |cells| && EbIndex(q, eb) == b ==> cells[q] == buf[EbOffset(q, eb)]
  }

  /** What passing over blocks from..to may have done: each is bad now or failed a write; nothing outside them
      changed. */
  ghost predicate Passed(p: Partition, cells0: seq<Byte>, cells: seq<Byte>, ec0: seq<int>, ec: seq<int>, from: nat,
                         to: nat)
    requires p.ebSize > 0
  {
    && |cells| == |cells0| && |ec| == |ec0|
    && (forall q :: 0 <= q < |cells| && !(from <= EbIndex(q, p.ebSize) < to) ==> cells[q] == cells0[q])
    && (forall b :: 0 <= b < |ec| && !(from <= b < to) ==> ec[b] == ec0[b])
    && (forall b :: from <= b < to && b < |ec| ==> ec[b] == EB_BAD || p.writeFault(EbStart(b, p.ebSize)) == Eio)
    && (forall b :: 0 <= b < |ec| && ec0[b] == EB_BAD ==> ec[b] == EB_BAD)
  }

  datatype PebStep = Wrote | Passing | Failed

  /** The erase counter that a block gets: the preset one when it is overridden, else one more than was scanned, or the
      mean when what was scanned is no counter. */
  ghost predicate IsCounter(u: Volume, scanned: int, n: int)
  {
    && (u.overrideEc ==> n == u.presetEc)
    && (!u.overrideEc && scanned <= 0x7FFFFFFF ==> n == scanned + 1)
    && (!u.overrideEc && scanned > 0x7FFFFFFF ==> n == u.meanEc)
  }

  /** buf is the buffer out with the counter of a block with this scanned counter in its header. */
  ghost predicate StampOf(u: Volume, scanned: int, out: seq<Byte>, buf: seq<Byte>)
  {
    exists n :: IsCounter(u, scanned, n) && u.changeEch(out, n) == Some(buf)
  }

  ghost predicate Stamped(u: Volume, scanned: int, buf: seq<Byte>)
  {
    exists out: seq<Byte> :: StampOf(u, scanned, out, buf)
  }

  /** The block map update after a failed erase: by then eb is the next block. */
  method MarkNext(p: Partition, next: nat)
    requires p.Valid() && p.hasMap
    modifies p`es, p`badCnt
    ensures p.Valid() && Sticky(old(p.es), p.es)
    ensures p.es == if p.startEb + next < p.totalEb then MapSet(old(p.es), p.startEb + next, Bad) else old(p.es)
  {
    if p.startEb + next < p.totalEb {
      p.SetStatus(p.startEb + next, Bad);
    }
  }

  /** One block: erase it, stamp the header, write the buffer without its trailing 0xff. */
  method TryPeb(u: Volume, eb: nat) returns (step: PebStep)
    requires u.Valid() && eb < u.part.ebCnt
    modifies u, u.part
    ensures u.Valid() && SameFrom(u.outbuf, old(u.outbuf), u.vidHdrOffs) && u.lnum == old(u.lnum)
    ensures step == Passing ==> Passed(u.part, old(u.part.cells), u.part.cells, old(u.ec), u.ec, eb, eb + 1)
    ensures step == Wrote ==>
              && old(u.ec[eb]) != EB_BAD && u.ec == old(u.ec)
              && BlockHolds(u.part.cells, u.part.ebSize, eb, u.outbuf)
              && StampOf(u, old(u.ec[eb]), old(u.outbuf), u.outbuf)
              && forall q :: 0 <= q < |u.part.cells| == |old(u.part.cells)| && EbIndex(q, u.part.ebSize) != eb ==>
                   u.part.cells[q] == old(u.part.cells)[q]
    ensures NoFaults(u) ==> step == (if old(u.ec[eb]) == EB_BAD then Passing else Wrote) && u.ec == old(u.ec)
    ensures old(u.ec[eb]) == EB_BAD ==> u.outbuf == old(u.outbuf)
    ensures old(u.ec[eb]) != EB_BAD && u.part.eraseFault(eb) == Eio && step == Passing ==>
              && u.part.devBad == old(u.part.devBad)[eb := true]
              && u.part.es[u.part.startEb + eb] == old(u.part.es)[u.part.startEb + eb]
              && u.part.es == if u.part.startEb + eb + 1 < u.part.totalEb
                   then MapSet(old(u.part.es), u.part.startEb + eb + 1, Bad) else old(u.part.es)
    ensures old(u.ec[eb]) != EB_BAD && u.part.eraseFault(eb) == Eio ==>
              (step == Passing <==> u.bbAllowed && !u.part.markFails(eb) && !FourInARow(old(u.marked) + [eb]))
  {
    hide EbIndex, EbOffset, EbStart, CountBad, FourInARow, OnlyFfs, BlockHolds;
    var p := u.part;
    if u.ec[eb] == EB_BAD {
      return Passing;
    }
    match p.eraseFault(eb)
    case Fatal =>
      return Failed;
    case Eio =>
      var ok := u.MarkBad(eb);
      if !ok {
        return Failed;
      }
      MarkNext(p, eb + 1);
      return Passing;
    case Fine =>
      p.cells := BlankBlock(p.cells, p.ebSize, eb);
      p.SetStatus(p.startEb + eb, Erased);
      var stamped := u.changeEch(u.outbuf, u.NextEc(eb));
      if stamped == None {
        return Failed;
      }
      ghost var out := u.outbuf;
      assert IsCounter(u, u.ec[eb], u.NextEc(eb));
      u.outbuf := stamped.value;
      assert StampOf(u, u.ec[eb], out, u.outbuf);
      step := WriteBlock(u, eb);
  }

  ghost predicate NoFaults(u: Volume)
  {
    && (forall b :: u.part.eraseFault(b) == Fine && u.part.writeFault(b) == Fine)
    && (forall b, e :: u.changeEch(b, e).Some?)
  }

  /** The write of the stamped buffer to the erased block. */
  method WriteBlock(u: Volume, eb: nat) returns (step: PebStep)
    requires u.Valid() && eb < u.part.ebCnt && u.ec[eb] != EB_BAD
    requires forall q :: 0 <= q < |u.part.cells| && EbIndex(q, u.part.ebSize) == eb ==> u.part.cells[q] == ERASED_BYTE
    modifies u`ec, u`badCnt, u`prevBad, u`consecutiveBad, u`marked, u.part
    ensures u.Valid() && u.part.es == old(u.part.es)
    ensures forall q :: 0 <= q < |u.part.cells| == |old(u.part.cells)| && EbIndex(q, u.part.ebSize) != eb ==>
              u.part.cells[q] == old(u.part.cells)[q]
    ensures step == Passing ==>
              u.part.writeFault(EbStart(eb, u.part.ebSize)) == Eio
                  && (u.ec == old(u.ec) || u.ec == old(u.ec)[eb := EB_BAD])
    ensures step == Wrote ==> u.ec == old(u.ec) && BlockHolds(u.part.cells, u.part.ebSize, eb, u.outbuf)
    ensures u.part.writeFault(EbStart(eb, u.part.ebSize)) == Fine ==> step == Wrote
  {
    hide EbIndex, EbOffset, EbStart, CountBad, RunLength, FourInARow, OnlyFfs, BlockHolds, Programmed;
    var p := u.part;
    var len := DropFfs(p.minIo, u.outbuf);
    match p.writeFault(EbStart(eb, p.ebSize))
    case Fatal =>
      return Failed;
    case Eio =>
      p.cells := FillBlock(p.cells, p.ebSize, eb, u.tortureLeaves(eb));
      if u.tortureFails(eb) {
        var ok := u.MarkBad(eb);
        if !ok {
          return Failed;
        }
      }
      return Passing;
    case Fine =>
      DivMod(eb, p.ebSize, 0);
      UnitInside(EbStart(eb, p.ebSize), p.ebSize, p.ebSize, p.ebCnt);
      WholeBlock(p.cells, p.ebSize, eb, u.outbuf, len);
      p.cells := Programmed(p.cells, EbStart(eb, p.ebSize), u.outbuf[..len]);
      return Wrote;
  }

  function FillBlock(cells: seq<Byte>, eb: nat, b: nat, fill: Byte): (r: seq<Byte>)
    requires eb > 0
    ensures |r| == |cells|
  {
    seq(|cells|, q requires 0 <= q < |cells| => if EbIndex(q, eb) == b then fill else cells[q])
  }

  /** On an erased block the prefix that DropFfs keeps stands for the whole buffer, and other blocks keep their
      bytes. */
  lemma WholeBlock(cells: seq<Byte>, eb: nat, b: nat, buf: seq<Byte>, len: nat)
    requires eb > 0 && |buf| == eb && len <= eb && OnlyFfs(buf, len) && EbStart(b, eb) + eb <= |cells|
    requires forall q :: 0 <= q < |cells| && EbIndex(q, eb) == b ==> cells[q] == ERASED_BYTE
    ensures var now := Programmed(cells, EbStart(b, eb), buf[..len]);
            && BlockHolds(now, eb, b, buf)
            && forall q :: 0 <= q < |cells| && EbIndex(q, eb) != b ==> now[q] == cells[q]
  {
    var now := Programmed(cells, EbStart(b, eb), buf[..len]);
    forall q | 0 <= q < |cells|
      ensures EbIndex(q, eb) == b ==> now[q] == buf[EbOffset(q, eb)]
      ensures EbIndex(q, eb) != b ==> now[q] == cells[q]
    {
      Split(q, eb);
      if EbIndex(q, eb) == b {
        ByteAndOnes(buf[EbOffset(q, eb)]);
      } else if EbStart(b, eb) <= q < EbStart(b, eb) + len {
        DivMod(b, eb, q - EbStart(b, eb));
      }
    }
  }

  lemma PassedMore(p: Partition, cells0: seq<Byte>, cells1: seq<Byte>, cells2: seq<Byte>, ec0: seq<int>, ec1: seq<int>,
                   ec2: seq<int>, from: nat, mid: nat)
    requires p.ebSize > 0 && from <= mid
    requires Passed(p, cells0, cells1, ec0, ec1, from, mid) && Passed(p, cells1, cells2, ec1, ec2, mid, mid + 1)
    ensures Passed(p, cells0, cells2, ec0, ec2, from, mid + 1)
  {}

  /** The buffer went to block w; the blocks from..w were passed over, and nothing else changed. */
  ghost predicate Placed(p: Partition, cells0: seq<Byte>, cells: seq<Byte>, ec0: seq<int>, ec: seq<int>, from: nat,
                         w: nat, buf: seq<Byte>)
    requires p.ebSize > 0
  {
    && from <= w < |ec| == |ec0| && |cells| == |cells0|
    && ec0[w] != EB_BAD && BlockHolds(cells, p.ebSize, w, buf)
    && (forall q :: 0 <= q < |cells| && !(from <= EbIndex(q, p.ebSize) <= w) ==> cells[q] == cells0[q])
    && (forall b :: 0 <= b < |ec| && !(from <= b < w) ==> ec[b] == ec0[b])
    && (forall b :: from <= b < w ==> ec[b] == EB_BAD || p.writeFault(EbStart(b, p.ebSize)) == Eio)
    && (forall b :: 0 <= b < |ec| && ec0[b] == EB_BAD ==> ec[b] == EB_BAD)
  }

  /** ubi_write_one_peb: the buffer goes to the first block from eb0 on that takes it; the result is the block after
      that. */
  method WriteOnePeb(u: Volume, eb0: nat) returns (r: int)
    requires u.Valid()
    modifies u, u.part
    ensures u.Valid() && SameFrom(u.outbuf, old(u.outbuf), u.vidHdrOffs) && u.lnum == old(u.lnum)
    ensures r == -1 || eb0 < r <= u.part.ebCnt
    ensures r != -1 ==>
              && Placed(u.part, old(u.part.cells), u.part.cells, old(u.ec), u.ec, eb0, r - 1, u.outbuf)
              && Stamped(u, old(u.ec)[r - 1], u.outbuf)
    ensures NoFaults(u) ==> FirstNotBad(old(u.ec), eb0, r) && u.ec == old(u.ec)
    ensures NoFaults(u) && r != -1 ==> StampOf(u, old(u.ec)[r - 1], old(u.outbuf), u.outbuf)
  {
    hide StampOf, IsCounter;
    var p := u.part;
    ghost var cells0, ec0, out0 := p.cells, u.ec, u.outbuf;
    var eb := eb0;
    while eb < p.ebCnt
      invariant eb0 <= eb && u.Valid() && SameFrom(u.outbuf, out0, u.vidHdrOffs) && u.lnum == old(u.lnum)
      invariant Passed(p, cells0, p.cells, ec0, u.ec, eb0, eb)
      invariant NoFaults(u) ==>
                  u.ec == ec0 && u.outbuf == out0 && forall b :: eb0 <= b < eb && b < |ec0| ==> ec0[b] == EB_BAD
    {
      ghost var cells1, ec1, out1 := p.cells, u.ec, u.outbuf;
      var step := TryPeb(u, eb);
      if step == Failed {
        return -1;
      }
      if step == Wrote {
        PlacedNow(p, cells0, cells1, p.cells, ec0, ec1, eb0, eb, u.outbuf);
        assert StampOf(u, ec0[eb], out1, u.outbuf);
        return eb + 1;
      }
      PassedMore(p, cells0, cells1, p.cells, ec0, ec1, u.ec, eb0, eb);
      eb := eb + 1;
    }
    return -1;
  }

  lemma PlacedNow(p: Partition, cells0: seq<Byte>, cells1: seq<Byte>, cells: seq<Byte>, ec0: seq<int>, ec: seq<int>,
                  from: nat, w: nat, buf: seq<Byte>)
    requires p.ebSize > 0 && from <= w < |ec| && |cells| == |cells1|
    requires Passed(p, cells0, cells1, ec0, ec, from, w) && ec[w] != EB_BAD && BlockHolds(cells, p.ebSize, w, buf)
    requires forall q :: 0 <= q < |cells| && EbIndex(q, p.ebSize) != w ==> cells[q] == cells1[q]
    ensures Placed(p, cells0, cells, ec0, ec, from, w, buf)
  {}

  /** Without faults the search ends behind the first block that is not bad, and fails only when there is none. */
  ghost predicate FirstNotBad(ec: seq<int>, from: nat, r: int)
  {
    if r == -1 then forall b :: from <= b < |ec| ==> ec[b] == EB_BAD
    else from < r <= |ec| && ec[r - 1] != EB_BAD && forall b :: from <= b < r - 1 ==> ec[b] == EB_BAD
  }

  // ---------------------------------------------------------------- ubi_write_volume

  /** The i-th logical eraseblock of a buffer. */
  function Leb(buf: seq<Byte>, size: nat, i: nat): (leb: seq<Byte>)
    requires i * size + size <= |buf|
    ensures |leb| == size
  {
    buf[i * size..i * size + size]
  }

  /** Block b holds the counter of a block with this scanned counter, this header and this data behind it, and 0xff
      behind the data. */
  ghost predicate LebAt(u: Volume, cells: seq<Byte>, scanned: int, b: nat, lnum: nat, data: seq<Byte>)
    requires u.part.ebSize > 0 && |data| == u.lebSize && u.Headers()
  {
    exists buf: seq<Byte> ::
      LebBuffer(u, buf, lnum, data) && BlockHolds(cells, u.part.ebSize, b, buf) && Stamped(u, scanned, buf)
  }

  ghost predicate LebBuffer(u: Volume, buf: seq<Byte>, lnum: nat, data: seq<Byte>)
    requires |data| == u.lebSize && u.Headers()
  {
    && |buf| == u.part.ebSize
    && (forall i :: 0 <= i < |u.vidHdr(lnum, data)| ==> buf[u.vidHdrOffs + i] == u.vidHdr(lnum, data)[i])
    && (forall i :: 0 <= i < |data| ==> buf[u.dataOffs + i] == data[i])
    && (forall i :: u.dataOffs + |data| <= i < |buf| ==> buf[i] == ERASED_BYTE)
  }

  /** Header and data put into the output buffer. */
  function Compose(out: seq<Byte>, vidOffs: nat, hdr: seq<Byte>, dataOffs: nat, data: seq<Byte>): (r: seq<Byte>)
    requires vidOffs + |hdr| <= dataOffs && dataOffs + |data| <= |out|
    ensures |r| == |out|
  {
    out[..vidOffs] + hdr + out[vidOffs + |hdr|..dataOffs] + data + Blank(|out| - dataOffs - |data|)
  }

  lemma Composed(u: Volume, out: seq<Byte>, lnum: nat, data: seq<Byte>, stamped: seq<Byte>)
    requires u.Headers() && |out| == u.part.ebSize && |data| == u.lebSize
    requires SameFrom(stamped, Compose(out, u.vidHdrOffs, u.vidHdr(lnum, data), u.dataOffs, data), u.vidHdrOffs)
    ensures LebBuffer(u, stamped, lnum, data)
  {}

  /** where lists, in order, the blocks that took the logical eraseblocks lnum0, lnum0 + 1, ... of buf. */
  ghost predicate LebsAt(u: Volume, cells: seq<Byte>, ec0: seq<int>, where: seq<nat>, buf: seq<Byte>, lnum0: nat)
    requires u.part.ebSize > 0 && u.Headers()
  {
    forall i :: 0 <= i < |where| ==>
      && where[i] < |ec0| && i * u.lebSize + u.lebSize <= |buf|
      && LebAt(u, cells, ec0[where[i]], where[i], lnum0 + i, Leb(buf, u.lebSize, i))
  }

  /** Strictly increasing within from..to, ending just before to. */
  predicate Ascending(where: seq<nat>, from: nat, to: nat)
  {
    && (forall i :: 0 <= i < |where| ==> from <= where[i] < to)
    && (forall i, j :: 0 <= i < j < |where| ==> where[i] < where[j])
    && (if where == [] then to == from else to == where[|where| - 1] + 1)
  }

  /** The blocks of where were and are not bad; every other block of from..to is bad or failed a write; outside, nothing
      changed. */
  ghost predicate OnlyGood(p: Partition, cells0: seq<Byte>, cells: seq<Byte>, ec0: seq<int>, ec: seq<int>,
                           where: seq<nat>, from: nat, to: nat)
    requires p.ebSize > 0
  {
    && |cells| == |cells0| && |ec| == |ec0|
    && (forall i :: 0 <= i < |where| ==> where[i] < |ec| && ec0[where[i]] != EB_BAD && ec[where[i]] == ec0[where[i]])
    && (forall b :: from <= b < to && b < |ec| && b !in where ==>
        ec[b] == EB_BAD || p.writeFault(EbStart(b, p.ebSize)) == Eio)
    && (forall q :: 0 <= q < |cells| && !(from <= EbIndex(q, p.ebSize) < to) ==> cells[q] == cells0[q])
    && (forall b :: 0 <= b < |ec| && !(from <= b < to) ==> ec[b] == ec0[b])
  }

  ghost predicate VolumeAt(u: Volume, cells0: seq<Byte>, cells: seq<Byte>, ec0: seq<int>, ec: seq<int>, where: seq<nat>,
                           buf: seq<Byte>, lnum0: nat, from: nat, to: nat)
    requires u.part.ebSize > 0 && u.Headers()
  {
    LebsAt(u, cells, ec0, where, buf, lnum0) && Ascending(where, from, to)
    && OnlyGood(u.part, cells0, cells, ec0, ec, where, from, to)
  }

  lemma LebStays(u: Volume, cells: seq<Byte>, cells': seq<Byte>, scanned: int, b: nat, lnum: nat, data: seq<Byte>)
    requires u.part.ebSize > 0 && |data| == u.lebSize && u.Headers() && |cells| == |cells'|
    requires LebAt(u, cells, scanned, b, lnum, data)
    requires forall q :: 0 <= q < |cells| && EbIndex(q, u.part.ebSize) == b ==> cells'[q] == cells[q]
    ensures LebAt(u, cells', scanned, b, lnum, data)
  {
    var buf: seq<Byte> :| LebBuffer(u, buf, lnum, data) && BlockHolds(cells, u.part.ebSize, b, buf)
        && Stamped(u, scanned, buf);
    assert BlockHolds(cells', u.part.ebSize, b, buf);
  }

  lemma OnlyGoodNext(p: Partition, cells0: seq<Byte>, cells: seq<Byte>, cells': seq<Byte>, ec0: seq<int>, ec: seq<int>,
                     ec': seq<int>, where: seq<nat>, from: nat, to: nat, w: nat, buf: seq<Byte>)
    requires p.ebSize > 0 && from <= to && Ascending(where, from, to)
    requires OnlyGood(p, cells0, cells, ec0, ec, where, from, to) && Placed(p, cells, cells', ec, ec', to, w, buf)
    ensures OnlyGood(p, cells0, cells', ec0, ec', where + [w], from, w + 1)
  {
    assert (where + [w])[|where|] == w;
    forall b | from <= b < w + 1 && b < |ec'| && b !in where + [w]
      ensures ec'[b] == EB_BAD || p.writeFault(EbStart(b, p.ebSize)) == Eio
    {
      if b < to { assert b !in where; }
    }
  }

  lemma AscendingNext(where: seq<nat>, from: nat, to: nat, w: nat)
    requires from <= to <= w && Ascending(where, from, to)
    ensures Ascending(where + [w], from, w + 1)
  {}

  lemma LebNow(u: Volume, cells: seq<Byte>, scanned: int, w: nat, buf: seq<Byte>, lnum: nat, data: seq<Byte>)
    requires u.part.ebSize > 0 && u.Headers() && |data| == u.lebSize
    requires BlockHolds(cells, u.part.ebSize, w, buf) && LebBuffer(u, buf, lnum, data) && Stamped(u, scanned, buf)
    ensures LebAt(u, cells, scanned, w, lnum, data)
  {}

  /** One more logical eraseblock. */
  lemma VolumeNext(u: Volume, cells0: seq<Byte>, cells: seq<Byte>, cells': seq<Byte>, ec0: seq<int>, ec: seq<int>,
                   ec': seq<int>, where: seq<nat>, data: seq<Byte>, lnum0: nat, from: nat, to: nat, w: nat,
                   buf: seq<Byte>)
    requires u.part.ebSize > 0 && u.Headers() && from <= to
    requires VolumeAt(u, cells0, cells, ec0, ec, where, data, lnum0, from, to)
             && Placed(u.part, cells, cells', ec, ec', to, w, buf)
    requires |where| * u.lebSize + u.lebSize <= |data|
             && LebBuffer(u, buf, lnum0 + |where|, Leb(data, u.lebSize, |where|)) && Stamped(u, ec[w], buf)
    ensures VolumeAt(u, cells0, cells', ec0, ec', where + [w], data, lnum0, from, w + 1)
  {
    hide EbIndex, EbOffset, EbStart, LebAt, LebBuffer, BlockHolds, Leb, Stamped;
    OnlyGoodNext(u.part, cells0, cells, cells', ec0, ec, ec', where, from, to, w, buf);
    AscendingNext(where, from, to, w);
    var now := where + [w];
    forall i | 0 <= i < |now|
      ensures now[i] < |ec0| && i * u.lebSize + u.lebSize <= |data|
              && LebAt(u, cells', ec0[now[i]], now[i], lnum0 + i, Leb(data, u.lebSize, i))
    {
      if i < |where| {
        assert now[i] == where[i] && where[i] < to;
        LebStays(u, cells, cells', ec0[where[i]], where[i], lnum0 + i, Leb(data, u.lebSize, i));
      } else {
        LebNow(u, cells', ec0[w], w, buf, lnum0 + i, Leb(data, u.lebSize, i));
      }
    }
  }

  lemma VolumeStart(u: Volume, cells: seq<Byte>, ec: seq<int>, none: seq<nat>, data: seq<Byte>, lnum: nat, eb: nat)
    requires u.part.ebSize > 0 && u.Headers() && none == []
    ensures VolumeAt(u, cells, cells, ec, ec, none, data, lnum, eb, eb)
  {}

  /** How many blocks from b on are not bad. */
  function NotBad(ec: seq<int>, b: nat): nat
    decreases |ec| - b
  {
    if b >= |ec| then 0 else NotBad(ec, b + 1) + (if ec[b] == EB_BAD then 0 else 1)
  }

  lemma {:induction false} BadOnly(ec: seq<int>, b: nat, end: nat)
    requires b <= end && forall i :: b <= i < end && i < |ec| ==> ec[i] == EB_BAD
    ensures NotBad(ec, b) == NotBad(ec, end)
    decreases end - b
  {
    if b < end { BadOnly(ec, b + 1, end); }
  }

  /** The first block that is not bad is one of those that are left. */
  lemma NextNotBad(ec: seq<int>, b: nat, r: int)
    requires FirstNotBad(ec, b, r) && (r == -1 || r >= 0)
    ensures NotBad(ec, b) == if r == -1 then 0 else NotBad(ec, r) + 1
  {
    if r != -1 {
      BadOnly(ec, b, r - 1);
    } else if b < |ec| {
      BadOnly(ec, b, |ec|);
    }
  }

  /** ubi_write_volume: every logical eraseblock of the buffer, each behind the one before; the result is the block
      after the last. */
  method WriteVolume(u: Volume, buf: seq<Byte>, ebOff: nat) returns (r: int, ghost where: seq<nat>)
    requires u.Valid()
    modifies u, u.part
    ensures u.Valid()
    ensures |buf| % u.lebSize != 0 ==> r == -1
    ensures r != -1 ==>
              && r >= 0 && |buf| == |where| * u.lebSize && u.lnum == old(u.lnum) + |where|
              && VolumeAt(u, old(u.part.cells), u.part.cells, old(u.ec), u.ec, where, buf, old(u.lnum), ebOff, r)
    ensures r == -1 ==> u.lnum == old(u.lnum)
    ensures NoFaults(u) ==> (r != -1 <==> |buf| % u.lebSize == 0 && |buf| <= NotBad(old(u.ec), ebOff) * u.lebSize)
    ensures NoFaults(u) && r != -1 ==> u.ec == old(u.ec) && NotBad(u.ec, ebOff) == |where| + NotBad(u.ec, r)
  {
    hide EbIndex, EbOffset, EbStart, CountBad, VolumeAt, Placed, LebBuffer, NotBad, FirstNotBad, RunLength;
    where := [];
    if |buf| % u.lebSize != 0 {
      return -1, where;
    }
    ghost var cells0, ec0 := u.part.cells, u.ec;
    var eb, pos, lnum := ebOff, 0, u.lnum;
    VolumeStart(u, cells0, ec0, where, buf, lnum, eb);
    while pos < |buf|
      invariant u.Valid() && u.lnum == old(u.lnum) && lnum == u.lnum + |where| && ebOff <= eb
      invariant pos == |where| * u.lebSize <= |buf|
      invariant VolumeAt(u, cells0, u.part.cells, ec0, u.ec, where, buf, old(u.lnum), ebOff, eb)
      invariant NoFaults(u) ==> u.ec == ec0 && NotBad(ec0, ebOff) == |where| + NotBad(ec0, eb)
      decreases |buf| - pos
    {
      LebFits(|where|, u.lebSize, |buf|);
      ghost var cells, ec := u.part.cells, u.ec;
      r := WriteLeb(u, buf[pos..pos + u.lebSize], lnum, eb);
      if NoFaults(u) { NextNotBad(ec0, eb, r); }
      if r < 0 {
        return -1, where;
      }
      VolumeNext(u, cells0, cells, u.part.cells, ec0, ec, u.ec, where, buf, old(u.lnum), ebOff, eb, r - 1, u.outbuf);
      where := where + [r - 1];
      eb, pos, lnum := r, pos + u.lebSize, lnum + 1;
    }
    MultipleOrder(NotBad(ec0, ebOff), |where|, u.lebSize);
    u.lnum := lnum;
    r := eb;
  }

  lemma LebFits(i: nat, size: nat, n: nat)
    requires size > 0 && n % size == 0 && i * size < n
    ensures i * size + size <= n && (i + 1) * size == i * size + size
  {
    QuotientAndRest(n, size);
    MultipleOrder(i, n / size, size);
    MultipleOrder(n / size, i + 1, size);
    assert (i + 1) * size == i * size + size;
  }

  /** The body of the loop: fill the output buffer, then place it. */
  method WriteLeb(u: Volume, data: seq<Byte>, lnum: nat, eb: nat) returns (r: int)
    requires u.Valid() && |data| == u.lebSize
    modifies u, u.part
    ensures u.Valid() && u.lnum == old(u.lnum)
    ensures r == -1 || eb < r <= u.part.ebCnt
    ensures NoFaults(u) ==> FirstNotBad(old(u.ec), eb, r) && u.ec == old(u.ec)
    ensures r != -1 ==>
              && LebBuffer(u, u.outbuf, lnum, data) && Stamped(u, old(u.ec)[r - 1], u.outbuf)
              && Placed(u.part, old(u.part.cells), u.part.cells, old(u.ec), u.ec, eb, r - 1, u.outbuf)
  {
    ghost var out := u.outbuf;
    u.outbuf := Compose(u.outbuf, u.vidHdrOffs, u.vidHdr(lnum, data), u.dataOffs, data);
    r := WriteOnePeb(u, eb);
    Composed(u, out, lnum, data, u.outbuf);
  }

  /** Two blocks of one byte, the first of which cannot be erased: the device marks it bad, and the map the other
      one. */
  method WrongEntry() returns (p: Partition, step: PebStep)
    ensures fresh(p) && p.Valid() && p.hasMap && step == Passing && p.devBad == [true, false] && p.es == [Untagged, Bad]
  {
    OneBlockSize(1);
    p := new Partition(Nand, 1, 1, 2, 0, 2, b => false, q => false, b => if b == 0 then Eio else Fine, q => Fine,
                       b => false,
                       [ERASED_BYTE, ERASED_BYTE], [false, false]);
    p.MapInit();
    var u := new Volume(p, 0, 0, 1, true, false, 0, [1, 1], 0, 1, (b, e) => Some(b), (n, d) => [], b => false, b => 0);
    step := TryPeb(u, 0);
  }

  // ---------------------------------------------------------------- a volume in several chunks

  lemma OnlyGoodJoin(p: Partition, cells0: seq<Byte>, cells1: seq<Byte>, cells2: seq<Byte>, ec0: seq<int>,
                     ec1: seq<int>, ec2: seq<int>, first: seq<nat>, second: seq<nat>, from: nat, mid: nat, to: nat)
    requires p.ebSize > 0 && from <= mid <= to && Ascending(first, from, mid) && Ascending(second, mid, to)
    requires OnlyGood(p, cells0, cells1, ec0, ec1, first, from, mid)
             && OnlyGood(p, cells1, cells2, ec1, ec2, second, mid, to)
    ensures OnlyGood(p, cells0, cells2, ec0, ec2, first + second, from, to)
  {
    forall b | from <= b < to && b < |ec2| && b !in first + second
      ensures ec2[b] == EB_BAD || p.writeFault(EbStart(b, p.ebSize)) == Eio
    {
      assert b !in first && b !in second;
    }
  }

  lemma AscendingJoin(first: seq<nat>, second: seq<nat>, from: nat, mid: nat, to: nat)
    requires from <= mid <= to && Ascending(first, from, mid) && Ascending(second, mid, to)
    ensures Ascending(first + second, from, to)
  {
    if second != [] { assert (first + second)[|first + second| - 1] == second[|second| - 1]; }
    else { assert first + second == first; }
  }

  lemma SliceBehind(x: seq<Byte>, y: seq<Byte>, a: nat, b: nat)
    requires a <= b <= |y|
    ensures (x + y)[|x| + a..|x| + b] == y[a..b]
  {}

  lemma LebSplit(x: seq<Byte>, y: seq<Byte>, size: nat, n: nat, j: nat)
    requires |x| == n * size && j * size + size <= |y|
    ensures (n + j) * size + size <= |x + y| && Leb(x + y, size, n + j) == Leb(y, size, j)
  {
    assert (n + j) * size == |x| + j * size;
    SliceBehind(x, y, j * size, j * size + size);
  }

  lemma LebFront(x: seq<Byte>, y: seq<Byte>, size: nat, i: nat)
    requires i * size + size <= |x|
    ensures i * size + size <= |x + y| && Leb(x + y, size, i) == Leb(x, size, i)
  {}

  /** Two chunks, the second starting where the first one ended, are one volume. */
  lemma VolumeJoin(u: Volume, cells0: seq<Byte>, cells1: seq<Byte>, cells2: seq<Byte>, ec0: seq<int>, ec1: seq<int>,
                   ec2: seq<int>, first: seq<nat>, second: seq<nat>, x: seq<Byte>, y: seq<Byte>, lnum: nat, from: nat,
                   mid: nat, to: nat)
    requires u.part.ebSize > 0 && u.Headers() && from <= mid <= to && |x| == |first| * u.lebSize
    requires VolumeAt(u, cells0, cells1, ec0, ec1, first, x, lnum, from, mid)
    requires VolumeAt(u, cells1, cells2, ec1, ec2, second, y, lnum + |first|, mid, to)
    ensures VolumeAt(u, cells0, cells2, ec0, ec2, first + second, x + y, lnum, from, to)
  {
    OnlyGoodJoin(u.part, cells0, cells1, cells2, ec0, ec1, ec2, first, second, from, mid, to);
    AscendingJoin(first, second, from, mid, to);
    LebsJoin(u, cells1, cells2, ec0, ec1, first, second, x, y, lnum, mid);
  }

  lemma LebsJoin(u: Volume, cells1: seq<Byte>, cells2: seq<Byte>, ec0: seq<int>, ec1: seq<int>, first: seq<nat>,
                 second: seq<nat>, x: seq<Byte>, y: seq<Byte>, lnum: nat, mid: nat)
    requires u.part.ebSize > 0 && u.Headers() && |x| == |first| * u.lebSize && |cells1| == |cells2| && |ec0| == |ec1|
    requires LebsAt(u, cells1, ec0, first, x, lnum) && LebsAt(u, cells2, ec1, second, y, lnum + |first|)
    requires forall i :: 0 <= i < |first| ==> first[i] < mid
    requires forall b :: mid <= b < |ec0| ==> ec1[b] == ec0[b]
    requires forall i :: 0 <= i < |second| ==> mid <= second[i]
    requires forall q :: 0 <= q < |cells1| && EbIndex(q, u.part.ebSize) < mid ==> cells2[q] == cells1[q]
    ensures LebsAt(u, cells2, ec0, first + second, x + y, lnum)
  {
    hide LebAt, EbIndex, Leb;
    var size, where := u.lebSize, first + second;
    forall i | 0 <= i < |where|
      ensures where[i] < |ec0| && i * size + size <= |x + y|
              && LebAt(u, cells2, ec0[where[i]], where[i], lnum + i, Leb(x + y, size, i))
    {
      if i < |first| {
        LebFront(x, y, size, i);
        LebStays(u, cells1, cells2, ec0[first[i]], first[i], lnum + i, Leb(x, size, i));
      } else {
        LebBack(u, cells2, ec1, second, x, y, lnum, |first|, i);
      }
    }
  }

  lemma LebBack(u: Volume, cells: seq<Byte>, ec: seq<int>, second: seq<nat>, x: seq<Byte>, y: seq<Byte>, lnum: nat,
                n: nat, i: nat)
    requires u.part.ebSize > 0 && u.Headers() && |x| == n * u.lebSize && n <= i < n + |second|
    requires LebsAt(u, cells, ec, second, y, lnum + n)
    ensures second[i - n] < |ec| && i * u.lebSize + u.lebSize <= |x + y|
            && LebAt(u, cells, ec[second[i - n]], second[i - n], lnum + i, Leb(x + y, u.lebSize, i))
  {
    var j := i - n;
    assert LebAt(u, cells, ec[second[j]], second[j], lnum + n + j, Leb(y, u.lebSize, j));
    LebSplit(x, y, u.lebSize, n, j);
  }

  /** The chunks that a sequence of calls writes, when no device error comes: each is whole, and all have room. */
  ghost predicate ChunksFit(u: Volume, chunks: seq<seq<Byte>>, ec: seq<int>, ebOff: nat)
    requires u.lebSize > 0
  {
    && (forall j :: 0 <= j < |chunks| ==> |chunks[j]| % u.lebSize == 0)
    && |Concat(chunks)| <= NotBad(ec, ebOff) * u.lebSize
  }

  /** The chunk at which the calls stop has no room, or is not whole. */
  lemma ChunkStops(u: Volume, chunks: seq<seq<Byte>>, k: nat, ec: seq<int>, ebOff: nat, eb: nat, n: nat)
    requires u.lebSize > 0 && k < |chunks| && |Concat(chunks[..k])| == n * u.lebSize
    requires NotBad(ec, ebOff) == n + NotBad(ec, eb)
    requires |chunks[k]| % u.lebSize != 0 || |chunks[k]| > NotBad(ec, eb) * u.lebSize
    ensures !ChunksFit(u, chunks, ec, ebOff)
  {
    ConcatNext(chunks, k);
    ConcatGrows(chunks, k + 1);
    assert (n + NotBad(ec, eb)) * u.lebSize == n * u.lebSize + NotBad(ec, eb) * u.lebSize;
  }

  lemma {:induction false} ConcatGrows(chunks: seq<seq<Byte>>, k: nat)
    requires k <= |chunks|
    ensures |Concat(chunks[..k])| <= |Concat(chunks)|
    decreases |chunks| - k
  {
    if k < |chunks| {
      ConcatNext(chunks, k);
      ConcatGrows(chunks, k + 1);
    } else {
      assert chunks[..k] == chunks;
    }
  }

  /** Any sequence of ubi_write_volume calls, each from the block the last one returned. */
  method WriteChunks(u: Volume, chunks: seq<seq<Byte>>, ebOff: nat) returns (r: int, ghost where: seq<nat>)
    requires u.Valid()
    modifies u, u.part
    ensures u.Valid()
    ensures r != -1 ==>
              && r >= 0 && |Concat(chunks)| == |where| * u.lebSize && u.lnum == old(u.lnum) + |where|
              && VolumeAt(u, old(u.part.cells), u.part.cells, old(u.ec), u.ec, where, Concat(chunks), old(u.lnum),
                          ebOff, r)
    ensures NoFaults(u) ==> (r != -1 <==> ChunksFit(u, chunks, old(u.ec), ebOff))
  {
    hide VolumeAt, NotBad, NoFaults, Concat, ChunksFit;
    ghost var cells0, ec0 := u.part.cells, u.ec;
    var eb, k := ebOff, 0;
    where := [];
    NoChunk(chunks);
    VolumeStart(u, cells0, ec0, where, Concat(chunks[..0]), u.lnum, eb);
    while k < |chunks|
      invariant 0 <= k <= |chunks| && u.Valid() && ebOff <= eb && u.lnum == old(u.lnum) + |where|
      invariant |Concat(chunks[..k])| == |where| * u.lebSize
      invariant VolumeAt(u, cells0, u.part.cells, ec0, u.ec, where, Concat(chunks[..k]), old(u.lnum), ebOff, eb)
      invariant NoFaults(u) ==> u.ec == ec0 && NotBad(ec0, ebOff) == |where| + NotBad(ec0, eb)
      invariant NoFaults(u) ==> forall j :: 0 <= j < k ==> |chunks[j]| % u.lebSize == 0
    {
      ConcatNext(chunks, k);
      ghost var before, n := eb, |where|;
      r, where := WriteChunk(u, chunks[k], eb, cells0, ec0, where, Concat(chunks[..k]), old(u.lnum), ebOff);
      if r < 0 {
        if NoFaults(u) { ChunkStops(u, chunks, k, ec0, ebOff, before, n); }
        return -1, where;
      }
      eb, k := r, k + 1;
    }
    assert chunks[..k] == chunks;
    r := eb;
    if NoFaults(u) { AllFit(u, chunks, ec0, ebOff, eb, |where|); }
  }

  lemma NoChunk(chunks: seq<seq<Byte>>)
    ensures Concat(chunks[..0]) == []
  {}

  lemma AllFit(u: Volume, chunks: seq<seq<Byte>>, ec: seq<int>, ebOff: nat, eb: nat, n: nat)
    requires u.lebSize > 0 && forall j :: 0 <= j < |chunks| ==> |chunks[j]| % u.lebSize == 0
    requires |Concat(chunks)| == n * u.lebSize && NotBad(ec, ebOff) == n + NotBad(ec, eb)
    ensures ChunksFit(u, chunks, ec, ebOff)
  {
    assert (n + NotBad(ec, eb)) * u.lebSize == n * u.lebSize + NotBad(ec, eb) * u.lebSize;
  }

  /** One more chunk behind those already written. */
  method WriteChunk(u: Volume, chunk: seq<Byte>, eb: nat, ghost cells0: seq<Byte>, ghost ec0: seq<int>,
                    ghost first: seq<nat>, ghost x: seq<Byte>, ghost lnum0: nat, ghost from: nat)
    returns (r: int, ghost where: seq<nat>)
    requires u.Valid() && from <= eb && u.lnum == lnum0 + |first| && |x| == |first| * u.lebSize
    requires VolumeAt(u, cells0, u.part.cells, ec0, u.ec, first, x, lnum0, from, eb)
    modifies u, u.part
    ensures u.Valid()
    ensures r != -1 ==>
              && r >= eb && |x + chunk| == |where| * u.lebSize && u.lnum == lnum0 + |where|
              && VolumeAt(u, cells0, u.part.cells, ec0, u.ec, where, x + chunk, lnum0, from, r)
    ensures NoFaults(u) ==>
              (r != -1 <==> |chunk| % u.lebSize == 0 && |chunk| <= NotBad(old(u.ec), eb) * u.lebSize)
    ensures NoFaults(u) && r != -1 ==>
              u.ec == old(u.ec) && NotBad(u.ec, eb) == |where| - |first| + NotBad(u.ec, r)
  {
    hide EbIndex, EbOffset, EbStart, CountBad, RunLength, LebsAt, Ascending, OnlyGood, NotBad, NoFaults;
    ghost var cells, ec := u.part.cells, u.ec;
    ghost var more;
    where := first;
    r, more := WriteVolume(u, chunk, eb);
    if r != -1 {
      AscendingOrder(more, eb, r);
      VolumeJoin(u, cells0, cells, u.part.cells, ec0, ec, u.ec, first, more, x, chunk, lnum0, from, eb, r);
      ChunkLength(x, chunk, first, more, u.lebSize);
      where := first + more;
    }
  }

  lemma AscendingOrder(where: seq<nat>, from: nat, to: nat)
    requires Ascending(where, from, to)
    ensures from <= to
  {}

  lemma ChunkLength(x: seq<Byte>, y: seq<Byte>, first: seq<nat>, second: seq<nat>, size: nat)
    requires |x| == |first| * size && |y| == |second| * size
    ensures |x + y| == |first + second| * size
  {
    assert (|first| + |second|) * size == |first| * size + |second| * size;
  }
}
