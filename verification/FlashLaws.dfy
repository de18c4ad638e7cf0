/** What erase, write and read of base.c guarantee together. */
module FlashLaws {
  import opened Wrappers
  import opened WordArith
  import opened Bits
  import opened Division
  import opened Placement
  import opened Mtd
  import opened Sysinfo
  import opened FlashErase
  import opened FlashWrite

  // ---------------------------------------------------------------- which blocks are touched

  /** The block at which the flags differ takes the first byte of a stream that starts there. */
  lemma LandsOn(rel: seq<bool>, eb: nat, b: nat)
    requires eb > 0 && b < |rel| && !rel[b]
    ensures Fits(rel, eb, EbStart(b, eb), 1) && Place(rel, eb, EbStart(b, eb), 0) == EbStart(b, eb)
            && EbIndex(EbStart(b, eb), eb) == b
  {
    DivMod(b, eb, 0);
  }

  lemma StaysOff(rel: seq<bool>, abs: seq<bool>, eb: nat, x: nat, n: nat)
    requires eb > 0 && |rel| == |abs| && n > 0 && Fits(rel, eb, x, n)
    requires forall b :: 0 <= b < |abs| && abs[b] ==> rel[b]
    ensures !OnBad(abs, eb, Place(rel, eb, x, n - 1))
  {}

  /** Streams placed by one set of bad flags never land on blocks that another set calls bad exactly when the first set
      covers the second. */
  lemma NeverOnBad(rel: seq<bool>, abs: seq<bool>, eb: nat)
    requires eb > 0 && |rel| == |abs|
    ensures (forall x: nat, n: nat | n > 0 && Fits(rel, eb, x, n) :: !OnBad(abs, eb, Place(rel, eb, x, n - 1)))
            <==> (forall b :: 0 <= b < |abs| && abs[b] ==> rel[b])
  {
    if b :| 0 <= b < |abs| && abs[b] && !rel[b] {
      LandsOn(rel, eb, b);
      var x, n := EbStart(b, eb), 1;
      assert n > 0 && Fits(rel, eb, x, n) && OnBad(abs, eb, Place(rel, eb, x, n - 1));
    } else {
      forall x: nat, n: nat | n > 0 && Fits(rel, eb, x, n)
        ensures !OnBad(abs, eb, Place(rel, eb, x, n - 1))
      {
        StaysOff(rel, abs, eb, x, n);
      }
    }
  }

  /** For a partition that starts at block 0 both ways of looking blocks up agree. */
  lemma LookupsAgree(p: Partition)
    requires p.Valid() && p.hasMap && p.startEb == 0
    ensures p.RelBad() == p.AbsBad(false)
  {}

  /** Elsewhere they need not: in a one-block partition behind block 0, whose block is marked bad, the first byte of a
      stream lands on that block. */
  lemma LookupsDiffer(es: seq<Status>, startEb: nat, eb: nat)
    requires es == [Scanned, Bad] && startEb == 1 && eb > 0
    ensures var rel, abs := BadFlags(es[..1], true), BadFlags(es[startEb..startEb + 1], true);
            Fits(rel, eb, 0, 1) && OnBad(abs, eb, Place(rel, eb, 0, 0))
  {
    LandsOn(BadFlags(es[..1], true), eb, 0);
  }

  // ---------------------------------------------------------------- pages

  lemma PrevPage(k: nat, page: nat)
    requires page > 0 && k % page == 0 && k > 0
    ensures k >= page && (k - page) % page == 0
  {
    var a := k / page;
    assert k == page * a;
    assert page * (a - 1) == page * a - page;
    MultipleOrder(0, a, page);
    MultipleOrder(a, 1, page);
    Remainder(k - page, page, a - 1, 0);
  }

  /** After whole pages the next place is page-aligned. */
  lemma {:induction false} CursorAligned(bad: seq<bool>, eb: nat, x: nat, page: nat, k: nat)
    requires eb > 0 && page > 0 && eb % page == 0 && x % page == 0 && k % page == 0 && Fits(bad, eb, x, k)
    ensures Place(bad, eb, x, k) % page == 0
  {
    if k > 0 {
      var j := k - page;
      PrevPage(k, page);
      FitsFewer(bad, eb, x, j, k);
      FitsFewer(bad, eb, x, j + 1, k);
      CursorAligned(bad, eb, x, page, j);
      PageInBlock(Place(bad, eb, x, j), eb, page);
      Contiguous(bad, eb, x, j, page);
    }
    SkipAligned(bad, eb, After(bad, eb, x, k), page);
  }

  /** The page at cursor k, while room lasts. */
  lemma PageAt(bad: seq<bool>, eb: nat, x: nat, page: nat, k: nat, n: nat)
    requires eb > 0 && page > 0 && eb % page == 0 && x % page == 0 && k % page == 0 && n % page == 0 && k < n
             && Fits(bad, eb, x, n)
    ensures k + page <= n && EbOffset(Place(bad, eb, x, k), eb) + page <= eb
    ensures forall j :: k <= j < k + page ==> Place(bad, eb, x, j) == Place(bad, eb, x, k) + (j - k)
  {
    LessPage(k, n, page);
    FitsFewer(bad, eb, x, k, n);
    FitsFewer(bad, eb, x, k + 1, n);
    CursorAligned(bad, eb, x, page, k);
    PageInBlock(Place(bad, eb, x, k), eb, page);
    Contiguous(bad, eb, x, k, page);
  }

  // ---------------------------------------------------------------- write, then read

  /** Byte k comes back as the part of the merged byte that the cell could take. */
  ghost predicate CameBack(bad: seq<bool>, eb: nat, x: nat, start: nat, lay: seq<Region>, stream: seq<Byte>,
                           cells0: seq<Byte>, data: seq<Byte>, k: nat)
    requires eb > 0 && k < |data| <= |stream| && forall i :: 0 <= i < |lay| ==> lay[i].Valid()
  {
    var q := Place(bad, eb, x, k);
    q < |cells0| && data[k] == ByteAnd(cells0[q], Overlay(lay, start + q, stream[k]))
  }

  /** Reading back a written stream gives, byte for byte, what the cells could take of it. */
  lemma ReadsWhatWasWritten(bad: seq<bool>, eb: nat, x: nat, start: nat, lay: seq<Region>, stream: seq<Byte>,
                            cells0: seq<Byte>, cells: seq<Byte>, data: seq<Byte>)
    requires eb > 0 && forall i :: 0 <= i < |lay| ==> lay[i].Valid()
    requires Written(bad, eb, x, start, lay, stream, cells0, cells) && ReadsAs(bad, eb, x, cells, data)
             && |data| <= |stream|
    ensures forall k :: 0 <= k < |data| ==> CameBack(bad, eb, x, start, lay, stream, cells0, data, k)
  {
    forall k | 0 <= k < |data|
      ensures CameBack(bad, eb, x, start, lay, stream, cells0, data, k)
    {
      assert StreamByte(bad, eb, x, start, lay, stream, cells0, cells, k);
    }
  }

  /** The stream meets no reserved region. */
  ghost predicate ClearOfRegions(bad: seq<bool>, eb: nat, x: nat, start: nat, lay: seq<Region>, n: nat)
    requires eb > 0
  {
    forall k, i :: 0 <= k < n && 0 <= i < |lay| && lay[i].reserve == Reserved ==>
      !lay[i].Holds(start + Place(bad, eb, x, k))
  }

  ghost predicate ErasedAt(bad: seq<bool>, eb: nat, x: nat, cells: seq<Byte>, n: nat)
    requires eb > 0
  {
    forall k :: 0 <= k < n ==> Place(bad, eb, x, k) < |cells| && cells[Place(bad, eb, x, k)] == ERASED_BYTE
  }

  lemma {:induction false} NotCovered(lay: seq<Region>, addr: int, b: Byte)
    requires forall i :: 0 <= i < |lay| ==> lay[i].Valid()
    requires forall i :: 0 <= i < |lay| && lay[i].reserve == Reserved ==> !lay[i].Holds(addr)
    ensures Overlay(lay, addr, b) == b
  {
    if lay != [] { NotCovered(lay[..|lay| - 1], addr, b); }
  }

  /** An unsaved region in the way of the page at cursor k lies under one of its bytes. */
  lemma ClearPage(p: Partition, bad: seq<bool>, x: nat, lay: seq<Region>, k: nat, n: nat)
    requires p.Geometry() && ValidLayout(lay) && x % p.minIo == 0 && k % p.minIo == 0 && n % p.minIo == 0 && k < n
    requires Fits(bad, p.ebSize, x, n) && ClearOfRegions(bad, p.ebSize, x, p.Start(), lay, n)
    ensures !Unsaved(lay, p.Start() + Place(bad, p.ebSize, x, k), p.Start() + Place(bad, p.ebSize, x, k) + p.minIo)
  {
    PageAt(bad, p.ebSize, x, p.minIo, k, n);
    var q := p.Start() + Place(bad, p.ebSize, x, k);
    forall i | 0 <= i < |lay| && lay[i].reserve == Reserved
      ensures !Overlaps(lay[i], q, q + p.minIo)
    {
      if Overlaps(lay[i], q, q + p.minIo) {
        var addr := if lay[i].offset > q then lay[i].offset else q;
        assert lay[i].Holds(p.Start() + Place(bad, p.ebSize, x, k + (addr - q)));
        assert false;
      }
    }
  }

  /** The whole stream fits exactly when enough good bytes lie behind the offset. */
  lemma EnoughRoom(p: Partition, bad: seq<bool>, x: nat, n: nat)
    requires p.Geometry() && |bad| == p.ebCnt && x <= p.Size() && n > 0
    ensures EbIndex(x, p.ebSize) <= |bad| && EbIndex(p.Size(), p.ebSize) <= |bad|
    ensures Fits(bad, p.ebSize, x, n) <==> GoodBytes(bad, p.ebSize, x) + n <= GoodBytes(bad, p.ebSize, p.Size())
  {
    DivMod(p.ebCnt, p.ebSize, 0);
    DivMonotone(x, p.Size(), p.ebSize);
    FitsBelow(bad, p.ebSize, x, n, p.Size());
    Inside(Place(bad, p.ebSize, x, n - 1), p.ebSize, p.ebCnt);
  }

  /** A write for which there is room, and which meets no unsaved region, writes everything. */
  lemma WriteCompletes(p: Partition, bad: seq<bool>, x: nat, lay: seq<Region>, stream: seq<Byte>, cells0: seq<Byte>,
                       cells: seq<Byte>, done: nat, r: int)
    requires p.Geometry() && ValidLayout(lay) && x % p.minIo == 0
    requires WriteResult(p, bad, x, lay, stream, cells0, cells, done, r) && Fits(bad, p.ebSize, x, |stream|)
    requires done < |stream| ==> PageClear(bad, p.ebSize, x, p.Start(), lay, p.minIo, done)
    ensures done == |stream| && r == p.Start() + After(bad, p.ebSize, x, done) && stream[..done] == stream
  {
    FitsFewer(bad, p.ebSize, x, if done < |stream| then done + 1 else done, |stream|);
  }

  lemma ReadCompletes(bad: seq<bool>, eb: nat, x: nat, want: nat, done: nat, start: nat, r: int)
    requires eb > 0 && Ends(bad, eb, x, want, done, start, r) && Fits(bad, eb, x, want)
    ensures done == want && r == start + After(bad, eb, x, done)
  {
    FitsFewer(bad, eb, x, if done < want then done + 1 else done, want);
  }

  /** With enough good bytes behind the offset, erased pages and no reserved region in the way, mtd_basic_write and then
      mtd_basic_read at the same offset both succeed, and the buffer read is the buffer written. */
  lemma WriteReadRoundTrip(p: Partition, bad: seq<bool>, x: nat, lay: seq<Region>, buffer: seq<Byte>, cells0: seq<Byte>,
                           cells: seq<Byte>, done: nat, r: int, data: seq<Byte>, r': int)
    requires p.Geometry() && ValidLayout(lay) && |bad| == p.ebCnt && x <= p.Size() && x % p.minIo == 0 && buffer != []
    requires EbIndex(x, p.ebSize) <= |bad| && EbIndex(p.Size(), p.ebSize) <= |bad|
    requires GoodBytes(bad, p.ebSize, x) + |Padded(buffer, p.minIo)| <= GoodBytes(bad, p.ebSize, p.Size())
    requires ErasedAt(bad, p.ebSize, x, cells0, |buffer|)
             && ClearOfRegions(bad, p.ebSize, x, p.Start(), lay, |Padded(buffer, p.minIo)|)
    requires WriteResult(p, bad, x, lay, Padded(buffer, p.minIo), cells0, cells, done, r)
    requires ReadsAs(bad, p.ebSize, x, cells, data) && Ends(bad, p.ebSize, x, |buffer|, |data|, p.Start(), r')
    ensures r >= 0 && r' >= 0 && data == buffer
  {
    var stream, eb := Padded(buffer, p.minIo), p.ebSize;
    EnoughRoom(p, bad, x, |stream|);
    if done < |stream| { ClearPage(p, bad, x, lay, done, |stream|); }
    WriteCompletes(p, bad, x, lay, stream, cells0, cells, done, r);
    FitsFewer(bad, eb, x, |buffer|, |stream|);
    ReadCompletes(bad, eb, x, |buffer|, |data|, p.Start(), r');
    ReadsWhatWasWritten(bad, eb, x, p.Start(), lay, stream, cells0, cells, data);
    NothingLost(bad, eb, x, p.Start(), lay, stream, cells0, data);
    assert stream[..|buffer|] == buffer;
  }

  /** On erased pages, clear of regions, what comes back is the start of the stream. */
  lemma NothingLost(bad: seq<bool>, eb: nat, x: nat, start: nat, lay: seq<Region>, stream: seq<Byte>, cells0: seq<Byte>,
                    data: seq<Byte>)
    requires eb > 0 && |data| <= |stream| && forall i :: 0 <= i < |lay| ==> lay[i].Valid()
    requires ErasedAt(bad, eb, x, cells0, |data|) && ClearOfRegions(bad, eb, x, start, lay, |stream|)
    requires forall k :: 0 <= k < |data| ==> CameBack(bad, eb, x, start, lay, stream, cells0, data, k)
    ensures data == stream[..|data|]
  {
    forall k | 0 <= k < |data|
      ensures data[k] == stream[k]
    {
      assert CameBack(bad, eb, x, start, lay, stream, cells0, data, k);
      NotCovered(lay, start + Place(bad, eb, x, k), stream[k]);
      ByteAndOnes(stream[k]);
    }
  }

  /** The request has room behind its offset, erased pages, and no reserved region in the way. */
  ghost predicate ClearRequest(s: SysinfoManager, offset: nat, length: nat)
    reads s, s.part
    requires s.Valid() && s.part.hasMap && s.part.Start() <= offset
  {
    var p, x := s.part, offset - s.part.Start();
    var bad, n := p.RelBad(), length + PadLength(length, p.minIo);
    && x <= p.Size() && EbIndex(x, p.ebSize) <= |bad| && EbIndex(p.Size(), p.ebSize) <= |bad|
    && GoodBytes(bad, p.ebSize, x) + n <= GoodBytes(bad, p.ebSize, p.Size())
    && ErasedAt(bad, p.ebSize, x, p.cells, length) && ClearOfRegions(bad, p.ebSize, x, p.Start(), s.layout, n)
  }

  /** The two calls in a row: what was in the buffer is what comes back. */
  method WriteThenRead(s: SysinfoManager, offset: nat, buf: array<Byte>, markbad: bool)
    returns (r: int, r': int, back: array<Byte>)
    requires s.Valid() && NoWriteFaults(s.part) && !HasReadFault(s.part) && buf.Length > 0
    requires !WriteRefused(s.part, offset, buf.Length, true) && ClearRequest(s, offset, buf.Length)
    modifies s.part, buf
    ensures fresh(back) && r >= 0 && r' >= 0 && back[..] == old(buf[..])
  {
    hide EbIndex, EbOffset, EbStart, After, Skip, Written, ReadsAs, GoodBytes, GoodBlocks, Run, Spared, OnDevice;
    var p := s.part;
    ghost var bad, image, cells0 := p.RelBad(), buf[..], p.cells;
    assert buf[..buf.Length] == image;
    ghost var done, done';
    r, done := Write(s, offset, buf.Length, buf, true, markbad);
    back := new Byte[buf.Length];
    var failed;
    r', failed, done' := Read(p, offset, buf.Length, back);
    ghost var data: seq<Byte> := back[..done'];
    WriteReadRoundTrip(p, bad, offset - p.Start(), s.layout, image, cells0, p.cells, done, r, data, r');
    assert data == back[..];
  }

  // ---------------------------------------------------------------- running out of room

  /** A position in block last, at or behind c. */
  lemma LastPosition(c: nat, eb: nat, last: nat) returns (y: nat)
    requires eb > 0 && EbIndex(c, eb) <= last
    ensures c <= y && EbIndex(y, eb) == last
  {
    DivMod(last, eb, 0);
    Inside(c, eb, last);
    if EbIndex(c, eb) < last {
      y := EbStart(last, eb);
    } else {
      y := c;
    }
  }

  /** When everything from c on is skipped, the last block is bad. */
  lemma AllSkipped(bad: seq<bool>, eb: nat, c: nat)
    requires eb > 0 && EbIndex(c, eb) < |bad| && EbIndex(Skip(bad, eb, c), eb) >= |bad|
    ensures |bad| > 0 && bad[|bad| - 1]
  {
    var y := LastPosition(c, eb, |bad| - 1);
    Inside(y, eb, |bad|);
    Inside(Skip(bad, eb, c), eb, |bad|);
    SkippedIsBad(bad, eb, c, y);
  }

  /** When the byte behind a good position lies behind all blocks, the last block is good. */
  lemma EndsOnGood(bad: seq<bool>, eb: nat, q: nat)
    requires eb > 0 && OnGood(bad, eb, q) && EbIndex(q + 1, eb) >= |bad|
    ensures |bad| > 0 && !bad[|bad| - 1]
  {
    NextByte(q, eb);
  }

  /** The cursor at which no further byte finds room has reached the end of the partition exactly if the last block is
      good. */
  lemma LastBlockDecides(bad: seq<bool>, eb: nat, x: nat, done: nat)
    requires eb > 0 && |bad| > 0 && EbIndex(x, eb) < |bad| && Fits(bad, eb, x, done) && !Fits(bad, eb, x, done + 1)
    ensures EbIndex(After(bad, eb, x, done), eb) >= |bad| <==> !bad[|bad| - 1]
  {
    var c := After(bad, eb, x, done);
    NoRoom(bad, eb, x, done);
    if EbIndex(c, eb) < |bad| {
      AllSkipped(bad, eb, c);
    } else {
      FitsFewer(bad, eb, x, done, done);
      EndsOnGood(bad, eb, Place(bad, eb, x, done - 1));
    }
  }

  lemma NoRoom(bad: seq<bool>, eb: nat, x: nat, done: nat)
    requires eb > 0 && !Fits(bad, eb, x, done + 1)
    ensures EbIndex(Skip(bad, eb, After(bad, eb, x, done)), eb) >= |bad|
  {
    assert done + 1 - 1 == done;
  }

  /** A read or write of want bytes from x on succeeds exactly when enough good bytes lie behind x or the last block of
      the partition is good; in the second case it succeeds although bytes are left over. */
  predicate Succeeds(bad: seq<bool>, eb: nat, x: nat, want: nat)
    requires eb > 0 && EbIndex(x, eb) < |bad| && EbIndex(EbStart(|bad|, eb), eb) <= |bad|
  {
    GoodBytes(bad, eb, x) + want <= GoodBytes(bad, eb, EbStart(|bad|, eb)) || !bad[|bad| - 1]
  }

  lemma RoomOrNot(p: Partition, bad: seq<bool>, x: nat, want: nat)
    requires p.Geometry() && |bad| == p.ebCnt && x < p.Size()
    ensures EbIndex(x, p.ebSize) < |bad| && EbIndex(p.Size(), p.ebSize) == |bad|
    ensures Fits(bad, p.ebSize, x, want) <==> GoodBytes(bad, p.ebSize, x) + want <= GoodBytes(bad, p.ebSize, p.Size())
  {
    Inside(x, p.ebSize, p.ebCnt);
    DivMod(p.ebCnt, p.ebSize, 0);
    if want > 0 {
      EnoughRoom(p, bad, x, want);
    } else {
      GoodBytesMonotone(bad, p.ebSize, x, p.Size());
    }
  }

  /** When mtd_basic_read reports success, and when all wanted bytes were read. */
  lemma ReadSucceeds(p: Partition, bad: seq<bool>, x: nat, want: nat, done: nat, r: int)
    requires p.Geometry() && |bad| == p.ebCnt && x < p.Size() && Ends(bad, p.ebSize, x, want, done, p.Start(), r)
    ensures EbIndex(x, p.ebSize) < |bad| && EbIndex(p.Size(), p.ebSize) == |bad|
    ensures r != -1 <==> Succeeds(bad, p.ebSize, x, want)
    ensures done == want <==> GoodBytes(bad, p.ebSize, x) + want <= GoodBytes(bad, p.ebSize, p.Size())
  {
    RoomOrNot(p, bad, x, want);
    if done < want {
      if Fits(bad, p.ebSize, x, want) { FitsFewer(bad, p.ebSize, x, done + 1, want); }
      LastBlockDecides(bad, p.ebSize, x, done);
    }
    NonNegative(p.startEb, p.ebSize);
  }

  /** No page of the stream that finds room meets a reserved region without a value. */
  ghost predicate AllClear(p: Partition, bad: seq<bool>, x: nat, lay: seq<Region>, want: nat)
    requires p.Geometry()
  {
    forall j :: 0 <= j < want && j % p.minIo == 0 && Fits(bad, p.ebSize, x, j + 1) ==>
      PageClear(bad, p.ebSize, x, p.Start(), lay, p.minIo, j)
  }

  /** The same for mtd_basic_write of the padded stream, when all its pages are clear; otherwise it fails. */
  lemma WriteSucceeds(p: Partition, bad: seq<bool>, x: nat, lay: seq<Region>, want: nat, done: nat, r: int)
    requires p.Geometry() && |bad| == p.ebCnt && x < p.Size() && WriteEnds(p, bad, x, lay, want, done, r)
    ensures EbIndex(x, p.ebSize) < |bad| && EbIndex(p.Size(), p.ebSize) == |bad|
    ensures r != -1 <==> Succeeds(bad, p.ebSize, x, want) && AllClear(p, bad, x, lay, want)
    ensures done == want <==>
            GoodBytes(bad, p.ebSize, x) + want <= GoodBytes(bad, p.ebSize, p.Size()) && AllClear(p, bad, x, lay, want)
  {
    hide EbIndex, EbOffset, EbStart, After, Skip, Unsaved, GoodBytes;
    RoomOrNot(p, bad, x, want);
    NonNegative(p.startEb, p.ebSize);
    if done < want && Fits(bad, p.ebSize, x, done + 1) {
      DivMonotone(After(bad, p.ebSize, x, done), Place(bad, p.ebSize, x, done), p.ebSize);
      assert !PageClear(bad, p.ebSize, x, p.Start(), lay, p.minIo, done);
    } else {
      BehindRoom(p, bad, x, lay, want, done);
      ReadSucceeds(p, bad, x, want, done, r);
    }
  }

  /** No page behind the last one that finds room finds any. */
  lemma BehindRoom(p: Partition, bad: seq<bool>, x: nat, lay: seq<Region>, want: nat, done: nat)
    requires p.Geometry() && done <= want && PagesClear(bad, p.ebSize, x, p.Start(), lay, p.minIo, done)
    requires done == want || !Fits(bad, p.ebSize, x, done + 1)
    ensures AllClear(p, bad, x, lay, want)
  {
    hide After, Skip;
    forall j | 0 <= j < want && j % p.minIo == 0 && Fits(bad, p.ebSize, x, j + 1)
      ensures PageClear(bad, p.ebSize, x, p.Start(), lay, p.minIo, j)
    {
      if done <= j { FitsFewer(bad, p.ebSize, x, done + 1, j + 1); }
    }
  }

  /** A read that starts at the very end of the partition succeeds with nothing read. */
  lemma ReadAtEnd(p: Partition, bad: seq<bool>, want: nat, done: nat, r: int)
    requires p.Geometry() && |bad| == p.ebCnt && Ends(bad, p.ebSize, p.Size(), want, done, p.Start(), r)
    ensures r == p.Start() + p.Size() && done == 0
  {
    DivMod(p.ebCnt, p.ebSize, 0);
    if done > 0 { FitsFewer(bad, p.ebSize, p.Size(), 1, done); }
  }

  /** Two blocks, the first one bad, and a request for two blocks from the start: one block is read, and success
      reported. */
  lemma LeftOver(bad: seq<bool>, eb: nat, done: nat, r: int)
    requires bad == [true, false] && eb > 0 && Ends(bad, eb, 0, EbStart(2, eb), done, 0, r)
    ensures r == EbStart(2, eb) && done == eb
  {
    hide EbIndex, EbOffset, EbStart, After, Skip;
    SecondBlock(bad, eb);
    Contiguous(bad, eb, 0, 0, eb);
    var room := if done < eb then done + 1 else eb;
    FitsFewer(bad, eb, 0, room, eb);
    BehindSecond(bad, eb);
    if done > eb { FitsFewer(bad, eb, 0, eb + 1, done); }
  }

  lemma BehindSecond(bad: seq<bool>, eb: nat)
    requires bad == [true, false] && eb > 0 && After(bad, eb, 0, eb) == eb + eb
    ensures !Fits(bad, eb, 0, eb + 1) && !InPartition(2, eb, eb + eb) && EbStart(2, eb) == eb + eb
  {
    OneBlockSize(eb);
    DivMod(2, eb, 0);
    assert Place(bad, eb, 0, eb + 1 - 1) == Skip(bad, eb, eb + eb);
  }

  lemma SecondBlock(bad: seq<bool>, eb: nat)
    requires bad == [true, false] && eb > 0
    ensures Place(bad, eb, 0, 0) == eb && EbIndex(eb, eb) == 1 && EbOffset(eb, eb) == 0
  {
    OneBlockSize(eb);
    DivMod(0, eb, 0);
    DivMod(1, eb, 0);
    assert Skip(bad, eb, 0) == Skip(bad, eb, EbStart(EbIndex(0, eb) + 1, eb));
  }

  // ---------------------------------------------------------------- erase, then write

  ghost predicate InReserved(lay: seq<Region>, addr: int)
  {
    exists i :: 0 <= i < |lay| && lay[i].reserve == Reserved && lay[i].Holds(addr)
  }

  /** A region that meets a run of bytes of one block lies in that block. */
  lemma RegionOfRun(p: Partition, l: Region, q: nat, n: nat)
    requires p.Geometry() && l.Valid() && InOneBlock(p, l) && n > 0 && EbOffset(q, p.ebSize) + n <= p.ebSize
             && EbIndex(q, p.ebSize) < p.ebCnt
    requires Overlaps(l, p.Start() + q, p.Start() + q + n)
    ensures InPartitionOf(p, l) && BlockIndex(p, l) == EbIndex(q, p.ebSize)
  {
    var b, eb := EbIndex(q, p.ebSize), p.ebSize;
    Split(q, eb);
    MeetsBlock(p, l, b);
    assert Overlaps(l, p.Start() + EbStart(b, eb), p.Start() + EbStart(b, eb) + eb);
  }

  /** After an erase that saved it, a reserved region in an erased block has a value: its bytes from before the
      erase. */
  lemma SavedRegion(p: Partition, lay0: seq<Region>, lay: seq<Region>, cells0: seq<Byte>, e: nat, i: nat, q: nat,
                    n: nat)
    requires p.Geometry() && i < |lay0| && lay0[i].Valid() && InOneBlock(p, lay0[i])
             && SavedUpTo(p, cells0, lay0, lay, e)
    requires n > 0 && EbOffset(q, p.ebSize) + n <= p.ebSize && EbIndex(q, p.ebSize) < e <= p.ebCnt
    requires lay0[i].reserve == Reserved && Overlaps(lay0[i], p.Start() + q, p.Start() + q + n)
    ensures SavedAs(cells0, lay0[i].offset - p.Start(), lay0[i], lay[i])
  {
    RegionOfRun(p, lay0[i], q, n);
  }

  /** What is programmed at q for an image byte b when the first e blocks were erased before: in them, under a reserved
      region, the byte from before the erase; behind them what the region held already. */
  ghost function AfterErase(p: Partition, was: Flash, e: nat, q: nat, b: Byte): Byte
    requires p.Geometry() && ValidLayout(was.lay) && q < |was.cells|
  {
    if EbIndex(q, p.ebSize) < e then if InReserved(was.lay, p.Start() + q) then was.cells[q] else b
    else Overlay(was.lay, p.Start() + q, b)
  }

  lemma MergedByte(p: Partition, was: Flash, lay: seq<Region>, e: nat, q: nat, b: Byte)
    requires p.Geometry() && ValidLayout(was.lay) && ValidLayout(lay) && SavedUpTo(p, was.cells, was.lay, lay, e)
             && SameShape(was.lay, lay)
    requires forall i :: 0 <= i < |was.lay| ==> InOneBlock(p, was.lay[i])
    requires q < |was.cells| == p.Size() && e <= p.ebCnt
    ensures Overlay(lay, p.Start() + q, b) == AfterErase(p, was, e, q, b)
  {
    var addr := p.Start() + q;
    if EbIndex(q, p.ebSize) >= e {
      forall i | 0 <= i < |lay| && was.lay[i].Holds(addr)
        ensures lay[i] == was.lay[i]
      {
        Inside(q, p.ebSize, p.ebCnt);
        Split(q, p.ebSize);
        RegionOfRun(p, was.lay[i], q, 1);
      }
      SameOverlay(was.lay, lay, addr, b);
    } else if InReserved(was.lay, addr) {
      var i :| 0 <= i < |was.lay| && was.lay[i].reserve == Reserved && was.lay[i].Holds(addr);
      SavedByte(p, was.lay, lay, was.cells, e, i, q, b);
    } else {
      FreeByte(was.lay, lay, addr, b);
    }
  }

  /** Regions elsewhere do not matter. */
  lemma {:induction false} SameOverlay(lay: seq<Region>, lay': seq<Region>, addr: int, b: Byte)
    requires SameShape(lay, lay') && forall i :: 0 <= i < |lay| ==> lay[i].Valid() && lay'[i].Valid()
    requires forall i :: 0 <= i < |lay| && lay[i].Holds(addr) ==> lay'[i] == lay[i]
    ensures Overlay(lay', addr, b) == Overlay(lay, addr, b)
  {
    if lay != [] {
      var k := |lay| - 1;
      assert lay'[k] == lay[k].(value := lay'[k].value);
      SameOverlay(lay[..k], lay'[..k], addr, b);
    }
  }

  lemma SavedByte(p: Partition, lay0: seq<Region>, lay: seq<Region>, cells0: seq<Byte>, e: nat, i: nat, q: nat, b: Byte)
    requires p.Geometry() && ValidLayout(lay) && SavedUpTo(p, cells0, lay0, lay, e) && i < |lay0| && lay0[i].Valid()
             && InOneBlock(p, lay0[i])
    requires q < |cells0| && EbIndex(q, p.ebSize) < e <= p.ebCnt && lay0[i].reserve == Reserved
             && lay0[i].Holds(p.Start() + q)
    ensures Overlay(lay, p.Start() + q, b) == cells0[q]
  {
    hide EbIndex, EbOffset, EbStart, Overlay, InOneBlock;
    Split(q, p.ebSize);
    SavedRegion(p, lay0, lay, cells0, e, i, q, 1);
    assert lay[i].reserve == Reserved && lay[i].value.Some? && lay[i].Holds(p.Start() + q);
    OverlayIs(lay, p.Start() + q, b);
    SavedValue(cells0, lay0[i].offset - p.Start(), lay[i].value.value, q);
  }

  lemma SavedValue(cells: seq<Byte>, from: int, value: seq<Byte>, q: nat)
    requires IsContents(cells, from, value) && from <= q < from + |value|
    ensures value[q - from] == cells[q]
  {}

  lemma FreeByte(lay0: seq<Region>, lay: seq<Region>, addr: int, b: Byte)
    requires ValidLayout(lay) && SameShape(lay0, lay) && !InReserved(lay0, addr)
    ensures Overlay(lay, addr, b) == b
  {
    forall i | 0 <= i < |lay| && lay[i].reserve == Reserved
      ensures !lay[i].Holds(addr)
    {
      assert lay[i] == lay0[i].(value := lay[i].value);
    }
    NotCovered(lay, addr, b);
  }

  /** Byte k of a stream that was written after an erase of the first e blocks: an erased block holds it, or the bytes
      of the reserved region from before the erase; on any other block it could only clear bits. */
  ghost predicate Rewritten(p: Partition, abs: seq<bool>, rel: seq<bool>, was: Flash, e: nat, x: nat, stream: seq<Byte>,
                            cells: seq<Byte>, k: nat)
    requires p.Geometry() && ValidLayout(was.lay) && k < |stream| && e <= |abs|
  {
    var q := Place(rel, p.ebSize, x, k);
    && q < |was.cells| == |cells|
    && cells[q] == if EbIndex(q, p.ebSize) < e && !abs[EbIndex(q, p.ebSize)] then AfterErase(p, was, e, q, stream[k])
         else ByteAnd(was.cells[q], AfterErase(p, was, e, q, stream[k]))
  }

  /** One erase that got as far as block e, and one write of any stream at any offset, without device errors: what every
      byte of the partition is afterwards. The two may skip different blocks. */
  lemma EraseThenWrite(p: Partition, abs: seq<bool>, rel: seq<bool>, was: Flash, now: Flash, e: nat, x: nat,
                       stream: seq<Byte>, cells: seq<Byte>, done: nat, r: int)
    requires p.Geometry() && ValidLayout(was.lay) && ValidLayout(now.lay) && |abs| == |rel| == p.ebCnt
             && |was.es| == p.totalEb && |was.cells| == p.Size()
    requires forall i :: 0 <= i < |was.lay| ==> InOneBlock(p, was.lay[i])
    requires Erasing(p, abs, was, now, e)
    requires WriteResult(p, rel, x, now.lay, stream, now.cells, cells, done, r)
    ensures forall k :: 0 <= k < done ==> Rewritten(p, abs, rel, was, e, x, stream, cells, k)
    ensures |cells| == |was.cells|
    ensures forall q :: 0 <= q < |cells| && (q < x || q >= After(rel, p.ebSize, x, done) || OnBad(rel, p.ebSize, q)) ==>
              cells[q] == if EbIndex(q, p.ebSize) < e && !abs[EbIndex(q, p.ebSize)] then ERASED_BYTE else was.cells[q]
  {
    hide EbIndex, EbOffset, EbStart, After, Skip, Overlay, InReserved, SavedUpTo, SameShape, AfterErase, PagesClear,
         Fits;
    forall k | 0 <= k < done
      ensures Rewritten(p, abs, rel, was, e, x, stream, cells, k)
    {
      assert StreamByte(rel, p.ebSize, x, p.Start(), now.lay, stream[..done], now.cells, cells, k);
      var q := Place(rel, p.ebSize, x, k);
      BlankedAt(was.cells, p.ebSize, abs, e, q);
      MergedByte(p, was, now.lay, e, q, stream[k]);
      ByteAndOnes(AfterErase(p, was, e, q, stream[k]));
    }
    forall q | 0 <= q < |cells| && (q < x || q >= After(rel, p.ebSize, x, done) || OnBad(rel, p.ebSize, q))
      ensures cells[q] == if EbIndex(q, p.ebSize) < e && !abs[EbIndex(q, p.ebSize)] then ERASED_BYTE else was.cells[q]
    {
      BlankedAt(was.cells, p.ebSize, abs, e, q);
    }
  }

  /** A byte on a block that the erase blanked: the image's, or the region's from before the erase. */
  ghost predicate Arrived(p: Partition, rel: seq<bool>, was: Flash, x: nat, image: seq<Byte>, cells: seq<Byte>, k: nat)
    requires p.ebSize > 0 && k < |image|
  {
    var q := Place(rel, p.ebSize, x, k);
    && q < |was.cells| == |cells|
    && cells[q] == if InReserved(was.lay, p.Start() + q) then was.cells[q] else image[k]
  }

  lemma ErasedArrives(p: Partition, abs: seq<bool>, rel: seq<bool>, was: Flash, e: nat, x: nat, image: seq<Byte>,
                      cells: seq<Byte>, k: nat)
    requires p.Geometry() && ValidLayout(was.lay) && k < |image| && e <= |abs|
    requires Rewritten(p, abs, rel, was, e, x, image, cells, k)
    requires var b := EbIndex(Place(rel, p.ebSize, x, k), p.ebSize); b < e && !abs[b]
    ensures Arrived(p, rel, was, x, image, cells, k)
  {}

  /** The page at cursor k of a stream on erased blocks meets no region that was not saved. */
  lemma PageSaved(p: Partition, rel: seq<bool>, was: Flash, lay: seq<Region>, e: nat, x: nat, k: nat)
    requires p.Geometry() && SavedUpTo(p, was.cells, was.lay, lay, e) && SameShape(was.lay, lay)
             && e <= |rel| == p.ebCnt
    requires forall i :: 0 <= i < |was.lay| ==> was.lay[i].Valid() && InOneBlock(p, was.lay[i])
    requires x % p.minIo == 0 && k % p.minIo == 0 && Fits(rel, p.ebSize, x, k + 1)
             && EbIndex(Place(rel, p.ebSize, x, k), p.ebSize) < e
    ensures PageClear(rel, p.ebSize, x, p.Start(), lay, p.minIo, k)
  {
    hide EbIndex, EbOffset, EbStart, After, Skip;
    FitsFewer(rel, p.ebSize, x, k, k + 1);
    CursorAligned(rel, p.ebSize, x, p.minIo, k);
    var q := Place(rel, p.ebSize, x, k);
    PageInBlock(q, p.ebSize, p.minIo);
    forall i | 0 <= i < |lay| && lay[i].reserve == Reserved && Overlaps(lay[i], p.Start() + q, p.Start() + q + p.minIo)
      ensures lay[i].value.Some?
    {
      assert lay[i] == was.lay[i].(value := lay[i].value);
      SavedRegion(p, was.lay, lay, was.cells, e, i, q, p.minIo);
    }
  }

  /** The erase of want blocks and the write of no more than they hold, from the start of the partition: when there are
      want good blocks the write is complete, and every byte arrived. */
  lemma FrontRewritten(p: Partition, bad: seq<bool>, was: Flash, now: Flash, want: nat, e: nat, image: seq<Byte>,
                       cells: seq<Byte>, done: nat, r: int)
    requires p.Geometry() && ValidLayout(was.lay) && ValidLayout(now.lay) && |bad| == p.ebCnt && |was.es| == p.totalEb
             && |was.cells| == p.Size()
    requires forall i :: 0 <= i < |was.lay| ==> InOneBlock(p, was.lay[i])
    requires ErasedSpan(bad, want, e) && GoodBlocks(bad, |bad|) >= want
    requires Erasing(p, bad, was, now, e)
    requires |image| <= EbStart(want, p.ebSize) && |image| % p.minIo == 0
    requires WriteResult(p, bad, 0, now.lay, image, now.cells, cells, done, r)
    ensures r == p.Start() + After(bad, p.ebSize, 0, |image|) && done == |image|
    ensures forall k :: 0 <= k < |image| ==> Arrived(p, bad, was, 0, image, cells, k)
  {
    hide EbIndex, EbOffset, EbStart, After, Skip, Written, GoodBlocks, Rewritten, Arrived, Unsaved, SavedUpTo,
         SameShape;
    StreamIsErased(bad, p.ebSize, want, e, |image|);
    Remainder(0, p.minIo, 0, 0);
    if done < |image| {
      FitsFewer(bad, p.ebSize, 0, done + 1, |image|);
      PageSaved(p, bad, was, now.lay, e, 0, done);
    }
    WriteCompletes(p, bad, 0, now.lay, image, now.cells, cells, done, r);
    EraseThenWrite(p, bad, bad, was, now, e, 0, image, cells, done, r);
    forall k | 0 <= k < |image|
      ensures Arrived(p, bad, was, 0, image, cells, k)
    {
      ErasedArrives(p, bad, bad, was, e, 0, image, cells, k);
    }
  }

  /** The erase of the whole partition and the write of any image at any offset in it: the write succeeds exactly when
      enough good bytes lie behind the offset or the last block is good, it is complete exactly in the first case, and
      every byte that it wrote to a block the erase did not skip arrived. */
  lemma PartitionRewritten(p: Partition, abs: seq<bool>, rel: seq<bool>, was: Flash, now: Flash, x: nat,
                           image: seq<Byte>, cells: seq<Byte>, done: nat, r: int)
    requires p.Geometry() && ValidLayout(was.lay) && ValidLayout(now.lay) && |abs| == |rel| == p.ebCnt
             && |was.es| == p.totalEb && |was.cells| == p.Size()
    requires forall i :: 0 <= i < |was.lay| ==> InOneBlock(p, was.lay[i])
    requires Erasing(p, abs, was, now, p.ebCnt)
    requires x < p.Size() && x % p.minIo == 0
    requires WriteResult(p, rel, x, now.lay, image, now.cells, cells, done, r)
    ensures EbIndex(x, p.ebSize) < |rel| && EbIndex(p.Size(), p.ebSize) == |rel|
    ensures r != -1 <==> Succeeds(rel, p.ebSize, x, |image|)
    ensures done == |image| <==> GoodBytes(rel, p.ebSize, x) + |image| <= GoodBytes(rel, p.ebSize, p.Size())
    ensures done <= |image| && Fits(rel, p.ebSize, x, done)
    ensures forall k :: 0 <= k < done ==> Rewritten(p, abs, rel, was, p.ebCnt, x, image, cells, k)
    ensures forall k :: 0 <= k < done && !OnBad(abs, p.ebSize, Place(rel, p.ebSize, x, k)) ==>
              Arrived(p, rel, was, x, image, cells, k)
  {
    hide EbIndex, EbOffset, EbStart, After, Skip, Written, GoodBytes, Rewritten, Arrived, SavedUpTo, SameShape, Place;
    EraseThenWrite(p, abs, rel, was, now, p.ebCnt, x, image, cells, done, r);
    SavedThroughout(p, rel, was, now.lay, x, |image|);
    WriteSucceeds(p, rel, x, now.lay, |image|, done, r);
    FitsFewer(rel, p.ebSize, x, done, done);
    forall k | 0 <= k < done && !OnBad(abs, p.ebSize, Place(rel, p.ebSize, x, k))
      ensures Arrived(p, rel, was, x, image, cells, k)
    {
      ErasedArrives(p, abs, rel, was, p.ebCnt, x, image, cells, k);
    }
  }

  lemma SavedThroughout(p: Partition, rel: seq<bool>, was: Flash, lay: seq<Region>, x: nat, want: nat)
    requires p.Geometry() && SavedUpTo(p, was.cells, was.lay, lay, p.ebCnt) && SameShape(was.lay, lay)
             && |rel| == p.ebCnt
    requires forall i :: 0 <= i < |was.lay| ==> was.lay[i].Valid() && InOneBlock(p, was.lay[i])
    requires x % p.minIo == 0
    ensures AllClear(p, rel, x, lay, want)
  {
    forall j | 0 <= j < want && j % p.minIo == 0 && Fits(rel, p.ebSize, x, j + 1)
      ensures PageClear(rel, p.ebSize, x, p.Start(), lay, p.minIo, j)
    {
      FitsFewer(rel, p.ebSize, x, j, j + 1);
      PageSaved(p, rel, was, lay, p.ebCnt, x, j);
    }
  }

  /** Erasing does not change which blocks a write skips. */
  lemma EraseKeepsFlags(es: seq<Status>, startEb: nat, bad: seq<bool>, n: nat, cnt: nat, skips: bool)
    requires n <= |bad| && startEb + |bad| <= |es| && cnt <= |es|
    ensures BadFlags(ErasedMap(es, startEb, bad, n)[..cnt], skips) == BadFlags(es[..cnt], skips)
  {
    forall j | 0 <= j < cnt
      ensures (ErasedMap(es, startEb, bad, n)[j] == Bad) == (es[j] == Bad)
    {
      ErasedMapAt(es, startEb, bad, n, j);
    }
  }

  /** An erase of the whole partition stops behind its last block. */
  lemma WholeSpan(p: Partition, bad: seq<bool>, e: nat)
    requires p.Geometry() && |bad| == p.ebCnt
    ensures EraseBlocks(p, p.Size()) == p.ebCnt
    ensures ErasedSpan(bad, p.ebCnt, e) ==> e == p.ebCnt
  {
    DivMod(p.ebCnt, p.ebSize, p.ebSize - 1);
  }

  /** The two calls in a row, as an update makes them: the whole partition is erased, then an image is written at its
      own offset. */
  method ErasePartitionThenWrite(s: SysinfoManager, offset: nat, buf: array<Byte>, markbad: bool)
    returns (erased: int, r: int, ghost done: nat)
    requires s.Valid() && s.part.hasMap && Quiet(s.part) && RegionsReady(s.part, s.part.es, s.layout)
    requires !WriteRefused(s.part, offset, buf.Length, true) && offset < s.part.Start() + s.part.Size()
    modifies s, s.part, buf
    ensures s.Valid() && erased == s.part.Start() + s.part.Size()
    ensures var p, x, rel := s.part, offset - s.part.Start(), old(s.part.RelBad());
            var image := Padded(old(buf[..]), p.minIo);
            && EbIndex(x, p.ebSize) < |rel| && EbIndex(p.Size(), p.ebSize) == |rel|
            && (r != -1 <==> Succeeds(rel, p.ebSize, x, |image|))
            && (done == |image| <==> GoodBytes(rel, p.ebSize, x) + |image| <= GoodBytes(rel, p.ebSize, p.Size()))
            && done <= |image|
            && forall k :: 0 <= k < done && !OnBad(old(s.part.AbsBad(false)), p.ebSize, Place(rel, p.ebSize, x, k)) ==>
                 Arrived(p, rel, old(Snapshot(s)), x, image, p.cells, k)
  {
    hide EbIndex, EbOffset, EbStart, After, Skip, Place, Written, GoodBytes, Rewritten, Arrived, SavedUpTo, SameShape,
         Padded, Run, Spared, OnDevice, WriteEnds, RegionsReady, CountBad, BadFlags, Blanked, ErasedMap;
    var p := s.part;
    ghost var was, abs, rel, image := Snapshot(s), p.AbsBad(false), p.RelBad(), Padded(buf[..], p.minIo);
    ghost var e;
    assert buf[..buf.Length] == buf[..];
    erased, e := Erase(s, p.Size(), false);
    WholeSpan(p, abs, e);
    StartAdds(p.startEb, p.ebCnt, p.ebSize);
    EraseKeepsFlags(was.es, p.startEb, abs, e, p.ebCnt, p.IsNand());
    ghost var now := Snapshot(s);
    r, done := Write(s, offset, buf.Length, buf, true, markbad);
    PartitionRewritten(p, abs, rel, was, now, offset - p.Start(), image, p.cells, done, r);
  }

  // ---------------------------------------------------------------- an image written in pieces

  lemma {:induction false} AfterAfter(bad: seq<bool>, eb: nat, x: nat, n: nat, k: nat)
    requires eb > 0
    ensures After(bad, eb, After(bad, eb, x, n), k) == After(bad, eb, x, n + k)
    decreases k
  {
    if k > 0 {
      AfterAfter(bad, eb, x, n, k - 1);
      assert n + k - 1 == n + (k - 1);
    }
  }

  lemma FitsJoin(bad: seq<bool>, eb: nat, x: nat, n: nat, k: nat)
    requires eb > 0 && Fits(bad, eb, x, n)
    ensures Fits(bad, eb, After(bad, eb, x, n), k) <==> Fits(bad, eb, x, n + k)
  {
    if k > 0 {
      AfterAfter(bad, eb, x, n, k - 1);
      assert n + k - 1 == n + (k - 1);
    }
  }

  /** A byte of the first stream, and one of the second, as bytes of both. */
  lemma ByteJoin(bad: seq<bool>, eb: nat, x: nat, start: nat, lay: seq<Region>, a: seq<Byte>, b: seq<Byte>,
                 cells0: seq<Byte>, cells1: seq<Byte>, cells2: seq<Byte>, k: nat)
    requires eb > 0 && (forall i :: 0 <= i < |lay| ==> lay[i].Valid()) && k < |a| + |b|
    requires Written(bad, eb, x, start, lay, a, cells0, cells1)
             && Written(bad, eb, After(bad, eb, x, |a|), start, lay, b, cells1, cells2)
    ensures StreamByte(bad, eb, x, start, lay, a + b, cells0, cells2, k)
  {
    hide EbIndex, EbOffset, After, Skip, Overlay, Fits;
    var n, y := |a|, After(bad, eb, x, |a|);
    if k < n {
      assert StreamByte(bad, eb, x, start, lay, a, cells0, cells1, k);
      PlaceGrows(bad, eb, x, k, n);
    } else {
      assert StreamByte(bad, eb, y, start, lay, b, cells1, cells2, k - n);
      AfterAfter(bad, eb, x, n, k - n);
      NotBefore(bad, eb, y, k - n);
      FitsOffBad(bad, eb, y, |b|, k - n);
    }
  }

  lemma NotBefore(bad: seq<bool>, eb: nat, y: nat, k: nat)
    requires eb > 0
    ensures Place(bad, eb, y, k) >= y
  {}

  lemma FitsOffBad(bad: seq<bool>, eb: nat, y: nat, n: nat, k: nat)
    requires eb > 0 && k < n && Fits(bad, eb, y, n)
    ensures OnGood(bad, eb, Place(bad, eb, y, k))
  {
    FitsFewer(bad, eb, y, n, n);
  }

  /** A second write that starts where the first one ended continues its stream. */
  lemma WrittenJoin(bad: seq<bool>, eb: nat, x: nat, start: nat, lay: seq<Region>, a: seq<Byte>, b: seq<Byte>,
                    cells0: seq<Byte>, cells1: seq<Byte>, cells2: seq<Byte>)
    requires eb > 0 && forall i :: 0 <= i < |lay| ==> lay[i].Valid()
    requires Written(bad, eb, x, start, lay, a, cells0, cells1)
             && Written(bad, eb, After(bad, eb, x, |a|), start, lay, b, cells1, cells2)
    ensures Written(bad, eb, x, start, lay, a + b, cells0, cells2)
  {
    hide EbIndex, EbOffset, After, Skip, Overlay, Place, StreamByte;
    var n := |a|;
    FitsJoin(bad, eb, x, n, |b|);
    AfterAfter(bad, eb, x, n, |b|);
    forall k | 0 <= k < n + |b|
      ensures StreamByte(bad, eb, x, start, lay, a + b, cells0, cells2, k)
    {
      ByteJoin(bad, eb, x, start, lay, a, b, cells0, cells1, cells2, k);
    }
  }

  /** The next piece, written at the address that the write of the piece before returned, goes where one write of both
      would have put it. */
  lemma WritesJoin(p: Partition, bad: seq<bool>, x: nat, lay: seq<Region>, a: seq<Byte>, b: seq<Byte>,
                   cells0: seq<Byte>, cells1: seq<Byte>, cells2: seq<Byte>, r1: int, done: nat, r2: int)
    requires p.Geometry() && ValidLayout(lay) && WriteResult(p, bad, x, lay, a, cells0, cells1, |a|, r1)
    requires r1 >= p.Start() && WriteResult(p, bad, r1 - p.Start(), lay, b, cells1, cells2, done, r2)
    ensures WriteResult(p, bad, x, lay, a + b, cells0, cells2, |a| + done, r2)
  {
    hide EbIndex, EbOffset, EbStart, After, Skip, Overlay, Written, Fits, Unsaved;
    var n, y := |a|, After(bad, p.ebSize, x, |a|);
    FitsJoin(bad, p.ebSize, x, n, done);
    FitsJoin(bad, p.ebSize, x, n, done + 1);
    AfterAfter(bad, p.ebSize, x, n, done);
    assert a[..n] == a && (a + b)[..n + done] == a + b[..done];
    WrittenJoin(bad, p.ebSize, x, p.Start(), lay, a, b[..done], cells0, cells1, cells2);
    PagesAdd(n, done, p.minIo);
    assert PageClear(bad, p.ebSize, y, p.Start(), lay, p.minIo, done) ==
           PageClear(bad, p.ebSize, x, p.Start(), lay, p.minIo, n + done);
    forall j | 0 <= j < n + done && j % p.minIo == 0
      ensures PageClear(bad, p.ebSize, x, p.Start(), lay, p.minIo, j)
    {
      if j >= n {
        PagesAdd(j, n, p.minIo);
        AfterAfter(bad, p.ebSize, x, n, j - n);
        assert PageClear(bad, p.ebSize, y, p.Start(), lay, p.minIo, j - n);
      }
    }
  }

  /** The cursor is as far as the number of bytes written exactly when no bad block was in the way. */
  lemma {:induction false} FixedAdvance(bad: seq<bool>, eb: nat, x: nat, n: nat)
    requires eb > 0
    ensures After(bad, eb, x, n) == x + n <==> forall q :: x <= q < x + n ==> !OnBad(bad, eb, q)
    decreases n
  {
    if n > 0 { FixedAdvance(bad, eb, x, n - 1); }
  }

  /** An update adds a fixed length to the offset for the next piece, whatever the write returned: the piece then starts
      on a byte of the one before exactly when a bad block lies in between. */
  lemma PiecesOverlap(bad: seq<bool>, eb: nat, x: nat, n: nat)
    requires eb > 0 && n > 0 && Fits(bad, eb, x, n)
    ensures (exists k :: 0 <= k < n && Place(bad, eb, x, k) == Place(bad, eb, x + n, 0)) <==>
            (exists q :: x <= q < x + n && OnBad(bad, eb, q))
  {
    hide EbIndex, EbOffset, EbStart;
    FixedAdvance(bad, eb, x, n);
    var q, last := Place(bad, eb, x + n, 0), Place(bad, eb, x, n - 1);
    FitsFewer(bad, eb, x, n, n);
    if After(bad, eb, x, n) == x + n {
      forall k | 0 <= k < n
        ensures Place(bad, eb, x, k) < q
      {
        PlaceGrows(bad, eb, x, k, n);
      }
    } else {
      if q > last { SkippedIsBad(bad, eb, x + n, last); }
      DivMonotone(q, last, eb);
      var k := EveryGoodPosition(bad, eb, x, n, q);
    }
  }

  /** Three blocks, the first one bad, and pieces of one block: both pieces start on the first byte of the second
      block. */
  lemma SamePlaceTwice(bad: seq<bool>, eb: nat)
    requires bad == [true, false, false] && eb > 0
    ensures Fits(bad, eb, 0, eb) && Place(bad, eb, 0, 0) == Place(bad, eb, eb, 0) == eb
  {
    hide EbIndex, EbOffset, EbStart;
    OneBlockSize(eb);
    DivMod(0, eb, 0);
    DivMod(1, eb, 0);
    assert Skip(bad, eb, 0) == Skip(bad, eb, EbStart(EbIndex(0, eb) + 1, eb));
    Contiguous(bad, eb, 0, 0, eb);
  }

  // ---------------------------------------------------------------- scan, then write

  /** Both flag sets agree between lo and hi, so they count the same blocks there. */
  lemma {:induction false} SameCount(a: seq<bool>, b: seq<bool>, lo: nat, hi: nat)
    requires lo <= hi <= |a| == |b| && forall i :: lo <= i < hi ==> a[i] == b[i]
    ensures GoodBlocks(a, hi) - GoodBlocks(a, lo) == GoodBlocks(b, hi) - GoodBlocks(b, lo)
    decreases hi
  {
    if lo < hi { SameCount(a, b, lo, hi - 1); }
  }

  /** The span that a scan returns holds the whole request: a stream of the requested length that skips the same blocks
      stays inside it. */
  lemma ScanThenFits(unfit: seq<bool>, bad: seq<bool>, eb: nat, x: nat, n: nat, need: nat, span: nat)
    requires eb > 0 && n > 0 && EbIndex(x, eb) <= |bad| == |unfit|
    requires need == EbIndex(x + n + eb - 1, eb) - EbIndex(x, eb) && Shortest(unfit, EbIndex(x, eb), need, span)
    requires forall i :: EbIndex(x, eb) <= i < EbIndex(x, eb) + span ==> bad[i] == unfit[i]
    ensures Fits(bad, eb, x, n) && Place(bad, eb, x, n - 1) < EbStart(EbIndex(x, eb) + span, eb)
  {
    var lo, hi := EbIndex(x, eb), EbIndex(x, eb) + span;
    SameCount(unfit, bad, lo, hi);
    BlockEnd(x, eb, hi);
    Enough(x, n, eb, need);
    SpanBytes(bad, eb, x, lo, hi, need);
    FitsBelow(bad, eb, x, n, EbStart(hi, eb));
  }

  lemma BlockEnd(x: nat, eb: nat, hi: nat)
    requires eb > 0 && hi > EbIndex(x, eb)
    ensures x <= EbStart(hi, eb) && EbIndex(EbStart(hi, eb), eb) == hi
  {
    DivMod(hi, eb, 0);
    Inside(x, eb, hi);
  }

  /** A span of need good blocks holds need * eb good bytes, but for those of its first block that lie below x. */
  lemma SpanBytes(bad: seq<bool>, eb: nat, x: nat, lo: nat, hi: nat, need: nat)
    requires eb > 0 && lo == EbIndex(x, eb) && lo <= hi <= |bad| && GoodBlocks(bad, hi) - GoodBlocks(bad, lo) == need
    ensures EbIndex(EbStart(hi, eb), eb) == hi
    ensures GoodBytes(bad, eb, EbStart(hi, eb)) >= GoodBytes(bad, eb, x) - EbOffset(x, eb) + EbStart(need, eb)
  {
    hide EbIndex, EbOffset, EbStart, GoodBlocks, GoodBytes;
    BytesAtBlock(bad, eb, hi);
    BytesInBlock(bad, eb, x);
    StartAdds(GoodBlocks(bad, lo), need, eb);
  }

  lemma BytesAtBlock(bad: seq<bool>, eb: nat, b: nat)
    requires eb > 0 && b <= |bad|
    ensures EbIndex(EbStart(b, eb), eb) == b && GoodBytes(bad, eb, EbStart(b, eb)) == EbStart(GoodBlocks(bad, b), eb)
  {
    DivMod(b, eb, 0);
  }

  lemma BytesInBlock(bad: seq<bool>, eb: nat, x: nat)
    requires eb > 0 && EbIndex(x, eb) <= |bad|
    ensures GoodBytes(bad, eb, x) <= EbStart(GoodBlocks(bad, EbIndex(x, eb)), eb) + EbOffset(x, eb)
  {
    Split(x, eb);
  }

  lemma Enough(x: nat, n: nat, eb: nat, need: nat)
    requires eb > 0 && n > 0 && need == EbIndex(x + n + eb - 1, eb) - EbIndex(x, eb)
    ensures EbOffset(x, eb) + n <= EbStart(need, eb)
  {
    var y := x + n + eb - 1;
    Split(x, eb);
    Split(y, eb);
    StartAdds(EbIndex(x, eb), need, eb);
  }
}
