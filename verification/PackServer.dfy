/** image.py, dev.py, file.py: what the server checks, and how it cuts images into numbered packages. */
module PackServer {
  import opened WordArith
  import opened Division
  import BadLimit

  datatype FsType = Normal | Ubifs | Jffs2 | Cramfs | Yaffs2 | UnknownType
  datatype Mode = Full | Slice | UnknownMode
  datatype UpdateMode = UpdateMode(mode: Mode, size: nat, count: nat)
  datatype Result<T> = Ok(value: T) | NoSuchMode | DivisionByZero

  const PAGE_SIZE: nat := 2048
  const BLOCK_SIZE: nat := BadLimit.NANDFLASH_BLOCK_SIZE
  const UBI_LEB_SIZE: nat := 2048 * (64 - 2)
  const YAFFS2_TAG_SIZE: nat := 28
  const YAFFS2_BLOCK_SIZE: nat := (2048 + 28) * 64
  const UBI_RESERVED_BLOCKS: nat := 2 + 1 + 1

  datatype Partition = Partition(offset: int, size: int)
  {
    function End(): int { offset + size }

    /** is_mmaped_in looks at the start only. */
    predicate Contains(start: int) { offset <= start < End() }
  }

  /** An image with the bytes of its file. */
  datatype Image = Image(offset: int, ftype: FsType, mode: UpdateMode, data: seq<Byte>)
  {
    function End(): int { offset + |data| }
  }

  // ---------------------------------------------------------------- Device.judge, Image.judge

  /** Partitions in order, each inside the device, none overlapping the next. */
  predicate DeviceOk(parts: seq<Partition>, devsize: int)
  {
    && devsize != -1
    && (forall i :: 0 <= i < |parts| ==> parts[i].offset >= 0 && parts[i].size > 0 && parts[i].End() <= devsize)
    && (forall i :: 0 <= i < |parts| - 1 ==> parts[i].End() <= parts[i + 1].offset)
  }

  method DeviceJudge(typeKnown: bool, parts: seq<Partition>, devsize: int) returns (ok: bool)
    ensures ok <==> typeKnown && DeviceOk(parts, devsize)
  {
    if !typeKnown {
      return false;
    }
    if devsize == -1 {
      return false;
    }
    for i := 0 to |parts|
      invariant forall k :: 0 <= k < i ==> parts[k].offset >= 0 && parts[k].size > 0 && parts[k].End() <= devsize
      invariant forall k :: 0 <= k < i && k < |parts| - 1 ==> parts[k].End() <= parts[k + 1].offset
    {
      var p := parts[i];
      if p.offset < 0 || p.size <= 0 {
        return false;
      }
      if p.offset >= devsize || p.size > devsize {
        return false;
      }
      if p.offset + p.size > devsize {
        return false;
      }
      if i < |parts| - 1 {
        var next := parts[i + 1];
        if next.offset < 0 || next.size <= 0 {
          return false;
        }
        if p.offset + p.size > next.offset {
          return false;
        }
      }
    }
    return true;
  }

  /** Images in order, none overlapping the next. */
  predicate ImagesOk(images: seq<Image>)
  {
    && (forall i :: 0 <= i < |images| ==> images[i].ftype != UnknownType && images[i].offset >= 0)
    && (forall i :: 0 <= i < |images| - 1 ==> images[i].End() <= images[i + 1].offset)
  }

  method ImageJudge(mediumKnown: bool, imgcnt: int, devctlKnown: bool, images: seq<Image>) returns (ok: bool)
    ensures ok <==> mediumKnown && imgcnt == |images| && devctlKnown && ImagesOk(images)
  {
    if !mediumKnown {
      return false;
    }
    if imgcnt != |images| {
      return false;
    }
    if !devctlKnown {
      return false;
    }
    for i := 0 to |images|
      invariant forall k :: 0 <= k < i ==> images[k].ftype != UnknownType && images[k].offset >= 0
      invariant forall k :: 0 <= k < i && k < |images| - 1 ==> images[k].End() <= images[k + 1].offset
    {
      var p := images[i];
      if p.ftype == UnknownType || p.offset < 0 {
        return false;
      }
      if i < |images| - 1 {
        var next := images[i + 1];
        if next.ftype == UnknownType || next.offset < 0 {
          return false;
        }
        if p.offset + |p.data| > next.offset {
          return false;
        }
      }
    }
    return true;
  }

  // ---------------------------------------------------------------- judge_partititon_mapped

  /** get_available_mapped_content_size. */
  function Available(p: Partition, ftype: FsType): int
  {
    match ftype
    case Normal => p.size
    case Ubifs => p.size - UBI_RESERVED_BLOCKS * BLOCK_SIZE
    case Jffs2 => p.size
    case Cramfs => p.size
    case Yaffs2 => p.size / PAGE_SIZE * (PAGE_SIZE + YAFFS2_TAG_SIZE)
    case UnknownType => -1
  }

  function MappedMax(p: Partition, ftype: FsType, nand: bool, devsize: nat): int
  {
    if nand && ftype == Ubifs then Available(p, ftype) - BadLimit.GetNandReservedSize(devsize) else Available(p, ftype)
  }

  /** The image lies within what partition p can hold. */
  predicate MappedIn(p: Partition, start: int, size: int, ftype: FsType, nand: bool, devsize: nat)
  {
    Available(p, ftype) > 0 && start + size <= p.offset + MappedMax(p, ftype, nand, devsize)
  }

  /** The first partition that contains the start, or else the last one. */
  predicate Chosen(parts: seq<Partition>, start: int, q: int)
  {
    && 0 <= q < |parts|
    && (forall k :: 0 <= k < q ==> !(parts[k].offset <= start < parts[k].offset + parts[k].size))
    && (parts[q].offset <= start < parts[q].offset + parts[q].size || q == |parts| - 1)
  }

  /** What judge_partititon_mapped accepts. */
  ghost predicate Mapped(parts: seq<Partition>, image: Image, nand: bool, devsize: nat)
  {
    exists q :: Chosen(parts, image.offset, q)
                && MappedIn(parts[q], image.offset, |image.data|, image.ftype, nand, devsize)
  }

  /** There is one such partition. */
  lemma ChosenOnce(parts: seq<Partition>, start: int, p: int, q: int)
    requires Chosen(parts, start, p) && Chosen(parts, start, q)
    ensures p == q
  {}

  /** judge_partititon_mapped tests the partition where the image starts; or the last one, when it starts in none. */
  method JudgePartitionMapped(parts: seq<Partition>, start: int, size: int, ftype: FsType, nand: bool, devsize: nat)
    returns (ok: bool, ghost chosen: nat)
    requires parts != []
    ensures Chosen(parts, start, chosen)
    ensures ok <==> exists q :: Chosen(parts, start, q) && MappedIn(parts[q], start, size, ftype, nand, devsize)
    ensures ok <==> MappedIn(parts[chosen], start, size, ftype, nand, devsize)
  {
    var i := 0;
    while i < |parts| - 1 && !parts[i].Contains(start)
      invariant 0 <= i < |parts|
      invariant forall k :: 0 <= k < i ==> !parts[k].Contains(start)
    {
      i := i + 1;
    }
    chosen := i;
    forall q | Chosen(parts, start, q)
      ensures q == chosen
    {
      ChosenOnce(parts, start, chosen, q);
    }
    assert Chosen(parts, start, chosen);
    var mappedMax := Available(parts[i], ftype);
    if mappedMax <= 0 {
      return false, chosen;
    }
    if nand && ftype == Ubifs {
      mappedMax := mappedMax - BadLimit.GetNandReservedSize(devsize);
    }
    ok := start + size <= parts[i].offset + mappedMax;
  }

  /** What a partition can hold, in bytes: all of it, less four blocks of 128 KiB and the reserve for bad blocks for
      ubifs; for yaffs2 each of its pages of 2048 bytes with the 28 bytes behind it. */
  lemma MappedInIs(p: Partition, start: int, size: int, ftype: FsType, nand: bool, devsize: nat, pages: int)
    requires pages * 2048 <= p.size < (pages + 1) * 2048
    ensures MappedIn(p, start, size, ftype, nand, devsize) <==>
            match ftype
            case Normal => p.size > 0 && start + size <= p.offset + p.size
            case Ubifs =>
              && p.size > 524288
              && start + size <=
                   p.offset + p.size - 524288 - (if nand then BadLimit.GetNandReservedSize(devsize) else 0)
            case Jffs2 => p.size > 0 && start + size <= p.offset + p.size
            case Cramfs => p.size > 0 && start + size <= p.offset + p.size
            case Yaffs2 => pages > 0 && start + size <= p.offset + pages * 2076
            case UnknownType => false
  {
    Remainder(p.size, PAGE_SIZE, pages, p.size - pages * PAGE_SIZE);
  }

  /** Except for yaffs2, whatever passes fits between its start and the end of the partition. */
  lemma MappedFits(p: Partition, start: int, size: int, ftype: FsType, nand: bool, devsize: nat)
    requires MappedIn(p, start, size, ftype, nand, devsize) && ftype != Yaffs2
    ensures start + size <= p.End()
  {}

  // ---------------------------------------------------------------- file.split

  /** The pieces of a file. */
  function Slices(data: seq<Byte>, size: nat): (r: seq<seq<Byte>>)
    requires size > 0
    decreases |data|
  {
    if data == [] then []
    else if |data| <= size then [data]
    else [data[..size]] + Slices(data[size..], size)
  }

  /** The pieces make up the file. */
  lemma {:induction false} SlicesJoin(data: seq<Byte>, size: nat)
    requires size > 0
    ensures Concat(Slices(data, size)) == data
    decreases |data|
  {
    if |data| > size {
      SlicesJoin(data[size..], size);
      ConcatFront(data[..size], Slices(data[size..], size));
      assert data == data[..size] + data[size..];
    } else if data != [] {
      assert Concat([data]) == Concat([]) + data;
    }
  }

  /** Every piece but the last has the full size, and their number is the size of the file divided by it, rounded up. */
  lemma {:induction false} SlicesShape(data: seq<Byte>, size: nat)
    requires size > 0
    ensures |Slices(data, size)| == (|data| + size - 1) / size
    ensures forall j :: 0 <= j < |Slices(data, size)| - 1 ==> |Slices(data, size)[j]| == size
    ensures data != [] ==> Slices(data, size) != []
    decreases |data|
  {
    if |data| > size {
      SlicesShape(data[size..], size);
      OneMoreSlice(|data| - size + size - 1, size);
    } else if data != [] {
      Remainder(|data| + size - 1, size, 1, |data| - 1);
    } else {
      Remainder(size - 1, size, 0, size - 1);
    }
  }

  /** One piece exactly when the file is no longer than a piece. */
  lemma OneSlice(data: seq<Byte>, size: nat)
    requires size > 0 && data != []
    ensures |Slices(data, size)| == 1 <==> |data| <= size
  {
    if |data| > size { SlicesShape(data[size..], size); }
  }

  lemma OneMoreSlice(x: nat, size: nat)
    requires size > 0
    ensures (x + size) / size == x / size + 1
  {
    QuotientAndRest(x, size);
    assert (x / size + 1) * size == x / size * size + size;
    Quotient(x / size + 1, size, x % size);
  }

  /** UpdateMode.get_slice_size: whole blocks of the image's kind, as many as nand blocks fit into the configured
      size. */
  function GetSliceSize(ftype: FsType, size: nat): nat
  {
    (match ftype
     case Ubifs => UBI_LEB_SIZE
     case Yaffs2 => YAFFS2_BLOCK_SIZE
     case _ => BLOCK_SIZE) * (size / BLOCK_SIZE)
  }

  /** UpdateMode.get_default. */
  function GetDefault(ftype: FsType, mode: Mode, imagesize: nat, slicesize: nat): Result<UpdateMode>
  {
    match mode
    case UnknownMode => NoSuchMode
    case Full => Ok(UpdateMode(Full, 0, 0))
    case Slice =>
      var size := GetSliceSize(ftype, slicesize);
      if size == 0 then DivisionByZero else Ok(UpdateMode(Slice, size, (imagesize + size - 1) / size))
  }

  /** Slicing divides by zero exactly when the configured size is below one nand block. */
  lemma SliceSizeZero(ftype: FsType, slicesize: nat, imagesize: nat)
    ensures GetDefault(ftype, Slice, imagesize, slicesize) == DivisionByZero <==> slicesize < BLOCK_SIZE
  {
    QuotientBelow(slicesize, BLOCK_SIZE, 1);
  }

  /** What k nand blocks of 128 KiB hold of an image: logical eraseblocks of 62 pages for ubifs, blocks with out-of-band
      data for yaffs2, whole blocks otherwise. */
  lemma SliceSizeIs(ftype: FsType, slicesize: nat, k: nat)
    requires k * 131072 <= slicesize < (k + 1) * 131072
    ensures GetSliceSize(ftype, slicesize) == k * match ftype
                                                  case Ubifs => 126976
                                                  case Yaffs2 => 132864
                                                  case _ => 131072
  {
    Quotient(k, 131072, slicesize - k * 131072);
  }

  /** The derived update mode: as many slices of that size as cover the image, and no more. */
  lemma SliceModeIs(ftype: FsType, imagesize: nat, slicesize: nat, k: nat)
    requires k * 131072 <= slicesize < (k + 1) * 131072 && k > 0 && imagesize > 0
    ensures var r := GetDefault(ftype, Slice, imagesize, slicesize);
            && r.Ok? && r.value.mode == Slice
            && r.value.size == GetSliceSize(ftype, slicesize) > 0
            && (r.value.count - 1) * r.value.size < imagesize <= r.value.count * r.value.size
  {
    SliceSizeIs(ftype, slicesize, k);
    var size := GetSliceSize(ftype, slicesize);
    var q := (imagesize + size - 1) / size;
    QuotientAndRest(imagesize + size - 1, size);
    assert (q - 1) * size == q * size - size;
  }

  /** Every piece has a multiple of unit bytes. */
  predicate AllWhole(pieces: seq<seq<Byte>>, unit: nat)
    requires unit > 0
  {
    forall j :: 0 <= j < |pieces| ==> |pieces[j]| % unit == 0
  }

  lemma WholeFront(first: seq<Byte>, rest: seq<seq<Byte>>, unit: nat)
    requires unit > 0
    ensures AllWhole([first] + rest, unit) <==> |first| % unit == 0 && AllWhole(rest, unit)
  {
    if AllWhole([first] + rest, unit) {
      assert ([first] + rest)[0] == first;
      assert forall j :: 0 <= j < |rest| ==> rest[j] == ([first] + rest)[j + 1];
    }
  }

  /** Slices of a whole size are whole exactly when the file is. */
  lemma {:induction false} SlicesWhole(data: seq<Byte>, size: nat, unit: nat)
    requires size > 0 && unit > 0 && size % unit == 0
    ensures AllWhole(Slices(data, size), unit) <==> |data| % unit == 0
    decreases |data|
  {
    hide AllWhole;
    if |data| > size {
      var rest := Slices(data[size..], size);
      SlicesWhole(data[size..], size, unit);
      WholeFront(data[..size], rest, unit);
      LessWhole(|data|, size, unit);
    } else {
      NothingWhole(unit);
      WholeFront(data, [], unit);
      assert [data] + [] == [data];
    }
  }

  lemma LessWhole(n: nat, size: nat, unit: nat)
    requires unit > 0 && size <= n && size % unit == 0
    ensures (n - size) % unit == 0 <==> n % unit == 0
  {
    if n % unit == 0 {
      PagesAdd(n, size, unit);
    } else if (n - size) % unit == 0 {
      PagesAdd(n - size, size, unit);
    }
  }

  lemma NothingWhole(unit: nat)
    requires unit > 0
    ensures AllWhole([], unit) && 0 % unit == 0
  {
    Remainder(0, unit, 0, 0);
  }

  // ---------------------------------------------------------------- Imageinfo.generate

  /** One numbered package: chunk j, from 1 on, of an image; a suffixed file carries the chunk's number in its name. */
  datatype Package = Package(image: nat, chunk: nat, suffixed: bool, content: seq<Byte>)

  /** What an image is packed as: numbered slices, or the whole file under its own name. */
  datatype Packing = Packing(chunks: seq<seq<Byte>>, suffixed: bool)

  function Chunks(image: Image): seq<seq<Byte>>
  {
    if image.mode.size > 0 then Slices(image.data, image.mode.size) else [image.data]
  }

  function PackingOf(image: Image): Packing
  {
    Packing(Chunks(image), image.mode.size > 0)
  }

  function Numbered(k: nat, packing: Packing, n: nat): (r: seq<Package>)
    requires n <= |packing.chunks|
    ensures |r| == n && forall j :: 0 <= j < n ==> r[j] == Package(k, j + 1, packing.suffixed, packing.chunks[j])
  {
    if n == 0 then [] else Numbered(k, packing, n - 1) + [Package(k, n, packing.suffixed, packing.chunks[n - 1])]
  }

  lemma NumberedNext(k: nat, packing: Packing, n: nat)
    requires 0 < n <= |packing.chunks|
    ensures Numbered(k, packing, n) ==
              Numbered(k, packing, n - 1) + [Package(k, n, packing.suffixed, packing.chunks[n - 1])]
  {}

  function AllPackings(images: seq<Image>): (r: seq<Packing>)
    ensures |r| == |images| && forall k :: 0 <= k < |images| ==> r[k] == PackingOf(images[k])
  {
    seq(|images|, k requires 0 <= k < |images| => PackingOf(images[k]))
  }

  /** The packages of the first n images; package number i + 1 is element i. */
  function Packages(packings: seq<Packing>, n: nat): seq<Package>
    requires n <= |packings|
  {
    if n == 0 then []
    else Packages(packings, n - 1) + Numbered(n - 1, packings[n - 1], |packings[n - 1].chunks|)
  }

  /** The packages of the first images come first. */
  lemma {:induction false} PackagesPrefix(packings: seq<Packing>, n: nat, m: nat)
    requires n <= m <= |packings|
    ensures Packages(packings, n) <= Packages(packings, m)
    decreases m
  {
    if n < m { PackagesPrefix(packings, n, m - 1); }
  }

  lemma PackagesNext(packings: seq<Packing>, k: nat)
    requires k < |packings|
    ensures Packages(packings, k + 1) == Packages(packings, k) + Numbered(k, packings[k], |packings[k].chunks|)
  {}

  /** The running number is the class counter; generate_process moves each piece into the next package. */
  class Packer {
    var imagesum: nat
    var packages: seq<Package>

    constructor ()
      ensures imagesum == 0 && packages == []
    {
      imagesum := 0;
      packages := [];
    }

    method GenerateProcess(image: nat, chunk: nat, suffixed: bool, content: seq<Byte>)
      requires imagesum == |packages|
      modifies this
      ensures imagesum == |packages| && packages == old(packages) + [Package(image, chunk, suffixed, content)]
    {
      imagesum := imagesum + 1;
      packages := packages + [Package(image, chunk, suffixed, content)];
    }

    /** file.split with generate_process as its callback; every piece gets a numbered name, even an only one. */
    method Split(k: nat, data: seq<Byte>, size: nat) returns (count: nat)
      requires imagesum == |packages| && size > 0
      modifies this
      ensures imagesum == |packages| && count == |Slices(data, size)|
      ensures packages == old(packages) + Numbered(k, Packing(Slices(data, size), true), count)
    {
      hide Slices, Numbered;
      var pos, partnum := 0, 1;
      ghost var all := Slices(data, size);
      ghost var packing := Packing(all, true);
      CutStart(data, size);
      while pos < |data|
        invariant imagesum == |packages| && partnum > 0 && Cut(data, size, all, pos, partnum - 1)
        invariant packages == old(packages) + Numbered(k, packing, partnum - 1)
        decreases |data| - pos
      {
        var n := ReadSize(data, pos, size);
        CutNext(data, size, all, pos, partnum - 1);
        NumberedNext(k, packing, partnum);
        GenerateProcess(k, partnum, true, data[pos..pos + n]);
        pos, partnum := pos + n, partnum + 1;
      }
      CutEnd(data, size, all, pos, partnum - 1);
      count := partnum - 1;
    }

    /** Imageinfo.generate; ok when the number of slices is the announced one. */
    method Generate(k: nat, image: Image, ghost packing: Packing) returns (ok: bool)
      requires imagesum == |packages| && packing == PackingOf(image)
      modifies this
      ensures imagesum == |packages|
      ensures packages == old(packages) + Numbered(k, packing, |packing.chunks|)
      ensures ok <==> image.mode.size == 0 || |packing.chunks| == image.mode.count
    {
      if image.mode.size > 0 {
        var count := Split(k, image.data, image.mode.size);
        ok := count == image.mode.count;
      } else {
        GenerateProcess(k, 1, false, image.data);
        assert Numbered(k, packing, 1) == Numbered(k, packing, 0) + [Package(k, 1, false, image.data)];
        ok := true;
      }
    }

    /** Image.generate, the loop over all images. */
    method GenerateAll(images: seq<Image>)
      requires imagesum == 0 && packages == []
      modifies this
      ensures packages == Packages(AllPackings(images), |images|)
    {
      hide Numbered, PackingOf, Slices;
      ghost var packings := AllPackings(images);
      for k := 0 to |images|
        invariant imagesum == |packages| && packages == Packages(packings, k)
      {
        PackagesNext(packings, k);
        var ok := Generate(k, images[k], packings[k]);
      }
    }
  }

  /** How much the next read of the file returns. */
  function ReadSize(data: seq<Byte>, pos: nat, size: nat): (n: nat)
    requires pos < |data| && size > 0
    ensures 0 < n && pos + n <= |data|
  {
    if |data| - pos < size then |data| - pos else size
  }

  /** i pieces make up the first pos bytes. */
  ghost predicate Cut(data: seq<Byte>, size: nat, all: seq<seq<Byte>>, pos: nat, i: nat)
    requires size > 0
  {
    pos <= |data| && i <= |all| && Slices(data[pos..], size) == all[i..]
  }

  lemma CutStart(data: seq<Byte>, size: nat)
    requires size > 0
    ensures Cut(data, size, Slices(data, size), 0, 0)
  {
    assert data[0..] == data;
  }

  /** Reading on takes the next piece off those that are left. */
  lemma CutNext(data: seq<Byte>, size: nat, all: seq<seq<Byte>>, pos: nat, i: nat)
    requires size > 0 && pos < |data| && Cut(data, size, all, pos, i)
    ensures var n := ReadSize(data, pos, size);
            i < |all| && all[i] == data[pos..pos + n] && Cut(data, size, all, pos + n, i + 1)
  {
    NextSlice(data, pos, size, ReadSize(data, pos, size));
    assert all[i..][0] == all[i] && all[i..][1..] == all[i + 1..];
  }

  lemma CutEnd(data: seq<Byte>, size: nat, all: seq<seq<Byte>>, pos: nat, i: nat)
    requires size > 0 && pos >= |data| && Cut(data, size, all, pos, i)
    ensures i == |all|
  {}

  lemma NextSlice(data: seq<Byte>, pos: nat, size: nat, n: nat)
    requires pos < |data| && size > 0 && n == if |data| - pos < size then |data| - pos else size
    ensures Slices(data[pos..], size) == [data[pos..pos + n]] + Slices(data[pos + n..], size)
  {
    var rest := data[pos..];
    assert data[pos + n..] == rest[n..] && data[pos..pos + n] == rest[..n];
    if |rest| <= size { assert rest[..n] == rest && rest[n..] == []; }
  }
}
