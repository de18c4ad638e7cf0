/** Server and client agree on which package holds which bytes. */
module PackAgreement {
  import opened WordArith
  import PackServer
  import opened PackClient

  /** What update.xml and device.xml say of an image and a partition. */
  function InfoOf(image: PackServer.Image): ImageInfo
  {
    ImageInfo(image.offset, |image.data|, image.mode.size,
              if image.mode.mode == PackServer.Slice then image.mode.count else 1)
  }

  function Infos(images: seq<PackServer.Image>): (r: seq<ImageInfo>)
    ensures |r| == |images| && forall k :: 0 <= k < |images| ==> r[k] == InfoOf(images[k])
  {
    seq(|images|, k requires 0 <= k < |images| => InfoOf(images[k]))
  }

  function PartInfos(parts: seq<PackServer.Partition>): (r: seq<PartInfo>)
    ensures |r| == |parts| && forall q :: 0 <= q < |parts| ==> r[q] == PartInfo(parts[q].offset, parts[q].size)
  {
    seq(|parts|, q requires 0 <= q < |parts| => PartInfo(parts[q].offset, parts[q].size))
  }

  /** The image file is not empty, and its update mode is the one the server derives from the configured slice size. */
  predicate Prepared(image: PackServer.Image, slicesize: nat)
  {
    && image.data != []
    && image.mode.mode != PackServer.UnknownMode
    && PackServer.GetDefault(image.ftype, image.mode.mode, |image.data|, slicesize) == PackServer.Ok(image.mode)
  }

  /** The announced chunk count and size are those of the packages. */
  lemma ChunksAsAnnounced(image: PackServer.Image, slicesize: nat)
    requires Prepared(image, slicesize)
    ensures Announced(InfoOf(image), PackServer.PackingOf(image))
    ensures Concat(PackServer.Chunks(image)) == image.data
  {
    if image.mode.size > 0 {
      PackServer.SlicesShape(image.data, image.mode.size);
      PackServer.SlicesJoin(image.data, image.mode.size);
    } else {
      assert Concat([image.data]) == Concat([]) + image.data;
    }
  }

  // ---------------------------------------------------------------- one order of chunks

  /** The chunks of the first n images. */
  function Plan(images: seq<ImageInfo>, n: nat): seq<Step>
    requires n <= |images|
  {
    if n == 0 then [] else Plan(images, n - 1) + ImageSteps(n - 1, images[n - 1].chunkcount)
  }

  lemma RangeKnown(images: seq<ImageInfo>, lo: nat, hi: nat)
    requires lo <= hi <= |images|
    ensures Known(images, Range(lo, hi))
  {}

  lemma Regroup<T>(a: seq<T>, b: seq<T>, c: seq<T>)
    ensures a + (b + c) == (a + b) + c
  {}

  lemma {:induction false} PlanStretch(images: seq<ImageInfo>, lo: nat, hi: nat)
    requires lo <= hi <= |images|
    ensures Known(images, Range(lo, hi))
    ensures Plan(images, lo) + ListSteps(images, Range(lo, hi)) == Plan(images, hi)
    decreases hi
  {
    RangeKnown(images, lo, hi);
    if lo < hi {
      PlanStretch(images, lo, hi - 1);
      hide ImageSteps;
      var r := Range(lo, hi);
      assert r[..|r| - 1] == Range(lo, hi - 1) && r[|r| - 1] == hi - 1;
      Regroup(Plan(images, lo), ListSteps(images, Range(lo, hi - 1)), ImageSteps(hi - 1, images[hi - 1].chunkcount));
    }
  }

  /** The partitions' lists, in order, are the image list. */
  lemma {:induction false} ListsAreThePlan(parts: seq<PartInfo>, images: seq<ImageInfo>, lists: seq<PartList>,
                                           cuts: seq<nat>)
    requires SplitAt(parts, images, lists, cuts)
    ensures forall q :: 0 <= q < |lists| ==> Known(images, lists[q].images)
    ensures AllSteps(images, lists) == Plan(images, cuts[|lists|])
    decreases |lists|
  {
    forall q | 0 <= q < |lists|
      ensures Known(images, lists[q].images)
    {
      assert Stretch(parts[q], images, lists[q], cuts[q], cuts[q + 1]);
      RangeKnown(images, cuts[q], cuts[q + 1]);
    }
    if lists != [] {
      var k := |lists| - 1;
      assert Stretch(parts[k], images, lists[k], cuts[k], cuts[k + 1]);
      forall q | 0 <= q < k
        ensures Stretch(parts[q], images, lists[..k][q], cuts[..k + 1][q], cuts[..k + 1][q + 1])
      {
        assert Stretch(parts[q], images, lists[q], cuts[q], cuts[q + 1]);
      }
      ListsAreThePlan(parts, images, lists[..k], cuts[..k + 1]);
      PlanStretch(images, cuts[k], cuts[k + 1]);
    }
  }

  /** The chunks are as many, at least one, and as long as announced. */
  predicate Announced(info: ImageInfo, packing: PackServer.Packing)
  {
    && |packing.chunks| == info.chunkcount > 0
    && forall j :: 0 <= j < |packing.chunks| - 1 ==> |packing.chunks[j]| == info.chunksize
  }

  /** The client looks for the names that the server gave: numbered ones exactly for several chunks. */
  predicate Found(info: ImageInfo, packing: PackServer.Packing)
  {
    packing.suffixed <==> info.chunkcount != 1
  }

  lemma ImageServed(infos: seq<ImageInfo>, k: nat, packing: PackServer.Packing, packages: seq<PackServer.Package>)
    requires k < |infos| && Announced(infos[k], packing)
    ensures Fetches(infos, packages + PackServer.Numbered(k, packing, |packing.chunks|),
                    ImageSteps(k, infos[k].chunkcount), |packages|)
            <==> Found(infos[k], packing)
  {
    var own, steps := PackServer.Numbered(k, packing, |packing.chunks|), ImageSteps(k, infos[k].chunkcount);
    forall i | 0 <= i < |steps|
      ensures Serves(infos, (packages + own)[|packages| + i], steps[i]) <==> Found(infos[k], packing)
    {
      assert (packages + own)[|packages| + i] == own[i];
    }
    if Fetches(infos, packages + own, steps, |packages|) {
      assert Serves(infos, (packages + own)[|packages| + 0], steps[0]);
    }
  }

  /** Packages appended behind do not matter to earlier steps. */
  lemma ServedBefore(infos: seq<ImageInfo>, packages: seq<PackServer.Package>, more: seq<PackServer.Package>,
                     steps: seq<Step>)
    requires |steps| == |packages|
    ensures Fetches(infos, packages + more, steps, 0) <==> Fetches(infos, packages, steps, 0)
  {
    assert forall i :: 0 <= i < |packages| ==> (packages + more)[i] == packages[i];
    if Fetches(infos, packages + more, steps, 0) {
      forall i | 0 <= i < |steps|
        ensures Serves(infos, packages[0 + i], steps[i])
      {
        assert Serves(infos, (packages + more)[0 + i], steps[i]);
      }
    }
  }

  /** One more image is served exactly if its names are found. */
  lemma PlanNext(infos: seq<ImageInfo>, packings: seq<PackServer.Packing>, k: nat)
    requires k < |infos| == |packings| && Announced(infos[k], packings[k])
    requires |Plan(infos, k)| == |PackServer.Packages(packings, k)|
    ensures |Plan(infos, k + 1)| == |Plan(infos, k)| + infos[k].chunkcount == |PackServer.Packages(packings, k + 1)|
    ensures Fetches(infos, PackServer.Packages(packings, k + 1), Plan(infos, k + 1), 0)
            <==> Fetches(infos, PackServer.Packages(packings, k), Plan(infos, k), 0) && Found(infos[k], packings[k])
  {
    hide Fetches, Found, ImageSteps, PackServer.Numbered;
    var before, own := PackServer.Packages(packings, k), PackServer.Numbered(k, packings[k], |packings[k].chunks|);
    var plan, steps := Plan(infos, k), ImageSteps(k, infos[k].chunkcount);
    ImageServed(infos, k, packings[k], before);
    ServedBefore(infos, before, own, plan);
    FetchesConcat(infos, before + own, plan, steps, 0);
  }

  /** The server's packages are as many as the plan asks for, and they serve it exactly if every image's names are
      found. */
  lemma {:induction false} PlanIsPacked(infos: seq<ImageInfo>, packings: seq<PackServer.Packing>, n: nat)
    requires n <= |infos| == |packings| && forall k :: 0 <= k < |infos| ==> Announced(infos[k], packings[k])
    ensures |Plan(infos, n)| == |PackServer.Packages(packings, n)| == ChunkSum(infos, 0, n)
    ensures Fetches(infos, PackServer.Packages(packings, n), Plan(infos, n), 0)
            <==> forall k :: 0 <= k < n ==> Found(infos[k], packings[k])
    decreases n
  {
    if n > 0 {
      PlanIsPacked(infos, packings, n - 1);
      PlanNext(infos, packings, n - 1);
    }
  }

  /** The package in which chunk j + 1 of image k travels is the one behind those of the earlier images and chunks. */
  lemma {:induction false} PackageNumber(packings: seq<PackServer.Packing>, n: nat, k: nat, j: nat)
    requires k < n <= |packings| && j < |packings[k].chunks|
    ensures var i := |PackServer.Packages(packings, k)| + j;
            && i < |PackServer.Packages(packings, n)|
            && PackServer.Packages(packings, n)[i] ==
                 PackServer.Package(k, j + 1, packings[k].suffixed, packings[k].chunks[j])
    decreases n
  {
    var before, i := PackServer.Packages(packings, n - 1), |PackServer.Packages(packings, k)| + j;
    var own := PackServer.Numbered(n - 1, packings[n - 1], |packings[n - 1].chunks|);
    if k < n - 1 { PackageNumber(packings, n - 1, k, j); }
    Appended(before, own, i);
  }

  lemma Appended<T>(a: seq<T>, b: seq<T>, i: nat)
    requires i < |a| + |b|
    ensures (a + b)[i] == if i < |a| then a[i] else b[i - |a|]
  {}

  // ---------------------------------------------------------------- the main result

  /** What the server's checks establish about tables and images. */
  ghost predicate Checked(parts: seq<PackServer.Partition>, images: seq<PackServer.Image>, nand: bool, devsize: nat,
                          slicesize: nat)
  {
    && PackServer.DeviceOk(parts, devsize) && PackServer.ImagesOk(images)
    && (forall k :: 0 <= k < |images| ==> Prepared(images[k], slicesize))
    && (forall k :: 0 <= k < |images| ==> PackServer.Mapped(parts, images[k], nand, devsize))
  }

  lemma CheckedOrder(parts: seq<PackServer.Partition>, images: seq<PackServer.Image>, nand: bool, devsize: nat,
                     slicesize: nat)
    requires Checked(parts, images, nand, devsize, slicesize)
    ensures PartsOk(PartInfos(parts)) && OrderOk(Infos(images))
  {
    var ps, infos := PartInfos(parts), Infos(images);
    forall k | 0 <= k < |images| - 1
      ensures infos[k].offset + infos[k].size <= infos[k + 1].offset
    {
      assert images[k].End() <= images[k + 1].offset;
    }
    forall q | 0 <= q < |parts| - 1
      ensures ps[q].End() <= ps[q + 1].offset
    {
      assert parts[q].End() <= parts[q + 1].offset;
    }
  }

  /** The image starts in a partition, and is not one whose out-of-band data the server counts as room. */
  ghost predicate StartsInside(parts: seq<PackServer.Partition>, image: PackServer.Image)
  {
    image.ftype != PackServer.Yaffs2 && exists q :: 0 <= q < |parts| && parts[q].Contains(image.offset)
  }

  /** For such an image the server's check means that it has a place. */
  lemma CheckedFits(parts: seq<PackServer.Partition>, image: PackServer.Image, nand: bool, devsize: nat)
    requires StartsInside(parts, image) && PackServer.Mapped(parts, image, nand, devsize)
    ensures HasPlace(PartInfos(parts), InfoOf(image))
  {
    var q :| PackServer.Chosen(parts, image.offset, q)
             && PackServer.MappedIn(parts[q], image.offset, |image.data|, image.ftype, nand, devsize);
    PackServer.MappedFits(parts[q], image.offset, |image.data|, image.ftype, nand, devsize);
    assert Fits(PartInfos(parts)[q], InfoOf(image));
  }

  /** The first c images have a place, and the next one, if there is one, has none. */
  ghost predicate StopsAt(parts: seq<PartInfo>, images: seq<ImageInfo>, c: nat)
  {
    && c <= |images|
    && (forall k :: 0 <= k < c ==> HasPlace(parts, images[k]))
    && (c < |images| ==> !HasPlace(parts, images[c]))
  }

  lemma AllCheckedFit(parts: seq<PackServer.Partition>, images: seq<PackServer.Image>, nand: bool, devsize: nat,
                      slicesize: nat, c: nat)
    requires Checked(parts, images, nand, devsize, slicesize) && StopsAt(PartInfos(parts), Infos(images), c)
    ensures (forall k :: 0 <= k < |images| ==> StartsInside(parts, images[k])) ==> c == |images|
  {
    if c < |images| && StartsInside(parts, images[c]) { CheckedFits(parts, images[c], nand, devsize); }
  }

  /** The first c images are listed once, each in its partition and in order, and no others. */
  ghost predicate Listed(parts: seq<PartInfo>, images: seq<ImageInfo>, lists: seq<PartList>, c: nat)
  {
    |lists| == |parts| && exists cuts :: SplitAt(parts, images, lists, cuts) && cuts[|parts|] == c
  }

  /** What the merge returns when the first c images have a place. */
  function MergeResult(parts: seq<PartInfo>, images: seq<ImageInfo>, c: nat): int
  {
    if c < |images| && SticksOut(parts, images[c]) then -1 else 0
  }

  lemma CutIsStop(parts: seq<PartInfo>, images: seq<ImageInfo>, lists: seq<PartList>, cuts: seq<nat>, r: int)
    requires |lists| == |parts| && SplitAt(parts, images, lists, cuts) && StoppedAt(parts, images, cuts[|parts|], r)
    ensures StopsAt(parts, images, cuts[|parts|]) && r == MergeResult(parts, images, cuts[|parts|])
  {
    forall k | 0 <= k < cuts[|parts|]
      ensures HasPlace(parts, images[k])
    {
      ListedFits(parts, images, lists, cuts, k);
    }
  }

  /** The merge of checked tables and images. */
  method MergeChecked(parts: seq<PackServer.Partition>, images: seq<PackServer.Image>, nand: bool, devsize: nat,
                      slicesize: nat)
    returns (r: int, lists: seq<PartList>, ghost c: nat)
    requires Checked(parts, images, nand, devsize, slicesize)
    ensures StopsAt(PartInfos(parts), Infos(images), c) && Listed(PartInfos(parts), Infos(images), lists, c)
    ensures r == MergeResult(PartInfos(parts), Infos(images), c)
    ensures forall q :: 0 <= q < |lists| ==> Known(Infos(images), lists[q].images)
    ensures AllSteps(Infos(images), lists) == Plan(Infos(images), c)
  {
    hide SticksOut, HasPlace, FitsNowhere, Infos, PartInfos;
    CheckedOrder(parts, images, nand, devsize, slicesize);
    ghost var cuts;
    r, lists, cuts := Merge(PartInfos(parts), Infos(images));
    c := cuts[|parts|];
    CutIsStop(PartInfos(parts), Infos(images), lists, cuts, r);
    ListsAreThePlan(PartInfos(parts), Infos(images), lists, cuts);
  }

  /** The update from the server's packages, which start with those of the listed images. */
  method UpdateChecked(infos: seq<ImageInfo>, lists: seq<PartList>, packages: seq<PackServer.Package>, ghost c: nat,
                       ghost listed: seq<PackServer.Package>)
    returns (counted: bool, ok: bool, written: seq<PackServer.Package>)
    requires forall q :: 0 <= q < |lists| ==> Known(infos, lists[q].images)
    requires c <= |infos| && AllSteps(infos, lists) == Plan(infos, c)
    requires listed <= packages && |Plan(infos, c)| == |listed| && |packages| == ChunkSum(infos, 0, |infos|)
    ensures counted && (ok <==> Fetches(infos, listed, Plan(infos, c), 0))
    ensures ok ==> written == listed
  {
    counted := CheckPackageCount(infos, |packages| + 1);
    ok, written := UpdateFromStorage(infos, lists, packages);
    ServedBefore(infos, listed, packages[|listed|..], Plan(infos, c));
    assert listed + packages[|listed|..] == packages;
  }

  /** The image is cut into more than one slice, unless it is not sliced at all. */
  predicate NotOneSlice(image: PackServer.Image)
  {
    image.mode.mode == PackServer.Slice ==> |image.data| > image.mode.size
  }

  /** Names agree exactly for images that are not sliced into a single piece. */
  lemma FoundUnlessOneSlice(image: PackServer.Image, slicesize: nat)
    requires Prepared(image, slicesize)
    ensures Found(InfoOf(image), PackServer.PackingOf(image)) <==> NotOneSlice(image)
  {
    ChunksAsAnnounced(image, slicesize);
    if image.mode.mode == PackServer.Slice {
      PackServer.SlicesShape(image.data, image.mode.size);
      PackServer.OneSlice(image.data, image.mode.size);
    }
  }

  /** Tables and images that pass the server's checks. Say the first c images have a place in a partition and the next
      one has none. The merge lists exactly those c, in their partitions and in order, and fails exactly when the next
      one starts in a partition and ends behind it. Otherwise the package count is right, and the update fetches package
      i + 1 for the i-th chunk of the plan; it succeeds exactly when none of the c images is sliced into a single piece,
      and then writes just what the server packed for them. When all images start in a partition and none is a yaffs2
      image, these are all images. */
  method Update(parts: seq<PackServer.Partition>, images: seq<PackServer.Image>, nand: bool, devsize: nat,
                slicesize: nat)
    returns (merged: int, counted: bool, ok: bool, written: seq<PackServer.Package>, lists: seq<PartList>, ghost c: nat)
    requires Checked(parts, images, nand, devsize, slicesize)
    ensures StopsAt(PartInfos(parts), Infos(images), c) && Listed(PartInfos(parts), Infos(images), lists, c)
    ensures merged == MergeResult(PartInfos(parts), Infos(images), c)
    ensures merged != 0 ==> !ok && written == []
    ensures merged == 0 ==> counted && (ok <==> forall k :: 0 <= k < c ==> NotOneSlice(images[k]))
    ensures ok ==> written == PackServer.Packages(PackServer.AllPackings(images), c)
    ensures (forall k :: 0 <= k < |images| ==> StartsInside(parts, images[k])) ==> c == |images| && merged == 0
  {
    hide HasPlace, SticksOut, Fetches, Found, NotOneSlice, Announced, StartsInside, Listed;
    var packer := new PackServer.Packer();
    packer.GenerateAll(images);
    ghost var packings := PackServer.AllPackings(images);
    AllAnnounced(images, slicesize);
    merged, lists, c := MergeChecked(parts, images, nand, devsize, slicesize);
    AllCheckedFit(parts, images, nand, devsize, slicesize, c);
    counted, ok, written := false, false, [];
    if merged == 0 {
      PlanIsPacked(Infos(images), packings, c);
      PlanIsPacked(Infos(images), packings, |images|);
      PackServer.PackagesPrefix(packings, c, |images|);
      counted, ok, written := UpdateChecked(Infos(images), lists, packer.packages, c, PackServer.Packages(packings, c));
    }
  }

  lemma AllAnnounced(images: seq<PackServer.Image>, slicesize: nat)
    requires forall k :: 0 <= k < |images| ==> Prepared(images[k], slicesize)
    ensures forall k :: 0 <= k < |images| ==> Announced(Infos(images)[k], PackServer.AllPackings(images)[k])
    ensures forall k :: 0 <= k < |images| ==>
              (Found(Infos(images)[k], PackServer.AllPackings(images)[k]) <==> NotOneSlice(images[k]))
  {
    var infos, packings := Infos(images), PackServer.AllPackings(images);
    forall k | 0 <= k < |images|
      ensures Announced(infos[k], packings[k]) && (Found(infos[k], packings[k]) <==> NotOneSlice(images[k]))
    {
      ChunksAsAnnounced(images[k], slicesize);
      FoundUnlessOneSlice(images[k], slicesize);
    }
  }

  /** One byte, sliced: a checked image that the client cannot find. */
  method OneSliceIsLost() returns (ok: bool)
    ensures !ok
  {
    var size := PackServer.BLOCK_SIZE;
    var parts := [PackServer.Partition(0, size)];
    var images := [PackServer.Image(0, PackServer.Normal, PackServer.UpdateMode(PackServer.Slice, size, 1), [0])];
    OneByteChecked(parts, images, size);
    var merged, counted, written, lists;
    ghost var c;
    merged, counted, ok, written, lists, c := Update(parts, images, false, size, size);
    assert parts[0].Contains(images[0].offset);
    assert StartsInside(parts, images[0]);
    assert !NotOneSlice(images[0]);
  }

  lemma OneByteChecked(parts: seq<PackServer.Partition>, images: seq<PackServer.Image>, size: nat)
    requires size == PackServer.BLOCK_SIZE && parts == [PackServer.Partition(0, size)]
    requires images == [PackServer.Image(0, PackServer.Normal, PackServer.UpdateMode(PackServer.Slice, size, 1), [0])]
    ensures Checked(parts, images, false, size, size)
  {
    assert PackServer.Chosen(parts, images[0].offset, 0);
    assert PackServer.GetSliceSize(PackServer.Normal, size) == size && (1 + size - 1) / size == 1;
  }

  /** Two partitions with room between them, and an image there: the server maps it to the last partition, and the
      update succeeds without writing anything. */
  method GapImageIsLost() returns (merged: int, counted: bool, ok: bool, written: seq<PackServer.Package>)
    ensures merged == 0 && counted && ok && written == []
  {
    var size := PackServer.BLOCK_SIZE;
    var parts := [PackServer.Partition(0, size), PackServer.Partition(2 * size, size)];
    var images := [PackServer.Image(size, PackServer.Normal, PackServer.UpdateMode(PackServer.Full, 0, 0), [0])];
    GapChecked(parts, images, size);
    var lists;
    ghost var c;
    merged, counted, ok, written, lists, c := Update(parts, images, false, 3 * size, size);
  }

  lemma GapChecked(parts: seq<PackServer.Partition>, images: seq<PackServer.Image>, size: nat)
    requires size == PackServer.BLOCK_SIZE
    requires parts == [PackServer.Partition(0, size), PackServer.Partition(2 * size, size)]
    requires images == [PackServer.Image(size, PackServer.Normal, PackServer.UpdateMode(PackServer.Full, 0, 0), [0])]
    ensures Checked(parts, images, false, 3 * size, size)
    ensures !HasPlace(PartInfos(parts), Infos(images)[0]) && !SticksOut(PartInfos(parts), Infos(images)[0])
  {
    assert PackServer.Chosen(parts, images[0].offset, 1);
  }
}
