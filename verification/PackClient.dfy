/** ota_manager.c: images are distributed over the partitions, then the packages are fetched in that order. */
module PackClient {
  import opened WordArith
  import opened PackServer

  /** What update.xml says of an image; whole-file images have one chunk. */
  datatype ImageInfo = ImageInfo(offset: int, size: int, chunksize: int, chunkcount: nat)

  datatype PartInfo = PartInfo(offset: int, size: int)
  {
    function End(): int { offset + size }
  }

  /** A partition's list of images, and its two counters. */
  datatype PartList = PartList(images: seq<nat>, imageCount: nat, totalChunks: nat)

  // ---------------------------------------------------------------- merge_imginfo_into_partinfo

  datatype Stop = EndOfList | Behind | Ahead | Overlap

  /** Images lo to hi, in order. */
  function Range(lo: nat, hi: nat): (r: seq<nat>)
    requires lo <= hi
    ensures |r| == hi - lo && forall i :: 0 <= i < hi - lo ==> r[i] == lo + i
  {
    if lo == hi then [] else Range(lo, hi - 1) + [hi - 1]
  }

  function ChunkSum(images: seq<ImageInfo>, lo: nat, hi: nat): nat
    requires lo <= hi <= |images|
  {
    if lo == hi then 0 else ChunkSum(images, lo, hi - 1) + images[hi - 1].chunkcount
  }

  /** The inner loop: images are appended while they start inside the partition. */
  method MergePartition(part: PartInfo, images: seq<ImageInfo>, cur: nat) returns (list: PartList, pos: nat, stop: Stop)
    requires cur <= |images|
    ensures cur <= pos <= |images|
    ensures list == PartList(Range(cur, pos), pos - cur, ChunkSum(images, cur, pos))
    ensures forall k :: cur <= k < pos ==>
              part.offset <= images[k].offset < part.End() && images[k].offset + images[k].size <= part.End()
    ensures match stop
      case EndOfList => pos == |images|
      case Behind => pos < |images| && images[pos].offset < part.offset
      case Ahead => pos < |images| && images[pos].offset >= part.End()
      case Overlap => pos < |images| && StickingOut(part, images[pos])
  {
    list, pos := PartList([], 0, 0), cur;
    while pos < |images|
      invariant cur <= pos <= |images|
      invariant list == PartList(Range(cur, pos), pos - cur, ChunkSum(images, cur, pos))
      invariant forall k :: cur <= k < pos ==>
                  part.offset <= images[k].offset < part.End() && images[k].offset + images[k].size <= part.End()
    {
      var image := images[pos];
      if image.offset < part.offset {
        return list, pos, Behind;
      }
      if image.offset >= part.End() {
        return list, pos, Ahead;
      }
      if image.offset + image.size > part.End() {
        return list, pos, Overlap;
      }
      list := PartList(list.images + [pos], list.imageCount + 1, list.totalChunks + image.chunkcount);
      pos := pos + 1;
    }
    stop := EndOfList;
  }

  predicate PartsOk(parts: seq<PartInfo>)
  {
    && (forall i :: 0 <= i < |parts| ==> parts[i].size > 0)
    && (forall i :: 0 <= i < |parts| - 1 ==> parts[i].End() <= parts[i + 1].offset)
  }

  predicate OrderOk(images: seq<ImageInfo>)
  {
    && (forall k :: 0 <= k < |images| ==> images[k].size > 0)
    && (forall k :: 0 <= k < |images| - 1 ==> images[k].offset + images[k].size <= images[k + 1].offset)
  }

  predicate Fits(part: PartInfo, image: ImageInfo)
  {
    part.offset <= image.offset && image.offset + image.size <= part.offset + part.size
  }

  predicate HasPlace(parts: seq<PartInfo>, image: ImageInfo)
  {
    exists q :: 0 <= q < |parts| && Fits(parts[q], image)
  }

  /** Every image lies in some partition. */
  predicate AllPlaced(parts: seq<PartInfo>, images: seq<ImageInfo>)
  {
    forall k :: 0 <= k < |images| ==> HasPlace(parts, images[k])
  }

  /** The list holds images lo to hi, all of which lie in the partition. */
  ghost predicate Stretch(part: PartInfo, images: seq<ImageInfo>, list: PartList, lo: nat, hi: nat)
  {
    && lo <= hi <= |images|
    && list == PartList(Range(lo, hi), hi - lo, ChunkSum(images, lo, hi))
    && forall k :: lo <= k < hi ==> Fits(part, images[k])
  }

  /** The partitions' lists split the image list at these points. */
  ghost predicate SplitAt(parts: seq<PartInfo>, images: seq<ImageInfo>, lists: seq<PartList>, cuts: seq<nat>)
  {
    && |cuts| == |lists| + 1 && |lists| <= |parts| && cuts[0] == 0 && cuts[|lists|] <= |images|
    && forall q :: 0 <= q < |lists| ==> Stretch(parts[q], images, lists[q], cuts[q], cuts[q + 1])
  }

  lemma {:induction false} PartsAscend(parts: seq<PartInfo>, i: nat, j: nat)
    requires PartsOk(parts) && i < j < |parts|
    ensures parts[i].End() <= parts[j].offset
    decreases j
  {
    if i < j - 1 { PartsAscend(parts, i, j - 1); }
  }

  predicate FitsNowhere(parts: seq<PartInfo>, image: ImageInfo)
  {
    forall i :: 0 <= i < |parts| ==> !Fits(parts[i], image)
  }

  /** The image starts in a partition and ends behind it. */
  predicate StickingOut(part: PartInfo, image: ImageInfo)
  {
    part.offset <= image.offset < part.offset + part.size < image.offset + image.size
  }

  predicate SticksOut(parts: seq<PartInfo>, image: ImageInfo)
  {
    exists q :: 0 <= q < |parts| && StickingOut(parts[q], image)
  }

  /** An image that starts at or behind the end of every partition before q, and before partition q, starts in none. */
  lemma InGap(parts: seq<PartInfo>, image: ImageInfo, q: nat)
    requires PartsOk(parts) && q <= |parts| && image.size > 0
    requires q > 0 ==> image.offset >= parts[q - 1].End()
    requires q < |parts| ==> image.offset < parts[q].offset
    ensures FitsNowhere(parts, image) && !SticksOut(parts, image)
  {
    forall i | 0 <= i < |parts|
      ensures !(parts[i].offset <= image.offset < parts[i].End())
    {
      if i + 1 < q { PartsAscend(parts, i, q - 1); }
      if q < i { PartsAscend(parts, q, i); }
    }
  }

  /** An image that starts in partition q but does not end there fits nowhere. */
  lemma Sticks(parts: seq<PartInfo>, image: ImageInfo, q: nat)
    requires PartsOk(parts) && q < |parts| && StickingOut(parts[q], image)
    ensures FitsNowhere(parts, image) && SticksOut(parts, image)
  {
    forall i | 0 <= i < |parts|
      ensures !Fits(parts[i], image)
    {
      if i < q { PartsAscend(parts, i, q); }
      if q < i { PartsAscend(parts, q, i); }
    }
  }

  /** Where the outer loop stands before partition q: m images are in their lists. Either the cursor is at image m,
      which starts behind partition q - 1; or all images are done and the stale cursor c still points at one of them. */
  ghost predicate Standing(parts: seq<PartInfo>, images: seq<ImageInfo>, q: nat, m: nat, c: nat)
  {
    && q <= |parts| && m <= |images| && c <= m
    && (if m < |images| then c == m && (q > 0 ==> images[m].offset >= parts[q - 1].End())
        else q > 0 && images != [] ==> c < m && images[c].offset < parts[q - 1].End())
  }

  /** What is known of the image at which a merge stopped: it fits nowhere, and the merge failed exactly if it sticks
      out. */
  predicate StoppedAt(parts: seq<PartInfo>, images: seq<ImageInfo>, m: nat, r: int)
  {
    && (r == 0 || r == -1)
    && (m >= |images| ==> r == 0)
    && (m < |images| ==> FitsNowhere(parts, images[m]) && (r == -1 <==> SticksOut(parts, images[m])))
  }

  /** merge_imginfo_into_partinfo: the lists are consecutive stretches of the image list; the merge stops early, and
      reports success, at the first image in a gap, and fails at one that sticks out of its partition. */
  method Merge(parts: seq<PartInfo>, images: seq<ImageInfo>)
    returns (r: int, lists: seq<PartList>, ghost cuts: seq<nat>)
    ensures (r == 0 || r == -1) && |lists| == |parts| && |cuts| == |parts| + 1
    ensures PartsOk(parts) && OrderOk(images) ==>
              && SplitAt(parts, images, lists, cuts)
              && StoppedAt(parts, images, cuts[|parts|], r)
              && (cuts[|parts|] == |images| <==> AllPlaced(parts, images))
  {
    ghost var sorted := PartsOk(parts) && OrderOk(images);
    var posContinue := 0;
    r, lists, cuts := 0, [], [0];
    var q, stopped := 0, false;
    while q < |parts| && !stopped
      invariant 0 <= q <= |parts| && |lists| == q && |cuts| == q + 1 && posContinue <= |images| && (r == 0 || r == -1)
      invariant sorted ==> SplitAt(parts, images, lists, cuts)
      invariant sorted && !stopped ==> Standing(parts, images, q, cuts[q], posContinue) && r == 0
      invariant sorted && stopped ==> StoppedAt(parts, images, cuts[q], r)
    {
      var list, pos, stop := MergePartition(parts[q], images, posContinue);
      ghost var m := cuts[q];
      ghost var m' := if m < |images| then pos else m;
      if sorted {
        MergeStep(parts, images, q, m, posContinue, pos, stop);
        assert list == PartList(Range(m, m'), m' - m, ChunkSum(images, m, m'));
        SplitNext(parts, images, lists, cuts, list, m');
      }
      lists, cuts := lists + [list], cuts + [m'];
      match stop {
        case EndOfList =>
        case Behind => stopped := true;
        case Ahead => posContinue := pos;
        case Overlap => r, stopped := -1, true;
      }
      q := q + 1;
    }
    if sorted && !stopped && cuts[q] < |images| { InGap(parts, images[cuts[q]], q); }
    while q < |parts|
      invariant 0 <= q <= |parts| && |lists| == q && |cuts| == q + 1
      invariant sorted ==> SplitAt(parts, images, lists, cuts) && StoppedAt(parts, images, cuts[q], r)
    {
      if sorted { SplitNext(parts, images, lists, cuts, PartList([], 0, 0), cuts[q]); }
      lists, cuts := lists + [PartList([], 0, 0)], cuts + [cuts[q]];
      q := q + 1;
    }
    if sorted { AllListed(parts, images, lists, cuts, r); }
  }

  /** Every image below the last cut lies in the partition whose list holds it. */
  lemma {:induction false} ListedFits(parts: seq<PartInfo>, images: seq<ImageInfo>, lists: seq<PartList>,
                                      cuts: seq<nat>, k: nat)
    requires SplitAt(parts, images, lists, cuts) && k < cuts[|lists|]
    ensures HasPlace(parts, images[k])
    decreases |lists|
  {
    var q := |lists| - 1;
    if lists != [] {
      assert Stretch(parts[q], images, lists[q], cuts[q], cuts[q + 1]);
      if k < cuts[q] {
        forall i | 0 <= i < q
          ensures Stretch(parts[i], images, lists[..q][i], cuts[..q + 1][i], cuts[..q + 1][i + 1])
        {
          assert Stretch(parts[i], images, lists[i], cuts[i], cuts[i + 1]);
        }
        ListedFits(parts, images, lists[..q], cuts[..q + 1], k);
      }
    }
  }

  /** All images are listed exactly when each has a place. */
  lemma AllListed(parts: seq<PartInfo>, images: seq<ImageInfo>, lists: seq<PartList>, cuts: seq<nat>, r: int)
    requires |lists| == |parts| && SplitAt(parts, images, lists, cuts) && StoppedAt(parts, images, cuts[|parts|], r)
    ensures cuts[|parts|] == |images| <==> AllPlaced(parts, images)
  {
    if cuts[|parts|] == |images| {
      forall k | 0 <= k < |images|
        ensures HasPlace(parts, images[k])
      {
        ListedFits(parts, images, lists, cuts, k);
      }
    } else {
      assert !HasPlace(parts, images[cuts[|parts|]]);
    }
  }

  /** An image behind the only partition: the merge reports success and lists nothing. */
  method GapIsSilent() returns (r: int, lists: seq<PartList>)
    ensures r == 0 && lists == [PartList([], 0, 0)]
  {
    var parts, images := [PartInfo(0, 10)], [ImageInfo(20, 5, 0, 1)];
    ghost var cuts;
    r, lists, cuts := Merge(parts, images);
    FirstListEmpty(parts, images, lists, cuts);
    assert !SticksOut(parts, images[0]);
  }

  /** An image that ends behind its partition: the merge fails. */
  method OverlapFails() returns (r: int, lists: seq<PartList>)
    ensures r == -1 && lists == [PartList([], 0, 0)]
  {
    var parts, images := [PartInfo(0, 10)], [ImageInfo(8, 5, 0, 1)];
    ghost var cuts;
    r, lists, cuts := Merge(parts, images);
    FirstListEmpty(parts, images, lists, cuts);
    assert StickingOut(parts[0], images[0]);
  }

  lemma FirstListEmpty(parts: seq<PartInfo>, images: seq<ImageInfo>, lists: seq<PartList>, cuts: seq<nat>)
    requires |parts| == |lists| == 1 == |images| && SplitAt(parts, images, lists, cuts) && FitsNowhere(parts, images[0])
    ensures lists == [PartList([], 0, 0)] && cuts[1] == 0
  {
    assert Stretch(parts[0], images, lists[0], cuts[0], cuts[0 + 1]);
    assert !Fits(parts[0], images[0]);
  }

  lemma ImagesAscend(images: seq<ImageInfo>, k: nat)
    requires OrderOk(images) && 0 < k < |images|
    ensures images[k - 1].offset + images[k - 1].size <= images[k].offset
  {
    assert k - 1 + 1 == k;
  }

  /** What one partition's stop means for where the loop stands next. */
  lemma MergeStep(parts: seq<PartInfo>, images: seq<ImageInfo>, q: nat, m: nat, c: nat, pos: nat, stop: Stop)
    requires PartsOk(parts) && OrderOk(images) && q < |parts| && Standing(parts, images, q, m, c)
             && c <= pos <= |images|
    requires forall k :: c <= k < pos ==> parts[q].offset <= images[k].offset < parts[q].End()
    requires match stop
      case EndOfList => pos == |images|
      case Behind => pos < |images| && images[pos].offset < parts[q].offset
      case Ahead => pos < |images| && images[pos].offset >= parts[q].End()
      case Overlap => pos < |images| && StickingOut(parts[q], images[pos])
    requires q == 0 ==> m == 0
    ensures m < |images| ==>
      match stop
      case EndOfList => Standing(parts, images, q + 1, pos, c)
      case Behind => pos == m && StoppedAt(parts, images, pos, 0)
      case Ahead => Standing(parts, images, q + 1, pos, pos)
      case Overlap => StoppedAt(parts, images, pos, -1)
    ensures m == |images| ==>
              pos == c && (stop == Behind || (stop == EndOfList && Standing(parts, images, q + 1, m, c)))
  {
    if q > 0 { PartsAscend(parts, q - 1, q); }
    if m < |images| && stop == Overlap { Sticks(parts, images[pos], q); }
    if 0 < pos < |images| { ImagesAscend(images, pos); }
    if m < |images| && stop == Behind { InGap(parts, images[pos], q); }
  }

  /** One more stretch. */
  lemma SplitNext(parts: seq<PartInfo>, images: seq<ImageInfo>, lists: seq<PartList>, cuts: seq<nat>, list: PartList,
                  m: nat)
    requires SplitAt(parts, images, lists, cuts) && |lists| < |parts|
    requires Stretch(parts[|lists|], images, list, cuts[|lists|], m)
    ensures SplitAt(parts, images, lists + [list], cuts + [m])
  {
    var now, at := lists + [list], cuts + [m];
    forall q | 0 <= q < |now|
      ensures Stretch(parts[q], images, now[q], at[q], at[q + 1])
    {
      if q < |lists| { assert Stretch(parts[q], images, lists[q], cuts[q], cuts[q + 1]); }
    }
  }

  // ---------------------------------------------------------------- find_valid_update_volume, the package count

  /** One package per chunk, besides package 000. */
  method CheckPackageCount(images: seq<ImageInfo>, pkgCount: nat) returns (ok: bool)
    ensures ok <==> ChunkSum(images, 0, |images|) == pkgCount - 1
  {
    var chunkCount := 0;
    for k := 0 to |images|
      invariant chunkCount == ChunkSum(images, 0, k)
    {
      chunkCount := chunkCount + images[k].chunkcount;
    }
    ok := chunkCount == pkgCount - 1;
  }

  // ---------------------------------------------------------------- update_from_storage

  datatype Step = Step(image: nat, chunk: nat)

  /** Chunks 1 to n of image k. */
  function ImageSteps(k: nat, n: nat): (s: seq<Step>)
    ensures |s| == n && forall j :: 0 <= j < n ==> s[j] == Step(k, j + 1)
  {
    if n == 0 then [] else ImageSteps(k, n - 1) + [Step(k, n)]
  }

  predicate Known(images: seq<ImageInfo>, list: seq<nat>)
  {
    forall i :: 0 <= i < |list| ==> list[i] < |images|
  }

  function ListSteps(images: seq<ImageInfo>, list: seq<nat>): seq<Step>
    requires Known(images, list)
  {
    if list == [] then []
    else ListSteps(images, list[..|list| - 1]) + ImageSteps(list[|list| - 1], images[list[|list| - 1]].chunkcount)
  }

  function AllSteps(images: seq<ImageInfo>, lists: seq<PartList>): seq<Step>
    requires forall q :: 0 <= q < |lists| ==> Known(images, lists[q].images)
  {
    if lists == [] then [] else AllSteps(images, lists[..|lists| - 1]) + ListSteps(images, lists[|lists| - 1].images)
  }

  /** The package holds the chunk, under the image's own name when it is the only one and under a numbered name
      otherwise; and a chunk that is not the last one has the announced size. */
  predicate Serves(images: seq<ImageInfo>, package: Package, step: Step)
  {
    && package.image == step.image && package.chunk == step.chunk && step.image < |images|
    && (package.suffixed <==> images[step.image].chunkcount != 1)
    && (step.chunk != images[step.image].chunkcount ==> |package.content| == images[step.image].chunksize)
  }

  /** From package number from + 1 on, the packages serve these steps in order. */
  predicate Fetches(images: seq<ImageInfo>, packages: seq<Package>, steps: seq<Step>, from: nat)
  {
    from + |steps| <= |packages| && forall i :: 0 <= i < |steps| ==> Serves(images, packages[from + i], steps[i])
  }

  lemma FetchesConcat(images: seq<ImageInfo>, packages: seq<Package>, s: seq<Step>, t: seq<Step>, from: nat)
    ensures Fetches(images, packages, s + t, from) <==>
              Fetches(images, packages, s, from) && Fetches(images, packages, t, from + |s|)
  {
    var u := s + t;
    assert forall i :: 0 <= i < |s| ==> u[i] == s[i];
    assert forall i :: 0 <= i < |t| ==> t[i] == u[|s| + i];
    if Fetches(images, packages, u, from) {
      forall i | 0 <= i < |t|
        ensures Serves(images, packages[from + |s| + i], t[i])
      {
        assert Serves(images, packages[from + (|s| + i)], u[|s| + i]);
      }
    }
  }

  lemma FetchesNext(images: seq<ImageInfo>, packages: seq<Package>, steps: seq<Step>, from: nat, j: nat)
    requires j < |steps| && Fetches(images, packages, steps[..j], from)
    ensures Fetches(images, packages, steps[..j + 1], from) <==>
              from + j < |packages| && Serves(images, packages[from + j], steps[j])
    ensures Fetches(images, packages, steps, from) ==> Fetches(images, packages, steps[..j + 1], from)
  {
    var s, u := steps[..j], steps[..j + 1];
    assert forall i :: 0 <= i < j ==> u[i] == s[i];
    assert u[j] == steps[j];
  }

  /** The chunks of one image. */
  method WalkImage(images: seq<ImageInfo>, k: nat, packages: seq<Package>, index: nat, written: seq<Package>)
    returns (ok: bool, index': nat, written': seq<Package>)
    requires k < |images| && 0 < index <= |packages| + 1
    ensures ok <==> Fetches(images, packages, ImageSteps(k, images[k].chunkcount), index - 1)
    ensures ok ==>
              && index' == index + images[k].chunkcount <= |packages| + 1
              && written' == written + packages[index - 1..index' - 1]
  {
    var n := images[k].chunkcount;
    ghost var steps, from := ImageSteps(k, n), index - 1;
    index', written' := index, written;
    var j := 1;
    while j <= n
      invariant 1 <= j <= n + 1 && index' == index + j - 1 <= |packages| + 1
      invariant Fetches(images, packages, steps[..j - 1], from)
      invariant written' == written + packages[from..index' - 1]
    {
      FetchesNext(images, packages, steps, from, j - 1);
      if index' - 1 >= |packages| {
        return false, index', written';
      }
      var package := packages[index' - 1];
      if package.image != k || package.chunk != j || package.suffixed != (n != 1) {
        return false, index', written';
      }
      if j != n && |package.content| != images[k].chunksize {
        return false, index', written';
      }
      assert packages[from..index'] == packages[from..index' - 1] + [package];
      written' := written' + [package];
      index' := index' + 1;
      j := j + 1;
    }
    assert steps[..j - 1] == steps;
    ok := true;
  }

  lemma ListStepsNext(images: seq<ImageInfo>, list: seq<nat>, i: nat)
    requires Known(images, list) && i < |list|
    ensures Known(images, list[..i + 1]) && Known(images, list[..i])
    ensures ListSteps(images, list[..i + 1]) ==
              ListSteps(images, list[..i]) + ImageSteps(list[i], images[list[i]].chunkcount)
  {
    assert list[..i + 1][..i] == list[..i];
  }

  /** More steps can only fail where fewer do. */
  lemma FetchesFewer(images: seq<ImageInfo>, packages: seq<Package>, list: seq<nat>, i: nat, from: nat)
    requires Known(images, list) && i <= |list|
    ensures Known(images, list[..i])
    ensures Fetches(images, packages, ListSteps(images, list), from) ==>
              Fetches(images, packages, ListSteps(images, list[..i]), from)
    decreases |list| - i
  {
    if i < |list| {
      FetchesFewer(images, packages, list, i + 1, from);
      ListStepsNext(images, list, i);
      FetchesConcat(images, packages, ListSteps(images, list[..i]), ImageSteps(list[i], images[list[i]].chunkcount),
                    from);
    } else {
      assert list[..i] == list;
    }
  }

  /** The images of one partition. */
  method WalkList(images: seq<ImageInfo>, list: seq<nat>, packages: seq<Package>, index: nat, written: seq<Package>)
    returns (ok: bool, index': nat, written': seq<Package>)
    requires Known(images, list) && 0 < index <= |packages| + 1
    ensures ok <==> Fetches(images, packages, ListSteps(images, list), index - 1)
    ensures ok ==>
              && index' == index + |ListSteps(images, list)| <= |packages| + 1
              && written' == written + packages[index - 1..index' - 1]
  {
    index', written' := index, written;
    ghost var from := index - 1;
    var i := 0;
    while i < |list|
      invariant 0 <= i <= |list| && Known(images, list[..i])
      invariant index' == index + |ListSteps(images, list[..i])| <= |packages| + 1
      invariant Fetches(images, packages, ListSteps(images, list[..i]), from)
      invariant written' == written + packages[from..index' - 1]
    {
      ListStepsNext(images, list, i);
      FetchesConcat(images, packages, ListSteps(images, list[..i]), ImageSteps(list[i], images[list[i]].chunkcount),
                    from);
      FetchesFewer(images, packages, list, i + 1, from);
      ghost var was := index';
      ok, index', written' := WalkImage(images, list[i], packages, index', written');
      if !ok {
        return;
      }
      assert packages[from..index' - 1] == packages[from..was - 1] + packages[was - 1..index' - 1];
      i := i + 1;
    }
    assert list[..i] == list;
    ok := true;
  }

  lemma AllStepsNext(images: seq<ImageInfo>, lists: seq<PartList>, q: nat)
    requires q < |lists| && forall i :: 0 <= i < |lists| ==> Known(images, lists[i].images)
    ensures AllSteps(images, lists[..q + 1]) == AllSteps(images, lists[..q]) + ListSteps(images, lists[q].images)
  {
    assert lists[..q + 1][..q] == lists[..q];
  }

  lemma AllFewer(images: seq<ImageInfo>, packages: seq<Package>, lists: seq<PartList>, q: nat, from: nat)
    requires q <= |lists| && forall i :: 0 <= i < |lists| ==> Known(images, lists[i].images)
    ensures Fetches(images, packages, AllSteps(images, lists), from) ==>
              Fetches(images, packages, AllSteps(images, lists[..q]), from)
    decreases |lists| - q
  {
    if q < |lists| {
      AllFewer(images, packages, lists, q + 1, from);
      AllStepsNext(images, lists, q);
      FetchesConcat(images, packages, AllSteps(images, lists[..q]), ListSteps(images, lists[q].images), from);
    } else {
      assert lists[..q] == lists;
    }
  }

  /** update_from_storage: partition by partition, image by image, chunk by chunk, each from the next package. */
  method UpdateFromStorage(images: seq<ImageInfo>, lists: seq<PartList>, packages: seq<Package>)
    returns (ok: bool, written: seq<Package>)
    requires forall q :: 0 <= q < |lists| ==> Known(images, lists[q].images)
    ensures ok <==> Fetches(images, packages, AllSteps(images, lists), 0)
    ensures ok ==> written == packages[..|AllSteps(images, lists)|]
  {
    var index := 1;
    written := [];
    var q := 0;
    while q < |lists|
      invariant 0 <= q <= |lists| && 0 < index == 1 + |AllSteps(images, lists[..q])| <= |packages| + 1
      invariant Fetches(images, packages, AllSteps(images, lists[..q]), 0)
      invariant written == packages[..index - 1]
    {
      AllStepsNext(images, lists, q);
      FetchesConcat(images, packages, AllSteps(images, lists[..q]), ListSteps(images, lists[q].images), 0);
      AllFewer(images, packages, lists, q + 1, 0);
      ghost var was := index;
      ok, index, written := WalkList(images, lists[q].images, packages, index, written);
      if !ok {
        return;
      }
      assert packages[..index - 1] == packages[..was - 1] + packages[was - 1..index - 1];
      q := q + 1;
    }
    assert lists[..q] == lists;
    ok := true;
  }
}
