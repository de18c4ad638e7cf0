/** The slices of a ubifs image, written one by one as a volume. */
module UbiSlices {
  import opened WordArith
  import opened Division
  import PackServer
  import PackAgreement
  import opened Ubi

  /** Every slice of a prepared ubifs image but the last is a number of logical eraseblocks of 126976 bytes, and all are
      exactly when the image is. */
  lemma UbifsSlices(image: PackServer.Image, slicesize: nat)
    requires PackAgreement.Prepared(image, slicesize) && image.ftype == PackServer.Ubifs
    requires image.mode.mode == PackServer.Slice
    ensures var pieces := PackServer.Chunks(image);
            && |pieces| > 0 && Concat(pieces) == image.data
            && (forall j :: 0 <= j < |pieces| - 1 ==> |pieces[j]| > 0 && |pieces[j]| % 126976 == 0)
            && (PackServer.AllWhole(pieces, 126976) <==> |image.data| % 126976 == 0)
  {
    PackAgreement.ChunksAsAnnounced(image, slicesize);
    QuotientAndRest(slicesize, 131072);
    var k := slicesize / 131072;
    PackServer.SliceSizeIs(image.ftype, slicesize, k);
    Quotient(k, 126976, 0);
    PackServer.SlicesShape(image.data, image.mode.size);
    PackServer.SlicesWhole(image.data, image.mode.size, 126976);
  }

  /** The slices of a prepared ubifs image go to a volume whose logical eraseblocks have 126976 bytes. Without device
      errors all writes succeed exactly when the image is a number of those and the blocks that are not bad suffice; the
      volume then holds the image's eraseblocks in order. */
  method WriteSlices(u: Volume, image: PackServer.Image, ebOff: nat, ghost slicesize: nat)
    returns (r: int, ghost where: seq<nat>)
    requires u.Valid() && u.lebSize == 126976
    requires PackAgreement.Prepared(image, slicesize) && image.ftype == PackServer.Ubifs
    requires image.mode.mode == PackServer.Slice
    modifies u, u.part
    ensures u.Valid()
    ensures r != -1 ==>
              && r >= 0 && |image.data| == |where| * 126976
              && VolumeAt(u, old(u.part.cells), u.part.cells, old(u.ec), u.ec, where, image.data, old(u.lnum), ebOff, r)
    ensures NoFaults(u) ==>
              (r != -1 <==> |image.data| % 126976 == 0 && |image.data| <= NotBad(old(u.ec), ebOff) * 126976)
  {
    hide VolumeAt, NotBad, NoFaults, Concat;
    UbifsSlices(image, slicesize);
    r, where := WriteChunks(u, PackServer.Chunks(image), ebOff);
  }
}
