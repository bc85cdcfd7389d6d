/**
 * How the four stages fit together on one image: findHole and
 * findBoundaries classify the mask, prepareImage carves the hole into the
 * normalised image, fillHole fills it and denormalise scales it back.
 * The stages are composed on their specification functions; the mask and
 * the image are given as their reduced (one byte per pixel) forms.
 */
module Pipeline {
  import opened Pixels
  import opened Reduction
  import opened Classification
  import opened Diffusion

  /**
   * On a rows-by-width image whose hole pixels are all interior (so that
   * findBoundaries reads only inside the image) and whose hole has at least
   * one boundary pixel,
   * the filled buffer keeps every pixel outside the hole, gives every hole
   * pixel the weighted mean of the original boundary samples, and holds
   * only values in [0, 1], so the carving sentinel never survives and
   * denormalise yields values in [0, 255].
   */
  lemma FilledImageInRange(mask: seq<byte>, image: seq<byte>, width: nat, rows: nat, t: real,
                           connectivity: int, weight: Weight, buf: seq<real>)
    requires |mask| == rows * width && |image| == |mask| && |buf| == |mask|
    requires Positive(weight)
    requires forall h :: h in ScanHoles(mask, width, t, rows) ==> Interior(h, rows, width)
    requires Prepared(buf, image, width, ScanHoles(mask, width, t, rows), DEFAULT_MASK_VALUE)
    requires ScanHoles(mask, width, t, rows) != [] ==>
      BoundaryScan(mask, width, t, connectivity, ScanHoles(mask, width, t, rows)) != []
    ensures
      var holes := ScanHoles(mask, width, t, rows);
      var bs := BoundaryScan(mask, width, t, connectivity, holes);
      && Addressable(holes, width, |buf|) && Addressable(bs, width, |buf|)
      && var r := Filled(buf, width, weight, holes, bs);
      && (forall i :: 0 <= i < |r| && !Covers(holes, width, i) ==> r[i] == Normalise(image[i] as real))
      && (bs != [] ==> forall h :: h in holes ==> r[Index(h, width)] == Interpolated(buf, width, weight, h, bs))
      && (forall i :: 0 <= i < |r| ==> 0.0 <= r[i] <= 1.0 && r[i] != DEFAULT_MASK_VALUE)
      && (forall i :: 0 <= i < |r| ==> 0.0 <= Denormalised(r[i]) <= U_CHAR_MAX as real)
  {
    var holes := ScanHoles(mask, width, t, rows);
    var bs := BoundaryScan(mask, width, t, connectivity, holes);
    ScanHolesIncreasing(mask, width, t, rows);
    forall h | h in holes
      ensures IsHole(mask, width, t, h)
    {
      ScanHolesMembers(mask, width, t, rows, h);
    }
    forall q | q in bs
      ensures IsBoundary(mask, width, t, q) && !Covers(holes, width, Index(q, width))
    {
      BoundaryScanMembers(mask, width, t, connectivity, holes, q);
      BoundariesAvoidHoles(mask, width, t, connectivity, holes);
    }
    assert Addressable(bs, width, |buf|);
    var r := Filled(buf, width, weight, holes, bs);
    forall i | 0 <= i < |r| && !Covers(holes, width, i)
      ensures r[i] == Normalise(image[i] as real)
    {
      FilledOutsideHoles(buf, width, weight, holes, bs, i);
    }
    if bs != [] {
      FilledHoles(buf, width, weight, holes, bs);
      forall h | h in holes
        ensures r[Index(h, width)] == Interpolated(buf, width, weight, h, bs)
        ensures 0.0 <= r[Index(h, width)] <= 1.0
      {
        var k :| 0 <= k < |holes| && holes[k] == h;
        forall b | b in bs
          ensures 0.0 <= buf[Index(b, width)] <= 1.0
        {
          SentinelIsNotASample(image[Index(b, width)]);
        }
        InterpolatedBounds(buf, width, weight, h, bs, 0.0, 1.0);
      }
    }
    forall i | 0 <= i < |r|
      ensures 0.0 <= r[i] <= 1.0
    {
      if Covers(holes, width, i) {
        var h :| h in holes && Index(h, width) == i;
      } else {
        SentinelIsNotASample(image[i]);
      }
    }
  }
}
