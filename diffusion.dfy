/**
 * The hole filler: fillHole (botox/botox.cpp, botox/botox.h).
 *
 * Every hole cell receives the weighted mean of the boundary cells,
 * sum(w(h, b) * v(b)) / sum(w(h, b)), with the weight supplied by an
 * IPixelWeightCalculator. The calculator is modelled as a function from
 * two pixels to a positive real; samples are reals.
 */
module Diffusion {
  import opened Pixels

  /** IPixelWeightCalculator::getPixelWeight(a, b). */
  type Weight = (Pixel, Pixel) -> real

  /** A calculator whose weights are all positive, as 1 / (d^z + e) is for e > 0. */
  ghost predicate Positive(weight: Weight) {
    forall a: Pixel, b: Pixel :: weight(a, b) > 0.0
  }

  /** All but the last element of a non-empty pixel sequence still address the buffer. */
  lemma AddressableInit(ps: seq<Pixel>, width: int, n: int)
    requires Addressable(ps, width, n) && ps != []
    ensures Addressable(ps[..|ps| - 1], width, n)
  {
    forall p | p in ps[..|ps| - 1]
      ensures 0 <= Index(p, width) < n
    {
      var k :| 0 <= k < |ps| - 1 && ps[..|ps| - 1][k] == p;
      assert ps[k] == p;
    }
  }

  /** weightSum after the inner loop has visited the boundary pixels `bs`. */
  function WeightSum(weight: Weight, h: Pixel, bs: seq<Pixel>): (r: real)
    decreases |bs|
    ensures Positive(weight) ==> r >= 0.0 && (bs != [] ==> r > 0.0)
  {
    if bs == [] then 0.0
    else WeightSum(weight, h, bs[..|bs| - 1]) + weight(h, bs[|bs| - 1])
  }

  /** dotProductSum after the inner loop has visited `bs`, reading the samples of `buf`. */
  function DotProductSum(buf: seq<real>, width: int, weight: Weight, h: Pixel, bs: seq<Pixel>): real
    requires Addressable(bs, width, |buf|)
    decreases |bs|
  {
    if bs == [] then 0.0
    else
      AddressableInit(bs, width, |buf|);
      var b := bs[|bs| - 1];
      DotProductSum(buf, width, weight, h, bs[..|bs| - 1]) + weight(h, b) * buf[Index(b, width)]
  }

  /** The value fillHole writes for hole pixel `h`: dotProductSum / weightSum. */
  function Interpolated(buf: seq<real>, width: int, weight: Weight, h: Pixel, bs: seq<Pixel>): real
    requires Addressable(bs, width, |buf|) && Positive(weight) && bs != []
  {
    DotProductSum(buf, width, weight, h, bs) / WeightSum(weight, h, bs)
  }

  /**
   * The buffer after fillHole has processed the hole pixels `holes` in
   * order; each hole reads the boundary samples of the buffer as its
   * predecessors left it.
   */
  function Filled(buf: seq<real>, width: int, weight: Weight, holes: seq<Pixel>, bs: seq<Pixel>): (r: seq<real>)
    requires Addressable(holes, width, |buf|) && Addressable(bs, width, |buf|)
    requires Positive(weight) && (holes != [] ==> bs != [])
    decreases |holes|
    ensures |r| == |buf|
  {
    if holes == [] then buf
    else
      AddressableInit(holes, width, |buf|);
      var h := holes[|holes| - 1];
      var prev := Filled(buf, width, weight, holes[..|holes| - 1], bs);
      prev[Index(h, width) := Interpolated(prev, width, weight, h, bs)]
  }

  /**
   * fillHole(input, width, holePixels, boundaryPixels, pixelWeightCalculator):
   * for each hole pixel, accumulates weightSum and dotProductSum over the
   * boundary pixels and stores their quotient in the hole's cell.
   */
  method FillHole(input: array<real>, width: int, holePixels: seq<Pixel>, boundaryPixels: seq<Pixel>,
                  weight: Weight)
    requires Addressable(holePixels, width, input.Length) && Addressable(boundaryPixels, width, input.Length)
    requires Positive(weight) && (holePixels != [] ==> boundaryPixels != [])
    modifies input
    ensures input[..] == Filled(old(input[..]), width, weight, holePixels, boundaryPixels)
  {
    ghost var original := input[..];
    var i := 0;
    while i < |holePixels|
      invariant 0 <= i <= |holePixels|
      invariant Addressable(holePixels[..i], width, input.Length)
      invariant input[..] == Filled(original, width, weight, holePixels[..i], boundaryPixels)
    {
      var holePixel := holePixels[i];
      assert holePixel in holePixels;
      var weightSum, dotProductSum := Accumulate(input, width, holePixel, boundaryPixels, weight);
      input[holePixel.x * width + holePixel.y] := dotProductSum / weightSum;
      assert holePixels[..i + 1][..i] == holePixels[..i];
      i := i + 1;
    }
    assert holePixels[..i] == holePixels;
  }

  /**
   * The inner loop of fillHole: weightSum and dotProductSum of one hole
   * pixel over all boundary pixels, read from the current buffer.
   */
  method Accumulate(input: array<real>, width: int, holePixel: Pixel, boundaryPixels: seq<Pixel>, weight: Weight)
    returns (weightSum: real, dotProductSum: real)
    requires Addressable(boundaryPixels, width, input.Length)
    ensures weightSum == WeightSum(weight, holePixel, boundaryPixels)
    ensures dotProductSum == DotProductSum(input[..], width, weight, holePixel, boundaryPixels)
  {
    weightSum := 0.0;
    dotProductSum := 0.0;
    var j := 0;
    while j < |boundaryPixels|
      invariant 0 <= j <= |boundaryPixels|
      invariant Addressable(boundaryPixels[..j], width, input.Length)
      invariant weightSum == WeightSum(weight, holePixel, boundaryPixels[..j])
      invariant dotProductSum == DotProductSum(input[..], width, weight, holePixel, boundaryPixels[..j])
    {
      var boundaryPixel := boundaryPixels[j];
      assert boundaryPixel in boundaryPixels;
      assert boundaryPixels[..j + 1][..j] == boundaryPixels[..j];
      var w := weight(holePixel, boundaryPixel);
      weightSum := weightSum + w;
      dotProductSum := dotProductSum + w * input[boundaryPixel.x * width + boundaryPixel.y];
      j := j + 1;
    }
    assert boundaryPixels[..j] == boundaryPixels;
  }

  /**
   * Each dotProductSum lies between lo and hi times the weightSum when every
   * boundary sample lies in [lo, hi].
   */
  lemma {:induction false} DotProductBounds(buf: seq<real>, width: int, weight: Weight, h: Pixel, bs: seq<Pixel>,
                                            lo: real, hi: real)
    requires Addressable(bs, width, |buf|) && Positive(weight)
    requires forall b :: b in bs ==> lo <= buf[Index(b, width)] <= hi
    decreases |bs|
    ensures Between(lo, hi, WeightSum(weight, h, bs), DotProductSum(buf, width, weight, h, bs))
  {
    if bs != [] {
      AddressableInit(bs, width, |buf|);
      var init, b := bs[..|bs| - 1], bs[|bs| - 1];
      assert forall c :: c in init ==> c in bs;
      DotProductBounds(buf, width, weight, h, init, lo, hi);
      assert b in bs;
      var ws, ds := WeightSum(weight, h, init), DotProductSum(buf, width, weight, h, init);
      var w, v := weight(h, b), buf[Index(b, width)];
      assert WeightSum(weight, h, bs) == ws + w;
      assert DotProductSum(buf, width, weight, h, bs) == ds + w * v;
      BoundsStep(lo, hi, ws, ds, w, v);
    } else {
      assert lo * 0.0 == 0.0 && hi * 0.0 == 0.0;
    }
  }

  /** ds lies between lo and hi times ws. */
  predicate Between(lo: real, hi: real, ws: real, ds: real) {
    lo * ws <= ds <= hi * ws
  }

  /** Adding one weighted sample in [lo, hi] keeps the running sums within bounds. */
  lemma BoundsStep(lo: real, hi: real, ws: real, ds: real, w: real, v: real)
    requires w > 0.0 && lo <= v <= hi && Between(lo, hi, ws, ds)
    ensures Between(lo, hi, ws + w, ds + w * v)
  {
    RealMulMonotone(lo, v, w);
    RealMulMonotone(v, hi, w);
    assert lo * (ws + w) == lo * ws + lo * w;
    assert hi * (ws + w) == hi * ws + hi * w;
  }

  lemma RealMulMonotone(a: real, b: real, c: real)
    requires a <= b && 0.0 <= c
    ensures a * c <= b * c
  {
    assert b * c - a * c == (b - a) * c;
  }

  /**
   * The interpolated value is a weighted mean: it lies between the least
   * and the greatest boundary sample.
   */
  lemma InterpolatedBounds(buf: seq<real>, width: int, weight: Weight, h: Pixel, bs: seq<Pixel>,
                           lo: real, hi: real)
    requires Addressable(bs, width, |buf|) && Positive(weight) && bs != []
    requires forall b :: b in bs ==> lo <= buf[Index(b, width)] <= hi
    ensures lo <= Interpolated(buf, width, weight, h, bs) <= hi
  {
    var d, w := DotProductSum(buf, width, weight, h, bs), WeightSum(weight, h, bs);
    DotProductBounds(buf, width, weight, h, bs, lo, hi);
    QuotientBetween(d, w, lo, hi);
  }

  lemma QuotientBetween(d: real, w: real, lo: real, hi: real)
    requires w > 0.0 && lo * w <= d <= hi * w
    ensures lo <= d / w <= hi
  {
    var q := d / w;
    assert q * w == d;
    assert (q - lo) * w == d - lo * w;
    assert (hi - q) * w == hi * w - d;
    ProductSign(q - lo, w);
    ProductSign(hi - q, w);
  }

  lemma ProductSign(a: real, w: real)
    requires w > 0.0 && a * w >= 0.0
    ensures a >= 0.0
  {
  }

  /** With a single boundary pixel the hole takes that pixel's sample, whatever its weight. */
  lemma InterpolatedSingle(buf: seq<real>, width: int, weight: Weight, h: Pixel, b: Pixel)
    requires Addressable([b], width, |buf|) && Positive(weight)
    ensures Interpolated(buf, width, weight, h, [b]) == buf[Index(b, width)]
  {
    var w, v := weight(h, b), buf[Index(b, width)];
    assert [b][..0] == [];
    assert WeightSum(weight, h, [b]) == w;
    assert DotProductSum(buf, width, weight, h, [b]) == w * v;
    assert w > 0.0;
    MulDivCancel(w, v);
  }

  lemma MulDivCancel(w: real, v: real)
    requires w > 0.0
    ensures w * v / w == v
  {
    var q := w * v / w;
    assert q * w == w * v;
    assert (q - v) * w == 0.0;
    ProductSign(q - v, w);
    ProductSign(v - q, w);
  }

  /** dotProductSum reads only the boundary cells of the buffer. */
  lemma {:induction false} DotProductReadsBoundaries(a: seq<real>, c: seq<real>, width: int, weight: Weight,
                                                     h: Pixel, bs: seq<Pixel>)
    requires Addressable(bs, width, |a|) && Addressable(bs, width, |c|)
    requires forall b :: b in bs ==> a[Index(b, width)] == c[Index(b, width)]
    decreases |bs|
    ensures DotProductSum(a, width, weight, h, bs) == DotProductSum(c, width, weight, h, bs)
  {
    if bs != [] {
      AddressableInit(bs, width, |a|);
      AddressableInit(bs, width, |c|);
      assert forall p :: p in bs[..|bs| - 1] ==> p in bs;
      DotProductReadsBoundaries(a, c, width, weight, h, bs[..|bs| - 1]);
      assert bs[|bs| - 1] in bs;
    }
  }

  /** fillHole changes no cell that no hole pixel addresses. */
  lemma {:induction false} FilledOutsideHoles(buf: seq<real>, width: int, weight: Weight, holes: seq<Pixel>,
                                              bs: seq<Pixel>, i: int)
    requires Addressable(holes, width, |buf|) && Addressable(bs, width, |buf|)
    requires Positive(weight) && (holes != [] ==> bs != [])
    requires 0 <= i < |buf| && !Covers(holes, width, i)
    decreases |holes|
    ensures Filled(buf, width, weight, holes, bs)[i] == buf[i]
  {
    if holes != [] {
      AddressableInit(holes, width, |buf|);
      var init, h := holes[..|holes| - 1], holes[|holes| - 1];
      forall p | p in init
        ensures Index(p, width) != i
      {
        assert p in holes;
      }
      assert h in holes;
      FilledOutsideHoles(buf, width, weight, init, bs, i);
    }
  }

  /** No two pixels of `ps` address the same cell. */
  predicate DistinctCells(ps: seq<Pixel>, width: int) {
    forall i, j :: 0 <= i < j < |ps| ==> Index(ps[i], width) != Index(ps[j], width)
  }

  /**
   * When the hole pixels address distinct cells and no boundary pixel
   * addresses a hole cell, every hole cell ends up holding the weighted
   * mean of the ORIGINAL boundary samples: the order in which holes are
   * filled does not matter.
   */
  lemma {:induction false} FilledHoles(buf: seq<real>, width: int, weight: Weight, holes: seq<Pixel>,
                                       bs: seq<Pixel>)
    requires Addressable(holes, width, |buf|) && Addressable(bs, width, |buf|)
    requires Positive(weight) && bs != []
    requires DistinctCells(holes, width)
    requires forall b :: b in bs ==> !Covers(holes, width, Index(b, width))
    decreases |holes|
    ensures forall k :: 0 <= k < |holes| ==>
      Filled(buf, width, weight, holes, bs)[Index(holes[k], width)] == Interpolated(buf, width, weight, holes[k], bs)
  {
    if holes != [] {
      AddressableInit(holes, width, |buf|);
      var init, h := holes[..|holes| - 1], holes[|holes| - 1];
      var prev := Filled(buf, width, weight, init, bs);
      forall b | b in bs
        ensures !Covers(init, width, Index(b, width))
      {
        forall p | p in init
          ensures Index(p, width) != Index(b, width)
        {
          assert p in holes;
        }
      }
      FilledHoles(buf, width, weight, init, bs);
      forall b | b in bs
        ensures prev[Index(b, width)] == buf[Index(b, width)]
      {
        FilledOutsideHoles(buf, width, weight, init, bs, Index(b, width));
      }
      DotProductReadsBoundaries(prev, buf, width, weight, h, bs);
      forall k | 0 <= k < |holes|
        ensures Filled(buf, width, weight, holes, bs)[Index(holes[k], width)] == Interpolated(buf, width, weight, holes[k], bs)
      {
        if k < |holes| - 1 {
          assert holes[k] == init[k];
          assert Index(holes[k], width) != Index(h, width);
        }
      }
    }
  }
}
