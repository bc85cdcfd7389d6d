/**
 * The region classifier: findHole and findBoundaries (botox/botox.cpp),
 * with the PixelConnectivity modes of botox/botox.h.
 *
 * Both operations read the mask image and append to a vector the caller
 * owns. The vector, passed by reference in the source, is modelled as an
 * in/out value: each method receives the vector's contents and returns
 * its new contents. The image is an array the methods may not modify.
 */
module Classification {
  import opened Pixels
  import opened Reduction

  /** The declared PixelConnectivity values. */
  const FOUR: int := 4
  const EIGHT: int := 8

  /** The documented range of an intensity threshold. */
  predicate ValidThreshold(t: real) {
    0.0 <= t <= 1.0
  }

  /** The threshold carried into the u_char domain: 255 * intensityThreshold. */
  function ThresholdValue(t: real): real {
    U_CHAR_MAX as real * t
  }

  /**
   * findHole's test on the reduced image: the pixel's cell exists and its
   * channel average is strictly below the threshold.
   */
  predicate IsHole(reduced: seq<byte>, width: int, t: real, p: Pixel) {
    0 <= Index(p, width) < |reduced| && (reduced[Index(p, width)] as real) < ThresholdValue(t)
  }

  /**
   * findBoundaries' test on the reduced image: the pixel's cell exists and
   * its channel average is strictly above the threshold.
   */
  predicate IsBoundary(reduced: seq<byte>, width: int, t: real, p: Pixel) {
    0 <= Index(p, width) < |reduced| && (reduced[Index(p, width)] as real) > ThresholdValue(t)
  }

  /** No pixel passes both tests, and no two pixels passing them share a cell. */
  lemma HoleIsNeverBoundary(reduced: seq<byte>, width: int, t: real, h: Pixel, b: Pixel)
    requires IsHole(reduced, width, t, h) && IsBoundary(reduced, width, t, b)
    ensures Index(h, width) != Index(b, width) && h != b
  {
  }

  /**
   * Cell `p` of a height-by-width image lies inside the reduced image, and
   * the reduced value there is the channel average of that pixel's bytes.
   */
  lemma ReducedCell(input: seq<byte>, channels: nat, height: nat, width: nat, p: Pixel)
    requires height * width * channels <= |input|
    requires 0 <= p.x < height && 0 <= p.y < width
    ensures 0 <= Index(p, width) < height * width
    ensures FrameInBuffer(input, Index(p, width), channels)
    ensures Reduce(input, channels, height * width)[Index(p, width)] == PixelAverage(input, Index(p, width), channels)
  {
    CellInImage(p.x, p.y, height, width, channels);
    ReducedAt(input, channels, height * width, Index(p, width));
  }

  // ---------------------------------------------------------------- findHole

  /**
   * The hole pixels among the cells that come before (x, y) in row-major
   * order (rows 0 .. x - 1 in full, then columns 0 .. y - 1 of row x),
   * in that order.
   */
  function HolesBefore(reduced: seq<byte>, width: nat, t: real, x: nat, y: nat): seq<Pixel>
    requires y <= width
    decreases x, y
  {
    if y == 0 then
      if x == 0 then [] else HolesBefore(reduced, width, t, x - 1, width)
    else
      HolesBefore(reduced, width, t, x, y - 1)
      + (if IsHole(reduced, width, t, Pixel(x, y - 1)) then [Pixel(x, y - 1)] else [])
  }

  /** The hole pixels of the first `rows` rows of the image, in row-major order. */
  function ScanHoles(reduced: seq<byte>, width: nat, t: real, rows: nat): seq<Pixel>
  {
    HolesBefore(reduced, width, t, rows, 0)
  }

  /**
   * findHole(input, holePixels, intensityThreshold, channels, height, width):
   * appends to `holePixels` every hole pixel of the height-by-width image,
   * scanning rows in order and each row by column.
   */
  method FindHole(input: array<byte>, holePixels: seq<Pixel>, t: real, channels: nat, height: nat, width: nat)
    returns (holePixels': seq<Pixel>)
    requires ValidThreshold(t)
    requires height * width * channels <= input.Length
    ensures holePixels' == holePixels + ScanHoles(Reduce(input[..], channels, height * width), width, t, height)
  {
    ghost var reduced := Reduce(input[..], channels, height * width);
    var thresholdValue := U_CHAR_MAX as real * t;
    holePixels' := holePixels;
    var x := 0;
    while x < height
      invariant 0 <= x <= height
      invariant holePixels' == holePixels + HolesBefore(reduced, width, t, x, 0)
    {
      var y := 0;
      while y < width
        invariant 0 <= y <= width
        invariant holePixels' == holePixels + HolesBefore(reduced, width, t, x, y)
      {
        ReducedCell(input[..], channels, height, width, Pixel(x, y));
        var maskAverage := ChannelAverage(input, x * width + y, channels);
        if (maskAverage as real) < thresholdValue {
          holePixels' := holePixels' + [Pixel(x, y)];
        }
        y := y + 1;
      }
      x := x + 1;
    }
  }

  /**
   * The pixels before (x, y) that findHole appends are exactly the hole
   * pixels in rows 0 .. x - 1 and in columns 0 .. y - 1 of row x.
   */
  lemma {:induction false} HolesBeforeMembers(reduced: seq<byte>, width: nat, t: real, x: nat, y: nat, p: Pixel)
    requires y <= width
    decreases x, y
    ensures p in HolesBefore(reduced, width, t, x, y) <==>
      ((0 <= p.x < x && 0 <= p.y < width) || (p.x == x && 0 <= p.y < y)) && IsHole(reduced, width, t, p)
  {
    if y == 0 {
      if x > 0 {
        HolesBeforeMembers(reduced, width, t, x - 1, width, p);
      }
    } else {
      HolesBeforeMembers(reduced, width, t, x, y - 1, p);
    }
  }

  /**
   * findHole appends exactly the pixels (x, y) with 0 <= x < height and
   * 0 <= y < width whose reduced value is below the threshold.
   */
  lemma ScanHolesMembers(reduced: seq<byte>, width: nat, t: real, rows: nat, p: Pixel)
    ensures p in ScanHoles(reduced, width, t, rows) <==>
      0 <= p.x < rows && 0 <= p.y < width && IsHole(reduced, width, t, p)
  {
    HolesBeforeMembers(reduced, width, t, rows, 0, p);
  }

  /** `a` comes before `b` in row-major order: an earlier row, or the same row and an earlier column. */
  predicate Precedes(a: Pixel, b: Pixel) {
    a.x < b.x || (a.x == b.x && a.y < b.y)
  }

  /** Every pixel of `s` comes strictly before every later one. */
  predicate RowMajorSorted(s: seq<Pixel>) {
    forall i, j :: 0 <= i < j < |s| ==> Precedes(s[i], s[j])
  }

  /** Within rows of `width` cells, row-major order is the order of linear indices. */
  lemma PrecedesIndex(a: Pixel, b: Pixel, width: int)
    requires 0 <= a.y < width && 0 <= b.y < width
    ensures Precedes(a, b) <==> Index(a, width) < Index(b, width)
  {
    if a.x < b.x {
      MulMonotone(a.x + 1, b.x, width);
    } else if b.x < a.x {
      MulMonotone(b.x + 1, a.x, width);
    }
  }

  /** The pixels before (x, y) are sorted, lie in the image's columns, and all precede (x, y). */
  lemma {:induction false} HolesBeforeSorted(reduced: seq<byte>, width: nat, t: real, x: nat, y: nat)
    requires y <= width
    decreases x, y
    ensures RowMajorSorted(HolesBefore(reduced, width, t, x, y))
    ensures forall p :: p in HolesBefore(reduced, width, t, x, y) ==>
      0 <= p.x && 0 <= p.y < width && Precedes(p, Pixel(x, y))
  {
    if y == 0 {
      if x > 0 {
        HolesBeforeSorted(reduced, width, t, x - 1, width);
      }
    } else {
      var before := HolesBefore(reduced, width, t, x, y - 1);
      HolesBeforeSorted(reduced, width, t, x, y - 1);
      var s := before + (if IsHole(reduced, width, t, Pixel(x, y - 1)) then [Pixel(x, y - 1)] else []);
      assert HolesBefore(reduced, width, t, x, y) == s;
      forall i, j | 0 <= i < j < |s|
        ensures Precedes(s[i], s[j])
      {
        if j < |before| {
          assert s[i] == before[i] && s[j] == before[j];
        } else {
          assert s[i] in before;
        }
      }
    }
  }

  lemma {:induction false} HolesBeforeLength(reduced: seq<byte>, width: nat, t: real, x: nat, y: nat)
    requires y <= width
    decreases x, y
    ensures |HolesBefore(reduced, width, t, x, y)| <= x * width + y
  {
    if y == 0 {
      if x > 0 {
        HolesBeforeLength(reduced, width, t, x - 1, width);
        assert x * width == (x - 1) * width + width;
      }
    } else {
      HolesBeforeLength(reduced, width, t, x, y - 1);
    }
  }

  /**
   * findHole's pixels come in strictly increasing order of linear index,
   * so none repeats, all address cells of the rows-by-width image, and
   * there are at most rows * width of them.
   */
  lemma ScanHolesIncreasing(reduced: seq<byte>, width: nat, t: real, rows: nat)
    ensures forall i, j :: 0 <= i < j < |ScanHoles(reduced, width, t, rows)| ==>
      Index(ScanHoles(reduced, width, t, rows)[i], width) < Index(ScanHoles(reduced, width, t, rows)[j], width)
    ensures forall p :: p in ScanHoles(reduced, width, t, rows) ==> 0 <= Index(p, width) < rows * width
    ensures |ScanHoles(reduced, width, t, rows)| <= rows * width
  {
    var s := ScanHoles(reduced, width, t, rows);
    HolesBeforeSorted(reduced, width, t, rows, 0);
    HolesBeforeLength(reduced, width, t, rows, 0);
    forall i, j | 0 <= i < j < |s|
      ensures Index(s[i], width) < Index(s[j], width)
    {
      assert s[i] in s && s[j] in s;
      PrecedesIndex(s[i], s[j], width);
    }
    forall p | p in s
      ensures 0 <= Index(p, width) < rows * width
    {
      CellInImage(p.x, p.y, rows, width, 0);
    }
  }

  // ---------------------------------------------------------- findBoundaries

  function Abs(n: int): nat {
    if n < 0 then -n else n
  }

  /** Under FOUR the corner offsets, where neither coordinate is 0, are skipped. */
  predicate Skipped(connectivity: int, dx: int, dy: int) {
    connectivity == FOUR && dx != 0 && dy != 0
  }

  /** For offsets in {-1, 0, 1}, the corners are exactly those with |dx| + |dy| == 2. */
  lemma CornerTest(dx: int, dy: int)
    requires -1 <= dx <= 1 && -1 <= dy <= 1
    ensures (dx != 0 && dy != 0) <==> Abs(dx) + Abs(dy) == 2
  {
  }

  /** What findBoundaries appends when it visits offset (dx, dy) around `p`. */
  function Visit(reduced: seq<byte>, width: int, t: real, connectivity: int,
                 p: Pixel, dx: int, dy: int): seq<Pixel>
  {
    if Skipped(connectivity, dx, dy) then []
    else if IsBoundary(reduced, width, t, Pixel(p.x + dx, p.y + dy)) then [Pixel(p.x + dx, p.y + dy)]
    else []
  }

  /** The visits at offsets (dx, -1), ..., (dx, yEnd - 1), in that order. */
  function ColumnScan(reduced: seq<byte>, width: int, t: real, connectivity: int,
                      p: Pixel, dx: int, yEnd: int): seq<Pixel>
    requires -1 <= yEnd <= 2
    decreases yEnd + 1, p
  {
    if yEnd == -1 then []
    else ColumnScan(reduced, width, t, connectivity, p, dx, yEnd - 1)
         + Visit(reduced, width, t, connectivity, p, dx, yEnd - 1)
  }

  /** The visits at offsets with dx in -1 .. xEnd - 1 and dy in -1 .. 1, dx-major. */
  function NeighbourScan(reduced: seq<byte>, width: int, t: real, connectivity: int,
                         p: Pixel, xEnd: int): seq<Pixel>
    requires -1 <= xEnd <= 2
    decreases xEnd + 1, p
  {
    if xEnd == -1 then []
    else NeighbourScan(reduced, width, t, connectivity, p, xEnd - 1)
         + ColumnScan(reduced, width, t, connectivity, p, xEnd - 1, 2)
  }

  /** Everything findBoundaries appends for `holes`: one group per hole pixel, in hole order. */
  function BoundaryScan(reduced: seq<byte>, width: int, t: real, connectivity: int,
                        holes: seq<Pixel>): seq<Pixel>
    decreases |holes|
  {
    if holes == [] then []
    else BoundaryScan(reduced, width, t, connectivity, holes[..|holes| - 1])
         + NeighbourScan(reduced, width, t, connectivity, holes[|holes| - 1], 2)
  }

  /**
   * A hole pixel whose eight neighbours all lie inside the height-by-width
   * image, so that findBoundaries, which does no bounds checking, reads
   * only inside the image for it.
   */
  predicate Interior(p: Pixel, height: int, width: int) {
    1 <= p.x < height - 1 && 1 <= p.y < width - 1
  }

  /**
   * findBoundaries(input, holePixels, width, channels, intensityThreshold,
   * boundaries, connectivity): for every hole pixel, visits the offsets
   * dx = -1..1, dy = -1..1 (the corners skipped under FOUR, the centre
   * not skipped) and appends each neighbour that reduces above the
   * threshold, duplicates included.
   */
  method FindBoundaries(input: array<byte>, holePixels: seq<Pixel>, width: int, channels: nat, t: real,
                        boundaries: seq<Pixel>, connectivity: int, ghost height: nat)
    returns (boundaries': seq<Pixel>)
    requires ValidThreshold(t)
    requires 0 <= width && height * width * channels <= input.Length
    requires forall p :: p in holePixels ==> Interior(p, height, width)
    ensures boundaries' == boundaries + BoundaryScan(Reduce(input[..], channels, height * width), width, t, connectivity, holePixels)
  {
    ghost var reduced := Reduce(input[..], channels, height * width);
    boundaries' := boundaries;
    var i := 0;
    while i < |holePixels|
      invariant 0 <= i <= |holePixels|
      invariant boundaries' == boundaries + BoundaryScan(reduced, width, t, connectivity, holePixels[..i])
    {
      var pixel := holePixels[i];
      assert pixel in holePixels;
      boundaries' := ScanNeighbours(input, pixel, width, channels, t, boundaries', connectivity, height);
      assert holePixels[..i + 1][..i] == holePixels[..i];
      assert BoundaryScan(reduced, width, t, connectivity, holePixels[..i + 1])
          == BoundaryScan(reduced, width, t, connectivity, holePixels[..i])
             + NeighbourScan(reduced, width, t, connectivity, pixel, 2);
      i := i + 1;
    }
    assert holePixels[..i] == holePixels;
  }

  /**
   * The body of findBoundaries' loop for one hole pixel: the loop over
   * dx = -1..1, appending the neighbours of `pixel` that reduce above the
   * threshold.
   */
  method ScanNeighbours(input: array<byte>, pixel: Pixel, width: int, channels: nat, t: real,
                        boundaries: seq<Pixel>, connectivity: int, ghost height: nat)
    returns (boundaries': seq<Pixel>)
    requires 0 <= width && height * width * channels <= input.Length
    requires Interior(pixel, height, width)
    ensures boundaries' == boundaries + NeighbourScan(Reduce(input[..], channels, height * width), width, t, connectivity, pixel, 2)
  {
    ghost var reduced := Reduce(input[..], channels, height * width);
    boundaries' := boundaries;
    var x := -1;
    while x <= 1
      invariant -1 <= x <= 2
      invariant boundaries' == boundaries + NeighbourScan(reduced, width, t, connectivity, pixel, x)
    {
      boundaries' := ScanColumn(input, pixel, x, width, channels, t, boundaries', connectivity, height);
      x := x + 1;
    }
  }

  /**
   * The innermost loop of findBoundaries: for a fixed dx, visits dy = -1..1,
   * skips the corners under FOUR, and appends each neighbour whose channel
   * average exceeds 255 * intensityThreshold.
   */
  method ScanColumn(input: array<byte>, pixel: Pixel, x: int, width: int, channels: nat, t: real,
                    boundaries: seq<Pixel>, connectivity: int, ghost height: nat)
    returns (boundaries': seq<Pixel>)
    requires 0 <= width && height * width * channels <= input.Length
    requires Interior(pixel, height, width) && -1 <= x <= 1
    ensures boundaries' == boundaries + ColumnScan(Reduce(input[..], channels, height * width), width, t, connectivity, pixel, x, 2)
  {
    ghost var reduced := Reduce(input[..], channels, height * width);
    var thresholdValue := U_CHAR_MAX as real * t;
    boundaries' := boundaries;
    var y := -1;
    while y <= 1
      invariant -1 <= y <= 2
      invariant boundaries' == boundaries + ColumnScan(reduced, width, t, connectivity, pixel, x, y)
    {
      ghost var visit := Visit(reduced, width, t, connectivity, pixel, x, y);
      CornerTest(x, y);
      if !(connectivity == FOUR && Abs(x) + Abs(y) == 2) {
        var neighbour := Pixel(pixel.x + x, pixel.y + y);
        ReducedCell(input[..], channels, height, width, neighbour);
        var boundaryCandidate := ChannelAverage(input, neighbour.x * width + neighbour.y, channels);
        if (boundaryCandidate as real) > thresholdValue {
          boundaries' := boundaries' + [neighbour];
        }
        assert visit == if (boundaryCandidate as real) > thresholdValue then [neighbour] else [];
      } else {
        assert visit == [];
      }
      y := y + 1;
    }
  }

  /** `q` is at an offset (dx, dy) from `h` that findBoundaries visits under `connectivity`. */
  predicate Adjacent(h: Pixel, q: Pixel, connectivity: int) {
    && -1 <= q.x - h.x <= 1
    && -1 <= q.y - h.y <= 1
    && !Skipped(connectivity, q.x - h.x, q.y - h.y)
  }

  lemma {:induction false} ColumnScanMembers(reduced: seq<byte>, width: int, t: real, connectivity: int,
                                             p: Pixel, dx: int, yEnd: int, q: Pixel)
    requires -1 <= yEnd <= 2
    decreases yEnd + 1
    ensures q in ColumnScan(reduced, width, t, connectivity, p, dx, yEnd) <==>
      && q.x == p.x + dx && -1 <= q.y - p.y < yEnd
      && !Skipped(connectivity, dx, q.y - p.y)
      && IsBoundary(reduced, width, t, q)
  {
    if yEnd > -1 {
      ColumnScanMembers(reduced, width, t, connectivity, p, dx, yEnd - 1, q);
    }
  }

  lemma {:induction false} NeighbourScanMembers(reduced: seq<byte>, width: int, t: real, connectivity: int,
                                                p: Pixel, xEnd: int, q: Pixel)
    requires -1 <= xEnd <= 2
    decreases xEnd + 1
    ensures q in NeighbourScan(reduced, width, t, connectivity, p, xEnd) <==>
      && -1 <= q.x - p.x < xEnd && -1 <= q.y - p.y <= 1
      && !Skipped(connectivity, q.x - p.x, q.y - p.y)
      && IsBoundary(reduced, width, t, q)
  {
    if xEnd > -1 {
      var before := NeighbourScan(reduced, width, t, connectivity, p, xEnd - 1);
      var column := ColumnScan(reduced, width, t, connectivity, p, xEnd - 1, 2);
      assert NeighbourScan(reduced, width, t, connectivity, p, xEnd) == before + column;
      NeighbourScanMembers(reduced, width, t, connectivity, p, xEnd - 1, q);
      ColumnScanMembers(reduced, width, t, connectivity, p, xEnd - 1, 2, q);
      assert q in before + column <==> q in before || q in column;
    }
  }

  /**
   * findBoundaries appends exactly the neighbours (at a visited offset
   * (dx, dy) in {-1, 0, 1}^2) of some hole pixel that reduce above the
   * threshold.
   */
  lemma {:induction false} BoundaryScanMembers(reduced: seq<byte>, width: int, t: real, connectivity: int,
                                               holes: seq<Pixel>, q: Pixel)
    decreases |holes|
    ensures q in BoundaryScan(reduced, width, t, connectivity, holes) <==>
      IsBoundary(reduced, width, t, q) && exists h :: h in holes && Adjacent(h, q, connectivity)
  {
    if holes != [] {
      var init, last := holes[..|holes| - 1], holes[|holes| - 1];
      var before := BoundaryScan(reduced, width, t, connectivity, init);
      var group := NeighbourScan(reduced, width, t, connectivity, last, 2);
      assert BoundaryScan(reduced, width, t, connectivity, holes) == before + group;
      BoundaryScanMembers(reduced, width, t, connectivity, init, q);
      NeighbourScanMembers(reduced, width, t, connectivity, last, 2, q);
      assert q in before + group <==> q in before || q in group;
      assert q in group <==> IsBoundary(reduced, width, t, q) && Adjacent(last, q, connectivity);
      assert holes == init + [last];
      if exists h :: h in holes && Adjacent(h, q, connectivity) {
        var h :| h in holes && Adjacent(h, q, connectivity);
        assert h == last || h in init;
      }
      if exists h :: h in init && Adjacent(h, q, connectivity) {
        var h :| h in init && Adjacent(h, q, connectivity);
        assert h in holes;
      }
    }
  }

  /**
   * Given the same image and threshold, findBoundaries never appends a
   * pixel that findHole reported, nor any pixel sharing a cell with one.
   */
  lemma BoundariesAvoidHoles(reduced: seq<byte>, width: int, t: real, connectivity: int,
                             holes: seq<Pixel>)
    requires forall h :: h in holes ==> IsHole(reduced, width, t, h)
    ensures forall q, h :: q in BoundaryScan(reduced, width, t, connectivity, holes) && h in holes ==>
      Index(q, width) != Index(h, width) && q != h
  {
    forall q, h | q in BoundaryScan(reduced, width, t, connectivity, holes) && h in holes
      ensures Index(q, width) != Index(h, width) && q != h
    {
      BoundaryScanMembers(reduced, width, t, connectivity, holes, q);
      HoleIsNeverBoundary(reduced, width, t, h, q);
    }
  }

  lemma {:induction false} ColumnScanLength(reduced: seq<byte>, width: int, t: real, connectivity: int,
                                            p: Pixel, dx: int, yEnd: int)
    requires -1 <= yEnd <= 2
    decreases yEnd + 1
    ensures |ColumnScan(reduced, width, t, connectivity, p, dx, yEnd)| <= yEnd + 1
    ensures connectivity == FOUR && dx != 0 ==>
      |ColumnScan(reduced, width, t, connectivity, p, dx, yEnd)| <= if yEnd >= 1 then 1 else 0
  {
    if yEnd > -1 {
      ColumnScanLength(reduced, width, t, connectivity, p, dx, yEnd - 1);
    }
  }

  lemma {:induction false} NeighbourScanLength(reduced: seq<byte>, width: int, t: real, connectivity: int,
                                               p: Pixel, xEnd: int)
    requires -1 <= xEnd <= 2
    decreases xEnd + 1
    ensures |NeighbourScan(reduced, width, t, connectivity, p, xEnd)| <= 3 * (xEnd + 1)
    ensures connectivity == FOUR ==>
      |NeighbourScan(reduced, width, t, connectivity, p, xEnd)| <= [0, 1, 4, 5][xEnd + 1]
  {
    if xEnd > -1 {
      NeighbourScanLength(reduced, width, t, connectivity, p, xEnd - 1);
      ColumnScanLength(reduced, width, t, connectivity, p, xEnd - 1, 2);
    }
  }

  /** findBoundaries appends at most 9 pixels per hole pixel, at most 5 under FOUR. */
  lemma {:induction false} BoundaryScanLength(reduced: seq<byte>, width: int, t: real, connectivity: int,
                                              holes: seq<Pixel>)
    decreases |holes|
    ensures |BoundaryScan(reduced, width, t, connectivity, holes)| <= 9 * |holes|
    ensures connectivity == FOUR ==> |BoundaryScan(reduced, width, t, connectivity, holes)| <= 5 * |holes|
  {
    if holes != [] {
      BoundaryScanLength(reduced, width, t, connectivity, holes[..|holes| - 1]);
      NeighbourScanLength(reduced, width, t, connectivity, holes[|holes| - 1], 2);
    }
  }

  lemma {:induction false} ColumnScanAsEight(reduced: seq<byte>, width: int, t: real, connectivity: int,
                                             p: Pixel, dx: int, yEnd: int)
    requires connectivity != FOUR && -1 <= yEnd <= 2
    decreases yEnd + 1
    ensures ColumnScan(reduced, width, t, connectivity, p, dx, yEnd) == ColumnScan(reduced, width, t, EIGHT, p, dx, yEnd)
  {
    if yEnd > -1 {
      ColumnScanAsEight(reduced, width, t, connectivity, p, dx, yEnd - 1);
    }
  }

  lemma {:induction false} NeighbourScanAsEight(reduced: seq<byte>, width: int, t: real, connectivity: int,
                                                p: Pixel, xEnd: int)
    requires connectivity != FOUR && -1 <= xEnd <= 2
    decreases xEnd + 1
    ensures NeighbourScan(reduced, width, t, connectivity, p, xEnd) == NeighbourScan(reduced, width, t, EIGHT, p, xEnd)
  {
    if xEnd > -1 {
      NeighbourScanAsEight(reduced, width, t, connectivity, p, xEnd - 1);
      ColumnScanAsEight(reduced, width, t, connectivity, p, xEnd - 1, 2);
    }
  }

  /** Every connectivity value other than FOUR behaves as EIGHT. */
  lemma {:induction false} OtherModesActAsEight(reduced: seq<byte>, width: int, t: real, connectivity: int,
                                                holes: seq<Pixel>)
    requires connectivity != FOUR
    decreases |holes|
    ensures BoundaryScan(reduced, width, t, connectivity, holes) == BoundaryScan(reduced, width, t, EIGHT, holes)
  {
    if holes != [] {
      OtherModesActAsEight(reduced, width, t, connectivity, holes[..|holes| - 1]);
      NeighbourScanAsEight(reduced, width, t, connectivity, holes[|holes| - 1], 2);
    }
  }

  /** `a` is obtained from `b` by deleting elements, keeping the order of the rest. */
  predicate Subsequence(a: seq<Pixel>, b: seq<Pixel>)
    decreases |b|
  {
    a == [] || (b != [] && ((a[0] == b[0] && Subsequence(a[1..], b[1..])) || Subsequence(a, b[1..])))
  }

  lemma {:induction false} SubsequenceSelf(a: seq<Pixel>)
    decreases |a|
    ensures Subsequence(a, a)
  {
    if a != [] {
      SubsequenceSelf(a[1..]);
    }
  }

  lemma {:induction false} SubsequenceExtend(a: seq<Pixel>, b1: seq<Pixel>, b2: seq<Pixel>)
    requires Subsequence(a, b2)
    decreases |b1|
    ensures Subsequence(a, b1 + b2)
  {
    if b1 == [] {
      assert b1 + b2 == b2;
    } else if a != [] {
      SubsequenceExtend(a, b1[1..], b2);
      assert (b1 + b2)[1..] == b1[1..] + b2;
    }
  }

  lemma {:induction false} SubsequenceConcat(a1: seq<Pixel>, b1: seq<Pixel>, a2: seq<Pixel>, b2: seq<Pixel>)
    requires Subsequence(a1, b1) && Subsequence(a2, b2)
    decreases |b1|
    ensures Subsequence(a1 + a2, b1 + b2)
  {
    if a1 == [] {
      assert a1 + a2 == a2;
      SubsequenceExtend(a2, b1, b2);
    } else if a1[0] == b1[0] && Subsequence(a1[1..], b1[1..]) {
      SubsequenceConcat(a1[1..], b1[1..], a2, b2);
      assert (a1 + a2)[1..] == a1[1..] + a2;
      assert (b1 + b2)[1..] == b1[1..] + b2;
    } else {
      SubsequenceConcat(a1, b1[1..], a2, b2);
      assert (b1 + b2)[1..] == b1[1..] + b2;
    }
  }

  lemma {:induction false} ColumnScanFourInEight(reduced: seq<byte>, width: int, t: real,
                                                 p: Pixel, dx: int, yEnd: int)
    requires -1 <= yEnd <= 2
    decreases yEnd + 1
    ensures Subsequence(ColumnScan(reduced, width, t, FOUR, p, dx, yEnd),
                        ColumnScan(reduced, width, t, EIGHT, p, dx, yEnd))
  {
    if yEnd == -1 {
    } else {
      ColumnScanFourInEight(reduced, width, t, p, dx, yEnd - 1);
      var four := Visit(reduced, width, t, FOUR, p, dx, yEnd - 1);
      var eight := Visit(reduced, width, t, EIGHT, p, dx, yEnd - 1);
      if four == [] {
        assert Subsequence(four, eight);
      } else {
        SubsequenceSelf(eight);
      }
      SubsequenceConcat(ColumnScan(reduced, width, t, FOUR, p, dx, yEnd - 1), ColumnScan(reduced, width, t, EIGHT, p, dx, yEnd - 1), four, eight);
    }
  }

  lemma {:induction false} NeighbourScanFourInEight(reduced: seq<byte>, width: int, t: real,
                                                    p: Pixel, xEnd: int)
    requires -1 <= xEnd <= 2
    decreases xEnd + 1
    ensures Subsequence(NeighbourScan(reduced, width, t, FOUR, p, xEnd),
                        NeighbourScan(reduced, width, t, EIGHT, p, xEnd))
  {
    if xEnd == -1 {
    } else {
      NeighbourScanFourInEight(reduced, width, t, p, xEnd - 1);
      ColumnScanFourInEight(reduced, width, t, p, xEnd - 1, 2);
      SubsequenceConcat(NeighbourScan(reduced, width, t, FOUR, p, xEnd - 1), NeighbourScan(reduced, width, t, EIGHT, p, xEnd - 1),
                        ColumnScan(reduced, width, t, FOUR, p, xEnd - 1, 2), ColumnScan(reduced, width, t, EIGHT, p, xEnd - 1, 2));
    }
  }

  /** The FOUR output is the EIGHT output with the diagonal neighbours removed: a subsequence. */
  lemma {:induction false} FourIsSubsequenceOfEight(reduced: seq<byte>, width: int, t: real, holes: seq<Pixel>)
    decreases |holes|
    ensures Subsequence(BoundaryScan(reduced, width, t, FOUR, holes),
                        BoundaryScan(reduced, width, t, EIGHT, holes))
  {
    if holes != [] {
      var init, last := holes[..|holes| - 1], holes[|holes| - 1];
      FourIsSubsequenceOfEight(reduced, width, t, init);
      NeighbourScanFourInEight(reduced, width, t, last, 2);
      SubsequenceConcat(BoundaryScan(reduced, width, t, FOUR, init), BoundaryScan(reduced, width, t, EIGHT, init),
                        NeighbourScan(reduced, width, t, FOUR, last, 2), NeighbourScan(reduced, width, t, EIGHT, last, 2));
    }
  }
}
