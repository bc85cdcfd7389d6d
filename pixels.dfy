/**
 * Pixel coordinates and the row-major addressing shared by every buffer of
 * the inpainting engine, plus the integer part of the Euclidean distance.
 *
 * One addressing convention is used throughout: pixel (x, y) of an image
 * whose rows are `width` cells long lives at linear index x * width + y.
 */
module Pixels {

  /** A pixel coordinate; x selects the row and y the column. */
  datatype Pixel = Pixel(x: int, y: int)

  /** Linear index of `p` in a row-major buffer with rows of `width` cells. */
  function Index(p: Pixel, width: int): int {
    p.x * width + p.y
  }

  /** Some pixel of `ps` is stored at linear index `i`. */
  predicate Covers(ps: seq<Pixel>, width: int, i: int) {
    exists p :: p in ps && Index(p, width) == i
  }

  /** Every pixel of `ps` addresses a cell of a buffer of `n` cells. */
  predicate Addressable(ps: seq<Pixel>, width: int, n: int) {
    forall p :: p in ps ==> 0 <= Index(p, width) < n
  }

  /**
   * The integer squared distance that euclideanDistance computes before
   * taking the square root: (a.x - b.x)^2 + (a.y - b.y)^2.
   */
  function SquaredDistance(a: Pixel, b: Pixel): int {
    var dx, dy := a.x - b.x, a.y - b.y;
    dx * dx + dy * dy
  }

  lemma SquareOfNonzero(d: int)
    requires d != 0
    ensures d * d > 0
  {
    if d < 0 {
      assert d * d == (-d) * (-d);
    }
  }

  /** The squared distance is non-negative and vanishes exactly on equal pixels. */
  lemma SquaredDistanceZero(a: Pixel, b: Pixel)
    ensures SquaredDistance(a, b) >= 0
    ensures SquaredDistance(a, b) == 0 <==> a == b
  {
    var dx, dy := a.x - b.x, a.y - b.y;
    assert dx * dx >= 0 && dy * dy >= 0 by {
      if dx != 0 { SquareOfNonzero(dx); }
      if dy != 0 { SquareOfNonzero(dy); }
    }
    if a != b {
      if dx != 0 { SquareOfNonzero(dx); } else { SquareOfNonzero(dy); }
    }
  }

  /** The squared distance does not depend on the order of its arguments. */
  lemma SquaredDistanceSymmetric(a: Pixel, b: Pixel)
    ensures SquaredDistance(a, b) == SquaredDistance(b, a)
  {
    assert (a.x - b.x) * (a.x - b.x) == (b.x - a.x) * (b.x - a.x);
    assert (a.y - b.y) * (a.y - b.y) == (b.y - a.y) * (b.y - a.y);
  }

  /** Multiplication by a non-negative factor is monotone. */
  lemma MulMonotone(a: int, b: int, c: int)
    requires a <= b && 0 <= c
    ensures a * c <= b * c
  {
    assert b * c - a * c == (b - a) * c;
  }

  /**
   * Cell (x, y) of a rows-by-width image has an index inside the image,
   * and the `channels` bytes of that cell lie inside rows * width * channels.
   */
  lemma CellInImage(x: int, y: int, rows: int, width: int, channels: nat)
    requires 0 <= x < rows && 0 <= y < width
    ensures 0 <= x * width + y < rows * width
    ensures (x * width + y + 1) * channels <= rows * width * channels
  {
    MulMonotone(0, x, width);
    MulMonotone(x + 1, rows, width);
    MulMonotone(x * width + y + 1, rows * width, channels);
  }
}
