/**
 * The three coordinate conventions of korpuskulum, named apart:
 * particle coordinates are (Z, X, Y) triples, membrane pixels are
 * (row, col) pairs as np.argwhere reports them, and displacements are
 * real 2D vectors in nanometres.
 */
module Axes {

  /** A particle coordinate after loading, in the (Z, X, Y) order. */
  datatype Coord = Coord(z: int, x: int, y: int) {
    /** The coordinate as a numpy row `[z, x, y]`. */
    function Row(): (r: seq<int>)
      ensures |r| == 3 && r[0] == z && r[1] == x && r[2] == y
    {
      [z, x, y]
    }
  }

  /** A pixel of one slice, (row, col). */
  datatype Pixel = Pixel(row: int, col: int)

  /** A displacement in nanometres, (d0, d1). */
  datatype Vec = Vec(d0: real, d1: real)

  /** Row-major order of pixels, the order np.argwhere lists them in. */
  predicate PixelBefore(p: Pixel, q: Pixel)
  {
    p.row < q.row || (p.row == q.row && p.col < q.col)
  }

  /** The integer squared Euclidean distance between two pixels. */
  function SqDist(p: Pixel, q: Pixel): int
  {
    (p.row - q.row) * (p.row - q.row) + (p.col - q.col) * (p.col - q.col)
  }

  lemma SqDistZero(p: Pixel, q: Pixel)
    ensures SqDist(p, q) >= 0
    ensures SqDist(p, q) == 0 <==> p == q
  {
    var a, b := p.row - q.row, p.col - q.col;
    assert a * a >= 0 && b * b >= 0;
    if a != 0 { assert a * a > 0; }
    if b != 0 { assert b * b > 0; }
  }
}
