/**
 * The slope that `np.polyfit(*seg_mask.T, deg=1)[0]` returns at
 * korpuskulum/eval.py line 60, in closed form. The mask's transpose is
 * unpacked as (rows, cols), so the fit takes the row as x and the column as
 * y: it fits column as a linear function of row.
 *
 * Least squares over integer pixels: with n pixels, Sx = sum of rows,
 * Sxx = sum of squared rows, Sy = sum of columns, Sxy = sum of row*col,
 * the slope is (n*Sxy - Sx*Sy) / (n*Sxx - Sx*Sx). The denominator, the
 * spread of the rows, is zero exactly when all rows are equal. numpy then
 * raises when that row is 0 (modelled in Eval as FitDidNotConverge) and
 * otherwise solves a rank-deficient system, which this model does not
 * follow.
 */
module MaskFit {
  import opened Wrappers
  import opened Axes

  function SumRow(m: seq<Pixel>): int
  {
    if m == [] then 0 else SumRow(m[..|m| - 1]) + m[|m| - 1].row
  }

  function SumRowSq(m: seq<Pixel>): int
  {
    if m == [] then 0 else SumRowSq(m[..|m| - 1]) + m[|m| - 1].row * m[|m| - 1].row
  }

  function SumCol(m: seq<Pixel>): int
  {
    if m == [] then 0 else SumCol(m[..|m| - 1]) + m[|m| - 1].col
  }

  function SumRowCol(m: seq<Pixel>): int
  {
    if m == [] then 0 else SumRowCol(m[..|m| - 1]) + m[|m| - 1].row * m[|m| - 1].col
  }

  /** Sum of the squared deviations of the rows from x. */
  function SqDev(m: seq<Pixel>, x: int): int
  {
    if m == [] then 0 else SqDev(m[..|m| - 1], x) + (m[|m| - 1].row - x) * (m[|m| - 1].row - x)
  }

  /** n * Sxx - Sx * Sx, the denominator of the slope. */
  function Spread(m: seq<Pixel>): int
  {
    |m| * SumRowSq(m) - SumRow(m) * SumRow(m)
  }

  /** Every pixel of the mask lies in one row. */
  predicate SingleRow(m: seq<Pixel>)
  {
    forall i, j :: 0 <= i < |m| && 0 <= j < |m| ==> m[i].row == m[j].row
  }

  /**
   * The least-squares slope of column against row; None when every pixel
   * lies in one row, where the fit is rank-deficient.
   */
  function LeastSquaresSlope(mask: seq<Pixel>): (slope: Option<real>)
    ensures slope.None? <==> SingleRow(mask)
  {
    SpreadZeroIff(mask);
    var d := Spread(mask);
    if d == 0 then None
    else Some((|mask| * SumRowCol(mask) - SumRow(mask) * SumCol(mask)) as real / d as real)
  }

  /** One step of the expansion of the squared deviations, as plain algebra. */
  lemma ExpandStep(dev: int, q: int, s: int, n: int, r: int, x: int)
    requires dev == q - 2 * x * s + n * x * x
    ensures dev + (r - x) * (r - x) == (q + r * r) - 2 * x * (s + r) + (n + 1) * x * x
  {
    assert (r - x) * (r - x) == r * r - 2 * x * r + x * x;
    assert (n + 1) * x * x == n * x * x + x * x;
    assert 2 * x * (s + r) == 2 * x * s + 2 * x * r;
  }

  lemma {:induction false} SqDevExpand(m: seq<Pixel>, x: int)
    ensures SqDev(m, x) == SumRowSq(m) - 2 * x * SumRow(m) + |m| * x * x
    decreases |m|
  {
    if m != [] {
      var init := m[..|m| - 1];
      var r := m[|m| - 1].row;
      SqDevExpand(init, x);
      ExpandStep(SqDev(init, x), SumRowSq(init), SumRow(init), |init|, r, x);
    }
  }

  lemma SquareSign(d: int)
    ensures d * d >= 0
    ensures d != 0 ==> d * d > 0
  {
  }

  lemma {:induction false} SqDevZeroIff(m: seq<Pixel>, x: int)
    ensures SqDev(m, x) >= 0
    ensures SqDev(m, x) == 0 <==> forall i :: 0 <= i < |m| ==> m[i].row == x
    decreases |m|
  {
    if m != [] {
      var init := m[..|m| - 1];
      var r := m[|m| - 1].row;
      SqDevZeroIff(init, x);
      SquareSign(r - x);
      var last := (r - x) * (r - x);
      assert SqDev(m, x) == SqDev(init, x) + last;
      assert forall i :: 0 <= i < |init| ==> init[i] == m[i];
      if SqDev(m, x) == 0 {
        assert SqDev(init, x) == 0 && last == 0;
      }
    }
  }

  lemma SpreadAlgebra(n: int, q: int, s: int, x: int)
    ensures (n + 1) * (q + x * x) - (s + x) * (s + x) == (n * q - s * s) + (q - 2 * x * s + n * x * x)
  {
    assert (n + 1) * (q + x * x) == n * q + n * (x * x) + q + x * x;
    assert (s + x) * (s + x) == s * s + 2 * x * s + x * x;
    assert n * (x * x) == n * x * x;
  }

  /** Adding one pixel adds its squared deviations from the others to the spread. */
  lemma SpreadStep(m: seq<Pixel>, p: Pixel)
    ensures Spread(m + [p]) == Spread(m) + SqDev(m, p.row)
  {
    var m' := m + [p];
    assert m'[..|m'| - 1] == m;
    var n, q, s, x := |m|, SumRowSq(m), SumRow(m), p.row;
    assert SumRowSq(m') == q + x * x;
    assert SumRow(m') == s + x;
    SqDevExpand(m, x);
    SpreadAlgebra(n, q, s, x);
  }

  /** The spread is never negative and is zero exactly for a mask in one row. */
  lemma {:induction false} SpreadZeroIff(m: seq<Pixel>)
    ensures Spread(m) >= 0
    ensures Spread(m) == 0 <==> SingleRow(m)
    decreases |m|
  {
    if m != [] {
      var init := m[..|m| - 1];
      var p := m[|m| - 1];
      assert m == init + [p];
      SpreadZeroIff(init);
      SpreadStep(init, p);
      SqDevZeroIff(init, p.row);
      if SingleRow(m) {
        assert SingleRow(init);
        assert forall i :: 0 <= i < |init| ==> init[i].row == p.row by {
          forall i | 0 <= i < |init| ensures init[i].row == p.row {
            assert m[i] == init[i] && m[|m| - 1] == p;
          }
        }
      }
      if Spread(m) == 0 {
        assert forall i :: 0 <= i < |init| ==> init[i].row == p.row;
        forall i, j | 0 <= i < |m| && 0 <= j < |m| ensures m[i].row == m[j].row {
          assert m[i].row == p.row && m[j].row == p.row;
        }
      }
    }
  }

  lemma RealProduct(x: int, y: int)
    ensures (x * y) as real == x as real * y as real
  {
  }

  /**
   * The pixel lies on the line q * col = num * row + off, the line
   * col = (num / q) * row + off / q. Every line through two pixels in
   * different rows can be written so with integers.
   */
  predicate OnLine(p: Pixel, num: int, off: int, q: int)
  {
    q * p.col == num * p.row + off
  }

  /** One step of the sums over a line, as plain algebra. */
  lemma LineStep(sr: int, srr: int, k: int, sc: int, src: int, x: int, y: int, num: int, off: int, q: int)
    requires q * sc == num * sr + k * off
    requires q * src == num * srr + off * sr
    requires q * y == num * x + off
    ensures q * (sc + y) == num * (sr + x) + (k + 1) * off
    ensures q * (src + x * y) == num * (srr + x * x) + off * (sr + x)
  {
    assert q * (x * y) == (q * y) * x;
    assert (num * x + off) * x == num * (x * x) + off * x;
  }

  /** Over pixels on a line, the column sums are fixed by the row sums. */
  lemma {:induction false} LineSums(m: seq<Pixel>, num: int, off: int, q: int)
    requires forall i :: 0 <= i < |m| ==> OnLine(m[i], num, off, q)
    ensures q * SumCol(m) == num * SumRow(m) + |m| * off
    ensures q * SumRowCol(m) == num * SumRowSq(m) + off * SumRow(m)
    decreases |m|
  {
    if m != [] {
      var init := m[..|m| - 1];
      var p := m[|m| - 1];
      assert forall i :: 0 <= i < |init| ==> init[i] == m[i];
      LineSums(init, num, off, q);
      assert OnLine(p, num, off, q);
      LineStep(SumRow(init), SumRowSq(init), |init|, SumCol(init), SumRowCol(init), p.row, p.col, num, off, q);
    }
  }

  lemma SlopeAlgebra(n: int, sx: int, sxx: int, sy: int, sxy: int, num: int, off: int, q: int)
    requires q * sy == num * sx + n * off
    requires q * sxy == num * sxx + off * sx
    ensures q * (n * sxy - sx * sy) == num * (n * sxx - sx * sx)
  {
    assert q * (n * sxy) == n * (q * sxy) == n * (num * sxx) + n * (off * sx);
    assert q * (sx * sy) == sx * (q * sy) == sx * (num * sx) + sx * (n * off);
    assert n * (num * sxx) - sx * (num * sx) == num * (n * sxx - sx * sx);
    assert n * (off * sx) == sx * (n * off);
  }

  /** Two fractions with q * top == num * bottom are equal. */
  lemma RatioEqual(top: int, bottom: int, num: int, q: int)
    requires q != 0 && bottom != 0
    requires q * top == num * bottom
    ensures top as real / bottom as real == num as real / q as real
  {
    RealProduct(q, top);
    RealProduct(num, bottom);
    var t, d, u, v := top as real, bottom as real, num as real, q as real;
    assert v * t == u * d;
    assert t / d == (v * t) / (v * d);
    assert u / v == (u * d) / (v * d);
  }

  /**
   * A mask whose pixels all lie on the line col = (num / q) * row + off / q,
   * over at least two rows, is fitted with slope exactly num / q: the fit
   * takes the row as x and the column as y.
   */
  lemma ExactLineSlope(mask: seq<Pixel>, num: int, off: int, q: int)
    requires q != 0
    requires !SingleRow(mask)
    requires forall i :: 0 <= i < |mask| ==> OnLine(mask[i], num, off, q)
    ensures LeastSquaresSlope(mask) == Some(num as real / q as real)
  {
    SpreadZeroIff(mask);
    LineSums(mask, num, off, q);
    var n, sx, sxx, sy, sxy := |mask|, SumRow(mask), SumRowSq(mask), SumCol(mask), SumRowCol(mask);
    SlopeAlgebra(n, sx, sxx, sy, sxy, num, off, q);
    RatioEqual(n * sxy - sx * sy, Spread(mask), num, q);
  }
}
