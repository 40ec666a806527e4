/**
 * Model of korpuskulum/io.py `load_coords`, past the file read: the axis
 * permutation `numerical_order` computed from the user's order string,
 * and the reordering of the columns into (Z, X, Y).
 */
module CoordIO {
  import opened Wrappers
  import opened Axes

  /** The internal axis order; numerical_order[k] locates ZXY[k] in the user's order. */
  const ZXY: string := "zxy"

  /** str.lower on ASCII letters. */
  function LowerChar(c: char): char
  {
    if 'A' <= c <= 'Z' then (c as int + 32) as char else c
  }

  /** str.lower, character by character: ASCII capitals lowered, every other character kept. */
  function Lower(s: string): (r: string)
    ensures |r| == |s|
  {
    seq(|s|, i requires 0 <= i < |s| => LowerChar(s[i]))
  }

  /** i is the first position of c in s. */
  predicate IsFirstIndex(s: string, c: char, i: int)
  {
    0 <= i < |s| && s[i] == c && forall j :: 0 <= j < i ==> s[j] != c
  }

  /** str.index: the first position of c in s, or None where Python raises ValueError. */
  function Index(s: string, c: char): (r: Option<nat>)
    ensures r.None? <==> c !in s
    ensures r.Some? ==> IsFirstIndex(s, c, r.value)
  {
    if s == [] then None
    else if s[0] == c then Some(0)
    else
      match Index(s[1..], c)
      case None => None
      case Some(i) => Some(i + 1)
  }

  /**
   * numerical_order = [order.lower().index(i) for i in "zxy"]: entry k is
   * the first position of "zxy"[k] in the lowered order string; None
   * (ValueError) when a letter is missing.
   */
  function NumericalOrder(order: string): (r: Option<seq<nat>>)
    ensures r.None? <==> exists k :: 0 <= k < 3 && ZXY[k] !in Lower(order)
    ensures r.Some? ==> (|r.value| == 3 &&
      forall k :: 0 <= k < 3 ==> IsFirstIndex(Lower(order), ZXY[k], r.value[k]))
  {
    var low := Lower(order);
    assert ZXY[0] == 'z' && ZXY[1] == 'x' && ZXY[2] == 'y';
    match (Index(low, 'z'), Index(low, 'x'), Index(low, 'y'))
    case (Some(iz), Some(ix), Some(iy)) => Some([iz, ix, iy])
    case _ => None
  }

  /** p is a permutation of {0, 1, 2}. */
  predicate IsPermutation3(p: seq<nat>)
  {
    |p| == 3 && p[0] < 3 && p[1] < 3 && p[2] < 3 && p[0] != p[1] && p[0] != p[2] && p[1] != p[2]
  }

  /** The order string names each of z, x and y once, in either case. */
  predicate IsAxisOrder(order: string)
  {
    |order| == 3 && multiset(Lower(order)) == multiset(ZXY)
  }

  /** "zxy" is the identity, "xyz" gives [2, 0, 1], and the upper-case "ZXY" reads like "zxy". */
  lemma NumericalOrderExamples()
    ensures NumericalOrder("zxy") == Some([0, 1, 2])
    ensures NumericalOrder("xyz") == Some([2, 0, 1])
    ensures NumericalOrder("ZXY") == Some([0, 1, 2])
  {
    assert Lower("zxy") == "zxy";
    assert Lower("xyz") == "xyz";
    assert Lower("ZXY") == "zxy";
  }

  /** An order string that is a case-insensitive permutation of "zxy" gives a permutation of {0, 1, 2}. */
  lemma AxisOrderGivesPermutation(order: string)
    requires IsAxisOrder(order)
    ensures NumericalOrder(order).Some?
    ensures IsPermutation3(NumericalOrder(order).value)
  {
    var low := Lower(order);
    assert forall k :: 0 <= k < 3 ==> ZXY[k] in multiset(low) by {
      assert forall k :: 0 <= k < 3 ==> ZXY[k] in multiset(ZXY);
    }
    var p := NumericalOrder(order).value;
    assert low[p[0]] == 'z' && low[p[1]] == 'x' && low[p[2]] == 'y';
  }

  /**
   * data[:, numerical_order]: every row is reordered so that output column
   * k is input column order[k]; None (IndexError) when an index is not a
   * column of the data.
   */
  function ReorderColumns(data: seq<seq<int>>, width: nat, order: seq<nat>): (r: Option<seq<seq<int>>>)
    requires forall i :: 0 <= i < |data| ==> |data[i]| == width
    ensures r.None? <==> exists k :: 0 <= k < |order| && order[k] >= width
    ensures r.Some? ==> (|r.value| == |data| &&
      forall i :: 0 <= i < |data| ==> (|r.value[i]| == |order| &&
        forall k :: 0 <= k < |order| ==> r.value[i][k] == data[i][order[k]]))
  {
    if exists k :: 0 <= k < |order| && order[k] >= width then None
    else Some(seq(|data|, i requires 0 <= i < |data| =>
      seq(|order|, k requires 0 <= k < |order| => data[i][order[k]])))
  }

  /**
   * load_coords after np.loadtxt: the coordinates in (Z, X, Y) order and
   * the numerical order that produced them.
   */
  function LoadCoords(data: seq<seq<int>>, width: nat, order: string): (r: Option<(seq<Coord>, seq<nat>)>)
    requires forall i :: 0 <= i < |data| ==> |data[i]| == width
    ensures r.None? <==> (NumericalOrder(order).None? ||
      exists k :: 0 <= k < 3 && NumericalOrder(order).value[k] >= width)
    ensures r.Some? ==> (r.value.1 == NumericalOrder(order).value && |r.value.0| == |data| &&
      forall i :: 0 <= i < |data| ==>
        r.value.0[i] == Coord(data[i][r.value.1[0]], data[i][r.value.1[1]], data[i][r.value.1[2]]))
  {
    match NumericalOrder(order)
    case None => None
    case Some(numericalOrder) =>
      match ReorderColumns(data, width, numericalOrder)
      case None => None
      case Some(rows) =>
        Some((seq(|rows|, i requires 0 <= i < |rows| => Coord(rows[i][0], rows[i][1], rows[i][2])), numericalOrder))
  }
}
