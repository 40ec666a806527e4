/**
 * Model of korpuskulum/eval.py: `get_distribution`, the per-slice
 * membrane-side evaluator.
 *
 * For each requested Z slice it takes the membrane pixels (value 1), keeps
 * the particles of that slice in input order, pairs each particle with the
 * first nearest membrane pixel, scales the displacement by the pixel size
 * and labels the particle's side by the sign of a dot product with the
 * normal of a linear fit of the membrane.
 *
 * The least-squares slope (np.polyfit) is a parameter `fit` of the
 * evaluator; module MaskFit gives its closed form.
 */
module Eval {
  import opened Wrappers
  import opened Axes

  /** One Z slice of the segmentation volume, indexed [row][col]. */
  type Slice = seq<seq<int>>

  /** The segmentation volume, indexed [Z][row][col]. */
  type Volume = seq<Slice>

  /**
   * One element of the list get_distribution returns: the distance
   * vectors, the slice number repeated once per particle, the side labels
   * and the retained particle coordinates of one slice.
   */
  datatype Entry = Entry(distribution: seq<Vec>, sliceList: seq<int>, orientations: seq<int>, trimmed: seq<Coord>)

  /** The exceptions get_distribution lets escape: two IndexErrors and the LinAlgError of np.polyfit. */
  datatype EvalError =
    | SliceIndexOutOfRange(sliceNo: int)   // seg_map[slice_no] at line 46
    | NoParticlesInSlice(sliceNo: int)     // trimmed_coords_slice[:, [2, 1]] at line 48
    | FitDidNotConverge(sliceNo: int)      // np.polyfit at line 60, a LinAlgError

  /** The four parallel sequences of an entry have one element per retained particle. */
  predicate Aligned(e: Entry)
  {
    |e.distribution| == |e.sliceList| == |e.orientations| == |e.trimmed|
  }

  /** Python indexing of a sequence of length n: negative indices count from the end. */
  function PyIndex(n: nat, i: int): (k: Option<nat>)
    ensures k.Some? <==> -(n as int) <= i < n
    ensures k.Some? ==> k.value < n && k.value == if i >= 0 then i else i + n
  {
    if 0 <= i < n then Some(i)
    else if -(n as int) <= i < 0 then Some(i + n)
    else None
  }

  // ---------------------------------------------------------------------
  // np.argwhere(seg_map[slice_no] == 1)
  // ---------------------------------------------------------------------

  /** The pixels (r, c) with c >= from of one row whose value is 1, by column. */
  function RowPixels(row: seq<int>, r: int, from: nat): (ps: seq<Pixel>)
    ensures forall p :: p in ps <==> p.row == r && from <= p.col < |row| && row[p.col] == 1
    ensures forall i, j :: 0 <= i < j < |ps| ==> ps[i].row == r && ps[i].col < ps[j].col
    decreases |row| - from
  {
    if from >= |row| then []
    else
      var rest := RowPixels(row, r, from + 1);
      assert forall p :: p in rest ==> p.col > from;
      if row[from] == 1 then [Pixel(r, from)] + rest else rest
  }

  /** The pixels of rows from `from` on whose value is 1, in row-major order. */
  function PixelsFromRow(slice: Slice, from: nat): (ps: seq<Pixel>)
    ensures forall p :: p in ps <==>
      from <= p.row < |slice| && 0 <= p.col < |slice[p.row]| && slice[p.row][p.col] == 1
    ensures forall i, j :: 0 <= i < j < |ps| ==> PixelBefore(ps[i], ps[j])
    decreases |slice| - from
  {
    if from >= |slice| then []
    else
      var here := RowPixels(slice[from], from, 0);
      var rest := PixelsFromRow(slice, from + 1);
      assert forall i, j :: 0 <= i < |here| && 0 <= j < |rest| ==> PixelBefore(here[i], rest[j]) by {
        forall i, j | 0 <= i < |here| && 0 <= j < |rest| ensures PixelBefore(here[i], rest[j]) {
          assert here[i] in here && rest[j] in rest;
        }
      }
      here + rest
  }

  /**
   * The membrane mask of a slice: every position whose value is 1, each
   * once, in the row-major order np.argwhere lists them in.
   */
  function MembranePixels(slice: Slice): (mask: seq<Pixel>)
    ensures forall p :: p in mask <==>
      0 <= p.row < |slice| && 0 <= p.col < |slice[p.row]| && slice[p.row][p.col] == 1
    ensures forall i, j :: 0 <= i < j < |mask| ==> PixelBefore(mask[i], mask[j])
  {
    PixelsFromRow(slice, 0)
  }

  // ---------------------------------------------------------------------
  // [i for i in coords if i[0] == slice_no]
  // ---------------------------------------------------------------------

  /** The particles whose Z equals the slice number, in input order. */
  function ParticlesInSlice(coords: seq<Coord>, sliceNo: int): (trimmed: seq<Coord>)
    ensures forall c :: c in trimmed <==> c in coords && c.z == sliceNo
    ensures |trimmed| <= |coords|
  {
    if coords == [] then []
    else
      (if coords[0].z == sliceNo then [coords[0]] else []) + ParticlesInSlice(coords[1..], sliceNo)
  }

  /** Filtering keeps input order: it distributes over concatenation. */
  lemma {:induction false} ParticlesInSliceSplit(a: seq<Coord>, b: seq<Coord>, sliceNo: int)
    ensures ParticlesInSlice(a + b, sliceNo) == ParticlesInSlice(a, sliceNo) + ParticlesInSlice(b, sliceNo)
  {
    if a != [] {
      assert (a + b)[1..] == a[1..] + b;
      ParticlesInSliceSplit(a[1..], b, sliceNo);
    } else {
      assert a + b == b;
    }
  }

  /** Filtering the retained particles again by the same slice returns them unchanged. */
  lemma {:induction false} ParticlesInSliceIdempotent(coords: seq<Coord>, sliceNo: int)
    ensures ParticlesInSlice(ParticlesInSlice(coords, sliceNo), sliceNo) == ParticlesInSlice(coords, sliceNo)
  {
    if coords != [] {
      var rest := ParticlesInSlice(coords[1..], sliceNo);
      ParticlesInSliceIdempotent(coords[1..], sliceNo);
      if coords[0].z == sliceNo {
        var once := [coords[0]] + rest;
        assert once[0] == coords[0] && once[1..] == rest;
        assert ParticlesInSlice(coords, sliceNo) == once;
        assert ParticlesInSlice(once, sliceNo) == [coords[0]] + ParticlesInSlice(rest, sliceNo);
      } else {
        assert ParticlesInSlice(coords, sliceNo) == rest;
      }
    }
  }

  // ---------------------------------------------------------------------
  // Nearest membrane pixel, distance vector, normal and side label
  // ---------------------------------------------------------------------

  /**
   * The 2D projection coords_slice_2d = coords[:, [2, 1]]: the particle's Y
   * is compared with the mask row and its X with the mask column.
   */
  function Projection(c: Coord): (p: Pixel)
    ensures [p.row, p.col] == [c.Row()[2], c.Row()[1]]
    ensures Coord(c.z, p.col, p.row) == c
  {
    Pixel(c.y, c.x)
  }

  /**
   * k is what np.argmin returns over the distances from p to the mask: a
   * position at minimum distance, and the first such position. Squared
   * integer distances order the pixels as the Euclidean ones do.
   */
  predicate IsFirstNearest(mask: seq<Pixel>, p: Pixel, k: int)
  {
    && 0 <= k < |mask|
    && (forall j :: 0 <= j < |mask| ==> SqDist(mask[k], p) <= SqDist(mask[j], p))
    && (forall j :: 0 <= j < k ==> SqDist(mask[k], p) < SqDist(mask[j], p))
  }

  /** The first index of a mask pixel nearest to p (np.argmin along axis 0). */
  function Nearest(mask: seq<Pixel>, p: Pixel): (k: nat)
    requires |mask| > 0
    ensures IsFirstNearest(mask, p, k)
    decreases |mask|
  {
    if |mask| == 1 then 0
    else
      var k := Nearest(mask[..|mask| - 1], p);
      if SqDist(mask[|mask| - 1], p) < SqDist(mask[k], p) then |mask| - 1 else k
  }

  /** At most one index is the first nearest one. */
  lemma FirstNearestUnique(mask: seq<Pixel>, p: Pixel, k1: int, k2: int)
    requires IsFirstNearest(mask, p, k1) && IsFirstNearest(mask, p, k2)
    ensures k1 == k2
  {
    var d1, d2 := SqDist(mask[k1], p), SqDist(mask[k2], p);
    assert d1 == d2;
    assert k1 < k2 ==> d2 < d1;
    assert k2 < k1 ==> d1 < d2;
  }

  /** (projection - nearest mask pixel) * pixel_size_nm. */
  function Displacement(m: Pixel, c: Coord, pixelSizeNm: real): Vec
  {
    var p := Projection(c);
    Vec((p.row - m.row) as real * pixelSizeNm, (p.col - m.col) as real * pixelSizeNm)
  }

  /**
   * The distance vector is zero when the pixel size is 0, and otherwise
   * exactly when the particle projects onto the pixel.
   */
  lemma DisplacementZeroIff(m: Pixel, c: Coord, pixelSizeNm: real)
    ensures pixelSizeNm == 0.0 ==> Displacement(m, c, pixelSizeNm) == Vec(0.0, 0.0)
    ensures pixelSizeNm != 0.0 ==> (Displacement(m, c, pixelSizeNm) == Vec(0.0, 0.0) <==> Projection(c) == m)
  {
  }

  /**
   * The fit normal: (-slope, 1), negated in place when its second
   * component is positive. That component is the literal 1, so the
   * negation always happens and the normal is (slope, -1).
   */
  function SurfaceNormal(slope: real): (n: Vec)
    ensures n.d1 <= 0.0
    ensures n == Vec(slope, -1.0)
  {
    var n := Vec(-slope, 1.0);
    if n.d1 > 0.0 then Vec(-n.d0, -n.d1) else n
  }

  /** (dot(d, n) >= 0).astype(int) */
  function Orientation(d: Vec, n: Vec): (side: int)
    ensures side == 0 || side == 1
  {
    if d.d0 * n.d0 + d.d1 * n.d1 >= 0.0 then 1 else 0
  }

  /**
   * Negating the normal swaps the two labels of every vector off the
   * membrane line; a vector on the line is labelled 1 either way.
   */
  lemma OrientationNormalFlip(d: Vec, n: Vec)
    ensures d.d0 * n.d0 + d.d1 * n.d1 != 0.0 ==> Orientation(d, Vec(-n.d0, -n.d1)) == 1 - Orientation(d, n)
    ensures d.d0 * n.d0 + d.d1 * n.d1 == 0.0 ==> Orientation(d, Vec(-n.d0, -n.d1)) == Orientation(d, n) == 1
  {
    assert d.d0 * -n.d0 + d.d1 * -n.d1 == -(d.d0 * n.d0 + d.d1 * n.d1);
  }

  /** The distance vector of one particle: the displacement to its first nearest mask pixel. */
  function NearestDisplacement(mask: seq<Pixel>, c: Coord, pixelSizeNm: real): (v: Vec)
    requires |mask| > 0
    ensures forall k :: IsFirstNearest(mask, Projection(c), k) ==> v == Displacement(mask[k], c, pixelSizeNm)
  {
    var k := Nearest(mask, Projection(c));
    assert forall k' :: IsFirstNearest(mask, Projection(c), k') ==> k' == k by {
      forall k' | IsFirstNearest(mask, Projection(c), k') ensures k' == k {
        FirstNearestUnique(mask, Projection(c), k', k);
      }
    }
    Displacement(mask[k], c, pixelSizeNm)
  }

  /** The side label of one distance vector against the normal of a fit of slope `slope`. */
  function SideLabel(d: Vec, slope: real): (side: int)
    ensures side == 0 || side == 1
    ensures side == 1 <==> d.d0 * slope - d.d1 >= 0.0
  {
    var n := SurfaceNormal(slope);
    assert d.d0 * n.d0 + d.d1 * n.d1 == d.d0 * slope - d.d1;
    Orientation(d, n)
  }

  /**
   * The entry of one slice whose mask is not empty (lines 55-68).
   * Every particle gets the displacement to its first nearest mask pixel
   * and the label 1 exactly when d0 * slope - d1 >= 0.
   */
  function SliceDistribution(mask: seq<Pixel>, trimmed: seq<Coord>, pixelSizeNm: real, slope: real, sliceNo: int)
    : (e: Entry)
    requires |mask| > 0
    ensures Aligned(e) && e.trimmed == trimmed
    ensures forall j :: 0 <= j < |e.sliceList| ==> e.sliceList[j] == sliceNo
    ensures forall j, k :: 0 <= j < |trimmed| && IsFirstNearest(mask, Projection(trimmed[j]), k) ==>
      e.distribution[j] == Displacement(mask[k], trimmed[j], pixelSizeNm)
    ensures forall j :: 0 <= j < |trimmed| ==> e.orientations[j] == 0 || e.orientations[j] == 1
    ensures forall j :: 0 <= j < |trimmed| ==>
      (e.orientations[j] == 1 <==> e.distribution[j].d0 * slope - e.distribution[j].d1 >= 0.0)
  {
    var distribution := seq(|trimmed|, j requires 0 <= j < |trimmed| => NearestDisplacement(mask, trimmed[j], pixelSizeNm));
    var sliceList := seq(|distribution|, _ => sliceNo);
    var orientations := seq(|distribution|, j requires 0 <= j < |distribution| => SideLabel(distribution[j], slope));
    Entry(distribution, sliceList, orientations, trimmed)
  }

  /** A particle lying on a membrane pixel gets the zero distance vector. */
  lemma OnMembraneZeroVector(mask: seq<Pixel>, c: Coord, pixelSizeNm: real)
    requires Projection(c) in mask
    ensures NearestDisplacement(mask, c, pixelSizeNm) == Vec(0.0, 0.0)
  {
    var p := Projection(c);
    NearestOnMask(mask, p);
    assert IsFirstNearest(mask, p, Nearest(mask, p));
  }

  /** A pixel of the mask is its own nearest mask pixel. */
  lemma NearestOnMask(mask: seq<Pixel>, p: Pixel)
    requires p in mask
    ensures mask[Nearest(mask, p)] == p
  {
    var k := Nearest(mask, p);
    var i :| 0 <= i < |mask| && mask[i] == p;
    assert SqDist(mask[k], p) <= SqDist(mask[i], p);
    SqDistZero(mask[i], p);
    SqDistZero(mask[k], p);
  }

  /** The zero vector, which every particle gets when pixel_size_nm is 0, is labelled 1. */
  lemma ZeroVectorLabelledOne(slope: real)
    ensures Orientation(Vec(0.0, 0.0), SurfaceNormal(slope)) == 1
  {
  }

  /** With pixel_size_nm == 0 every retained particle is labelled 1. */
  lemma {:induction false} ZeroPixelSizeAllOne(mask: seq<Pixel>, trimmed: seq<Coord>, slope: real, sliceNo: int)
    requires |mask| > 0
    ensures forall j :: 0 <= j < |trimmed| ==> SliceDistribution(mask, trimmed, 0.0, slope, sliceNo).orientations[j] == 1
  {
    var e := SliceDistribution(mask, trimmed, 0.0, slope, sliceNo);
    forall j | 0 <= j < |trimmed| ensures e.orientations[j] == 1 {
      var k := Nearest(mask, Projection(trimmed[j]));
      assert e.distribution[j] == Displacement(mask[k], trimmed[j], 0.0);
      assert e.distribution[j] == Vec(0.0, 0.0);
    }
  }

  // ---------------------------------------------------------------------
  // One slice, and the whole loop
  // ---------------------------------------------------------------------

  /**
   * The body of the loop for one slice number: an IndexError when the
   * slice index is out of range or no particle lies in the slice, no entry
   * when the mask is empty (pairwise_distances raises and the `except`
   * continues), a LinAlgError from np.polyfit when every mask pixel lies
   * in row 0, and otherwise the slice's entry.
   */
  function EvaluateSlice(segMap: Volume, coords: seq<Coord>, pixelSizeNm: real, fit: seq<Pixel> -> real, sliceNo: int)
    : (r: Result<Option<Entry>, EvalError>)
    ensures r.Failure? <==> SliceFails(segMap, coords, sliceNo)
    ensures r.Failure? ==> r.error == SliceError(segMap, coords, sliceNo)
    ensures r.Success? ==> (r.value.None? <==> MaskAt(segMap, sliceNo) == [])
  {
    match PyIndex(|segMap|, sliceNo)
    case None => Failure(SliceIndexOutOfRange(sliceNo))
    case Some(k) =>
      var segMask := MembranePixels(segMap[k]);
      var trimmed := ParticlesInSlice(coords, sliceNo);
      if |trimmed| == 0 then Failure(NoParticlesInSlice(sliceNo))
      else if |segMask| == 0 then Success(None)
      else if RowsAllZero(segMask) then Failure(FitDidNotConverge(sliceNo))
      else Success(Some(SliceDistribution(segMask, trimmed, pixelSizeNm, fit(segMask), sliceNo)))
  }

  /**
   * What get_distribution returns for a non-empty slice list, element by
   * element of the list: the first IndexError, or the entries of the
   * slices that produced one, in list order.
   */
  function Distribution(segMap: Volume, coords: seq<Coord>, pixelSizeNm: real, fit: seq<Pixel> -> real, sliceIdx: seq<int>)
    : Result<seq<Entry>, EvalError>
    decreases |sliceIdx|
  {
    if sliceIdx == [] then Success([])
    else
      match Distribution(segMap, coords, pixelSizeNm, fit, sliceIdx[..|sliceIdx| - 1])
      case Failure(e) => Failure(e)
      case Success(acc) =>
        match EvaluateSlice(segMap, coords, pixelSizeNm, fit, sliceIdx[|sliceIdx| - 1])
        case Failure(e) => Failure(e)
        case Success(None) => Success(acc)
        case Success(Some(entry)) => Success(acc + [entry])
  }

  /**
   * get_distribution. An empty slice list returns [] at once: the whole
   * stack is assigned to slice_idx, but the loop is in the else branch.
   */
  method GetDistribution(segMap: Volume, coords: seq<Coord>, pixelSizeNm: real, fit: seq<Pixel> -> real, sliceIdx: seq<int>)
    returns (r: Result<seq<Entry>, EvalError>)
    ensures r == Distribution(segMap, coords, pixelSizeNm, fit, sliceIdx)
    ensures sliceIdx == [] ==> r == Success([])
  {
    var fullDistroList: seq<Entry> := [];
    var slices := sliceIdx;
    if |slices| == 0 {
      slices := seq(|segMap|, z => z);
    } else {
      var i := 0;
      while i < |slices|
        invariant 0 <= i <= |slices| && slices == sliceIdx
        invariant Distribution(segMap, coords, pixelSizeNm, fit, slices[..i]) == Success(fullDistroList)
      {
        var sliceNo := slices[i];
        DistributionStep(segMap, coords, pixelSizeNm, fit, sliceIdx, i, fullDistroList);
        var k := PyIndex(|segMap|, sliceNo);
        if k.None? {
          r := Failure(SliceIndexOutOfRange(sliceNo));
          DistributionFailureSticks(segMap, coords, pixelSizeNm, fit, sliceIdx, i + 1);
          return;
        }
        var segMask := MembranePixels(segMap[k.value]);
        var trimmedCoordsSlice := ParticlesInSlice(coords, sliceNo);
        if |trimmedCoordsSlice| == 0 {
          r := Failure(NoParticlesInSlice(sliceNo));
          DistributionFailureSticks(segMap, coords, pixelSizeNm, fit, sliceIdx, i + 1);
          return;
        }
        if |segMask| == 0 {
          i := i + 1;
          continue;
        }
        if RowsAllZero(segMask) {
          r := Failure(FitDidNotConverge(sliceNo));
          DistributionFailureSticks(segMap, coords, pixelSizeNm, fit, sliceIdx, i + 1);
          return;
        }
        var maskFitSlope := fit(segMask);
        var entry := SliceDistribution(segMask, trimmedCoordsSlice, pixelSizeNm, maskFitSlope, sliceNo);
        fullDistroList := fullDistroList + [entry];
        i := i + 1;
      }
      assert slices[..i] == sliceIdx;
    }
    r := Success(fullDistroList);
  }

  /** One more slice extends a successful prefix by what that slice evaluates to. */
  lemma DistributionStep(
    segMap: Volume, coords: seq<Coord>, pixelSizeNm: real, fit: seq<Pixel> -> real, sliceIdx: seq<int>, i: nat,
    acc: seq<Entry>)
    requires i < |sliceIdx|
    requires Distribution(segMap, coords, pixelSizeNm, fit, sliceIdx[..i]) == Success(acc)
    ensures Distribution(segMap, coords, pixelSizeNm, fit, sliceIdx[..i + 1]) ==
      match EvaluateSlice(segMap, coords, pixelSizeNm, fit, sliceIdx[i])
      case Failure(e) => Failure(e)
      case Success(None) => Success(acc)
      case Success(Some(entry)) => Success(acc + [entry])
  {
    assert sliceIdx[..i + 1][..i] == sliceIdx[..i];
  }

  /** Once a prefix of the slice list fails, the whole list fails with the same error. */
  lemma {:induction false} DistributionFailureSticks(
    segMap: Volume, coords: seq<Coord>, pixelSizeNm: real, fit: seq<Pixel> -> real, sliceIdx: seq<int>, n: nat)
    requires n <= |sliceIdx|
    requires Distribution(segMap, coords, pixelSizeNm, fit, sliceIdx[..n]).Failure?
    ensures Distribution(segMap, coords, pixelSizeNm, fit, sliceIdx) == Distribution(segMap, coords, pixelSizeNm, fit, sliceIdx[..n])
    decreases |sliceIdx| - n
  {
    if n < |sliceIdx| {
      var longer := sliceIdx[..n + 1];
      assert longer[..n] == sliceIdx[..n];
      assert Distribution(segMap, coords, pixelSizeNm, fit, longer) == Distribution(segMap, coords, pixelSizeNm, fit, sliceIdx[..n]);
      DistributionFailureSticks(segMap, coords, pixelSizeNm, fit, sliceIdx, n + 1);
    } else {
      assert sliceIdx[..n] == sliceIdx;
    }
  }

  // ---------------------------------------------------------------------
  // What the whole evaluation returns
  // ---------------------------------------------------------------------

  /** The membrane mask of a listed slice number, empty when the index is out of range. */
  function MaskAt(segMap: Volume, sliceNo: int): seq<Pixel>
  {
    match PyIndex(|segMap|, sliceNo)
    case None => []
    case Some(k) => MembranePixels(segMap[k])
  }

  /**
   * Every pixel lies in row 0. np.polyfit takes the rows as x and divides
   * the x column of its Vandermonde matrix by that column's norm; here the
   * norm is 0, the column becomes NaN and the least-squares solve raises.
   */
  predicate RowsAllZero(mask: seq<Pixel>)
    decreases |mask|
  {
    mask == [] || (mask[|mask| - 1].row == 0 && RowsAllZero(mask[..|mask| - 1]))
  }

  /** RowsAllZero holds exactly when every pixel of the mask lies in row 0. */
  lemma {:induction false} RowsAllZeroIff(mask: seq<Pixel>)
    ensures RowsAllZero(mask) <==> forall i :: 0 <= i < |mask| ==> mask[i].row == 0
    decreases |mask|
  {
    if mask != [] {
      var n := |mask| - 1;
      RowsAllZeroIff(mask[..n]);
      assert forall i :: 0 <= i < n ==> mask[..n][i] == mask[i];
    }
  }

  /** A membrane lying in row 0 only makes the evaluation raise at np.polyfit, whatever `fit` is. */
  lemma RowZeroMembraneRaises(pixelSizeNm: real, fit: seq<Pixel> -> real)
    ensures Distribution([[[1, 1]]], [Coord(0, 0, 0)], pixelSizeNm, fit, [0]) == Failure(FitDidNotConverge(0))
  {
    var segMap: Volume := [[[1, 1]]];
    var mask := MaskAt(segMap, 0);
    assert Pixel(0, 0) in mask;
    forall i | 0 <= i < |mask| ensures mask[i].row == 0 {
      assert mask[i] in mask;
    }
    RowsAllZeroIff(mask);
    assert Coord(0, 0, 0) in ParticlesInSlice([Coord(0, 0, 0)], 0);
    assert [0][..0] == [];
  }

  /** The slice has membrane, and np.polyfit raises on it. */
  predicate FitFailsAt(segMap: Volume, sliceNo: int)
  {
    MaskAt(segMap, sliceNo) != [] && RowsAllZero(MaskAt(segMap, sliceNo))
  }

  /**
   * A listed slice raises: its index is out of range, no particle lies in
   * it, or its membrane lies in row 0 only.
   */
  predicate SliceFails(segMap: Volume, coords: seq<Coord>, sliceNo: int)
  {
    PyIndex(|segMap|, sliceNo).None? || ParticlesInSlice(coords, sliceNo) == [] || FitFailsAt(segMap, sliceNo)
  }

  /** The exception a failing slice raises, checked in the order the loop body meets them. */
  function SliceError(segMap: Volume, coords: seq<Coord>, sliceNo: int): EvalError
  {
    if PyIndex(|segMap|, sliceNo).None? then SliceIndexOutOfRange(sliceNo)
    else if ParticlesInSlice(coords, sliceNo) == [] then NoParticlesInSlice(sliceNo)
    else FitDidNotConverge(sliceNo)
  }

  /** The entry of a listed slice with a non-empty mask. */
  function EntryFor(segMap: Volume, coords: seq<Coord>, pixelSizeNm: real, fit: seq<Pixel> -> real, sliceNo: int): Entry
    requires MaskAt(segMap, sliceNo) != []
  {
    var mask := MaskAt(segMap, sliceNo);
    SliceDistribution(mask, ParticlesInSlice(coords, sliceNo), pixelSizeNm, fit(mask), sliceNo)
  }

  /** The listed slice numbers whose membrane mask is not empty, in list order. */
  function KeptSlices(segMap: Volume, sliceIdx: seq<int>): (kept: seq<int>)
    ensures |kept| <= |sliceIdx|
    ensures forall z :: z in kept <==> z in sliceIdx && MaskAt(segMap, z) != []
    decreases |sliceIdx|
  {
    if sliceIdx == [] then []
    else
      var last := sliceIdx[|sliceIdx| - 1];
      assert sliceIdx == sliceIdx[..|sliceIdx| - 1] + [last];
      KeptSlices(segMap, sliceIdx[..|sliceIdx| - 1]) + (if MaskAt(segMap, last) != [] then [last] else [])
  }

  /** Keeping slices preserves list order: it distributes over concatenation. */
  lemma {:induction false} KeptSlicesSplit(segMap: Volume, a: seq<int>, b: seq<int>)
    ensures KeptSlices(segMap, a + b) == KeptSlices(segMap, a) + KeptSlices(segMap, b)
    decreases |b|
  {
    if b == [] {
      assert a + b == a;
    } else {
      var n := |b| - 1;
      assert b == b[..n] + [b[n]];
      assert a + b == (a + b[..n]) + [b[n]];
      KeptSlicesSnoc(segMap, b[..n], b[n]);
      KeptSlicesSnoc(segMap, a + b[..n], b[n]);
      KeptSlicesSplit(segMap, a, b[..n]);
      AppendAssociative(KeptSlices(segMap, a), KeptSlices(segMap, b[..n]), KeptSlices(segMap, [b[n]]));
    }
  }

  /** Concatenation of slice lists is associative. */
  lemma AppendAssociative(x: seq<int>, y: seq<int>, z: seq<int>)
    ensures (x + y) + z == x + (y + z)
  {
  }

  /** Keeping one more listed slice appends it exactly when its mask is not empty. */
  lemma KeptSlicesSnoc(segMap: Volume, s: seq<int>, z: int)
    ensures KeptSlices(segMap, s + [z]) == KeptSlices(segMap, s) + KeptSlices(segMap, [z])
  {
    assert (s + [z])[..|s|] == s;
    assert [z][..0] == [];
  }

  /**
   * A slice number listed k times with a non-empty mask is kept k times,
   * and one with an empty mask not at all.
   */
  lemma {:induction false} KeptSlicesCount(segMap: Volume, sliceIdx: seq<int>, z: int)
    ensures multiset(KeptSlices(segMap, sliceIdx))[z] ==
      if MaskAt(segMap, z) != [] then multiset(sliceIdx)[z] else 0
    decreases |sliceIdx|
  {
    if sliceIdx != [] {
      var n := |sliceIdx| - 1;
      assert sliceIdx == sliceIdx[..n] + [sliceIdx[n]];
      KeptSlicesCount(segMap, sliceIdx[..n], z);
    }
  }

  /** The entries of a list of slice numbers whose masks are all non-empty. */
  function EntriesFor(segMap: Volume, coords: seq<Coord>, pixelSizeNm: real, fit: seq<Pixel> -> real, zs: seq<int>)
    : seq<Entry>
    requires forall z :: z in zs ==> MaskAt(segMap, z) != []
  {
    seq(|zs|, i requires 0 <= i < |zs| => EntryFor(segMap, coords, pixelSizeNm, fit, zs[i]))
  }

  /** The position of the first true flag, None when there is none. */
  function FirstTrue(flags: seq<bool>): (r: Option<nat>)
    ensures r.None? <==> forall i :: 0 <= i < |flags| ==> !flags[i]
    ensures r.Some? ==> r.value < |flags| && flags[r.value] && forall j :: 0 <= j < r.value ==> !flags[j]
    decreases |flags|
  {
    if flags == [] then None
    else
      var n := |flags| - 1;
      var prefix := flags[..n];
      assert forall i :: 0 <= i < n ==> prefix[i] == flags[i];
      match FirstTrue(prefix)
      case Some(i) => Some(i)
      case None => if flags[n] then Some(n) else None
  }

  /**
   * The position of the first listed slice that raises, None when none
   * does.
   */
  function FirstFailing(segMap: Volume, coords: seq<Coord>, sliceIdx: seq<int>): (r: Option<nat>)
    ensures r.None? <==> forall i :: 0 <= i < |sliceIdx| ==> !SliceFails(segMap, coords, sliceIdx[i])
    ensures r.Some? ==> && r.value < |sliceIdx| && SliceFails(segMap, coords, sliceIdx[r.value])
                        && forall j :: 0 <= j < r.value ==> !SliceFails(segMap, coords, sliceIdx[j])
  {
    FirstTrue(FailFlags(segMap, coords, sliceIdx))
  }

  /** For each listed slice, whether it raises. */
  function FailFlags(segMap: Volume, coords: seq<Coord>, sliceIdx: seq<int>): (flags: seq<bool>)
    ensures |flags| == |sliceIdx|
    ensures forall i :: 0 <= i < |sliceIdx| ==> flags[i] == SliceFails(segMap, coords, sliceIdx[i])
  {
    seq(|sliceIdx|, i requires 0 <= i < |sliceIdx| => SliceFails(segMap, coords, sliceIdx[i]))
  }

  /**
   * The evaluation raises exactly when some listed slice is out of range,
   * holds no particle, or has membrane pixels in row 0 only (where
   * np.polyfit raises), and then with the exception of the first such
   * slice.
   */
  lemma {:induction false} DistributionFailsIff(
    segMap: Volume, coords: seq<Coord>, pixelSizeNm: real, fit: seq<Pixel> -> real, sliceIdx: seq<int>)
    ensures Distribution(segMap, coords, pixelSizeNm, fit, sliceIdx).Failure? <==>
      FirstFailing(segMap, coords, sliceIdx).Some?
    ensures Distribution(segMap, coords, pixelSizeNm, fit, sliceIdx).Failure? ==>
      Distribution(segMap, coords, pixelSizeNm, fit, sliceIdx).error ==
        SliceError(segMap, coords, sliceIdx[FirstFailing(segMap, coords, sliceIdx).value])
    decreases |sliceIdx|
  {
    if sliceIdx != [] {
      var n := |sliceIdx| - 1;
      var prefix := sliceIdx[..n];
      DistributionFailsIff(segMap, coords, pixelSizeNm, fit, prefix);
      FirstFailingSnoc(segMap, coords, sliceIdx);
      match FirstFailing(segMap, coords, prefix)
      case Some(i) =>
        assert prefix[i] == sliceIdx[i];
      case None =>
    }
  }

  /** The first failing slice of a list is that of its prefix, or else the last slice when it fails. */
  lemma FirstFailingSnoc(segMap: Volume, coords: seq<Coord>, sliceIdx: seq<int>)
    requires sliceIdx != []
    ensures var n := |sliceIdx| - 1;
      FirstFailing(segMap, coords, sliceIdx) ==
        match FirstFailing(segMap, coords, sliceIdx[..n])
        case Some(i) => Some(i)
        case None => if SliceFails(segMap, coords, sliceIdx[n]) then Some(n) else None
  {
    var n := |sliceIdx| - 1;
    var flags := FailFlags(segMap, coords, sliceIdx);
    assert flags[..n] == FailFlags(segMap, coords, sliceIdx[..n]);
  }

  /**
   * When the evaluation succeeds, it returns one entry for each listed
   * slice with a non-empty membrane mask, in list order, and that slice's
   * entry; slices with an empty mask contribute nothing.
   */
  lemma {:induction false} DistributionEntries(
    segMap: Volume, coords: seq<Coord>, pixelSizeNm: real, fit: seq<Pixel> -> real, sliceIdx: seq<int>)
    requires Distribution(segMap, coords, pixelSizeNm, fit, sliceIdx).Success?
    ensures forall z :: z in KeptSlices(segMap, sliceIdx) ==> MaskAt(segMap, z) != []
    ensures Distribution(segMap, coords, pixelSizeNm, fit, sliceIdx).value ==
      EntriesFor(segMap, coords, pixelSizeNm, fit, KeptSlices(segMap, sliceIdx))
    decreases |sliceIdx|
  {
    if sliceIdx != [] {
      var n := |sliceIdx| - 1;
      var prefix := sliceIdx[..n];
      var last := sliceIdx[n];
      var d := Distribution(segMap, coords, pixelSizeNm, fit, prefix);
      assert d.Success?;
      DistributionEntries(segMap, coords, pixelSizeNm, fit, prefix);
      var keptPrefix := KeptSlices(segMap, prefix);
      var ev := EvaluateSlice(segMap, coords, pixelSizeNm, fit, last);
      assert ev.Success?;
      EvaluateSliceEntry(segMap, coords, pixelSizeNm, fit, last);
      if MaskAt(segMap, last) != [] {
        EntriesForSnoc(segMap, coords, pixelSizeNm, fit, keptPrefix, last);
      }
    }
  }

  /** A slice that does not raise contributes its entry when it has membrane, and nothing otherwise. */
  lemma EvaluateSliceEntry(segMap: Volume, coords: seq<Coord>, pixelSizeNm: real, fit: seq<Pixel> -> real, sliceNo: int)
    requires EvaluateSlice(segMap, coords, pixelSizeNm, fit, sliceNo).Success?
    ensures EvaluateSlice(segMap, coords, pixelSizeNm, fit, sliceNo).value ==
      if MaskAt(segMap, sliceNo) == [] then None else Some(EntryFor(segMap, coords, pixelSizeNm, fit, sliceNo))
  {
  }

  /** The entries of one more slice are the earlier entries and that slice's entry. */
  lemma EntriesForSnoc(segMap: Volume, coords: seq<Coord>, pixelSizeNm: real, fit: seq<Pixel> -> real, zs: seq<int>, z: int)
    requires forall y :: y in zs ==> MaskAt(segMap, y) != []
    requires MaskAt(segMap, z) != []
    ensures forall y :: y in zs + [z] ==> MaskAt(segMap, y) != []
    ensures EntriesFor(segMap, coords, pixelSizeNm, fit, zs + [z]) ==
      EntriesFor(segMap, coords, pixelSizeNm, fit, zs) + [EntryFor(segMap, coords, pixelSizeNm, fit, z)]
  {
  }

  /**
   * The i-th entry of a successful evaluation belongs to a listed slice
   * with membrane, is aligned, carries that slice number throughout and
   * retains exactly that slice's particles, of which there is at least one.
   */
  lemma EntryAt(
    segMap: Volume, coords: seq<Coord>, pixelSizeNm: real, fit: seq<Pixel> -> real, sliceIdx: seq<int>, i: int)
    requires Distribution(segMap, coords, pixelSizeNm, fit, sliceIdx).Success?
    requires 0 <= i < |Distribution(segMap, coords, pixelSizeNm, fit, sliceIdx).value|
    ensures var e := Distribution(segMap, coords, pixelSizeNm, fit, sliceIdx).value[i];
      && Aligned(e) && |e.sliceList| > 0
      && (forall j :: 0 <= j < |e.sliceList| ==> e.sliceList[j] == e.sliceList[0])
      && e.sliceList[0] in sliceIdx
      && MaskAt(segMap, e.sliceList[0]) != []
      && e.trimmed == ParticlesInSlice(coords, e.sliceList[0])
  {
    var kept := KeptSlices(segMap, sliceIdx);
    DistributionEntries(segMap, coords, pixelSizeNm, fit, sliceIdx);
    DistributionFailsIff(segMap, coords, pixelSizeNm, fit, sliceIdx);
    var z := kept[i];
    assert z in kept;
    var m :| 0 <= m < |sliceIdx| && sliceIdx[m] == z;
    assert !SliceFails(segMap, coords, sliceIdx[m]);
    var e := Distribution(segMap, coords, pixelSizeNm, fit, sliceIdx).value[i];
    assert e == EntryFor(segMap, coords, pixelSizeNm, fit, z);
    assert |ParticlesInSlice(coords, z)| > 0;
  }

  /**
   * Every entry of a successful evaluation is aligned, carries one slice
   * number throughout, and retains exactly that slice's particles, of
   * which there is at least one.
   */
  lemma EntriesAligned(
    segMap: Volume, coords: seq<Coord>, pixelSizeNm: real, fit: seq<Pixel> -> real, sliceIdx: seq<int>)
    requires Distribution(segMap, coords, pixelSizeNm, fit, sliceIdx).Success?
    ensures var es := Distribution(segMap, coords, pixelSizeNm, fit, sliceIdx).value;
      && |es| <= |sliceIdx|
      && forall e :: e in es ==>
           && Aligned(e) && |e.sliceList| > 0
           && (forall j :: 0 <= j < |e.sliceList| ==> e.sliceList[j] == e.sliceList[0])
           && e.sliceList[0] in sliceIdx
           && MaskAt(segMap, e.sliceList[0]) != []
           && e.trimmed == ParticlesInSlice(coords, e.sliceList[0])
  {
    var es := Distribution(segMap, coords, pixelSizeNm, fit, sliceIdx).value;
    DistributionEntries(segMap, coords, pixelSizeNm, fit, sliceIdx);
    forall e | e in es
      ensures && Aligned(e) && |e.sliceList| > 0
              && (forall j :: 0 <= j < |e.sliceList| ==> e.sliceList[j] == e.sliceList[0])
              && e.sliceList[0] in sliceIdx
              && MaskAt(segMap, e.sliceList[0]) != []
              && e.trimmed == ParticlesInSlice(coords, e.sliceList[0])
    {
      var i :| 0 <= i < |es| && es[i] == e;
      EntryAt(segMap, coords, pixelSizeNm, fit, sliceIdx, i);
    }
  }
}
