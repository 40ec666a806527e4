/**
 * Model of the computations in korpuskulum/main.py: `unique_rows`, the
 * choice of slices to evaluate, the concatenation of the per-slice
 * results, the split into side 1 and side 0 by distance range, and the
 * column order of the saved coordinates. The plotting calls are modelled
 * only as far as they raise, which stops main before the sides are saved.
 * The CLI, the loops over files, rendering and file output are not
 * modelled.
 */
module Pipeline {
  import opened Wrappers
  import opened Axes
  import opened Eval
  import opened RowOrder
  import CoordIO
  import Plotting
  import MaskFit

  // ---------------------------------------------------------------------
  // unique_rows (lines 41-47)
  // ---------------------------------------------------------------------

  /**
   * unique_rows: the distinct rows of a 2D array in lexsort order. numpy
   * raises for an empty array or one without columns (None).
   */
  function UniqueRows(arrayIn: seq<seq<int>>): (out: Option<seq<seq<int>>>)
    requires Rectangular(arrayIn)
    ensures out.None? <==> arrayIn == [] || arrayIn[0] == []
    ensures out.Some? ==> forall row :: row in out.value <==> row in arrayIn
    ensures out.Some? ==> StrictlySorted(out.value)
  {
    if arrayIn == [] || arrayIn[0] == [] then None
    else
      var sortedArray := Sort(arrayIn);
      DropRepeatsSorted(sortedArray);
      assert forall row :: row in sortedArray <==> row in arrayIn by {
        forall row ensures row in sortedArray <==> row in arrayIn {
          assert row in sortedArray <==> row in multiset(sortedArray);
          assert row in arrayIn <==> row in multiset(arrayIn);
        }
      }
      Some(DropRepeats(sortedArray))
  }

  /** Applying unique_rows to its own output changes nothing. */
  lemma UniqueRowsIdempotent(arrayIn: seq<seq<int>>)
    requires Rectangular(arrayIn) && UniqueRows(arrayIn).Some?
    ensures Rectangular(UniqueRows(arrayIn).value)
    ensures UniqueRows(UniqueRows(arrayIn).value) == UniqueRows(arrayIn)
  {
    var out := UniqueRows(arrayIn).value;
    assert forall i :: 0 <= i < |out| ==> |out[i]| == |arrayIn[0]| by {
      forall i | 0 <= i < |out| ensures |out[i]| == |arrayIn[0]| {
        assert out[i] in arrayIn;
      }
    }
    assert arrayIn[0] in out;
    assert out != [] && out[0] != [];
    SortStrictlySorted(out);
    DropRepeatsStrictlySorted(out);
  }

  // ---------------------------------------------------------------------
  // Slice selection (lines 135, 141-142)
  // ---------------------------------------------------------------------

  predicate StrictlyIncreasing(zs: seq<int>)
  {
    forall i, j :: 0 <= i < j < |zs| ==> zs[i] < zs[j]
  }

  function RowSum(row: seq<int>): int
  {
    if row == [] then 0 else RowSum(row[..|row| - 1]) + row[|row| - 1]
  }

  /** np.sum(seg_map[z]) */
  function SliceSum(slice: Slice): int
  {
    if slice == [] then 0 else SliceSum(slice[..|slice| - 1]) + RowSum(slice[|slice| - 1])
  }

  /** The slice numbers from `from` on whose voxel sum is not zero, ascending. */
  function NonEmptyFrom(segMap: Volume, from: nat): (zs: seq<int>)
    ensures forall z :: z in zs <==> from <= z < |segMap| && SliceSum(segMap[z]) != 0
    ensures StrictlyIncreasing(zs)
    decreases |segMap| - from
  {
    if from >= |segMap| then []
    else
      var rest := NonEmptyFrom(segMap, from + 1);
      assert forall j :: 0 <= j < |rest| ==> rest[j] in rest;
      if SliceSum(segMap[from]) != 0 then [from] + rest else rest
  }

  /** seg_nonempty: np.argwhere(np.sum(seg_map, axis=(1, 2)) != 0).flatten() */
  function NonEmptySlices(segMap: Volume): (zs: seq<int>)
    ensures forall z :: z in zs <==> 0 <= z < |segMap| && SliceSum(segMap[z]) != 0
    ensures StrictlyIncreasing(zs)
  {
    NonEmptyFrom(segMap, 0)
  }

  /** The slice numbers of zs that hold at least one particle, in order. */
  function WithParticles(zs: seq<int>, coords: seq<Coord>): (r: seq<int>)
    ensures forall z :: z in r <==> z in zs && ParticlesInSlice(coords, z) != []
    ensures StrictlyIncreasing(zs) ==> StrictlyIncreasing(r)
  {
    if zs == [] then []
    else
      var rest := WithParticles(zs[1..], coords);
      assert forall z :: z in zs[1..] ==> z in zs;
      assert StrictlyIncreasing(zs) ==> StrictlyIncreasing(zs[1..]);
      if ParticlesInSlice(coords, zs[0]) != [] then
        assert StrictlyIncreasing(zs) ==> StrictlyIncreasing([zs[0]] + rest) by {
          if StrictlyIncreasing(zs) {
            forall j | 0 <= j < |rest| ensures zs[0] < rest[j] {
              assert rest[j] in zs[1..];
              var k :| 0 <= k < |zs| - 1 && zs[1..][k] == rest[j];
              assert zs[k + 1] == rest[j];
            }
          }
        }
        [zs[0]] + rest
      else rest
  }

  /**
   * eval_slice_idx = np.intersect1d(seg_nonempty, np.unique(coords.T[0])):
   * ascending, without repeats, and exactly the slices with a non-zero
   * voxel sum that are the Z of some particle.
   */
  function EvalSlices(segMap: Volume, coords: seq<Coord>): (zs: seq<int>)
    ensures StrictlyIncreasing(zs)
    ensures forall z :: z in zs <==>
      (0 <= z < |segMap| && SliceSum(segMap[z]) != 0 && exists c :: c in coords && c.z == z)
  {
    var r := WithParticles(NonEmptySlices(segMap), coords);
    assert forall z :: ParticlesInSlice(coords, z) != [] <==> exists c :: c in coords && c.z == z by {
      forall z ensures ParticlesInSlice(coords, z) != [] <==> exists c :: c in coords && c.z == z {
        if ParticlesInSlice(coords, z) != [] {
          assert ParticlesInSlice(coords, z)[0] in ParticlesInSlice(coords, z);
        }
      }
    }
    r
  }

  /**
   * The slices main hands to get_distribution are in range and hold a
   * particle, so get_distribution raises on them only at np.polyfit:
   * exactly when one of them has membrane in row 0 only.
   */
  lemma EvalSlicesFailIff(segMap: Volume, coords: seq<Coord>, pixelSizeNm: real, fit: seq<Pixel> -> real)
    ensures var d := Distribution(segMap, coords, pixelSizeNm, fit, EvalSlices(segMap, coords));
      && (d.Failure? <==> exists z :: z in EvalSlices(segMap, coords) && FitFailsAt(segMap, z))
      && (d.Failure? ==> d.error.FitDidNotConverge?)
  {
    var zs := EvalSlices(segMap, coords);
    forall i | 0 <= i < |zs|
      ensures PyIndex(|segMap|, zs[i]).Some? && ParticlesInSlice(coords, zs[i]) != []
      ensures SliceFails(segMap, coords, zs[i]) <==> FitFailsAt(segMap, zs[i])
    {
      assert zs[i] in zs;
      var c :| c in coords && c.z == zs[i];
      assert c in ParticlesInSlice(coords, zs[i]);
    }
    DistributionFailsIff(segMap, coords, pixelSizeNm, fit, zs);
    var first := FirstFailing(segMap, coords, zs);
    if exists z :: z in zs && FitFailsAt(segMap, z) {
      var z :| z in zs && FitFailsAt(segMap, z);
      var i :| 0 <= i < |zs| && zs[i] == z;
      assert SliceFails(segMap, coords, zs[i]);
    }
    if first.Some? {
      assert zs[first.value] in zs;
    }
  }

  // ---------------------------------------------------------------------
  // Concatenation of the per-slice results (lines 149-152)
  // ---------------------------------------------------------------------

  /** stack_distro, slice_numbers, orientations and trimmed_coords after stacking. */
  datatype Stack = Stack(stackDistro: seq<Vec>, sliceNumbers: seq<int>, orientations: seq<int>, trimmedCoords: seq<Coord>)

  /** The four stacked sequences have one element per particle. */
  predicate StackAligned(s: Stack)
  {
    |s.stackDistro| == |s.sliceNumbers| == |s.orientations| == |s.trimmedCoords|
  }

  /** An entry whose slice labels are the Z of the coordinate beside them. */
  predicate EntryConsistent(e: Entry)
  {
    Aligned(e) && forall j :: 0 <= j < |e.trimmed| ==> e.trimmed[j].z == e.sliceList[j]
  }

  /** A stack whose slice numbers are the Z of the coordinate beside them. */
  predicate StackConsistent(s: Stack)
  {
    StackAligned(s) && forall i :: 0 <= i < |s.trimmedCoords| ==> s.trimmedCoords[i].z == s.sliceNumbers[i]
  }

  function Concatenate(entries: seq<Entry>): Stack
  {
    if entries == [] then Stack([], [], [], [])
    else
      var s := Concatenate(entries[..|entries| - 1]);
      var e := entries[|entries| - 1];
      Stack(s.stackDistro + e.distribution, s.sliceNumbers + e.sliceList,
            s.orientations + e.orientations, s.trimmedCoords + e.trimmed)
  }

  /** np.vstack / np.concatenate over the list; both raise on an empty list (None). */
  function Aggregate(entries: seq<Entry>): (r: Option<Stack>)
    ensures r.None? <==> entries == []
  {
    if entries == [] then None else Some(Concatenate(entries))
  }

  /** Stacking consistent entries keeps every slice number beside its coordinate. */
  lemma {:induction false} ConcatenateConsistent(entries: seq<Entry>)
    requires forall e :: e in entries ==> EntryConsistent(e)
    ensures StackConsistent(Concatenate(entries))
    ensures forall c :: c in Concatenate(entries).trimmedCoords <==> exists e :: e in entries && c in e.trimmed
    decreases |entries|
  {
    if entries != [] {
      var init := entries[..|entries| - 1];
      var e := entries[|entries| - 1];
      assert forall x :: x in init ==> x in entries;
      ConcatenateConsistent(init);
      var s := Concatenate(init);
      var t := Concatenate(entries);
      assert EntryConsistent(e);
      forall i | 0 <= i < |t.trimmedCoords| ensures t.trimmedCoords[i].z == t.sliceNumbers[i] {
        if i >= |s.trimmedCoords| {
          var j := i - |s.trimmedCoords|;
          assert t.trimmedCoords[i] == e.trimmed[j] && t.sliceNumbers[i] == e.sliceList[j];
        } else {
          assert t.trimmedCoords[i] == s.trimmedCoords[i] && t.sliceNumbers[i] == s.sliceNumbers[i];
        }
      }
      forall c ensures c in t.trimmedCoords <==> exists x :: x in entries && c in x.trimmed {
        if c in t.trimmedCoords {
          if c in s.trimmedCoords {
            var x :| x in init && c in x.trimmed;
            assert x in entries;
          } else {
            assert c in e.trimmed;
          }
        }
        if exists x :: x in entries && c in x.trimmed {
          var x :| x in entries && c in x.trimmed;
          var k :| 0 <= k < |entries| && entries[k] == x;
          if k < |entries| - 1 {
            assert x in init;
          }
        }
      }
    }
  }

  /** Every entry of a successful evaluation is consistent. */
  lemma DistributionConsistent(
    segMap: Volume, coords: seq<Coord>, pixelSizeNm: real, fit: seq<Pixel> -> real, sliceIdx: seq<int>)
    requires Distribution(segMap, coords, pixelSizeNm, fit, sliceIdx).Success?
    ensures forall e :: e in Distribution(segMap, coords, pixelSizeNm, fit, sliceIdx).value ==> EntryConsistent(e)
  {
    EntriesAligned(segMap, coords, pixelSizeNm, fit, sliceIdx);
    forall e | e in Distribution(segMap, coords, pixelSizeNm, fit, sliceIdx).value
      ensures EntryConsistent(e)
    {
      forall j | 0 <= j < |e.trimmed| ensures e.trimmed[j].z == e.sliceList[j] {
        assert e.trimmed[j] in ParticlesInSlice(coords, e.sliceList[0]);
      }
    }
  }

  // ---------------------------------------------------------------------
  // Side split and range filter (lines 181-187)
  // ---------------------------------------------------------------------

  function Min(a: real, b: real): real { if a <= b then a else b }

  function Max(a: real, b: real): real { if a <= b then b else a }

  /** min(dist_range) <= d <= max(dist_range) */
  predicate InRange(d: real, r0: real, r1: real)
  {
    Min(r0, r1) <= d <= Max(r0, r1)
  }

  /** The in-range mask np.logical_and(min(range) <= min_dist, min_dist <= max(range)). */
  function InRangeMask(minDist: seq<real>, r0: real, r1: real): (m: seq<bool>)
    ensures |m| == |minDist|
    ensures forall i :: 0 <= i < |minDist| ==> (m[i] <==> InRange(minDist[i], r0, r1))
  {
    seq(|minDist|, i requires 0 <= i < |minDist| => InRange(minDist[i], r0, r1))
  }

  /**
   * The masks of side_1 (orientation 1, in range) and side_0 (orientation
   * not 1, in range): they never select the same row, and together they
   * select exactly the rows in range.
   */
  function SideMasks(orientations: seq<int>, minDist: seq<real>, r0: real, r1: real): (m: (seq<bool>, seq<bool>))
    requires |orientations| == |minDist|
    ensures |m.0| == |m.1| == |minDist|
    ensures forall i :: 0 <= i < |minDist| ==> !(m.0[i] && m.1[i])
    ensures forall i :: 0 <= i < |minDist| ==> (m.0[i] || m.1[i] <==> InRangeMask(minDist, r0, r1)[i])
    ensures forall i :: 0 <= i < |minDist| ==> (m.0[i] ==> orientations[i] == 1) && (m.1[i] ==> orientations[i] != 1)
  {
    var inRange := InRangeMask(minDist, r0, r1);
    (seq(|minDist|, i requires 0 <= i < |minDist| => orientations[i] == 1 && inRange[i]),
     seq(|minDist|, i requires 0 <= i < |minDist| => orientations[i] != 1 && inRange[i]))
  }

  /** Boolean-mask indexing rows[keep]: the rows whose mask entry is true, in order. */
  function SelectRows<T>(rows: seq<T>, keep: seq<bool>): (r: seq<T>)
    requires |rows| == |keep|
    ensures |r| <= |rows|
  {
    if rows == [] then []
    else
      var n := |rows| - 1;
      SelectRows(rows[..n], keep[..n]) + (if keep[n] then [rows[n]] else [])
  }

  /** The selection holds every row whose mask entry is true, and only such rows. */
  lemma {:induction false} SelectRowsMembers<T>(rows: seq<T>, keep: seq<bool>)
    requires |rows| == |keep|
    ensures forall x :: x in SelectRows(rows, keep) <==> exists i :: 0 <= i < |rows| && keep[i] && rows[i] == x
    decreases |rows|
  {
    if rows != [] {
      var n := |rows| - 1;
      SelectRowsMembers(rows[..n], keep[..n]);
      assert forall i :: 0 <= i < n ==> rows[..n][i] == rows[i] && keep[..n][i] == keep[i];
      assert SelectRows(rows, keep) == SelectRows(rows[..n], keep[..n]) + (if keep[n] then [rows[n]] else []);
    }
  }

  /** a is an order-preserving subsequence of b. */
  predicate IsSubsequence<T(==)>(a: seq<T>, b: seq<T>)
    decreases |b|
  {
    if a == [] then true
    else if b == [] then false
    else if a[|a| - 1] == b[|b| - 1] then IsSubsequence(a[..|a| - 1], b[..|b| - 1])
    else IsSubsequence(a, b[..|b| - 1])
  }

  lemma {:induction false} SelectRowsSubsequence<T>(rows: seq<T>, keep: seq<bool>)
    requires |rows| == |keep|
    ensures IsSubsequence(SelectRows(rows, keep), rows)
    decreases |rows|
  {
    if rows != [] {
      var n := |rows| - 1;
      SelectRowsSubsequence(rows[..n], keep[..n]);
      var s := SelectRows(rows[..n], keep[..n]);
      var t := SelectRows(rows, keep);
      assert rows[..n] + [rows[n]] == rows;
      if keep[n] {
        assert t == s + [rows[n]];
        assert t[..|t| - 1] == s;
        assert rows[..|rows| - 1] == rows[..n];
      } else {
        assert t == s;
        SubsequenceOfLonger(s, rows[..n], rows[n]);
      }
    }
  }

  /** A subsequence of b is one of b + [x]. */
  lemma {:induction false} SubsequenceOfLonger<T>(a: seq<T>, b: seq<T>, x: T)
    requires IsSubsequence(a, b)
    ensures IsSubsequence(a, b + [x])
    decreases |b|, 1
  {
    assert (b + [x])[..|b|] == b;
    if a != [] && a[|a| - 1] == x {
      SubsequenceOfShorter(a, b);
    }
  }

  /** Dropping the last element of a subsequence leaves a subsequence. */
  lemma {:induction false} SubsequenceOfShorter<T>(a: seq<T>, b: seq<T>)
    requires a != [] && IsSubsequence(a, b)
    ensures IsSubsequence(a[..|a| - 1], b)
    decreases |b|, 0
  {
    var a', b' := a[..|a| - 1], b[..|b| - 1];
    assert b' + [b[|b| - 1]] == b;
    if a[|a| - 1] == b[|b| - 1] {
      SubsequenceOfLonger(a', b', b[|b| - 1]);
    } else {
      SubsequenceOfShorter(a, b');
      SubsequenceOfLonger(a', b', b[|b| - 1]);
    }
  }

  /** Two masks that never overlap and together cover a third split its selection. */
  lemma {:induction false} SelectRowsPartition<T>(rows: seq<T>, m1: seq<bool>, m0: seq<bool>, m: seq<bool>)
    requires |rows| == |m1| == |m0| == |m|
    requires forall i :: 0 <= i < |rows| ==> !(m1[i] && m0[i]) && (m1[i] || m0[i] <==> m[i])
    ensures multiset(SelectRows(rows, m1)) + multiset(SelectRows(rows, m0)) == multiset(SelectRows(rows, m))
    decreases |rows|
  {
    if rows != [] {
      var n := |rows| - 1;
      SelectRowsPartition(rows[..n], m1[..n], m0[..n], m[..n]);
    }
  }

  /** side_1 and side_0: the retained coordinates of each side within the distance range. */
  function SplitSides(trimmedCoords: seq<Coord>, orientations: seq<int>, minDist: seq<real>, r0: real, r1: real)
    : (sides: (seq<Coord>, seq<Coord>))
    requires |trimmedCoords| == |orientations| == |minDist|
  {
    var masks := SideMasks(orientations, minDist, r0, r1);
    (SelectRows(trimmedCoords, masks.0), SelectRows(trimmedCoords, masks.1))
  }

  /**
   * side_1 and side_0 are order-preserving subsequences of the retained
   * coordinates, and together they hold exactly the in-range rows, each
   * as often as it is retained in range.
   */
  lemma SplitSidesPartition(trimmedCoords: seq<Coord>, orientations: seq<int>, minDist: seq<real>, r0: real, r1: real)
    requires |trimmedCoords| == |orientations| == |minDist|
    ensures IsSubsequence(SplitSides(trimmedCoords, orientations, minDist, r0, r1).0, trimmedCoords)
    ensures IsSubsequence(SplitSides(trimmedCoords, orientations, minDist, r0, r1).1, trimmedCoords)
    ensures multiset(SplitSides(trimmedCoords, orientations, minDist, r0, r1).0)
          + multiset(SplitSides(trimmedCoords, orientations, minDist, r0, r1).1)
         == multiset(SelectRows(trimmedCoords, InRangeMask(minDist, r0, r1)))
  {
    var masks := SideMasks(orientations, minDist, r0, r1);
    SelectRowsSubsequence(trimmedCoords, masks.0);
    SelectRowsSubsequence(trimmedCoords, masks.1);
    SelectRowsPartition(trimmedCoords, masks.0, masks.1, InRangeMask(minDist, r0, r1));
  }

  /**
   * side_1 holds exactly the coordinates of rows labelled 1 within the
   * range, side_0 exactly those of rows labelled otherwise within it.
   */
  lemma SplitSidesMembers(trimmedCoords: seq<Coord>, orientations: seq<int>, minDist: seq<real>, r0: real, r1: real)
    requires |trimmedCoords| == |orientations| == |minDist|
    ensures forall c :: c in SplitSides(trimmedCoords, orientations, minDist, r0, r1).0 <==>
      (exists j :: 0 <= j < |trimmedCoords| && trimmedCoords[j] == c && orientations[j] == 1 && InRange(minDist[j], r0, r1))
    ensures forall c :: c in SplitSides(trimmedCoords, orientations, minDist, r0, r1).1 <==>
      (exists j :: 0 <= j < |trimmedCoords| && trimmedCoords[j] == c && orientations[j] != 1 && InRange(minDist[j], r0, r1))
  {
    var masks := SideMasks(orientations, minDist, r0, r1);
    var inRange := InRangeMask(minDist, r0, r1);
    SelectRowsMembers(trimmedCoords, masks.0);
    SelectRowsMembers(trimmedCoords, masks.1);
    assert forall j :: 0 <= j < |minDist| ==> (masks.0[j] <==> orientations[j] == 1 && inRange[j]);
    assert forall j :: 0 <= j < |minDist| ==> (masks.1[j] <==> orientations[j] != 1 && inRange[j]);
  }

  /** The range is used through its min and max, so its two values may come in either order. */
  lemma SplitSidesSwap(trimmedCoords: seq<Coord>, orientations: seq<int>, minDist: seq<real>, r0: real, r1: real)
    requires |trimmedCoords| == |orientations| == |minDist|
    ensures SplitSides(trimmedCoords, orientations, minDist, r0, r1) == SplitSides(trimmedCoords, orientations, minDist, r1, r0)
  {
    var m, m' := SideMasks(orientations, minDist, r0, r1), SideMasks(orientations, minDist, r1, r0);
    assert m.0 == m'.0;
    assert m.1 == m'.1;
  }

  /**
   * The Side I and Side O histograms that main plots with
   * dist_low = min(range) and dist_high = max(range) select the same rows
   * as side_1 and side_0.
   */
  lemma PlottedSidesAreSavedSides(orientations: seq<int>, minDist: seq<real>, r0: real, r1: real)
    requires |orientations| == |minDist|
    ensures Plotting.MinDistMasks(orientations, minDist, Min(r0, r1), Max(r0, r1)) == SideMasks(orientations, minDist, r0, r1)
  {
    var plotted := Plotting.MinDistMasks(orientations, minDist, Min(r0, r1), Max(r0, r1));
    var saved := SideMasks(orientations, minDist, r0, r1);
    assert plotted.0 == saved.0;
    assert plotted.1 == saved.1;
  }

  // ---------------------------------------------------------------------
  // Column order of the saved coordinates (lines 138, 190-194)
  // ---------------------------------------------------------------------

  /** The retained coordinates as numpy rows [z, x, y]. */
  function Rows(side: seq<Coord>): (rows: seq<seq<int>>)
    ensures |rows| == |side| && forall i :: 0 <= i < |side| ==> rows[i] == side[i].Row()
  {
    seq(|side|, i requires 0 <= i < |side| => side[i].Row())
  }

  /**
   * side[:, restoration_order] as written: output column k is stored
   * column restoration_order[k], the numerical order used on load.
   */
  function SavedRowsAsWritten(side: seq<Coord>, restorationOrder: seq<nat>): (r: Option<seq<seq<int>>>)
    ensures r.None? <==> exists k :: 0 <= k < |restorationOrder| && restorationOrder[k] >= 3
    ensures r.Some? ==> (|r.value| == |side| &&
      forall i :: 0 <= i < |side| ==> (|r.value[i]| == |restorationOrder| &&
        forall k :: 0 <= k < |restorationOrder| ==> r.value[i][k] == side[i].Row()[restorationOrder[k]]))
  {
    CoordIO.ReorderColumns(Rows(side), 3, restorationOrder)
  }

  /** p undoes itself: applying it twice restores the original columns. */
  predicate SelfInverse(p: seq<nat>)
  {
    && |p| == 3 && p[0] < 3 && p[1] < 3 && p[2] < 3
    && p[p[0]] == 0 && p[p[1]] == 1 && p[p[2]] == 2
  }

  /** With the numerical order p, the row saved as written holds input column p[p[k]] at k. */
  lemma AsWrittenColumns(data: seq<seq<int>>, order: string)
    requires forall i :: 0 <= i < |data| ==> |data[i]| == 3
    requires CoordIO.IsAxisOrder(order)
    ensures CoordIO.LoadCoords(data, 3, order).Some?
    ensures var p := CoordIO.NumericalOrder(order).value;
      && CoordIO.IsPermutation3(p)
      && SavedRowsAsWritten(CoordIO.LoadCoords(data, 3, order).value.0, p).Some?
      && var saved := SavedRowsAsWritten(CoordIO.LoadCoords(data, 3, order).value.0, p).value;
      && |saved| == |data|
      && forall i :: 0 <= i < |data| ==> |saved[i]| == 3 && forall k :: 0 <= k < 3 ==> saved[i][k] == data[i][p[p[k]]]
  {
    CoordIO.AxisOrderGivesPermutation(order);
    var p := CoordIO.NumericalOrder(order).value;
    var coords := CoordIO.LoadCoords(data, 3, order).value.0;
    var saved := SavedRowsAsWritten(coords, p).value;
    forall i, k | 0 <= i < |data| && 0 <= k < 3 ensures saved[i][k] == data[i][p[p[k]]] {
      assert saved[i][k] == coords[i].Row()[p[k]];
    }
  }

  /** A row read through a self-inverse permutation twice is the row itself. */
  lemma TwiceIdentity(p: seq<nat>, row: seq<int>, orig: seq<int>)
    requires SelfInverse(p) && |orig| == 3
    requires |row| == 3 && forall k :: 0 <= k < 3 ==> row[k] == orig[p[p[k]]]
    ensures row == orig
  {
    assert row[0] == orig[0] && row[1] == orig[1] && row[2] == orig[2];
  }

  /** With a self-inverse numerical order, saving as written restores every file. */
  lemma AsWrittenRestoresSelfInverse(data: seq<seq<int>>, order: string)
    requires forall i :: 0 <= i < |data| ==> |data[i]| == 3
    requires CoordIO.IsAxisOrder(order)
    requires SelfInverse(CoordIO.NumericalOrder(order).value)
    ensures CoordIO.LoadCoords(data, 3, order).Some?
    ensures SavedRowsAsWritten(CoordIO.LoadCoords(data, 3, order).value.0, CoordIO.NumericalOrder(order).value) == Some(data)
  {
    AsWrittenColumns(data, order);
    var p := CoordIO.NumericalOrder(order).value;
    var saved := SavedRowsAsWritten(CoordIO.LoadCoords(data, 3, order).value.0, p).value;
    forall i | 0 <= i < |data| ensures saved[i] == data[i] {
      TwiceIdentity(p, saved[i], data[i]);
    }
    assert saved == data;
  }

  /**
   * With any other numerical order, a file with a row of three distinct
   * values is not restored.
   */
  lemma AsWrittenBreaksOtherOrders(data: seq<seq<int>>, order: string, i: nat)
    requires forall j :: 0 <= j < |data| ==> |data[j]| == 3
    requires CoordIO.IsAxisOrder(order)
    requires !SelfInverse(CoordIO.NumericalOrder(order).value)
    requires i < |data| && data[i][0] != data[i][1] && data[i][0] != data[i][2] && data[i][1] != data[i][2]
    ensures CoordIO.LoadCoords(data, 3, order).Some?
    ensures SavedRowsAsWritten(CoordIO.LoadCoords(data, 3, order).value.0, CoordIO.NumericalOrder(order).value)
      != Some(data)
  {
    AsWrittenColumns(data, order);
    var p := CoordIO.NumericalOrder(order).value;
    var saved := SavedRowsAsWritten(CoordIO.LoadCoords(data, 3, order).value.0, p).value;
    TwiceNotIdentity(p, saved[i], data[i]);
  }

  /** A row of distinct values read through a permutation that is not self-inverse twice is moved. */
  lemma TwiceNotIdentity(p: seq<nat>, row: seq<int>, orig: seq<int>)
    requires CoordIO.IsPermutation3(p) && !SelfInverse(p)
    requires |orig| == 3 && orig[0] != orig[1] && orig[0] != orig[2] && orig[1] != orig[2]
    requires |row| == 3 && forall k :: 0 <= k < 3 ==> row[k] == orig[p[p[k]]]
    ensures row != orig
  {
    assert row[0] == orig[p[p[0]]] && row[1] == orig[p[p[1]]] && row[2] == orig[p[p[2]]];
  }

  /** The "xyz" file row [1, 2, 3] is stored as the coordinate (Z, X, Y) = (3, 1, 2). */
  lemma XyzLoad()
    ensures CoordIO.LoadCoords([[1, 2, 3]], 3, "xyz") == Some(([Coord(3, 1, 2)], [2, 0, 1]))
  {
    assert CoordIO.NumericalOrder("xyz") == Some([2, 0, 1]) by {
      CoordIO.NumericalOrderExamples();
    }
    var loaded := CoordIO.LoadCoords([[1, 2, 3]], 3, "xyz").value;
    assert loaded.0[0] == Coord(3, 1, 2);
    assert loaded.0 == [Coord(3, 1, 2)];
  }

  /** ... and main saves it as [2, 3, 1]: (y, z, x) rather than the file's (x, y, z). */
  lemma XyzNotRestored()
    ensures CoordIO.LoadCoords([[1, 2, 3]], 3, "xyz").Some?
    ensures var loaded := CoordIO.LoadCoords([[1, 2, 3]], 3, "xyz").value;
      SavedRowsAsWritten(loaded.0, loaded.1) == Some([[2, 3, 1]])
  {
    XyzLoad();
    var saved := SavedRowsAsWritten([Coord(3, 1, 2)], [2, 0, 1]).value;
    assert saved[0][0] == 2 && saved[0][1] == 3 && saved[0][2] == 1;
    assert saved[0] == [2, 3, 1];
    assert |saved| == 1;
    assert saved == [[2, 3, 1]];
  }

  /** The inverse of a permutation of {0, 1, 2}: the position of each column in p. */
  function Inverse(p: seq<nat>): (q: seq<nat>)
    requires CoordIO.IsPermutation3(p)
    ensures CoordIO.IsPermutation3(q)
    ensures forall k :: 0 <= k < 3 ==> q[p[k]] == k && p[q[k]] == k
  {
    seq(3, j requires 0 <= j < 3 => if p[0] == j then 0 else if p[1] == j then 1 else 2)
  }

  /**
   * The saved rows as the help text of --order promises them: the stored
   * (Z, X, Y) columns permuted back by the inverse of the numerical order,
   * so that the file has the user's column order again.
   */
  function SavedRows(side: seq<Coord>, restorationOrder: seq<nat>): (r: Option<seq<seq<int>>>)
    ensures r.Some? <==> CoordIO.IsPermutation3(restorationOrder)
    ensures r.Some? ==> (|r.value| == |side| &&
      forall i :: 0 <= i < |side| ==> (|r.value[i]| == 3 &&
        forall k :: 0 <= k < 3 ==> r.value[i][restorationOrder[k]] == side[i].Row()[k]))
  {
    if !CoordIO.IsPermutation3(restorationOrder) then None
    else CoordIO.ReorderColumns(Rows(side), 3, Inverse(restorationOrder))
  }

  /** Loading with any case-insensitive permutation of "zxy" and saving restores the file's rows. */
  lemma SavedRowsRoundTrip(data: seq<seq<int>>, order: string)
    requires forall i :: 0 <= i < |data| ==> |data[i]| == 3
    requires CoordIO.IsAxisOrder(order)
    ensures CoordIO.LoadCoords(data, 3, order).Some?
    ensures var loaded := CoordIO.LoadCoords(data, 3, order).value;
      SavedRows(loaded.0, loaded.1) == Some(data)
  {
    CoordIO.AxisOrderGivesPermutation(order);
    var loaded := CoordIO.LoadCoords(data, 3, order).value;
    var p := loaded.1;
    var saved := SavedRows(loaded.0, p).value;
    forall i | 0 <= i < |data| ensures saved[i] == data[i] {
      forall j | 0 <= j < 3 ensures saved[i][j] == data[i][j] {
        var k := Inverse(p)[j];
        assert p[k] == j;
        assert saved[i][p[k]] == loaded.0[i].Row()[k] == data[i][p[k]];
      }
      assert |saved[i]| == 3 == |data[i]|;
    }
    assert saved == data;
  }

  // ---------------------------------------------------------------------
  // One (membrane, coordinate file) pair (lines 134-187)
  // ---------------------------------------------------------------------

  datatype PairError =
    | CoordsOrderError                 // load_coords: str.index or column indexing raised
    | EvaluationError(e: EvalError)    // get_distribution raised
    | EmptyStack                       // np.vstack of an empty list raised
    | PlotRaised(plot: Plot)           // a histogram got 0 bins and raised

  /** The three histograms main draws before it saves the sides. */
  datatype Plot = PolarPlot | SideIPlot | SideOPlot

  /**
   * `norm` stands for np.linalg.norm of one displacement vector: the
   * non-negative square root of its squared length.
   */
  ghost predicate IsEuclideanNorm(norm: Vec -> real)
  {
    forall v: Vec :: norm(v) >= 0.0 && norm(v) * norm(v) == v.d0 * v.d0 + v.d1 * v.d1
  }

  /** A Euclidean length is never negative and is zero exactly for the zero vector. */
  lemma EuclideanNormZeroIff(norm: Vec -> real, v: Vec)
    requires IsEuclideanNorm(norm)
    ensures norm(v) >= 0.0
    ensures norm(v) == 0.0 <==> v == Vec(0.0, 0.0)
  {
    var n := norm(v);
    assert n >= 0.0 && n * n == v.d0 * v.d0 + v.d1 * v.d1;
    if n == 0.0 {
      SumOfSquaresZero(v.d0, v.d1);
    }
    if v == Vec(0.0, 0.0) {
      ProductZero(n, n);
    }
  }

  /** A product is zero only when a factor is. */
  lemma ProductZero(a: real, b: real)
    requires a * b == 0.0
    ensures a == 0.0 || b == 0.0
  {
  }

  /** A square is never negative. */
  lemma SquareNonNegative(x: real)
    ensures x * x >= 0.0
  {
  }

  /** A sum of two squares is zero only when both terms are. */
  lemma SumOfSquaresZero(a: real, b: real)
    requires a * a + b * b == 0.0
    ensures a == 0.0 && b == 0.0
  {
    SquareNonNegative(a);
    SquareNonNegative(b);
    ProductZero(a, a);
    ProductZero(b, b);
  }

  /** min_dist = np.linalg.norm(stack_distro, axis=1): one distance per stacked vector. */
  function MinDist(stack: Stack, norm: Vec -> real): (minDist: seq<real>)
    requires IsEuclideanNorm(norm)
    ensures |minDist| == |stack.stackDistro|
    ensures forall i :: 0 <= i < |minDist| ==> minDist[i] == norm(stack.stackDistro[i])
    ensures forall i :: 0 <= i < |minDist| ==>
      minDist[i] >= 0.0 && (minDist[i] == 0.0 <==> stack.stackDistro[i] == Vec(0.0, 0.0))
  {
    var minDist := seq(|stack.stackDistro|, i requires 0 <= i < |stack.stackDistro| => norm(stack.stackDistro[i]));
    assert forall i :: 0 <= i < |minDist| ==>
      minDist[i] >= 0.0 && (minDist[i] == 0.0 <==> stack.stackDistro[i] == Vec(0.0, 0.0)) by {
      forall i | 0 <= i < |minDist|
        ensures minDist[i] >= 0.0 && (minDist[i] == 0.0 <==> stack.stackDistro[i] == Vec(0.0, 0.0))
      {
        EuclideanNormZeroIff(norm, stack.stackDistro[i]);
      }
    }
    minDist
  }

  /**
   * A particle that projects onto a membrane pixel of its slice gets the
   * zero vector in that slice's entry, so its min_dist is 0.
   */
  lemma MembraneParticleZeroDistance(
    mask: seq<Pixel>, trimmed: seq<Coord>, pixelSizeNm: real, slope: real, sliceNo: int, norm: Vec -> real, j: nat)
    requires |mask| > 0 && IsEuclideanNorm(norm)
    requires j < |trimmed| && Projection(trimmed[j]) in mask
    ensures var e := SliceDistribution(mask, trimmed, pixelSizeNm, slope, sliceNo);
      e.distribution[j] == Vec(0.0, 0.0) && norm(e.distribution[j]) == 0.0
  {
    OnMembraneZeroVector(mask, trimmed[j], pixelSizeNm);
    EuclideanNormZeroIff(norm, Vec(0.0, 0.0));
  }

  /**
   * A stacked zero vector has min_dist 0, so the polar histogram's
   * criterion 0.1 < d never selects it.
   */
  lemma ZeroVectorNotPolar(stack: Stack, norm: Vec -> real, i: nat)
    requires IsEuclideanNorm(norm)
    requires i < |stack.stackDistro| && stack.stackDistro[i] == Vec(0.0, 0.0)
    ensures MinDist(stack, norm)[i] == 0.0
    ensures !Plotting.PolarCriteria(MinDist(stack, norm), None).value[i]
  {
    Plotting.PolarCriteriaDefault(MinDist(stack, norm));
  }

  /** side_1 and side_0 of a stack. */
  function StackSides(stack: Stack, norm: Vec -> real, r0: real, r1: real): (seq<Coord>, seq<Coord>)
    requires StackAligned(stack) && IsEuclideanNorm(norm)
  {
    SplitSides(stack.trimmedCoords, stack.orientations, MinDist(stack, norm), r0, r1)
  }

  /** Every coordinate of either side is one of the stack's retained coordinates. */
  lemma StackSidesWithinStack(stack: Stack, norm: Vec -> real, r0: real, r1: real)
    requires StackAligned(stack) && IsEuclideanNorm(norm)
    ensures forall c :: c in StackSides(stack, norm, r0, r1).0 + StackSides(stack, norm, r0, r1).1 ==> c in stack.trimmedCoords
  {
    var minDist := MinDist(stack, norm);
    var sides := StackSides(stack, norm, r0, r1);
    SplitSidesPartition(stack.trimmedCoords, stack.orientations, minDist, r0, r1);
    var inRange := InRangeMask(minDist, r0, r1);
    forall c | c in sides.0 + sides.1 ensures c in stack.trimmedCoords {
      assert c in multiset(sides.0) + multiset(sides.1);
      assert c in multiset(SelectRows(stack.trimmedCoords, inRange));
      SelectRowsMember(stack.trimmedCoords, inRange, c);
    }
  }

  lemma {:induction false} SelectRowsMember<T>(rows: seq<T>, keep: seq<bool>, x: T)
    requires |rows| == |keep|
    requires x in SelectRows(rows, keep)
    ensures x in rows
    decreases |rows|
  {
    var n := |rows| - 1;
    if x in SelectRows(rows[..n], keep[..n]) {
      SelectRowsMember(rows[..n], keep[..n], x);
    }
  }

  /**
   * The stack of a successful evaluation is consistent, and each of its
   * coordinates is a particle of the input lying in a slice with membrane.
   */
  lemma StackOfDistribution(
    segMap: Volume, coords: seq<Coord>, pixelSizeNm: real, fit: seq<Pixel> -> real, sliceIdx: seq<int>)
    requires Distribution(segMap, coords, pixelSizeNm, fit, sliceIdx).Success?
    ensures var stack := Concatenate(Distribution(segMap, coords, pixelSizeNm, fit, sliceIdx).value);
      && StackConsistent(stack)
      && forall c :: c in stack.trimmedCoords ==> c in coords && MaskAt(segMap, c.z) != []
  {
    var list := Distribution(segMap, coords, pixelSizeNm, fit, sliceIdx).value;
    DistributionConsistent(segMap, coords, pixelSizeNm, fit, sliceIdx);
    ConcatenateConsistent(list);
    EntriesAligned(segMap, coords, pixelSizeNm, fit, sliceIdx);
    forall c | c in Concatenate(list).trimmedCoords ensures c in coords && MaskAt(segMap, c.z) != [] {
      var e :| e in list && c in e.trimmed;
      assert c in ParticlesInSlice(coords, e.sliceList[0]);
    }
  }


  /**
   * plot_polar_hist and plot_min_dist_hist on one stack, then the side
   * selections. get_num_hist_bins gives 0 bins for an empty selection, and
   * then np.histogram2d (empty bin edges) or plt.hist (bins = 0) raises, so
   * main stops before the side files are written. dist_array.max() raises
   * too when the stack is empty.
   */
  function PlotAndSplit(stack: Stack, norm: Vec -> real, r0: real, r1: real): Result<(seq<Coord>, seq<Coord>), PairError>
    requires StackAligned(stack) && IsEuclideanNorm(norm)
  {
    var minDist := MinDist(stack, norm);
    match Plotting.PolarCriteria(minDist, None)
    case None => Failure(PlotRaised(PolarPlot))
    case Some(criteria) =>
      var masks := Plotting.MinDistMasks(stack.orientations, minDist, Min(r0, r1), Max(r0, r1));
      if Plotting.NumHistBins(|SelectRows(minDist, criteria)|, Plotting.DefaultMultiplier) == 0 then
        Failure(PlotRaised(PolarPlot))
      else if Plotting.NumHistBins(|SelectRows(minDist, masks.0)|, Plotting.DefaultMultiplier) == 0 then
        Failure(PlotRaised(SideIPlot))
      else if Plotting.NumHistBins(|SelectRows(minDist, masks.1)|, Plotting.DefaultMultiplier) == 0 then
        Failure(PlotRaised(SideOPlot))
      else
        Success(StackSides(stack, norm, r0, r1))
  }

  /** A boolean mask selects nothing exactly when it holds no true. */
  lemma {:induction false} SelectRowsEmptyIff<T>(rows: seq<T>, keep: seq<bool>)
    requires |rows| == |keep|
    ensures SelectRows(rows, keep) == [] <==> forall i :: 0 <= i < |keep| ==> !keep[i]
  {
    if rows != [] {
      var n := |rows| - 1;
      SelectRowsEmptyIff(rows[..n], keep[..n]);
      assert forall i :: 0 <= i < n ==> keep[..n][i] == keep[i];
    }
  }

  /** With the default multiplier, a histogram gets no bins exactly when its selection is empty. */
  lemma DefaultBinsZeroIff(count: nat)
    ensures Plotting.NumHistBins(count, Plotting.DefaultMultiplier) == 0 <==> count == 0
  {
  }

  /**
   * The plots raise exactly when no particle lies farther than 0.1 from
   * the membrane, or side_1 or side_0 is empty; otherwise the result is
   * the two sides.
   */
  lemma PlotAndSplitOutcome(stack: Stack, norm: Vec -> real, r0: real, r1: real)
    requires StackAligned(stack) && IsEuclideanNorm(norm) && stack.stackDistro != []
    ensures var r := PlotAndSplit(stack, norm, r0, r1);
      var minDist := MinDist(stack, norm);
      var sides := StackSides(stack, norm, r0, r1);
      && (r == Failure(PlotRaised(PolarPlot)) <==> forall i :: 0 <= i < |minDist| ==> minDist[i] <= Plotting.MinPolarDist)
      && (r.Success? <==>
            (exists i :: 0 <= i < |minDist| && minDist[i] > Plotting.MinPolarDist) && sides.0 != [] && sides.1 != [])
      && (r.Failure? ==> r.error.PlotRaised?)
      && (r.Success? ==> r.value == sides)
  {
    var minDist := MinDist(stack, norm);
    Plotting.PolarCriteriaDefault(minDist);
    var criteria := Plotting.PolarCriteria(minDist, None).value;
    var masks := Plotting.MinDistMasks(stack.orientations, minDist, Min(r0, r1), Max(r0, r1));
    PlottedSidesAreSavedSides(stack.orientations, minDist, r0, r1);
    SelectRowsEmptyIff(minDist, criteria);
    SelectRowsEmptyIff(minDist, masks.0);
    SelectRowsEmptyIff(minDist, masks.1);
    SelectRowsEmptyIff(stack.trimmedCoords, masks.0);
    SelectRowsEmptyIff(stack.trimmedCoords, masks.1);
    DefaultBinsZeroIff(|SelectRows(minDist, criteria)|);
    DefaultBinsZeroIff(|SelectRows(minDist, masks.0)|);
    DefaultBinsZeroIff(|SelectRows(minDist, masks.1)|);
  }

  /**
   * The computation of main's inner loop for one membrane and one
   * coordinate file, from the loaded arrays through the plots to side_1,
   * side_0 and the restoration order.
   */
  function ProcessPair(
    segMap: Volume, data: seq<seq<int>>, width: nat, order: string, pixelSizeNm: real,
    fit: seq<Pixel> -> real, norm: Vec -> real, r0: real, r1: real)
    : Result<(seq<Coord>, seq<Coord>, seq<nat>), PairError>
    requires forall i :: 0 <= i < |data| ==> |data[i]| == width
    requires IsEuclideanNorm(norm)
  {
    match CoordIO.LoadCoords(data, width, order)
    case None => Failure(CoordsOrderError)
    case Some(loaded) =>
      var evalSliceIdx := EvalSlices(segMap, loaded.0);
      match Distribution(segMap, loaded.0, pixelSizeNm, fit, evalSliceIdx)
      case Failure(e) => Failure(EvaluationError(e))
      case Success(stackDistroList) =>
        match Aggregate(stackDistroList)
        case None => Failure(EmptyStack)
        case Some(stack) =>
          StackOfDistribution(segMap, loaded.0, pixelSizeNm, fit, evalSliceIdx);
          match PlotAndSplit(stack, norm, r0, r1)
          case Failure(e) => Failure(e)
          case Success(sides) => Success((sides.0, sides.1, loaded.1))
  }

  /**
   * For one pair: loading fails exactly when load_coords raises;
   * get_distribution raises exactly when an evaluated slice has membrane in
   * row 0 only, and then at np.polyfit; np.vstack raises exactly when
   * otherwise no evaluated slice has a membrane pixel. On success both
   * sides are non-empty (an empty side has made its histogram raise), and
   * every saved coordinate is a loaded particle in a slice with membrane.
   */
  lemma ProcessPairOutcome(
    segMap: Volume, data: seq<seq<int>>, width: nat, order: string, pixelSizeNm: real,
    fit: seq<Pixel> -> real, norm: Vec -> real, r0: real, r1: real)
    requires forall i :: 0 <= i < |data| ==> |data[i]| == width
    requires IsEuclideanNorm(norm)
    ensures var r := ProcessPair(segMap, data, width, order, pixelSizeNm, fit, norm, r0, r1);
      var loaded := CoordIO.LoadCoords(data, width, order);
      && (r.Failure? && r.error == CoordsOrderError <==> loaded.None?)
      && (r.Failure? && r.error.EvaluationError? <==>
            loaded.Some? && exists z :: z in EvalSlices(segMap, loaded.value.0) && FitFailsAt(segMap, z))
      && (r.Failure? && r.error.EvaluationError? ==> r.error.e.FitDidNotConverge?)
      && (r.Failure? && r.error == EmptyStack <==>
            && loaded.Some?
            && (forall z :: z in EvalSlices(segMap, loaded.value.0) ==> !FitFailsAt(segMap, z))
            && KeptSlices(segMap, EvalSlices(segMap, loaded.value.0)) == [])
      && (r.Success? ==> r.value.0 != [] && r.value.1 != [] && r.value.2 == loaded.value.1)
      && (r.Success? ==>
            forall c :: c in r.value.0 + r.value.1 ==> c in loaded.value.0 && MaskAt(segMap, c.z) != [])
  {
    if CoordIO.LoadCoords(data, width, order).Some? {
      var coords := CoordIO.LoadCoords(data, width, order).value.0;
      var zs := EvalSlices(segMap, coords);
      EvalSlicesFailIff(segMap, coords, pixelSizeNm, fit);
      if Distribution(segMap, coords, pixelSizeNm, fit, zs).Success? {
        DistributionEntries(segMap, coords, pixelSizeNm, fit, zs);
        var list := Distribution(segMap, coords, pixelSizeNm, fit, zs).value;
        assert |list| == |KeptSlices(segMap, zs)|;
        if list != [] {
          StackOfDistribution(segMap, coords, pixelSizeNm, fit, zs);
          var stack := Concatenate(list);
          StackNonEmpty(segMap, coords, pixelSizeNm, fit, zs);
          PlotAndSplitOutcome(stack, norm, r0, r1);
          StackSidesWithinStack(stack, norm, r0, r1);
        }
      }
    }
  }

  /** A successful evaluation with at least one entry stacks at least one distance vector. */
  lemma StackNonEmpty(
    segMap: Volume, coords: seq<Coord>, pixelSizeNm: real, fit: seq<Pixel> -> real, sliceIdx: seq<int>)
    requires Distribution(segMap, coords, pixelSizeNm, fit, sliceIdx).Success?
    requires Distribution(segMap, coords, pixelSizeNm, fit, sliceIdx).value != []
    ensures Concatenate(Distribution(segMap, coords, pixelSizeNm, fit, sliceIdx).value).stackDistro != []
  {
    var list := Distribution(segMap, coords, pixelSizeNm, fit, sliceIdx).value;
    EntriesAligned(segMap, coords, pixelSizeNm, fit, sliceIdx);
    ConcatenateConsistent(list);
    var e := list[|list| - 1];
    assert e in list;
    assert e.trimmed[0] in e.trimmed;
  }

  /**
   * With np.polyfit's exact least-squares slope, a straight membrane over
   * at least two rows, col = (num / q) * row + off / q, gets the side label
   * 1 for a distance vector (d0, d1) exactly when d0 * num / q - d1 >= 0:
   * the sides are the two half-planes of that line.
   */
  lemma StraightMembraneLabels(mask: seq<Pixel>, num: int, off: int, q: int, d: Vec)
    requires q != 0 && !MaskFit.SingleRow(mask)
    requires forall i :: 0 <= i < |mask| ==> MaskFit.OnLine(mask[i], num, off, q)
    ensures MaskFit.LeastSquaresSlope(mask).Some?
    ensures SideLabel(d, MaskFit.LeastSquaresSlope(mask).value) == 1 <==> d.d0 * (num as real / q as real) - d.d1 >= 0.0
  {
    MaskFit.ExactLineSlope(mask, num, off, q);
  }
}
