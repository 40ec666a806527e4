/**
 * The computations in korpuskulum/plotting.py that decide what is drawn:
 * the Rice-rule bin count, the particle selection of the polar histogram
 * and the side I / side O selections of the distance histogram. The
 * drawing itself is not modelled.
 */
module Plotting {
  import opened Wrappers

  function Cube(c: nat): nat
  {
    c * c * c
  }

  lemma CubeMonotone(a: nat, b: nat)
    requires a <= b
    ensures Cube(a) <= Cube(b)
  {
    assert a * a <= b * b by {
      assert a * a <= a * b <= b * b;
    }
    assert a * a * a <= b * b * a <= b * b * b;
  }

  lemma CubeAtLeast(c: nat)
    ensures c <= Cube(c)
  {
    if c > 0 {
      assert c * c >= c;
      assert c * c * c >= c * c;
    }
  }

  /** Least c from `from` on with Cube(c) >= n. */
  function CeilCbrtFrom(n: nat, from: nat): (c: nat)
    requires from == 0 || Cube(from - 1) < n
    ensures Cube(c) >= n
    ensures c == 0 || Cube(c - 1) < n
    decreases n - from
  {
    if Cube(from) >= n then from
    else
      CubeAtLeast(from);
      CeilCbrtFrom(n, from + 1)
  }

  /** ceil(cbrt(n)) on the integers: the least c whose cube reaches n. */
  function CeilCbrt(n: nat): (c: nat)
    ensures Cube(c) >= n
    ensures c == 0 || Cube(c - 1) < n
  {
    CeilCbrtFrom(n, 0)
  }

  /** The two bounds pin the cube root down: (c - 1)^3 < n <= c^3 has one solution. */
  lemma CeilCbrtUnique(n: nat, c: nat)
    requires Cube(c) >= n
    requires c == 0 || Cube(c - 1) < n
    ensures c == CeilCbrt(n)
  {
    var r := CeilCbrt(n);
    if c < r {
      CubeMonotone(c, r - 1);
    } else if r < c {
      CubeMonotone(r, c - 1);
    }
  }

  /** More values never get fewer bins. */
  lemma CeilCbrtMonotone(m: nat, n: nat)
    requires m <= n
    ensures CeilCbrt(m) <= CeilCbrt(n)
  {
    var a, b := CeilCbrt(m), CeilCbrt(n);
    if a > b {
      CubeMonotone(b, a - 1);
    }
  }

  /**
   * get_num_hist_bins: multiplier * ceil(cbrt(len(array_in))), with
   * ceil(cbrt(n)) the least c whose cube reaches n; an empty selection gets
   * no bins.
   */
  function NumHistBins(count: nat, multiplier: int): (bins: int)
    ensures bins == multiplier * CeilCbrt(count)
    ensures count == 0 ==> bins == 0
    ensures count > 0 && multiplier > 0 ==> bins >= multiplier
  {
    var c := CeilCbrt(count);
    assert count > 0 && multiplier > 0 ==> c >= 1 && multiplier * c >= multiplier * 1;
    multiplier * c
  }

  /** With a non-negative multiplier the bin count grows with the data. */
  lemma NumHistBinsMonotone(m: nat, n: nat, multiplier: int)
    requires m <= n && multiplier >= 0
    ensures NumHistBins(m, multiplier) <= NumHistBins(n, multiplier)
  {
    CeilCbrtMonotone(m, n);
    ScaleMonotone(multiplier, CeilCbrt(m), CeilCbrt(n));
  }

  lemma ScaleMonotone(k: int, a: int, b: int)
    requires k >= 0 && a <= b
    ensures k * a <= k * b
  {
    assert k * b - k * a == k * (b - a);
  }

  /** With the default multiplier 2: 1 value gets 2 bins, 8 get 4, 9 get 6, 27 get 6, 28 get 8. */
  lemma NumHistBinsExamples()
    ensures NumHistBins(1, 2) == 2
    ensures NumHistBins(8, 2) == 4
    ensures NumHistBins(9, 2) == 6
    ensures NumHistBins(27, 2) == 6
    ensures NumHistBins(28, 2) == 8
  {
    CeilCbrtUnique(1, 1);
    CeilCbrtUnique(8, 2);
    CeilCbrtUnique(9, 3);
    CeilCbrtUnique(27, 3);
    CeilCbrtUnique(28, 4);
  }

  /** dist_array.max(); numpy raises on an empty array, hence the requires. */
  function MaxOf(s: seq<real>): (m: real)
    requires |s| > 0
    ensures m in s
    ensures forall x :: x in s ==> x <= m
  {
    if |s| == 1 then s[0]
    else
      var init := s[..|s| - 1];
      var m := MaxOf(init);
      assert s == init + [s[|s| - 1]];
      if s[|s| - 1] > m then s[|s| - 1] else m
  }

  /** The multiplier plot_polar_hist and plot_min_dist_hist leave at its default. */
  const DefaultMultiplier: int := 2

  /** Particles at or below this distance are left out of the polar histogram. */
  const MinPolarDist: real := 0.1

  /**
   * The polar-histogram selection 0.1 < d <= cutoff, with the cutoff
   * defaulting to the largest distance; None where dist_array.max() raises
   * on an empty array.
   */
  function PolarCriteria(dist: seq<real>, cutoff: Option<real>): (criteria: Option<seq<bool>>)
    ensures criteria.None? <==> cutoff.None? && dist == []
    ensures criteria.Some? ==> |criteria.value| == |dist|
    ensures criteria.Some? && cutoff.Some? ==>
      forall i :: 0 <= i < |dist| ==> (criteria.value[i] <==> MinPolarDist < dist[i] <= cutoff.value)
  {
    if cutoff.None? && dist == [] then None
    else
      var c := if cutoff.Some? then cutoff.value else MaxOf(dist);
      Some(seq(|dist|, i requires 0 <= i < |dist| => MinPolarDist < dist[i] && dist[i] <= c))
  }

  /** Without a cutoff every particle farther than 0.1 from the membrane is plotted. */
  lemma PolarCriteriaDefault(dist: seq<real>)
    requires dist != []
    ensures PolarCriteria(dist, None).Some?
    ensures forall i :: 0 <= i < |dist| ==> (PolarCriteria(dist, None).value[i] <==> MinPolarDist < dist[i])
  {
    var m := MaxOf(dist);
    assert forall i :: 0 <= i < |dist| ==> dist[i] in dist;
  }

  /**
   * crit_1 & crit_2 (side I) and ~crit_1 & crit_2 (side O) of
   * plot_min_dist_hist: no particle is on both sides, and together the
   * sides hold exactly the particles with dist_low <= d <= dist_high.
   */
  function MinDistMasks(orientations: seq<int>, dist: seq<real>, distLow: real, distHigh: real): (m: (seq<bool>, seq<bool>))
    requires |orientations| == |dist|
    ensures |m.0| == |m.1| == |dist|
    ensures forall i :: 0 <= i < |dist| ==> !(m.0[i] && m.1[i])
    ensures forall i :: 0 <= i < |dist| ==> (m.0[i] || m.1[i] <==> distLow <= dist[i] <= distHigh)
    ensures forall i :: 0 <= i < |dist| ==> (m.0[i] ==> orientations[i] == 1) && (m.1[i] ==> orientations[i] != 1)
  {
    var crit2 := seq(|dist|, i requires 0 <= i < |dist| => distLow <= dist[i] && dist[i] <= distHigh);
    (seq(|dist|, i requires 0 <= i < |dist| => orientations[i] == 1 && crit2[i]),
     seq(|dist|, i requires 0 <= i < |dist| => !(orientations[i] == 1) && crit2[i]))
  }
}
