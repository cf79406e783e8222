/**
 * The diameter of a round: the largest distance between two of its stations
 * (getMaxDistanceInCluster, cluster_bureaux.js lines 64-73).
 */
module Diameters {
  import opened Domain

  /** The largest distance from p to a station of s, 0 when s is empty. */
  function RowMax(p: Point, s: seq<Point>, dist: Metric): Meters {
    if s == [] then 0.0 else Max(dist(p, s[0]), RowMax(p, s[1..], dist))
  }

  /** The specification of the diameter: 0 below two stations, else the largest pair distance. */
  function Diameter(c: Cluster, dist: Metric): Meters {
    if |c| < 2 then 0.0 else Max(RowMax(c[0], c[1..], dist), Diameter(c[1..], dist))
  }

  /** The diameter of a round once p is appended to it (the `test` arrays of the source). */
  function AppendCost(c: Cluster, p: Point, dist: Metric): Meters {
    Diameter(c + [p], dist)
  }

  /** m is at least the distance of every pair i < j. */
  ghost predicate BoundsAllPairs(c: Cluster, dist: Metric, m: real) {
    forall a, b :: 0 <= a < b < |c| ==> dist(c[a], c[b]) <= m
  }

  /** m is the distance of some pair i < j. */
  ghost predicate IsPairDistance(c: Cluster, dist: Metric, m: real) {
    exists a, b :: 0 <= a < b < |c| && dist(c[a], c[b]) == m
  }

  lemma {:induction false} RowMaxBound(p: Point, s: seq<Point>, dist: Metric)
    ensures forall b :: 0 <= b < |s| ==> dist(p, s[b]) <= RowMax(p, s, dist)
  {
    if s != [] {
      RowMaxBound(p, s[1..], dist);
      forall b | 1 <= b < |s| ensures dist(p, s[b]) <= RowMax(p, s, dist) {
        assert s[b] == s[1..][b - 1];
      }
    }
  }

  lemma {:induction false} RowMaxAttained(p: Point, s: seq<Point>, dist: Metric)
    requires s != []
    ensures exists b :: 0 <= b < |s| && RowMax(p, s, dist) == dist(p, s[b])
  {
    if |s| > 1 && RowMax(p, s, dist) != dist(p, s[0]) {
      RowMaxAttained(p, s[1..], dist);
      var b :| 0 <= b < |s| - 1 && RowMax(p, s[1..], dist) == dist(p, s[1..][b]);
      assert s[1..][b] == s[b + 1];
    } else {
      assert |s| == 1 ==> s[1..] == [];
      assert RowMax(p, s, dist) == dist(p, s[0]);
    }
  }

  /** The diameter bounds the distance of every pair. */
  lemma {:induction false} DiameterBound(c: Cluster, dist: Metric)
    ensures BoundsAllPairs(c, dist, Diameter(c, dist))
  {
    if |c| >= 2 {
      var d := Diameter(c, dist);
      RowMaxBound(c[0], c[1..], dist);
      DiameterBound(c[1..], dist);
      forall a, b | 0 <= a < b < |c| ensures dist(c[a], c[b]) <= d {
        if a == 0 {
          assert c[b] == c[1..][b - 1];
        } else {
          assert c[a] == c[1..][a - 1] && c[b] == c[1..][b - 1];
        }
      }
    }
  }

  /** From two stations on, the diameter is the distance of one of the pairs. */
  lemma {:induction false} DiameterAttained(c: Cluster, dist: Metric)
    requires |c| >= 2
    ensures IsPairDistance(c, dist, Diameter(c, dist))
  {
    var d := Diameter(c, dist);
    assert |c| == 2 ==> Diameter(c[1..], dist) == 0.0;
    if d == RowMax(c[0], c[1..], dist) {
      RowMaxAttained(c[0], c[1..], dist);
      var b :| 0 <= b < |c| - 1 && d == dist(c[0], c[1..][b]);
      assert c[1..][b] == c[b + 1];
    } else {
      assert |c| > 2;
      DiameterAttained(c[1..], dist);
      var a, b :| 0 <= a < b < |c| - 1 && d == dist(c[1..][a], c[1..][b]);
      assert c[1..][a] == c[a + 1] && c[1..][b] == c[b + 1];
    }
  }

  /** A bound on all pairs that is 0 or a pair distance is the diameter. */
  lemma DiameterUnique(c: Cluster, dist: Metric, m: real)
    requires BoundsAllPairs(c, dist, m)
    requires m == 0.0 || IsPairDistance(c, dist, m)
    ensures m == Diameter(c, dist)
  {
    DiameterBound(c, dist);
    if |c| >= 2 {
      DiameterAttained(c, dist);
    }
  }

  /**
   * getMaxDistanceInCluster: the running maximum over the pairs i < j,
   * starting from 0.
   */
  method MaxDistanceInCluster(cluster: Cluster, dist: Metric) returns (maxDist: Meters)
    ensures maxDist == Diameter(cluster, dist)
  {
    maxDist := 0.0;
    for i := 0 to |cluster|
      invariant forall a, b :: 0 <= a < i && a < b < |cluster| ==> dist(cluster[a], cluster[b]) <= maxDist
      invariant maxDist == 0.0 || IsPairDistance(cluster, dist, maxDist)
    {
      for j := i + 1 to |cluster|
        invariant forall a, b :: 0 <= a < i && a < b < |cluster| ==> dist(cluster[a], cluster[b]) <= maxDist
        invariant forall b :: i < b < j ==> dist(cluster[i], cluster[b]) <= maxDist
        invariant maxDist == 0.0 || IsPairDistance(cluster, dist, maxDist)
      {
        var d := dist(cluster[i], cluster[j]);
        maxDist := Max(maxDist, d);
      }
    }
    DiameterUnique(cluster, dist, maxDist);
  }
}
