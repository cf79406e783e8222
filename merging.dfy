/**
 * mergeSmallClusters (cluster_bureaux.js lines 138-173): rounds below
 * MinSize are dissolved and each of their stations joins the big round it
 * fits best, or the first big round when none fits, or starts a round when
 * there is no big round at all.
 */
module Merging {
  import opened Wrappers
  import opened Domain
  import opened Diameters

  /** The rounds of at least MinSize stations, in order (line 143). */
  function BigClusters(cs: seq<Cluster>): (big: seq<Cluster>)
    ensures forall k :: 0 <= k < |big| ==> |big[k]| >= MinSize
  {
    if cs == [] then []
    else BigClusters(cs[..|cs| - 1]) + (if |cs[|cs| - 1]| >= MinSize then [cs[|cs| - 1]] else [])
  }

  /** The stations of the smaller rounds, in order (line 144). */
  function Orphans(cs: seq<Cluster>): seq<Point> {
    if cs == [] then []
    else Orphans(cs[..|cs| - 1]) + (if |cs[|cs| - 1]| >= MinSize then [] else cs[|cs| - 1])
  }

  /** The partition of lines 142-145 loses and duplicates nothing. */
  lemma {:induction false} PartitionConserves(cs: seq<Cluster>)
    ensures Members(BigClusters(cs)) + multiset(Orphans(cs)) == Members(cs)
  {
    if cs != [] {
      var init, last := cs[..|cs| - 1], cs[|cs| - 1];
      PartitionConserves(init);
      assert Members(cs) == Members(init) + multiset(last);
      if |last| >= MinSize {
        assert BigClusters(cs) == BigClusters(init) + [last];
        assert Orphans(cs) == Orphans(init);
        MembersSnoc(BigClusters(init), last);
      } else {
        assert BigClusters(cs) == BigClusters(init);
        assert Orphans(cs) == Orphans(init) + last;
        assert multiset(Orphans(init) + last) == multiset(Orphans(init)) + multiset(last);
      }
    }
  }

  /**
   * The partition keeps the input order: the big rounds and the orphans of
   * a concatenation are those of its first part followed by those of its
   * second part.
   */
  lemma {:induction false} PartitionConcat(a: seq<Cluster>, b: seq<Cluster>)
    ensures BigClusters(a + b) == BigClusters(a) + BigClusters(b)
    ensures Orphans(a + b) == Orphans(a) + Orphans(b)
    decreases |b|
  {
    if b == [] {
      assert a + b == a;
    } else {
      var init, last := b[..|b| - 1], b[|b| - 1];
      assert (a + b)[..|a + b| - 1] == a + init;
      PartitionConcat(a, init);
    }
  }

  /**
   * A round is kept exactly when it is an input round of at least MinSize
   * stations; a station is an orphan exactly when it belongs to an input
   * round of fewer than MinSize stations.
   */
  lemma {:induction false} PartitionMembers(cs: seq<Cluster>)
    ensures forall c :: c in BigClusters(cs) <==> c in cs && |c| >= MinSize
    ensures forall p :: p in Orphans(cs) <==> exists k :: 0 <= k < |cs| && |cs[k]| < MinSize && p in cs[k]
  {
    if cs != [] {
      var init, last := cs[..|cs| - 1], cs[|cs| - 1];
      PartitionMembers(init);
      assert cs == init + [last];
      forall c ensures c in BigClusters(cs) <==> c in cs && |c| >= MinSize {
        assert c in cs <==> c in init || c == last;
      }
      forall p ensures p in Orphans(cs) <==> exists k :: 0 <= k < |cs| && |cs[k]| < MinSize && p in cs[k] {
        if exists k :: 0 <= k < |cs| && |cs[k]| < MinSize && p in cs[k] {
          var k :| 0 <= k < |cs| && |cs[k]| < MinSize && p in cs[k];
          if k < |init| {
            assert init[k] == cs[k];
          }
        }
        if exists k :: 0 <= k < |init| && |init[k]| < MinSize && p in init[k] {
          var k :| 0 <= k < |init| && |init[k]| < MinSize && p in init[k];
          assert cs[k] == init[k];
        }
      }
    }
  }

  /** Big rounds taken from rounds within MaxDistance are within MaxDistance. */
  lemma BigWithin(cs: seq<Cluster>, dist: Metric)
    requires forall k :: 0 <= k < |cs| ==> Diameter(cs[k], dist) <= MaxDistance
    ensures forall k :: 0 <= k < |BigClusters(cs)| ==> Diameter(BigClusters(cs)[k], dist) <= MaxDistance
  {
    PartitionMembers(cs);
    var big := BigClusters(cs);
    forall k | 0 <= k < |big| ensures Diameter(big[k], dist) <= MaxDistance {
      assert big[k] in big;
      var j :| 0 <= j < |cs| && cs[j] == big[k];
    }
  }

  /**
   * The best-fit scan of lines 148-159 over the first n big rounds: a round
   * is a candidate when its diameter with p appended is at most MaxDistance;
   * a later candidate wins only when strictly better.
   */
  function BestFitUpTo(big: seq<Cluster>, p: Point, dist: Metric, n: nat): (r: Option<nat>)
    requires n <= |big|
    ensures r.Some? ==> r.value < n
  {
    if n == 0 then None
    else
      var best := BestFitUpTo(big, p, dist, n - 1);
      var d := AppendCost(big[n - 1], p, dist);
      if d <= MaxDistance && (best.None? || d < AppendCost(big[best.value], p, dist)) then Some(n - 1)
      else best
  }

  /**
   * k is the lowest index, among the first n rounds, whose cost is within
   * MaxDistance and smallest among those within MaxDistance.
   */
  ghost predicate IsBestFit(big: seq<Cluster>, p: Point, dist: Metric, n: nat, k: nat)
    requires n <= |big|
  {
    k < n && AppendCost(big[k], p, dist) <= MaxDistance &&
    (forall i :: 0 <= i < n && AppendCost(big[i], p, dist) <= MaxDistance ==>
      AppendCost(big[k], p, dist) <= AppendCost(big[i], p, dist)) &&
    (forall i :: 0 <= i < k && AppendCost(big[i], p, dist) <= MaxDistance ==>
      AppendCost(big[k], p, dist) < AppendCost(big[i], p, dist))
  }

  /**
   * The scan finds nothing exactly when no round can take p within
   * MaxDistance; otherwise it finds the lowest-index round of smallest cost.
   */
  lemma {:induction false} BestFitCharacterized(big: seq<Cluster>, p: Point, dist: Metric, n: nat)
    requires n <= |big|
    ensures BestFitUpTo(big, p, dist, n).None? <==>
      forall i :: 0 <= i < n ==> AppendCost(big[i], p, dist) > MaxDistance
    ensures BestFitUpTo(big, p, dist, n).Some? ==> IsBestFit(big, p, dist, n, BestFitUpTo(big, p, dist, n).value)
  {
    if n > 0 {
      BestFitCharacterized(big, p, dist, n - 1);
    }
  }

  /** The best-fit loop of lines 148-159; bestIdx = -1 stands for bestDist = Infinity. */
  method BestFit(big: seq<Cluster>, point: Point, dist: Metric) returns (best: Option<nat>)
    ensures best == BestFitUpTo(big, point, dist, |big|)
  {
    var bestIdx := -1;
    var bestDist: Meters := 0.0;
    for i := 0 to |big|
      invariant bestIdx == -1 ==> BestFitUpTo(big, point, dist, i).None?
      invariant bestIdx != -1 ==>
        BestFitUpTo(big, point, dist, i) == Some(bestIdx) && bestDist == AppendCost(big[bestIdx], point, dist)
    {
      var test := big[i] + [point];
      var d := MaxDistanceInCluster(test, dist);
      if d <= MaxDistance && (bestIdx == -1 || d < bestDist) {
        bestDist := d;
        bestIdx := i;
      }
    }
    best := if bestIdx == -1 then None else Some(bestIdx);
  }

  /** Where one orphan goes (lines 161-169). */
  function Place(big: seq<Cluster>, p: Point, dist: Metric): seq<Cluster> {
    match BestFitUpTo(big, p, dist, |big|)
    case Some(k) => big[k := big[k] + [p]]
    case None => if big != [] then big[0 := big[0] + [p]] else [[p]]
  }

  /** The orphan loop of lines 147-170, one orphan after the other. */
  function MergeAll(big: seq<Cluster>, orphans: seq<Point>, dist: Metric): seq<Cluster>
    decreases |orphans|
  {
    if orphans == [] then big else MergeAll(Place(big, orphans[0], dist), orphans[1..], dist)
  }

  /** Placing orphans loses and duplicates nothing. */
  lemma {:induction false} MergeConserves(big: seq<Cluster>, orphans: seq<Point>, dist: Metric)
    ensures Members(MergeAll(big, orphans, dist)) == Members(big) + multiset(orphans)
    decreases |orphans|
  {
    if orphans != [] {
      var p := orphans[0];
      var placed := Place(big, p, dist);
      MergeConserves(placed, orphans[1..], dist);
      PlaceConserves(big, p, dist);
      assert orphans == [p] + orphans[1..];
      assert multiset(orphans) == multiset{p} + multiset(orphans[1..]);
    }
  }

  /** Placing one orphan adds exactly that station. */
  lemma PlaceConserves(big: seq<Cluster>, p: Point, dist: Metric)
    ensures Members(Place(big, p, dist)) == Members(big) + multiset{p}
  {
    match BestFitUpTo(big, p, dist, |big|)
    case Some(k) =>
      MembersAppendAt(big, k, p);
    case None =>
      if big != [] {
        MembersAppendAt(big, 0, p);
      } else {
        MembersSnoc([], [p]);
        assert [] + [[p]] == [[p]];
      }
  }

  /** With at least one big round, every big round keeps its place and grows only at its end. */
  lemma {:induction false} MergeKeepsPrefixes(big: seq<Cluster>, orphans: seq<Point>, dist: Metric)
    requires big != []
    ensures |MergeAll(big, orphans, dist)| == |big|
    ensures forall k :: 0 <= k < |big| ==> big[k] <= MergeAll(big, orphans, dist)[k]
    decreases |orphans|
  {
    if orphans != [] {
      var placed := Place(big, orphans[0], dist);
      MergeKeepsPrefixes(placed, orphans[1..], dist);
      forall k | 0 <= k < |big| ensures big[k] <= placed[k] {
        assert big[k] <= big[k] + [orphans[0]];
      }
    }
  }

  /** Appending to a lone round: whatever the distances, the orphans join it in order. */
  lemma {:induction false} MergeIntoSingle(c: Cluster, orphans: seq<Point>, dist: Metric)
    ensures MergeAll([c], orphans, dist) == [c + orphans]
    decreases |orphans|
  {
    if orphans != [] {
      var p := orphans[0];
      assert Place([c], p, dist) == [c + [p]];
      MergeIntoSingle(c + [p], orphans[1..], dist);
      assert orphans == [p] + orphans[1..];
      assert c + [p] + orphans[1..] == c + orphans;
    } else {
      assert c + orphans == c;
    }
  }

  /** With no big round, the orphans form a single round, in order (or nothing when there are none). */
  lemma MergeWithoutBig(orphans: seq<Point>, dist: Metric)
    ensures MergeAll([], orphans, dist) == if orphans == [] then [] else [orphans]
  {
    if orphans != [] {
      assert Place([], orphans[0], dist) == [[orphans[0]]];
      MergeIntoSingle([orphans[0]], orphans[1..], dist);
      assert [orphans[0]] + orphans[1..] == orphans;
    }
  }

  /**
   * Sizes after merging: with at least one big round every round has at
   * least MinSize stations; with none, the result is at most one round.
   * No round is ever empty.
   */
  lemma MergeSizes(big: seq<Cluster>, orphans: seq<Point>, dist: Metric)
    requires forall k :: 0 <= k < |big| ==> |big[k]| >= MinSize
    ensures big != [] ==> forall k :: 0 <= k < |MergeAll(big, orphans, dist)| ==> |MergeAll(big, orphans, dist)[k]| >= MinSize
    ensures big == [] ==> |MergeAll(big, orphans, dist)| <= 1
    ensures forall k :: 0 <= k < |MergeAll(big, orphans, dist)| ==> MergeAll(big, orphans, dist)[k] != []
  {
    if big != [] {
      MergeKeepsPrefixes(big, orphans, dist);
      var out := MergeAll(big, orphans, dist);
      forall k | 0 <= k < |out| ensures |out[k]| >= MinSize {
        assert |big[k]| <= |out[k]|;
      }
    } else {
      MergeWithoutBig(orphans, dist);
    }
  }

  /**
   * Nothing caps the size of a round: a round of MaxSize stations that is
   * the only big round takes any orphan, whatever the distances.
   */
  lemma MergeMayExceedMaxSize(c: Cluster, p: Point, dist: Metric)
    requires |c| == MaxSize
    ensures |MergeAll([c], [p], dist)| == 1 && |MergeAll([c], [p], dist)[0]| == MaxSize + 1
  {
    MergeIntoSingle(c, [p], dist);
  }

  /** Every orphan found a round within MaxDistance: the fallback of lines 163-168 never ran. */
  ghost predicate NoFallback(big: seq<Cluster>, orphans: seq<Point>, dist: Metric)
    decreases |orphans|
  {
    orphans == [] ||
    (BestFitUpTo(big, orphans[0], dist, |big|).Some? && NoFallback(Place(big, orphans[0], dist), orphans[1..], dist))
  }

  /** Unless the fallback runs, merging keeps every round within MaxDistance. */
  lemma {:induction false} MergeWithinReach(big: seq<Cluster>, orphans: seq<Point>, dist: Metric)
    requires forall k :: 0 <= k < |big| ==> Diameter(big[k], dist) <= MaxDistance
    requires NoFallback(big, orphans, dist)
    ensures forall k :: 0 <= k < |MergeAll(big, orphans, dist)| ==> Diameter(MergeAll(big, orphans, dist)[k], dist) <= MaxDistance
    decreases |orphans|
  {
    if orphans != [] {
      var p := orphans[0];
      BestFitCharacterized(big, p, dist, |big|);
      MergeWithinReach(Place(big, p, dist), orphans[1..], dist);
    }
  }

  /**
   * Whatever the distances, merging keeps every round after the first
   * within MaxDistance: best-fit appends only within MaxDistance, and the
   * fallback appends only to the first round or creates it.
   */
  lemma {:induction false} MergeTailWithin(big: seq<Cluster>, orphans: seq<Point>, dist: Metric)
    requires forall k :: 1 <= k < |big| ==> Diameter(big[k], dist) <= MaxDistance
    ensures forall k :: 1 <= k < |MergeAll(big, orphans, dist)| ==> Diameter(MergeAll(big, orphans, dist)[k], dist) <= MaxDistance
    decreases |orphans|
  {
    if orphans != [] {
      var p := orphans[0];
      BestFitCharacterized(big, p, dist, |big|);
      MergeTailWithin(Place(big, p, dist), orphans[1..], dist);
    }
  }

  /** One more round of input extends either the big rounds or the orphans. */
  lemma PartitionStep(cs: seq<Cluster>, i: nat)
    requires i < |cs|
    ensures BigClusters(cs[..i + 1]) == BigClusters(cs[..i]) + (if |cs[i]| >= MinSize then [cs[i]] else [])
    ensures Orphans(cs[..i + 1]) == Orphans(cs[..i]) + (if |cs[i]| >= MinSize then [] else cs[i])
  {
    assert cs[..i + 1][..i] == cs[..i];
  }

  /** Merging the orphans from i on is placing orphan i, then merging the ones after it. */
  lemma MergeStep(big: seq<Cluster>, small: seq<Point>, i: nat, dist: Metric)
    requires i < |small|
    ensures MergeAll(big, small[i..], dist) == MergeAll(Place(big, small[i], dist), small[i + 1..], dist)
  {
    assert small[i..][1..] == small[i + 1..];
  }

  /**
   * mergeSmallClusters: split into big rounds and orphans (lines 142-145),
   * then place the orphans one by one (lines 147-170).
   */
  method MergeSmallClusters(clusters: seq<Cluster>, dist: Metric) returns (big: seq<Cluster>)
    ensures big == MergeAll(BigClusters(clusters), Orphans(clusters), dist)
  {
    big := [];
    var small: seq<Point> := [];
    for i := 0 to |clusters|
      invariant big == BigClusters(clusters[..i]) && small == Orphans(clusters[..i])
    {
      var c := clusters[i];
      PartitionStep(clusters, i);
      if |c| >= MinSize {
        big := big + [c];
      } else {
        small := small + c;
      }
    }
    assert clusters[..|clusters|] == clusters;
    ghost var start := big;
    for i := 0 to |small|
      invariant MergeAll(big, small[i..], dist) == MergeAll(start, small, dist)
    {
      var point := small[i];
      MergeStep(big, small, i, dist);
      ghost var before := big;
      var bestIdx := BestFit(big, point, dist);
      match bestIdx {
        case Some(k) =>
          big := big[k := big[k] + [point]];
        case None =>
          if |big| > 0 {
            big := big[0 := big[0] + [point]];
          } else {
            big := big + [[point]];
          }
      }
      assert big == Place(before, point, dist);
    }
    assert small[|small|..] == [];
  }
}
