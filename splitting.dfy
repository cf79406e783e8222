/**
 * validateAndSplitClusters (cluster_bureaux.js lines 75-136): a FIFO queue
 * of rounds; a round of at least MinSize stations whose diameter exceeds
 * MaxDistance loses the later station of its farthest pair, which moves to
 * the first finished round that can take it.
 */
module Splitting {
  import opened Wrappers
  import opened Domain
  import opened Diameters

  /** Two indices i < j into a round (`maxPair` of line 100). */
  datatype Pair = Pair(i: nat, j: nat)

  /** The scan of lines 95-96 reaches pair (a, b) before pair (i, j). */
  predicate ScannedBefore(a: int, b: int, i: int, j: int) {
    a < i || (a == i && b < j)
  }

  /**
   * p is a pair of c at distance m > 0, and every pair scanned before it is
   * strictly closer: the pair the scan of lines 95-103 keeps for maximum m.
   */
  ghost predicate FirstAtDistance(c: Cluster, dist: Metric, p: Pair, m: real) {
    p.i < p.j < |c| && dist(c[p.i], c[p.j]) == m && m > 0.0 &&
    forall a, b :: 0 <= a < b < |c| && ScannedBefore(a, b, p.i, p.j) ==> dist(c[a], c[b]) < m
  }

  /** The state of the pair search once every pair before (i, j) is scanned. */
  ghost predicate ScanState(c: Cluster, dist: Metric, i: int, j: int, maxPair: Option<Pair>, maxPairDist: real) {
    (forall a, b :: 0 <= a < b < |c| && ScannedBefore(a, b, i, j) ==> dist(c[a], c[b]) <= maxPairDist) &&
    (maxPair.None? ==> maxPairDist == 0.0) &&
    (maxPair.Some? ==>
      ScannedBefore(maxPair.value.i, maxPair.value.j, i, j) && FirstAtDistance(c, dist, maxPair.value, maxPairDist))
  }

  /** The inner loop of the pair search (lines 96-102): scan the pairs (i, j) for j > i. */
  method ScanRow(c: Cluster, dist: Metric, i: nat, maxPair: Option<Pair>, maxPairDist: Meters)
    returns (maxPair': Option<Pair>, maxPairDist': Meters)
    requires i < |c|
    requires ScanState(c, dist, i, i + 1, maxPair, maxPairDist)
    ensures ScanState(c, dist, i + 1, i + 2, maxPair', maxPairDist')
  {
    maxPair', maxPairDist' := maxPair, maxPairDist;
    for j := i + 1 to |c|
      invariant ScanState(c, dist, i, j, maxPair', maxPairDist')
    {
      var d := dist(c[i], c[j]);
      if d > maxPairDist' {
        ScanTake(c, dist, i, j, maxPair', maxPairDist');
        maxPairDist' := d;
        maxPair' := Some(Pair(i, j));
      } else {
        ScanKeep(c, dist, i, j, maxPair', maxPairDist');
      }
    }
    RowDone(c, dist, i, maxPair', maxPairDist');
  }

  /** A pair strictly farther than every pair before it becomes the kept pair. */
  lemma ScanTake(c: Cluster, dist: Metric, i: nat, j: nat, maxPair: Option<Pair>, maxPairDist: Meters)
    requires i < j < |c| && ScanState(c, dist, i, j, maxPair, maxPairDist)
    requires dist(c[i], c[j]) > maxPairDist
    ensures ScanState(c, dist, i, j + 1, Some(Pair(i, j)), dist(c[i], c[j]))
  {
  }

  /** A pair no farther than the kept one changes nothing. */
  lemma ScanKeep(c: Cluster, dist: Metric, i: nat, j: nat, maxPair: Option<Pair>, maxPairDist: Meters)
    requires i < j < |c| && ScanState(c, dist, i, j, maxPair, maxPairDist)
    requires dist(c[i], c[j]) <= maxPairDist
    ensures ScanState(c, dist, i, j + 1, maxPair, maxPairDist)
  {
  }

  /** Once row i is scanned to the end, the scan stands at the start of row i + 1. */
  lemma RowDone(c: Cluster, dist: Metric, i: nat, maxPair: Option<Pair>, maxPairDist: Meters)
    requires i < |c| && ScanState(c, dist, i, |c|, maxPair, maxPairDist)
    ensures ScanState(c, dist, i + 1, i + 2, maxPair, maxPairDist)
  {
  }

  /**
   * The pair search of lines 92-103: the first pair, in scan order, whose
   * distance is strictly larger than every pair scanned before it, starting
   * from 0. None exactly when no pair is more than 0 apart.
   */
  method FarthestPair(c: Cluster, dist: Metric) returns (maxPair: Option<Pair>)
    ensures maxPair.None? <==> Diameter(c, dist) == 0.0
    ensures maxPair.Some? ==> FirstAtDistance(c, dist, maxPair.value, Diameter(c, dist))
  {
    maxPair := None;
    var maxPairDist: Meters := 0.0;
    for i := 0 to |c|
      invariant ScanState(c, dist, i, i + 1, maxPair, maxPairDist)
    {
      maxPair, maxPairDist := ScanRow(c, dist, i, maxPair, maxPairDist);
    }
    if maxPair.Some? {
      assert dist(c[maxPair.value.i], c[maxPair.value.j]) == maxPairDist;
    }
    DiameterUnique(c, dist, maxPairDist);
  }

  /** Round k is the first of `result` that stays within MaxDistance with `moved` appended. */
  ghost predicate IsFirstFit(result: seq<Cluster>, moved: Point, dist: Metric, k: int) {
    0 <= k < |result| && AppendCost(result[k], moved, dist) <= MaxDistance &&
    forall k' :: 0 <= k' < k ==> AppendCost(result[k'], moved, dist) > MaxDistance
  }

  /**
   * The placement loop of lines 116-124: the first round of `result` that
   * stays within MaxDistance once the moved station is appended.
   */
  method FirstFit(result: seq<Cluster>, moved: Point, dist: Metric) returns (target: Option<nat>)
    ensures target.Some? ==> IsFirstFit(result, moved, dist, target.value)
    ensures target.None? ==> forall k :: 0 <= k < |result| ==> AppendCost(result[k], moved, dist) > MaxDistance
  {
    for k := 0 to |result|
      invariant forall k' :: 0 <= k' < k ==> AppendCost(result[k'], moved, dist) > MaxDistance
    {
      var test := result[k] + [moved];
      var d := MaxDistanceInCluster(test, dist);
      if d <= MaxDistance {
        return Some(k);
      }
    }
    return None;
  }

  /** The termination measure of the queue: the sum of the squared round sizes. */
  function SumOfSquares(q: seq<Cluster>): nat {
    if q == [] then 0 else SumOfSquares(q[..|q| - 1]) + |q[|q| - 1]| * |q[|q| - 1]|
  }

  lemma SumOfSquaresSnoc(q: seq<Cluster>, c: Cluster)
    ensures SumOfSquares(q + [c]) == SumOfSquares(q) + |c| * |c|
  {
    assert (q + [c])[..|q|] == q;
  }

  lemma {:induction false} SumOfSquaresCons(q: seq<Cluster>)
    requires q != []
    ensures SumOfSquares(q) == |q[0]| * |q[0]| + SumOfSquares(q[1..])
    ensures SumOfSquares(q[1..]) <= SumOfSquares(q)
    decreases |q|
  {
    if |q| > 1 {
      var init := q[..|q| - 1];
      SumOfSquaresCons(init);
      assert init[1..] == q[1..][..|q| - 2];
      assert q[1..] == init[1..] + [q[|q| - 1]];
      SumOfSquaresSnoc(init[1..], q[|q| - 1]);
    }
  }

  /** Splitting a round of k >= 2 stations into k - 1 and 1 lowers the measure. */
  lemma SplitLowersMeasure(k: nat)
    requires k >= 2
    ensures (k - 1) * (k - 1) + 1 < k * k
  {
    assert (k - 1) * (k - 1) == k * k - 2 * k + 1;
  }

  lemma RemoveAtMultiset(c: Cluster, k: nat)
    requires k < |c|
    ensures |c[..k] + c[k + 1..]| == |c| - 1
    ensures multiset(c) == multiset(c[..k] + c[k + 1..]) + multiset{c[k]}
  {
    assert c == c[..k] + [c[k]] + c[k + 1..];
  }

  /** Every round of a list has diameter at most MaxDistance. */
  ghost predicate AllWithin(cs: seq<Cluster>, dist: Metric) {
    forall k :: 0 <= k < |cs| ==> Diameter(cs[k], dist) <= MaxDistance
  }

  /**
   * The state after lines 116-128: the moved station was appended to the
   * first finished round that can take it, or queued alone when none can.
   */
  ghost predicate Placed(moved: Point, queue: seq<Cluster>, result: seq<Cluster>,
                         queue': seq<Cluster>, result': seq<Cluster>, dist: Metric) {
    if exists k :: 0 <= k < |result| && AppendCost(result[k], moved, dist) <= MaxDistance then
      queue' == queue && exists k :: IsFirstFit(result, moved, dist, k) && result' == result[k := result[k] + [moved]]
    else
      queue' == queue + [[moved]] && result' == result
  }

  /**
   * The state after one split (lines 105-128): p is the farthest pair the
   * scan keeps, its later station p.j leaves the round, the rest is queued
   * when it still has MinSize stations and finished otherwise, and the moved
   * station is then placed.
   */
  ghost predicate SplitAt(cluster: Cluster, queue: seq<Cluster>, result: seq<Cluster>,
                          queue': seq<Cluster>, result': seq<Cluster>, dist: Metric) {
    exists p :: FirstAtDistance(cluster, dist, p, Diameter(cluster, dist)) &&
      var rest := cluster[..p.j] + cluster[p.j + 1..];
      if |rest| >= MinSize then Placed(cluster[p.j], queue + [rest], result, queue', result', dist)
      else Placed(cluster[p.j], queue, result + [rest], queue', result', dist)
  }

  lemma SplitAtPair(cluster: Cluster, queue: seq<Cluster>, result: seq<Cluster>,
                    queue': seq<Cluster>, result': seq<Cluster>, dist: Metric, p: Pair)
    requires FirstAtDistance(cluster, dist, p, Diameter(cluster, dist))
    requires var rest := cluster[..p.j] + cluster[p.j + 1..];
      if |rest| >= MinSize then Placed(cluster[p.j], queue + [rest], result, queue', result', dist)
      else Placed(cluster[p.j], queue, result + [rest], queue', result', dist)
    ensures SplitAt(cluster, queue, result, queue', result', dist)
  {
  }

  /**
   * Lines 116-128: the moved station joins the first finished round that
   * stays within MaxDistance with it, or else is queued as a round of its own.
   */
  method PlaceMoved(movedElem: Point, queue: seq<Cluster>, result: seq<Cluster>, dist: Metric)
    returns (queue': seq<Cluster>, result': seq<Cluster>)
    requires AllWithin(result, dist)
    ensures Placed(movedElem, queue, result, queue', result', dist)
    ensures Members(queue') + Members(result') == Members(queue) + Members(result) + multiset{movedElem}
    ensures AllWithin(result', dist)
    ensures SumOfSquares(queue') <= SumOfSquares(queue) + 1
  {
    queue', result' := queue, result;
    var target := FirstFit(result, movedElem, dist);
    match target {
      case Some(k) =>
        PlaceInto(queue, result, movedElem, dist, k);
        result' := result[k := result[k] + [movedElem]];
      case None =>
        PlaceAlone(queue, result, movedElem, dist);
        queue' := queue + [[movedElem]];
    }
  }

  /** Appending to the first round that fits (lines 119-121). */
  lemma PlaceInto(queue: seq<Cluster>, result: seq<Cluster>, moved: Point, dist: Metric, k: nat)
    requires IsFirstFit(result, moved, dist, k) && AllWithin(result, dist)
    ensures Placed(moved, queue, result, queue, result[k := result[k] + [moved]], dist)
    ensures Members(result[k := result[k] + [moved]]) == Members(result) + multiset{moved}
    ensures AllWithin(result[k := result[k] + [moved]], dist)
  {
    MembersAppendAt(result, k, moved);
    var result' := result[k := result[k] + [moved]];
    forall k' | 0 <= k' < |result'| ensures Diameter(result'[k'], dist) <= MaxDistance {
      if k' != k {
        assert result'[k'] == result[k'];
      }
    }
  }

  /** Queueing the moved station alone when no round can take it (lines 125-127). */
  lemma PlaceAlone(queue: seq<Cluster>, result: seq<Cluster>, moved: Point, dist: Metric)
    requires forall k :: 0 <= k < |result| ==> AppendCost(result[k], moved, dist) > MaxDistance
    ensures Placed(moved, queue, result, queue + [[moved]], result, dist)
    ensures Members(queue + [[moved]]) == Members(queue) + multiset{moved}
    ensures SumOfSquares(queue + [[moved]]) == SumOfSquares(queue) + 1
  {
    MembersSnoc(queue, [moved]);
    SumOfSquaresSnoc(queue, [moved]);
  }

  /**
   * Lines 92-114: the later station of the farthest pair p leaves the round;
   * the rest is re-queued when it still has MinSize stations and finished
   * otherwise.
   */
  method Detach(cluster: Cluster, queue: seq<Cluster>, result: seq<Cluster>, dist: Metric)
    returns (movedElem: Point, q: seq<Cluster>, r: seq<Cluster>, ghost p: Pair)
    requires |cluster| >= MinSize && Diameter(cluster, dist) > MaxDistance
    requires AllWithin(result, dist)
    ensures FirstAtDistance(cluster, dist, p, Diameter(cluster, dist)) && movedElem == cluster[p.j]
    ensures var rest := cluster[..p.j] + cluster[p.j + 1..];
      if |rest| >= MinSize then q == queue + [rest] && r == result else q == queue && r == result + [rest]
    ensures Members(q) + Members(r) + multiset{movedElem} == Members(queue) + Members(result) + multiset(cluster)
    ensures AllWithin(r, dist)
  {
    var maxPair := FarthestPair(cluster, dist);
    var Pair(i, j) := maxPair.value;
    p := maxPair.value;
    assert i < j;
    var idxToMove := if i >= j then i else j;
    assert idxToMove == p.j;
    movedElem := cluster[idxToMove];
    var newCluster := cluster[..idxToMove] + cluster[idxToMove + 1..];
    RemoveAtMultiset(cluster, idxToMove);

    q, r := queue, result;
    if |newCluster| >= MinSize {
      RequeueRest(queue, result, multiset(cluster), newCluster, movedElem);
      q := queue + [newCluster];
    } else {
      FinishRest(queue, result, multiset(cluster), newCluster, movedElem, dist);
      r := result + [newCluster];
    }
  }

  /** Queueing what is left of a round once x has left it. */
  lemma RequeueRest(queue: seq<Cluster>, result: seq<Cluster>, all: multiset<Point>, rest: Cluster, x: Point)
    requires all == multiset(rest) + multiset{x}
    ensures Members(queue + [rest]) + Members(result) + multiset{x} == Members(queue) + Members(result) + all
  {
    MembersSnoc(queue, rest);
  }

  /**
   * One split queues at most the k - 1 remaining stations and then at most
   * the moved station alone: the measure rises by less than k * k.
   */
  lemma SplitMeasure(queue: seq<Cluster>, q: seq<Cluster>, queue': seq<Cluster>, rest: Cluster, k: nat)
    requires k >= 2 && |rest| == k - 1 && (q == queue + [rest] || q == queue)
    requires SumOfSquares(queue') <= SumOfSquares(q) + 1
    ensures SumOfSquares(queue') < SumOfSquares(queue) + k * k
  {
    SumOfSquaresSnoc(queue, rest);
    SplitLowersMeasure(k);
  }

  /** Finishing what is left of a round once x has left it: fewer than MinSize stations are always within range. */
  lemma FinishRest(queue: seq<Cluster>, result: seq<Cluster>, all: multiset<Point>, rest: Cluster, x: Point, dist: Metric)
    requires all == multiset(rest) + multiset{x}
    requires |rest| < MinSize && AllWithin(result, dist)
    ensures Members(queue) + Members(result + [rest]) + multiset{x} == Members(queue) + Members(result) + all
    ensures AllWithin(result + [rest], dist)
  {
    MembersSnoc(result, rest);
    assert Diameter(rest, dist) == 0.0;
    forall k | 0 <= k < |result + [rest]| ensures Diameter((result + [rest])[k], dist) <= MaxDistance {
      if k < |result| {
        assert (result + [rest])[k] == result[k];
      }
    }
  }

  /**
   * One split (lines 92-128): Detach, then PlaceMoved. No station is lost
   * or duplicated, the finished rounds stay within MaxDistance, and the
   * queue measure drops.
   */
  method SplitFarthest(cluster: Cluster, queue: seq<Cluster>, result: seq<Cluster>, dist: Metric)
    returns (queue': seq<Cluster>, result': seq<Cluster>)
    requires |cluster| >= MinSize && Diameter(cluster, dist) > MaxDistance
    requires AllWithin(result, dist)
    ensures SplitAt(cluster, queue, result, queue', result', dist)
    ensures Members(queue') + Members(result') == Members(queue) + Members(result) + multiset(cluster)
    ensures AllWithin(result', dist)
    ensures SumOfSquares(queue') < SumOfSquares(queue) + |cluster| * |cluster|
  {
    var movedElem, q, r, p := Detach(cluster, queue, result, dist);
    queue', result' := PlaceMoved(movedElem, q, r, dist);
    SplitAtPair(cluster, queue, result, queue', result', dist, p);
    SplitMeasure(queue, q, queue', cluster[..p.j] + cluster[p.j + 1..], |cluster|);
  }

  /** A round within range joins the finished rounds (lines 84-87, 107-109). */
  lemma FinishRound(result: seq<Cluster>, c: Cluster, dist: Metric)
    requires AllWithin(result, dist) && Diameter(c, dist) <= MaxDistance
    ensures AllWithin(result + [c], dist)
    ensures Members(result + [c]) == Members(result) + multiset(c)
  {
    MembersSnoc(result, c);
    forall k | 0 <= k < |result + [c]| ensures Diameter((result + [c])[k], dist) <= MaxDistance {
      if k < |result| {
        assert (result + [c])[k] == result[k];
      }
    }
  }

  /**
   * validateAndSplitClusters: the rounds it returns hold exactly the stations
   * it was given, and every one of them has diameter at most MaxDistance.
   */
  method ValidateAndSplit(clusters: seq<Cluster>, dist: Metric) returns (result: seq<Cluster>)
    ensures Members(result) == Members(clusters)
    ensures forall k :: 0 <= k < |result| ==> Diameter(result[k], dist) <= MaxDistance
  {
    result := [];
    var queue := clusters;
    while |queue| > 0
      invariant Members(queue) + Members(result) == Members(clusters)
      invariant AllWithin(result, dist)
      decreases SumOfSquares(queue), |queue|
    {
      var cluster := queue[0];
      MembersCons(queue);
      SumOfSquaresCons(queue);
      queue := queue[1..];

      if |cluster| < MinSize {
        FinishRound(result, cluster, dist);
        result := result + [cluster];
      } else {
        var maxDist := MaxDistanceInCluster(cluster, dist);
        if maxDist <= MaxDistance {
          FinishRound(result, cluster, dist);
          result := result + [cluster];
        } else {
          queue, result := SplitFarthest(cluster, queue, result, dist);
        }
      }
    }
  }
}
