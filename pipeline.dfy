/**
 * The body of main in cluster_bureaux.js without its I/O: group and
 * deduplicate the stations (lines 28-58), then, for every postal code,
 * seed rounds, split the over-wide ones and merge the small ones
 * (lines 175-206).
 */
module Pipeline {
  import opened Wrappers
  import opened Domain
  import opened Diameters
  import opened Grouping
  import opened Seeding
  import opened Splitting
  import opened Merging

  /**
   * What the clustering of one group guarantees: every station of the
   * group in exactly one round, no empty round, and rounds of at least
   * MinSize stations unless there is at most one round.
   */
  ghost predicate WellClustered(items: seq<Point>, clusters: seq<Cluster>) {
    Members(clusters) == multiset(items) &&
    (forall k :: 0 <= k < |clusters| ==> clusters[k] != []) &&
    (|clusters| <= 1 || forall k :: 0 <= k < |clusters| ==> |clusters[k]| >= MinSize)
  }

  /**
   * The rounds of a group are the merge of a split result: `validated`
   * holds the group's stations in rounds within MaxDistance, the output is
   * exactly `MergeAll` of its big rounds and orphans, every round after the
   * first is within MaxDistance, and the first one is too unless the merge
   * fallback of lines 163-168 runs.
   */
  ghost predicate SplitThenMerged(items: seq<Point>, validated: seq<Cluster>, clusters: seq<Cluster>, dist: Metric) {
    Members(validated) == multiset(items) && AllWithin(validated, dist) &&
    clusters == MergeAll(BigClusters(validated), Orphans(validated), dist) &&
    (forall k :: 1 <= k < |clusters| ==> Diameter(clusters[k], dist) <= MaxDistance) &&
    (NoFallback(BigClusters(validated), Orphans(validated), dist) ==> AllWithin(clusters, dist))
  }

  /** One group: seed (lines 178-200), split (line 202), merge (line 203). */
  method ClusterGroup(items: seq<Point>, dist: Metric) returns (clusters: seq<Cluster>, ghost validated: seq<Cluster>)
    requires Distinct(items)
    ensures WellClustered(items, clusters)
    ensures SplitThenMerged(items, validated, clusters, dist)
  {
    var seeded := SeedClusters(items, dist);
    SeededConserves(items, dist);
    var split := ValidateAndSplit(seeded, dist);
    validated := split;
    clusters := MergeSmallClusters(split, dist);
    PartitionConserves(validated);
    MergeConserves(BigClusters(validated), Orphans(validated), dist);
    MergeSizes(BigClusters(validated), Orphans(validated), dist);
    BigWithin(validated, dist);
    MergeTailWithin(BigClusters(validated), Orphans(validated), dist);
    if NoFallback(BigClusters(validated), Orphans(validated), dist) {
      MergeWithinReach(BigClusters(validated), Orphans(validated), dist);
    }
  }

  /** The loop of lines 177-206 over every group; groups are independent. */
  method ClusterAll(groups: map<string, seq<Point>>, dist: Metric) returns (result: map<string, seq<Cluster>>)
    requires forall cp :: cp in groups ==> Distinct(groups[cp])
    ensures result.Keys == groups.Keys
    ensures forall cp :: cp in result ==> WellClustered(groups[cp], result[cp])
    ensures forall cp :: cp in result ==> exists v :: SplitThenMerged(groups[cp], v, result[cp], dist)
  {
    result := map[];
    var todo := groups.Keys;
    while todo != {}
      invariant todo <= groups.Keys && result.Keys == groups.Keys - todo
      invariant forall cp :: cp in result ==> WellClustered(groups[cp], result[cp])
      invariant forall cp :: cp in result ==> exists v :: SplitThenMerged(groups[cp], v, result[cp], dist)
      decreases todo
    {
      var cp :| cp in todo;
      var clusters;
      ghost var validated;
      clusters, validated := ClusterGroup(groups[cp], dist);
      result := result[cp := clusters];
      todo := todo - {cp};
    }
  }

  /**
   * main without I/O: None when the grouping loop throws (an inherited
   * postal-code key, line 47); otherwise every postal code that has a
   * located station gets a list of rounds holding exactly its stations with
   * one per address.
   */
  method Run(records: seq<RawRecord>, dist: Metric) returns (result: Option<map<string, seq<Cluster>>>)
    ensures result.None? <==> exists i :: 0 <= i < |records| && Throws(records[i])
    ensures result.Some? ==> result.value.Keys == GroupKeys(records)
    ensures result.Some? ==> forall cp :: cp in result.value ==>
      WellClustered(FirstByAddress(GroupOf(records, cp)), result.value[cp])
    ensures result.Some? ==> forall cp :: cp in result.value ==>
      exists v :: SplitThenMerged(FirstByAddress(GroupOf(records, cp)), v, result.value[cp], dist)
  {
    var grouped := BuildGroups(records);
    if grouped.None? {
      return None;
    }
    var byCp := grouped.value;
    var deduped := DedupGroups(byCp);
    forall cp | cp in deduped ensures Distinct(deduped[cp]) {
      DedupDistinct(byCp[cp]);
    }
    var clustered := ClusterAll(deduped, dist);
    return Some(clustered);
  }
}
