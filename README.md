# Clustering of voting stations into rounds, in Dafny

This project models the core of `cluster_bureaux.js`. The script reads voting-station records, groups them by postal code and, within each postal code, builds "rounds". A round is a small list of stations that a collection trip visits together: 2 to 6 stations (`MIN`, `MAX`) whose farthest pair is at most 1000 m apart (`MAX_DISTANCE`).

The model follows the script's own stages:

| module | file | stage of `main` |
|---|---|---|
| `Domain` | `domain.dfy` | stations, rounds, the three constants, the distance, `Members` (the multiset of stations in a list of rounds) |
| `Grouping` | `grouping.dfy` | grouping by postal code (lines 28-48) and address de-duplication (lines 51-58) |
| `Diameters` | `diameter.dfy` | `getMaxDistanceInCluster` (lines 64-73) |
| `Seeding` | `seeding.dfy` | greedy seed rounds (lines 177-200) |
| `Splitting` | `splitting.dfy` | `validateAndSplitClusters` (lines 75-136) |
| `Merging` | `merging.dfy` | `mergeSmallClusters` (lines 138-173) |
| `Pipeline` | `pipeline.dfy` | one group (lines 178-205), all groups (lines 177-206), and `main` without I/O |

How the model is written:

- The distance between two stations is a parameter, `dist: Metric`, that returns a non-negative real number. Every result holds for any such function, so it also holds for the haversine distance.
- Each loop of the script is a Dafny `method` with a loop. The method is proved against a specification function over sequences and maps, for example:
  - `SeedClusters` equals `Seeded`;
  - `BuildGroups` returns exactly `GroupOf` for each key;
  - `DedupByAddress` equals `FirstByAddress`;
  - `MergeSmallClusters` equals `MergeAll(BigClusters, Orphans)`.

  The lemmas then prove what the script promises about those functions. `validateAndSplitClusters` is deliberately specified by properties rather than by a recursive function giving its exact output; its loop is proved through:
  - the exact effect of one split (`SplitAt`, `Placed`);
  - conservation of stations;
  - the diameter bound;
  - a termination measure: the sum of the squared sizes of the queued rounds.
- The script finds a neighbour in the pool with `indexOf`, which compares JavaScript object identity. Here stations are values. After address de-duplication no two stations of a group are equal (`Grouping.DedupDistinct`), and that is what `SeedClusters` requires. The specification function `Seeded` removes stations by position, so it needs no such assumption.
- A located record whose postal code names a property that every object inherits (`toString`, `constructor`, `__proto__`, ...) makes line 47 throw a TypeError: `byCp[cp] || []` yields the inherited value, which has no `push`. `main` then ends with the error (lines 240-243). `Grouping.BuildGroups` and `Pipeline.Run` return `None` in exactly that case.
- JavaScript's in-place `push` into a round that sits in `result` or `big` becomes the update `cs[k := cs[k] + [p]]`. The round arrays are shared with the caller's lists: `clusters.slice()` (line 77) and `big.push(c)` (line 143) copy only the outer array, so lines 120, 162 and 165 change rounds the caller can still see. The caller never reads those lists again (lines 202-203), so modelling the rounds as values loses no observable behaviour.

Two statements about the script's intent are not what the code does. The model follows the code:

- Nothing caps a round at `MAX` stations after seeding. Line 120 (split placement) and lines 162 and 165 (merge) append without a size check. `Merging.MergeMayExceedMaxSize` shows a round of 6 stations that receives a seventh.
- When no big round can take an orphan within 1000 m, the orphan is appended to the first big round anyway (line 165). So an orphan never stays a singleton while a big round exists (`Merging.MergeSizes`). The fallback only ever appends to the first round, or creates it. So every round after the first always keeps the 1000 m bound (`Merging.MergeTailWithin`), and the first round keeps it too when the fallback never runs (`Merging.MergeWithinReach`). `Pipeline.ClusterGroup` carries both facts to the rounds of every group.

## Model

| member | source | states |
|---|---|---|
| Diameters.MaxDistanceInCluster | cluster_bureaux.js:64-73 | the nested loop returns exactly `Diameter(cluster)` |
| Diameters.DiameterBound | cluster_bureaux.js:64-73 | the diameter is at least the distance of every pair i < j |
| Diameters.DiameterAttained | cluster_bureaux.js:64-73 | with two or more stations, the diameter equals the distance of some pair i < j |
| Diameters.DiameterUnique | cluster_bureaux.js:64-73 | any value that bounds all pairs and is 0 or a pair's distance is the diameter |
| Grouping.EntryKept | cluster_bureaux.js:31-44 | a record is kept iff `geo_point_2d`, its `lat` and its `lon` are present; the kept station carries the record's key, address and coordinates |
| Grouping.GroupKeyFallback | cluster_bureaux.js:30 | the key is `cp`, else `code_postal`, else `'unknown'`; empty strings are skipped like any falsy value |
| Grouping.GroupOfMembers | cluster_bureaux.js:29-47 | a station is in group cp iff some kept record with key cp produced it |
| Grouping.GroupOfKey | cluster_bureaux.js:30-47 | every station of group cp has `cp` as its postal code |
| Grouping.GroupKeysNonEmpty | cluster_bureaux.js:46-47 | a postal code is a key iff its group is non-empty |
| Grouping.BuildGroups | cluster_bureaux.js:28-48 | throws (`None`) iff some located record has an inherited key; otherwise the map has exactly the keys of the located records, and each value is the records of that key, in input order, and is non-empty |
| Grouping.KeepFirstMembers | cluster_bureaux.js:53-57 | a station survives de-duplication iff it is the first of its address |
| Grouping.DedupAddressesDistinct | cluster_bureaux.js:53-57 | after de-duplication, addresses are pairwise distinct |
| Grouping.DedupKeepsEveryAddress | cluster_bureaux.js:53-57 | every address of the group is still present after de-duplication |
| Grouping.DedupDistinct | cluster_bureaux.js:51-58 | after de-duplication no station occurs twice |
| Grouping.DedupByAddress | cluster_bureaux.js:52-57 | the `seen`-set filter returns `FirstByAddress(items)` |
| Grouping.DedupGroups | cluster_bureaux.js:51-58 | same keys; every group replaced by its de-duplicated list |
| Seeding.CandidatesSpec | cluster_bureaux.js:184-186 | the candidates are exactly the pool positions within `MAX_DISTANCE` of the seed, with their distances, in pool order |
| Seeding.SortSorted | cluster_bureaux.js:187 | sorting is a permutation, ordered by distance with ties kept in pool order (a stable sort) |
| Seeding.SortedCandidates | cluster_bureaux.js:184-187 | sorted by (distance, position), holding exactly the in-range positions |
| Seeding.Neighbors | cluster_bureaux.js:184-189 | at most `MAX - 1` distinct pool positions, each within `MAX_DISTANCE` of the seed |
| Seeding.NeighborsNearest | cluster_bureaux.js:184-189 | neighbours come nearest first; an in-range station is left out only when `MAX - 1` nearer ones were taken |
| Seeding.IndexOf | cluster_bureaux.js:195 | the first position of x, or -1 iff x is absent |
| Seeding.PickAndRest | cluster_bureaux.js:191-197 | the neighbours plus what stays in the pool are exactly the pool |
| Seeding.SpliceOut | cluster_bureaux.js:194-197 | removing the neighbours one by one with `indexOf` and `splice` leaves the pool without their positions |
| Seeding.SeededShape | cluster_bureaux.js:181-200 | every seed round has 1 to `MAX` stations, and every member after the first (the seed) is within `MAX_DISTANCE` of the seed |
| Seeding.SeededConserves | cluster_bureaux.js:181-200 | the seed rounds hold exactly the group's stations, each once |
| Seeding.SeedClusters | cluster_bureaux.js:177-200 | the `while`/`shift`/`splice` loop returns `Seeded(items)` |
| Splitting.ScanRow | cluster_bureaux.js:96-102 | one row of the pair scan keeps the first strictly largest pair seen so far |
| Splitting.FarthestPair | cluster_bureaux.js:92-103 | no pair iff the diameter is 0; otherwise the first pair in scan order at the diameter, every earlier pair strictly closer |
| Splitting.FirstFit | cluster_bureaux.js:116-124 | the first finished round that stays within `MAX_DISTANCE` with the moved station; none iff no round does |
| Splitting.PlaceMoved | cluster_bureaux.js:116-128 | the moved station joins the first round that fits, or is queued alone; nothing lost, finished rounds within range, measure up by at most 1 |
| Splitting.Detach | cluster_bureaux.js:92-114 | the later station of the first farthest pair leaves; the rest is queued if it has `MIN` stations, finished otherwise |
| Splitting.SplitFarthest | cluster_bureaux.js:92-128 | one split as `SplitAt` states it; conserves stations, keeps finished rounds within range, lowers the measure |
| Splitting.ValidateAndSplit | cluster_bureaux.js:75-136 | terminates; returns exactly the input's stations; every returned round has diameter at most `MAX_DISTANCE` |
| Merging.BigClusters | cluster_bureaux.js:142-145 | every big round has at least `MIN` stations |
| Merging.PartitionConserves | cluster_bureaux.js:142-145 | the big rounds plus the orphans hold exactly the input's stations |
| Merging.PartitionConcat | cluster_bureaux.js:142-145 | both filters keep input order: the big rounds and the orphans of `a + b` are those of `a` followed by those of `b` |
| Merging.PartitionMembers | cluster_bureaux.js:142-145 | a round is kept iff it is an input round of at least `MIN` stations; a station is an orphan iff it belongs to an input round of fewer than `MIN` |
| Merging.BigWithin | cluster_bureaux.js:142-143 | the big rounds of a list of rounds within `MAX_DISTANCE` are within `MAX_DISTANCE` |
| Merging.BestFitCharacterized | cluster_bureaux.js:148-159 | no target iff no big round takes the orphan within `MAX_DISTANCE`; otherwise the lowest-index round of smallest resulting diameter |
| Merging.BestFit | cluster_bureaux.js:148-159 | the `bestIdx`/`bestDist` loop returns `BestFitUpTo(big, point, \|big\|)` |
| Merging.PlaceConserves | cluster_bureaux.js:161-169 | placing an orphan adds exactly that station |
| Merging.MergeConserves | cluster_bureaux.js:147-170 | merging adds exactly the orphans |
| Merging.MergeKeepsPrefixes | cluster_bureaux.js:147-170 | with a big round present, rounds keep their places and every input big round is a prefix of its output round |
| Merging.MergeIntoSingle | cluster_bureaux.js:161-169 | a lone round takes every orphan, in order, whatever the distances |
| Merging.MergeWithoutBig | cluster_bureaux.js:164-168 | without big rounds, the orphans form one round in order, or nothing when there are none |
| Merging.MergeSizes | cluster_bureaux.js:142-172 | with a big round every output round has at least `MIN` stations; without one, at most one round; never an empty round |
| Merging.MergeMayExceedMaxSize | cluster_bureaux.js:162-165 | a 6-station round that is the only big round ends with 7 stations |
| Merging.MergeWithinReach | cluster_bureaux.js:147-169 | when the fallback never runs, every output round keeps diameter at most `MAX_DISTANCE` |
| Merging.MergeTailWithin | cluster_bureaux.js:147-169 | whatever the distances, every output round after the first keeps diameter at most `MAX_DISTANCE` when the input rounds after the first do: best-fit appends only within range, and the fallback touches only the first round |
| Merging.MergeSmallClusters | cluster_bureaux.js:138-173 | the two loops return `MergeAll(BigClusters(clusters), Orphans(clusters))` |
| Pipeline.ClusterGroup | cluster_bureaux.js:178-205 | each of the group's stations in exactly one round; no empty round; rounds of at least `MIN` stations unless there is at most one round; the rounds are `MergeAll` of a split result within `MAX_DISTANCE`; every round after the first is within `MAX_DISTANCE`, and the first is too unless the merge fallback runs |
| Pipeline.ClusterAll | cluster_bureaux.js:177-206 | every group gets rounds as `ClusterGroup` states, under the same keys |
| Pipeline.Run | cluster_bureaux.js:28-243 | `None` iff the grouping throws; otherwise one entry per postal code with a located station, whose rounds are as `ClusterGroup` states for that group's de-duplicated stations |

## Left out

- `haversine` (lines 4-17) is floating-point trigonometry. The distance is the parameter `dist`, and real arithmetic stands in for IEEE doubles. The source's `Math.max` and its comparisons are exact here.
- The I/O is left out: reading and parsing the input file, creating the output directory, writing both files, console output and `process.exit` (lines 19-26, 208-209, 236-243). `Pipeline.Run` takes the parsed records and returns the result map.
- The console summary and the text rendering of the routes (lines 211-234) are presentation over the result map.
- JavaScript object key order (lines 51, 177) is not modelled. Postal-code groups are a Dafny `map`, and each group is clustered independently.
- The branch at lines 129-131 is not modelled. It runs only when no pair was found although the diameter exceeds `MAX_DISTANCE`, which cannot happen: `FarthestPair` returns a pair whenever the diameter is positive.
- JSON field values (`objectid`, `id_bv`, `num_bv`, `lib`, `adresse`, `cp`, `code_postal`) are missing, `null` or a value modelled by its text, so address de-duplication keeps `null` and a missing address apart, as the `Set` does. Numbers and other JSON types are not distinguished from text, so a numeric `cp` of `0` is not treated as falsy. Coordinates are reals, absent when `null` or missing (`== null` covers both).
- Object identity in `indexOf` (line 195) is modelled by value equality on de-duplicated (hence distinct) stations.
- ValidateAndSplit (Splitting.ValidateAndSplit): its contract states conservation, the diameter bound and termination, not the exact list it returns. The exact effect of each iteration is stated by `SplitFarthest` (`SplitAt`) and the finishing branches of the loop.
- ClusterGroup (Pipeline.ClusterGroup): its contract states conservation, the size facts and the distance bound outside the merge fallback, and that the rounds are `MergeAll` of some split result. It does not give the exact rounds, because the split stage is specified by properties only. The same holds for `Pipeline.ClusterAll` and `Pipeline.Run`.
- The 1000 m bound after merging holds for every round after the first (`Merging.MergeTailWithin`). For the first round it is proved only when the fallback of lines 163-168 never runs (`Merging.MergeWithinReach`); with the fallback, that one round can exceed it, as the script allows.
- Input shapes outside `RawRecord` are not modelled. A `null` element of the array makes `item.cp` (line 30) throw a TypeError, and `main` exits with status 1. A falsy non-null `geo_point_2d` (`0`, `false`, `""`) becomes both coordinates itself through the `&&` of lines 31-32, passes the `== null` test of line 33, and the record is kept. The model's records are objects whose coordinates are reals or absent.
