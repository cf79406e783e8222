/**
 * Greedy seed clustering of one postal-code group
 * (cluster_bureaux.js lines 177-200): the first remaining station is the
 * seed; its up to MaxSize - 1 nearest remaining stations within
 * MaxDistance join it; all of them leave the pool.
 */
module Seeding {
  import opened Domain

  /** A pool position with its distance to the seed (the `{ p, d }` objects of line 185). */
  datatype Candidate = Candidate(pos: nat, d: Meters)

  /** map + filter (lines 185-186) over the first n positions of the pool, in pool order. */
  function CandidatesUpTo(seed: Point, pool: seq<Point>, dist: Metric, n: nat): seq<Candidate>
    requires n <= |pool|
  {
    if n == 0 then []
    else
      CandidatesUpTo(seed, pool, dist, n - 1) +
        (if dist(seed, pool[n - 1]) <= MaxDistance then [Candidate(n - 1, dist(seed, pool[n - 1]))] else [])
  }

  function Candidates(seed: Point, pool: seq<Point>, dist: Metric): seq<Candidate> {
    CandidatesUpTo(seed, pool, dist, |pool|)
  }

  /** The candidates are exactly the pool positions within reach, with their distance, in increasing position. */
  lemma {:induction false} CandidatesSpec(seed: Point, pool: seq<Point>, dist: Metric, n: nat)
    requires n <= |pool|
    ensures forall c :: c in CandidatesUpTo(seed, pool, dist, n) <==>
      c.pos < n && c.d == dist(seed, pool[c.pos]) && c.d <= MaxDistance
    ensures IncreasingPositions(CandidatesUpTo(seed, pool, dist, n))
  {
    if n > 0 {
      CandidatesSpec(seed, pool, dist, n - 1);
    }
  }

  /** a comes before b when it is closer, or as close and earlier in the pool. */
  predicate KeyLess(a: Candidate, b: Candidate) {
    a.d < b.d || (a.d == b.d && a.pos < b.pos)
  }

  ghost predicate SortedByKey(s: seq<Candidate>) {
    forall i, j :: 0 <= i < j < |s| ==> KeyLess(s[i], s[j])
  }

  ghost predicate IncreasingPositions(s: seq<Candidate>) {
    forall i, j :: 0 <= i < j < |s| ==> s[i].pos < s[j].pos
  }

  /** One step of a stable sort by distance: c goes before the first element that is not closer. */
  function InsertByDistance(c: Candidate, s: seq<Candidate>): seq<Candidate> {
    if s == [] || c.d <= s[0].d then [c] + s else [s[0]] + InsertByDistance(c, s[1..])
  }

  /** `sort((a, b) => a.d - b.d)` (line 187); Array.prototype.sort is stable. */
  function SortByDistance(cs: seq<Candidate>): seq<Candidate> {
    if cs == [] then [] else InsertByDistance(cs[0], SortByDistance(cs[1..]))
  }

  lemma {:induction false} InsertPermutes(c: Candidate, s: seq<Candidate>)
    ensures multiset(InsertByDistance(c, s)) == multiset(s) + multiset{c}
  {
    if s != [] && c.d > s[0].d {
      InsertPermutes(c, s[1..]);
      assert s == [s[0]] + s[1..];
    }
  }

  lemma SortedTail(s: seq<Candidate>)
    requires s != [] && SortedByKey(s)
    ensures SortedByKey(s[1..])
    ensures forall x :: x in s[1..] ==> KeyLess(s[0], x)
  {
    var tail := s[1..];
    forall i, j | 0 <= i < j < |tail| ensures KeyLess(tail[i], tail[j]) {
      assert tail[i] == s[i + 1] && tail[j] == s[j + 1];
    }
    forall x | x in tail ensures KeyLess(s[0], x) {
      var j :| 0 <= j < |tail| && tail[j] == x;
      assert s[j + 1] == x;
    }
  }

  lemma SortedCons(h: Candidate, r: seq<Candidate>)
    requires SortedByKey(r)
    requires forall x :: x in r ==> KeyLess(h, x)
    ensures SortedByKey([h] + r)
  {
    var s := [h] + r;
    forall i, j | 0 <= i < j < |s| ensures KeyLess(s[i], s[j]) {
      assert s[j] == r[j - 1];
      if i > 0 {
        assert s[i] == r[i - 1];
      }
    }
  }

  lemma {:induction false} InsertSorted(c: Candidate, s: seq<Candidate>)
    requires SortedByKey(s)
    requires forall x :: x in s ==> c.pos < x.pos
    ensures multiset(InsertByDistance(c, s)) == multiset(s) + multiset{c}
    ensures SortedByKey(InsertByDistance(c, s))
  {
    InsertPermutes(c, s);
    if s == [] {
      SortedCons(c, s);
    } else if c.d <= s[0].d {
      SortedTail(s);
      SortedCons(c, s);
    } else {
      SortedTail(s);
      var tail := s[1..];
      InsertSorted(c, tail);
      var rest := InsertByDistance(c, tail);
      forall x | x in rest ensures KeyLess(s[0], x) {
        assert x in multiset(rest);
      }
      SortedCons(s[0], rest);
    }
  }

  /** A stable sort of a list in increasing position orders it by (distance, position). */
  lemma {:induction false} SortSorted(cs: seq<Candidate>)
    requires IncreasingPositions(cs)
    ensures multiset(SortByDistance(cs)) == multiset(cs)
    ensures SortedByKey(SortByDistance(cs))
  {
    if cs != [] {
      HeadFirst(cs);
      SortSorted(cs[1..]);
      SortStep(cs, SortByDistance(cs[1..]));
    }
  }

  /** Inserting the first candidate into the sorted rest keeps the order and the candidates. */
  lemma SortStep(cs: seq<Candidate>, sorted: seq<Candidate>)
    requires cs != []
    requires forall x :: x in cs[1..] ==> cs[0].pos < x.pos
    requires multiset(sorted) == multiset(cs[1..]) && SortedByKey(sorted)
    ensures multiset(InsertByDistance(cs[0], sorted)) == multiset(cs)
    ensures SortedByKey(InsertByDistance(cs[0], sorted))
  {
    forall x | x in sorted ensures cs[0].pos < x.pos {
      assert x in multiset(sorted);
    }
    InsertSorted(cs[0], sorted);
    assert cs == [cs[0]] + cs[1..];
  }

  lemma HeadFirst(cs: seq<Candidate>)
    requires cs != [] && IncreasingPositions(cs)
    ensures IncreasingPositions(cs[1..])
    ensures forall x :: x in cs[1..] ==> cs[0].pos < x.pos
  {
    var tail := cs[1..];
    forall i, j | 0 <= i < j < |tail| ensures tail[i].pos < tail[j].pos {
      assert tail[i] == cs[i + 1] && tail[j] == cs[j + 1];
    }
    forall x | x in tail ensures cs[0].pos < x.pos {
      var j :| 0 <= j < |tail| && tail[j] == x;
      assert cs[j + 1] == x;
    }
  }

  /** The sorted candidates, the `neighbors` chain before `slice` (lines 184-187). */
  function SortedCandidates(seed: Point, pool: seq<Point>, dist: Metric): (s: seq<Candidate>)
    ensures SortedByKey(s)
    ensures forall c :: c in s <==> c.pos < |pool| && c.d == dist(seed, pool[c.pos]) && c.d <= MaxDistance
  {
    CandidatesSpec(seed, pool, dist, |pool|);
    SortSorted(Candidates(seed, pool, dist));
    assert forall c :: c in SortByDistance(Candidates(seed, pool, dist)) <==> c in multiset(SortByDistance(Candidates(seed, pool, dist)));
    SortByDistance(Candidates(seed, pool, dist))
  }

  /** The pool positions of candidates, in order (`map(x => x.p)`, line 189). */
  function Positions(cs: seq<Candidate>): (ps: seq<nat>)
    ensures |ps| == |cs|
    ensures forall k :: 0 <= k < |cs| ==> ps[k] == cs[k].pos
  {
    if cs == [] then [] else [cs[0].pos] + Positions(cs[1..])
  }

  /** The first MaxSize - 1 sorted candidates (`slice(0, MAX - 1)`, line 188). */
  function Taken(sorted: seq<Candidate>): (t: seq<Candidate>)
    ensures |t| <= MaxSize - 1 && t <= sorted
    ensures |t| < MaxSize - 1 ==> t == sorted
  {
    if |sorted| <= MaxSize - 1 then sorted else sorted[..MaxSize - 1]
  }

  /** Candidates that hold their true distance and are sorted sit at distinct positions. */
  lemma SortedPositionsDistinct(seed: Point, pool: seq<Point>, dist: Metric, cs: seq<Candidate>)
    requires SortedByKey(cs)
    requires forall c :: c in cs ==> c.pos < |pool| && c.d == dist(seed, pool[c.pos])
    ensures Distinct(Positions(cs))
  {
    var ps := Positions(cs);
    forall i, j | 0 <= i < j < |ps| ensures ps[i] != ps[j] {
      assert cs[i] in cs && cs[j] in cs;
      assert KeyLess(cs[i], cs[j]);
    }
  }

  /**
   * The neighbours of the seed (lines 184-189), as positions in the pool:
   * at most MaxSize - 1 of the sorted candidates.
   */
  function Neighbors(seed: Point, pool: seq<Point>, dist: Metric): (nb: seq<nat>)
    ensures |nb| <= MaxSize - 1
    ensures forall k :: 0 <= k < |nb| ==> nb[k] < |pool| && dist(seed, pool[nb[k]]) <= MaxDistance
    ensures Distinct(nb)
  {
    var sorted := SortedCandidates(seed, pool, dist);
    var taken := Taken(sorted);
    assert forall k :: 0 <= k < |taken| ==> taken[k] == sorted[k] && sorted[k] in sorted;
    assert SortedByKey(taken);
    SortedPositionsDistinct(seed, pool, dist, taken);
    Positions(taken)
  }

  /** position p is closer to the seed than q, or as close and earlier in the pool. */
  predicate Closer(seed: Point, pool: seq<Point>, dist: Metric, p: nat, q: nat)
    requires p < |pool| && q < |pool|
  {
    dist(seed, pool[p]) < dist(seed, pool[q]) || (dist(seed, pool[p]) == dist(seed, pool[q]) && p < q)
  }

  /**
   * The neighbours are the nearest stations within reach: they come in
   * increasing distance (ties by pool order), and a station within reach
   * is left out only when MaxSize - 1 closer ones were taken.
   */
  lemma NeighborsNearest(seed: Point, pool: seq<Point>, dist: Metric)
    ensures var nb := Neighbors(seed, pool, dist);
      forall i, j :: 0 <= i < j < |nb| ==> Closer(seed, pool, dist, nb[i], nb[j])
    ensures var nb := Neighbors(seed, pool, dist);
      forall q :: 0 <= q < |pool| && dist(seed, pool[q]) <= MaxDistance && q !in nb ==>
        |nb| == MaxSize - 1 && forall k :: 0 <= k < |nb| ==> Closer(seed, pool, dist, nb[k], q)
  {
    NeighborsOrdered(seed, pool, dist);
    NeighborsComplete(seed, pool, dist);
  }

  lemma NeighborsOrdered(seed: Point, pool: seq<Point>, dist: Metric)
    ensures var nb := Neighbors(seed, pool, dist);
      forall i, j :: 0 <= i < j < |nb| ==> Closer(seed, pool, dist, nb[i], nb[j])
  {
    var sorted := SortedCandidates(seed, pool, dist);
    var taken := Taken(sorted);
    var nb := Neighbors(seed, pool, dist);
    assert nb == Positions(taken);
    forall i, j | 0 <= i < j < |nb| ensures Closer(seed, pool, dist, nb[i], nb[j]) {
      assert taken[i] == sorted[i] && taken[j] == sorted[j];
      assert sorted[i] in sorted && sorted[j] in sorted;
      assert KeyLess(sorted[i], sorted[j]);
    }
  }

  lemma NeighborsComplete(seed: Point, pool: seq<Point>, dist: Metric)
    ensures var nb := Neighbors(seed, pool, dist);
      forall q :: 0 <= q < |pool| && dist(seed, pool[q]) <= MaxDistance && q !in nb ==>
        |nb| == MaxSize - 1 && forall k :: 0 <= k < |nb| ==> Closer(seed, pool, dist, nb[k], q)
  {
    var sorted := SortedCandidates(seed, pool, dist);
    var taken := Taken(sorted);
    var nb := Neighbors(seed, pool, dist);
    assert nb == Positions(taken);
    forall q | 0 <= q < |pool| && dist(seed, pool[q]) <= MaxDistance && q !in nb
      ensures |nb| == MaxSize - 1 && forall k :: 0 <= k < |nb| ==> Closer(seed, pool, dist, nb[k], q)
    {
      var c := Candidate(q, dist(seed, pool[q]));
      assert c in sorted;
      var t :| 0 <= t < |sorted| && sorted[t] == c;
      if t < |taken| {
        assert false;
      }
      assert taken != sorted;
      forall k | 0 <= k < |nb| ensures Closer(seed, pool, dist, nb[k], q) {
        assert taken[k] == sorted[k] && sorted[k] in sorted;
        assert KeyLess(sorted[k], sorted[t]);
      }
    }
  }

  /** The stations at the given pool positions, in that order (`map(x => x.p)`, line 189). */
  function Pick(pool: seq<Point>, nb: seq<nat>): (r: seq<Point>)
    requires forall k :: 0 <= k < |nb| ==> nb[k] < |pool|
    ensures |r| == |nb|
    ensures forall k :: 0 <= k < |nb| ==> r[k] == pool[nb[k]]
  {
    if nb == [] then [] else Pick(pool, nb[..|nb| - 1]) + [pool[nb[|nb| - 1]]]
  }

  /** The positions of a neighbour list, as a set. */
  function PosSet(nb: seq<nat>): set<nat> {
    set x | x in nb
  }

  /** The pool without the stations at the dropped positions, order kept. */
  function Without(s: seq<Point>, drop: set<nat>): (r: seq<Point>)
    ensures |r| <= |s|
  {
    if s == [] then []
    else Without(s[..|s| - 1], drop) + (if |s| - 1 in drop then [] else [s[|s| - 1]])
  }

  /** The first index of x in s, -1 when absent (Array.prototype.indexOf). */
  function IndexOf(s: seq<Point>, x: Point): (i: int)
    ensures -1 <= i < |s|
    ensures i >= 0 ==> s[i] == x && forall j :: 0 <= j < i ==> s[j] != x
    ensures i == -1 <==> x !in s
  {
    if s == [] then -1
    else if s[0] == x then 0
    else
      var i := IndexOf(s[1..], x);
      if i == -1 then -1 else i + 1
  }

  lemma IndexOfUnique(s: seq<Point>, x: Point, i: nat)
    requires i < |s| && s[i] == x && x !in s[..i]
    ensures IndexOf(s, x) == i
  {
  }

  lemma {:induction false} WithoutNothing(s: seq<Point>)
    ensures Without(s, {}) == s
  {
    if s != [] {
      WithoutNothing(s[..|s| - 1]);
      assert s == s[..|s| - 1] + [s[|s| - 1]];
    }
  }

  lemma {:induction false} WithoutSubset(s: seq<Point>, drop: set<nat>)
    ensures forall x :: x in Without(s, drop) ==> x in s
  {
    if s != [] {
      WithoutSubset(s[..|s| - 1], drop);
      forall x | x in s[..|s| - 1] ensures x in s {
        var k :| 0 <= k < |s| - 1 && s[..|s| - 1][k] == x;
        assert s[k] == x;
      }
    }
  }

  lemma {:induction false} WithoutBeyond(s: seq<Point>, drop: set<nat>, p: nat)
    requires p >= |s|
    ensures Without(s, drop + {p}) == Without(s, drop)
  {
    if s != [] {
      WithoutBeyond(s[..|s| - 1], drop, p);
    }
  }

  lemma {:induction false} WithoutDistinct(s: seq<Point>, drop: set<nat>)
    requires Distinct(s)
    ensures Distinct(Without(s, drop))
  {
    if s != [] {
      var init := s[..|s| - 1];
      assert Distinct(init);
      WithoutDistinct(init, drop);
      WithoutSubset(init, drop);
      if |s| - 1 !in drop {
        var w := Without(init, drop);
        forall a | 0 <= a < |w| ensures w[a] != s[|s| - 1] {
          assert w[a] in init;
          var k :| 0 <= k < |init| && init[k] == w[a];
          assert s[k] == init[k];
        }
      }
    }
  }

  /** Dropping one more position removes exactly that station. */
  lemma {:induction false} WithoutDropOne(s: seq<Point>, drop: set<nat>, p: nat)
    requires p < |s| && p !in drop
    ensures multiset(Without(s, drop + {p})) + multiset{s[p]} == multiset(Without(s, drop))
  {
    if p == |s| - 1 {
      WithoutDropLast(s, drop);
    } else {
      var init := s[..|s| - 1];
      WithoutDropOne(init, drop, p);
      assert init[p] == s[p];
      WithoutSameLast(s, drop, drop + {p}, s[p]);
    }
  }

  lemma WithoutDropLast(s: seq<Point>, drop: set<nat>)
    requires s != [] && |s| - 1 !in drop
    ensures multiset(Without(s, drop + {|s| - 1})) + multiset{s[|s| - 1]} == multiset(Without(s, drop))
  {
    var init, last := s[..|s| - 1], s[|s| - 1];
    WithoutBeyond(init, drop, |s| - 1);
    assert Without(s, drop + {|s| - 1}) == Without(init, drop) + [];
    assert Without(s, drop) == Without(init, drop) + [last];
  }

  /** A station that one drop set removes from a prefix, and the other keeps, stays the only difference. */
  lemma WithoutSameLast(s: seq<Point>, drop: set<nat>, drop': set<nat>, x: Point)
    requires s != [] && (|s| - 1 in drop <==> |s| - 1 in drop')
    requires multiset(Without(s[..|s| - 1], drop')) + multiset{x} == multiset(Without(s[..|s| - 1], drop))
    ensures multiset(Without(s, drop')) + multiset{x} == multiset(Without(s, drop))
  {
    var init := s[..|s| - 1];
    var tail := if |s| - 1 in drop then [] else [s[|s| - 1]];
    assert Without(s, drop) == Without(init, drop) + tail;
    assert Without(s, drop') == Without(init, drop') + tail;
  }

  /** The station at position p occurs nowhere else in s. */
  ghost predicate OccursOnceAt(s: seq<Point>, p: nat)
    requires p < |s|
  {
    forall q :: 0 <= q < |s| && q != p ==> s[q] != s[p]
  }

  /** `r.splice(r.indexOf(x), 1)` finds x in r and leaves r'. */
  ghost predicate SplicesTo(r: seq<Point>, x: Point, r': seq<Point>) {
    var i := IndexOf(r, x);
    0 <= i && r[..i] + r[i + 1..] == r'
  }

  /** A station appended to a list it is not in is found, and spliced out, at the end. */
  lemma SplicesToLast(w: seq<Point>, x: Point)
    requires x !in w
    ensures SplicesTo(w + [x], x, w)
  {
    assert (w + [x])[..|w|] == w;
    IndexOfUnique(w + [x], x, |w|);
  }

  /** Splicing a station found in w is not affected by what follows w. */
  lemma SplicesToPrefix(w: seq<Point>, tail: seq<Point>, x: Point, w': seq<Point>)
    requires SplicesTo(w, x, w')
    ensures SplicesTo(w + tail, x, w' + tail)
  {
    var i := IndexOf(w, x);
    assert (w + tail)[..i] == w[..i];
    IndexOfUnique(w + tail, x, i);
    RemoveAtConcat(w, tail, i);
  }

  /** Removing the last pool position: it is the last element of what is left. */
  lemma SpliceLast(s: seq<Point>, drop: set<nat>)
    requires s != [] && |s| - 1 !in drop
    requires OccursOnceAt(s, |s| - 1)
    ensures SplicesTo(Without(s, drop), s[|s| - 1], Without(s, drop + {|s| - 1}))
  {
    var init := s[..|s| - 1];
    var x := s[|s| - 1];
    WithoutLastKept(s, drop);
    LastNotInInit(s);
    WithoutSubset(init, drop);
    SplicesToLast(Without(init, drop), x);
  }

  /** A kept last position: it ends the filtered pool, and dropping it leaves the rest. */
  lemma WithoutLastKept(s: seq<Point>, drop: set<nat>)
    requires s != [] && |s| - 1 !in drop
    ensures Without(s, drop) == Without(s[..|s| - 1], drop) + [s[|s| - 1]]
    ensures Without(s, drop + {|s| - 1}) == Without(s[..|s| - 1], drop)
  {
    WithoutBeyond(s[..|s| - 1], drop, |s| - 1);
    assert Without(s, drop + {|s| - 1}) == Without(s[..|s| - 1], drop + {|s| - 1}) + [];
  }

  lemma LastNotInInit(s: seq<Point>)
    requires s != [] && OccursOnceAt(s, |s| - 1)
    ensures s[|s| - 1] !in s[..|s| - 1]
  {
    var init := s[..|s| - 1];
    forall k | 0 <= k < |init| ensures init[k] != s[|s| - 1] {
      assert init[k] == s[k];
    }
  }

  /** A station that occurs once at p < |s| - 1 also occurs once in s without its last station. */
  lemma OccursOnceInInit(s: seq<Point>, p: nat)
    requires p < |s| - 1 && OccursOnceAt(s, p)
    ensures OccursOnceAt(s[..|s| - 1], p)
  {
    var init := s[..|s| - 1];
    forall q | 0 <= q < |init| && q != p ensures init[q] != init[p] {
      assert init[q] == s[q] && init[p] == s[p];
    }
  }

  lemma RemoveAtConcat(w: seq<Point>, tail: seq<Point>, i: nat)
    requires i < |w|
    ensures (w + tail)[..i] + (w + tail)[i + 1..] == (w[..i] + w[i + 1..]) + tail
  {
  }

  /**
   * `remaining.splice(remaining.indexOf(n), 1)` on the pool without the
   * positions already dropped removes the station at position p: when that
   * station occurs once, indexOf finds that very station.
   */
  lemma {:induction false} SpliceIsWithout(s: seq<Point>, drop: set<nat>, p: nat)
    requires p < |s| && p !in drop
    requires OccursOnceAt(s, p)
    ensures SplicesTo(Without(s, drop), s[p], Without(s, drop + {p}))
    decreases |s|, 1
  {
    if p == |s| - 1 {
      SpliceLast(s, drop);
    } else {
      SpliceEarlier(s, drop, p);
    }
  }

  /** Removing a position before the last one: induction on the pool without its last station. */
  lemma {:induction false} SpliceEarlier(s: seq<Point>, drop: set<nat>, p: nat)
    requires p < |s| - 1 && p !in drop
    requires OccursOnceAt(s, p)
    ensures SplicesTo(Without(s, drop), s[p], Without(s, drop + {p}))
    decreases |s|, 0
  {
    var init := s[..|s| - 1];
    var last := |s| - 1;
    var x := s[p];
    OccursOnceInInit(s, p);
    SpliceIsWithout(init, drop, p);
    var w := Without(init, drop);
    var tail := if last in drop then [] else [s[last]];
    assert Without(s, drop) == w + tail;
    assert Without(s, drop + {p}) == Without(init, drop + {p}) + tail;
    assert init[p] == x;
    SplicesToPrefix(w, tail, x, Without(init, drop + {p}));
  }

  /** Dropping the last chosen position keeps the positions distinct and in range. */
  lemma ChosenPrefix(pool: seq<Point>, nb: seq<nat>, init: seq<nat>)
    requires nb != [] && Distinct(nb) && init == nb[..|nb| - 1]
    requires forall k :: 0 <= k < |nb| ==> nb[k] < |pool|
    ensures Distinct(init)
    ensures forall k :: 0 <= k < |init| ==> init[k] < |pool|
  {
    assert forall k :: 0 <= k < |init| ==> init[k] == nb[k];
  }

  /** Moving one station x from one side of a sum to the other keeps the total. */
  lemma MoveOne(picked: multiset<Point>, picked': multiset<Point>, left: multiset<Point>, left': multiset<Point>,
                total: multiset<Point>, x: Point)
    requires picked' == picked + multiset{x}
    requires left' + multiset{x} == left
    requires picked + left == total
    ensures picked' + left' == total
  {
  }

  /** The chosen neighbours plus the pool that remains are the whole pool. */
  lemma {:induction false} PickAndRest(pool: seq<Point>, nb: seq<nat>)
    requires forall k :: 0 <= k < |nb| ==> nb[k] < |pool|
    requires Distinct(nb)
    ensures multiset(Pick(pool, nb)) + multiset(Without(pool, PosSet(nb))) == multiset(pool)
    decreases |nb|
  {
    if nb == [] {
      assert PosSet(nb) == {};
      WithoutNothing(pool);
    } else {
      var k := |nb| - 1;
      var init, p := nb[..k], nb[k];
      ChosenPrefix(pool, nb, init);
      PickAndRest(pool, init);
      PosSetSnoc(nb, k);
      assert nb[..k + 1] == nb;
      WithoutDropOne(pool, PosSet(init), p);
      assert Pick(pool, nb) == Pick(pool, init) + [pool[p]];
      MoveOne(multiset(Pick(pool, init)), multiset(Pick(pool, nb)),
              multiset(Without(pool, PosSet(init))), multiset(Without(pool, PosSet(nb))),
              multiset(pool), pool[p]);
    }
  }

  /**
   * The specification of the seeding loop: the first station of the pool
   * seeds a round with its neighbours, which leave the pool with it.
   */
  function Seeded(pool: seq<Point>, dist: Metric): seq<Cluster>
    decreases |pool|
  {
    if pool == [] then [] else [SeedRound(pool, dist)] + Seeded(Leftover(pool, dist), dist)
  }

  /** The round seeded by the first station: the seed and its neighbours (line 191). */
  function SeedRound(pool: seq<Point>, dist: Metric): Cluster
    requires pool != []
  {
    [pool[0]] + Pick(pool[1..], Neighbors(pool[0], pool[1..], dist))
  }

  /** The pool once the seed and its neighbours have left it (lines 182, 193-197). */
  function Leftover(pool: seq<Point>, dist: Metric): (left: seq<Point>)
    requires pool != []
    ensures |left| < |pool|
  {
    Without(pool[1..], PosSet(Neighbors(pool[0], pool[1..], dist)))
  }

  /** The first round of a non-empty pool, and the pool it leaves. */
  lemma SeededCons(pool: seq<Point>, dist: Metric)
    requires pool != []
    ensures Seeded(pool, dist)[0] == SeedRound(pool, dist)
    ensures Seeded(pool, dist)[1..] == Seeded(Leftover(pool, dist), dist)
  {
  }

  /** A seed round: 1 to MaxSize stations, every one after the seed within MaxDistance of it. */
  ghost predicate RoundShape(c: Cluster, dist: Metric) {
    1 <= |c| <= MaxSize && forall x :: 1 <= x < |c| ==> dist(c[0], c[x]) <= MaxDistance
  }

  lemma FirstRoundShape(pool: seq<Point>, dist: Metric)
    requires pool != []
    ensures RoundShape(SeedRound(pool, dist), dist)
  {
    var nb := Neighbors(pool[0], pool[1..], dist);
    var c := SeedRound(pool, dist);
    forall x | 1 <= x < |c| ensures dist(c[0], c[x]) <= MaxDistance {
      assert c[x] == pool[1..][nb[x - 1]];
    }
  }

  /** Every seed round has 1 to MaxSize stations, all within MaxDistance of its seed. */
  lemma {:induction false} SeededShape(pool: seq<Point>, dist: Metric)
    ensures forall k :: 0 <= k < |Seeded(pool, dist)| ==> RoundShape(Seeded(pool, dist)[k], dist)
    decreases |pool|
  {
    if pool != [] {
      var later := Leftover(pool, dist);
      SeededShape(later, dist);
      SeededCons(pool, dist);
      FirstRoundShape(pool, dist);
      var all := Seeded(pool, dist);
      forall k | 1 <= k < |all| ensures all[k] == Seeded(later, dist)[k - 1] {
        assert all[k] == all[1..][k - 1];
      }
    }
  }

  /** Together the seed rounds hold exactly the stations of the pool. */
  lemma {:induction false} SeededConserves(pool: seq<Point>, dist: Metric)
    ensures Members(Seeded(pool, dist)) == multiset(pool)
    decreases |pool|
  {
    if pool != [] {
      var later := Leftover(pool, dist);
      SeededConserves(later, dist);
      RoundAndLeftover(pool, dist);
      SeededCons(pool, dist);
      MembersCons(Seeded(pool, dist));
    }
  }

  /** The first round and the pool it leaves hold the pool's stations. */
  lemma RoundAndLeftover(pool: seq<Point>, dist: Metric)
    requires pool != []
    ensures multiset(SeedRound(pool, dist)) + multiset(Leftover(pool, dist)) == multiset(pool)
  {
    var nb := Neighbors(pool[0], pool[1..], dist);
    PickAndRest(pool[1..], nb);
    ConsRound(pool, Pick(pool[1..], nb), Without(pool[1..], PosSet(nb)));
  }

  /** Putting the seed in front of the picked stations gives back the whole pool. */
  lemma ConsRound(pool: seq<Point>, picked: seq<Point>, left: seq<Point>)
    requires pool != []
    requires multiset(picked) + multiset(left) == multiset(pool[1..])
    ensures multiset([pool[0]] + picked) + multiset(left) == multiset(pool)
  {
    assert pool == [pool[0]] + pool[1..];
  }

  /** The positions of a longer prefix of distinct positions gain exactly the new one. */
  lemma PosSetSnoc(nb: seq<nat>, k: nat)
    requires Distinct(nb) && k < |nb|
    ensures nb[k] !in PosSet(nb[..k])
    ensures PosSet(nb[..k + 1]) == PosSet(nb[..k]) + {nb[k]}
  {
    forall m | 0 <= m < k ensures nb[..k][m] != nb[k] {
      assert nb[..k][m] == nb[m];
    }
    assert nb[..k + 1] == nb[..k] + [nb[k]];
  }

  lemma DistinctOccursOnce(s: seq<Point>, p: nat)
    requires Distinct(s) && p < |s|
    ensures OccursOnceAt(s, p)
  {
    forall q | 0 <= q < |s| && q != p ensures s[q] != s[p] {
      if q < p {
        assert s[q] != s[p];
      } else {
        assert s[p] != s[q];
      }
    }
  }

  /** One turn of the removal loop takes the k-th neighbour out of the pool. */
  lemma SpliceStep(rest: seq<Point>, nb: seq<nat>, k: nat)
    requires Distinct(rest) && Distinct(nb)
    requires forall m :: 0 <= m < |nb| ==> nb[m] < |rest|
    requires k < |nb|
    ensures SplicesTo(Without(rest, PosSet(nb[..k])), rest[nb[k]], Without(rest, PosSet(nb[..k + 1])))
  {
    PosSetSnoc(nb, k);
    DistinctOccursOnce(rest, nb[k]);
    SpliceIsWithout(rest, PosSet(nb[..k]), nb[k]);
  }

  /** The pool left after a round keeps its stations distinct. */
  lemma LeftoverDistinct(pool: seq<Point>, dist: Metric)
    requires pool != [] && Distinct(pool)
    ensures Distinct(pool[1..]) && Distinct(Leftover(pool, dist))
  {
    var rest := pool[1..];
    assert Distinct(rest) by {
      forall a, b | 0 <= a < b < |rest| ensures rest[a] != rest[b] {
        assert rest[a] == pool[a + 1] && rest[b] == pool[b + 1];
      }
    }
    WithoutDistinct(rest, PosSet(Neighbors(pool[0], rest, dist)));
  }

  /**
   * The removal loop (lines 194-197): splice each neighbour out of the pool
   * at the index indexOf finds for it.
   */
  method SpliceOut(rest: seq<Point>, neighbors: seq<Point>, ghost nb: seq<nat>) returns (remaining: seq<Point>)
    requires Distinct(rest) && Distinct(nb)
    requires forall k :: 0 <= k < |nb| ==> nb[k] < |rest|
    requires neighbors == Pick(rest, nb)
    ensures remaining == Without(rest, PosSet(nb))
  {
    remaining := rest;
    WithoutNothing(rest);
    assert PosSet(nb[..0]) == {};
    for k := 0 to |neighbors|
      invariant remaining == Without(rest, PosSet(nb[..k]))
    {
      assert neighbors[k] == rest[nb[k]];
      SpliceStep(rest, nb, k);
      var idx := IndexOf(remaining, neighbors[k]);
      if idx != -1 {
        remaining := remaining[..idx] + remaining[idx + 1..];
      }
    }
    assert nb[..|neighbors|] == nb;
  }

  /**
   * One turn of the seeding loop (lines 182-197): shift the seed, choose
   * its neighbours, splice them out of the pool.
   */
  method SeedOne(remaining: seq<Point>, dist: Metric) returns (cluster: Cluster, left: seq<Point>)
    requires remaining != [] && Distinct(remaining)
    ensures cluster == SeedRound(remaining, dist) && left == Leftover(remaining, dist)
    ensures Distinct(left)
  {
    var seed := remaining[0];
    var rest := remaining[1..];
    var nb := Neighbors(seed, rest, dist);
    var neighbors := Pick(rest, nb);
    cluster := [seed] + neighbors;
    LeftoverDistinct(remaining, dist);
    left := SpliceOut(rest, neighbors, nb);
  }

  /** The seeding loop (lines 181-200): one round per turn until the pool is empty. */
  method SeedClusters(items: seq<Point>, dist: Metric) returns (clusters: seq<Cluster>)
    requires Distinct(items)
    ensures clusters == Seeded(items, dist)
  {
    var remaining := items;
    clusters := [];
    while |remaining| > 0
      invariant Distinct(remaining)
      invariant clusters + Seeded(remaining, dist) == Seeded(items, dist)
      decreases |remaining|
    {
      var cluster, left := SeedOne(remaining, dist);
      SeedLoopStep(clusters, items, remaining, cluster, left, dist);
      clusters := clusters + [cluster];
      remaining := left;
    }
    assert clusters + [] == clusters;
  }

  /** One turn of the seeding loop keeps the rounds built so far a prefix of `Seeded(items)`. */
  lemma SeedLoopStep(done: seq<Cluster>, items: seq<Point>, pool: seq<Point>, round: Cluster, left: seq<Point>, dist: Metric)
    requires pool != [] && round == SeedRound(pool, dist) && left == Leftover(pool, dist)
    requires done + Seeded(pool, dist) == Seeded(items, dist)
    ensures (done + [round]) + Seeded(left, dist) == Seeded(items, dist)
  {
    SeededAppend(done, pool, dist);
  }

  /** Moving the first round of the pool to the rounds already built. */
  lemma SeededAppend(done: seq<Cluster>, pool: seq<Point>, dist: Metric)
    requires pool != []
    ensures done + Seeded(pool, dist) == (done + [SeedRound(pool, dist)]) + Seeded(Leftover(pool, dist), dist)
  {
    var round := SeedRound(pool, dist);
    var later := Seeded(Leftover(pool, dist), dist);
    assert Seeded(pool, dist) == [round] + later;
    assert done + ([round] + later) == (done + [round]) + later;
  }
}
