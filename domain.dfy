/**
 * The entities shared by every stage of the clustering of voting stations:
 * a station (Point), a round (Cluster), the distance between two stations,
 * and the three constants of cluster_bureaux.js.
 */
module Domain {
  import opened Wrappers

  /** MIN: the smallest round that is checked against the distance cap. */
  const MinSize: nat := 2
  /** MAX: a seed round holds the seed and at most MaxSize - 1 neighbours. */
  const MaxSize: nat := 6
  /** MAX_DISTANCE, in meters. */
  const MaxDistance: real := 1000.0

  /** A distance in meters. */
  type Meters = r: real | 0.0 <= r

  /**
   * A JSON scalar field of a record: missing (`undefined`), `null`, or a
   * value, modelled by its text. `undefined` and `null` are different values
   * for a JavaScript `Set` (line 53), so they are kept apart.
   */
  datatype Field = Missing | Null | Text(text: string)

  /**
   * A voting station once its coordinates are known. The pass-through fields
   * are copied from the record as they are.
   * `cp` is the resolved postal code, the key of the station's group.
   */
  datatype Point = Point(
    objectid: Field,
    id_bv: Field,
    num_bv: Field,
    lib: Field,
    adresse: Field,
    cp: string,
    lat: real,
    lon: real)

  /** A round: stations in the order they were added. */
  type Cluster = seq<Point>

  /**
   * The distance between two stations. The source uses the haversine
   * great-circle distance; every property here holds for any non-negative
   * distance, so it is a parameter of the model.
   */
  type Metric = (Point, Point) -> Meters

  /** Math.max on two distances. */
  function Max(a: Meters, b: Meters): (m: Meters)
    ensures a <= m && b <= m
    ensures m == a || m == b
  {
    if a >= b then a else b
  }

  /** No value occurs twice (distinct JS objects are distinct values here). */
  predicate Distinct<T(==)>(s: seq<T>) {
    forall i, j :: 0 <= i < j < |s| ==> s[i] != s[j]
  }

  /** All the stations held by a list of rounds, with multiplicity. */
  function Members(cs: seq<Cluster>): multiset<Point> {
    if cs == [] then multiset{} else Members(cs[..|cs| - 1]) + multiset(cs[|cs| - 1])
  }

  lemma MembersSnoc(cs: seq<Cluster>, c: Cluster)
    ensures Members(cs + [c]) == Members(cs) + multiset(c)
  {
    assert (cs + [c])[..|cs|] == cs;
  }

  lemma {:induction false} MembersConcat(a: seq<Cluster>, b: seq<Cluster>)
    ensures Members(a + b) == Members(a) + Members(b)
    decreases |b|
  {
    if b == [] {
      assert a + b == a;
    } else {
      var b' := b[..|b| - 1];
      assert a + b == (a + b') + [b[|b| - 1]];
      assert b == b' + [b[|b| - 1]];
      MembersSnoc(a + b', b[|b| - 1]);
      MembersSnoc(b', b[|b| - 1]);
      MembersConcat(a, b');
    }
  }

  lemma MembersCons(cs: seq<Cluster>)
    requires cs != []
    ensures Members(cs) == multiset(cs[0]) + Members(cs[1..])
  {
    assert cs == [cs[0]] + cs[1..];
    MembersConcat([cs[0]], cs[1..]);
    MembersSnoc([], cs[0]);
  }

  /** Appending one station to the k-th round adds exactly that station. */
  lemma MembersAppendAt(cs: seq<Cluster>, k: nat, p: Point)
    requires k < |cs|
    ensures Members(cs[k := cs[k] + [p]]) == Members(cs) + multiset{p}
  {
    var cs' := cs[k := cs[k] + [p]];
    assert cs == cs[..k] + [cs[k]] + cs[k + 1..];
    assert cs' == cs[..k] + [cs[k] + [p]] + cs[k + 1..];
    MembersConcat(cs[..k] + [cs[k]], cs[k + 1..]);
    MembersConcat(cs[..k] + [cs[k] + [p]], cs[k + 1..]);
    MembersSnoc(cs[..k], cs[k]);
    MembersSnoc(cs[..k], cs[k] + [p]);
  }
}
