/**
 * Building the per-postal-code groups from the raw records
 * (cluster_bureaux.js lines 28-48) and dropping repeated addresses
 * within each group (lines 51-58).
 */
module Grouping {
  import opened Wrappers
  import opened Domain

  /** The nested `geo_point_2d` object; either coordinate may be null or missing. */
  datatype GeoPoint = GeoPoint(lat: Option<real>, lon: Option<real>)

  /** One record of the input document; every field may be missing. */
  datatype RawRecord = RawRecord(
    objectid: Field,
    id_bv: Field,
    num_bv: Field,
    lib: Field,
    adresse: Field,
    cp: Field,
    code_postal: Field,
    geo_point_2d: Option<GeoPoint>)

  /** JavaScript truthiness of a field: a value whose text is not empty. */
  predicate Truthy(v: Field) {
    v.Text? && v.text != ""
  }

  /** `item.cp || item.code_postal || 'unknown'` (line 30). */
  function GroupKey(r: RawRecord): string {
    if Truthy(r.cp) then r.cp.text
    else if Truthy(r.code_postal) then r.code_postal.text
    else "unknown"
  }

  /** The station built from a record, or None when a coordinate is missing (lines 31-44). */
  function Entry(r: RawRecord): Option<Point> {
    match r.geo_point_2d
    case None => None
    case Some(geo) =>
      if geo.lat.None? || geo.lon.None? then None
      else Some(Point(r.objectid, r.id_bv, r.num_bv, r.lib, r.adresse, GroupKey(r), geo.lat.value, geo.lon.value))
  }

  /** The stations of postal code cp, in input order. */
  function GroupOf(records: seq<RawRecord>, cp: string): seq<Point> {
    if records == [] then []
    else
      var last := records[|records| - 1];
      GroupOf(records[..|records| - 1], cp) +
        (if Entry(last).Some? && GroupKey(last) == cp then [Entry(last).value] else [])
  }

  /** The postal codes of the records that have both coordinates. */
  function GroupKeys(records: seq<RawRecord>): set<string> {
    if records == [] then {}
    else
      var last := records[|records| - 1];
      GroupKeys(records[..|records| - 1]) + (if Entry(last).Some? then {GroupKey(last)} else {})
  }

  /** A record is kept exactly when geo_point_2d, its lat and its lon are all present. */
  lemma EntryKept(r: RawRecord)
    ensures Entry(r).Some? <==>
      r.geo_point_2d.Some? && r.geo_point_2d.value.lat.Some? && r.geo_point_2d.value.lon.Some?
    ensures Entry(r).Some? ==>
      Entry(r).value.cp == GroupKey(r) && Entry(r).value.adresse == r.adresse &&
      Entry(r).value.lat == r.geo_point_2d.value.lat.value &&
      Entry(r).value.lon == r.geo_point_2d.value.lon.value
  {
  }

  /** The key of a record is cp, else code_postal, else 'unknown', skipping empty values. */
  lemma GroupKeyFallback(r: RawRecord)
    ensures Truthy(r.cp) ==> GroupKey(r) == r.cp.text
    ensures !Truthy(r.cp) && Truthy(r.code_postal) ==> GroupKey(r) == r.code_postal.text
    ensures !Truthy(r.cp) && !Truthy(r.code_postal) ==> GroupKey(r) == "unknown"
  {
  }

  /** Record r has key cp and produced station p. */
  predicate Produces(r: RawRecord, cp: string, p: Point) {
    Entry(r) == Some(p) && GroupKey(r) == cp
  }

  /** A station is in group cp exactly when some kept record with key cp produced it. */
  lemma {:induction false} GroupOfMembers(records: seq<RawRecord>, cp: string, p: Point)
    ensures p in GroupOf(records, cp) <==> exists i :: 0 <= i < |records| && Produces(records[i], cp, p)
  {
    if records != [] {
      var init, last := records[..|records| - 1], records[|records| - 1];
      GroupOfMembers(init, cp, p);
      var tail := if Entry(last).Some? && GroupKey(last) == cp then [Entry(last).value] else [];
      assert GroupOf(records, cp) == GroupOf(init, cp) + tail;
      assert p in tail <==> Produces(last, cp, p);
      if exists i :: 0 <= i < |records| && Produces(records[i], cp, p) {
        var i :| 0 <= i < |records| && Produces(records[i], cp, p);
        if i < |init| {
          assert init[i] == records[i];
        }
      }
      if exists i :: 0 <= i < |init| && Produces(init[i], cp, p) {
        var i :| 0 <= i < |init| && Produces(init[i], cp, p);
        assert records[i] == init[i];
      }
    }
  }

  /** Every station of group cp carries cp as its postal code. */
  lemma {:induction false} GroupOfKey(records: seq<RawRecord>, cp: string)
    ensures forall k :: 0 <= k < |GroupOf(records, cp)| ==> GroupOf(records, cp)[k].cp == cp
  {
    if records != [] {
      GroupOfKey(records[..|records| - 1], cp);
    }
  }

  /** A postal code is a key exactly when its group is not empty. */
  lemma {:induction false} GroupKeysNonEmpty(records: seq<RawRecord>, cp: string)
    ensures cp in GroupKeys(records) <==> GroupOf(records, cp) != []
  {
    if records != [] {
      GroupKeysNonEmpty(records[..|records| - 1], cp);
    }
  }

  /** How the groups of a prefix grow by one record. */
  lemma GroupsStep(records: seq<RawRecord>, i: nat)
    requires i < |records|
    ensures GroupKeys(records[..i + 1]) ==
      GroupKeys(records[..i]) + (if Entry(records[i]).Some? then {GroupKey(records[i])} else {})
    ensures forall cp ::
      GroupOf(records[..i + 1], cp) ==
      GroupOf(records[..i], cp) + (if Entry(records[i]).Some? && GroupKey(records[i]) == cp then [Entry(records[i]).value] else [])
  {
    assert records[..i + 1][..i] == records[..i];
  }

  /**
   * The properties every plain object inherits from Object.prototype. Each
   * is truthy (a function, or the prototype itself for `__proto__`), so for
   * such a key `byCp[cp] || []` (line 46) yields the inherited value, which
   * has no `push`: line 47 throws a TypeError.
   */
  const InheritedKeys: set<string> := {
    "constructor", "hasOwnProperty", "isPrototypeOf", "propertyIsEnumerable",
    "toLocaleString", "toString", "valueOf", "__proto__",
    "__defineGetter__", "__defineSetter__", "__lookupGetter__", "__lookupSetter__"}

  /** Record r reaches line 46 with a key that byCp inherits. */
  predicate Throws(r: RawRecord) {
    Entry(r).Some? && GroupKey(r) in InheritedKeys
  }

  /**
   * The grouping loop: every record with both coordinates is appended, in
   * input order, to the list of its postal code. It throws (None) exactly
   * when some located record has an inherited key; the exception ends main
   * (lines 240-243), so nothing of the partial map is used.
   */
  method BuildGroups(records: seq<RawRecord>) returns (result: Option<map<string, seq<Point>>>)
    ensures result.None? <==> exists i :: 0 <= i < |records| && Throws(records[i])
    ensures result.Some? ==> result.value.Keys == GroupKeys(records)
    ensures result.Some? ==>
      forall cp :: cp in result.value ==> result.value[cp] == GroupOf(records, cp) && result.value[cp] != []
  {
    var byCp: map<string, seq<Point>> := map[];
    for i := 0 to |records|
      invariant forall j :: 0 <= j < i ==> !Throws(records[j])
      invariant GroupsUpTo(records, i, byCp)
    {
      var item := records[i];
      var cp := GroupKey(item);
      var entry := Entry(item);
      if entry.Some? {
        if cp in InheritedKeys {
          return None;
        }
        var group := if cp in byCp then byCp[cp] else [];
        GroupsAdd(records, i, byCp);
        byCp := byCp[cp := group + [entry.value]];
      } else {
        GroupsSkip(records, i, byCp);
      }
    }
    assert records[..|records|] == records;
    return Some(byCp);
  }

  /** byCp holds exactly the groups of the first i records. */
  ghost predicate GroupsUpTo(records: seq<RawRecord>, i: nat, byCp: map<string, seq<Point>>)
    requires i <= |records|
  {
    byCp.Keys == GroupKeys(records[..i]) &&
    forall cp :: cp in byCp ==> byCp[cp] == GroupOf(records[..i], cp) && byCp[cp] != []
  }

  /** Lines 46-47 for a located record: its station joins the list of its key. */
  lemma GroupsAdd(records: seq<RawRecord>, i: nat, byCp: map<string, seq<Point>>)
    requires i < |records| && GroupsUpTo(records, i, byCp) && Entry(records[i]).Some?
    ensures var cp := GroupKey(records[i]);
      GroupsUpTo(records, i + 1, byCp[cp := (if cp in byCp then byCp[cp] else []) + [Entry(records[i]).value]])
  {
    GroupsStep(records, i);
    GroupKeysNonEmpty(records[..i], GroupKey(records[i]));
  }

  /** Line 33: a record without both coordinates changes nothing. */
  lemma GroupsSkip(records: seq<RawRecord>, i: nat, byCp: map<string, seq<Point>>)
    requires i < |records| && GroupsUpTo(records, i, byCp) && Entry(records[i]).None?
    ensures GroupsUpTo(records, i + 1, byCp)
  {
    GroupsStep(records, i);
  }

  /** The set of addresses of a list of stations. */
  function Addresses(s: seq<Point>): set<Field> {
    set k | 0 <= k < |s| :: s[k].adresse
  }

  /** s[i] is the first station of s with its address. */
  predicate IsFirstOfAddress(s: seq<Point>, i: nat)
    requires i < |s|
  {
    forall j :: 0 <= j < i ==> s[j].adresse != s[i].adresse
  }

  /** The first-of-address stations among the first n, in order. */
  function KeepFirstUpTo(s: seq<Point>, n: nat): seq<Point>
    requires n <= |s|
  {
    if n == 0 then []
    else KeepFirstUpTo(s, n - 1) + (if IsFirstOfAddress(s, n - 1) then [s[n - 1]] else [])
  }

  /** The subsequence of s that keeps the first station for each address. */
  function FirstByAddress(s: seq<Point>): seq<Point> {
    KeepFirstUpTo(s, |s|)
  }

  /** A kept station is the first of its address at some position j < n. */
  lemma {:induction false} KeptIndex(s: seq<Point>, n: nat, x: Point) returns (j: nat)
    requires n <= |s| && x in KeepFirstUpTo(s, n)
    ensures j < n && IsFirstOfAddress(s, j) && s[j] == x
  {
    if IsFirstOfAddress(s, n - 1) && x == s[n - 1] {
      j := n - 1;
    } else {
      var prev := KeepFirstUpTo(s, n - 1);
      var tail := if IsFirstOfAddress(s, n - 1) then [s[n - 1]] else [];
      assert KeepFirstUpTo(s, n) == prev + tail;
      assert x !in tail;
      j := KeptIndex(s, n - 1, x);
    }
  }

  /** The first station of an address among the first n is kept. */
  lemma {:induction false} FirstIsKept(s: seq<Point>, n: nat, j: nat)
    requires j < n <= |s| && IsFirstOfAddress(s, j)
    ensures s[j] in KeepFirstUpTo(s, n)
  {
    var prev := KeepFirstUpTo(s, n - 1);
    var tail := if IsFirstOfAddress(s, n - 1) then [s[n - 1]] else [];
    assert KeepFirstUpTo(s, n) == prev + tail;
    if j < n - 1 {
      FirstIsKept(s, n - 1, j);
    } else {
      assert s[j] in tail;
    }
  }

  /** A station is kept exactly when it is the first of its address. */
  lemma KeepFirstMembers(s: seq<Point>, n: nat, x: Point)
    requires n <= |s|
    ensures x in KeepFirstUpTo(s, n) <==> exists j :: 0 <= j < n && IsFirstOfAddress(s, j) && s[j] == x
  {
    if x in KeepFirstUpTo(s, n) {
      var j := KeptIndex(s, n, x);
    }
    if exists j :: 0 <= j < n && IsFirstOfAddress(s, j) && s[j] == x {
      var j :| 0 <= j < n && IsFirstOfAddress(s, j) && s[j] == x;
      FirstIsKept(s, n, j);
    }
  }

  lemma AddressesSnoc(s: seq<Point>, x: Point)
    ensures Addresses(s + [x]) == Addresses(s) + {x.adresse}
  {
    var t := s + [x];
    assert forall k :: 0 <= k < |s| ==> t[k] == s[k];
    assert t[|s|] == x;
    forall a | a in Addresses(t) ensures a in Addresses(s) + {x.adresse} {
      var k :| 0 <= k < |t| && t[k].adresse == a;
      if k < |s| {
        assert s[k].adresse == a;
      }
    }
  }

  /** After dedup no two stations share an address. */
  lemma {:induction false} DedupAddressesDistinct(s: seq<Point>, n: nat)
    requires n <= |s|
    ensures forall a, b :: 0 <= a < b < |KeepFirstUpTo(s, n)| ==>
      KeepFirstUpTo(s, n)[a].adresse != KeepFirstUpTo(s, n)[b].adresse
  {
    if n > 0 {
      DedupAddressesDistinct(s, n - 1);
      var prev, cur := KeepFirstUpTo(s, n - 1), KeepFirstUpTo(s, n);
      if IsFirstOfAddress(s, n - 1) {
        assert cur == prev + [s[n - 1]];
        forall a, b | 0 <= a < b < |cur| ensures cur[a].adresse != cur[b].adresse {
          assert cur[a] == prev[a];
          if b < |prev| {
            assert cur[b] == prev[b];
          } else {
            var j := KeptIndex(s, n - 1, prev[a]);
          }
        }
      } else {
        assert cur == prev;
      }
    }
  }

  /** Dedup loses no address. */
  lemma {:induction false} DedupKeepsEveryAddress(s: seq<Point>, n: nat)
    requires n <= |s|
    ensures Addresses(KeepFirstUpTo(s, n)) == Addresses(s[..n])
  {
    if n > 0 {
      DedupKeepsEveryAddress(s, n - 1);
      var prev := KeepFirstUpTo(s, n - 1);
      var cur := KeepFirstUpTo(s, n);
      assert s[..n] == s[..n - 1] + [s[n - 1]];
      AddressesSnoc(s[..n - 1], s[n - 1]);
      if IsFirstOfAddress(s, n - 1) {
        AddressesSnoc(prev, s[n - 1]);
      } else {
        var j :| 0 <= j < n - 1 && s[j].adresse == s[n - 1].adresse;
        assert s[..n - 1][j] == s[j];
        assert s[n - 1].adresse in Addresses(s[..n - 1]);
        assert cur == prev;
      }
    }
  }

  /** Stations with pairwise different addresses are pairwise different. */
  lemma DedupDistinct(s: seq<Point>)
    ensures Distinct(FirstByAddress(s))
  {
    DedupAddressesDistinct(s, |s|);
  }

  /** The dedup filter of one group: a `seen` set of addresses, first occurrence wins. */
  method DedupByAddress(items: seq<Point>) returns (kept: seq<Point>)
    ensures kept == FirstByAddress(items)
  {
    var seen: set<Field> := {};
    kept := [];
    for i := 0 to |items|
      invariant seen == Addresses(items[..i])
      invariant kept == KeepFirstUpTo(items, i)
    {
      var item := items[i];
      assert items[..i + 1] == items[..i] + [item];
      AddressesSnoc(items[..i], item);
      if item.adresse in seen {
        var k :| 0 <= k < i && items[..i][k].adresse == item.adresse;
        assert !IsFirstOfAddress(items, i);
      } else {
        assert forall j :: 0 <= j < i ==> items[j] == items[..i][j];
        seen := seen + {item.adresse};
        kept := kept + [item];
      }
    }
  }

  /** The dedup loop over all groups: same keys, each group deduplicated. */
  method DedupGroups(byCp: map<string, seq<Point>>) returns (deduped: map<string, seq<Point>>)
    ensures deduped.Keys == byCp.Keys
    ensures forall cp :: cp in deduped ==> deduped[cp] == FirstByAddress(byCp[cp])
  {
    deduped := byCp;
    var todo := byCp.Keys;
    while todo != {}
      invariant todo <= byCp.Keys && deduped.Keys == byCp.Keys
      invariant forall cp :: cp in deduped && cp !in todo ==> deduped[cp] == FirstByAddress(byCp[cp])
      invariant forall cp :: cp in todo ==> deduped[cp] == byCp[cp]
      decreases todo
    {
      var cp :| cp in todo;
      var kept := DedupByAddress(deduped[cp]);
      deduped := deduped[cp := kept];
      todo := todo - {cp};
    }
  }
}
