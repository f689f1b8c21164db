/** The nearest-GC selection: one distance record per candidate, the records
    sorted by distance, and the first of them taken. The geodesic distance is
    not computed here: it is a parameter `dist` from the searched position and
    a GC's position to kilometres. */
module Nearest {
  import opened Records

  /** `k` is the first position holding the smallest distance of `ds`. */
  predicate IsFirstMin(ds: seq<Entry>, k: int) {
    && 0 <= k < |ds|
    && (forall j :: 0 <= j < |ds| ==> ds[k].distance <= ds[j].distance)
    && (forall j :: 0 <= j < k ==> ds[k].distance < ds[j].distance)
  }

  /** The first position of the smallest distance. */
  function FirstMin(ds: seq<Entry>): (k: nat)
    requires |ds| > 0
    ensures IsFirstMin(ds, k)
    decreases |ds|
  {
    if |ds| == 1 then 0
    else
      var k := FirstMin(ds[1..]);
      if ds[0].distance <= ds[k + 1].distance then 0 else k + 1
  }

  /** There is only one first position of the minimum. */
  lemma FirstMinUnique(ds: seq<Entry>, k: int)
    requires IsFirstMin(ds, k)
    ensures k == FirstMin(ds)
  {
  }

  predicate SortedByDistance(ds: seq<Entry>) {
    forall i, j :: 0 <= i < j < |ds| ==> ds[i].distance <= ds[j].distance
  }

  /** Inserts `x` before the first record that is not strictly closer, so that
      `x`, which came earlier in the list, stays ahead of records at the same distance. */
  function InsertByDistance(x: Entry, s: seq<Entry>): (r: seq<Entry>)
    ensures |r| == |s| + 1
    ensures multiset(r) == multiset(s) + multiset{x}
    ensures r[0] == if s == [] || x.distance <= s[0].distance then x else s[0]
    decreases |s|
  {
    if s == [] || x.distance <= s[0].distance then [x] + s
    else
      assert s == [s[0]] + s[1..];
      [s[0]] + InsertByDistance(x, s[1..])
  }

  lemma {:induction false} InsertKeepsSorted(x: Entry, s: seq<Entry>)
    requires SortedByDistance(s)
    ensures SortedByDistance(InsertByDistance(x, s))
    decreases |s|
  {
    if s != [] && s[0].distance < x.distance {
      InsertKeepsSorted(x, s[1..]);
      var rest := InsertByDistance(x, s[1..]);
      assert s[0].distance <= rest[0].distance;
      assert InsertByDistance(x, s) == [s[0]] + rest;
    }
  }

  /** `distances.sort(key=lambda x: x['distance'])`: Python's sort is stable,
      modelled here as insertion sort that keeps records at equal distance in
      their original order. */
  function SortByDistance(ds: seq<Entry>): (sorted: seq<Entry>)
    ensures |sorted| == |ds|
    ensures multiset(sorted) == multiset(ds)
    ensures SortedByDistance(sorted)
    decreases |ds|
  {
    if ds == [] then []
    else
      assert ds == [ds[0]] + ds[1..];
      InsertKeepsSorted(ds[0], SortByDistance(ds[1..]));
      InsertByDistance(ds[0], SortByDistance(ds[1..]))
  }

  /** The records of `ds` at exactly distance `d`, in their order in `ds`. */
  function AtDistance(ds: seq<Entry>, d: real): seq<Entry>
    decreases |ds|
  {
    if ds == [] then []
    else (if ds[0].distance == d then [ds[0]] else []) + AtDistance(ds[1..], d)
  }

  lemma {:induction false} InsertIsStable(x: Entry, s: seq<Entry>, d: real)
    ensures AtDistance(InsertByDistance(x, s), d) == AtDistance([x], d) + AtDistance(s, d)
    decreases |s|
  {
    if s == [] || x.distance <= s[0].distance {
      assert ([x] + s)[1..] == s;
    } else {
      InsertIsStable(x, s[1..], d);
      assert ([s[0]] + InsertByDistance(x, s[1..]))[1..] == InsertByDistance(x, s[1..]);
    }
  }

  /** The sort is stable: records at the same distance keep their relative order. */
  lemma {:induction false} SortIsStable(ds: seq<Entry>, d: real)
    ensures AtDistance(SortByDistance(ds), d) == AtDistance(ds, d)
    decreases |ds|
  {
    if ds != [] {
      SortIsStable(ds[1..], d);
      InsertIsStable(ds[0], SortByDistance(ds[1..]), d);
      assert ([ds[0]] + ds[1..])[1..] == ds[1..];
    }
  }

  /** `distances[0]` after the stable sort is the record at the first position
      of the smallest distance: the closest candidate, the earliest among ties. */
  lemma {:induction false} SortedHeadIsFirstMin(ds: seq<Entry>)
    requires |ds| > 0
    ensures SortByDistance(ds)[0] == ds[FirstMin(ds)]
    decreases |ds|
  {
    if |ds| > 1 {
      SortedHeadIsFirstMin(ds[1..]);
    }
  }

  /** geopy's `geodesic` accepts a point only when its latitude lies in
      [-90, 90]; it raises `ValueError` otherwise. A longitude out of range
      is wrapped, not refused. */
  predicate InGeodesicRange(p: Coord) {
    -90.0 <= p.latitude <= 90.0
  }

  /** Every distance of the search can be computed: the searched position and
      every candidate's position are accepted by `geodesic`. */
  predicate DistancesDefined(candidates: Dataset, origin: Coord) {
    InGeodesicRange(origin) && forall i :: 0 <= i < |candidates| ==> InGeodesicRange(PositionOf(candidates[i]))
  }

  /** The distance list of the search, one record per candidate. */
  function Distances(candidates: Dataset, origin: Coord, dist: (Coord, Coord) -> real): seq<Entry> {
    seq(|candidates|, i requires 0 <= i < |candidates| =>
      EntryOf(candidates[i], dist(origin, PositionOf(candidates[i]))))
  }

  /** The loop that appends one record per candidate row. It stops with `None`
      at the first candidate whose distance `geodesic` refuses to compute. */
  method BuildDistances(candidates: Dataset, origin: Coord, dist: (Coord, Coord) -> real)
    returns (ds: Option<seq<Entry>>)
    ensures ds.None? <==> candidates != [] && !DistancesDefined(candidates, origin)
    ensures ds.Some? ==> |ds.value| == |candidates|
    ensures ds.Some? ==> forall i :: 0 <= i < |ds.value| ==>
      ds.value[i] == EntryOf(candidates[i], dist(origin, PositionOf(candidates[i])))
  {
    var built := [];
    for i := 0 to |candidates|
      invariant |built| == i
      invariant i > 0 ==> InGeodesicRange(origin)
      invariant forall j :: 0 <= j < i ==> InGeodesicRange(PositionOf(candidates[j]))
      invariant forall j :: 0 <= j < i ==>
        built[j] == EntryOf(candidates[j], dist(origin, PositionOf(candidates[j])))
    {
      var loc := candidates[i];
      if !InGeodesicRange(origin) || !InGeodesicRange(PositionOf(loc)) {
        return None;
      }
      var distance := dist(origin, PositionOf(loc));
      built := built + [EntryOf(loc, distance)];
    }
    return Some(built);
  }

  /** The nearest record found by one pass that keeps the running minimum and
      replaces it only on a strictly smaller distance. */
  method NearestIndex(ds: seq<Entry>) returns (k: nat)
    requires |ds| > 0
    ensures IsFirstMin(ds, k)
  {
    k := 0;
    for i := 1 to |ds|
      invariant k < i
      invariant forall j :: 0 <= j < i ==> ds[k].distance <= ds[j].distance
      invariant forall j :: 0 <= j < k ==> ds[k].distance < ds[j].distance
    {
      if ds[i].distance < ds[k].distance {
        k := i;
      }
    }
  }
}
