/** The "find the nearest GC" search of the map page: disambiguate and
    geocode the typed address, filter the table by type, pick the nearest
    candidate and classify it as covered or not. The geocoder and the geodesic
    distance are parameters: `geocode` maps the search string to what the
    geocoding service answers, `dist` maps two positions to kilometres. */
module Search {
  import opened Records
  import opened Address
  import opened Categories
  import opened Nearest
  import opened Loader

  /** The distance, in kilometres, up to which an address counts as covered. */
  const CoverageThresholdKm: real := 2.0

  /** The radius, in metres, of the coverage circle drawn around a GC. */
  const DrawnCoverageRadiusMeters: real := 1000.0

  predicate Covered(distanceKm: real) {
    distanceKm <= CoverageThresholdKm
  }

  /** The geocoding service's answer: a position, no match, or a failure (an exception). */
  datatype Geocoded = Located(position: Coord) | NotLocated | ServiceFailed

  /** What the page shows after the search button is pressed. */
  datatype Outcome =
    | NoSearch                        // the address box is empty
    | SearchFailed                    // "error processing the address"
    | AddressNotFound                 // "could not find the address"
    | NoCandidates(category: string)  // "there are no GCs of this type"
    | Found(nearest: Entry, covered: bool, color: string)

  /** The search as a function of the table, the typed address, the chosen
      type filter, the geocoder and the distance. */
  function Resolve(ds: Dataset, query: string, sel: string,
                   geocode: string -> Geocoded, dist: (Coord, Coord) -> real): Outcome
  {
    if query == "" then NoSearch
    else match geocode(Disambiguate(query))
      case ServiceFailed => SearchFailed
      case NotLocated => AddressNotFound
      case Located(origin) =>
        var candidates := FilterCategory(ds, sel);
        if candidates == [] then NoCandidates(sel)
        else if !DistancesDefined(candidates, origin) then SearchFailed
        else
          var nearest := SortByDistance(Distances(candidates, origin, dist))[0];
          Found(nearest, Covered(nearest.distance), ColorFor(nearest.category, NearestMarkerFallback))
  }

  /** The search with its loops: the distance list is built by a loop as the
      page does. The page sorts that list in place and takes its head; here a
      running-minimum pass finds the nearest record instead, and
      `SortedHeadIsFirstMin` shows it is the same record. */
  method Search(ds: Dataset, query: string, sel: string,
                geocode: string -> Geocoded, dist: (Coord, Coord) -> real)
    returns (outcome: Outcome)
    ensures outcome == Resolve(ds, query, sel, geocode, dist)
  {
    if query == "" {
      return NoSearch;
    }
    var searchAddress := Disambiguate(query);
    match geocode(searchAddress) {
      case ServiceFailed =>
        outcome := SearchFailed;
      case NotLocated =>
        outcome := AddressNotFound;
      case Located(origin) =>
        var candidates := FilterCategory(ds, sel);
        if candidates == [] {
          return NoCandidates(sel);
        }
        var built := BuildDistances(candidates, origin, dist);
        if built.None? {
          return SearchFailed;
        }
        var entries := built.value;
        var k := NearestIndex(entries);
        assert entries == Distances(candidates, origin, dist);
        FirstMinUnique(entries, k);
        SortedHeadIsFirstMin(entries);
        var nearest := entries[k];
        outcome := Found(nearest, Covered(nearest.distance), ColorFor(nearest.category, NearestMarkerFallback));
    }
  }

  /** A distance of exactly the threshold is covered; anything beyond it is not. */
  lemma CoverageBoundary(excess: real)
    requires excess > 0.0
    ensures Covered(CoverageThresholdKm)
    ensures !Covered(CoverageThresholdKm + excess)
  {
  }

  /** An address between 1 and 2 km away is reported as covered although it
      lies outside the 1 km circle drawn around the GC. */
  lemma CoveredBeyondDrawnCircle(distanceKm: real)
    requires 1.0 < distanceKm <= 2.0
    ensures Covered(distanceKm)
    ensures distanceKm * 1000.0 > DrawnCoverageRadiusMeters
  {
  }

  /** Each way the search can end, and when. */
  lemma ResolveOutcomes(ds: Dataset, query: string, sel: string,
                        geocode: string -> Geocoded, dist: (Coord, Coord) -> real)
    ensures query == "" <==> Resolve(ds, query, sel, geocode, dist) == NoSearch
    ensures query != "" ==> match geocode(Disambiguate(query))
      case ServiceFailed => Resolve(ds, query, sel, geocode, dist) == SearchFailed
      case NotLocated => Resolve(ds, query, sel, geocode, dist) == AddressNotFound
      case Located(origin) =>
        && (Resolve(ds, query, sel, geocode, dist) == NoCandidates(sel) <==>
              if sel == AllCategories then ds == [] else forall loc :: loc in ds ==> loc.category != sel)
        && (Resolve(ds, query, sel, geocode, dist) == SearchFailed <==>
              FilterCategory(ds, sel) != [] && !DistancesDefined(FilterCategory(ds, sel), origin))
        && (Resolve(ds, query, sel, geocode, dist).NoCandidates? || Resolve(ds, query, sel, geocode, dist).SearchFailed?
            || Resolve(ds, query, sel, geocode, dist).Found?)
  {
    FilterEmptyIff(ds, sel);
  }

  /** An empty table never yields a GC: once the address is located the
      search reports that there are no GCs of the chosen type. */
  lemma EmptyTableHasNoCandidates(query: string, sel: string,
                                  geocode: string -> Geocoded, dist: (Coord, Coord) -> real)
    requires query != "" && geocode(Disambiguate(query)).Located?
    ensures Resolve([], query, sel, geocode, dist) == NoCandidates(sel)
  {
    FilterEmptyIff([], sel);
  }

  /** A found GC is the candidate at the smallest distance, and the earliest
      candidate among those at that distance. */
  lemma ResolveFindsNearest(ds: Dataset, query: string, sel: string,
                            geocode: string -> Geocoded, dist: (Coord, Coord) -> real)
    requires Resolve(ds, query, sel, geocode, dist).Found?
    ensures query != "" && geocode(Disambiguate(query)).Located?
    ensures DistancesDefined(FilterCategory(ds, sel), geocode(Disambiguate(query)).position)
    ensures
      var origin := geocode(Disambiguate(query)).position;
      var candidates := FilterCategory(ds, sel);
      var nearest := Resolve(ds, query, sel, geocode, dist).nearest;
      exists i :: 0 <= i < |candidates|
        && nearest == EntryOf(candidates[i], dist(origin, PositionOf(candidates[i])))
        && (forall j :: 0 <= j < |candidates| ==> nearest.distance <= dist(origin, PositionOf(candidates[j])))
        && (forall j :: 0 <= j < i ==> nearest.distance < dist(origin, PositionOf(candidates[j])))
  {
    var origin := geocode(Disambiguate(query)).position;
    var candidates := FilterCategory(ds, sel);
    var entries := Distances(candidates, origin, dist);
    var i := FirstMin(entries);
    SortedHeadIsFirstMin(entries);
    forall j | 0 <= j < |candidates|
      ensures entries[i].distance <= dist(origin, PositionOf(candidates[j]))
    {
      assert entries[j].distance == dist(origin, PositionOf(candidates[j]));
    }
    forall j | 0 <= j < i
      ensures entries[i].distance < dist(origin, PositionOf(candidates[j]))
    {
      assert entries[j].distance == dist(origin, PositionOf(candidates[j]));
    }
  }

  /** A found GC is a row of the table, of the chosen type; it is covered
      exactly when its distance is within the threshold, and its marker takes
      its type's colour, blue for an unknown type. */
  lemma ResolveFoundIsRowOfType(ds: Dataset, query: string, sel: string,
                                geocode: string -> Geocoded, dist: (Coord, Coord) -> real)
    requires Resolve(ds, query, sel, geocode, dist).Found?
    ensures
      var origin := geocode(Disambiguate(query)).position;
      var found := Resolve(ds, query, sel, geocode, dist);
      && (exists loc :: loc in ds && found.nearest == EntryOf(loc, dist(origin, PositionOf(loc))))
      && (sel != AllCategories ==> found.nearest.category == sel)
      && (found.covered <==> found.nearest.distance <= CoverageThresholdKm)
      && found.color == ColorFor(found.nearest.category, NearestMarkerFallback)
  {
    ResolveFindsNearest(ds, query, sel, geocode, dist);
    var origin := geocode(Disambiguate(query)).position;
    var candidates := FilterCategory(ds, sel);
    var nearest := Resolve(ds, query, sel, geocode, dist).nearest;
    var i :| 0 <= i < |candidates| && nearest == EntryOf(candidates[i], dist(origin, PositionOf(candidates[i])));
    assert candidates[i] in candidates;
  }

  /** Among candidates at the smallest distance, the one found comes first
      in the file: the stable sort keeps ties in table order. */
  lemma ResolveBreaksTiesByFileOrder(ds: Dataset, query: string, sel: string,
                                     geocode: string -> Geocoded, dist: (Coord, Coord) -> real)
    requires InFileOrder(ds)
    requires Resolve(ds, query, sel, geocode, dist).Found?
    ensures
      var origin := geocode(Disambiguate(query)).position;
      var found := Resolve(ds, query, sel, geocode, dist).nearest;
      forall loc :: loc in FilterCategory(ds, sel) && dist(origin, PositionOf(loc)) == found.distance ==>
        found.index <= loc.index
  {
    ResolveFindsNearest(ds, query, sel, geocode, dist);
    FilterInFileOrder(ds, sel);
    var origin := geocode(Disambiguate(query)).position;
    var candidates := FilterCategory(ds, sel);
    var found := Resolve(ds, query, sel, geocode, dist).nearest;
    var i :| 0 <= i < |candidates|
            && found == EntryOf(candidates[i], dist(origin, PositionOf(candidates[i])))
            && (forall j :: 0 <= j < i ==> found.distance < dist(origin, PositionOf(candidates[j])));
    forall loc | loc in candidates && dist(origin, PositionOf(loc)) == found.distance
      ensures found.index <= loc.index
    {
      var j :| 0 <= j < |candidates| && candidates[j] == loc;
      assert i <= j;
    }
  }

  /** On a table loaded from a directory, a tie at the smallest distance goes
      to the GC whose row comes first in the chosen file. */
  lemma LoadedTableBreaksTiesByFileOrder(listing: seq<DirEntry>, query: string, sel: string,
                                         geocode: string -> Geocoded, dist: (Coord, Coord) -> real)
    requires Resolve(LoadData(listing), query, sel, geocode, dist).Found?
    ensures
      var origin := geocode(Disambiguate(query)).position;
      var found := Resolve(LoadData(listing), query, sel, geocode, dist).nearest;
      forall loc :: loc in FilterCategory(LoadData(listing), sel) && dist(origin, PositionOf(loc)) == found.distance ==>
        found.index <= loc.index
  {
    LoadDataInFileOrder(listing);
    ResolveBreaksTiesByFileOrder(LoadData(listing), query, sel, geocode, dist);
  }

  // A worked example: two GCs about 1.1 km apart, searched from the first one's position.

  const GroupA := Location(0, -23.0, -45.5, "Rua A", "Casal", "Ana e Paulo", "Terça 20h", "Norte", "Sede")
  const GroupB := Location(1, -23.01, -45.5, "Rua B", "Jovens", "Lucas", "Sábado 19h", "Sul", "Sede")
  const SearchedPosition := Coord(-23.0, -45.5)

  function ExampleGeocode(s: string): Geocoded {
    Located(SearchedPosition)
  }

  /** Stands in for the geodesic distance on the example's positions. */
  function ExampleDist(p: Coord, q: Coord): real {
    if p == q then 0.0 else 1.11
  }

  lemma ExampleAllTypes()
    ensures Resolve([GroupA, GroupB], "Rua A", AllCategories, ExampleGeocode, ExampleDist)
         == Found(EntryOf(GroupA, 0.0), true, "green")
  {
    var all := Distances([GroupA, GroupB], SearchedPosition, ExampleDist);
    assert PositionOf(GroupA) == SearchedPosition && PositionOf(GroupB) != SearchedPosition;
    assert ExampleDist(SearchedPosition, PositionOf(GroupA)) == 0.0;
    assert ExampleDist(SearchedPosition, PositionOf(GroupB)) == 1.11;
    assert all[0] == EntryOf(GroupA, 0.0) && all[1] == EntryOf(GroupB, 1.11);
    assert FirstMin(all) == 0;
    SortedHeadIsFirstMin(all);
  }

  lemma ExampleOneType()
    ensures Resolve([GroupA, GroupB], "Rua A", "Jovens", ExampleGeocode, ExampleDist)
         == Found(EntryOf(GroupB, 1.11), true, "orange")
  {
    assert KeepCategory([GroupA, GroupB], "Jovens") == [GroupB];
    var young := Distances([GroupB], SearchedPosition, ExampleDist);
    assert PositionOf(GroupB) != SearchedPosition;
    assert ExampleDist(SearchedPosition, PositionOf(GroupB)) == 1.11;
    assert young[0] == EntryOf(GroupB, 1.11);
    SortedHeadIsFirstMin(young);
  }

  lemma ExampleAbsentType()
    ensures Resolve([GroupA, GroupB], "Rua A", "Misto", ExampleGeocode, ExampleDist) == NoCandidates("Misto")
    ensures Resolve([GroupA, GroupB], "", AllCategories, ExampleGeocode, ExampleDist) == NoSearch
  {
    FilterEmptyIff([GroupA, GroupB], "Misto");
  }

  /** A GC whose latitude lies beyond a pole makes `geodesic` raise, and the
      search ends in the error message instead of finding a GC. */
  lemma ExampleLatitudeOutOfRange()
    ensures Resolve([GroupA, GroupB.(latitude := 95.0)], "Rua A", AllCategories, ExampleGeocode, ExampleDist)
         == SearchFailed
  {
    assert !InGeodesicRange(PositionOf([GroupA, GroupB.(latitude := 95.0)][1]));
  }

  /** Two GCs at the same distance: the one listed first is found. */
  lemma ExampleTie()
    ensures Resolve([GroupA, GroupB], "Rua A", AllCategories, ExampleGeocode, (p: Coord, q: Coord) => 0.55)
         == Found(EntryOf(GroupA, 0.55), true, "green")
  {
    var all := Distances([GroupA, GroupB], SearchedPosition, (p: Coord, q: Coord) => 0.55);
    assert all[0] == EntryOf(GroupA, 0.55) && all[1] == EntryOf(GroupB, 0.55);
    assert FirstMin(all) == 0;
    SortedHeadIsFirstMin(all);
  }
}
