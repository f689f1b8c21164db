# Nearest GC resolver

A Dafny model of the search logic in the GC map app. A GC is a small-group meeting point of the church in Taubaté. The app does five things:

1. It loads the table of GCs from a CSV file in the working directory, or from an uploaded file. Rows without coordinates are dropped.
2. It lets the user type an address. When the address does not name the city, it appends `", Taubaté, SP, Brasil"`.
3. It filters the GCs by type. The option `"Todos"` keeps every type.
4. It builds one distance record per candidate, sorts the records by distance (a stable sort) and takes the first one.
5. It reports whether the address is covered, meaning at most 2 km away. It also chooses the marker colour for the GC's type.

Modules:

- `Records`: the entities.
  - `Row`: a row as parsed, where either coordinate may be missing.
  - `Location`: a loaded GC, with real coordinates and its row index in the file.
  - `Entry`: the distance record built during the search.
- `Loader`:
  - the directory scan of `load_data`;
  - `dropna` on the coordinate columns;
  - the fallback to `lista_gc.csv`;
  - the broad exception handler;
  - the upload path.
- `Address`: the suffix rule. It includes a model of `str.lower` and of `in` on strings.
- `Categories`:
  - the type filter;
  - the colour lookup with its two fallbacks: `gray` on the table map and `blue` for the nearest GC;
  - the option list `["Todos"] + sorted(unique types)`, with Python's ordering of strings.
- `Nearest`:
  - the loop that builds the distance list;
  - `list.sort` by distance, modelled as a stable insertion sort;
  - the first index of the minimum;
  - a running-minimum loop that finds it.
- `Search`: the whole search.
  - `Resolve` is the search as a function.
  - `Search` is the search with loops, proved equal to `Resolve`. It builds the distance list by a loop, as the page does. The page then sorts the list in place and takes `distances[0]`. `Search` instead finds the nearest record by a running-minimum pass, and `SortedHeadIsFirstMin` shows that this is the same record.
  - Lemmas state what a result means.

The geocoding service is a parameter `geocode: string -> Geocoded`. It answers with a position, "no match" (`None`), or a failure (any exception inside the `try`). The geodesic distance is a parameter `dist: (Coord, Coord) -> real` in kilometres. The model keeps the one way geopy's `geodesic` fails on a finite point: it raises `ValueError` for a latitude outside [-90, 90]. Inside the search's `try` this ends in the generic error message (main.py:174-177, 252-253). Nothing else the model proves depends on how distance is computed. A directory is given as its listing: each entry has a file name and either its parsed contents or the fact that it could not be read.

Some of the app's own text disagrees with its code. The model follows the code:

- The comment at main.py:201 says the threshold is 2 km, and the code compares with 2 (main.py:202).
- The messages at main.py:203 and main.py:205 speak of a 1 km coverage area. So does the sidebar text at layout.py:43. The circles drawn at main.py:112 and main.py:239 have a radius of 1000 m.
- The model's threshold is the named constant `CoverageThresholdKm = 2.0`. The lemma `CoveredBeyondDrawnCircle` shows that an address 1 to 2 km away is reported as covered, although it lies outside the drawn circle.
- A CSV without the required columns is never reported as a schema error. The directory scan skips it. The default file is read with no column check. Every failure while loading becomes an empty table.
- A geocoder failure is not a separate outcome. It ends in the same generic error message as any other exception inside the search's `try`.

## Model

| member | source | states |
|---|---|---|
| `Loader.ScanCsv` | main.py:38-43 | Definition of the directory scan; see `Loader.ScanSkipsPrefix` and `Loader.LoadPicksFirstQualifying`. |
| `Loader.LoadDefault` | main.py:45-47 | Definition of the fallback read of `lista_gc.csv`; see `Loader.LoadFallsBackToDefault`. |
| `Loader.LoadData` | main.py:35-49 | Definition of `load_data`; see `Loader.LoadPicksFirstQualifying`, `Loader.LoadFailsOnUnreadable`, `Loader.LoadFallsBackToDefault`, `Loader.LoadTable` and `Loader.LoadDataInFileOrder`. |
| `Loader.Upload` | main.py:57-65 | Definition of the upload path; see `Loader.UploadSavedIffLocatedRow`. |
| `Loader.DropMissing` | main.py:43 | The kept rows are exactly the rows that have both coordinates. Each keeps its own fields and its row number as index, in file order. The number dropped equals the number of rows missing a coordinate. |
| `Loader.ScanSkipsPrefix` | main.py:38-43 | The directory scan goes past any prefix of entries that are not CSVs or are readable CSVs lacking a required column. |
| `Loader.LoadPicksFirstQualifying` | main.py:38-43 | `load_data` returns the filtered rows of the first CSV, in listing order, whose header has all six required columns. |
| `Loader.LoadFailsOnUnreadable` | main.py:37-49 | An unreadable CSV met before any qualifying one makes `load_data` return an empty table. |
| `Loader.LoadFallsBackToDefault` | main.py:45-49 | `lista_gc.csv` is read, with no column check, only when no listed CSV qualifies. It yields an empty table when it is missing, unreadable or lacks a coordinate column. |
| `Loader.LoadTable` | main.py:35-49 | The listing loop with its early return computes exactly `LoadData`. |
| `Loader.LoadDataInFileOrder` | main.py:43-47 | A loaded table lists its GCs in file order, with strictly increasing row indices. |
| `Loader.UploadSavedIffLocatedRow` | main.py:57-67 | An upload with coordinate columns is saved exactly when some row has both coordinates, and what is saved is its filtered rows. Otherwise the outcome is the "no valid coordinates" error. |
| `Address.Lower` | main.py:152 | Definition of `str.lower`, character by character; see `Address.LowerChar` and `Address.LowerConcat`. |
| `Address.Contains` | main.py:152 | Definition of `in` on strings; see `Address.ContainsInSuffix` and `Address.SuffixNamesCity`. |
| `Address.Disambiguate` | main.py:151-155 | Definition of the suffix rule; see `Address.DisambiguatedNamesCity`, `Address.DisambiguateUnchangedIff` and `Address.DisambiguateIdempotent`. |
| `Address.LowerChar` | main.py:152 | Upper-case ASCII letters and the Latin-1 upper-case letters À to Þ, except ×, are shifted by 32 to lower case (so `É` becomes `é`). × and every character outside these ranges are unchanged. |
| `Address.LowerConcat` | main.py:152 | Lower-casing a concatenation gives the concatenation of the lower-cased parts. |
| `Address.ContainsInSuffix` | main.py:152 | A substring of the tail of a string is a substring of the whole string. |
| `Address.SuffixNamesCity` | main.py:152-153 | The lower-cased suffix contains `"taubaté"`. |
| `Address.DisambiguatedNamesCity` | main.py:152-155 | After the suffix step, the lower-cased search string always contains `"taubaté"`. |
| `Address.DisambiguateUnchangedIff` | main.py:152-155 | The query passes through unchanged iff its lower-cased form contains `"taubaté"`. Otherwise the result is exactly query + `", Taubaté, SP, Brasil"`. |
| `Address.DisambiguateIdempotent` | main.py:152-155 | Applying the suffix step twice gives the same string as applying it once. |
| `Categories.KeepCategory` | main.py:166 | The kept rows are exactly the table rows whose type equals the selection. |
| `Categories.FilterCategory` | main.py:164-166 | With `"Todos"` the candidates are the whole table. Otherwise they are exactly the rows whose type equals the selection. |
| `Categories.KeepCategoryAppend` | main.py:166 | The filter acts row by row, so filtering a concatenation concatenates the filtered parts and original order is kept. |
| `Categories.KeepCategoryInFileOrder` | main.py:166 | Filtering a table in file order leaves the candidates in file order. |
| `Categories.FilterInFileOrder` | main.py:164-166 | The candidates of a table in file order are in file order, for `"Todos"` and for any type. |
| `Categories.FilterEmptyIff` | main.py:164-169 | There are no candidates iff the table has no GC of the chosen type. For `"Todos"`, iff the table is empty. |
| `Categories.ColorFor` | main.py:88 | Definition of `color_map.get(type, fallback)`, used with `gray` at main.py:88 and `blue` at main.py:219; see `Categories.ColorForKnownAndUnknown` and `Categories.MarkerColorsDifferOnlyForUnknown`. |
| `Categories.ColorForKnownAndUnknown` | main.py:77-88 | Each of the six known types maps to its colour. Any other type maps to the fallback. |
| `Categories.MarkerColorsDifferOnlyForUnknown` | main.py:219 | The table marker colour and the nearest-GC marker colour differ iff the type is unknown. In that case they are `gray` and `blue`. |
| `Categories.StrLess` | main.py:134 | Definition of Python's `<` on strings; see `Categories.StrLessIrreflexive`, `Categories.StrLessTransitive` and `Categories.StrLessTotal`. |
| `Categories.StrLessIrreflexive` | main.py:134 | Python's string order is irreflexive. |
| `Categories.StrLessTransitive` | main.py:134 | Python's string order is transitive. |
| `Categories.StrLessTotal` | main.py:134 | Python's string order is total on distinct strings. |
| `Categories.LessThanFirstIsLessThanAll` | main.py:134 | A string below the head of a sorted list is below every element of it. |
| `Categories.InsertSorted` | main.py:134 | Inserting into a strictly sorted list keeps it strictly sorted. The elements become the old ones plus the new one, each once. |
| `Categories.SortedDistinct` | main.py:134 | The result is strictly sorted and holds exactly the strings of the input. |
| `Categories.StrictlySortedUnique` | main.py:134 | Two strictly sorted lists with the same elements are equal. |
| `Categories.CategoryColumn` | main.py:134 | The type column holds exactly the types of the table's rows. |
| `Categories.FilterOptions` | main.py:134 | The options are `"Todos"` first, then a strictly sorted list of exactly the table's types. |
| `Categories.FilterOptionsDetermined` | main.py:134 | The options equal `"Todos"` followed by THE sorted list of the table's distinct types. |
| `Nearest.FirstMin` | main.py:192-195 | The result is a position of the smallest distance, and no earlier position holds that distance. |
| `Nearest.FirstMinUnique` | main.py:192-195 | The first position of the minimum is unique. |
| `Nearest.InsertByDistance` | main.py:192 | Insertion adds exactly one record (same multiset plus it). The new head is the inserted record unless the old head is strictly closer. |
| `Nearest.InsertKeepsSorted` | main.py:192 | Insertion keeps a list sorted by distance. |
| `Nearest.SortByDistance` | main.py:192 | The sorted list is a permutation of the distance list and is sorted by distance. |
| `Nearest.InsertIsStable` | main.py:192 | Insertion places the new record ahead of every record at the same distance. |
| `Nearest.SortIsStable` | main.py:192 | The sort is stable: records at any one distance keep their relative order. |
| `Nearest.SortedHeadIsFirstMin` | main.py:192-195 | `distances[0]` after the sort is the record at the first position of the smallest distance. |
| `Nearest.InGeodesicRange` | main.py:174-177 | Definition of the latitude range `geodesic` accepts; see `Nearest.BuildDistances` and `Search.ResolveOutcomes`. |
| `Nearest.DistancesDefined` | main.py:172-177 | Definition: every distance of the loop can be computed; see `Nearest.BuildDistances`. |
| `Nearest.Distances` | main.py:172-189 | Definition of the distance list; see `Nearest.BuildDistances` and `Nearest.SortedHeadIsFirstMin`. |
| `Nearest.BuildDistances` | main.py:172-189 | The loop fails exactly when some distance cannot be computed, because the searched position or a candidate has a latitude outside [-90, 90]. Otherwise it builds one record per candidate, in candidate order, and each record's distance and fields come from the same row. |
| `Nearest.NearestIndex` | main.py:192-195 | The running-minimum loop returns the first position of the smallest distance. |
| `Search.Resolve` | main.py:144-253 | Definition of the whole search as a function; see `Search.Search`, `Search.ResolveOutcomes`, `Search.ResolveFindsNearest`, `Search.ResolveFoundIsRowOfType` and `Search.ResolveBreaksTiesByFileOrder`. |
| `Search.Search` | main.py:144-219 | The search with the distance loop of main.py:172-189 returns exactly `Resolve`'s outcome. In place of the in-place sort and `distances[0]` (main.py:192-195), it uses a running-minimum pass, which finds the same record by `SortedHeadIsFirstMin`. |
| `Search.Covered` | main.py:202 | Definition of the coverage test; see `Search.CoverageBoundary` and `Search.CoveredBeyondDrawnCircle`. |
| `Search.CoverageBoundary` | main.py:202 | A distance of exactly 2 km is covered. Any larger distance is not. |
| `Search.CoveredBeyondDrawnCircle` | main.py:201-205 | Every distance in (1, 2] km is reported covered, yet lies outside the 1000 m circle drawn around the GC. |
| `Search.ResolveOutcomes` | main.py:144-253 | The search ends in one of five ways. An empty address means no search. A geocoder failure gives the error message. No match gives "address not found". With a position, "no GCs of this type" appears iff no row has the type. With candidates, the error message appears iff some latitude is outside [-90, 90]; otherwise a GC is found. |
| `Search.EmptyTableHasNoCandidates` | main.py:164-169 | On an empty table a located address always yields "no GCs of this type", never a GC. The page offers the search only for a non-empty table: the `if df.empty:` at main.py:54 shows the upload form, and the search is in its `else` branch (main.py:68-253), so this case is reached only when the search is called directly. |
| `Search.ResolveFindsNearest` | main.py:172-195 | A search that finds a GC had a non-empty query that the geocoder located, and every distance could be computed. The GC found is a candidate at distance no greater than any candidate's, and no candidate before it is equally close. |
| `Search.ResolveFoundIsRowOfType` | main.py:164-219 | A found GC is a row of the table and, unless "Todos" is chosen, of the chosen type. It is covered iff its distance is at most 2 km. Its colour is the type's colour, or `blue` for an unknown type. |
| `Search.ResolveBreaksTiesByFileOrder` | main.py:192-195 | On a table in file order, the GC found has the smallest row index among candidates at the smallest distance. |
| `Search.LoadedTableBreaksTiesByFileOrder` | main.py:35-195 | On a table as `load_data` returns it, a tie goes to the GC whose row comes first in the chosen file. |
| `Search.ExampleAllTypes` | main.py:164-203 | Two GCs 1.11 km apart, searched from the first's position with `"Todos"`. The first is found at 0 km, covered, `green`. |
| `Search.ExampleOneType` | main.py:164-203 | The same search filtered to `"Jovens"` finds the second GC at 1.11 km, covered, `orange`. |
| `Search.ExampleAbsentType` | main.py:144-169 | Filtering to a type with no GC yields "no GCs of this type". An empty address yields no search. |
| `Search.ExampleLatitudeOutOfRange` | main.py:172-253 | A GC at latitude 95 makes `geodesic` raise, and the search ends in the error message. |
| `Search.ExampleTie` | main.py:172-195 | Two GCs at the same distance: the one listed first is found. |

## Left out

- Streamlit page setup, widgets, messages and the rerun after an upload are not modelled. They are presentation with no logic.
- folium maps, markers, circles and lines are not modelled. Only the colour lookup that feeds them is.
- The Nominatim geocoder is a network service. It is the parameter `geocode`.
- The geopy geodesic distance is ellipsoidal floating-point arithmetic. It is the parameter `dist`, and distances are reals. Float rounding and the `:.2f` display are not modelled.
- Search.Resolve: coordinates are Dafny reals, so a non-finite coordinate (pandas reads `inf` as a float and `dropna` keeps it) cannot occur. geopy's `ValueError` for such a point is therefore not modelled; only its refusal of a latitude outside [-90, 90] is.
- Reading the directory and `read_csv` are replaced by a given listing with parsed contents. Parsing of CSV text is not modelled.
- Writing the upload back to `lista_gc.csv` with `to_csv` is left out.
- The `st.cache_data` cache of `load_data` is left out. So is what a re-run after an upload loads.
- Address.LowerChar: covers only the ASCII and Latin-1 upper-case letters, not the rest of the Unicode case mapping of Python's `str.lower` (for example `Ā`, or `İ`, which lower-cases to two characters). The city name only needs these.
- Rows always carry every text field; missing columns and missing (NaN) text cells are not modelled. Any loaded table may lack `Dia/Horário` or `Coordenação`: a chosen CSV needs only the six columns of main.py:41. The default file and an upload are checked only for the coordinate columns (main.py:46-47, 59-60), so they may also lack `Tipo GC`, `Endereço` or `Lideres`. A missing `Tipo GC`, `Endereço`, `Lideres` or `Dia/Horário` raises uncaught while the table map is drawn (main.py:88-96, 134), before any search. Only a missing `Coordenação` reaches the search's `try` (main.py:186), where every search with candidates ends in the generic error message (main.py:252-253).
- Search.Search: does not perform the in-place sort of main.py:192; it finds the nearest record by a running-minimum pass (`Nearest.NearestIndex`), which `Nearest.SortedHeadIsFirstMin` proves to be the record the sort puts first. The order of the rest of the sorted list is not produced by the method.
- Nearest.SortByDistance: models Python's in-place `list.sort` on a value, as a stable insertion sort. A stable sort by one key has only one possible result, so Timsort gives the same list. Update in place is not captured.
- layout.py is left out. It loads an image and renders the sidebar, and its page flags are computed but never used.
