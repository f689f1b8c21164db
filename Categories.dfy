/** The GC type ("Tipo GC") as used by the page: the candidate filter of the
    search, the marker colour per type, and the list of filter options. */
module Categories {
  import opened Records

  /** The filter option that keeps every GC. */
  const AllCategories: string := "Todos"

  /** Rows whose type equals `sel`, in their original order. */
  function KeepCategory(ds: Dataset, sel: string): (kept: Dataset)
    ensures forall loc :: loc in kept <==> loc in ds && loc.category == sel
    ensures |kept| <= |ds|
    decreases |ds|
  {
    if ds == [] then []
    else (if ds[0].category == sel then [ds[0]] else []) + KeepCategory(ds[1..], sel)
  }

  /** The candidate rows of a search for GCs of type `sel`. */
  function FilterCategory(ds: Dataset, sel: string): (candidates: Dataset)
    ensures sel == AllCategories ==> candidates == ds
    ensures sel != AllCategories ==> forall loc :: loc in candidates <==> loc in ds && loc.category == sel
  {
    if sel == AllCategories then ds else KeepCategory(ds, sel)
  }

  /** The filter treats the rows one by one: filtering a concatenation is
      concatenating the filtered parts, so the candidates keep the table's order. */
  lemma {:induction false} KeepCategoryAppend(a: Dataset, b: Dataset, sel: string)
    ensures KeepCategory(a + b, sel) == KeepCategory(a, sel) + KeepCategory(b, sel)
    decreases |a|
  {
    if a == [] {
      assert a + b == b;
    } else {
      assert (a + b)[1..] == a[1..] + b;
      KeepCategoryAppend(a[1..], b, sel);
    }
  }

  lemma {:induction false} KeepCategoryInFileOrder(ds: Dataset, sel: string)
    requires InFileOrder(ds)
    ensures InFileOrder(KeepCategory(ds, sel))
    decreases |ds|
  {
    if ds != [] {
      KeepCategoryInFileOrder(ds[1..], sel);
      var rest := KeepCategory(ds[1..], sel);
      forall k | 0 <= k < |rest|
        ensures ds[0].index < rest[k].index
      {
        assert rest[k] in ds[1..];
      }
    }
  }

  /** The candidates of a table listed in file order are listed in file order. */
  lemma FilterInFileOrder(ds: Dataset, sel: string)
    requires InFileOrder(ds)
    ensures InFileOrder(FilterCategory(ds, sel))
  {
    if sel != AllCategories {
      KeepCategoryInFileOrder(ds, sel);
    }
  }

  /** There are no candidates exactly when the table has no GC of the chosen
      type, or, for "Todos", when the table is empty. */
  lemma FilterEmptyIff(ds: Dataset, sel: string)
    ensures sel == AllCategories ==> (FilterCategory(ds, sel) == [] <==> ds == [])
    ensures sel != AllCategories ==>
      (FilterCategory(ds, sel) == [] <==> forall loc :: loc in ds ==> loc.category != sel)
  {
    var candidates := FilterCategory(ds, sel);
    if sel != AllCategories && candidates != [] {
      assert candidates[0] in candidates;
    }
  }

  /** Marker colour per GC type. */
  const ColorMap: map<string, string> := map[
    "Casal" := "green",
    "Feminino" := "pink",
    "Masculino" := "blue",
    "Jovens" := "orange",
    "Adolescentes" := "purple",
    "Misto" := "red"
  ]

  /** Colour of the markers drawn for the whole table. */
  const TableMarkerFallback: string := "gray"

  /** Colour of the marker and circle drawn for the nearest GC. */
  const NearestMarkerFallback: string := "blue"

  /** `color_map.get(category, fallback)`. */
  function ColorFor(category: string, fallback: string): string {
    if category in ColorMap then ColorMap[category] else fallback
  }

  /** The six known types get their own colour; any other type gets the fallback. */
  lemma ColorForKnownAndUnknown(category: string, fallback: string)
    ensures category == "Casal" ==> ColorFor(category, fallback) == "green"
    ensures category == "Feminino" ==> ColorFor(category, fallback) == "pink"
    ensures category == "Masculino" ==> ColorFor(category, fallback) == "blue"
    ensures category == "Jovens" ==> ColorFor(category, fallback) == "orange"
    ensures category == "Adolescentes" ==> ColorFor(category, fallback) == "purple"
    ensures category == "Misto" ==> ColorFor(category, fallback) == "red"
    ensures category !in {"Casal", "Feminino", "Masculino", "Jovens", "Adolescentes", "Misto"} ==>
      ColorFor(category, fallback) == fallback
  {
  }

  /** The table markers and the nearest-GC marker differ in colour only for an
      unknown type, which is gray on the table map and blue on the result map. */
  lemma MarkerColorsDifferOnlyForUnknown(category: string)
    ensures ColorFor(category, TableMarkerFallback) != ColorFor(category, NearestMarkerFallback)
      <==> category !in ColorMap
    ensures category !in ColorMap ==>
      ColorFor(category, TableMarkerFallback) == "gray" && ColorFor(category, NearestMarkerFallback) == "blue"
  {
  }

  /** Python's `<` on strings: lexicographic by code point, a proper prefix first. */
  predicate StrLess(a: string, b: string)
    decreases |a|
  {
    if a == [] then b != []
    else b != [] && (a[0] < b[0] || (a[0] == b[0] && StrLess(a[1..], b[1..])))
  }

  lemma {:induction false} StrLessIrreflexive(a: string)
    ensures !StrLess(a, a)
    decreases |a|
  {
    if a != [] {
      StrLessIrreflexive(a[1..]);
    }
  }

  lemma {:induction false} StrLessTransitive(a: string, b: string, c: string)
    requires StrLess(a, b) && StrLess(b, c)
    ensures StrLess(a, c)
    decreases |a|
  {
    if a != [] && a[0] == b[0] && b[0] == c[0] {
      StrLessTransitive(a[1..], b[1..], c[1..]);
    }
  }

  lemma {:induction false} StrLessTotal(a: string, b: string)
    requires a != b
    ensures StrLess(a, b) || StrLess(b, a)
    decreases |a|
  {
    if a != [] && b != [] && a[0] == b[0] {
      assert a == [a[0]] + a[1..] && b == [b[0]] + b[1..];
      StrLessTotal(a[1..], b[1..]);
    }
  }

  /** Sorted in ascending order without repetitions. */
  predicate StrictlySorted(s: seq<string>) {
    forall i, j :: 0 <= i < j < |s| ==> StrLess(s[i], s[j])
  }

  lemma LessThanFirstIsLessThanAll(x: string, s: seq<string>)
    requires StrictlySorted(s) && s != [] && StrLess(x, s[0])
    ensures forall j :: 0 <= j < |s| ==> StrLess(x, s[j])
  {
    forall j | 0 < j < |s|
      ensures StrLess(x, s[j])
    {
      StrLessTransitive(x, s[0], s[j]);
    }
  }

  /** Adds `x` to a sorted list of distinct strings, unless it is already there. */
  function InsertSorted(x: string, s: seq<string>): (r: seq<string>)
    requires StrictlySorted(s)
    ensures StrictlySorted(r)
    ensures forall y :: y in r <==> y in s || y == x
    decreases |s|
  {
    if s == [] then [x]
    else if x == s[0] then s
    else if StrLess(x, s[0]) then
      LessThanFirstIsLessThanAll(x, s);
      [x] + s
    else
      StrLessTotal(x, s[0]);
      var rest := InsertSorted(x, s[1..]);
      assert forall y :: y in rest ==> StrLess(s[0], y);
      [s[0]] + rest
  }

  /** `sorted(set(cats))`: the distinct strings of `cats` in ascending order. */
  function SortedDistinct(cats: seq<string>): (r: seq<string>)
    ensures StrictlySorted(r)
    ensures forall c :: c in r <==> c in cats
    decreases |cats|
  {
    if cats == [] then []
    else
      var n := |cats| - 1;
      var r := InsertSorted(cats[n], SortedDistinct(cats[..n]));
      assert cats == cats[..n] + [cats[n]];
      r
  }

  /** Two strictly sorted lists with the same strings are equal: the option
      list does not depend on the order the types are met in. */
  lemma {:induction false} StrictlySortedUnique(s: seq<string>, t: seq<string>)
    requires StrictlySorted(s) && StrictlySorted(t)
    requires forall c :: c in s <==> c in t
    ensures s == t
    decreases |s|
  {
    assert t != [] ==> t[0] in s;
    if s != [] {
      assert s[0] in t;
      assert t != [];
      assert t[0] in s;
      if s[0] != t[0] {
        var k :| 0 <= k < |t| && t[k] == s[0];
        var m :| 0 <= m < |s| && s[m] == t[0];
        assert StrLess(t[0], s[0]);
        assert StrLess(s[0], t[0]);
        StrLessTransitive(s[0], t[0], s[0]);
        StrLessIrreflexive(s[0]);
      }
      forall c
        ensures c in s[1..] <==> c in t[1..]
      {
        if c in s[1..] {
          var i :| 1 <= i < |s| && s[i] == c;
          assert StrLess(s[0], c);
          StrLessIrreflexive(c);
          assert c in s && c in t;
          var j :| 0 <= j < |t| && t[j] == c;
          assert t[1..][j - 1] == c;
        }
        if c in t[1..] {
          var i :| 1 <= i < |t| && t[i] == c;
          assert StrLess(t[0], c);
          StrLessIrreflexive(c);
          assert c in t && c in s;
          var j :| 0 <= j < |s| && s[j] == c;
          assert s[1..][j - 1] == c;
        }
      }
      StrictlySortedUnique(s[1..], t[1..]);
      assert s == [s[0]] + s[1..] && t == [t[0]] + t[1..];
    }
  }

  /** The "Tipo GC" column of the table. */
  function CategoryColumn(ds: Dataset): (col: seq<string>)
    ensures forall c :: c in col <==> exists loc :: loc in ds && loc.category == c
  {
    var col := seq(|ds|, i requires 0 <= i < |ds| => ds[i].category);
    assert forall loc :: loc in ds ==> loc.category in col by {
      forall loc | loc in ds ensures loc.category in col {
        var i :| 0 <= i < |ds| && ds[i] == loc;
        assert col[i] == loc.category;
      }
    }
    col
  }

  /** The choices of the type filter: "Todos", then each type of the table once, in sorted order. */
  function FilterOptions(ds: Dataset): (options: seq<string>)
    ensures |options| >= 1 && options[0] == AllCategories
    ensures StrictlySorted(options[1..])
    ensures forall c :: c in options[1..] <==> exists loc :: loc in ds && loc.category == c
  {
    var types := SortedDistinct(CategoryColumn(ds));
    assert ([AllCategories] + types)[1..] == types;
    [AllCategories] + types
  }

  /** The options after "Todos" are THE sorted list of the table's distinct types. */
  lemma FilterOptionsDetermined(ds: Dataset, sorted: seq<string>)
    requires StrictlySorted(sorted)
    requires forall c :: c in sorted <==> exists loc :: loc in ds && loc.category == c
    ensures FilterOptions(ds) == [AllCategories] + sorted
  {
    var options := FilterOptions(ds);
    StrictlySortedUnique(options[1..], sorted);
    assert options == [options[0]] + options[1..];
  }
}
