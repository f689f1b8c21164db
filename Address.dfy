/** Disambiguation of the searched address before it is geocoded: unless the
    text already names the city, a fixed locality suffix is appended. */
module Address {

  /** The city name looked for in the lower-cased query. */
  const CityKey: string := "taubaté"

  /** Appended to a query that does not name the city. */
  const LocalitySuffix: string := ", Taubaté, SP, Brasil"

  /** Python's `str.lower` on one character, for the ASCII letters and the
      upper-case letters of the Latin-1 block (À to Þ, except ×). */
  function LowerChar(c: char): (l: char)
    ensures 'A' <= c <= 'Z' ==> l as int == c as int + 32
    ensures 'À' <= c <= 'Þ' && c != '×' ==> l as int == c as int + 32
    ensures c == '×' ==> l == c
    ensures !('A' <= c <= 'Z') && !('À' <= c <= 'Þ') ==> l == c
  {
    if 'A' <= c <= 'Z' || ('À' <= c <= 'Þ' && c != '×') then (c as int + 32) as char else c
  }

  function Lower(s: string): string {
    seq(|s|, i requires 0 <= i < |s| => LowerChar(s[i]))
  }

  /** `sub in s` on strings: `sub` occurs in `s` as a contiguous piece. */
  predicate Contains(s: string, sub: string)
    decreases |s|
  {
    sub <= s || (|s| > 0 && Contains(s[1..], sub))
  }

  /** The search string handed to the geocoder. */
  function Disambiguate(query: string): string {
    if !Contains(Lower(query), CityKey) then query + LocalitySuffix else query
  }

  lemma LowerConcat(a: string, b: string)
    ensures Lower(a + b) == Lower(a) + Lower(b)
  {
    assert forall i :: 0 <= i < |a + b| ==> Lower(a + b)[i] == (Lower(a) + Lower(b))[i];
  }

  /** A piece found in the tail of a string is found in the whole string. */
  lemma {:induction false} ContainsInSuffix(a: string, b: string, sub: string)
    requires Contains(b, sub)
    ensures Contains(a + b, sub)
    decreases |a|
  {
    if a != [] {
      ContainsInSuffix(a[1..], b, sub);
      assert (a + b)[1..] == a[1..] + b;
    } else {
      assert a + b == b;
    }
  }

  /** The suffix itself names the city once lower-cased. */
  lemma SuffixNamesCity()
    ensures Contains(Lower(LocalitySuffix), CityKey)
  {
    var l := Lower(LocalitySuffix);
    assert l == ", taubaté, sp, brasil";
    assert CityKey <= l[2..];
    assert l[1..][1..] == l[2..];
  }

  /** After disambiguation the lower-cased search string always names the city. */
  lemma DisambiguatedNamesCity(query: string)
    ensures Contains(Lower(Disambiguate(query)), CityKey)
  {
    if !Contains(Lower(query), CityKey) {
      LowerConcat(query, LocalitySuffix);
      SuffixNamesCity();
      ContainsInSuffix(Lower(query), Lower(LocalitySuffix), CityKey);
    }
  }

  /** A query passes through unchanged exactly when it already names the city;
      otherwise it gets exactly the suffix appended. */
  lemma DisambiguateUnchangedIff(query: string)
    ensures Disambiguate(query) == query <==> Contains(Lower(query), CityKey)
    ensures !Contains(Lower(query), CityKey) ==> Disambiguate(query) == query + LocalitySuffix
  {
    if !Contains(Lower(query), CityKey) {
      assert |Disambiguate(query)| == |query| + |LocalitySuffix| > |query|;
    }
  }

  /** Disambiguating twice gives the same search string as doing it once. */
  lemma DisambiguateIdempotent(query: string)
    ensures Disambiguate(Disambiguate(query)) == Disambiguate(query)
  {
    DisambiguatedNamesCity(query);
  }
}
