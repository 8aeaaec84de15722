/** The airport suggestions of the origin/destination inputs:
    `searchAirports` (first five matches of a query) and `getNearbyAirports`
    (first five large airports). */
module AirportSearch {
  import opened Wrappers
  import opened JsStrings
  import opened Seqs
  import opened Catalogue

  /** Both lists stop at five airports. */
  const MaxSuggestions: nat := 5

  /** What the match test does with one airport: it matches, it does not,
      or it throws, because `airport.name.toUpperCase()` is evaluated on an
      `undefined` name. */
  datatype Verdict = Match | NoMatch | Throws

  /** The exception that escapes `searchAirports`. */
  datatype SearchError = TypeError

  /** A present, non-empty text field (JavaScript truthiness of a string). */
  predicate Truthy(f: Option<string>) {
    f.Some? && f.value != ""
  }

  /** The match test on one airport for an upper-cased query: ICAO code,
      IATA code, upper-cased name or upper-cased city contains the query,
      tried in that order. */
  function Test(a: Airport, query: string): (v: Verdict)
    ensures v == Throws <==>
      a.name.None? && !Includes(a.icao, query) && !(Truthy(a.iata) && Includes(a.iata.value, query))
    ensures v == Match <==>
      || Includes(a.icao, query)
      || (Truthy(a.iata) && Includes(a.iata.value, query))
      || (a.name.Some? && Includes(Upper(a.name.value), query))
      || (a.name.Some? && Truthy(a.city) && Includes(Upper(a.city.value), query))
  {
    if Includes(a.icao, query) || (Truthy(a.iata) && Includes(a.iata.value, query)) then Match
    else if a.name.None? then Throws
    else if Includes(Upper(a.name.value), query) || (Truthy(a.city) && Includes(Upper(a.city.value), query)) then Match
    else NoMatch
  }

  function QueryMatcher(query: string): Airport -> bool {
    (a: Airport) => Test(a, query) == Match
  }

  /** The airports of `s` that match, in catalogue order. */
  function Matching(s: seq<Airport>, query: string): seq<Airport> {
    Filter(s, QueryMatcher(query))
  }

  /** Scanning `s` in order reaches an airport that throws while fewer than
      five matches have been collected. */
  ghost predicate ThrowsEarly(s: seq<Airport>, query: string) {
    exists i :: 0 <= i < |s| && Test(s[i], query) == Throws && |Matching(s[..i], query)| < MaxSuggestions
  }

  /** One more airport scanned: the search has thrown before, or throws on it. */
  lemma ThrowsEarlyStep(s: seq<Airport>, x: Airport, query: string)
    ensures ThrowsEarly(s + [x], query) <==>
      ThrowsEarly(s, query) || (Test(x, query) == Throws && |Matching(s, query)| < MaxSuggestions)
  {
    var t := s + [x];
    if ThrowsEarly(s, query) {
      var i :| 0 <= i < |s| && Test(s[i], query) == Throws && |Matching(s[..i], query)| < MaxSuggestions;
      assert t[i] == s[i] && t[..i] == s[..i];
    }
    if Test(x, query) == Throws && |Matching(s, query)| < MaxSuggestions {
      assert t[|s|] == x && t[..|s|] == s;
    }
    if ThrowsEarly(t, query) {
      var i :| 0 <= i < |t| && Test(t[i], query) == Throws && |Matching(t[..i], query)| < MaxSuggestions;
      if i < |s| {
        assert t[i] == s[i] && t[..i] == s[..i];
      } else {
        assert t[i] == x && t[..i] == s;
      }
    }
  }

  /** The search can only throw on an airport stored without a name. */
  lemma NamedCatalogueNeverThrows(s: seq<Airport>, query: string)
    requires forall i :: 0 <= i < |s| ==> s[i].name.Some?
    ensures !ThrowsEarly(s, query)
  {
  }

  /** Every suggestion matches the query and comes from the catalogue. */
  lemma MatchingMembers(s: seq<Airport>, query: string, a: Airport)
    ensures a in Matching(s, query) <==> a in s && Test(a, query) == Match
  {
    FilterMembers(s, QueryMatcher(query), a);
  }

  predicate IsLarge(a: Airport) {
    a.airportType == "large_airport"
  }

  /** The large airports of `s`, in catalogue order. */
  function LargeAirports(s: seq<Airport>): (r: seq<Airport>)
    ensures forall a :: a in r <==> a in s && IsLarge(a)
  {
    var r := Filter(s, IsLarge);
    forall a ensures a in r <==> a in s && IsLarge(a) { FilterMembers(s, IsLarge, a); }
    r
  }
}
