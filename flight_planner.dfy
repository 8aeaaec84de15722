/** The route-planning state of the `FlightPlanner` object: its two
    catalogues and the drawn route, and the methods that fill, search and
    use them. */
module FlightPlan {
  import opened Wrappers
  import opened Seqs
  import opened JsStrings
  import opened OrderedMaps
  import opened Geodesy
  import opened Catalogue
  import opened AirportSearch
  import opened Corridor

  class FlightPlanner {
    /** `this.airports`: ICAO code to airport, in insertion order. */
    var airports: Entries<Airport>
    /** `this.navaids`: ident to navaid, in insertion order. */
    var navaids: Entries<Navaid>
    /** The coordinates of `this.routeLine`, once a route is drawn. */
    var routeLine: Option<seq<Coord>>

    /** Both catalogues are keyed by their records' identifiers and hold only kept, cleaned records. */
    ghost predicate Valid()
      reads this
    {
      NavaidStore(navaids) && AirportStore(airports)
    }

    constructor ()
      ensures Valid()
      ensures airports == [] && navaids == [] && routeLine == None
    {
      airports, navaids, routeLine := [], [], None;
    }

    /** The `forEach` callback of `loadNavaids` for one row: `set` the navaid it yields, if any. */
    method LoadNavaidRow(row: string, rt: Runtime)
      modifies this`navaids
      ensures navaids == AddRow(old(navaids), row, NavaidParser(rt), NavaidKey)
    {
      var navaid := ParseNavaidRow(row, rt);
      assert NavaidParser(rt)(row) == navaid;
      if navaid.Some? {
        navaids := Put(navaids, navaid.value.ident, navaid.value);
      }
    }

    /** `loadNavaids` once the file text has arrived. */
    method LoadNavaids(csvText: string, rt: Runtime)
      requires Valid()
      modifies this`navaids
      ensures Valid()
      ensures navaids == Ingest(old(navaids), DataRows(csvText), NavaidParser(rt), NavaidKey)
    {
      var rows := DataRows(csvText);
      var i := 0;
      while i < |rows|
        invariant 0 <= i <= |rows|
        invariant Valid()
        invariant navaids == Ingest(old(navaids), rows[..i], NavaidParser(rt), NavaidKey)
      {
        IngestStep(old(navaids), rows, i, NavaidParser(rt), NavaidKey);
        NavaidRowKeepsStore(navaids, rows[i], rt);
        LoadNavaidRow(rows[i], rt);
        i := i + 1;
      }
      assert rows[..|rows|] == rows;
    }

    /** The `forEach` callback of `loadAirports` for one row: `set` the airport it yields, if any. */
    method LoadAirportRow(row: string, rt: Runtime)
      modifies this`airports
      ensures airports == AddRow(old(airports), row, AirportParser(rt), AirportKey)
    {
      var airport := ParseAirportRow(row, rt);
      assert AirportParser(rt)(row) == airport;
      if airport.Some? {
        airports := Put(airports, airport.value.icao, airport.value);
      }
    }

    /** `loadAirports` once the file text has arrived. */
    method LoadAirports(csvText: string, rt: Runtime)
      requires Valid()
      modifies this`airports
      ensures Valid()
      ensures airports == Ingest(old(airports), DataRows(csvText), AirportParser(rt), AirportKey)
    {
      var rows := DataRows(csvText);
      var i := 0;
      while i < |rows|
        invariant 0 <= i <= |rows|
        invariant Valid()
        invariant airports == Ingest(old(airports), rows[..i], AirportParser(rt), AirportKey)
      {
        IngestStep(old(airports), rows, i, AirportParser(rt), AirportKey);
        AirportRowKeepsStore(airports, rows[i], rt);
        LoadAirportRow(rows[i], rt);
        i := i + 1;
      }
      assert rows[..|rows|] == rows;
    }

    /** `searchAirports(query)`: the first five catalogue airports, in
        insertion order, whose ICAO code, IATA code, name or city contains
        the upper-cased query; a TypeError when the scan reaches an airport
        without a name that its codes do not match before five are found. */
    method SearchAirports(query: string) returns (r: Result<seq<Airport>, SearchError>)
      ensures var all, q := Values(airports), Upper(query);
        r == if ThrowsEarly(all, q) then Err(TypeError) else Ok(FirstN(Matching(all, q), MaxSuggestions))
    {
      var q := Upper(query);
      var all := Values(airports);
      var matches: seq<Airport> := [];
      var i := 0;
      while i < |all|
        invariant 0 <= i <= |all|
        invariant !ThrowsEarly(all[..i], q)
        invariant matches == FirstN(Matching(all[..i], q), MaxSuggestions)
      {
        var a := all[i];
        assert all[..i + 1] == all[..i] + [a];
        ThrowsEarlyStep(all[..i], a, q);
        FilterAppend(all[..i], [a], QueryMatcher(q));
        if |matches| < MaxSuggestions {
          var verdict := Test(a, q);
          if verdict == Throws {
            ThrowsEarlyStep(all[..i], a, q);
            ThrowsEarlyExtends(all, i + 1, q);
            return Err(TypeError);
          } else if verdict == Match {
            matches := matches + [a];
          }
        }
        i := i + 1;
      }
      assert all[..|all|] == all;
      r := Ok(matches);
    }

    /** `getNearbyAirports()`: at most five large airports, the first ones in catalogue order. */
    function NearbyAirports(): (r: seq<Airport>)
      reads this
      ensures |r| == if |LargeAirports(Values(airports))| <= MaxSuggestions then |LargeAirports(Values(airports))| else MaxSuggestions
      ensures r == LargeAirports(Values(airports))[..|r|]
      ensures forall a :: a in r ==> a in Values(airports) && a.airportType == "large_airport"
    {
      FirstN(LargeAirports(Values(airports)), MaxSuggestions)
    }

    /** `findRouteWaypoints(origin, destination)`: the VOR, VOR-DME and
        VORDME navaids within the corridor and more than 50 nm from either
        end, sorted stably by distance from the origin. */
    method FindRouteWaypoints(g: Earth, origin: Coord, destination: Coord) returns (r: seq<Waypoint>)
      ensures Sorted(r)
      ensures multiset(r) == multiset(Candidates(g, origin, destination, Values(navaids)))
      ensures SameOrderPerDistance(Candidates(g, origin, destination, Values(navaids)), r)
      ensures forall w :: w in r <==>
        && w.navaid in Values(navaids)
        && Qualifies(g, origin, destination, w.navaid)
        && Finite(w.distanceFromStart) == g.distance(origin, NavaidPosition(w.navaid))
      ensures r == RouteWaypoints(g, origin, destination, Values(navaids))
    {
      var all := Values(navaids);
      var waypoints: seq<Waypoint> := [];
      var i := 0;
      while i < |all|
        invariant 0 <= i <= |all|
        invariant waypoints == Candidates(g, origin, destination, all[..i])
      {
        assert all[..i + 1][..i] == all[..i];
        var navaid := all[i];
        if navaid.navType in RouteTypes && IsPointInCorridor(g, NavaidPosition(navaid), origin, destination, CorridorWidth) {
          var distanceFromStart := g.distance(origin, NavaidPosition(navaid));
          var totalDistance := g.distance(origin, destination);
          if WithinMargins(distanceFromStart, totalDistance) {
            waypoints := waypoints + [Waypoint(navaid, distanceFromStart.value)];
          }
        }
        i := i + 1;
      }
      assert all[..|all|] == all;
      r := SortByDistance(waypoints);
      SortIsStable(waypoints);
      forall w ensures w in r <==> w in waypoints {
        assert w in r <==> w in multiset(r);
      }
      forall w ensures w in waypoints <==>
        && w.navaid in all
        && Qualifies(g, origin, destination, w.navaid)
        && Finite(w.distanceFromStart) == g.distance(origin, NavaidPosition(w.navaid))
      {
        CandidatesMembers(g, origin, destination, all, w);
      }
    }

    /** The route part of `drawRoute`: the polyline through the origin, the waypoints and the destination. */
    method DrawRoute(g: Earth, origin: Coord, destination: Coord)
      modifies this`routeLine
      ensures routeLine == Some(RouteCoords(origin, RouteWaypoints(g, origin, destination, Values(navaids)), destination))
    {
      var routeWaypoints := FindRouteWaypoints(g, origin, destination);
      routeLine := Some(RouteCoords(origin, routeWaypoints, destination));
    }
  }

  /** One more row through the `forEach`. */
  lemma IngestStep<R>(m: Entries<R>, rows: seq<string>, i: nat, parse: string -> Option<R>, key: R -> string)
    requires i < |rows|
    ensures Ingest(m, rows[..i + 1], parse, key) == AddRow(Ingest(m, rows[..i], parse, key), rows[i], parse, key)
  {
    assert rows[..i + 1][..i] == rows[..i];
  }

  /** A throw before five matches in a prefix is a throw before five matches in the whole. */
  lemma ThrowsEarlyExtends(all: seq<Airport>, n: nat, q: string)
    requires n <= |all| && ThrowsEarly(all[..n], q)
    ensures ThrowsEarly(all, q)
  {
    var i :| 0 <= i < n && Test(all[..n][i], q) == Throws && |Matching(all[..n][..i], q)| < MaxSuggestions;
    assert all[..n][..i] == all[..i];
  }
}
