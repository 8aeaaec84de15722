/** Choosing the navaids along a route (`findRouteWaypoints`,
    `isPointInCorridor`) and the polyline of the route (`drawRoute`). */
module Corridor {
  import opened Wrappers
  import opened Seqs
  import opened Geodesy
  import opened Catalogue

  /** Half-width of the corridor. It is commented as degrees but compared
      with a cross-track distance in nautical miles. */
  const CorridorWidth: real := 1.0

  /** Navaids closer than this many nautical miles to either end are left out. */
  const MinDistance: real := 50.0

  /** The navaid types that can become waypoints. */
  const RouteTypes: set<string> := {"VOR", "VOR-DME", "VORDME"}

  /** A navaid chosen for the route, with its distance from the origin (`{...navaid, distanceFromStart}`). */
  datatype Waypoint = Waypoint(navaid: Navaid, distanceFromStart: real)

  /** `Math.abs(crossTrack) <= width`; false when the cross-track distance is NaN. */
  predicate IsPointInCorridor(g: Earth, p: Coord, start: Coord, end: Coord, width: real) {
    match g.crossTrack(p, start, end)
    case Finite(x) => -width <= x <= width
    case NaN => false
  }

  /** `d > minDistance && d < total - minDistance`; false when either is NaN. */
  predicate WithinMargins(d: Num, total: Num) {
    d.Finite? && total.Finite? && MinDistance < d.value < total.value - MinDistance
  }

  /** The three tests a navaid passes to become a waypoint. */
  predicate Qualifies(g: Earth, origin: Coord, destination: Coord, n: Navaid) {
    && n.navType in RouteTypes
    && IsPointInCorridor(g, NavaidPosition(n), origin, destination, CorridorWidth)
    && WithinMargins(g.distance(origin, NavaidPosition(n)), g.distance(origin, destination))
  }

  /** What one navaid contributes to the `waypoints` array: itself with its distance from the origin, or nothing. */
  function Consider(g: Earth, origin: Coord, destination: Coord, n: Navaid): (r: Option<Waypoint>)
    ensures r.Some? <==> Qualifies(g, origin, destination, n)
    ensures r.Some? ==> r.value.navaid == n && Finite(r.value.distanceFromStart) == g.distance(origin, NavaidPosition(n))
  {
    if Qualifies(g, origin, destination, n) then Some(Waypoint(n, g.distance(origin, NavaidPosition(n)).value))
    else None
  }

  /** The `waypoints` array before sorting: the qualifying navaids of `ns`, in catalogue order. */
  function Candidates(g: Earth, origin: Coord, destination: Coord, ns: seq<Navaid>): seq<Waypoint>
    decreases |ns|
  {
    if ns == [] then []
    else
      var w := Consider(g, origin, destination, ns[|ns| - 1]);
      Candidates(g, origin, destination, ns[..|ns| - 1]) + (if w.Some? then [w.value] else [])
  }

  /** A waypoint is a candidate exactly when its navaid is in the catalogue,
      passes the three tests, and carries its distance from the origin. */
  lemma {:induction false} CandidatesMembers(g: Earth, origin: Coord, destination: Coord, ns: seq<Navaid>, w: Waypoint)
    ensures w in Candidates(g, origin, destination, ns) <==>
      && w.navaid in ns
      && Qualifies(g, origin, destination, w.navaid)
      && Finite(w.distanceFromStart) == g.distance(origin, NavaidPosition(w.navaid))
    decreases |ns|
  {
    if ns != [] {
      var init := ns[..|ns| - 1];
      CandidatesMembers(g, origin, destination, init, w);
      assert ns == init + [ns[|ns| - 1]];
    }
  }

  /** A route whose length is NaN or at most twice the margin has no candidates. */
  lemma {:induction false} ShortRouteNoCandidates(g: Earth, origin: Coord, destination: Coord, ns: seq<Navaid>)
    requires var total := g.distance(origin, destination); total.NaN? || total.value <= 2.0 * MinDistance
    ensures Candidates(g, origin, destination, ns) == []
    decreases |ns|
  {
    if ns != [] {
      ShortRouteNoCandidates(g, origin, destination, ns[..|ns| - 1]);
      assert !WithinMargins(g.distance(origin, NavaidPosition(ns[|ns| - 1])), g.distance(origin, destination));
    }
  }

  /** Non-decreasing by distance from the origin. */
  predicate Sorted(ws: seq<Waypoint>) {
    forall i, j :: 0 <= i < j < |ws| ==> ws[i].distanceFromStart <= ws[j].distanceFromStart
  }

  function AtDistance(k: real): Waypoint -> bool {
    (w: Waypoint) => w.distanceFromStart == k
  }

  /** `r` lists the waypoints at each distance in the same order as `s` does:
      what a stable sort keeps of its input. */
  ghost predicate SameOrderPerDistance(s: seq<Waypoint>, r: seq<Waypoint>) {
    forall k :: Filter(r, AtDistance(k)) == Filter(s, AtDistance(k))
  }

  /** Places `x` into sorted `t` after every waypoint not farther than it. */
  function Insert(t: seq<Waypoint>, x: Waypoint): (r: seq<Waypoint>)
    ensures multiset(r) == multiset(t) + multiset{x}
    decreases |t|
  {
    if t == [] then [x]
    else if x.distanceFromStart < t[0].distanceFromStart then [x] + t
    else
      assert t == [t[0]] + t[1..];
      [t[0]] + Insert(t[1..], x)
  }

  /** Inserting into a sorted sequence keeps it sorted. */
  lemma {:induction false} InsertSorted(t: seq<Waypoint>, x: Waypoint)
    requires Sorted(t)
    ensures Sorted(Insert(t, x))
    decreases |t|
  {
    if t == [] {
    } else if x.distanceFromStart < t[0].distanceFromStart {
      SortedCons(x, t);
    } else {
      var rest := Insert(t[1..], x);
      InsertSorted(t[1..], x);
      forall y | y in rest ensures t[0].distanceFromStart <= y.distanceFromStart {
        assert y in multiset(rest);
        assert y == x || y in t[1..];
      }
      SortedCons(t[0], rest);
    }
  }

  /** A waypoint no farther than any of a sorted sequence can go in front of it. */
  lemma SortedCons(h: Waypoint, rest: seq<Waypoint>)
    requires Sorted(rest)
    requires forall y :: y in rest ==> h.distanceFromStart <= y.distanceFromStart
    ensures Sorted([h] + rest)
  {
    var r := [h] + rest;
    forall i, j | 0 <= i < j < |r|
      ensures r[i].distanceFromStart <= r[j].distanceFromStart
    {
      assert r[j] == rest[j - 1];
      if i > 0 { assert r[i] == rest[i - 1]; }
    }
  }

  /** `waypoints.sort((a, b) => a.distanceFromStart - b.distanceFromStart)`:
      the built-in sort, which is stable, written as an insertion sort. */
  function SortByDistance(s: seq<Waypoint>): (r: seq<Waypoint>)
    ensures Sorted(r)
    ensures multiset(r) == multiset(s)
    decreases |s|
  {
    if s == [] then []
    else
      var init := s[..|s| - 1];
      assert s == init + [s[|s| - 1]];
      InsertSorted(SortByDistance(init), s[|s| - 1]);
      Insert(SortByDistance(init), s[|s| - 1])
  }

  lemma FilterSingle(x: Waypoint, k: real)
    ensures Filter([x], AtDistance(k)) == if x.distanceFromStart == k then [x] else []
  {
    assert [x][..0] == [];
  }

  /** Inserting adds `x` behind every waypoint at its distance. */
  lemma {:induction false} InsertKeepsOrder(t: seq<Waypoint>, x: Waypoint, k: real)
    requires Sorted(t)
    ensures Filter(Insert(t, x), AtDistance(k)) == Filter(t, AtDistance(k)) + Filter([x], AtDistance(k))
    decreases |t|
  {
    if t == [] {
      assert Filter(t, AtDistance(k)) == [];
    } else if x.distanceFromStart < t[0].distanceFromStart {
      InsertFrontKeepsOrder(t, x, k);
    } else {
      var t1 := t[1..];
      assert Sorted(t1);
      InsertKeepsOrder(t1, x, k);
      InsertBehindKeepsOrder(t, x, k);
    }
  }

  lemma InsertFrontKeepsOrder(t: seq<Waypoint>, x: Waypoint, k: real)
    requires Sorted(t) && t != [] && x.distanceFromStart < t[0].distanceFromStart
    ensures Filter(Insert(t, x), AtDistance(k)) == Filter(t, AtDistance(k)) + Filter([x], AtDistance(k))
  {
    var p := AtDistance(k);
    assert Insert(t, x) == [x] + t;
    FilterAppend([x], t, p);
    FilterSingle(x, k);
    if x.distanceFromStart == k {
      forall y | y in t ensures !p(y) {
        var i :| 0 <= i < |t| && t[i] == y;
        assert t[0].distanceFromStart <= y.distanceFromStart;
      }
      NoneKept(t, p);
    }
  }

  lemma InsertBehindKeepsOrder(t: seq<Waypoint>, x: Waypoint, k: real)
    requires t != [] && !(x.distanceFromStart < t[0].distanceFromStart)
    requires Filter(Insert(t[1..], x), AtDistance(k)) == Filter(t[1..], AtDistance(k)) + Filter([x], AtDistance(k))
    ensures Filter(Insert(t, x), AtDistance(k)) == Filter(t, AtDistance(k)) + Filter([x], AtDistance(k))
  {
    var p := AtDistance(k);
    var t1 := t[1..];
    var h := if p(t[0]) then [t[0]] else [];
    assert Insert(t, x) == [t[0]] + Insert(t1, x);
    FilterCons(t[0], Insert(t1, x), p);
    assert Filter(t, p) == h + Filter(t1, p);
    AppendAssoc(h, Filter(t1, p), Filter([x], p));
  }

  lemma NoneKept(t: seq<Waypoint>, p: Waypoint -> bool)
    requires forall y :: y in t ==> !p(y)
    ensures Filter(t, p) == []
  {
    if Filter(t, p) != [] {
      var y := Filter(t, p)[0];
      FilterMembers(t, p, y);
    }
  }

  /** The sort is stable: at every distance the waypoints keep their input order. */
  lemma {:induction false} SortIsStable(s: seq<Waypoint>)
    ensures SameOrderPerDistance(s, SortByDistance(s))
    decreases |s|
  {
    if s != [] {
      var init := s[..|s| - 1];
      var x := s[|s| - 1];
      SortIsStable(init);
      forall k
        ensures Filter(SortByDistance(s), AtDistance(k)) == Filter(s, AtDistance(k))
      {
        InsertKeepsOrder(SortByDistance(init), x, k);
        assert s == init + [x];
        FilterAppend(init, [x], AtDistance(k));
      }
    }
  }

  /** Sorted by distance and stable determine the result: any stable sort
      by distance gives exactly `SortByDistance`. */
  lemma {:induction false} StableSortUnique(r1: seq<Waypoint>, r2: seq<Waypoint>)
    requires Sorted(r1) && Sorted(r2)
    requires SameOrderPerDistance(r1, r2)
    ensures r1 == r2
    decreases |r1|
  {
    if r1 == [] || r2 == [] {
      if r1 != [] { Witness(r1, r2, r1[0]); }
      if r2 != [] { Witness(r2, r1, r2[0]); }
    } else {
      SameHead(r1, r2);
      forall k
        ensures Filter(r2[1..], AtDistance(k)) == Filter(r1[1..], AtDistance(k))
      {
        SameTail(r1, r2, k);
      }
      StableSortUnique(r1[1..], r2[1..]);
      assert r1 == [r1[0]] + r1[1..] && r2 == [r2[0]] + r2[1..];
    }
  }

  /** Two sorted, per-distance-equal, non-empty sequences start with the same waypoint. */
  lemma SameHead(r1: seq<Waypoint>, r2: seq<Waypoint>)
    requires Sorted(r1) && Sorted(r2) && r1 != [] && r2 != []
    requires SameOrderPerDistance(r1, r2)
    ensures r1[0] == r2[0]
  {
    var a, b := r1[0], r2[0];
    Witness(r1, r2, a);
    var ya :| ya in r2 && ya.distanceFromStart == a.distanceFromStart;
    Witness(r2, r1, b);
    var yb :| yb in r1 && yb.distanceFromStart == b.distanceFromStart;
    var k := a.distanceFromStart;
    assert b.distanceFromStart == k;
    var f1, f2 := Filter(r1, AtDistance(k)), Filter(r2, AtDistance(k));
    assert f1 == [a] + Filter(r1[1..], AtDistance(k));
    assert f2 == [b] + Filter(r2[1..], AtDistance(k));
    assert f1 == f2;
    assert f1[0] == a && f2[0] == b;
  }

  /** Dropping that common head keeps the tails per-distance equal. */
  lemma SameTail(r1: seq<Waypoint>, r2: seq<Waypoint>, k: real)
    requires r1 != [] && r2 != [] && r1[0] == r2[0]
    requires Filter(r1, AtDistance(k)) == Filter(r2, AtDistance(k))
    ensures Filter(r2[1..], AtDistance(k)) == Filter(r1[1..], AtDistance(k))
  {
    var x := if AtDistance(k)(r1[0]) then [r1[0]] else [];
    assert Filter(r1, AtDistance(k)) == x + Filter(r1[1..], AtDistance(k));
    assert Filter(r2, AtDistance(k)) == x + Filter(r2[1..], AtDistance(k));
    assert Filter(r1[1..], AtDistance(k)) == (x + Filter(r1[1..], AtDistance(k)))[|x|..];
    assert Filter(r2[1..], AtDistance(k)) == (x + Filter(r2[1..], AtDistance(k)))[|x|..];
  }

  /** Whatever is at some distance in one arrangement is at that distance in the other. */
  lemma Witness(r1: seq<Waypoint>, r2: seq<Waypoint>, x: Waypoint)
    requires x in r1
    requires Filter(r2, AtDistance(x.distanceFromStart)) == Filter(r1, AtDistance(x.distanceFromStart))
    ensures exists y :: y in r2 && y.distanceFromStart == x.distanceFromStart
  {
    var p := AtDistance(x.distanceFromStart);
    FilterMembers(r1, p, x);
    FilterMembers(r2, p, x);
  }

  /** Hence the result of a stable sort of `s` is `SortByDistance(s)`, whichever algorithm it uses. */
  lemma StableSortIsSortByDistance(s: seq<Waypoint>, r: seq<Waypoint>)
    requires Sorted(r) && SameOrderPerDistance(s, r)
    ensures r == SortByDistance(s)
  {
    SortIsStable(s);
    StableSortUnique(r, SortByDistance(s));
  }

  /** The waypoints of the route from `origin` to `destination` over the catalogue `ns`. */
  function RouteWaypoints(g: Earth, origin: Coord, destination: Coord, ns: seq<Navaid>): seq<Waypoint> {
    SortByDistance(Candidates(g, origin, destination, ns))
  }

  /** The polyline of `drawRoute`: origin, the waypoints in order, destination. */
  function RouteCoords(origin: Coord, ws: seq<Waypoint>, destination: Coord): (r: seq<Coord>)
    ensures |r| == |ws| + 2 && r[0] == origin && r[|r| - 1] == destination
    ensures forall i :: 0 <= i < |ws| ==> r[i + 1] == NavaidPosition(ws[i].navaid)
  {
    [origin] + seq(|ws|, i requires 0 <= i < |ws| => NavaidPosition(ws[i].navaid)) + [destination]
  }

  /** A route of at most 100 nm (or of NaN length) is drawn as a direct line. */
  lemma ShortRouteIsDirect(g: Earth, origin: Coord, destination: Coord, ns: seq<Navaid>)
    requires var total := g.distance(origin, destination); total.NaN? || total.value <= 2.0 * MinDistance
    ensures RouteCoords(origin, RouteWaypoints(g, origin, destination, ns), destination) == [origin, destination]
  {
    ShortRouteNoCandidates(g, origin, destination, ns);
  }
}
