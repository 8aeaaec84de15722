/** Numbers and positions as the planner sees them, and the spherical
    trigonometry it calls, kept opaque. */
module Geodesy {

  /** A JavaScript number as far as the planner needs one: a finite value,
      or NaN (what `parseFloat`/`parseInt` give for a field that is not a
      number, and what any arithmetic on NaN gives). Every comparison with
      NaN is false. */
  datatype Num = Finite(value: real) | NaN

  /** `x / d` for a non-zero literal divisor. */
  function DivBy(x: Num, d: real): (r: Num)
    requires d != 0.0
    ensures r.Finite? <==> x.Finite?
    ensures r.Finite? ==> r.value * d == x.value
  {
    match x
    case Finite(v) => Finite(v / d)
    case NaN => NaN
  }

  /** A latitude/longitude pair in decimal degrees. */
  datatype Coord = Coord(lat: Num, lon: Num)

  /** The great-circle functions of the planner, taken as given:
      `distance(a, b)` is the haversine distance in nautical miles
      (`calculateDistance`, Earth radius 3440.065 nm), and
      `crossTrack(p, start, end)` is the signed distance in nautical miles
      of `p` from the great circle through `start` and `end` (computed in
      `isPointInCorridor` from `calculateDistance` and `calculateBearing`). */
  datatype Earth = Earth(
    distance: (Coord, Coord) -> Num,
    crossTrack: (Coord, Coord, Coord) -> Num)
}
