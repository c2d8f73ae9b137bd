/** GeoJSON values as the codec and the generators build them: nested
    coordinate arrays, geometry objects tagged with their type, and the
    position, linear-ring and polygon checks of geojson-validation that the
    parser applies (after sections 3.1.1 and 3.1.6 of RFC 7946). */
module GeoJson {
  import opened Common
  import opened JsNumbers

  /** The `type` member of a geometry object. */
  datatype Kind = Point | LineString | Polygon | MultiPoint | MultiLineString | MultiPolygon

  /** A JavaScript coordinate array: a number, or an array of coordinate arrays. */
  datatype Coordinates = Num(n: Number) | List(items: seq<Coordinates>)

  /** `{ type, coordinates }`. */
  datatype Geometry = Geometry(kind: Kind, coordinates: Coordinates)

  /** What the codec hands back or takes: `undefined`, a bare coordinate array,
      or a geometry object. */
  datatype Value = Undefined | Coords(c: Coordinates) | Object(g: Geometry)

  /** A position, as an array of numbers. */
  type Position = seq<Number>

  /** `isPosition` of geojson-validation (after section 3.1.1 of RFC 7946): an
      array of two or more elements, each of JavaScript type number. NaN and the
      infinities are of that type, so every `Number` qualifies; finiteness is
      left to the validators of `lib/geojson.js`. */
  predicate IsPosition(p: Position) {
    |p| >= 2
  }

  /** A linear ring as geojson-validation checks it (section 3.1.6 of RFC
      7946): four or more positions, the first equivalent to the last. The
      library compares the two positions' texts, and distinct canonical numbers
      (NaN among them) are written differently, so that is equality here. */
  predicate IsLinearRing(ring: seq<Position>) {
    && |ring| >= 4
    && (forall i :: 0 <= i < |ring| ==> IsPosition(ring[i]))
    && ring[0] == ring[|ring| - 1]
  }

  /** The coordinates of a polygon: an array of linear rings. */
  predicate IsPolygonCoor(rings: seq<seq<Position>>) {
    forall i :: 0 <= i < |rings| ==> IsLinearRing(rings[i])
  }

  /** A position as a coordinate array. */
  function PositionValue(p: Position): (c: Coordinates)
    ensures c.List? && |c.items| == |p|
    ensures forall i :: 0 <= i < |p| ==> c.items[i] == Num(p[i])
  {
    List(seq(|p|, i requires 0 <= i < |p| => Num(p[i])))
  }

  /** A list of positions as a coordinate array. */
  function PositionsValue(ps: seq<Position>): (c: Coordinates)
    ensures c.List? && |c.items| == |ps|
    ensures forall i :: 0 <= i < |ps| ==> c.items[i] == PositionValue(ps[i])
  {
    List(seq(|ps|, i requires 0 <= i < |ps| => PositionValue(ps[i])))
  }

  /** The numbers of a coordinate array, left to right, at any depth. */
  function Leaves(c: Coordinates): seq<Number>
    decreases c, 1
  {
    match c
    case Num(x) => [x]
    case List(items) => LeavesOf(items)
  }

  function LeavesOf(items: seq<Coordinates>): seq<Number>
    decreases items, 0
  {
    if items == [] then [] else Leaves(items[0]) + LeavesOf(items[1..])
  }

  /** The numbers of a position are its leaves. */
  lemma {:induction false} PositionLeaves(p: Position)
    ensures Leaves(PositionValue(p)) == p
    decreases |p|
  {
    var items := PositionValue(p).items;
    if p != [] {
      assert items[1..] == PositionValue(p[1..]).items;
      PositionLeaves(p[1..]);
      assert Leaves(PositionValue(p)) == Leaves(items[0]) + LeavesOf(items[1..]);
      assert p == [p[0]] + p[1..];
    }
  }

  /** The numbers of a list of positions are its leaves. */
  lemma {:induction false} PositionsLeaves(ps: seq<Position>)
    ensures Leaves(PositionsValue(ps)) == Concat(ps)
    decreases |ps|
  {
    if ps != [] {
      var items := PositionsValue(ps).items;
      assert items[1..] == PositionsValue(ps[1..]).items;
      PositionLeaves(ps[0]);
      PositionsLeaves(ps[1..]);
    }
  }
}
