/** `lib/geojson.js`: the `isGeometry` validator, which combines seven
    `geojson-validation` verdicts, and the `random*` generators, which draw
    geometries from turf inside a bounding box and shape the sample; the
    Multi* generators pair two independent samples into two-part geometries. */
module GeoJsonLib {
  import opened Common
  import opened JsNumbers
  import opened GeoJson
  import opened Sampling
  import opened CoordinateCodec

  // ---------------------------------------------------------------------------
  // isGeometry

  /** The seven `geojson-validation` checks `isGeometry` runs, as verdicts on a value. */
  datatype Validators<-V> = Validators(
    isGeometryObject: V -> bool,
    isPoint: V -> bool,
    isLineString: V -> bool,
    isPolygon: V -> bool,
    isMultiPoint: V -> bool,
    isMultiLineString: V -> bool,
    isMultiPolygon: V -> bool)

  /** The seven checks in the order of the keys `isGeometry` hands
      `async.parallel`: the geometry-object check, then the six kinds. */
  function Checks<V>(vs: Validators<V>): (cs: seq<V -> bool>)
    ensures |cs| == 7
  {
    [vs.isGeometryObject, vs.isPoint, vs.isLineString, vs.isPolygon,
     vs.isMultiPoint, vs.isMultiLineString, vs.isMultiPolygon]
  }

  /** What a task passes to `next`: whether its error argument is set, and
      its result. */
  datatype Report = Report(failed: bool, value: bool)

  /** What `async.parallel` hands its final callback: an error, or the tasks'
      results under their keys, here in key order. */
  datatype Outcome = Failed | Collected(results: seq<bool>)

  /** `async.parallel(tasks, callback)` once every task has reported: an error
      when any task passed one, else every task's result in its place. */
  function Parallel(reports: seq<Report>): (o: Outcome)
    ensures o.Failed? <==> exists i :: 0 <= i < |reports| && reports[i].failed
    ensures o.Collected? ==> |o.results| == |reports|
    ensures o.Collected? ==> forall i :: 0 <= i < |reports| ==> o.results[i] == reports[i].value
    decreases |reports|
  {
    if reports == [] then Collected([])
    else if reports[0].failed then Failed
    else
      match Parallel(reports[1..])
      case Failed => Failed
      case Collected(rs) => Collected([reports[0].value] + rs)
  }

  /** The seven tasks of `isGeometry`: each runs its check and calls
      `next(null, isValid)`. */
  function Tasks<V>(vs: Validators<V>, value: V): seq<Report> {
    seq(7, i requires 0 <= i < 7 => Report(false, Checks(vs)[i](value)))
  }

  /** No task of `isGeometry` passes an error, so the run is never `Failed`
      and each result is its own check's verdict. */
  lemma ChecksCollected<V>(vs: Validators<V>, value: V)
    ensures var o := Parallel(Tasks(vs, value));
      && o.Collected?
      && |o.results| == 7
      && forall i :: 0 <= i < 7 ==> o.results[i] == Checks(vs)[i](value)
  {
    var reports := Tasks(vs, value);
    assert forall i :: 0 <= i < |reports| ==> !reports[i].failed;
  }

  /** The final callback: false on an error, else valid exactly when the
      geometry-object check holds and one of the six kind checks does. */
  function Verdict(o: Outcome): (valid: bool)
    requires o.Collected? ==> |o.results| == 7
    ensures o.Failed? ==> !valid
    ensures o.Collected? ==> (valid <==> o.results[0] && exists i :: 1 <= i < 7 && o.results[i])
  {
    match o
    case Failed => false
    case Collected(r) =>
      r[0] && (r[1] || r[2] || r[3] || r[4] || r[5] || r[6])
  }

  /** `isGeometry(value, done)`: valid exactly when the geometry-object check
      holds and at least one of the six per-kind checks holds. */
  function IsGeometry<V>(vs: Validators<V>, value: V): (valid: bool)
    ensures valid <==>
      && vs.isGeometryObject(value)
      && (|| vs.isPoint(value)
          || vs.isLineString(value)
          || vs.isPolygon(value)
          || vs.isMultiPoint(value)
          || vs.isMultiLineString(value)
          || vs.isMultiPolygon(value))
  {
    ChecksCollected(vs, value);
    Verdict(Parallel(Tasks(vs, value)))
  }

  // ---------------------------------------------------------------------------
  // The checks as RFC 7946 states them (sections 3.1.2 to 3.1.7)

  /** A position (section 3.1.1): two or more finite numbers. */
  predicate IsPositionCoords(c: Coordinates) {
    c.List? && |c.items| >= 2 && forall i :: 0 <= i < |c.items| ==> c.items[i].Num? && c.items[i].n.Finite?
  }

  /** LineString coordinates (section 3.1.4): two or more positions. */
  predicate IsLineCoords(c: Coordinates) {
    c.List? && |c.items| >= 2 && forall i :: 0 <= i < |c.items| ==> IsPositionCoords(c.items[i])
  }

  /** A linear ring (section 3.1.6): four or more positions, closed. */
  predicate IsRingCoords(c: Coordinates) {
    && c.List?
    && |c.items| >= 4
    && (forall i :: 0 <= i < |c.items| ==> IsPositionCoords(c.items[i]))
    && c.items[0] == c.items[|c.items| - 1]
  }

  /** Polygon coordinates (section 3.1.6): an array of linear rings. */
  predicate IsPolygonCoords(c: Coordinates) {
    c.List? && forall i :: 0 <= i < |c.items| ==> IsRingCoords(c.items[i])
  }

  predicate IsMultiKind(k: Kind) {
    k.MultiPoint? || k.MultiLineString? || k.MultiPolygon?
  }

  /** The kind of each part of a Multi* geometry; a single kind is its own part. */
  function PartKind(k: Kind): (p: Kind)
    ensures !IsMultiKind(p)
    ensures !IsMultiKind(k) ==> p == k
  {
    match k
    case MultiPoint => Point
    case MultiLineString => LineString
    case MultiPolygon => Polygon
    case _ => k
  }

  /** The coordinates of a single-kind geometry. */
  predicate IsSingleCoords(k: Kind, c: Coordinates) {
    match k
    case Point => IsPositionCoords(c)
    case LineString => IsLineCoords(c)
    case Polygon => IsPolygonCoords(c)
    case _ => false
  }

  /** The coordinates of a geometry of kind k; those of a Multi* kind are an
      array of coordinates of its part kind (sections 3.1.3, 3.1.5, 3.1.7). */
  predicate IsKindCoords(k: Kind, c: Coordinates) {
    if IsMultiKind(k) then
      c.List? && forall i :: 0 <= i < |c.items| ==> IsSingleCoords(PartKind(k), c.items[i])
    else IsSingleCoords(k, c)
  }

  /** A per-kind check: the `type` member is that kind and the coordinates fit it. */
  predicate IsKind(k: Kind, g: Geometry) {
    g.kind == k && IsKindCoords(k, g.coordinates)
  }

  /** The seven checks on geometry values, as RFC 7946 defines them. */
  function RfcValidators(): Validators<Geometry> {
    Validators(
      (g: Geometry) => IsKindCoords(g.kind, g.coordinates),
      g => IsKind(Point, g),
      g => IsKind(LineString, g),
      g => IsKind(Polygon, g),
      g => IsKind(MultiPoint, g),
      g => IsKind(MultiLineString, g),
      g => IsKind(MultiPolygon, g))
  }

  /** With the RFC checks, `isGeometry` accepts a geometry exactly when its
      coordinates fit its own `type`. */
  lemma RfcIsGeometry(g: Geometry)
    ensures IsGeometry(RfcValidators(), g) <==> IsKindCoords(g.kind, g.coordinates)
  {
    var vs := RfcValidators();
    if IsKindCoords(g.kind, g.coordinates) {
      match g.kind
      case Point => assert vs.isPoint(g);
      case LineString => assert vs.isLineString(g);
      case Polygon => assert vs.isPolygon(g);
      case MultiPoint => assert vs.isMultiPoint(g);
      case MultiLineString => assert vs.isMultiLineString(g);
      case MultiPolygon => assert vs.isMultiPolygon(g);
    }
  }

  /** A position of finite numbers passes the RFC position check. */
  lemma PositionCoords(p: Position)
    requires IsPosition(p) && forall i :: 0 <= i < |p| ==> p[i].Finite?
    ensures IsPositionCoords(PositionValue(p))
  {
  }

  /** A closed ring of finite numbers passes the RFC ring check. */
  lemma RingCoords(ring: seq<Position>)
    requires IsLinearRing(ring) && AllFinite(ring)
    ensures IsRingCoords(PositionsValue(ring))
  {
    var c := PositionsValue(ring);
    forall i | 0 <= i < |c.items|
      ensures IsPositionCoords(c.items[i])
    {
      PositionCoords(ring[i]);
    }
  }

  /** A Point or Polygon classified from finite positions passes `isGeometry`
      under the RFC checks. */
  lemma ParsedGeometryIsGeometry(ps: seq<Position>)
    requires AllFinite(ps)
    ensures Classify(ps).Object? ==> IsGeometry(RfcValidators(), Classify(ps).g)
  {
    if !Classify(ps).Object? {
      return;
    }
    var g := Classify(ps).g;
    ClassifyPoint(ps);
    ClassifyPolygon(ps);
    ClassifyRaw(ps);
    if PointRule(ps) {
      PositionCoords(ps[0]);
    } else {
      RingCoords(ps);
      assert PolygonValue([ps]).items == [PositionsValue(ps)];
    }
    RfcIsGeometry(g);
  }

  /** The corrected `parseCoordinateString`: text holding a number that is
      not finite (a non-numeric token reads as NaN) gives `undefined`, so
      every geometry it returns is valid GeoJSON, as the function's
      `@returns {object|Array} geojson geometry or coordinates` intends; on
      any other text it agrees with `ParseCoordinateString`. */
  function ParseStrict(coords: string, delimiter: string, separator: string): (v: Value)
    ensures v.Undefined? <==> coords == [] || !AllFinite(ReadPositions(coords, delimiter, separator))
    ensures !v.Undefined? ==> v == ParseCoordinateString(coords, delimiter, separator)
    ensures v.Object? ==> IsGeometry(RfcValidators(), v.g)
  {
    if coords == [] then Undefined
    else
      var ps := ReadPositions(coords, delimiter, separator);
      if !AllFinite(ps) then Undefined
      else
        FiniteNaNFree(ps);
        ClassifyDefined(ps);
        ParsedGeometryIsGeometry(ps);
        ParseCoordinateString(coords, delimiter, separator)
  }

  // ---------------------------------------------------------------------------
  // The random generators

  /** A bounding box `[minX, minY, maxX, maxY]`. */
  type BBox = seq<Number>

  /** The default `bbox` argument, `[-80, 30, -60, 60]`. */
  const DEFAULT_BBOX: BBox := [Finite(-8, 1), Finite(3, 1), Finite(-6, 1), Finite(6, 1)]

  /** The bounding box the generators use: the numbers configured under
      `GEOJSON_DEFAULT_BBOX` when there are any, otherwise the `bbox`
      argument, which defaults to `DEFAULT_BBOX`. */
  function EffectiveBBox(configured: BBox, bbox: Option<BBox>): (b: BBox)
    ensures configured != [] ==> b == configured
    ensures configured == [] && bbox.Some? ==> b == bbox.value
    ensures configured == [] && bbox.None? ==> b == DEFAULT_BBOX
  {
    if configured != [] then configured
    else match bbox
      case Some(b) => b
      case None => DEFAULT_BBOX
  }

  /** `_.map(turf.sample(turf.randomX(n, { bbox }), n).features, 'geometry')`
      for the turf generator of kind k, on the j-th call within one generator,
      as `sampler(k, j, n, bbox)`. */
  type Sampler = (Kind, nat, nat, BBox) -> seq<Geometry>

  /** turf keeps its promise: n geometries, each of the kind asked for. */
  ghost predicate Honest(sampler: Sampler) {
    forall k, j, n, b ::
      var xs := sampler(k, j, n, b);
      |xs| == n && forall i :: 0 <= i < |xs| ==> xs[i].kind == k
  }

  /** Every geometry turf draws has coordinates that fit its kind. */
  ghost predicate Sound(sampler: Sampler) {
    forall k, j, n, b ::
      var xs := sampler(k, j, n, b);
      forall i :: 0 <= i < |xs| ==> IsKindCoords(k, xs[i].coordinates)
  }

  /** `randomPoint`, `randomLineString` and `randomPolygon` (with k their
      kind): n geometries from one turf draw, shaped. */
  function RandomSingle(k: Kind, sampler: Sampler, size: Option<int>, configured: BBox, bbox: Option<BBox>): (r: Shaped<Geometry>)
    ensures Items(r) == sampler(k, 0, EffectiveSize(size), EffectiveBBox(configured, bbox))
  {
    Shape(sampler(k, 0, EffectiveSize(size), EffectiveBBox(configured, bbox)))
  }

  /** The two parts `[value.coordinates, next.coordinates]` as one geometry of kind k. */
  function TwoParts(k: Kind, value: Geometry, next: Geometry): Geometry {
    Geometry(k, List([value.coordinates, next.coordinates]))
  }

  /** `_.map(sample, (value, index) => ...)`: the i-th geometry joins the i-th
      of each sample. Where the second sample runs out, `next` is `undefined`
      and reading its coordinates throws (None). */
  function ZipParts(k: Kind, xs: seq<Geometry>, ys: seq<Geometry>): (zs: Option<seq<Geometry>>)
    ensures zs.None? <==> |ys| < |xs|
    ensures zs.Some? ==> |zs.value| == |xs|
    ensures zs.Some? ==> forall i :: 0 <= i < |xs| ==> zs.value[i] == TwoParts(k, xs[i], ys[i])
    decreases |xs|
  {
    if xs == [] then Some([])
    else if ys == [] then None
    else match ZipParts(k, xs[1..], ys[1..])
      case None => None
      case Some(rest) => Some([TwoParts(k, xs[0], ys[0])] + rest)
  }

  /** `randomMultiPoint`, `randomMultiLineString` and `randomMultiPolygon`
      (with k their kind): two independent draws of the part kind, zipped,
      shaped; None where the zip throws. */
  function RandomMulti(k: Kind, sampler: Sampler, size: Option<int>, configured: BBox, bbox: Option<BBox>): (r: Option<Shaped<Geometry>>)
    ensures var n := EffectiveSize(size);
      var b := EffectiveBBox(configured, bbox);
      var first := sampler(PartKind(k), 0, n, b);
      var second := sampler(PartKind(k), 1, n, b);
      && (r.None? <==> |second| < |first|)
      && (r.Some? ==> |Items(r.value)| == |first|)
      && (r.Some? ==> forall i :: 0 <= i < |first| ==> Items(r.value)[i] == TwoParts(k, first[i], second[i]))
  {
    var n := EffectiveSize(size);
    var b := EffectiveBBox(configured, bbox);
    match ZipParts(k, sampler(PartKind(k), 0, n, b), sampler(PartKind(k), 1, n, b))
    case None => None
    case Some(zs) => Some(Shape(zs))
  }

  /** With an honest sampler a single-kind generator returns `size` geometries
      of its kind (one when `size` is missing, zero or negative), bare when
      there is one and as a list when there are more. */
  lemma RandomSingleShape(k: Kind, sampler: Sampler, size: Option<int>, configured: BBox, bbox: Option<BBox>)
    requires Honest(sampler)
    ensures var r := RandomSingle(k, sampler, size, configured, bbox);
      && |Items(r)| == EffectiveSize(size)
      && (forall i :: 0 <= i < |Items(r)| ==> Items(r)[i].kind == k)
      && (r.One? <==> size.None? || size.value <= 1)
      && (r.Many? <==> size.Some? && size.value > 1)
  {
    var xs := sampler(k, 0, EffectiveSize(size), EffectiveBBox(configured, bbox));
    assert |xs| == EffectiveSize(size);
  }

  /** With an honest sampler a Multi* generator never throws, and returns
      `size` geometries of its kind, each with exactly two parts. */
  lemma RandomMultiShape(k: Kind, sampler: Sampler, size: Option<int>, configured: BBox, bbox: Option<BBox>)
    requires Honest(sampler)
    ensures var r := RandomMulti(k, sampler, size, configured, bbox);
      && r.Some?
      && |Items(r.value)| == EffectiveSize(size)
      && (forall i :: 0 <= i < |Items(r.value)| ==>
            Items(r.value)[i].kind == k && Items(r.value)[i].coordinates.List? && |Items(r.value)[i].coordinates.items| == 2)
      && (r.value.One? <==> size.None? || size.value <= 1)
      && (r.value.Many? <==> size.Some? && size.value > 1)
  {
    var n := EffectiveSize(size);
    var b := EffectiveBBox(configured, bbox);
    assert |sampler(PartKind(k), 0, n, b)| == n;
    assert |sampler(PartKind(k), 1, n, b)| == n;
  }

  /** When turf draws sound parts, every Multi* geometry generated passes
      `isGeometry`. */
  lemma RandomMultiIsGeometry(k: Kind, sampler: Sampler, size: Option<int>, configured: BBox, bbox: Option<BBox>)
    requires IsMultiKind(k) && Honest(sampler) && Sound(sampler)
    ensures var r := RandomMulti(k, sampler, size, configured, bbox);
      r.Some? && forall i :: 0 <= i < |Items(r.value)| ==> IsGeometry(RfcValidators(), Items(r.value)[i])
  {
    var n := EffectiveSize(size);
    var b := EffectiveBBox(configured, bbox);
    var first := sampler(PartKind(k), 0, n, b);
    var second := sampler(PartKind(k), 1, n, b);
    RandomMultiShape(k, sampler, size, configured, bbox);
    var r := RandomMulti(k, sampler, size, configured, bbox);
    forall i | 0 <= i < |Items(r.value)|
      ensures IsGeometry(RfcValidators(), Items(r.value)[i])
    {
      var g := Items(r.value)[i];
      assert g == TwoParts(k, first[i], second[i]);
      assert IsKindCoords(PartKind(k), first[i].coordinates);
      assert IsKindCoords(PartKind(k), second[i].coordinates);
      RfcIsGeometry(g);
    }
  }

  /** When turf draws sound geometries, every single-kind geometry generated
      passes `isGeometry`. */
  lemma RandomSingleIsGeometry(k: Kind, sampler: Sampler, size: Option<int>, configured: BBox, bbox: Option<BBox>)
    requires Honest(sampler) && Sound(sampler)
    ensures var r := RandomSingle(k, sampler, size, configured, bbox);
      forall i :: 0 <= i < |Items(r)| ==> IsGeometry(RfcValidators(), Items(r)[i])
  {
    var r := RandomSingle(k, sampler, size, configured, bbox);
    var xs := sampler(k, 0, EffectiveSize(size), EffectiveBBox(configured, bbox));
    forall i | 0 <= i < |Items(r)|
      ensures IsGeometry(RfcValidators(), Items(r)[i])
    {
      assert Items(r)[i] == xs[i];
      assert xs[i].kind == k;
      RfcIsGeometry(xs[i]);
    }
  }
}
