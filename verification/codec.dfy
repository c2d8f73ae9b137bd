/** The coordinate-string codec of `src/schemas/geojson.js`:
    `parseCoordinateString` reads text such as `"35,10 45,45 15,40 10,20 35,10"`
    into a Point, a Polygon or a bare list of positions, and
    `toCoordinateString` writes any coordinates back as delimited pairs. */
module CoordinateCodec {
  import opened Common
  import opened JsNumbers
  import opened JsStrings
  import opened GeoJson

  // ---------------------------------------------------------------------------
  // The two `@turf/turf` constructors the parser calls, with their guards

  /** `turf.point(p).geometry`; None where turf throws: fewer than two numbers,
      or a NaN among the first two. */
  function TurfPoint(p: Position): Option<Geometry> {
    if |p| < 2 || p[0].NaN? || p[1].NaN? then None
    else Some(Geometry(Point, PositionValue(p)))
  }

  /** JavaScript `===` on numbers: equal values, and neither is NaN. */
  predicate StrictEquals(x: Number, y: Number) {
    !x.NaN? && Normalize(x) == Normalize(y)
  }

  /** turf's check of one ring: four or more positions, and every number of the
      last position `===` the number at the same index of the first. */
  predicate TurfRingAccepted(ring: seq<Position>) {
    && |ring| >= 4
    && forall j :: 0 <= j < |ring[|ring| - 1]| ==>
         j < |ring[0]| && StrictEquals(ring[|ring| - 1][j], ring[0][j])
  }

  /** The coordinates of a polygon made of the given rings. */
  function PolygonValue(rings: seq<seq<Position>>): Coordinates {
    List(seq(|rings|, i requires 0 <= i < |rings| => PositionsValue(rings[i])))
  }

  /** `turf.polygon(rings).geometry`; None where turf throws. */
  function TurfPolygon(rings: seq<seq<Position>>): Option<Geometry> {
    if forall i :: 0 <= i < |rings| ==> TurfRingAccepted(rings[i])
    then Some(Geometry(Polygon, PolygonValue(rings)))
    else None
  }

  /** Some number of the position is NaN. */
  predicate HasNaN(p: Position) {
    exists i :: 0 <= i < |p| && p[i].NaN?
  }

  /** turf accepts a position the library passed exactly when neither of its
      first two numbers is NaN, and the Point then carries the whole position. */
  lemma PointAccepted(p: Position)
    requires IsPosition(p)
    ensures TurfPoint(p).Some? <==> !p[0].NaN? && !p[1].NaN?
    ensures TurfPoint(p).Some? ==> TurfPoint(p).value == Geometry(Point, PositionValue(p))
  {
  }

  /** turf's `===` closing check fails on a ring the library passed exactly
      when its closing position holds a NaN, as NaN is not `===` to itself. */
  lemma {:induction false} RingAccepted(ring: seq<Position>)
    requires IsLinearRing(ring)
    ensures TurfRingAccepted(ring) <==> !HasNaN(ring[0])
  {
    var last := ring[|ring| - 1];
    if HasNaN(ring[0]) {
      var j :| 0 <= j < |ring[0]| && ring[0][j].NaN?;
      assert !StrictEquals(last[j], ring[0][j]);
    } else {
      forall j | 0 <= j < |last|
        ensures j < |ring[0]| && StrictEquals(last[j], ring[0][j])
      {
        assert last[j] == ring[0][j];
        assert !ring[0][j].NaN?;
      }
    }
  }

  /** turf builds the one-ring Polygon of a ring the library passed unless its
      closing position holds a NaN. */
  lemma PolygonAccepted(ring: seq<Position>)
    requires IsLinearRing(ring)
    ensures TurfPolygon([ring]).Some? <==> !HasNaN(ring[0])
    ensures TurfPolygon([ring]).Some? ==> TurfPolygon([ring]).value == Geometry(Polygon, PolygonValue([ring]))
  {
    RingAccepted(ring);
    assert [ring][0] == ring;
  }

  // ---------------------------------------------------------------------------
  // Parsing

  /** The pair tokens: the non-empty pieces of the text split on the separator. */
  function PairTokens(coords: string, separator: string): seq<string> {
    Compact(Split(coords, separator))
  }

  /** Each piece read with `_.toNumber`. */
  function ToNumbers(parts: seq<string>): (xs: seq<Number>)
    ensures |xs| == |parts|
    decreases |parts|
  {
    if parts == [] then [] else [ToNumber(parts[0])] + ToNumbers(parts[1..])
  }

  /** One pair token split on the delimiter, each piece read as a number. */
  function ReadPosition(pair: string, delimiter: string): Position {
    ToNumbers(Split(pair, delimiter))
  }

  /** One position per pair token, in the tokens' order. */
  function ReadAll(pairs: seq<string>, delimiter: string): (ps: seq<Position>)
    ensures |ps| == |pairs|
    ensures forall i :: 0 <= i < |pairs| ==> ps[i] == ReadPosition(pairs[i], delimiter)
    decreases |pairs|
  {
    if pairs == [] then [] else [ReadPosition(pairs[0], delimiter)] + ReadAll(pairs[1..], delimiter)
  }

  function ReadPositions(coords: string, delimiter: string, separator: string): seq<Position> {
    ReadAll(PairTokens(coords, separator), delimiter)
  }

  /** The point rule: exactly one position, and it passes `isPosition`. */
  predicate PointRule(ps: seq<Position>) {
    |ps| == 1 && IsPosition(ps[0])
  }

  /** What the parser makes of the positions it read (the `try` block after
      reading): a Point for a single position, else a Polygon for a closed
      ring, else the positions themselves; `undefined` where a turf
      constructor throws into the `catch`. */
  function Classify(points: seq<Position>): Value {
    if PointRule(points) then
      match TurfPoint(points[0])
      case Some(g) => Object(g)
      case None => Undefined
    else if IsPolygonCoor([points]) then
      match TurfPolygon([points])
      case Some(g) => Object(g)
      case None => Undefined
    else Coords(PositionsValue(points))
  }

  /** Where a turf constructor throws on positions the library's checks
      passed: a single position with a NaN among its first two numbers, or a
      ring whose closing position holds a NaN. */
  predicate TurfThrows(ps: seq<Position>) {
    if PointRule(ps) then ps[0][0].NaN? || ps[0][1].NaN?
    else IsLinearRing(ps) && HasNaN(ps[0])
  }

  /** `parseCoordinateString(coords, delimiter, separator)`: `undefined` for
      the empty text and where turf throws, and nowhere else; `_.toNumber`
      reads a non-numeric token as NaN without throwing. */
  function ParseCoordinateString(coords: string, delimiter: string, separator: string): (v: Value)
    ensures v.Undefined? <==> coords == [] || TurfThrows(ReadPositions(coords, delimiter, separator))
  {
    if coords == [] then Undefined
    else
      var points := ReadPositions(coords, delimiter, separator);
      ClassifyUndefined(points);
      Classify(points)
  }

  /** The classification is `undefined` exactly where turf throws. */
  lemma ClassifyUndefined(ps: seq<Position>)
    ensures Classify(ps).Undefined? <==> TurfThrows(ps)
  {
    if PointRule(ps) {
      PointAccepted(ps[0]);
    } else if IsPolygonCoor([ps]) {
      assert [ps][0] == ps;
      PolygonAccepted(ps);
    } else {
      assert !IsLinearRing([ps][0]);
    }
  }

  /** No number of the positions is NaN. */
  predicate NaNFree(ps: seq<Position>) {
    forall k :: 0 <= k < |ps| ==> !HasNaN(ps[k])
  }

  /** Positions without a NaN never make turf throw. */
  lemma ClassifyDefined(ps: seq<Position>)
    requires NaNFree(ps)
    ensures !Classify(ps).Undefined?
  {
    ClassifyUndefined(ps);
  }

  /** A single position is a Point exactly when turf accepts it, and the
      Point carries that position. */
  lemma ClassifyPoint(ps: seq<Position>)
    ensures var v := Classify(ps);
      var point := PointRule(ps) && !ps[0][0].NaN? && !ps[0][1].NaN?;
      && (v.Object? && v.g.kind == Point <==> point)
      && (point ==> v == Object(Geometry(Point, PositionValue(ps[0]))))
  {
    if PointRule(ps) {
      PointAccepted(ps[0]);
    } else if IsPolygonCoor([ps]) {
      assert [ps][0] == ps;
      PolygonAccepted(ps);
    }
  }

  /** Only when the point rule fails, a closed ring whose closing position is
      free of NaN is a Polygon with that one ring. */
  lemma ClassifyPolygon(ps: seq<Position>)
    ensures var v := Classify(ps);
      var polygon := !PointRule(ps) && IsLinearRing(ps) && !HasNaN(ps[0]);
      && (v.Object? && v.g.kind == Polygon <==> polygon)
      && (polygon ==> v == Object(Geometry(Polygon, PolygonValue([ps]))))
  {
    if PointRule(ps) {
      PointAccepted(ps[0]);
    } else if IsPolygonCoor([ps]) {
      assert [ps][0] == ps;
      PolygonAccepted(ps);
    } else {
      assert !IsLinearRing([ps][0]);
    }
  }

  /** Anything else is returned as the positions themselves. */
  lemma ClassifyRaw(ps: seq<Position>)
    ensures var v := Classify(ps);
      var raw := !PointRule(ps) && !IsLinearRing(ps);
      && (v.Coords? <==> raw)
      && (raw ==> v == Coords(PositionsValue(ps)))
  {
    if PointRule(ps) {
      PointAccepted(ps[0]);
    } else if IsPolygonCoor([ps]) {
      assert [ps][0] == ps;
      PolygonAccepted(ps);
    } else {
      assert !IsLinearRing([ps][0]);
    }
  }

  /** Non-empty text is read into positions, which are then classified. */
  lemma ParseReadsThenClassifies(coords: string, delimiter: string, separator: string)
    requires coords != []
    ensures ParseCoordinateString(coords, delimiter, separator)
      == Classify(ReadPositions(coords, delimiter, separator))
  {
  }

  /** Text read as a single position whose first two numbers are not NaN is
      that Point. */
  lemma ParseAsPoint(coords: string, ps: seq<Position>, delimiter: string, separator: string)
    requires coords != [] && ReadPositions(coords, delimiter, separator) == ps && PointRule(ps)
    requires !ps[0][0].NaN? && !ps[0][1].NaN?
    ensures ParseCoordinateString(coords, delimiter, separator) == Object(Geometry(Point, PositionValue(ps[0])))
  {
    ClassifyPoint(ps);
  }

  // ---------------------------------------------------------------------------
  // Formatting

  /** `_.chunk(xs, 2)`: consecutive pairs, the last one single when the count is odd. */
  function Pairs<T>(xs: seq<T>): (chunks: seq<seq<T>>)
    ensures Concat(chunks) == xs
    ensures |chunks| == (|xs| + 1) / 2
    ensures forall i :: 0 <= i < |chunks| ==>
      |chunks[i]| == (if i == |chunks| - 1 && |xs| % 2 == 1 then 1 else 2)
    decreases |xs|
  {
    if |xs| <= 2 then (if xs == [] then [] else [xs])
    else
      var rest := Pairs(xs[2..]);
      assert xs == xs[..2] + xs[2..];
      [xs[..2]] + rest
  }

  /** `_.flattenDeep` of a coordinate array; a bare number has no elements. */
  function FlattenDeep(c: Coordinates): seq<Number> {
    match c
    case Num(_) => []
    case List(items) => LeavesOf(items)
  }

  /** Each number written by `Number.prototype.toString()`. */
  function NumTexts(xs: seq<Number>): (ts: seq<string>)
    ensures |ts| == |xs|
    decreases |xs|
  {
    if xs == [] then [] else [NumText(xs[0])] + NumTexts(xs[1..])
  }

  /** `pair.join(delimiter)`. */
  function PairText(pair: seq<Number>, delimiter: string): string {
    Join(NumTexts(pair), delimiter)
  }

  function PairTexts(ps: seq<seq<Number>>, delimiter: string): (ts: seq<string>)
    ensures |ts| == |ps|
    ensures forall i :: 0 <= i < |ps| ==> ts[i] == PairText(ps[i], delimiter)
    decreases |ps|
  {
    if ps == [] then [] else [PairText(ps[0], delimiter)] + PairTexts(ps[1..], delimiter)
  }

  /** The pairs joined by the separator. */
  function PositionsText(ps: seq<seq<Number>>, delimiter: string, separator: string): string {
    Join(PairTexts(ps, delimiter), separator)
  }

  /** The numbers cut into pairs, written as pairs. */
  function NumbersText(xs: seq<Number>, delimiter: string, separator: string): string {
    PositionsText(Pairs(xs), delimiter, separator)
  }

  /** The array `toCoordinateString` flattens: `geometry.coordinates` of an
      object (a number there is falsy or flattens to nothing, like the object
      itself), else the value. */
  function CoordinatesOf(v: Value): Coordinates
    requires !v.Undefined?
  {
    if v.Object? then v.g.coordinates else v.c
  }

  /** `toCoordinateString(geometry, delimiter, separator)`; None where reading
      `undefined.coordinates` throws. */
  function ToCoordinateString(v: Value, delimiter: string, separator: string): (r: Option<string>)
    ensures r.None? <==> v.Undefined?
  {
    if v.Undefined? then None
    else Some(NumbersText(FlattenDeep(CoordinatesOf(v)), delimiter, separator))
  }

  /** The text depends only on the numbers, in order: values that flatten alike
      are written alike, a geometry like its coordinate array. */
  lemma SameNumbersSameText(v: Value, w: Value, delimiter: string, separator: string)
    requires !v.Undefined? && !w.Undefined?
    requires FlattenDeep(CoordinatesOf(v)) == FlattenDeep(CoordinatesOf(w))
    ensures ToCoordinateString(v, delimiter, separator) == ToCoordinateString(w, delimiter, separator)
  {
  }

  /** Delimiter and separator that no number's text can contain, the separator
      also absent from the delimiter. */
  predicate Separators(delimiter: string, separator: string) {
    && delimiter != [] && separator != []
    && !IsNumeralChar(delimiter[0]) && !IsNumeralChar(separator[0])
    && Avoids(delimiter, separator[0])
  }

  lemma NumTextAvoids(x: Number, c: char)
    requires x.Finite? && !IsNumeralChar(c)
    ensures NumText(x) != [] && Avoids(NumText(x), c)
  {
    NumTextShape(x);
  }

  lemma {:induction false} NumTextsAvoid(xs: seq<Number>, c: char)
    requires forall i :: 0 <= i < |xs| ==> xs[i].Finite?
    requires !IsNumeralChar(c)
    ensures forall k :: 0 <= k < |xs| ==> Avoids(NumTexts(xs)[k], c)
    decreases |xs|
  {
    if xs != [] {
      NumTextAvoids(xs[0], c);
      NumTextsAvoid(xs[1..], c);
    }
  }

  lemma PairTextAvoids(pair: seq<Number>, delimiter: string, c: char)
    requires forall i :: 0 <= i < |pair| ==> pair[i].Finite?
    requires !IsNumeralChar(c) && Avoids(delimiter, c)
    ensures Avoids(PairText(pair, delimiter), c)
  {
    NumTextsAvoid(pair, c);
    JoinAvoids(NumTexts(pair), delimiter, c);
  }

  predicate AllFinite(ps: seq<seq<Number>>) {
    forall k, i :: 0 <= k < |ps| && 0 <= i < |ps[k]| ==> ps[k][i].Finite?
  }

  lemma {:induction false} PairTextsAvoid(ps: seq<seq<Number>>, delimiter: string, c: char)
    requires AllFinite(ps)
    requires !IsNumeralChar(c) && Avoids(delimiter, c)
    ensures forall k :: 0 <= k < |ps| ==> Avoids(PairTexts(ps, delimiter)[k], c)
    decreases |ps|
  {
    if ps != [] {
      PairTextAvoids(ps[0], delimiter, c);
      PairTextsAvoid(ps[1..], delimiter, c);
    }
  }

  /** The written text splits on the separator into the pairs' texts, in order. */
  lemma SplitIntoPairs(ps: seq<seq<Number>>, delimiter: string, separator: string)
    requires Separators(delimiter, separator) && ps != [] && AllFinite(ps)
    ensures Split(PositionsText(ps, delimiter, separator), separator) == PairTexts(ps, delimiter)
  {
    PairTextsAvoid(ps, delimiter, separator[0]);
    SplitJoin(PairTexts(ps, delimiter), separator);
  }

  /** The chunks hold the list's numbers. */
  lemma {:induction false} PairsFinite(xs: seq<Number>)
    requires forall i :: 0 <= i < |xs| ==> xs[i].Finite?
    ensures AllFinite(Pairs(xs))
    decreases |xs|
  {
    if |xs| > 2 {
      PairsFinite(xs[2..]);
    }
  }

  /** The written text of any numbers splits on the separator into their
      pairs' texts: `toCoordinateString` emits the numbers in order as
      consecutive pairs. */
  lemma SplitIntoChunks(xs: seq<Number>, delimiter: string, separator: string)
    requires Separators(delimiter, separator) && xs != []
    requires forall i :: 0 <= i < |xs| ==> xs[i].Finite?
    ensures Split(NumbersText(xs, delimiter, separator), separator) == PairTexts(Pairs(xs), delimiter)
  {
    PairsFinite(xs);
    SplitIntoPairs(Pairs(xs), delimiter, separator);
  }

  // ---------------------------------------------------------------------------
  // Round trip

  /** A pair of canonical finite numbers. */
  predicate CanonicalPair(p: Position) {
    |p| == 2 && p[0].Finite? && p[1].Finite? && Canonical(p[0]) && Canonical(p[1])
  }

  predicate CanonicalPairs(ps: seq<Position>) {
    forall k :: 0 <= k < |ps| ==> CanonicalPair(ps[k])
  }

  lemma {:induction false} PairsOfPairs(ps: seq<Position>)
    requires forall i :: 0 <= i < |ps| ==> |ps[i]| == 2
    ensures Pairs(Concat(ps)) == ps
    decreases |ps|
  {
    if ps != [] {
      var xs := Concat(ps);
      PairsOfPairs(ps[1..]);
      if |ps| == 1 {
        assert xs == ps[0] + [];
      } else {
        assert |Concat(ps[1..])| >= 2 by {
          assert Concat(ps[1..]) == ps[1] + Concat(ps[2..]);
        }
        assert xs[..2] == ps[0];
        assert xs[2..] == Concat(ps[1..]);
      }
    }
  }

  /** Writing the positions as a bare list gives their text. */
  lemma WritePositions(ps: seq<Position>, delimiter: string, separator: string)
    requires forall i :: 0 <= i < |ps| ==> |ps[i]| == 2
    ensures ToCoordinateString(Coords(PositionsValue(ps)), delimiter, separator)
      == Some(PositionsText(ps, delimiter, separator))
  {
    PositionsLeaves(ps);
    PairsOfPairs(ps);
  }

  /** Reading the texts of canonical numbers gives the numbers. */
  lemma {:induction false} ReadNumTexts(xs: seq<Number>)
    requires forall i :: 0 <= i < |xs| ==> Canonical(xs[i])
    ensures ToNumbers(NumTexts(xs)) == xs
    decreases |xs|
  {
    if xs != [] {
      NumberRoundTrip(xs[0]);
      ReadNumTexts(xs[1..]);
      assert NumTexts(xs)[1..] == NumTexts(xs[1..]);
    }
  }

  /** Numbers written and joined by a delimiter no numeral holds read back,
      split on that delimiter, as the same numbers. */
  lemma ReadJoinedTexts(xs: seq<Number>, delimiter: string)
    requires xs != []
    requires forall i :: 0 <= i < |xs| ==> xs[i].Finite? && Canonical(xs[i])
    requires delimiter != [] && !IsNumeralChar(delimiter[0])
    ensures ToNumbers(Split(Join(NumTexts(xs), delimiter), delimiter)) == xs
  {
    NumTextsAvoid(xs, delimiter[0]);
    SplitJoin(NumTexts(xs), delimiter);
    ReadNumTexts(xs);
  }

  /** A pair's text reads back as the pair. */
  lemma ReadPairText(p: Position, delimiter: string)
    requires CanonicalPair(p) && delimiter != [] && !IsNumeralChar(delimiter[0])
    ensures ReadPosition(PairText(p, delimiter), delimiter) == p
  {
    assert forall i :: 0 <= i < |p| ==> p[i].Finite? && Canonical(p[i]) by {
      assert p == [p[0], p[1]];
    }
    ReadJoinedTexts(p, delimiter);
  }

  lemma ReadPairTexts(ps: seq<Position>, delimiter: string)
    requires CanonicalPairs(ps) && delimiter != [] && !IsNumeralChar(delimiter[0])
    ensures ReadAll(PairTexts(ps, delimiter), delimiter) == ps
  {
    var texts := PairTexts(ps, delimiter);
    forall i | 0 <= i < |ps|
      ensures ReadAll(texts, delimiter)[i] == ps[i]
    {
      ReadPairText(ps[i], delimiter);
    }
  }

  /** Every pair's text is non-empty. */
  lemma {:induction false} PairTextsNonEmpty(ps: seq<Position>, delimiter: string)
    requires CanonicalPairs(ps)
    ensures forall k :: 0 <= k < |ps| ==> PairTexts(ps, delimiter)[k] != []
    decreases |ps|
  {
    if ps != [] {
      NumTextAvoids(ps[0][0], ' ');
      assert NumTexts(ps[0]) == [NumText(ps[0][0])] + NumTexts(ps[0][1..]);
      PairTextsNonEmpty(ps[1..], delimiter);
    }
  }

  lemma CanonicalAllFinite(ps: seq<Position>)
    requires CanonicalPairs(ps)
    ensures AllFinite(ps)
  {
  }

  /** Finite numbers are not NaN. */
  lemma FiniteNaNFree(ps: seq<Position>)
    requires AllFinite(ps)
    ensures NaNFree(ps)
  {
    forall k | 0 <= k < |ps|
      ensures !HasNaN(ps[k])
    {
      assert forall i :: 0 <= i < |ps[k]| ==> ps[k][i].Finite?;
    }
  }

  /** The positions' text reads back as the positions: one pair token per
      position, each read as its two numbers. */
  lemma ReadPositionsText(ps: seq<Position>, delimiter: string, separator: string)
    requires Separators(delimiter, separator) && ps != [] && CanonicalPairs(ps)
    ensures PositionsText(ps, delimiter, separator) != []
    ensures ReadPositions(PositionsText(ps, delimiter, separator), delimiter, separator) == ps
  {
    var texts := PairTexts(ps, delimiter);
    CanonicalAllFinite(ps);
    SplitIntoPairs(ps, delimiter, separator);
    PairTextsNonEmpty(ps, delimiter);
    assert Compact(texts) == texts;
    ReadPairTexts(ps, delimiter);
    JoinSplit(PositionsText(ps, delimiter, separator), separator);
  }

  /** The numbers of what the parser makes of the positions are the positions'
      numbers, whichever way it classifies them. */
  lemma ClassifiedNumbers(ps: seq<Position>)
    requires !Classify(ps).Undefined?
    ensures FlattenDeep(CoordinatesOf(Classify(ps))) == Concat(ps)
  {
    if PointRule(ps) {
      PointAccepted(ps[0]);
      PositionLeaves(ps[0]);
      assert Concat(ps) == ps[0] + [];
    } else if IsPolygonCoor([ps]) {
      assert [ps][0] == ps;
      PolygonAccepted(ps);
      var items := PolygonValue([ps]).items;
      PositionsLeaves(ps);
      assert LeavesOf(items) == Leaves(items[0]) + LeavesOf([]);
    } else {
      PositionsLeaves(ps);
    }
  }

  /** Whatever NaN-free two-number positions are classified as, it is
      written as the positions' text. */
  lemma WriteClassified(ps: seq<Position>, delimiter: string, separator: string)
    requires NaNFree(ps) && forall i :: 0 <= i < |ps| ==> |ps[i]| == 2
    ensures ToCoordinateString(Classify(ps), delimiter, separator)
      == Some(PositionsText(ps, delimiter, separator))
  {
    ClassifyDefined(ps);
    ClassifiedNumbers(ps);
    PositionsLeaves(ps);
    SameNumbersSameText(Classify(ps), Coords(PositionsValue(ps)), delimiter, separator);
    WritePositions(ps, delimiter, separator);
  }

  /** Round trip: text made of canonical numbers in pairs, with single
      separators between the pairs, is written back exactly as it was read,
      whether it became a Point, a Polygon or a bare list. */
  lemma RoundTrip(t: string, ps: seq<Position>, delimiter: string, separator: string)
    requires Separators(delimiter, separator) && ps != [] && CanonicalPairs(ps)
    requires t == PositionsText(ps, delimiter, separator)
    ensures ToCoordinateString(ParseCoordinateString(t, delimiter, separator), delimiter, separator) == Some(t)
  {
    ReadPositionsText(ps, delimiter, separator);
    ParseReadsThenClassifies(t, delimiter, separator);
    CanonicalAllFinite(ps);
    FiniteNaNFree(ps);
    WriteClassified(ps, delimiter, separator);
  }
}
