/** The codec on the texts its documentation uses, with the default delimiter
    `,` and separator ` `. */
module CodecCases {
  import opened Common
  import opened JsNumbers
  import opened JsStrings
  import opened GeoJson
  import opened CoordinateCodec
  import opened GeoJsonLib

  lemma DefaultSeparators()
    ensures Separators(",", " ")
  {
  }

  lemma ThirtyTen()
    ensures PositionsText([P(N30, N10)], ",", " ") == "30,10"
  {
    CanonicalNumText(N30);
    CanonicalNumText(N10);
    assert CanonicalText(N30) == "30";
    assert CanonicalText(N10) == "10";
  }

  lemma ReadThirtyTen()
    ensures ReadPositions("30,10", ",", " ") == [P(N30, N10)]
  {
    DefaultSeparators();
    ThirtyTen();
    ReadPositionsText([P(N30, N10)], ",", " ");
  }

  lemma ThirtyTenIsPosition()
    ensures PointRule([P(N30, N10)])
  {
  }

  /** `"30,10"` is the Point [30, 10]. */
  lemma ParsePointText(t: string)
    requires t == "30,10"
    ensures ParseCoordinateString(t, ",", " ") == Object(Geometry(Point, PositionValue(P(N30, N10))))
  {
    ThirtyTenIsPosition();
    ReadThirtyTen();
    ParseAsPoint(t, [P(N30, N10)], ",", " ");
  }

  lemma ThirtyTenCanonical()
    ensures CanonicalPairs([P(N30, N10)])
  {
  }

  /** `"30,10"` is written back as `"30,10"`. */
  lemma WritePointText(t: string)
    requires t == "30,10"
    ensures ToCoordinateString(ParseCoordinateString(t, ",", " "), ",", " ") == Some(t)
  {
    DefaultSeparators();
    ThirtyTen();
    ThirtyTenCanonical();
    RoundTrip(t, [P(N30, N10)], ",", " ");
  }

  lemma GarbageTokens()
    ensures PairTokens("x,y", " ") == ["x,y"]
  {
    AvoidsNoOccurrence("x,y", " ");
  }

  lemma GarbagePieces()
    ensures Split("x,y", ",") == ["x", "y"]
  {
    assert Join(["x", "y"], ",") == "x,y";
    SplitJoin(["x", "y"], ",");
  }

  lemma GarbagePosition()
    ensures ReadPosition("x,y", ",") == [NaN, NaN]
  {
    GarbagePieces();
    LetterReads("x");
    LetterReads("y");
  }

  lemma ReadGarbage()
    ensures ReadPositions("x,y", ",", " ") == [[NaN, NaN]]
  {
    GarbageTokens();
    GarbagePosition();
  }

  /** `"x,y"` is `undefined`: each token reads as NaN without throwing, the
      NaN position passes `isPosition`, and `turf.point` throws on it into the
      `catch`. */
  lemma ParseGarbageText(t: string)
    requires t == "x,y"
    ensures ParseCoordinateString(t, ",", " ") == Undefined
  {
    ReadGarbage();
    var ps: seq<Position> := [[NaN, NaN]];
    assert TurfThrows(ps);
  }

  const N1 := Finite(1, 0)
  const N2 := Finite(2, 0)

  lemma NaNPointTokens()
    ensures PairTokens("1,2,x", " ") == ["1,2,x"]
  {
    AvoidsNoOccurrence("1,2,x", " ");
  }

  lemma NaNPointPieces()
    ensures Split("1,2,x", ",") == ["1", "2", "x"]
  {
    assert Join(["1", "2", "x"], ",") == "1,2,x";
    SplitJoin(["1", "2", "x"], ",");
  }

  /** `Finite(10, -1)` is the value 1 and prints as `1`, like `Finite(1, 0)`. */
  lemma TrailingZeroText()
    ensures Normalize(Finite(10, -1)) == N1
    ensures NumText(Finite(10, -1)) == NumText(N1) == "1"
  {
    assert StripZeros(10, -1) == StripZeros(1, 0) == Decimal(1, 0);
    CanonicalNumText(N1);
    assert CanonicalText(N1) == "1";
  }

  /** The list `[[1.0, 2]]`, its first number held as `Finite(10, -1)`, is
      written `"1,2"`. */
  lemma WriteTrailingZero()
    ensures ToCoordinateString(Coords(PositionsValue([P(Finite(10, -1), N2)])), ",", " ") == Some("1,2")
  {
    var ps := [P(Finite(10, -1), N2)];
    TrailingZeroText();
    CanonicalNumText(N2);
    assert CanonicalText(N2) == "2";
    NumTextsTwo(Finite(10, -1), N2);
    JoinTwo("1", "2", ",");
    assert PairText(ps[0], ",") == "1,2" by {
      assert "1" + "," + "2" == "1,2";
    }
    assert PairTexts(ps, ",") == ["1,2"];
    WritePositions(ps, ",", " ");
  }

  lemma OneTwoReads()
    ensures ToNumber("1") == N1 && ToNumber("2") == N2
  {
    CanonicalNumText(N1);
    CanonicalNumText(N2);
    assert CanonicalText(N1) == "1";
    assert CanonicalText(N2) == "2";
    NumberRoundTrip(N1);
    NumberRoundTrip(N2);
  }

  lemma NaNPointPosition()
    ensures ReadPosition("1,2,x", ",") == [N1, N2, NaN]
  {
    NaNPointPieces();
    OneTwoReads();
    LetterReads("x");
  }

  lemma ReadNaNPoint()
    ensures ReadPositions("1,2,x", ",", " ") == [[N1, N2, NaN]]
  {
    NaNPointTokens();
    NaNPointPosition();
  }

  /** The Point `[1, 2, NaN]` fails the RFC position check. */
  lemma NaNPointInvalid()
    ensures !IsGeometry(RfcValidators(), Geometry(Point, PositionValue([N1, N2, NaN])))
  {
    var g := Geometry(Point, PositionValue([N1, N2, NaN]));
    assert !IsPositionCoords(g.coordinates) by {
      assert !g.coordinates.items[2].n.Finite?;
    }
    RfcIsGeometry(g);
  }

  lemma NaNPointNotFinite()
    ensures !AllFinite([[N1, N2, NaN]])
  {
    var ps: seq<Position> := [[N1, N2, NaN]];
    assert !ps[0][2].Finite?;
  }

  /** Text that reads as the one position `[1, 2, NaN]` parses to that Point. */
  lemma ParseReadNaNPoint(t: string)
    requires t != [] && ReadPositions(t, ",", " ") == [[N1, N2, NaN]]
    ensures ParseCoordinateString(t, ",", " ") == Object(Geometry(Point, PositionValue([N1, N2, NaN])))
  {
    ParseAsPoint(t, [[N1, N2, NaN]], ",", " ");
  }

  lemma StrictNaNPoint(t: string)
    requires t == "1,2,x"
    ensures ParseStrict(t, ",", " ") == Undefined
  {
    ReadNaNPoint();
    NaNPointNotFinite();
  }

  /** `"1,2,x"` is the Point `[1, 2, NaN]`: `isPosition` admits the NaN and
      `turf.point` checks only the first two numbers. That Point is not valid
      GeoJSON, and the corrected parser `ParseStrict` gives `undefined` instead. */
  lemma ParseNaNPoint(t: string)
    requires t == "1,2,x"
    ensures ParseCoordinateString(t, ",", " ") == Object(Geometry(Point, PositionValue([N1, N2, NaN])))
    ensures !IsGeometry(RfcValidators(), Geometry(Point, PositionValue([N1, N2, NaN])))
    ensures ParseStrict(t, ",", " ") == Undefined
  {
    ReadNaNPoint();
    ParseReadNaNPoint(t);
    NaNPointInvalid();
    StrictNaNPoint(t);
  }

  /** The empty text is `undefined`. */
  lemma ParseEmptyText()
    ensures ParseCoordinateString("", ",", " ") == Undefined
  {
  }

  function P(x: Number, y: Number): Position {
    [x, y]
  }

  const N10 := Finite(1, 1)
  const N15 := Finite(15, 0)
  const N20 := Finite(2, 1)
  const N30 := Finite(3, 1)
  const N35 := Finite(35, 0)
  const N40 := Finite(4, 1)
  const N45 := Finite(45, 0)

  /** [[35,10], [45,45], [15,40], [10,20], [35,10]]: a closed ring. */
  function Ring(): seq<Position> {
    [P(N35, N10), P(N45, N45), P(N15, N40), P(N10, N20), P(N35, N10)]
  }

  /** [[10,40], [40,30], [20,20], [30,10]]: an open line. */
  function Line(): seq<Position> {
    [P(N10, N40), P(N40, N30), P(N20, N20), P(N30, N10)]
  }

  /** The positions of `"35,10 45,45 15,40 10,20 35,10"` make a Polygon with
      that one ring. */
  lemma ClassifyRing()
    ensures Classify(Ring()) == Object(Geometry(Polygon, PolygonValue([Ring()])))
  {
    assert IsLinearRing(Ring());
    ClassifyPolygon(Ring());
  }

  /** The positions of `"10,40 40,30 20,20 30,10"` are returned as they are. */
  lemma ClassifyLine()
    ensures Classify(Line()) == Coords(PositionsValue(Line()))
  {
    var l := Line();
    assert l[0][0] != l[3][0];
    assert !IsLinearRing(l);
    assert !IsPolygonCoor([l]) by {
      assert [l][0] == l;
    }
    ClassifyRaw(l);
  }

  /** The pair `[x, y]` of canonical numbers is written `tx,ty`. */
  lemma PairWritten(x: Number, y: Number, tx: string, ty: string)
    requires Canonical(x) && Canonical(y) && CanonicalText(x) == tx && CanonicalText(y) == ty
    ensures PairText(P(x, y), ",") == tx + "," + ty
  {
    CanonicalNumText(x);
    CanonicalNumText(y);
    NumTextsTwo(x, y);
    JoinTwo(tx, ty, ",");
  }

  lemma NumTextsTwo(x: Number, y: Number)
    ensures NumTexts([x, y]) == [NumText(x), NumText(y)]
  {
    assert [x, y][1..] == [y];
    assert [y][1..] == [];
  }

  /** `join` of two parts. */
  lemma JoinTwo(a: string, b: string, sep: string)
    ensures Join([a, b], sep) == a + sep + b
  {
    assert [a, b][1..] == [b];
  }

  /** `join` of four parts. */
  lemma JoinFour(a: string, b: string, c: string, d: string, sep: string)
    ensures Join([a, b, c, d], sep) == a + sep + b + sep + c + sep + d
  {
    assert [a, b, c, d][1..] == [b, c, d];
    assert [b, c, d][1..] == [c, d];
    assert [c, d][1..] == [d];
    assert Join([d], sep) == d;
    assert Join([c, d], sep) == c + sep + d;
    assert Join([b, c, d], sep) == b + sep + (c + sep + d);
  }

  /** `join` of five parts. */
  lemma JoinFive(a: string, b: string, c: string, d: string, e: string, sep: string)
    ensures Join([a, b, c, d, e], sep) == a + sep + b + sep + c + sep + d + sep + e
  {
    assert [a, b, c, d, e][1..] == [b, c, d, e];
    JoinFour(b, c, d, e, sep);
  }

  lemma RingNumerals()
    ensures CanonicalText(N35) == "35" && CanonicalText(N10) == "10"
    ensures CanonicalText(N45) == "45" && CanonicalText(N15) == "15"
  {
  }

  lemma LineNumerals()
    ensures CanonicalText(N40) == "40" && CanonicalText(N20) == "20" && CanonicalText(N30) == "30"
  {
  }

  lemma RingPairs()
    ensures PairTexts(Ring(), ",") == ["35,10", "45,45", "15,40", "10,20", "35,10"]
  {
    RingNumerals();
    LineNumerals();
    PairWritten(N35, N10, "35", "10");
    PairWritten(N45, N45, "45", "45");
    PairWritten(N15, N40, "15", "40");
    PairWritten(N10, N20, "10", "20");
    var r := Ring();
    var ts := PairTexts(r, ",");
    assert ts[0] == ts[4] == "35,10" by {
      assert r[0] == r[4] == P(N35, N10);
      assert "35" + "," + "10" == "35,10";
    }
    assert ts[1] == "45,45" by {
      assert r[1] == P(N45, N45);
      assert "45" + "," + "45" == "45,45";
    }
    assert ts[2] == "15,40" by {
      assert r[2] == P(N15, N40);
      assert "15" + "," + "40" == "15,40";
    }
    assert ts[3] == "10,20" by {
      assert r[3] == P(N10, N20);
      assert "10" + "," + "20" == "10,20";
    }
  }

  lemma LinePairs()
    ensures PairTexts(Line(), ",") == ["10,40", "40,30", "20,20", "30,10"]
  {
    RingNumerals();
    LineNumerals();
    PairWritten(N10, N40, "10", "40");
    PairWritten(N40, N30, "40", "30");
    PairWritten(N20, N20, "20", "20");
    PairWritten(N30, N10, "30", "10");
    var l := Line();
    var ts := PairTexts(l, ",");
    assert ts[0] == "10,40" by {
      assert l[0] == P(N10, N40);
      assert "10" + "," + "40" == "10,40";
    }
    assert ts[1] == "40,30" by {
      assert l[1] == P(N40, N30);
      assert "40" + "," + "30" == "40,30";
    }
    assert ts[2] == "20,20" by {
      assert l[2] == P(N20, N20);
      assert "20" + "," + "20" == "20,20";
    }
    assert ts[3] == "30,10" by {
      assert l[3] == P(N30, N10);
      assert "30" + "," + "10" == "30,10";
    }
  }

  lemma RingConcat()
    ensures "35,10" + " " + "45,45" + " " + "15,40" + " " + "10,20" + " " + "35,10"
      == "35,10 45,45 15,40 10,20 35,10"
  {
  }

  lemma RingWritten()
    ensures PositionsText(Ring(), ",", " ") == "35,10 45,45 15,40 10,20 35,10"
  {
    RingPairs();
    JoinFive("35,10", "45,45", "15,40", "10,20", "35,10", " ");
    RingConcat();
  }

  lemma LineConcat()
    ensures "10,40" + " " + "40,30" + " " + "20,20" + " " + "30,10" == "10,40 40,30 20,20 30,10"
  {
  }

  lemma LineWritten()
    ensures PositionsText(Line(), ",", " ") == "10,40 40,30 20,20 30,10"
  {
    LinePairs();
    JoinFour("10,40", "40,30", "20,20", "30,10", " ");
    LineConcat();
  }

  lemma ReadRing()
    ensures ReadPositions("35,10 45,45 15,40 10,20 35,10", ",", " ") == Ring()
  {
    DefaultSeparators();
    RingWritten();
    ReadPositionsText(Ring(), ",", " ");
  }

  lemma ReadLine()
    ensures ReadPositions("10,40 40,30 20,20 30,10", ",", " ") == Line()
  {
    DefaultSeparators();
    LineWritten();
    ReadPositionsText(Line(), ",", " ");
  }

  /** `"35,10 45,45 15,40 10,20 35,10"` is the Polygon with that one ring. */
  lemma ParseRingText(t: string)
    requires t == "35,10 45,45 15,40 10,20 35,10"
    ensures ParseCoordinateString(t, ",", " ") == Object(Geometry(Polygon, PolygonValue([Ring()])))
  {
    ReadRing();
    ParseReadsThenClassifies(t, ",", " ");
    ClassifyRing();
  }

  /** `"10,40 40,30 20,20 30,10"` is neither a Point nor a ring: it comes back
      as the bare list of its positions. */
  lemma ParseLineText(t: string)
    requires t == "10,40 40,30 20,20 30,10"
    ensures ParseCoordinateString(t, ",", " ") == Coords(PositionsValue(Line()))
  {
    ReadLine();
    ParseReadsThenClassifies(t, ",", " ");
    ClassifyLine();
  }
}
