# mongoose-geojson-schemas: the coordinate codec and the geometry helpers

This project models the logic of `mongoose-geojson-schemas` that goes beyond
schema declarations, and proves properties of that model in Dafny.

- **The coordinate-string codec** (`src/schemas/geojson.js`).
  `parseCoordinateString` reads text such as `"35,10 45,45 15,40 10,20 35,10"`:
  - it splits the text on a pair separator and drops the empty pieces;
  - it splits each pair on a delimiter and reads every piece with lodash
    `_.toNumber`;
  - it then classifies the positions: a single position becomes a GeoJSON
    Point, a closed linear ring becomes a Polygon, and anything else comes back as
    the bare list of positions; where a turf constructor throws, the `catch`
    returns `undefined`.

  `toCoordinateString` goes the other way. It flattens any coordinates, cuts
  them into pairs, and joins the pairs with the delimiter and the separator. The
  model covers every step, and also the JavaScript string, list and number
  operations the codec relies on:
  - `split`, `join` and `_.compact`;
  - `_.toNumber` on a token;
  - `Number.prototype.toString()`.
- **The result shape of the `random*` generators** in both
  `src/schemas/geojson.js` and `lib/geojson.js`:
  - a missing, zero or negative size counts as 1;
  - one sample is handed back bare, and more than one as a list;
  - the configured default bounding box replaces the `bbox` argument;
  - the Multi* generators pair two independent samples into two-part
    geometries.
- **`isGeometry` in `lib/geojson.js`.** It combines seven `geojson-validation`
  verdicts. The model treats those verdicts as arbitrary functions, and also
  instantiates them with the rules of RFC 7946, sections 3.1.1 to 3.1.7.

The modules are:

| file | module | what it holds |
|---|---|---|
| `common.dfy` | `Common` | `Option`, flattening of nested sequences |
| `numbers.dfy` | `JsNumbers` | exact JavaScript numbers, `_.toNumber`, `Number.prototype.toString()`, their round trip |
| `strings.dfy` | `JsStrings` | `String.prototype.split`, `Array.prototype.join`, `_.compact`, and how they undo each other |
| `geojson.dfy` | `GeoJson` | coordinate arrays, geometry objects, the position and ring checks the parser applies |
| `codec.dfy` | `CoordinateCodec` | `parseCoordinateString`, `toCoordinateString` and the round trip |
| `codec_cases.dfy` | `CodecCases` | the codec on concrete texts |
| `sampling.dfy` | `Sampling` | size normalisation, the single-or-list result, the `src` wrappers |
| `lib_geojson.dfy` | `GeoJsonLib` | `isGeometry`, the bounding-box choice, the `lib` generators and the Multi* zip |

Numbers are exact decimals: `Finite(m, e)` stands for m × 10^e, next to `NaN`
and the two infinities. One value has many representations (`Finite(10, -1)`
and `Finite(1, 0)` are both 1); `Normalize` maps each to the canonical one,
with no trailing zero in m and zero as `Finite(0, 0)`. `_.toNumber` yields
canonical numbers only, `===` compares normal forms, and a number is printed
through its normal form, so every representation of a value prints alike.

The parser's position and ring checks are those of `geojson-validation`: a
position is two or more JavaScript numbers, and NaN is a number there. Two
consequences follow, and the model follows the code in both:
- `_.toNumber` does not throw on a non-numeric token; it returns `NaN`. A NaN
  among the first two numbers of a single position makes `turf.point` throw,
  and the `catch` returns `undefined`: `"x,y"` parses to `undefined`
  (`CodecCases.ParseGarbageText`). A NaN in the closing position of a ring
  makes `turf.polygon` throw in the same way.
- A NaN after the first two numbers passes both `isPosition` and `turf.point`: `"1,2,x"` parses to the
  Point `[1, 2, NaN]`, which is not valid GeoJSON (see Findings).

A non-numeric token in a list that is neither a Point nor a ring, such as
`"1,x 3,4"`, comes back as the bare list with its NaN. Non-empty text with no
pair tokens, such as a lone separator, gives `[]` in the model (see Left out).
`toCoordinateString(undefined)` reads `undefined.coordinates`, which throws a
`TypeError`; the model returns `None` there.

## Model

| member | source | states |
|---|---|---|
| CoordinateCodec.ParseCoordinateString | src/schemas/geojson.js:297-329 | The result is `undefined` exactly when the text is empty (`_.isEmpty`) or a turf constructor throws into the `catch`: a single position with a NaN among its first two numbers, or a closed ring whose closing position holds a NaN. Reading a non-numeric token never throws: `_.toNumber` yields NaN, and only turf's NaN checks turn that into `undefined`. |
| CoordinateCodec.RingAccepted | src/schemas/geojson.js:319-321 | On a ring that passed the ring check, turf's `===` comparison of the closing position fails exactly when that position holds a NaN. |
| CoordinateCodec.PolygonAccepted | src/schemas/geojson.js:319-321 | `turf.polygon([points])` on a ring that passed the ring check succeeds exactly when the closing position holds no NaN, and yields the Polygon with that one ring. |
| CoordinateCodec.ClassifyDefined | src/schemas/geojson.js:312-327 | Positions without any NaN never end in the `catch`: the result is not `undefined`. |
| CoordinateCodec.ClassifyUndefined | src/schemas/geojson.js:312-327 | The classification is `undefined` exactly where a turf constructor throws on positions the checks passed. |
| CoordinateCodec.ClassifyPoint | src/schemas/geojson.js:313-316 | The result is a Point iff there is exactly one position, it passes `isPosition`, and neither of its first two numbers is NaN; the Point's coordinates are that whole position. |
| CoordinateCodec.ClassifyPolygon | src/schemas/geojson.js:318-322 | The result is a Polygon iff the point rule fails, the positions form a closed ring of four or more, and the closing position holds no NaN; the Polygon's coordinates are `[points]`. |
| CoordinateCodec.ClassifyRaw | src/schemas/geojson.js:324-325 | The result is a bare coordinate array iff neither the point rule nor the ring check holds, and it is then exactly the parsed positions, unchanged. |
| CoordinateCodec.ParseAsPoint | src/schemas/geojson.js:305-316 | Text read as a single position whose first two numbers are not NaN parses to that Point. |
| CoordinateCodec.ReadAll | src/schemas/geojson.js:308-310 | One position per pair token, in order: position i is token i split on the delimiter and read number by number. |
| CoordinateCodec.ReadPositionsText | src/schemas/geojson.js:307-310 | Text written from canonical pairs with the separators is read back into exactly those pairs, in order. |
| CoordinateCodec.ReadPairText | src/schemas/geojson.js:309 | A pair token split on the delimiter and read with `_.toNumber` gives back the pair it was written from. |
| CoordinateCodec.Pairs | src/schemas/geojson.js:345 | `_.chunk(xs, 2)`: the chunks concatenate back to xs, there are ⌈n/2⌉ of them, each of two numbers except a last one of one when the count is odd. |
| CoordinateCodec.ToCoordinateString | src/schemas/geojson.js:339-351 | The call throws exactly on `undefined`. |
| CoordinateCodec.SameNumbersSameText | src/schemas/geojson.js:344-350 | The text depends only on the fully flattened numbers: a geometry is written like its coordinate array, and any two values with the same numbers in the same order are written alike. |
| CoordinateCodec.SplitIntoChunks | src/schemas/geojson.js:345-349 | Splitting the output on the separator gives, in order, one piece per consecutive pair of the flattened numbers, each the pair joined by the delimiter. |
| CoordinateCodec.WritePositions | src/schemas/geojson.js:344-350 | A list of two-number positions is written as its pairs, in order, delimited and separated. |
| CoordinateCodec.ClassifiedNumbers | src/schemas/geojson.js:313-325 | Whatever the parser makes of the positions, when it is not `undefined` (a Point, a Polygon or a bare list), flattens to exactly the positions' numbers, in order. |
| CoordinateCodec.WriteClassified | src/schemas/geojson.js:313-350 | NaN-free two-number positions, however they are classified, are written by `toCoordinateString` as the positions' own text. |
| CoordinateCodec.RoundTrip | src/schemas/geojson.js:297-351 | Text made of canonical numbers in pairs, separated by single separators, with delimiter and separator absent from every numeral and from each other, is written back by `toCoordinateString` exactly as it was, whether it parsed to a Point, a Polygon or a bare list. |
| CoordinateCodec.NumTextsAvoid | src/schemas/geojson.js:347 | The text of a finite number never contains a character that is not a digit, a sign, `.` or `e`. |
| JsNumbers.ToNumber | src/schemas/geojson.js:309 | `_.toNumber` on a token always yields a number in its single canonical form (never a throw). |
| JsNumbers.NumTextShape | src/schemas/geojson.js:347 | A finite number is printed as a non-empty text of digits, signs, `.` and `e` only. |
| JsNumbers.NumberRoundTrip | src/schemas/geojson.js:309 | Reading a canonical number's printed text with `_.toNumber` gives back the same number, for NaN, both infinities and every finite value. |
| JsNumbers.ReadPrinted | src/schemas/geojson.js:347 | The text written for any representation of a number reads back as that value's canonical form. |
| JsNumbers.Normalize | src/schemas/geojson.js:347 | The normal form is canonical, leaves NaN and the infinities alone, and denotes the same value: the same sign, and the mantissa scaled by the exponent's difference. |
| JsNumbers.NormalizeIdempotent | src/schemas/geojson.js:347 | Normalising twice is normalising once, and a number prints exactly as its normal form. |
| CodecCases.TrailingZeroText | src/schemas/geojson.js:347 | `Finite(10, -1)` is the value 1: its normal form is `Finite(1, 0)` and it is written `1`, never `1.0`. |
| CodecCases.WriteTrailingZero | src/schemas/geojson.js:339-351 | A list whose first number is held as `Finite(10, -1)` is written `"1,2"`, as JavaScript writes `[[1.0, 2]]`. |
| JsStrings.IndexOf | src/schemas/geojson.js:307 | The result is the first index at which the separator occurs, or -1 when it occurs nowhere. |
| JsStrings.Split | src/schemas/geojson.js:307 | A non-empty separator always yields at least one piece; an empty one yields the characters, one piece each, in order. |
| JsStrings.Compact | src/schemas/geojson.js:307 | `_.compact` keeps only non-empty pieces, never adds any, and changes nothing when none is empty. |
| JsStrings.CompactCounts | src/schemas/geojson.js:307 | `_.compact` drops only empty pieces: every non-empty piece occurs in the result exactly as often as in the input. |
| JsStrings.JoinSplit | src/schemas/geojson.js:307 | Joining the pieces of a split with the same separator gives back the text. |
| JsStrings.SplitJoin | src/schemas/geojson.js:347-349 | Splitting a join gives back the pieces, when no piece holds the separator's first character. |
| JsStrings.SplitLeading | src/schemas/geojson.js:307 | A separator at the start of the text adds no pair token. |
| JsStrings.SplitTrailing | src/schemas/geojson.js:307 | A separator at the end of the text adds no pair token. |
| JsStrings.SplitRepeated | src/schemas/geojson.js:307 | A doubled separator yields the same pair tokens as a single one. |
| JsStrings.SplitPiecesAvoidSeparator | src/schemas/geojson.js:307 | No piece of a split contains the separator. |
| JsStrings.CompactAppend | src/schemas/geojson.js:307 | `_.compact` keeps the order of the pieces: compacting a concatenation is concatenating the compacted parts. |
| GeoJson.PositionsLeaves | src/schemas/geojson.js:345 | `_.flattenDeep` of a list of positions is the positions' numbers, in order. |
| CodecCases.ParsePointText | src/schemas/geojson.js:313-316 | `"30,10"` parses to the Point `[30, 10]`. |
| CodecCases.WritePointText | src/schemas/geojson.js:339-351 | The Point parsed from `"30,10"` is written back as `"30,10"`. |
| CodecCases.ParseEmptyText | src/schemas/geojson.js:305 | The empty text (the default) is `undefined`. |
| CodecCases.ParseGarbageText | src/schemas/geojson.js:309-327 | `"x,y"` reads as `[[NaN, NaN]]`, which passes `isPosition`; `turf.point` throws on it and the `catch` returns `undefined`. |
| CodecCases.ParseNaNPoint | src/schemas/geojson.js:313-316 | `"1,2,x"` parses to the Point `[1, 2, NaN]`, which fails `isGeometry` under the RFC 7946 checks; the corrected parser gives `undefined`. |
| CodecCases.ClassifyRing | src/schemas/geojson.js:319-321 | The positions of `"35,10 45,45 15,40 10,20 35,10"` become a Polygon with that one ring. |
| CodecCases.ClassifyLine | src/schemas/geojson.js:325 | The positions of `"10,40 40,30 20,20 30,10"` (an open line) come back as they are. |
| CodecCases.ParseRingText | src/schemas/geojson.js:305-321 | The text `"35,10 45,45 15,40 10,20 35,10"` parses to the Polygon with that one ring. |
| CodecCases.ParseLineText | src/schemas/geojson.js:305-325 | The text `"10,40 40,30 20,20 30,10"` parses to the bare list of its four positions. |
| Sampling.EffectiveSize | src/schemas/geojson.js:166 | The size used is the given one when it is positive, and 1 when it is missing, zero or negative. |
| Sampling.Shape | src/schemas/geojson.js:169 | The result is a list iff more than one sample was drawn, the bare sample iff exactly one was, and it holds exactly the samples drawn, in order. |
| Sampling.Draws | src/schemas/geojson.js:168 | `_.map(_.range(n), …)` makes exactly n calls; the i-th sample is the i-th call's result, each given the caller's `bbox` unchanged. |
| Sampling.RandomOf | src/schemas/geojson.js:165-171 | A wrapper returns exactly the normalised size of samples, in draw order; a bare sample when the size is missing or at most 1, a list when it exceeds 1, never `undefined`. |
| Sampling.RandomOfDefaults | src/schemas/geojson.js:165-171 | With no size the result is one bare sample; with size 2 a list of two. |
| GeoJsonLib.Parallel | lib/geojson.js:149-185 | `async.parallel` ends in an error exactly when some task passes one; otherwise the callback gets every task's result, in the tasks' order. |
| GeoJsonLib.ChecksCollected | lib/geojson.js:150-184 | Every task of `isGeometry` calls `next(null, isValid)`, so the run never fails and each result is its own check's verdict on the value. |
| GeoJsonLib.Verdict | lib/geojson.js:185-198 | An error gives false; collected results give true exactly when the geometry-object result holds and one of the six kind results does. |
| GeoJsonLib.IsGeometry | lib/geojson.js:148-200 | Valid iff the geometry-object check holds and at least one of the Point, LineString, Polygon, MultiPoint, MultiLineString and MultiPolygon checks holds. |
| GeoJsonLib.RfcIsGeometry | lib/geojson.js:189-196 | With the RFC 7946 checks, a geometry is valid iff its coordinates fit its own `type`. |
| GeoJsonLib.ParsedGeometryIsGeometry | src/schemas/geojson.js:313-321 | A Point or Polygon classified from positions of finite numbers passes `isGeometry` under the RFC 7946 checks. |
| GeoJsonLib.ParseStrict | src/schemas/geojson.js:297-329 | The corrected parser: `undefined` exactly for the empty text or text holding a number that is not finite, otherwise the same result as the code; every geometry it returns passes `isGeometry` under the RFC 7946 checks. |
| GeoJsonLib.EffectiveBBox | lib/geojson.js:239-240 | A non-empty configured default bounding box wins; otherwise the `bbox` argument is used, `[-80, 30, -60, 60]` when it is not given. |
| GeoJsonLib.RandomSingle | lib/geojson.js:236-247 | The result holds exactly what turf sampled for the normalised size and the chosen bounding box, in order. |
| GeoJsonLib.RandomSingleShape | lib/geojson.js:237-246 | When turf returns n geometries of the asked kind, the generator returns the normalised size of geometries of its kind, bare for one and as a list for more. |
| GeoJsonLib.RandomSingleIsGeometry | lib/geojson.js:242-246 | When turf draws well-formed geometries, everything generated passes `isGeometry`. |
| GeoJsonLib.ZipParts | lib/geojson.js:270-279 | The zip throws iff the second sample is shorter than the first; otherwise there are as many results as first samples, the i-th of the given kind with coordinates `[first[i].coordinates, second[i].coordinates]`. |
| GeoJsonLib.RandomMulti | lib/geojson.js:258-282 | A Multi* generator throws iff turf's second sample is shorter than its first; otherwise it returns one two-part geometry per first sample, built from the same-index samples of both. |
| GeoJsonLib.RandomMultiShape | lib/geojson.js:258-282 | When turf returns n geometries per call, a Multi* generator never throws and returns the normalised size of geometries of its kind, each with exactly two parts, bare for one and as a list for more. |
| GeoJsonLib.RandomMultiIsGeometry | lib/geojson.js:270-279 | When turf draws well-formed parts, every MultiPoint, MultiLineString and MultiPolygon generated passes `isGeometry`. |

## Left out

- The `geojson-validation` checks are foreign code. The parser's `isPosition` and `isPolygonCoor` are modelled by the rules they check (two or more numbers, NaN and the infinities included; four or more positions with the first equivalent to the last). The library compares the two ring ends as text, which on canonical numbers is equality. `isGeometryObject` and the per-kind checks of `lib/geojson.js` are parameters, instantiated with the RFC 7946 rules, where a position holds finite numbers only.
- CoordinateCodec.ParseCoordinateString: what `isPolygonCoor` does on an empty ring (non-empty text with no pair tokens) is not part of this model: the model applies the four-position rule and returns `[]`.
- The `@turf/turf` constructors are modelled only through the guards that make them throw: fewer than two numbers or a NaN among the first two in a point, and a ring shorter than four or whose last position is not `===` to the first, number by number. Whatever else turf adds to a geometry is not modelled.
- Floating point. Numbers are exact decimals, so the rounding of `_.toNumber` and `toString` on binary doubles is not modelled. Neither is `-0`.
- `_.toNumber` on inputs that are not strings is not modelled; the codec only passes it strings.
- Strings are sequences of Unicode scalar values. JavaScript's UTF-16 indexing in `split` and `indexOf`, and lodash's splitting into whole symbols (a surrogate pair, a combining mark or a joiner sequence kept together) when the separator is empty, are not modelled.
- JsStrings.SplitTrailing: proved for one-character separators only, which covers the default `' '`.
- JsStrings.SplitRepeated: proved for one-character separators only, which covers the default `' '`.
- CoordinateCodec.RoundTrip: requires canonical numerals, exactly two numbers per pair and single separators. Texts with extra separators, non-canonical numerals (`"1.0"`) or odd pairs come back normalised, not identical.
- `centroidOf` (src/schemas/geojson.js:145-155 and lib/geojson.js:213-225) is a call into `turf.centroid` over floating-point arithmetic.
- The random draws inside turf and `@lykmapipo/geo-tools`, including staying inside the bounding box, are foreign and nondeterministic. They are parameters: `draw` in `Sampling.RandomOf` and a `Sampler` in `GeoJsonLib`. `Honest` and `Sound` state what turf is trusted to deliver.
- `getNumbers(GEOJSON_DEFAULT_BBOX)` reads the process environment. It is the `configured` parameter of `GeoJsonLib.EffectiveBBox`.
- `[].concat(bbox)` for a non-array or `null` `bbox` is not modelled; the bounding box is a list of numbers.
- Sampling.EffectiveSize: sizes that are fractional, strings or other non-integers are not modelled; a size is absent or a whole number.
- The eight `src` wrappers (`randomPoint` through `randomGeometry`) are one function, `Sampling.RandomOf`. They differ only in the `@lykmapipo/geo-tools` generator they call, which is its `draw` parameter.
- `randomPoint`, `randomLineString` and `randomPolygon` of `lib/geojson.js` are one function, `GeoJsonLib.RandomSingle`, with the kind as a parameter. The three Multi* generators are, in the same way, `GeoJsonLib.RandomMulti`.
- The `async.parallel` and callback plumbing of `isGeometry` becomes plain boolean logic.
- The six per-kind validators of `lib/geojson.js` (lines 51-137) only pass a foreign verdict on; they are the fields of `GeoJsonLib.Validators`. The eight validators of `src/schemas/geojson.js` (lines 63-134) likewise pass on verdicts of `@lykmapipo/geo-tools`; they are not modelled, and neither is the `isGeometry` among them (line 134), which calls the geo-tools check rather than the composition of `lib/geojson.js`.
- The duplicate `isGeometry` in lib/geometry.js is not part of this model.
- The mongoose schema declarations, `index.js` and `src/index.js` only declare fields and wire descriptors.
- GeometryCollection and Feature values are not part of the coordinate model.

## Findings

| source | as written | input that shows it | evidently intended | confidence | as-written member | corrected member |
|---|---|---|---|---|---|---|
| src/schemas/geojson.js:313-316 | A single position passes `isPosition` with NaN among its numbers, and `turf.point` checks only the first two, so a NaN after them is kept in the Point. | `"1,2,x"` gives the Point `[1, 2, NaN]`, which is not valid GeoJSON. | Malformed text gives `undefined` and every geometry returned is valid GeoJSON. | medium, not executed | CodecCases.ParseNaNPoint | GeoJsonLib.ParseStrict |
