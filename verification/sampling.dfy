/** The result shape shared by every `random*` generator: a requested size,
    normalised to a positive count, and a sample handed back as the bare
    geometry when there is one and as a list when there are more. The
    `src/schemas/geojson.js` wrappers are modelled here in full; the
    `lib/geojson.js` generators build on the same pieces. */
module Sampling {
  import opened Common

  /** `size && size > 0 ? size : 1` for a size that is absent (`undefined`
      or `null`) or a whole number. */
  function EffectiveSize(size: Option<int>): (n: nat)
    ensures n >= 1
    ensures size.Some? && size.value > 0 ==> n == size.value
    ensures size.None? || size.value <= 0 ==> n == 1
  {
    if size.Some? && size.value > 0 then size.value else 1
  }

  /** What `sample.length > 1 ? sample : _.first(sample)` hands back:
      `undefined` for an empty sample, the object itself for one, the list for
      more. */
  datatype Shaped<T> = Nothing | One(item: T) | Many(items: seq<T>)

  /** The samples a shaped result holds, in order. */
  function Items<T>(r: Shaped<T>): seq<T> {
    match r
    case Nothing => []
    case One(x) => [x]
    case Many(xs) => xs
  }

  /** `sample.length > 1 ? sample : _.first(sample)`: a list exactly when more
      than one sample was drawn, the single sample itself when one was, and
      nothing is lost either way. */
  function Shape<T>(xs: seq<T>): (r: Shaped<T>)
    ensures r.Many? <==> |xs| > 1
    ensures r.One? <==> |xs| == 1
    ensures r.Nothing? <==> xs == []
    ensures Items(r) == xs
  {
    if |xs| > 1 then Many(xs) else if |xs| == 1 then One(xs[0]) else Nothing
  }

  /** `_.map(_.range(n), () => draw({ bbox }))`: the i-th call of the random
      draw is passed the caller's `bbox` unchanged and yields the i-th sample. */
  function Draws<B, T>(draw: (B, nat) -> T, bbox: B, n: nat): (xs: seq<T>)
    ensures |xs| == n
    ensures forall i :: 0 <= i < n ==> xs[i] == draw(bbox, i)
    decreases n
  {
    if n == 0 then [] else Draws(draw, bbox, n - 1) + [draw(bbox, n - 1)]
  }

  /** One of the `random*` wrappers of `src/schemas/geojson.js`
      (`randomPoint` … `randomGeometry`), given the `@lykmapipo/geo-tools`
      generator it calls as `draw`. */
  function RandomOf<B, T>(draw: (B, nat) -> T, size: Option<int>, bbox: B): (r: Shaped<T>)
    ensures |Items(r)| == EffectiveSize(size)
    ensures forall i :: 0 <= i < |Items(r)| ==> Items(r)[i] == draw(bbox, i)
    ensures r.One? <==> size.None? || size.value <= 1
    ensures r.Many? <==> size.Some? && size.value > 1
    ensures !r.Nothing?
  {
    Shape(Draws(draw, bbox, EffectiveSize(size)))
  }

  /** `randomPoint()` with no size is one bare sample, and `randomPoint(2)` a
      list of two. */
  lemma RandomOfDefaults<B, T>(draw: (B, nat) -> T, bbox: B)
    ensures RandomOf(draw, None, bbox) == One(draw(bbox, 0))
    ensures RandomOf(draw, Some(2), bbox) == Many([draw(bbox, 0), draw(bbox, 1)])
  {
    assert Items(RandomOf(draw, Some(2), bbox)) == [draw(bbox, 0), draw(bbox, 1)];
  }
}
