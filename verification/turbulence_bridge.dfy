/** The bridge from an SVG feTurbulence element to a turbulence filter
    (SVG 1.0, section 15.24): attribute defaults, the two enumerated
    attributes, and publication of the result under the element's `result`
    name. */
module TurbulenceBridge {
  import opened Wrappers
  import opened Geometry
  import opened JavaLang
  import opened Filters

  const ATTR_STITCH_TILES: string := "stitchTiles"
  const ATTR_TYPE: string := "type"
  const VALUE_STITCH: string := "stitch"
  const VALUE_NO_STITCH: string := "noStitch"
  const VALUE_FRACTAL_NOISE: string := "fractalNoise"
  const VALUE_TURBULENCE: string := "turbulence"

  /** The attributes the bridge reads; an absent attribute reads as "". */
  datatype Attributes = Attributes(
    baseFrequency: string,
    numOctaves: string,
    seed: string,
    stitchTiles: string,
    turbulenceType: string,
    result: string)

  /** The two numbers of a "number-optional-number" attribute, each possibly missing. */
  datatype FloatPair = FloatPair(first: Option<real>, second: Option<real>)

  /** The attribute and region converters the bridge calls and this model
      does not define: SVGUtilities.buildFloatPair, convertSVGInteger,
      convertSVGNumber, and convertFilterPrimitiveRegion (given the element
      and the default region). */
  datatype Helpers = Helpers(
    floatPair: string -> FloatPair,
    svgInteger: string -> int,
    svgNumber: string -> real,
    primitiveRegion: (string, Rect) -> Rect)

  /** baseFrequency: X defaults to 0, Y defaults to X. */
  function BaseFrequencies(pair: FloatPair): (real, real) {
    var fx := if pair.first.Some? then pair.first.value else 0.0;
    (fx, if pair.second.Some? then pair.second.value else fx)
  }

  /** numOctaves: 1 when empty. */
  function NumOctaves(h: Helpers, attr: string): int {
    if |attr| == 0 then 1 else h.svgInteger(attr)
  }

  /** seed: 0 when empty, otherwise the number cast to int. */
  function Seed(h: Helpers, attr: string): int {
    if |attr| == 0 then 0 else IntCast(h.svgNumber(attr))
  }

  /** stitchTiles: "" and "noStitch" mean false, "stitch" true, anything else is refused. */
  function StitchTiles(attr: string): (r: Result<bool, BridgeError>)
    ensures r.Success? <==> attr == "" || attr == VALUE_STITCH || attr == VALUE_NO_STITCH
    ensures r.Success? ==> (r.value <==> attr == VALUE_STITCH)
    ensures r.Failure? ==> r.error == IllegalAttributeValue(ATTR_STITCH_TILES, attr)
  {
    if |attr| == 0 then Success(false)
    else if attr == VALUE_STITCH then Success(true)
    else if attr == VALUE_NO_STITCH then Success(false)
    else Failure(IllegalAttributeValue(ATTR_STITCH_TILES, attr))
  }

  /** type: "" and "turbulence" mean false, "fractalNoise" true, anything else is refused. */
  function FractalNoise(attr: string): (r: Result<bool, BridgeError>)
    ensures r.Success? <==> attr == "" || attr == VALUE_FRACTAL_NOISE || attr == VALUE_TURBULENCE
    ensures r.Success? ==> (r.value <==> attr == VALUE_FRACTAL_NOISE)
    ensures r.Failure? ==> r.error == IllegalAttributeValue(ATTR_TYPE, attr)
  {
    if |attr| == 0 then Success(false)
    else if attr == VALUE_FRACTAL_NOISE then Success(true)
    else if attr == VALUE_TURBULENCE then Success(false)
    else Failure(IllegalAttributeValue(ATTR_TYPE, attr))
  }

  /** The configuration `create` gives the turbulence filter of `element`,
      or the error it throws; stitchTiles is checked before type. */
  function Configure(h: Helpers, element: string, attrs: Attributes, filterRegion: Rect)
    : (r: Result<TurbulenceConfig, BridgeError>)
    ensures r.Failure? <==> StitchTiles(attrs.stitchTiles).Failure? || FractalNoise(attrs.turbulenceType).Failure?
    ensures StitchTiles(attrs.stitchTiles).Failure? ==> r == Failure(IllegalAttributeValue(ATTR_STITCH_TILES, attrs.stitchTiles))
    ensures StitchTiles(attrs.stitchTiles).Success? && FractalNoise(attrs.turbulenceType).Failure? ==>
              r == Failure(IllegalAttributeValue(ATTR_TYPE, attrs.turbulenceType))
    ensures r.Success? ==>
      var pair := h.floatPair(attrs.baseFrequency);
      && r.value.region == h.primitiveRegion(element, filterRegion)
      && r.value.baseFrequencyX == (if pair.first.Some? then pair.first.value else 0.0)
      && r.value.baseFrequencyY == (if pair.second.Some? then pair.second.value else r.value.baseFrequencyX)
      && r.value.numOctaves == (if attrs.numOctaves == "" then 1 else h.svgInteger(attrs.numOctaves))
      && r.value.seed == (if attrs.seed == "" then 0 else IntCast(h.svgNumber(attrs.seed)))
      && INT_MIN <= r.value.seed <= INT_MAX
      && (r.value.stitched <==> attrs.stitchTiles == VALUE_STITCH)
      && (r.value.fractalNoise <==> attrs.turbulenceType == VALUE_FRACTAL_NOISE)
  {
    var (fx, fy) := BaseFrequencies(h.floatPair(attrs.baseFrequency));
    match StitchTiles(attrs.stitchTiles)
    case Failure(e) => Failure(e)
    case Success(stitched) =>
      match FractalNoise(attrs.turbulenceType)
      case Failure(e) => Failure(e)
      case Success(fractalNoise) =>
        Success(TurbulenceConfig(h.primitiveRegion(element, filterRegion), fx, fy,
                                 NumOctaves(h, attrs.numOctaves), Seed(h, attrs.seed),
                                 stitched, fractalNoise))
  }

  /** SVGFeTurbulenceElementBridge.create: builds the turbulence filter of
      `element` and, when its `result` name is not blank, advertises it in
      `filterMap`; on an invalid enumerated attribute it throws and leaves the
      map alone. */
  method Create(h: Helpers, element: string, attrs: Attributes, input: Filter, filterRegion: Rect,
                filterMap: NodeMap)
    returns (r: Result<Filter, BridgeError>)
    modifies filterMap
    ensures r.Success? <==> Configure(h, element, attrs, filterRegion).Success?
    ensures r.Failure? ==> r.error == Configure(h, element, attrs, filterRegion).error
                           && filterMap.entries == old(filterMap.entries)
    ensures r.Success? ==> r.value == Primitive(element, input, Turbulence(Configure(h, element, attrs, filterRegion).value))
                           && filterMap.entries == Publish(old(filterMap.entries), attrs.result, r.value)
  {
    var (baseFrequencyX, baseFrequencyY) := BaseFrequencies(h.floatPair(attrs.baseFrequency));
    var numOctaves := NumOctaves(h, attrs.numOctaves);
    var seed := Seed(h, attrs.seed);

    var stitchTiles := StitchTiles(attrs.stitchTiles);
    if stitchTiles.Failure? {
      return Failure(stitchTiles.error);
    }
    var fractalNoise := FractalNoise(attrs.turbulenceType);
    if fractalNoise.Failure? {
      return Failure(fractalNoise.error);
    }

    var region := h.primitiveRegion(element, filterRegion);
    var rable := Primitive(element, input, Turbulence(TurbulenceConfig(
      region, baseFrequencyX, baseFrequencyY, numOctaves, seed, stitchTiles.value, fractalNoise.value)));

    if !IsBlank(attrs.result) {
      filterMap.Put(attrs.result, rable);
    }
    return Success(rable);
  }
}
