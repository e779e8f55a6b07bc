# Batik filter bridges and shape node, modelled in Dafny

This project models three sequential pieces of the Batik SVG toolkit:

- **Filter-chain resolution** for the SVG `filter` element (SVG 1.0, section 15).
  `SVGFilterElementBridge` builds the primitives among a filter element's children.
  Each primitive is handed the previous one's output. The first primitive that yields
  null disables the chain. When the element has no primitives of its own, the walk
  follows `xlink:href` to another filter element and refuses a URL it has already
  visited. Module `FilterBridge`, file `filter_bridge.dfy`.
- **The `feTurbulence` bridge** (SVG 1.0, section 15.24). It applies the attribute
  defaults, checks the two enumerated attributes `stitchTiles` and `type`, configures
  the turbulence filter, and publishes it in the shared node map under its `result`
  name. Module `TurbulenceBridge`, file `turbulence_bridge.dfy`.
- **`ShapeNode`**, a scene-graph leaf with a shape, a painter and three lazily filled
  caches: primitive bounds, geometry bounds and painted area. Module `Gvt`, file
  `shape_node.dfy`.

Shared pieces:

- `filters.dfy`: filter values, bridge errors, and the node map class with its
  publication rule.
- `java_lang.dfy`: `String.trim` and Java's `(int)` cast of a float.
- `geometry.dfy`: points and rectangles, following `java.awt.geom.Rectangle2D`.
- `wrappers.dfy`: Option and Result.

Modelling choices:

- Java's null is `None`. Thrown exceptions are the `Failure` case of a `Result`.
- The filter-chain walk and the local build are imperative methods. Each is proved
  against a specification function: `LocalBuild` for the local build and `Resolve`
  for the walk. Each method's `ensures` equates its result and the node map it leaves
  with that function. The lemmas state what the source promises about those functions.
- The node map is a class whose `entries` field the bridges update in place. This
  matches the `java.util.Map` that every primitive of one chain shares.
- Java compares `newIn != in` by object identity. In the model, a built primitive
  records the element it came from and the input it was handed, so it never equals
  that input. `LocalUnchangedIff` proves the equality test then means "some child is
  a primitive", just as the identity test does.
- Helpers this model does not define are given as function-valued parameters:
  `SVGUtilities.buildFloatPair`, `convertSVGInteger`, `convertSVGNumber`,
  `convertFilterPrimitiveRegion`, and `new URL(base, uri)`. A URI that cannot be
  formed makes `new URL(base, uri)` yield None.
- `ctx.getReferencedElement` is a lookup in a document map from URLs to filter
  elements. A URL that names nothing raises `BadReference`.
- A URL is its `sameFile` part plus its fragment, so the list check `contains` is
  membership. The fragment is a string, never null.
- `ctx.getBridge` is folded into each child's `Kind`. `NotPrimitive` covers elements
  with no bridge and elements whose bridge is not a primitive bridge. `feTurbulence`
  children go to the turbulence bridge. Any other primitive kind is represented by
  the operation it yields, or null, and it publishes under its `result` name the way
  `feTurbulence` does.

## Model

| member | source | states |
|---|---|---|
| `FilterBridge.BuildLocalFilterPrimitives` | sources/org/apache/batik/bridge/SVGFilterElementBridge.java:176-212 | the sibling walk returns exactly `LocalBuild`'s result and leaves the node map exactly as `LocalBuild` says |
| `FilterBridge.LocalBuildSkips` | sources/org/apache/batik/bridge/SVGFilterElementBridge.java:185-211 | with no primitive child (only non-elements and non-primitives), the input comes back unchanged and the map is untouched |
| `FilterBridge.LocalBuildAppend` | sources/org/apache/batik/bridge/SVGFilterElementBridge.java:198-211 | outputs are threaded: each part of the children is built on the filter and the map the earlier part produced, and the last output is returned |
| `FilterBridge.LocalBuildStopsEarly` | sources/org/apache/batik/bridge/SVGFilterElementBridge.java:205-206 | once a primitive yields null (or throws), later children are never built; result and map are those at the stop |
| `FilterBridge.LocalBuildGrows` | sources/org/apache/batik/bridge/SVGFilterElementBridge.java:198-209 | every built primitive is tagged with the input it was handed, so a returned filter is strictly deeper than the input whenever a primitive child exists |
| `FilterBridge.LocalUnchangedIff` | sources/org/apache/batik/bridge/SVGFilterElementBridge.java:134-135 | the local build returns its own input if and only if no child is a filter primitive, which is what `newIn != in` decides |
| `FilterBridge.LocalBuildKeepsKeys` | sources/org/apache/batik/refimpl/bridge/SVGFeTurbulenceElementBridge.java:170-173 | publication only adds or replaces names: no name leaves the node map during a local build |
| `FilterBridge.BuildFilterPrimitives` | sources/org/apache/batik/bridge/SVGFilterElementBridge.java:117-160 | the href walk returns exactly `Resolve`'s result and map; its visited list stays free of repeats and inside the document, and that bound is its termination measure |
| `FilterBridge.DistinctBound` | sources/org/apache/batik/bridge/SVGFilterElementBridge.java:152-158 | a visited list without repeats, all of whose URLs are in the document, is no longer than the document, so the walk ends |
| `FilterBridge.ResolveLocalFirst` | sources/org/apache/batik/bridge/SVGFilterElementBridge.java:127-136 | a filter element with a primitive child is resolved by its own children alone; its href is not followed, and a null result is returned as is |
| `FilterBridge.ResolveWithoutPrimitivesOrHref` | sources/org/apache/batik/bridge/SVGFilterElementBridge.java:137-139 | no primitive children and an empty href: the original input and map come back |
| `FilterBridge.ResolveFollowsHref` | sources/org/apache/batik/bridge/SVGFilterElementBridge.java:137-158 | no primitive children and an href to an unvisited URL in the document: the result is that of the referenced filter, with the same input and map and the URL added to the visited list |
| `FilterBridge.CycleDetected` | sources/org/apache/batik/bridge/SVGFilterElementBridge.java:152-156 | two primitive-less filters whose hrefs name each other, or one naming itself, end in a circular-dependency error on the first href |
| `FilterBridge.ResolveKeepsKeys` | sources/org/apache/batik/bridge/SVGFilterElementBridge.java:125-159 | names in the shared node map, including the seeded `SourceGraphic`, stay in it across href hops |
| `FilterBridge.Contains` | sources/org/apache/batik/bridge/SVGFilterElementBridge.java:220-229 | true if and only if some listed URL has the same file and an equal fragment as the key |
| `FilterBridge.ChainFor` | sources/org/apache/batik/bridge/SVGFilterElementBridge.java:78-98 | the filter is disabled exactly when resolution yields the source graphic itself (or null); otherwise the chain's source is the resolved filter, and its resolution values are the int casts of `filterRes` |
| `FilterBridge.CreateFilter` | sources/org/apache/batik/bridge/SVGFilterElementBridge.java:61-99 | the node map is seeded with `SourceGraphic` mapped to the source graphic; the result is `ChainFor` of the resolution, and any error the resolution throws is passed on |
| `FilterBridge.ChainAsWritten` | sources/org/apache/batik/bridge/SVGFilterElementBridge.java:93-98 | as written, only the source graphic coming back disables the filter; any other value, null included, becomes the chain's source |
| `FilterBridge.AsWrittenChainsOnNull` | sources/org/apache/batik/bridge/SVGFilterElementBridge.java:93-98 | a filter whose only child is a primitive yielding null resolves to null; as written, that gives a chain whose source is null, while the corrected `ChainFor` disables the filter |
| `TurbulenceBridge.StitchTiles` | sources/org/apache/batik/refimpl/bridge/SVGFeTurbulenceElementBridge.java:106-120 | accepted if and only if the value is empty, `stitch` or `noStitch`; true exactly for `stitch`; any other value is an illegal-attribute error carrying that value |
| `TurbulenceBridge.FractalNoise` | sources/org/apache/batik/refimpl/bridge/SVGFeTurbulenceElementBridge.java:122-137 | accepted if and only if the value is empty, `fractalNoise` or `turbulence`; true exactly for `fractalNoise`; any other value is an illegal-attribute error |
| `TurbulenceBridge.Configure` | sources/org/apache/batik/refimpl/bridge/SVGFeTurbulenceElementBridge.java:74-167 | fails exactly when an enumerated attribute is invalid: with the stitchTiles error when stitchTiles is invalid, otherwise with the type error for that value; otherwise the rable carries X frequency (0 if absent), Y frequency (X if absent), octaves (1 if empty), seed (0 if empty, else the int cast), and the stitch and noise flags |
| `TurbulenceBridge.Create` | sources/org/apache/batik/refimpl/bridge/SVGFeTurbulenceElementBridge.java:66-176 | on success, returns the configured turbulence filter and publishes it under a non-blank `result`, leaving other names as they were; on failure, throws `Configure`'s error and leaves the map unchanged |
| `Filters.Publish` | sources/org/apache/batik/refimpl/bridge/SVGFeTurbulenceElementBridge.java:170-173 | the map gains `result` mapped to the filter only when `result` is non-blank after trimming; every other name keeps its entry |
| `JavaLang.BlankIff` | sources/org/apache/batik/refimpl/bridge/SVGFeTurbulenceElementBridge.java:171 | `result.trim().length() > 0` holds if and only if some character of `result` is above U+0020 |
| `JavaLang.IntCast` | sources/org/apache/batik/refimpl/bridge/SVGFeTurbulenceElementBridge.java:103 | the `(int)` cast saturates at INT_MAX and INT_MIN, rounds toward zero, and lands within 1 of its argument when in range |
| `Gvt.ShapeNode.constructor` | sources/org/apache/batik/gvt/ShapeNode.java:55 | a new node has no shape, no painter and empty caches |
| `Gvt.ShapeNode.InvalidateGeometryCache` | sources/org/apache/batik/gvt/ShapeNode.java:139-144 | empties all three caches and keeps the shape and the painter |
| `Gvt.ShapeNode.SetShape` | sources/org/apache/batik/gvt/ShapeNode.java:66-72 | empties all caches, stores the shape, and gives it to a non-null painter; the node invariant is kept |
| `Gvt.ShapeNode.SetShapePainter` | sources/org/apache/batik/gvt/ShapeNode.java:87-93 | empties all caches and stores the painter; a non-null painter then holds the node's shape, and it is left untouched if it already held that very shape |
| `Gvt.ShapeNode.GetPrimitiveBounds` | sources/org/apache/batik/gvt/ShapeNode.java:182-198 | a filled cache is returned without change; without a shape or a painter, nothing is returned or cached; uninterrupted, the bounds of the current painted area are returned and cached with that area; interrupted, every cache is emptied and nothing is returned; bounds are never stale |
| `Gvt.ShapeNode.GetGeometryBounds` | sources/org/apache/batik/gvt/ShapeNode.java:205-213 | none without a shape; otherwise the current shape's bounds, which stay cached |
| `Gvt.ShapeNode.Contains` | sources/org/apache/batik/gvt/ShapeNode.java:152-161 | false when the bounds are null, no painted area is cached, or there is no painter; otherwise the point must be in both the bounds and the current painted area |
| `Gvt.ShapeNode.Intersects` | sources/org/apache/batik/gvt/ShapeNode.java:169-177 | the same as `Contains`, for a rectangle |
| `Gvt.ShapeNode.GetOutline` | sources/org/apache/batik/gvt/ShapeNode.java:218-220 | returns the raw shape, not the painted area |

`Gvt.ShapeNode.Valid` is the node invariant the methods keep:

- A painter holds the node's shape.
- The painted area and the primitive bounds are filled together or not at all.
- A filled painted area is the painter's current painted area.
- Filled primitive bounds are the bounds of that area.
- Filled geometry bounds are the bounds of the current shape.

## Findings

| source | as written | input that shows it | evidently intended | confidence | as-written member | corrected member |
|---|---|---|---|---|---|---|
| sources/org/apache/batik/bridge/SVGFilterElementBridge.java:93-98 | `createFilter` tests only `in == sourceGraphic`, so a null from `buildFilterPrimitives` reaches `filterChain.setSource(null)` and a chain with a null source is returned | a filter whose only child is a primitive whose bridge returns null (line 206: "disable the filter if a primitive is null") | a null resolution disables the filter: `createFilter` returns null | medium, not executed | `FilterBridge.ChainAsWritten`, `FilterBridge.AsWrittenChainsOnNull` | `FilterBridge.ChainFor` (used by `FilterBridge.CreateFilter`) |

## Left out

- Painting: `paint`, `primitivePaint`, `Graphics2D`, and the superclass's `paint`. These are graphics output.
- The unseen `AbstractGraphicsNode` code: `getBounds` and `super.invalidateGeometryCache`.
- Gvt.ShapeNode.Contains: the result of `getBounds()` is a parameter. The model does not capture any caches that `getBounds` may fill before the test.
- Gvt.ShapeNode.Intersects: as for `Contains`, any caches filled by `getBounds()` are not modelled.
- Thread interruption: it is a boolean parameter of `GetPrimitiveBounds`.
- Aliasing of painters: `Valid` holds per node. A painter shared by two nodes is updated by `SetShape` on either node, and this can break the other node's invariant.
- `getShape` and `getShapePainter`: these are plain field reads. The fields are visible in the model.
- Float parsing and geometry: `buildFloatPair`, `convertSVGInteger`, `convertSVGNumber`, `convertFilterRes`, `convertFilterChainRegion` and `convertFilterPrimitiveRegion` are parameters or given values. Floats are reals, so rounding, NaN and infinities are not modelled.
- CSS and unit processing: `getComputedStyle` and `DefaultUnitProcessorContext` are not modelled. Their only use is folded into the region parameter.
- The noise algorithm of `ConcreteTurbulenceRable` and the internals of `FilterChainRable8Bit` are not part of this model.
- Other primitive bridges are not part of this model. Their output, including what they read from the node map, is given with the child.
- Both `update` methods are not modelled. One throws "Not implemented" and the other is an empty stub.
- Java's `getRef()` may return null for a URL without a fragment, which would throw a NullPointerException in `contains`. Here the fragment is always a string.
- `getReferencedElement` is unseen. Its failure is modelled as the `BadReference` error.
- The turbulence bridge shown implements the older `FilterBridge.create(filteredNode, context, element, filteredElement, in, region, map)` interface. Here it is called as the primitive bridge for `feTurbulence` children, with its arguments in that order.
