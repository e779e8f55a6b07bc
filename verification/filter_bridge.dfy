/** The bridge for the SVG `filter` element (SVG 1.0, section 15): builds the
    chain of filter primitives a filter element defines, either among its own
    children or, when it has none, on the filter its `xlink:href` names. */
module FilterBridge {
  import opened Wrappers
  import opened Geometry
  import opened JavaLang
  import opened Filters
  import TurbulenceBridge

  /** A resolved URL: `file` is everything URL.sameFile compares, `fragment` the reference. */
  datatype Url = Url(file: string, fragment: string)

  /** What the bridge registered for an element's tag makes of it. Elements
      without a bridge and elements whose bridge is not a primitive bridge are
      both NotPrimitive. A primitive kind whose bridge is not part of this
      model yields the operation it names, or null. */
  datatype Kind =
    | NotPrimitive
    | FeTurbulence(attrs: TurbulenceBridge.Attributes)
    | OtherPrimitive(op: Option<string>, result: string)

  /** A child node of a filter element. */
  datatype Child = NonElement | Element(id: string, kind: Kind)

  /** A filter element: the document it lives in, its children in document
      order, and its `xlink:href` ("" when absent). */
  datatype FilterElement = FilterElement(file: string, children: seq<Child>, href: string)

  /** The elements an `xlink:href` can reach, by their URL. */
  type Document = map<Url, FilterElement>

  /** The services of the bridge context this model does not define: the
      turbulence bridge's converters and `new URL(base, uri)`, which yields
      None when the URI is malformed. */
  datatype Context = Context(
    helpers: TurbulenceBridge.Helpers,
    resolveUri: (string, string) -> Option<Url>)

  /** What a build returns (a filter, null, or a thrown error) together with
      the shared node map as the build leaves it. */
  datatype Outcome = Outcome(result: Result<Option<Filter>, BridgeError>, entries: Entries)

  /** The filter chain object createFilter returns. */
  datatype Chain = Chain(source: Option<Filter>, region: Rect, resolutionX: int, resolutionY: int)

  predicate IsPrimitive(c: Child) {
    c.Element? && !c.kind.NotPrimitive?
  }

  predicate HasPrimitive(cs: seq<Child>) {
    exists i :: 0 <= i < |cs| && IsPrimitive(cs[i])
  }

  /** One primitive bridge call with input `input`. */
  function BuildPrimitive(ctx: Context, c: Child, input: Filter, region: Rect, m: Entries): Outcome
    requires IsPrimitive(c)
  {
    match c.kind
    case FeTurbulence(attrs) =>
      (match TurbulenceBridge.Configure(ctx.helpers, c.id, attrs, region)
       case Failure(e) => Outcome(Failure(e), m)
       case Success(config) =>
         var f := Primitive(c.id, input, Turbulence(config));
         Outcome(Success(Some(f)), Publish(m, attrs.result, f)))
    case OtherPrimitive(op, name) =>
      if op.None? then Outcome(Success(None), m)
      else
        var f := Primitive(c.id, input, Opaque(op.value));
        Outcome(Success(Some(f)), Publish(m, name, f))
  }

  /** The local build: each primitive child, in document order, is built on
      the previous one's output; other children are skipped; the first null
      or error ends the build. */
  function LocalBuild(ctx: Context, cs: seq<Child>, input: Filter, region: Rect, m: Entries): Outcome
    decreases |cs|
  {
    if cs == [] then Outcome(Success(Some(input)), m)
    else if !IsPrimitive(cs[0]) then LocalBuild(ctx, cs[1..], input, region, m)
    else
      var step := BuildPrimitive(ctx, cs[0], input, region, m);
      if step.result.Success? && step.result.value.Some? then
        LocalBuild(ctx, cs[1..], step.result.value.value, region, step.entries)
      else step
  }

  /** Without primitive children the local build hands its input back and
      leaves the map alone. */
  lemma {:induction false} LocalBuildSkips(ctx: Context, cs: seq<Child>, input: Filter, region: Rect, m: Entries)
    requires !HasPrimitive(cs)
    ensures LocalBuild(ctx, cs, input, region, m) == Outcome(Success(Some(input)), m)
  {
    if cs != [] {
      assert !IsPrimitive(cs[0]);
      assert !HasPrimitive(cs[1..]) by {
        forall i | 0 <= i < |cs| - 1 ensures !IsPrimitive(cs[1..][i]) {
          assert cs[1..][i] == cs[i + 1];
        }
      }
      LocalBuildSkips(ctx, cs[1..], input, region, m);
    }
  }

  /** Every built primitive wraps the filter it was handed, so a filter the
      local build returns is at least as deep as its input, and strictly
      deeper when some child is a primitive. */
  lemma {:induction false} LocalBuildGrows(ctx: Context, cs: seq<Child>, input: Filter, region: Rect, m: Entries)
    ensures var o := LocalBuild(ctx, cs, input, region, m);
            o.result.Success? && o.result.value.Some? ==>
              && Depth(o.result.value.value) >= Depth(input)
              && (HasPrimitive(cs) ==> Depth(o.result.value.value) > Depth(input))
  {
    if cs != [] {
      if !IsPrimitive(cs[0]) {
        LocalBuildGrows(ctx, cs[1..], input, region, m);
        if HasPrimitive(cs) {
          var i :| 0 <= i < |cs| && IsPrimitive(cs[i]);
          assert cs[1..][i - 1] == cs[i];
        }
      } else {
        var step := BuildPrimitive(ctx, cs[0], input, region, m);
        if step.result.Success? && step.result.value.Some? {
          assert Depth(step.result.value.value) == Depth(input) + 1;
          LocalBuildGrows(ctx, cs[1..], step.result.value.value, region, step.entries);
        }
      }
    }
  }

  /** The local build returns its own input exactly when no child is a
      filter primitive; otherwise it returns a new filter, null or an error.
      This is what the identity test `newIn != in` decides. */
  lemma LocalUnchangedIff(ctx: Context, cs: seq<Child>, input: Filter, region: Rect, m: Entries)
    ensures LocalBuild(ctx, cs, input, region, m).result == Success(Some(input)) <==> !HasPrimitive(cs)
  {
    if HasPrimitive(cs) {
      LocalBuildGrows(ctx, cs, input, region, m);
    } else {
      LocalBuildSkips(ctx, cs, input, region, m);
    }
  }

  /** Outputs are threaded: building `cs1 + cs2` builds `cs1`, then builds
      `cs2` on the filter and the map `cs1` produced; a null or an error from
      `cs1` is the result of the whole. */
  lemma {:induction false} LocalBuildAppend(ctx: Context, cs1: seq<Child>, cs2: seq<Child>, input: Filter,
                                            region: Rect, m: Entries)
    ensures LocalBuild(ctx, cs1 + cs2, input, region, m) ==
            var o := LocalBuild(ctx, cs1, input, region, m);
            if o.result.Success? && o.result.value.Some? then LocalBuild(ctx, cs2, o.result.value.value, region, o.entries)
            else o
  {
    if cs1 == [] {
      assert cs1 + cs2 == cs2;
    } else {
      assert (cs1 + cs2)[0] == cs1[0];
      assert (cs1 + cs2)[1..] == cs1[1..] + cs2;
      if !IsPrimitive(cs1[0]) {
        LocalBuildAppend(ctx, cs1[1..], cs2, input, region, m);
      } else {
        var step := BuildPrimitive(ctx, cs1[0], input, region, m);
        if step.result.Success? && step.result.value.Some? {
          LocalBuildAppend(ctx, cs1[1..], cs2, step.result.value.value, region, step.entries);
        }
      }
    }
  }

  /** Once a primitive has yielded null (or thrown), nothing after it is
      built: whatever follows, the result and the map are those of the
      prefix. */
  lemma LocalBuildStopsEarly(ctx: Context, cs1: seq<Child>, cs2: seq<Child>, input: Filter, region: Rect, m: Entries)
    requires LocalBuild(ctx, cs1, input, region, m).result == Success(None)
             || LocalBuild(ctx, cs1, input, region, m).result.Failure?
    ensures LocalBuild(ctx, cs1 + cs2, input, region, m) == LocalBuild(ctx, cs1, input, region, m)
  {
    LocalBuildAppend(ctx, cs1, cs2, input, region, m);
  }

  /** Publication only ever adds or replaces names: every name in the map
      before the local build is still there after it. */
  lemma {:induction false} LocalBuildKeepsKeys(ctx: Context, cs: seq<Child>, input: Filter, region: Rect, m: Entries)
    ensures m.Keys <= LocalBuild(ctx, cs, input, region, m).entries.Keys
  {
    if cs != [] {
      if !IsPrimitive(cs[0]) {
        LocalBuildKeepsKeys(ctx, cs[1..], input, region, m);
      } else {
        var step := BuildPrimitive(ctx, cs[0], input, region, m);
        if step.result.Success? && step.result.value.Some? {
          LocalBuildKeepsKeys(ctx, cs[1..], step.result.value.value, region, step.entries);
        }
      }
    }
  }

  /** No URL occurs twice. */
  predicate Distinct(refs: seq<Url>) {
    forall i, j :: 0 <= i < j < |refs| ==> refs[i] != refs[j]
  }

  /** URLs that are all distinct and all in `keys` are no more than `keys`. */
  lemma {:induction false} DistinctBound(refs: seq<Url>, keys: set<Url>)
    requires Distinct(refs)
    requires forall u :: u in refs ==> u in keys
    ensures |refs| <= |keys|
  {
    if refs != [] {
      var n := |refs| - 1;
      var last := refs[n];
      forall u | u in refs[..n] ensures u in keys - {last} {
        var i :| 0 <= i < n && refs[i] == u;
      }
      DistinctBound(refs[..n], keys - {last});
    }
  }

  /** The whole resolution: the local build of `el`; when it built nothing,
      the filter `el`'s href names, unless the href is absent, malformed,
      already visited, or names nothing. `refs` are the URLs visited so far. */
  function Resolve(ctx: Context, doc: Document, el: FilterElement, region: Rect, input: Filter,
                   m: Entries, refs: seq<Url>): Outcome
    requires Distinct(refs) && forall u :: u in refs ==> u in doc
    decreases |doc.Keys| - |refs|
  {
    var local := LocalBuild(ctx, el.children, input, region, m);
    if local.result != Success(Some(input)) then local
    else if |el.href| == 0 then Outcome(Success(Some(input)), local.entries)
    else match ctx.resolveUri(el.file, el.href)
      case None => Outcome(Failure(UriMalformed(el.href)), local.entries)
      case Some(url) =>
        if url in refs then Outcome(Failure(CircularDependencies(el.href)), local.entries)
        else if url !in doc then Outcome(Failure(BadReference(el.href)), local.entries)
        else
          DistinctBound(refs + [url], doc.Keys);
          Resolve(ctx, doc, doc[url], region, input, local.entries, refs + [url])
  }

  /** A filter element with a primitive child is resolved by its own
      children alone: its href is never followed. */
  lemma ResolveLocalFirst(ctx: Context, doc: Document, el: FilterElement, region: Rect, input: Filter,
                          m: Entries, refs: seq<Url>)
    requires Distinct(refs) && forall u :: u in refs ==> u in doc
    requires HasPrimitive(el.children)
    ensures Resolve(ctx, doc, el, region, input, m, refs) == LocalBuild(ctx, el.children, input, region, m)
  {
    LocalUnchangedIff(ctx, el.children, input, region, m);
  }

  /** No primitive children and no href: the input comes back unchanged and
      so does the map. */
  lemma ResolveWithoutPrimitivesOrHref(ctx: Context, doc: Document, el: FilterElement, region: Rect,
                                       input: Filter, m: Entries, refs: seq<Url>)
    requires Distinct(refs) && forall u :: u in refs ==> u in doc
    requires !HasPrimitive(el.children) && el.href == ""
    ensures Resolve(ctx, doc, el, region, input, m, refs) == Outcome(Success(Some(input)), m)
  {
    LocalBuildSkips(ctx, el.children, input, region, m);
  }

  /** No primitive children and an href to a new URL in the document: the
      resolution is that of the referenced filter, with the same input and
      the same map, and the URL added to the visited ones. */
  lemma ResolveFollowsHref(ctx: Context, doc: Document, el: FilterElement, region: Rect, input: Filter,
                           m: Entries, refs: seq<Url>, url: Url)
    requires Distinct(refs) && forall u :: u in refs ==> u in doc
    requires !HasPrimitive(el.children) && el.href != ""
    requires ctx.resolveUri(el.file, el.href) == Some(url) && url !in refs && url in doc
    ensures Distinct(refs + [url]) && forall u :: u in refs + [url] ==> u in doc
    ensures Resolve(ctx, doc, el, region, input, m, refs)
         == Resolve(ctx, doc, doc[url], region, input, m, refs + [url])
  {
    LocalBuildSkips(ctx, el.children, input, region, m);
  }

  /** Two filters without primitives whose hrefs name each other (or one
      naming itself, a == b) are reported as a circular dependency on the
      first filter's href, instead of being followed forever. */
  lemma CycleDetected(ctx: Context, doc: Document, a: Url, b: Url, region: Rect, input: Filter, m: Entries)
    requires a in doc && b in doc
    requires !HasPrimitive(doc[a].children) && !HasPrimitive(doc[b].children)
    requires doc[a].href != "" && doc[b].href != ""
    requires ctx.resolveUri(doc[a].file, doc[a].href) == Some(b)
    requires ctx.resolveUri(doc[b].file, doc[b].href) == Some(a)
    ensures Resolve(ctx, doc, doc[a], region, input, m, []).result == Failure(CircularDependencies(doc[a].href))
  {
    ResolveFollowsHref(ctx, doc, doc[a], region, input, m, [], b);
    if a == b {
      LocalBuildSkips(ctx, doc[a].children, input, region, m);
    } else {
      ResolveFollowsHref(ctx, doc, doc[b], region, input, m, [b], a);
      LocalBuildSkips(ctx, doc[a].children, input, region, m);
      assert b in [b, a];
    }
  }

  /** Names published into the node map stay there for the rest of the
      resolution, across href hops: in particular the seeded source graphic
      remains reachable under its name. */
  lemma {:induction false} ResolveKeepsKeys(ctx: Context, doc: Document, el: FilterElement, region: Rect,
                                            input: Filter, m: Entries, refs: seq<Url>)
    requires Distinct(refs) && forall u :: u in refs ==> u in doc
    ensures m.Keys <= Resolve(ctx, doc, el, region, input, m, refs).entries.Keys
    decreases |doc.Keys| - |refs|
  {
    LocalBuildKeepsKeys(ctx, el.children, input, region, m);
    var local := LocalBuild(ctx, el.children, input, region, m);
    if local.result == Success(Some(input)) && |el.href| != 0 {
      var url := ctx.resolveUri(el.file, el.href);
      if url.Some? && url.value !in refs && url.value in doc {
        DistinctBound(refs + [url.value], doc.Keys);
        ResolveKeepsKeys(ctx, doc, doc[url.value], region, input, local.entries, refs + [url.value]);
      }
    }
  }

  /** The filter createFilter returns for the resolved input `input`: none
      (the filter is disabled) when resolution yielded null or only the
      source graphic back, otherwise a chain on the resolved filter. */
  function ChainFor(sourceGraphic: Filter, input: Option<Filter>, region: Rect, filterRes: (real, real))
    : (c: Option<Chain>)
    ensures c.None? <==> input.None? || input == Some(sourceGraphic)
    ensures c.Some? ==> c.value.source == input && c.value.region == region
    ensures c.Some? ==> c.value.resolutionX == IntCast(filterRes.0) && c.value.resolutionY == IntCast(filterRes.1)
    ensures c.Some? ==> INT_MIN <= c.value.resolutionX <= INT_MAX && INT_MIN <= c.value.resolutionY <= INT_MAX
  {
    if input.None? || input == Some(sourceGraphic) then None
    else Some(Chain(input, region, IntCast(filterRes.0), IntCast(filterRes.1)))
  }

  /** createFilter's decision as written: only the source graphic coming back
      disables the filter; a null from a primitive becomes a chain on null. */
  function ChainAsWritten(sourceGraphic: Filter, input: Option<Filter>, region: Rect, filterRes: (real, real))
    : (c: Option<Chain>)
    ensures c.None? <==> input == Some(sourceGraphic)
    ensures c.Some? ==> c.value.source == input && c.value.region == region
    ensures c.Some? ==> c.value.resolutionX == IntCast(filterRes.0) && c.value.resolutionY == IntCast(filterRes.1)
  {
    if input == Some(sourceGraphic) then None
    else Some(Chain(input, region, IntCast(filterRes.0), IntCast(filterRes.1)))
  }

  /** As written, a filter whose only child is a primitive that yields null
      is not disabled: resolution returns null, and createFilter's decision
      turns that into a chain whose source is null. The corrected decision
      disables the filter. */
  lemma AsWrittenChainsOnNull(ctx: Context, doc: Document, file: string, id: string, name: string,
                              href: string, region: Rect, sourceGraphic: Filter, filterRes: (real, real))
    ensures var el := FilterElement(file, [Element(id, OtherPrimitive(None, name))], href);
            var o := Resolve(ctx, doc, el, region, sourceGraphic, map[SOURCE_GRAPHIC := sourceGraphic], []);
            && o.result == Success(None)
            && ChainAsWritten(sourceGraphic, o.result.value, region, filterRes).Some?
            && ChainAsWritten(sourceGraphic, o.result.value, region, filterRes).value.source.None?
            && ChainFor(sourceGraphic, o.result.value, region, filterRes).None?
  {
    var el := FilterElement(file, [Element(id, OtherPrimitive(None, name))], href);
    assert IsPrimitive(el.children[0]);
    ResolveLocalFirst(ctx, doc, el, region, sourceGraphic, map[SOURCE_GRAPHIC := sourceGraphic], []);
  }

  /** The `contains` list check: some visited URL is the same file and has an
      equal fragment. */
  method Contains(urls: seq<Url>, key: Url) returns (found: bool)
    ensures found <==> key in urls
  {
    var i := 0;
    while i < |urls|
      invariant 0 <= i <= |urls|
      invariant key !in urls[..i]
    {
      var url := urls[i];
      if url.file == key.file && url.fragment == key.fragment {
        return true;
      }
      i := i + 1;
    }
    return false;
  }

  /** buildLocalFilterPrimitives */
  method BuildLocalFilterPrimitives(ctx: Context, el: FilterElement, region: Rect, input: Filter,
                                    nodeMap: NodeMap)
    returns (r: Result<Option<Filter>, BridgeError>)
    modifies nodeMap
    ensures Outcome(r, nodeMap.entries) == LocalBuild(ctx, el.children, input, region, old(nodeMap.entries))
  {
    var cs := el.children;
    var current := input;
    var i := 0;
    while i < |cs|
      invariant 0 <= i <= |cs|
      invariant LocalBuild(ctx, cs[i..], current, region, nodeMap.entries)
             == LocalBuild(ctx, cs, input, region, old(nodeMap.entries))
    {
      assert cs[i..][1..] == cs[i + 1..];
      var c := cs[i];
      if IsPrimitive(c) {
        match c.kind {
          case FeTurbulence(attrs) =>
            var t := TurbulenceBridge.Create(ctx.helpers, c.id, attrs, current, region, nodeMap);
            if t.Failure? {
              return Failure(t.error);
            }
            current := t.value;
          case OtherPrimitive(op, name) =>
            if op.None? {
              return Success(None);
            }
            var f := Primitive(c.id, current, Opaque(op.value));
            if !IsBlank(name) {
              nodeMap.Put(name, f);
            }
            current := f;
        }
      }
      i := i + 1;
    }
    return Success(Some(current));
  }

  /** buildFilterPrimitives */
  method BuildFilterPrimitives(ctx: Context, doc: Document, el: FilterElement, region: Rect, input: Filter,
                               nodeMap: NodeMap)
    returns (r: Result<Option<Filter>, BridgeError>)
    modifies nodeMap
    ensures Outcome(r, nodeMap.entries) == Resolve(ctx, doc, el, region, input, old(nodeMap.entries), [])
  {
    var refs: seq<Url> := [];
    var filterElement := el;
    while true
      invariant Distinct(refs) && forall u :: u in refs ==> u in doc
      invariant Resolve(ctx, doc, filterElement, region, input, nodeMap.entries, refs)
             == Resolve(ctx, doc, el, region, input, old(nodeMap.entries), [])
      decreases |doc.Keys| - |refs|
    {
      var newIn := BuildLocalFilterPrimitives(ctx, filterElement, region, input, nodeMap);
      if newIn != Success(Some(input)) {
        return newIn;
      }
      var uri := filterElement.href;
      if |uri| == 0 {
        return Success(Some(input));
      }
      var url := ctx.resolveUri(filterElement.file, uri);
      if url.None? {
        return Failure(UriMalformed(uri));
      }
      var seen := Contains(refs, url.value);
      if seen {
        return Failure(CircularDependencies(uri));
      }
      if url.value !in doc {
        return Failure(BadReference(uri));
      }
      DistinctBound(refs + [url.value], doc.Keys);
      refs := refs + [url.value];
      filterElement := doc[url.value];
    }
  }

  /** createFilter: seeds the node map with the source graphic under
      "SourceGraphic", resolves the chain, and disables the filter when the
      resolution built nothing or a primitive yielded null. */
  method CreateFilter(ctx: Context, doc: Document, el: FilterElement, region: Rect, sourceGraphic: Filter,
                      filterRes: (real, real))
    returns (r: Result<Option<Chain>, BridgeError>)
    ensures var o := Resolve(ctx, doc, el, region, sourceGraphic, map[SOURCE_GRAPHIC := sourceGraphic], []);
            && (r.Failure? <==> o.result.Failure?)
            && (r.Failure? ==> r.error == o.result.error)
            && (r.Success? ==> r.value == ChainFor(sourceGraphic, o.result.value, region, filterRes))
  {
    var nodeMap := new NodeMap();
    nodeMap.Put(SOURCE_GRAPHIC, sourceGraphic);
    var resolved := BuildFilterPrimitives(ctx, doc, el, region, sourceGraphic, nodeMap);
    if resolved.Failure? {
      return Failure(resolved.error);
    }
    return Success(ChainFor(sourceGraphic, resolved.value, region, filterRes));
  }
}
