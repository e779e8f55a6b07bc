/** Renderable filter values shared by the filter bridges, the errors the
    bridges raise, and the name -> filter map that primitives publish into. */
module Filters {
  import opened Geometry
  import opened JavaLang

  /** The name under which the filtered node's own rendering is advertised. */
  const SOURCE_GRAPHIC: string := "SourceGraphic"

  /** What a ConcreteTurbulenceRable is configured with. */
  datatype TurbulenceConfig = TurbulenceConfig(
    region: Rect,
    baseFrequencyX: real,
    baseFrequencyY: real,
    numOctaves: int,
    seed: int,
    stitched: bool,
    fractalNoise: bool)

  /** The image operation of a filter primitive: feTurbulence, or a primitive
      kind whose bridge is not part of this model, named by its operation. */
  datatype Operation = Turbulence(config: TurbulenceConfig) | Opaque(name: string)

  /** A renderable filter. Every primitive bridge call allocates a new Java
      object; a primitive value records the element it was built from and the
      input it was handed, so it is never equal to that input. */
  datatype Filter =
    | GraphicsNodeRable(node: nat)
    | Primitive(element: string, input: Filter, op: Operation)

  /** How many primitives separate a filter from the graphic it starts from. */
  function Depth(f: Filter): nat {
    match f
    case GraphicsNodeRable(_) => 0
    case Primitive(_, input, _) => 1 + Depth(input)
  }

  /** The exceptions the bridges throw. */
  datatype BridgeError =
    | IllegalAttributeValue(attribute: string, value: string)
    | UriMalformed(uri: string)
    | CircularDependencies(uri: string)
    | BadReference(uri: string)

  type Entries = map<string, Filter>

  /** The map after a primitive named `name` advertised `f`: a blank name
      (nothing left after trimming) publishes nothing. */
  function Publish(m: Entries, name: string, f: Filter): (r: Entries)
    ensures IsBlank(name) ==> r == m
    ensures !IsBlank(name) ==> name in r && r[name] == f
    ensures r.Keys == if IsBlank(name) then m.Keys else m.Keys + {name}
    ensures forall k :: k in m && k != name ==> r[k] == m[k]
  {
    if IsBlank(name) then m else m[name := f]
  }

  /** The java.util.Map shared by all primitives of one filter chain. */
  class NodeMap {
    var entries: Entries

    constructor ()
      ensures entries == map[]
    {
      entries := map[];
    }

    /** Map.put */
    method Put(key: string, value: Filter)
      modifies this
      ensures entries == old(entries)[key := value]
    {
      entries := entries[key := value];
    }
  }
}
