/** A leaf of the graphics tree that paints one shape, with its lazily
    filled bounds caches. */
module Gvt {
  import opened Wrappers
  import opened Geometry

  /** A java.awt.Shape: immutable, compared by identity, with its bounding
      box and its point and rectangle tests. */
  class Shape {
    const bounds2D: Rect
    const containsPoint: Point -> bool
    const intersectsRect: Rect -> bool

    constructor (bounds2D: Rect, containsPoint: Point -> bool, intersectsRect: Rect -> bool)
      ensures this.bounds2D == bounds2D
      ensures this.containsPoint == containsPoint && this.intersectsRect == intersectsRect
    {
      this.bounds2D := bounds2D;
      this.containsPoint := containsPoint;
      this.intersectsRect := intersectsRect;
    }
  }

  /** A ShapePainter: holds a shape and, from it, the area its painting
      covers (`stroke` turns the shape into that area: the shape itself for a
      fill, its stroked outline for a stroke). */
  class ShapePainter {
    var shape: Shape?
    const stroke: Shape -> Shape

    constructor (stroke: Shape -> Shape)
      ensures shape == null && this.stroke == stroke
    {
      shape := null;
      this.stroke := stroke;
    }

    function PaintedArea(): Shape?
      reads this
    {
      if shape == null then null else stroke(shape)
    }

    method SetShape(s: Shape?)
      modifies this
      ensures shape == s
    {
      shape := s;
    }

    method GetPaintedArea() returns (a: Shape?)
      ensures a == PaintedArea()
    {
      a := PaintedArea();
    }
  }

  class ShapeNode {
    var shape: Shape?
    var shapePainter: ShapePainter?
    var primitiveBounds: Option<Rect>
    var geometryBounds: Option<Rect>
    var paintedArea: Shape?

    /** The painter paints the node's shape, and every cache that is filled
        holds what it would be computed as now: none is ever stale. The
        painted area and the primitive bounds are filled together or not at
        all. */
    ghost predicate Valid()
      reads this, shapePainter
    {
      && (shapePainter != null ==> shapePainter.shape == shape)
      && (paintedArea != null <==> primitiveBounds.Some?)
      && (paintedArea != null ==>
            shape != null && shapePainter != null && paintedArea == shapePainter.PaintedArea())
      && (primitiveBounds.Some? ==> paintedArea != null && primitiveBounds.value == paintedArea.bounds2D)
      && (geometryBounds.Some? ==> shape != null && geometryBounds.value == shape.bounds2D)
    }

    /** The bounds of the painted area of the current shape, if there is one. */
    ghost function CurrentPrimitiveBounds(): Option<Rect>
      reads this, shapePainter
    {
      if shape == null || shapePainter == null || shapePainter.PaintedArea() == null then None
      else Some(shapePainter.PaintedArea().bounds2D)
    }

    predicate CachesEmpty()
      reads this
    {
      primitiveBounds.None? && geometryBounds.None? && paintedArea == null
    }

    constructor ()
      ensures Valid()
      ensures shape == null && shapePainter == null && CachesEmpty()
    {
      shape := null;
      shapePainter := null;
      primitiveBounds := None;
      geometryBounds := None;
      paintedArea := null;
    }

    /** invalidateGeometryCache */
    method InvalidateGeometryCache()
      modifies this
      ensures CachesEmpty()
      ensures shape == old(shape) && shapePainter == old(shapePainter)
    {
      primitiveBounds := None;
      geometryBounds := None;
      paintedArea := null;
    }

    /** setShape: the caches are emptied and a painter, if any, is given the new shape. */
    method SetShape(newShape: Shape?)
      requires Valid()
      modifies this, shapePainter
      ensures Valid()
      ensures shape == newShape && shapePainter == old(shapePainter) && CachesEmpty()
      ensures shapePainter != null ==> shapePainter.shape == newShape
    {
      InvalidateGeometryCache();
      shape := newShape;
      if shapePainter != null {
        shapePainter.SetShape(newShape);
      }
    }

    /** setShapePainter: the caches are emptied and the new painter is given
        the node's shape unless it already holds that very shape. */
    method SetShapePainter(newShapePainter: ShapePainter?)
      requires Valid()
      modifies this, newShapePainter
      ensures Valid()
      ensures shapePainter == newShapePainter && shape == old(shape) && CachesEmpty()
      ensures newShapePainter != null ==> newShapePainter.shape == shape
      ensures newShapePainter != null && old(newShapePainter.shape) == old(shape) ==> unchanged(newShapePainter)
    {
      InvalidateGeometryCache();
      shapePainter := newShapePainter;
      if shapePainter != null && shape != shapePainter.shape {
        shapePainter.SetShape(shape);
      }
    }

    /** getPrimitiveBounds: a filled cache is answered from; otherwise, with a
        shape and a painter, the painted area and its bounds are computed and
        cached, unless the computation was interrupted, in which case every
        cache is emptied and the answer is none. */
    method GetPrimitiveBounds(interrupted: bool) returns (r: Option<Rect>)
      requires Valid()
      modifies this
      ensures Valid()
      ensures shape == old(shape) && shapePainter == old(shapePainter)
      ensures r == primitiveBounds
      ensures r.Some? ==> r == CurrentPrimitiveBounds()
      ensures old(primitiveBounds).Some? ==> r == old(primitiveBounds) && unchanged(this)
      ensures shape == null || shapePainter == null ==> r.None? && unchanged(this)
      ensures old(primitiveBounds).None? && !interrupted ==> r == CurrentPrimitiveBounds()
      ensures old(primitiveBounds).None? && interrupted ==> r.None?
      ensures old(primitiveBounds).None? && interrupted && shape != null && shapePainter != null ==> CachesEmpty()
      ensures !(old(primitiveBounds).None? && interrupted) ==> geometryBounds == old(geometryBounds)
    {
      if primitiveBounds.None? {
        if shape == null || shapePainter == null {
          return None;
        }
        paintedArea := shapePainter.GetPaintedArea();
        primitiveBounds := Some(paintedArea.bounds2D);
        if interrupted {
          InvalidateGeometryCache();
        }
      }
      return primitiveBounds;
    }

    /** getGeometryBounds: the bounds of the raw shape, cached once computed. */
    method GetGeometryBounds() returns (r: Option<Rect>)
      requires Valid()
      modifies this
      ensures Valid()
      ensures shape == old(shape) && shapePainter == old(shapePainter)
      ensures r == (if shape == null then None else Some(shape.bounds2D))
      ensures geometryBounds == r
      ensures primitiveBounds == old(primitiveBounds) && paintedArea == old(paintedArea)
    {
      if geometryBounds.None? {
        if shape == null {
          return None;
        }
        geometryBounds := Some(shape.bounds2D);
      }
      return geometryBounds;
    }

    /** contains: `bounds` is what the node's overall bounds came out as.
        A point is in the node only if it is in those bounds and in the
        cached painted area; with no bounds, no cached area or no painter,
        nothing is. */
    method Contains(p: Point, bounds: Option<Rect>) returns (r: bool)
      requires Valid()
      ensures r <==> bounds.Some? && bounds.value.Contains(p) && paintedArea != null && paintedArea.containsPoint(p)
      ensures shapePainter == null || paintedArea == null || bounds.None? ==> !r
      ensures r ==> shapePainter != null && shapePainter.PaintedArea() != null
                    && shapePainter.PaintedArea().containsPoint(p)
    {
      if bounds.Some? {
        return bounds.value.Contains(p) && paintedArea != null && paintedArea.containsPoint(p);
      } else {
        return false;
      }
    }

    /** intersects: as contains, for a rectangle. */
    method Intersects(rect: Rect, bounds: Option<Rect>) returns (r: bool)
      requires Valid()
      ensures r <==> bounds.Some? && bounds.value.Intersects(rect) && paintedArea != null
                     && paintedArea.intersectsRect(rect)
      ensures shapePainter == null || paintedArea == null || bounds.None? ==> !r
      ensures r ==> shapePainter != null && shapePainter.PaintedArea() != null
                    && shapePainter.PaintedArea().intersectsRect(rect)
    {
      if bounds.Some? {
        return bounds.value.Intersects(rect) && paintedArea != null && paintedArea.intersectsRect(rect);
      }
      return false;
    }

    /** getOutline: the raw shape, not the painted area. */
    method GetOutline() returns (outline: Shape?)
      ensures outline == shape
    {
      return shape;
    }
  }

  /** A client: bounds cached for one shape are not served after the shape
      is replaced; the next query answers for the new shape. */
  method RecomputesAfterSetShape(s1: Shape, s2: Shape, painter: ShapePainter)
    modifies painter
  {
    var node := new ShapeNode();
    node.SetShapePainter(painter);
    node.SetShape(s1);
    var b1 := node.GetPrimitiveBounds(false);
    assert b1 == Some(painter.stroke(s1).bounds2D);
    node.SetShape(s2);
    assert node.primitiveBounds.None? && node.paintedArea == null;
    var b2 := node.GetPrimitiveBounds(false);
    assert b2 == Some(painter.stroke(s2).bounds2D);
    var inside := node.Contains(Point(0.0, 0.0), b2);
    assert inside ==> painter.stroke(s2).containsPoint(Point(0.0, 0.0));
  }
}
