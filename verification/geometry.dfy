/** The two java.awt.geom value types the model needs: points and rectangles,
    with the containment and intersection tests of java.awt.geom.Rectangle2D. */
module Geometry {

  datatype Point = Point(x: real, y: real)

  datatype Rect = Rect(x: real, y: real, width: real, height: real) {

    /** Rectangle2D.isEmpty: no area. */
    predicate IsEmpty() {
      width <= 0.0 || height <= 0.0
    }

    /** Rectangle2D.contains(Point2D): closed on the near edges, open on the far ones. */
    predicate Contains(p: Point) {
      x <= p.x && y <= p.y && p.x < x + width && p.y < y + height
    }

    /** Rectangle2D.intersects(Rectangle2D): the interiors overlap. */
    predicate Intersects(r: Rect) {
      !IsEmpty() && !r.IsEmpty() &&
      r.x + r.width > x && r.y + r.height > y && r.x < x + width && r.y < y + height
    }
  }
}
