/** The two value types of the plane that the geometry modules share. MathExt/TwoD and
    Decimal2D each declare their own Point2D; the modelled code treats points the same
    way in both, so one datatype stands for both. */
module Plane {
  /** A point (the X and Y fields of Point2D). */
  datatype Point = Point(x: real, y: real)

  /** A displacement (the X and Y fields of Vector2D). */
  datatype Vector = Vector(x: real, y: real)

  /** The argument of an Equals(object) override: a point, a vector, or anything else. */
  datatype Boxed = BoxedPoint(point: Point) | BoxedVector(vector: Vector) | BoxedOther
}
