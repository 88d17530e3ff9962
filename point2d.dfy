/** The exact parts of the point of the MathExt snapshot (MathExt/TwoD/Point2D.cs):
    quadrants, offsets by a vector, equality and the extreme-coordinate scans. */
module Point2D {
  import opened Outcomes
  import opened Plane

  // Quadrants

  /** InAQuadrant: on neither axis. */
  predicate InAQuadrant(p: Point)
  {
    p.x != 0.0 && p.y != 0.0
  }

  /** Quadrant: a generic Exception on an axis; otherwise 1 to 4 counter-clockwise from
      the positive quadrant. */
  function Quadrant(p: Point): (r: Result<int>)
    ensures r.Err? <==> !InAQuadrant(p)
    ensures r.Err? ==> r.error == GenericException
    ensures r == Ok(1) <==> p.x > 0.0 && p.y > 0.0
    ensures r == Ok(2) <==> p.x < 0.0 && p.y > 0.0
    ensures r == Ok(3) <==> p.x < 0.0 && p.y < 0.0
    ensures r == Ok(4) <==> p.x > 0.0 && p.y < 0.0
  {
    if !InAQuadrant(p) then Err(GenericException)
    else if p.y > 0.0 then (if p.x > 0.0 then Ok(1) else Ok(2))
    else if p.x < 0.0 then Ok(3)
    else Ok(4)
  }

  /** Reflection through the origin moves a point two quadrants on. */
  lemma QuadrantOfOpposite(p: Point)
    requires InAQuadrant(p)
    ensures Quadrant(Point(-p.x, -p.y)).Ok?
    ensures Quadrant(Point(-p.x, -p.y)).value == (Quadrant(p).value + 1) % 4 + 1
  {
  }

  // Offsets and equality

  /** pt + v: offset by the components of the vector. */
  function Add(p: Point, v: Vector): Point
  {
    Point(p.x + v.x, p.y + v.y)
  }

  /** pt - v: offset by the negated components of the vector. */
  function Sub(p: Point, v: Vector): Point
  {
    Point(p.x - v.x, p.y - v.y)
  }

  /** Subtracting a vector undoes adding it, and the other way round. */
  lemma AddSubInverse(p: Point, v: Vector)
    ensures Sub(Add(p, v), v) == p
    ensures Add(Sub(p, v), v) == p
  {
  }

  /** Offsets compose by adding the vectors. */
  lemma AddTwice(p: Point, v: Vector, w: Vector)
    ensures Add(Add(p, v), w) == Add(p, Vector(v.x + w.x, v.y + w.y))
  {
  }

  /** ==: both coordinates equal. */
  predicate Equal(a: Point, b: Point)
  {
    a.x == b.x && a.y == b.y
  }

  /** !=: some coordinate differs. */
  predicate NotEqual(a: Point, b: Point)
  {
    a.x != b.x || a.y != b.y
  }

  /** == is equality of points and != its negation. */
  lemma EqualityOperators(a: Point, b: Point)
    ensures Equal(a, b) <==> a == b
    ensures NotEqual(a, b) <==> !Equal(a, b)
  {
  }

  /** Equals(object): a generic Exception for anything but a point, else ==. */
  function Equals(p: Point, obj: Boxed): (r: Result<bool>)
    ensures !obj.BoxedPoint? ==> r == Err(GenericException)
    ensures obj.BoxedPoint? ==> r == Ok(obj.point == p)
  {
    if !obj.BoxedPoint? then Err(GenericException) else Ok(Equal(p, obj.point))
  }

  // Extreme coordinates

  datatype Axis = XAxis | YAxis

  function Coord(p: Point, axis: Axis): real
  {
    if axis == XAxis then p.x else p.y
  }

  /** points[i] has the least coordinate on the axis, and no earlier point has it. */
  predicate IsFirstMin(points: seq<Point>, i: int, axis: Axis)
  {
    0 <= i < |points| &&
    (forall j :: 0 <= j < |points| ==> Coord(points[i], axis) <= Coord(points[j], axis)) &&
    (forall j :: 0 <= j < i ==> Coord(points[j], axis) > Coord(points[i], axis))
  }

  /** points[i] has the greatest coordinate on the axis, and no earlier point has it. */
  predicate IsFirstMax(points: seq<Point>, i: int, axis: Axis)
  {
    0 <= i < |points| &&
    (forall j :: 0 <= j < |points| ==> Coord(points[i], axis) >= Coord(points[j], axis)) &&
    (forall j :: 0 <= j < i ==> Coord(points[j], axis) < Coord(points[i], axis))
  }

  /** The first extreme point is unique. */
  lemma FirstMinUnique(points: seq<Point>, i: int, k: int, axis: Axis)
    requires IsFirstMin(points, i, axis) && IsFirstMin(points, k, axis)
    ensures i == k
  {
    assert Coord(points[i], axis) == Coord(points[k], axis);
  }

  lemma FirstMaxUnique(points: seq<Point>, i: int, k: int, axis: Axis)
    requires IsFirstMax(points, i, axis) && IsFirstMax(points, k, axis)
    ensures i == k
  {
    assert Coord(points[i], axis) == Coord(points[k], axis);
  }

  /** The scan of MinY and MinX: the running index moves only on a strictly smaller
      coordinate, so ties keep the earlier point. */
  method ScanMin(points: seq<Point>, axis: Axis) returns (lowest: nat)
    requires |points| > 0
    ensures IsFirstMin(points, lowest, axis)
  {
    lowest := 0;
    for i := 1 to |points|
      invariant IsFirstMin(points[..i], lowest, axis)
    {
      if Coord(points[i], axis) < Coord(points[lowest], axis) {
        lowest := i;
      }
    }
    assert points[..|points|] == points;
  }

  /** The scan of MaxY and MaxX. */
  method ScanMax(points: seq<Point>, axis: Axis) returns (highest: nat)
    requires |points| > 0
    ensures IsFirstMax(points, highest, axis)
  {
    highest := 0;
    for i := 1 to |points|
      invariant IsFirstMax(points[..i], highest, axis)
    {
      if Coord(points[i], axis) > Coord(points[highest], axis) {
        highest := i;
      }
    }
    assert points[..|points|] == points;
  }

  /** MinY: ArgumentException for a null or empty array, else the first point of least
      Y. */
  method MinY(points: Option<seq<Point>>) returns (r: Result<Point>)
    ensures r.Err? <==> points.None? || |points.value| == 0
    ensures r.Err? ==> r.error == ArgumentException
    ensures r.Ok? ==> exists i :: IsFirstMin(points.value, i, YAxis) && r.value == points.value[i]
  {
    if points.None? || |points.value| == 0 {
      return Err(ArgumentException);
    }
    var i := ScanMin(points.value, YAxis);
    return Ok(points.value[i]);
  }

  /** MaxY: ArgumentException for a null or empty array, else the first point of greatest
      Y. */
  method MaxY(points: Option<seq<Point>>) returns (r: Result<Point>)
    ensures r.Err? <==> points.None? || |points.value| == 0
    ensures r.Err? ==> r.error == ArgumentException
    ensures r.Ok? ==> exists i :: IsFirstMax(points.value, i, YAxis) && r.value == points.value[i]
  {
    if points.None? || |points.value| == 0 {
      return Err(ArgumentException);
    }
    var i := ScanMax(points.value, YAxis);
    return Ok(points.value[i]);
  }

  /** MinX: ArgumentException for a null or empty array, else the first point of least
      X. */
  method MinX(points: Option<seq<Point>>) returns (r: Result<Point>)
    ensures r.Err? <==> points.None? || |points.value| == 0
    ensures r.Err? ==> r.error == ArgumentException
    ensures r.Ok? ==> exists i :: IsFirstMin(points.value, i, XAxis) && r.value == points.value[i]
  {
    if points.None? || |points.value| == 0 {
      return Err(ArgumentException);
    }
    var i := ScanMin(points.value, XAxis);
    return Ok(points.value[i]);
  }

  /** MaxX: ArgumentException for a null or empty array, else the first point of greatest
      X. */
  method MaxX(points: Option<seq<Point>>) returns (r: Result<Point>)
    ensures r.Err? <==> points.None? || |points.value| == 0
    ensures r.Err? ==> r.error == ArgumentException
    ensures r.Ok? ==> exists i :: IsFirstMax(points.value, i, XAxis) && r.value == points.value[i]
  {
    if points.None? || |points.value| == 0 {
      return Err(ArgumentException);
    }
    var i := ScanMax(points.value, XAxis);
    return Ok(points.value[i]);
  }

  /** The first least point comes no later than any other point of that coordinate, and it
      never lies above the first greatest one. */
  lemma MinBelowMax(points: seq<Point>, i: int, k: int, axis: Axis)
    requires IsFirstMin(points, i, axis) && IsFirstMax(points, k, axis)
    ensures Coord(points[i], axis) <= Coord(points[k], axis)
    ensures Coord(points[i], axis) == Coord(points[k], axis) ==>
      forall j :: 0 <= j < |points| ==> Coord(points[j], axis) == Coord(points[i], axis)
  {
  }
}
