/** The exact parts of the vector of Decimal2D (Decimal2D/Vector2D.cs): construction,
    componentwise arithmetic, the dot product, the reversed and perpendicular vectors,
    rounding and equality, exact or to a number of places. */
module Vector2D {
  import opened Outcomes
  import opened Plane
  import Point2D
  import Decimals
  import DecimalExConstants
  import Extensions

  // Construction

  /** The vector from startPt to endPt. */
  function FromPoints(startPt: Point, endPt: Point): Vector
  {
    Vector(endPt.x - startPt.x, endPt.y - startPt.y)
  }

  /** The vector from (startX, startY) to (endX, endY). */
  function FromCoordinates(startX: real, startY: real, endX: real, endY: real): Vector
  {
    Vector(endX - startX, endY - startY)
  }

  /** The vector from the origin to endPt. */
  function FromPoint(endPt: Point): Vector
  {
    Vector(endPt.x, endPt.y)
  }

  const Null: Vector := Vector(0.0, 0.0)
  const XUnit: Vector := Vector(1.0, 0.0)
  const YUnit: Vector := Vector(0.0, 1.0)

  /** The vector between two points carries the start point to the end point, and the
      constructors from coordinates and from one point agree with it. */
  lemma FromPointsCarries(startPt: Point, endPt: Point)
    ensures Point2D.Add(startPt, FromPoints(startPt, endPt)) == endPt
    ensures FromPoints(startPt, endPt) == FromCoordinates(startPt.x, startPt.y, endPt.x, endPt.y)
    ensures FromPoint(endPt) == FromPoints(Point(0.0, 0.0), endPt)
    ensures FromPoints(startPt, startPt) == Null
  {
  }

  // Arithmetic

  /** v1 + v2 */
  function Add(v1: Vector, v2: Vector): Vector
  {
    Vector(v1.x + v2.x, v1.y + v2.y)
  }

  /** v1 - v2 */
  function Sub(v1: Vector, v2: Vector): Vector
  {
    Vector(v1.x - v2.x, v1.y - v2.y)
  }

  /** -v */
  function Neg(v: Vector): Vector
  {
    Vector(-v.x, -v.y)
  }

  /** v * scale */
  function Scale(v: Vector, scale: real): Vector
  {
    Vector(v.x * scale, v.y * scale)
  }

  /** scale * v: the same components in the same order. */
  function ScaleLeft(scale: real, v: Vector): Vector
  {
    Vector(v.x * scale, v.y * scale)
  }

  /** v / scale: decimal division, so a zero scale throws DivideByZeroException. */
  function Div(v: Vector, scale: real): (r: Result<Vector>)
    ensures r.Err? <==> scale == 0.0
    ensures r.Err? ==> r.error == DivideByZeroException
  {
    if scale == 0.0 then Err(DivideByZeroException) else Ok(Vector(v.x / scale, v.y / scale))
  }

  /** Addition is commutative, has Null as identity and -v as inverse. */
  lemma AddLaws(v1: Vector, v2: Vector)
    ensures Add(v1, v2) == Add(v2, v1)
    ensures Add(v1, Null) == v1
    ensures Add(v1, Neg(v1)) == Null
  {
  }

  /** Subtraction adds the negation, and undoes addition. */
  lemma SubIsAddNeg(v1: Vector, v2: Vector)
    ensures Sub(v1, v2) == Add(v1, Neg(v2))
    ensures Sub(Add(v1, v2), v2) == v1
    ensures Neg(Neg(v1)) == v1
  {
  }

  /** Scaling on either side gives the same vector; scaling by 1 changes nothing and by -1
      negates. */
  lemma ScaleLaws(v: Vector, s: real)
    ensures Scale(v, s) == ScaleLeft(s, v)
    ensures Scale(v, 1.0) == v
    ensures Scale(v, -1.0) == Neg(v)
  {
  }

  /** Dividing by a non-zero scale undoes scaling by it. */
  lemma DivUndoesScale(v: Vector, s: real)
    requires s != 0.0
    ensures Div(Scale(v, s), s) == Ok(v)
    ensures Scale(Div(v, s).value, s) == v
  {
    assert (v.x * s) / s == v.x;
    assert (v.y * s) / s == v.y;
    assert Scale(v, s) == Vector(v.x * s, v.y * s);
    assert Div(Scale(v, s), s) == Ok(Vector((v.x * s) / s, (v.y * s) / s));
    assert (v.x / s) * s == v.x;
    assert (v.y / s) * s == v.y;
  }

  // Dot product, reversed and perpendicular vectors

  /** X * X' + Y * Y' */
  function Dot(v: Vector, other: Vector): real
  {
    v.x * other.x + v.y * other.y
  }

  /** (-X, -Y) */
  function GetReversed(v: Vector): Vector
  {
    Vector(-v.x, -v.y)
  }

  /** (Y, -X): a quarter turn clockwise. */
  function GetPerpendicular(v: Vector): Vector
  {
    Vector(v.y, -v.x)
  }

  /** The dot product is commutative and bilinear in its first argument. */
  lemma DotLaws(u: Vector, v: Vector, w: Vector, s: real)
    ensures Dot(u, v) == Dot(v, u)
    ensures Dot(Add(u, w), v) == Dot(u, v) + Dot(w, v)
    ensures Dot(Scale(u, s), v) == s * Dot(u, v)
  {
  }

  /** The perpendicular is orthogonal to the vector, of the same squared length, and
      applied twice it reverses the vector; four times it is the vector again. */
  lemma PerpendicularLaws(v: Vector)
    ensures Dot(v, GetPerpendicular(v)) == 0.0
    ensures Dot(GetPerpendicular(v), GetPerpendicular(v)) == Dot(v, v)
    ensures GetPerpendicular(GetPerpendicular(v)) == GetReversed(v)
    ensures GetReversed(v) == Neg(v)
    ensures GetPerpendicular(GetPerpendicular(GetPerpendicular(GetPerpendicular(v)))) == v
  {
  }

  // Equality

  /** ==: both components equal. */
  predicate Equal(v1: Vector, v2: Vector)
  {
    v1.x == v2.x && v1.y == v2.y
  }

  /** !=: some component differs. */
  predicate NotEqual(v1: Vector, v2: Vector)
  {
    v1.x != v2.x || v1.y != v2.y
  }

  /** == is equality of vectors and != its negation. */
  lemma EqualityOperators(v1: Vector, v2: Vector)
    ensures Equal(v1, v2) <==> v1 == v2
    ensures NotEqual(v1, v2) <==> !Equal(v1, v2)
  {
  }

  /** Equals(object): a generic Exception for anything but a vector, else ==. */
  function Equals(v: Vector, obj: Boxed): (r: Result<bool>)
    ensures !obj.BoxedVector? ==> r == Err(GenericException)
    ensures obj.BoxedVector? ==> r == Ok(obj.vector == v)
  {
    if !obj.BoxedVector? then Err(GenericException) else Ok(Equal(v, obj.vector))
  }

  // Rounding

  /** RoundTo: both components rounded half away from zero to the given places
      (Extensions.RoundFromZero), the x component first, so that its error is the one
      raised for places outside 0..28. */
  function RoundTo(v: Vector, decimals: int): (r: Result<Vector>)
    ensures decimals < 0 ==> r == Err(ArgumentOutOfRangeException)
    ensures decimals > 28 ==> r == Err(IndexOutOfRangeException)
    ensures 0 <= decimals <= 28 ==>
      r.Ok? &&
      Extensions.RoundFromZero(v.x, decimals) == Ok(r.value.x) &&
      Extensions.RoundFromZero(v.y, decimals) == Ok(r.value.y)
  {
    DecimalExConstants.PowersOf10Exact();
    var rx := Extensions.RoundFromZero(v.x, decimals);
    var ry := Extensions.RoundFromZero(v.y, decimals);
    if rx.Err? then Err(rx.error) else Ok(Vector(rx.value, ry.value))
  }

  /** Each rounded component times 10^decimals is the whole number nearest the
      component times 10^decimals, ties away from zero. */
  lemma RoundToNearest(v: Vector, decimals: nat)
    requires decimals <= 28
    ensures RoundTo(v, decimals).Ok?
    ensures Extensions.NearestAwayFromZero(v.x, DecimalExConstants.PowersOf10[decimals],
      RoundTo(v, decimals).value.x)
    ensures Extensions.NearestAwayFromZero(v.y, DecimalExConstants.PowersOf10[decimals],
      RoundTo(v, decimals).value.y)
  {
    Extensions.RoundFromZeroNearest(v.x, decimals);
    Extensions.RoundFromZeroNearest(v.y, decimals);
  }

  /** Rounding twice to the same places rounds once: the rounded components already lie
      on the grid of those places. */
  lemma RoundToIdempotent(v: Vector, decimals: nat)
    requires decimals <= 28
    ensures RoundTo(v, decimals).Ok?
    ensures RoundTo(RoundTo(v, decimals).value, decimals) == RoundTo(v, decimals)
  {
    var w := RoundTo(v, decimals).value;
    Extensions.RoundFromZeroBound(v.x, decimals);
    Extensions.RoundFromZeroBound(v.y, decimals);
    Extensions.RoundFromZeroOnGrid(w.x, decimals);
    Extensions.RoundFromZeroOnGrid(w.y, decimals);
  }

  /** Equals(other, decimals): the two vectors rounded to the places and compared with
      ==; the rounding's error for places outside 0..28. */
  function EqualsRounded(v: Vector, other: Vector, decimals: int): (r: Result<bool>)
    ensures decimals < 0 ==> r == Err(ArgumentOutOfRangeException)
    ensures decimals > 28 ==> r == Err(IndexOutOfRangeException)
    ensures 0 <= decimals <= 28 ==> r.Ok?
    ensures 0 <= decimals <= 28 ==>
      (r == Ok(true) <==>
        Extensions.RoundFromZero(v.x, decimals) == Extensions.RoundFromZero(other.x, decimals) &&
        Extensions.RoundFromZero(v.y, decimals) == Extensions.RoundFromZero(other.y, decimals))
  {
    var a := RoundTo(v, decimals);
    var b := RoundTo(other, decimals);
    if a.Err? then Err(a.error) else Ok(Equal(a.value, b.value))
  }

  /** Comparing to places is reflexive and symmetric. */
  lemma EqualsRoundedLaws(v: Vector, w: Vector, decimals: nat)
    requires decimals <= 28
    ensures EqualsRounded(v, v, decimals) == Ok(true)
    ensures EqualsRounded(v, w, decimals) == EqualsRounded(w, v, decimals)
  {
  }

  /** a and b differ by at most one unit of the grid with p points to the unit. */
  predicate WithinOneUnit(a: real, b: real, p: real)
  {
    Decimals.Abs(a * p - b * p) <= 1.0
  }

  /** Vectors that compare equal to places differ by at most one unit of the last place
      in each component. */
  lemma EqualsRoundedClose(v: Vector, w: Vector, decimals: nat)
    requires decimals <= 28 && EqualsRounded(v, w, decimals) == Ok(true)
    ensures WithinOneUnit(v.x, w.x, DecimalExConstants.PowersOf10[decimals])
    ensures WithinOneUnit(v.y, w.y, DecimalExConstants.PowersOf10[decimals])
  {
    RoundedAlike(v, w, decimals);
    SameRoundingClose(v.x, w.x, decimals);
    SameRoundingClose(v.y, w.y, decimals);
  }

  /** Vectors equal to places round to the same vector. */
  lemma RoundedAlike(v: Vector, w: Vector, decimals: nat)
    requires decimals <= 28 && EqualsRounded(v, w, decimals) == Ok(true)
    ensures RoundTo(v, decimals).Ok? && RoundTo(w, decimals).Ok?
    ensures RoundTo(v, decimals).value == RoundTo(w, decimals).value
  {
  }

  /** Values that round alike differ by at most one unit of the last place. */
  lemma SameRoundingClose(a: real, b: real, decimals: nat)
    requires decimals <= 28
    requires Extensions.RoundFromZero(a, decimals) == Extensions.RoundFromZero(b, decimals)
    ensures WithinOneUnit(a, b, DecimalExConstants.PowersOf10[decimals])
  {
    Extensions.RoundFromZeroNearest(a, decimals);
    Extensions.RoundFromZeroNearest(b, decimals);
    NearestClose(a, b, DecimalExConstants.PowersOf10[decimals],
      Extensions.RoundFromZero(a, decimals).value, Extensions.RoundFromZero(b, decimals).value);
  }

  /** Values with the same nearest grid value differ by at most one unit of the grid. */
  lemma NearestClose(a: real, b: real, p: real, ra: real, rb: real)
    requires ra == rb
    requires Extensions.NearestAwayFromZero(a, p, ra) && Extensions.NearestAwayFromZero(b, p, rb)
    ensures WithinOneUnit(a, b, p)
  {
  }

  /** On vectors whose components already have at most the given places, comparing to
      places is exact equality. */
  lemma EqualsRoundedOnGrid(v: Vector, w: Vector, decimals: nat)
    requires decimals <= 28
    requires Decimals.OnGrid(v.x, DecimalExConstants.PowersOf10[decimals])
    requires Decimals.OnGrid(v.y, DecimalExConstants.PowersOf10[decimals])
    requires Decimals.OnGrid(w.x, DecimalExConstants.PowersOf10[decimals])
    requires Decimals.OnGrid(w.y, DecimalExConstants.PowersOf10[decimals])
    ensures EqualsRounded(v, w, decimals) == Ok(v == w)
  {
    Extensions.RoundFromZeroOnGrid(v.x, decimals);
    Extensions.RoundFromZeroOnGrid(v.y, decimals);
    Extensions.RoundFromZeroOnGrid(w.x, decimals);
    Extensions.RoundFromZeroOnGrid(w.y, decimals);
  }
}
