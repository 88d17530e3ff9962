/** The angle logic of the arc of Decimal2D (Decimal2D/Arc2D.cs). An arc lies on a
    circle and runs counter-clockwise from its start angle to its end angle, in degrees;
    it wraps through 0 when the start angle is the larger one. */
module Arc2D {
  import opened Outcomes
  import opened Plane
  import opened DecimalExTrig

  /** The circle an arc lies on, compared by center and radius. */
  datatype Circle = Circle(center: Point, radius: real)

  class Arc2D {
    var circle: Circle
    var startAngle: real
    var endAngle: real

    /** Arc2D(c, startAngle, endAngle): the angles are stored as given. */
    constructor (c: Circle, startAngle: real, endAngle: real)
      ensures this.circle == c && this.startAngle == startAngle && this.endAngle == endAngle
    {
      this.circle := c;
      this.startAngle := startAngle;
      this.endAngle := endAngle;
    }

    /** Both angles in [0, 360), as the setters leave them. */
    predicate Normalized()
      reads this
    {
      0.0 <= startAngle < 360.0 && 0.0 <= endAngle < 360.0
    }

    /** The StartAngle setter stores the normalized angle. */
    method SetStartAngle(value: real)
      modifies this
      ensures startAngle == NormalizeAngleDeg(value)
      ensures 0.0 <= startAngle < 360.0
      ensures endAngle == old(endAngle) && circle == old(circle)
    {
      startAngle := NormalizeAngleDeg(value);
    }

    /** The EndAngle setter stores the normalized angle. */
    method SetEndAngle(value: real)
      modifies this
      ensures endAngle == NormalizeAngleDeg(value)
      ensures 0.0 <= endAngle < 360.0
      ensures startAngle == old(startAngle) && circle == old(circle)
    {
      endAngle := NormalizeAngleDeg(value);
    }

    /** IsAngleOnArc as written: the query angle is normalized; a non-wrapping arc
        contains both of its end angles, a wrapping arc neither. */
    predicate IsAngleOnArc(angle: real)
      reads this
    {
      var a := NormalizeAngleDeg(angle);
      if startAngle <= endAngle then startAngle <= a && a <= endAngle
      else a > startAngle || a < endAngle
    }

    /** IsAngleOnArc with the end angles of a wrapping arc included, as they are for a
        non-wrapping one. */
    predicate IsAngleOnArcCorrected(angle: real)
      reads this
    {
      var a := NormalizeAngleDeg(angle);
      if startAngle <= endAngle then startAngle <= a && a <= endAngle
      else a >= startAngle || a <= endAngle
    }

    /** CentralAngle as written: end minus start, negative for a wrapping arc. */
    function CentralAngle(): real
      reads this
    {
      endAngle - startAngle
    }

    /** The angle the arc covers counter-clockwise from start to end. */
    function CentralAngleCorrected(): (r: real)
      reads this
      ensures 0.0 <= r < 360.0
    {
      NormalizeAngleDeg(endAngle - startAngle)
    }

    /** BisectingAngle: the mean of the two angles, taken over the wrap for a wrapping
        arc. */
    function BisectingAngle(): real
      reads this
    {
      if startAngle <= endAngle then (startAngle + endAngle) / 2.0
      else NormalizeAngleDeg((startAngle + (endAngle + 360.0)) / 2.0)
    }

    /** ==: the same circle and the same two angles. */
    predicate Equal(other: Arc2D)
      reads this, other
    {
      circle == other.circle && startAngle == other.startAngle && endAngle == other.endAngle
    }

    /** !=: the circle or an angle differs. */
    predicate NotEqual(other: Arc2D)
      reads this, other
    {
      circle != other.circle || startAngle != other.startAngle || endAngle != other.endAngle
    }
  }

  /** An angle in [0, 360) is its own normalization. */
  lemma NormalizedIdentity(a: real)
    requires 0.0 <= a < 360.0
    ensures NormalizeAngleDeg(a) == a
  {
    assert (a - a) / 360.0 == 0.0;
    Decimals.IntIsIntegral(0);
    WrapUnique(a, 360.0, a);
  }

  /** IsAngleOnArc depends on the angle only through its normalization. */
  lemma OnArcModuloTurns(arc: Arc2D, angle: real, n: int)
    ensures arc.IsAngleOnArc(angle + n as real * 360.0) == arc.IsAngleOnArc(angle)
    ensures arc.IsAngleOnArcCorrected(angle + n as real * 360.0) == arc.IsAngleOnArcCorrected(angle)
  {
    WrapPeriodic(angle, 360.0, n);
    assert NormalizeAngleDeg(angle + n as real * 360.0) == NormalizeAngleDeg(angle);
  }

  /** The bisecting angle of a normalized arc lies on the arc, strictly inside a wrapping
      one. */
  lemma BisectorOnArc(arc: Arc2D)
    requires arc.Normalized()
    ensures arc.IsAngleOnArc(arc.BisectingAngle())
    ensures arc.startAngle > arc.endAngle ==>
      arc.BisectingAngle() > arc.startAngle || arc.BisectingAngle() < arc.endAngle
  {
    var b := arc.BisectingAngle();
    if arc.startAngle <= arc.endAngle {
      NormalizedIdentity(b);
    } else {
      var m := (arc.startAngle + (arc.endAngle + 360.0)) / 2.0;
      if m < 360.0 {
        NormalizedIdentity(m);
      } else {
        NormalizedIdentity(m - 360.0);
        WrapPeriodic(m - 360.0, 360.0, 1);
        assert m - 360.0 + 1 as real * 360.0 == m;
      }
      NormalizedIdentity(b);
    }
  }

  /** The corrected central angle is end - start for a normalized non-wrapping arc and
      end - start + 360 for a wrapping one; the angle as written is off by a full turn in
      the second case. */
  lemma CentralAngleSpans(arc: Arc2D)
    requires arc.Normalized()
    ensures arc.startAngle <= arc.endAngle ==> arc.CentralAngleCorrected() == arc.CentralAngle()
    ensures arc.startAngle > arc.endAngle ==> arc.CentralAngleCorrected() == arc.CentralAngle() + 360.0
    ensures arc.startAngle > arc.endAngle ==> arc.CentralAngle() < 0.0
  {
    var d := arc.endAngle - arc.startAngle;
    if d >= 0.0 {
      NormalizedIdentity(d);
    } else {
      NormalizedIdentity(d + 360.0);
      WrapPeriodic(d, 360.0, 1);
      assert d + 1 as real * 360.0 == d + 360.0;
    }
  }

  /** The as-written test leaves out the end angles of a wrapping arc: on the arc from 350
      to 10 degrees neither 350 nor 10 is on the arc, while on the arc from 10 to 350 both
      are. The corrected test contains them, and the central angle as written is -340
      where the arc covers 20 degrees. */
  lemma WrappingArcCounterexample(wrapping: Arc2D, plain: Arc2D)
    requires wrapping.startAngle == 350.0 && wrapping.endAngle == 10.0
    requires plain.startAngle == 10.0 && plain.endAngle == 350.0
    ensures !wrapping.IsAngleOnArc(350.0) && !wrapping.IsAngleOnArc(10.0)
    ensures plain.IsAngleOnArc(350.0) && plain.IsAngleOnArc(10.0)
    ensures wrapping.IsAngleOnArcCorrected(350.0) && wrapping.IsAngleOnArcCorrected(10.0)
    ensures wrapping.CentralAngle() == -340.0 && wrapping.CentralAngleCorrected() == 20.0
  {
    NormalizedIdentity(350.0);
    NormalizedIdentity(10.0);
    NormalizedIdentity(20.0);
    WrapPeriodic(20.0, 360.0, -1);
    assert 20.0 + (-1) as real * 360.0 == -340.0;
  }

  /** With the correction both end angles of a normalized arc are on it, and the two tests
      agree on every angle that is not an end angle. */
  lemma EndpointsOnArcCorrected(arc: Arc2D, angle: real)
    requires arc.Normalized()
    ensures arc.IsAngleOnArcCorrected(arc.startAngle) && arc.IsAngleOnArcCorrected(arc.endAngle)
    ensures NormalizeAngleDeg(angle) != arc.startAngle && NormalizeAngleDeg(angle) != arc.endAngle ==>
      arc.IsAngleOnArcCorrected(angle) == arc.IsAngleOnArc(angle)
  {
    NormalizedIdentity(arc.startAngle);
    NormalizedIdentity(arc.endAngle);
  }

  /** == and != are exact negations, and == is equality of the three stored values. */
  lemma EqualityOperators(a: Arc2D, b: Arc2D)
    ensures a.NotEqual(b) <==> !a.Equal(b)
    ensures a.Equal(b) <==> (a.circle, a.startAngle, a.endAngle) == (b.circle, b.startAngle, b.endAngle)
  {
  }

  // Arcs through three points

  /** The angle ordering of FromPointsOnArc, given the angles at which the circle meets
      the two end points and the point on the arc: a generic Exception when the end angles
      coincide or the interior angle equals one of them; otherwise the smaller end angle
      starts the arc when the interior angle lies between the two, and the larger one
      starts it when it does not. */
  function ArcAngles(angleA: real, angleOnArc: real, angleB: real): (r: Result<(real, real)>)
    ensures r.Err? <==> angleA == angleB || angleOnArc == angleA || angleOnArc == angleB
    ensures r.Err? ==> r.error == GenericException
  {
    if angleA == angleB then Err(GenericException)
    else if angleOnArc == angleA || angleOnArc == angleB then Err(GenericException)
    else
      var (lo, hi) := if angleB < angleA then (angleB, angleA) else (angleA, angleB);
      if lo < angleOnArc && angleOnArc < hi then Ok((lo, hi)) else Ok((hi, lo))
  }

  /** FromPointsOnArc: the arc on the given circle with the ordered angles. */
  method FromPointsOnArc(c: Circle, angleA: real, angleOnArc: real, angleB: real) returns (r: Result<Arc2D>)
    ensures r.Err? <==> ArcAngles(angleA, angleOnArc, angleB).Err?
    ensures r.Err? ==> r.error == GenericException
    ensures r.Ok? ==> fresh(r.value) && r.value.circle == c
    ensures r.Ok? ==> (r.value.startAngle, r.value.endAngle) == ArcAngles(angleA, angleOnArc, angleB).value
  {
    if angleA == angleB {
      return Err(GenericException);
    }
    if angleOnArc == angleA || angleOnArc == angleB {
      return Err(GenericException);
    }
    var a, b := angleA, angleB;
    if b < a {
      a, b := b, a;
    }
    var arc: Arc2D;
    if a < angleOnArc && angleOnArc < b {
      arc := new Arc2D(c, a, b);
    } else {
      arc := new Arc2D(c, b, a);
    }
    return Ok(arc);
  }

  /** For angles in [0, 360) the chosen arc has the two end angles as its ends and
      contains the interior angle, strictly inside. */
  lemma ArcAnglesContainInterior(angleA: real, angleOnArc: real, angleB: real)
    requires 0.0 <= angleA < 360.0 && 0.0 <= angleOnArc < 360.0 && 0.0 <= angleB < 360.0
    requires ArcAngles(angleA, angleOnArc, angleB).Ok?
    ensures var (s, e) := ArcAngles(angleA, angleOnArc, angleB).value;
      {s, e} == {angleA, angleB} &&
      (if s <= e then s < angleOnArc < e else angleOnArc > s || angleOnArc < e)
  {
  }

  /** The arc built by FromPointsOnArc from normalized angles has its interior angle on
      it, by the as-written test and by the corrected one. */
  lemma FromPointsOnArcContains(arc: Arc2D, angleA: real, angleOnArc: real, angleB: real)
    requires 0.0 <= angleA < 360.0 && 0.0 <= angleOnArc < 360.0 && 0.0 <= angleB < 360.0
    requires ArcAngles(angleA, angleOnArc, angleB).Ok?
    requires (arc.startAngle, arc.endAngle) == ArcAngles(angleA, angleOnArc, angleB).value
    ensures arc.IsAngleOnArc(angleOnArc) && arc.IsAngleOnArcCorrected(angleOnArc)
  {
    ArcAnglesContainInterior(angleA, angleOnArc, angleB);
    NormalizedIdentity(angleOnArc);
  }
}
