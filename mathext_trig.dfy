/** The trigonometry of the MathExt snapshot (MathExt/MathExtTrig.cs), in exact
    arithmetic. The code around the series is that of DecimalEx except for three things:
    angles are normalized by loops that add or subtract whole turns, ATan2 dispatches on
    Point2D.Quadrant, and ASin and ACos use the snapshot's own Sqrt. The lemmas here show
    where the two versions agree. */
module MathExtTrig {
  import opened Outcomes
  import opened Decimals
  import opened DecimalExConstants
  import opened Numerics
  import opened Plane
  import DecimalExTrig
  import MathExt
  import Point2D

  // ---------------------------------------------------------------------------
  // Degrees and radians

  /** MathExt.ToRad: the same cascade as DecimalEx, the fallback multiplying by the ratio
      Pi / 180. */
  function ToRad(degrees: real): real
  {
    var ratio := Pi / 180.0;
    if Rem(degrees, 360.0) == 0.0 then (degrees / 360.0) * TwoPi
    else if Rem(degrees, 270.0) == 0.0 then (degrees / 270.0) * (Pi + PiHalf)
    else if Rem(degrees, 180.0) == 0.0 then (degrees / 180.0) * Pi
    else if Rem(degrees, 90.0) == 0.0 then (degrees / 90.0) * PiHalf
    else if Rem(degrees, 45.0) == 0.0 then (degrees / 45.0) * PiQuarter
    else if Rem(degrees, 15.0) == 0.0 then (degrees / 15.0) * PiTwelfth
    else degrees * ratio
  }

  /** In exact arithmetic the two snapshots convert every angle alike. */
  lemma ToRadAgrees(degrees: real)
    ensures ToRad(degrees) == DecimalExTrig.ToRad(degrees)
  {
    assert degrees * (Pi / 180.0) == degrees * Pi / 180.0;
  }

  // ---------------------------------------------------------------------------
  // Normalizing by whole turns

  /** A non-negative angle reached from x0 by whole periods has, as its truncated
      remainder, the normalized angle of x0. */
  lemma LoopResult(x0: real, x: real, n: int, period: real)
    requires period > 0.0 && x >= 0.0 && x == x0 + n as real * period
    ensures Rem(x, period) == DecimalExTrig.WrapAngle(x0, period)
  {
    RemBounds(x, period);
    var r := Rem(x, period);
    var t := Trunc(x / period);
    assert r == x - period * t as real;
    assert r - x0 == (n - t) as real * period;
    TimesOver((n - t) as real, period, r - x0);
    IntIsIntegral(n - t);
    DecimalExTrig.WrapUnique(x0, period, r);
  }

  lemma TimesOver(q: real, p: real, d: real)
    requires p > 0.0 && d == q * p
    ensures d / p == q
  {
  }

  /** MathExt.NormalizeAngle: adds TwoPi while negative, then takes the remainder. In exact
      arithmetic this is the DecimalEx normalization. */
  method NormalizeAngle(radians: real) returns (r: real)
    ensures r == DecimalExTrig.WrapAngle(radians, TwoPi)
  {
    var x := radians;
    ghost var n: int := 0;
    while x < 0.0
      invariant x == radians + n as real * TwoPi
      decreases if x < 0.0 then (-x / TwoPi).Floor + 1 else 0
    {
      x := x + TwoPi;
      n := n + 1;
    }
    LoopResult(radians, x, n, TwoPi);
    r := Rem(x, TwoPi);
  }

  /** MathExt.NormalizeAngleDeg: adds 360 while negative, then takes the remainder. */
  method NormalizeAngleDeg(degrees: real) returns (r: real)
    ensures r == DecimalExTrig.NormalizeAngleDeg(degrees)
  {
    var x := degrees;
    ghost var n: int := 0;
    while x < 0.0
      invariant x == degrees + n as real * 360.0
      decreases if x < 0.0 then (-x / 360.0).Floor + 1 else 0
    {
      x := x + 360.0;
      n := n + 1;
    }
    LoopResult(degrees, x, n, 360.0);
    r := Rem(x, 360.0);
  }

  /** Where the reduction loops of Sin and Cos leave an angle: in (0, TwoPi] when it was
      above TwoPi, in [-TwoPi, 0) when it was below -TwoPi, else unchanged. */
  function OldReduce(x: real): real
  {
    var w := DecimalExTrig.WrapAngle(x, TwoPi);
    if x > TwoPi then (if w == 0.0 then TwoPi else w)
    else if x < -TwoPi then w - TwoPi
    else x
  }

  /** The reduced angle lies in [-TwoPi, TwoPi], a whole number of turns from the input,
      and keeps the sign of a non-zero input. */
  lemma OldReduceRange(x: real)
    ensures -TwoPi <= OldReduce(x) <= TwoPi
    ensures IsIntegral((OldReduce(x) - x) / TwoPi)
    ensures x > 0.0 ==> OldReduce(x) > 0.0
    ensures x < 0.0 ==> OldReduce(x) < 0.0
  {
    var w := DecimalExTrig.WrapAngle(x, TwoPi);
    var q := (w - x) / TwoPi;
    if x > TwoPi && w == 0.0 {
      assert (TwoPi - x) / TwoPi == q + 1.0;
      IntIsIntegral(q.Floor + 1);
    } else if x < -TwoPi {
      assert (w - TwoPi - x) / TwoPi == q - 1.0;
      IntIsIntegral(q.Floor - 1);
    } else if -TwoPi <= x <= TwoPi {
      assert (x - x) / TwoPi == 0.0;
      IntIsIntegral(0);
    }
  }

  /** The two reduction loops of MathExt.Sin and MathExt.Cos. */
  method ReduceTurns(x0: real) returns (x: real)
    ensures x == OldReduce(x0)
  {
    x := x0;
    ghost var n: int := 0;
    while x > TwoPi
      invariant x == x0 + n as real * TwoPi
      invariant x0 <= TwoPi ==> x == x0
      invariant x0 > TwoPi ==> x > 0.0
      decreases if x > TwoPi then (x / TwoPi).Floor else 0
    {
      x := x - TwoPi;
      n := n - 1;
    }
    while x < -TwoPi
      invariant x == x0 + n as real * TwoPi
      invariant x0 > TwoPi ==> 0.0 < x <= TwoPi
      invariant -TwoPi <= x0 <= TwoPi ==> x == x0
      invariant x0 < -TwoPi ==> x < 0.0
      decreases if x < -TwoPi then (-x / TwoPi).Floor else 0
    {
      x := x + TwoPi;
      n := n + 1;
    }
    ReducedIsOldReduce(x0, x, n);
  }

  lemma ReducedIsOldReduce(x0: real, x: real, n: int)
    requires x == x0 + n as real * TwoPi
    requires x0 > TwoPi ==> 0.0 < x <= TwoPi
    requires x0 < -TwoPi ==> -TwoPi <= x < 0.0
    requires -TwoPi <= x0 <= TwoPi ==> x == x0
    ensures x == OldReduce(x0)
  {
    TimesOver(n as real, TwoPi, x - x0);
    IntIsIntegral(n);
    if x0 > TwoPi {
      if x < TwoPi {
        DecimalExTrig.WrapUnique(x0, TwoPi, x);
      } else {
        TimesOver((n - 1) as real, TwoPi, 0.0 - x0);
        IntIsIntegral(n - 1);
        DecimalExTrig.WrapUnique(x0, TwoPi, 0.0);
      }
    } else if x0 < -TwoPi {
      TimesOver((n + 1) as real, TwoPi, x + TwoPi - x0);
      IntIsIntegral(n + 1);
      DecimalExTrig.WrapUnique(x0, TwoPi, x + TwoPi);
    }
  }

  // ---------------------------------------------------------------------------
  // Sine, cosine, tangent

  /** MathExt.Sin: the special values of DecimalEx at the loop-reduced angle. */
  method Sin(k: Kernel, x: real) returns (r: real)
    ensures r == DecimalExTrig.SinAt(k.oldSinSeries, OldReduce(x))
  {
    var t := ReduceTurns(x);
    if t == 0.0 || t == Pi || t == TwoPi {
      return 0.0;
    } else if t == PiHalf {
      return 1.0;
    } else if t == Pi + PiHalf {
      return -1.0;
    }
    return k.oldSinSeries(t);
  }

  /** MathExt.Cos. */
  method Cos(k: Kernel, x: real) returns (r: real)
    ensures r == DecimalExTrig.CosAt(k.oldCosSeries, OldReduce(x))
  {
    var t := ReduceTurns(x);
    if t == 0.0 || t == TwoPi {
      return 1.0;
    } else if t == Pi {
      return -1.0;
    } else if t == PiHalf || t == Pi + PiHalf {
      return 0.0;
    }
    return k.oldCosSeries(t);
  }

  /** MathExt.Tan: Sin over Cos, a generic Exception for a zero cosine. */
  method Tan(k: Kernel, radians: real) returns (r: Result<real>)
    ensures DecimalExTrig.CosAt(k.oldCosSeries, OldReduce(radians)) == 0.0 ==> r == Err(GenericException)
    ensures DecimalExTrig.CosAt(k.oldCosSeries, OldReduce(radians)) != 0.0 ==>
      r == Ok(DecimalExTrig.SinAt(k.oldSinSeries, OldReduce(radians)) / DecimalExTrig.CosAt(k.oldCosSeries, OldReduce(radians)))
  {
    var s := Sin(k, radians);
    var c := Cos(k, radians);
    if c == 0.0 {
      return Err(GenericException);
    }
    return Ok(s / c);
  }

  /** For non-negative angles the loop reduction and the Remainder reduction of DecimalEx
      give the same sine and cosine for the same series: they differ only in giving TwoPi
      where DecimalEx gives 0, and the two agree there. */
  lemma ReductionsAgree(sinSeries: real -> real, cosSeries: real -> real, x: real)
    requires x >= 0.0
    ensures DecimalExTrig.SinAt(sinSeries, OldReduce(x)) == DecimalExTrig.SinAt(sinSeries, Rem(x, TwoPi))
    ensures DecimalExTrig.CosAt(cosSeries, OldReduce(x)) == DecimalExTrig.CosAt(cosSeries, Rem(x, TwoPi))
  {
    RemBounds(x, TwoPi);
    if x > TwoPi {
      assert Rem(x, TwoPi) == DecimalExTrig.WrapAngle(x, TwoPi);
    } else if x == TwoPi {
      assert Trunc(x / TwoPi) == 1;
    } else {
      RemOfSmaller(x, TwoPi);
    }
  }

  /** For negative angles the two versions can part: at -TwoPi the loops leave -TwoPi to
      the series, while Remainder reduces it to 0, a special value. */
  lemma ReductionsPartAtMinusTwoPi(sinSeries: real -> real)
    ensures OldReduce(-TwoPi) == -TwoPi
    ensures DecimalExTrig.SinAt(sinSeries, Rem(-TwoPi, TwoPi)) == 0.0
    ensures DecimalExTrig.SinAt(sinSeries, OldReduce(-TwoPi)) == sinSeries(-TwoPi)
  {
    assert Trunc(-TwoPi / TwoPi) == -1;
  }

  // ---------------------------------------------------------------------------
  // Inverse functions

  /** MathExt.ASin: as DecimalEx, with the snapshot's Sqrt and ATan series. */
  method ASin(k: Kernel, z: real, fuel: nat) returns (r: Result<real>)
    ensures r == DecimalExTrig.ASinFrom(k.oldAtanSeries, z, MathExt.SqrtOutcome(1.0 - z * z))
  {
    if z < -1.0 || z > 1.0 {
      return Err(ArgumentOutOfRangeException);
    }
    if z == -1.0 {
      return Ok(-PiHalf);
    } else if z == 0.0 {
      return Ok(0.0);
    } else if z == 1.0 {
      return Ok(PiHalf);
    }
    var root := MathExt.Sqrt(1.0 - z * z, fuel);
    if root.Err? {
      return Err(root.error);
    }
    return Ok(2.0 * DecimalExTrig.ATan(k.oldAtanSeries, z / (1.0 + root.value)));
  }

  /** MathExt.ACos. */
  method ACos(k: Kernel, z: real, fuel: nat) returns (r: Result<real>)
    ensures r == DecimalExTrig.ACosFrom(k.oldAtanSeries, z, MathExt.SqrtOutcome(1.0 - z * z))
  {
    if z < -1.0 || z > 1.0 {
      return Err(ArgumentOutOfRangeException);
    }
    if z == -1.0 {
      return Ok(Pi);
    }
    if z == 0.0 {
      return Ok(PiHalf);
    }
    if z == 1.0 {
      return Ok(0.0);
    }
    var root := MathExt.Sqrt(1.0 - z * z, fuel);
    if root.Err? {
      return Err(root.error);
    }
    return Ok(2.0 * DecimalExTrig.ATan(k.oldAtanSeries, root.value / (1.0 + z)));
  }

  /** MathExt.ATan2: the axes by cases, otherwise by the quadrant of (x, y). */
  function ATan2(k: Kernel, y: real, x: real): real
  {
    if x == 0.0 && y == 0.0 then 0.0
    else if x == 0.0 then (if y > 0.0 then PiHalf else -PiHalf)
    else if y == 0.0 then (if x > 0.0 then 0.0 else Pi)
    else
      var quadrant := Point2D.Quadrant(Point(x, y));
      var aTan := DecimalExTrig.ATan(k.oldAtanSeries, y / x);
      if quadrant == Ok(1) then aTan
      else if quadrant == Ok(2) then Pi + aTan
      else if quadrant == Ok(3) then -(Pi - aTan)
      else if quadrant == Ok(4) then aTan
      else 0.0
  }

  /** Dispatching on the quadrant computes what DecimalEx computes by the signs of x and
      y; so the quadrant ranges of DecimalExTrig.ATan2Quadrants hold for the snapshot. */
  lemma ATan2Agrees(k: Kernel, y: real, x: real)
    ensures ATan2(k, y, x) == DecimalExTrig.ATan2(k.oldAtanSeries, y, x)
  {
  }
}
