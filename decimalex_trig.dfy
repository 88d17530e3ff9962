/** The trigonometry of DecimalEx (DecimalEx/DecimalExTrig.cs), in exact arithmetic. The
    Taylor loops are kernel parameters; what is modelled is everything around them: the
    conversions, the range reduction, the exact special values, the reflections and the
    quadrant logic. ATan, ATan2, ASin and ACos take the series as a parameter so that the
    MathExt snapshot, whose code around its own series is the same, shares them. */
module DecimalExTrig {
  import opened Outcomes
  import opened Decimals
  import opened DecimalExConstants
  import opened Numerics
  import DecimalEx

  // ---------------------------------------------------------------------------
  // Degrees and radians

  /** Degrees to radians. Whole multiples of 360, 270, 180, 90, 45 and 15 degrees, tried in
      that order, scale the matching stored constant, so that 90 degrees is exactly PiHalf;
      any other angle is degrees * Pi / 180. */
  function ToRad(degrees: real): real
  {
    if Rem(degrees, 360.0) == 0.0 then (degrees / 360.0) * TwoPi
    else if Rem(degrees, 270.0) == 0.0 then (degrees / 270.0) * (Pi + PiHalf)
    else if Rem(degrees, 180.0) == 0.0 then (degrees / 180.0) * Pi
    else if Rem(degrees, 90.0) == 0.0 then (degrees / 90.0) * PiHalf
    else if Rem(degrees, 45.0) == 0.0 then (degrees / 45.0) * PiQuarter
    else if Rem(degrees, 15.0) == 0.0 then (degrees / 15.0) * PiTwelfth
    else degrees * Pi / 180.0
  }

  /** Radians to degrees: the angle times 180 / Pi. */
  function ToDeg(radians: real): real
  {
    radians * (180.0 / Pi)
  }

  /** Abs(d * e) <= Abs(d) * b when Abs(e) <= b. */
  lemma ScaledError(d: real, e: real, b: real)
    requires Abs(e) <= b
    ensures Abs(d * e) <= Abs(d) * b
  {
    if d > 0.0 {
      MulMono(e, b, d);
      MulMono(-b, e, d);
    } else if d < 0.0 {
      MulMono(e, b, -d);
      MulMono(-b, e, -d);
    }
  }

  /** The stored constants differ from the multiples of Pi they stand for by at most a few
      units of the 28th place, so every branch of ToRad is within |degrees| * 2e-30 of
      degrees * Pi / 180. */
  lemma ToRadAccuracy(degrees: real)
    ensures Abs(ToRad(degrees) - degrees * Pi / 180.0) <= Abs(degrees) * (SmallestNonZeroDec / 50.0)
  {
    var b := SmallestNonZeroDec / 50.0;
    ConstantErrors(b);
    if Rem(degrees, 360.0) == 0.0 {
      BranchError(degrees, 360.0, TwoPi, Pi, b);
    } else if Rem(degrees, 270.0) == 0.0 {
      BranchError(degrees, 270.0, Pi + PiHalf, Pi, b);
    } else if Rem(degrees, 180.0) == 0.0 {
      BranchError(degrees, 180.0, Pi, Pi, b);
    } else if Rem(degrees, 90.0) == 0.0 {
      BranchError(degrees, 90.0, PiHalf, Pi, b);
    } else if Rem(degrees, 45.0) == 0.0 {
      BranchError(degrees, 45.0, PiQuarter, Pi, b);
    } else if Rem(degrees, 15.0) == 0.0 {
      BranchError(degrees, 15.0, PiTwelfth, Pi, b);
    } else {
      assert ToRad(degrees) - degrees * Pi / 180.0 == 0.0;
    }
  }

  /** Each stored constant, divided by the degrees it stands for, is within b of Pi / 180. */
  lemma ConstantErrors(b: real)
    requires b == SmallestNonZeroDec / 50.0
    ensures Abs(TwoPi / 360.0 - Pi / 180.0) <= b && Abs((Pi + PiHalf) / 270.0 - Pi / 180.0) <= b
    ensures Abs(Pi / 180.0 - Pi / 180.0) <= b && Abs(PiHalf / 90.0 - Pi / 180.0) <= b
    ensures Abs(PiQuarter / 45.0 - Pi / 180.0) <= b && Abs(PiTwelfth / 15.0 - Pi / 180.0) <= b
  {
  }

  /** One branch of ToRad: (d / k) * c is off from d * pi / 180 by d times the error of
      the constant per degree. */
  lemma BranchError(d: real, k: real, c: real, pi: real, b: real)
    requires k > 0.0 && Abs(c / k - pi / 180.0) <= b
    ensures Abs((d / k) * c - d * pi / 180.0) <= Abs(d) * b
  {
    var e := c / k - pi / 180.0;
    assert (d / k) * c - d * pi / 180.0 == d * e;
    ScaledError(d, e, b);
  }

  /** Multiples of 360 and of 180 that are not multiples of 270, and angles that are no
      multiple of 15, convert exactly; ToDeg then undoes ToRad. */
  lemma ToRadExact(degrees: real)
    requires Rem(degrees, 360.0) == 0.0 || (Rem(degrees, 270.0) != 0.0 && Rem(degrees, 180.0) == 0.0)
             || Rem(degrees, 15.0) != 0.0
    ensures ToRad(degrees) == degrees * Pi / 180.0
    ensures ToDeg(ToRad(degrees)) == degrees
  {
    if Rem(degrees, 15.0) != 0.0 {
      FifteenDivides(degrees);
    }
  }

  /** A multiple of 360, 270, 180, 90 or 45 is a multiple of 15. */
  lemma FifteenDivides(degrees: real)
    requires Rem(degrees, 15.0) != 0.0
    ensures Rem(degrees, 360.0) != 0.0 && Rem(degrees, 270.0) != 0.0 && Rem(degrees, 180.0) != 0.0
    ensures Rem(degrees, 90.0) != 0.0 && Rem(degrees, 45.0) != 0.0
  {
    MultipleOf(degrees, 360.0, 24);
    MultipleOf(degrees, 270.0, 18);
    MultipleOf(degrees, 180.0, 12);
    MultipleOf(degrees, 90.0, 6);
    MultipleOf(degrees, 45.0, 3);
  }

  /** A multiple of m = 15 * j is a multiple of 15. */
  lemma MultipleOf(x: real, m: real, j: int)
    requires j >= 1 && m == 15.0 * j as real
    ensures Rem(x, m) == 0.0 ==> Rem(x, 15.0) == 0.0
  {
    if Rem(x, m) == 0.0 {
      var t := Trunc(x / m);
      RealOfProduct(j, t);
      MultipleCore(x, m, j as real, t as real, (j * t) as real);
      TruncOfIntegral((j * t) as real);
      IntIsIntegral(j * t);
    }
  }

  lemma MultipleCore(x: real, m: real, j: real, t: real, jt: real)
    requires m == 15.0 * j && j >= 1.0 && x - m * t == 0.0 && jt == j * t
    ensures x / 15.0 == jt
  {
  }

  lemma ToRadExamples()
    ensures ToRad(360.0) == TwoPi && ToRad(270.0) == Pi + PiHalf && ToRad(180.0) == Pi
    ensures ToRad(90.0) == PiHalf && ToRad(45.0) == PiQuarter && ToRad(15.0) == PiTwelfth
    ensures ToRad(-90.0) == -PiHalf && ToRad(720.0) == 2.0 * TwoPi
  {
    assert Trunc(90.0 / 360.0) == 0 && Trunc(90.0 / 270.0) == 0 && Trunc(90.0 / 180.0) == 0;
    assert Trunc(45.0 / 90.0) == 0 && Trunc(15.0 / 45.0) == 0;
    assert Trunc(-90.0 / 360.0) == 0;
  }

  // ---------------------------------------------------------------------------
  // Normalizing angles

  /** The truncated remainder moved up by one period when it is negative: the one value in
      [0, period) that differs from x by a whole number of periods. */
  function WrapAngle(x: real, period: real): (r: real)
    requires period > 0.0
    ensures 0.0 <= r < period
    ensures IsIntegral((r - x) / period)
  {
    var m := Rem(x, period);
    RemBounds(x, period);
    ReverseIntegral(x, m, period);
    if m < 0.0 then
      ShiftIntegral(m - x, period);
      m + period
    else m
  }

  lemma ReverseIntegral(x: real, m: real, p: real)
    requires p > 0.0 && IsIntegral((x - m) / p)
    ensures IsIntegral((m - x) / p)
  {
    assert (m - x) / p == -((x - m) / p);
    IntegralNeg((x - m) / p);
  }

  lemma ShiftIntegral(a: real, p: real)
    requires p > 0.0 && IsIntegral(a / p)
    ensures IsIntegral((a + p) / p)
  {
    QuotientShift(a, p);
    IntegralPlusOne(a / p);
  }

  lemma QuotientTimes(a: real, p: real)
    requires p != 0.0
    ensures (a / p) * p == a
  {
  }

  lemma QuotientShift(a: real, p: real)
    requires p > 0.0
    ensures (a + p) / p == a / p + 1.0
  {
    QuotientTimes(a, p);
    QuotientTimes(a + p, p);
    StepCore(a, p, a / p, (a + p) / p);
  }

  lemma StepCore(a: real, p: real, q: real, r: real)
    requires p > 0.0 && q * p == a && r * p == a + p
    ensures r == q + 1.0
  {
    assert (r - q) * p == r * p - q * p;
    CancelPositive(r - q, 1.0, p);
  }

  lemma IntegralPlusOne(q: real)
    requires IsIntegral(q)
    ensures IsIntegral(q + 1.0)
  {
    assert (q + 1.0).Floor == q.Floor + 1;
  }

  lemma CancelPositive(u: real, v: real, p: real)
    requires p > 0.0 && u * p == v * p
    ensures u == v
  {
    if u < v {
      MulStrict(u, v, p);
    } else if v < u {
      MulStrict(v, u, p);
    }
  }

  /** Quotients by p of two values measured from x differ by their distance over p. */
  lemma DiffOfQuotients(w: real, a: real, x: real, p: real, m: real, n: real)
    requires p > 0.0 && m == (w - x) / p && n == (a - x) / p
    ensures w - a == (m - n) * p
  {
    assert m * p == w - x;
    assert n * p == a - x;
  }

  /** The only multiple of p strictly between -p and p is 0. */
  lemma ZeroMultiple(d: real, p: real, i: int)
    requires p > 0.0 && -p < d < p && d == i as real * p
    ensures i == 0
  {
    if i >= 1 {
      MulMono(1.0, i as real, p);
    } else if i <= -1 {
      MulMono(i as real, -1.0, p);
    }
  }

  /** WrapAngle is the only value in [0, period) that differs from x by whole periods. */
  lemma WrapUnique(x: real, period: real, w: real)
    requires period > 0.0 && 0.0 <= w < period && IsIntegral((w - x) / period)
    ensures w == WrapAngle(x, period)
  {
    var a := WrapAngle(x, period);
    var m := (w - x) / period;
    var n := (a - x) / period;
    DiffOfQuotients(w, a, x, period, m, n);
    var i := m.Floor - n.Floor;
    assert m - n == i as real;
    ZeroMultiple(w - a, period, i);
  }

  /** Normalizing twice is normalizing once. */
  lemma WrapIdempotent(x: real, period: real)
    requires period > 0.0
    ensures WrapAngle(WrapAngle(x, period), period) == WrapAngle(x, period)
  {
    var w := WrapAngle(x, period);
    assert (w - w) / period == 0.0;
    IntIsIntegral(0);
    WrapUnique(w, period, w);
  }

  /** Angles a whole number of periods apart normalize to the same value. */
  lemma WrapPeriodic(x: real, period: real, n: int)
    requires period > 0.0
    ensures WrapAngle(x + n as real * period, period) == WrapAngle(x, period)
  {
    var y := x + n as real * period;
    var w := WrapAngle(y, period);
    var q := (w - y) / period;
    var m := (w - x) / period;
    assert q * period == w - y;
    assert m * period == w - x;
    assert (m - q) * period == n as real * period;
    CancelPositive(m - q, n as real, period);
    IntIsIntegral(q.Floor + n);
    WrapUnique(x, period, w);
  }

  /** DecimalEx.NormalizeAngleDeg: lands in [0, 360) a whole number of turns from the
      input. */
  function NormalizeAngleDeg(degrees: real): (r: real)
    ensures 0.0 <= r < 360.0
    ensures IsIntegral((r - degrees) / 360.0)
  {
    WrapAngle(degrees, 360.0)
  }

  lemma NormalizeAngleDegExamples()
    ensures NormalizeAngleDeg(0.0) == 0.0 && NormalizeAngleDeg(360.0) == 0.0
    ensures NormalizeAngleDeg(-360.0) == 0.0 && NormalizeAngleDeg(-180.0) == 180.0
    ensures NormalizeAngleDeg(810.0) == 90.0 && NormalizeAngleDeg(-90.0) == 270.0
    ensures NormalizeAngleDeg(522277854577893.0) == 333.0
    ensures NormalizeAngleDeg(-522277854577893.0) == 27.0
  {
    assert Trunc(810.0 / 360.0) == 2;
    assert Trunc(522277854577893.0 / 360.0) == 1450771818271;
    assert Trunc(-522277854577893.0 / 360.0) == -1450771818271;
  }

  /** DecimalEx.NormalizeAngle: Remainder by TwoPi, moved up by TwoPi when negative. */
  method NormalizeAngle(radians: real) returns (r: real)
    ensures r == WrapAngle(radians, TwoPi)
    ensures 0.0 <= r < TwoPi
  {
    TableConstants();
    var m := DecimalEx.Remainder(radians, TwoPiDec);
    r := m.value;
    if r < 0.0 {
      r := r + TwoPi;
    }
  }

  lemma NormalizeAngleExamples()
    ensures WrapAngle(0.0, TwoPi) == 0.0 && WrapAngle(-Pi, TwoPi) == Pi
    ensures WrapAngle(-TwoPi, TwoPi) == 0.0 && WrapAngle(3.0 * Pi, TwoPi) == Pi
  {
    TableConstants();
    assert Trunc(-Pi / TwoPi) == 0 && Trunc(3.0 * Pi / TwoPi) == 1;
  }

  // ---------------------------------------------------------------------------
  // Sine, cosine, tangent

  /** The exact special values of Sin at a reduced angle t, else the series at t. */
  function SinAt(series: real -> real, t: real): real
  {
    if t == 0.0 || t == Pi || t == TwoPi then 0.0
    else if t == PiHalf then 1.0
    else if t == Pi + PiHalf then -1.0
    else series(t)
  }

  /** The exact special values of Cos at a reduced angle t, else the series at t. */
  function CosAt(series: real -> real, t: real): real
  {
    if t == 0.0 || t == TwoPi then 1.0
    else if t == Pi then -1.0
    else if t == PiHalf || t == Pi + PiHalf then 0.0
    else series(t)
  }

  /** The reduction of Sin and Cos: the truncated remainder by TwoPi, strictly inside
      (-TwoPi, TwoPi), so the test for TwoPi never succeeds. */
  lemma ReducedRange(x: real)
    ensures -TwoPi < Rem(x, TwoPi) < TwoPi
    ensures Rem(x, TwoPi) != TwoPi
  {
    RemBounds(x, TwoPi);
  }

  /** For non-negative angles the reduction forgets whole turns. */
  lemma {:induction false} ReducedPeriodic(x: real, n: nat)
    requires x >= 0.0
    ensures Rem(x + n as real * TwoPi, TwoPi) == Rem(x, TwoPi)
    decreases n
  {
    if n > 0 {
      ReducedPeriodic(x, n - 1);
      var y := x + (n - 1) as real * TwoPi;
      assert x + n as real * TwoPi == y + TwoPi;
      assert y >= 0.0;
      assert (y + TwoPi) / TwoPi == y / TwoPi + 1.0;
      assert Trunc((y + TwoPi) / TwoPi) == Trunc(y / TwoPi) + 1;
    }
  }

  /** DecimalEx.Sin. */
  method Sin(k: Kernel, x: real) returns (r: real)
    ensures r == SinAt(k.sinSeries, Rem(x, TwoPi))
  {
    TableConstants();
    var m := DecimalEx.Remainder(x, TwoPiDec);
    var t := m.value;
    if t == 0.0 || t == Pi || t == TwoPi {
      return 0.0;
    }
    if t == PiHalf {
      return 1.0;
    }
    if t == Pi + PiHalf {
      return -1.0;
    }
    return k.sinSeries(t);
  }

  /** DecimalEx.Cos. */
  method Cos(k: Kernel, x: real) returns (r: real)
    ensures r == CosAt(k.cosSeries, Rem(x, TwoPi))
  {
    TableConstants();
    var m := DecimalEx.Remainder(x, TwoPiDec);
    var t := m.value;
    if t == 0.0 || t == TwoPi {
      return 1.0;
    }
    if t == Pi {
      return -1.0;
    }
    if t == PiHalf || t == Pi + PiHalf {
      return 0.0;
    }
    return k.cosSeries(t);
  }

  /** Whole turns past 0, PiHalf, Pi and Pi + PiHalf, Sin and Cos give the exact values of
      the unit circle whatever the series. */
  lemma SpecialValues(sinSeries: real -> real, cosSeries: real -> real, n: nat)
    ensures SinAt(sinSeries, Rem(n as real * TwoPi, TwoPi)) == 0.0
    ensures CosAt(cosSeries, Rem(n as real * TwoPi, TwoPi)) == 1.0
    ensures SinAt(sinSeries, Rem(PiHalf + n as real * TwoPi, TwoPi)) == 1.0
    ensures CosAt(cosSeries, Rem(PiHalf + n as real * TwoPi, TwoPi)) == 0.0
    ensures SinAt(sinSeries, Rem(Pi + n as real * TwoPi, TwoPi)) == 0.0
    ensures CosAt(cosSeries, Rem(Pi + n as real * TwoPi, TwoPi)) == -1.0
    ensures SinAt(sinSeries, Rem(Pi + PiHalf + n as real * TwoPi, TwoPi)) == -1.0
    ensures CosAt(cosSeries, Rem(Pi + PiHalf + n as real * TwoPi, TwoPi)) == 0.0
  {
    ReducedPeriodic(0.0, n);
    ReducedPeriodic(PiHalf, n);
    ReducedPeriodic(Pi, n);
    ReducedPeriodic(Pi + PiHalf, n);
    assert 0.0 + n as real * TwoPi == n as real * TwoPi;
    assert Trunc(0.0 / TwoPi) == 0 && Trunc(PiHalf / TwoPi) == 0;
    assert Trunc(Pi / TwoPi) == 0 && Trunc((Pi + PiHalf) / TwoPi) == 0;
  }

  /** DecimalEx.Tan: Sin over Cos; the division by a zero cosine becomes a generic
      Exception. */
  method Tan(k: Kernel, radians: real) returns (r: Result<real>)
    ensures CosAt(k.cosSeries, Rem(radians, TwoPi)) == 0.0 ==> r == Err(GenericException)
    ensures CosAt(k.cosSeries, Rem(radians, TwoPi)) != 0.0 ==>
      r == Ok(SinAt(k.sinSeries, Rem(radians, TwoPi)) / CosAt(k.cosSeries, Rem(radians, TwoPi)))
  {
    var s := Sin(k, radians);
    var c := Cos(k, radians);
    if c == 0.0 {
      return Err(GenericException);
    }
    return Ok(s / c);
  }

  // ---------------------------------------------------------------------------
  // Inverse functions

  lemma ZeroOver(d: real)
    requires d != 0.0
    ensures 0.0 / d == 0.0
  {
    QuotientTimes(0.0, d);
    ZeroFactor(0.0 / d, d);
  }

  lemma ZeroFactor(q: real, d: real)
    requires d != 0.0 && q * d == 0.0
    ensures q == 0.0
  {
    if q != 0.0 {
      NonzeroProduct(q, d);
    }
  }

  /** 1/x for |x| > 1 lies strictly inside (-1, 1), on the side of x. */
  lemma Reciprocal(x: real)
    requires x < -1.0 || x > 1.0
    ensures x > 1.0 ==> 0.0 < 1.0 / x < 1.0
    ensures x < -1.0 ==> -1.0 < 1.0 / x < 0.0
  {
    ReciprocalOf(x, 1.0 / x);
  }

  lemma ReciprocalOf(x: real, q: real)
    requires x < -1.0 || x > 1.0
    requires q == 1.0 / x
    ensures x > 1.0 ==> 0.0 < q < 1.0
    ensures x < -1.0 ==> -1.0 < q < 0.0
  {
    assert q * x == 1.0;
  }

  /** ATan: exact at -1, 0 and 1; arguments outside [-1, 1] are reflected through
      +-PiHalf - ATan(1/x), so the series only ever sees |x| < 1. */
  function ATan(series: real -> real, x: real): real
    decreases if x < -1.0 || x > 1.0 then 1 else 0
  {
    if x == -1.0 then -PiQuarter
    else if x == 0.0 then 0.0
    else if x == 1.0 then PiQuarter
    else if x < -1.0 then
      Reciprocal(x);
      -PiHalf - ATan(series, 1.0 / x)
    else if x > 1.0 then
      Reciprocal(x);
      PiHalf - ATan(series, 1.0 / x)
    else series(x)
  }

  /** The reflection reaches the series in one step. */
  lemma ATanReflection(series: real -> real, x: real)
    ensures -1.0 < x < 1.0 && x != 0.0 ==> ATan(series, x) == series(x)
    ensures x > 1.0 ==> ATan(series, x) == PiHalf - series(1.0 / x) && 0.0 < 1.0 / x < 1.0
    ensures x < -1.0 ==> ATan(series, x) == -PiHalf - series(1.0 / x) && -1.0 < 1.0 / x < 0.0
  {
    if x < -1.0 || x > 1.0 {
      Reciprocal(x);
    }
  }

  /** The shape of arctan on (-1, 0) and (0, 1): the sign of its argument and a magnitude
      below PiQuarter. An assumption about the series, stated where it is used. */
  ghost predicate ArctanShaped(series: real -> real)
  {
    (forall t :: 0.0 < t < 1.0 ==> 0.0 < series(t) < PiQuarter) &&
    (forall t :: -1.0 < t < 0.0 ==> -PiQuarter < series(t) < 0.0)
  }

  /** The oddness of arctan on (-1, 1). */
  ghost predicate OddOnUnit(series: real -> real)
  {
    forall t :: -1.0 < t < 1.0 ==> series(-t) == -series(t)
  }

  /** With a series of the right shape ATan has the sign of its argument and stays inside
      (-PiHalf, PiHalf), inside [-PiQuarter, PiQuarter] on [-1, 1]. */
  lemma ATanRange(series: real -> real, x: real)
    requires ArctanShaped(series)
    ensures x > 0.0 ==> 0.0 < ATan(series, x) < PiHalf
    ensures x < 0.0 ==> -PiHalf < ATan(series, x) < 0.0
    ensures x == 0.0 ==> ATan(series, x) == 0.0
    ensures -1.0 <= x <= 1.0 ==> -PiQuarter <= ATan(series, x) <= PiQuarter
    ensures x > 1.0 ==> PiQuarter < ATan(series, x)
    ensures x < -1.0 ==> ATan(series, x) < -PiQuarter
    ensures ATan(series, -1.0) == -PiQuarter && ATan(series, 1.0) == PiQuarter
  {
    TableConstants();
    ATanReflection(series, x);
  }

  /** With an odd series ATan is odd. */
  lemma ATanOdd(series: real -> real, x: real)
    requires OddOnUnit(series)
    ensures ATan(series, -x) == -ATan(series, x)
  {
    ATanReflection(series, x);
    ATanReflection(series, -x);
    if x < -1.0 || x > 1.0 {
      assert 1.0 / (-x) == -(1.0 / x);
    }
  }

  /** ATan2: the axes by cases, otherwise ATan(y/x) moved by Pi into the left half-plane. */
  function ATan2(series: real -> real, y: real, x: real): real
  {
    if x == 0.0 && y == 0.0 then 0.0
    else if x == 0.0 then (if y > 0.0 then PiHalf else -PiHalf)
    else if y == 0.0 then (if x > 0.0 then 0.0 else Pi)
    else
      var aTan := ATan(series, y / x);
      if x > 0.0 then aTan
      else if y > 0.0 then aTan + Pi
      else aTan - Pi
  }

  /** The quotient y/x has the sign of y times the sign of x. */
  lemma QuotientSign(y: real, x: real)
    requires x != 0.0 && y != 0.0
    ensures (x > 0.0) == (y > 0.0) ==> y / x > 0.0
    ensures (x > 0.0) != (y > 0.0) ==> y / x < 0.0
  {
    assert (y / x) * x == y;
    if x > 0.0 && y / x <= 0.0 {
      MulMono(y / x, 0.0, x);
    } else if x < 0.0 && y / x * (-x) == -y && y / x <= 0.0 {
      MulMono(y / x, 0.0, -x);
    } else if x < 0.0 && y / x >= 0.0 {
      MulMono(0.0, y / x, -x);
    } else if x > 0.0 && y / x >= 0.0 {
      MulMono(0.0, y / x, x);
    }
  }

  /** The quadrants promised by the documentation of ATan2: (0, PiHalf) in the first,
      (PiHalf, Pi] in the second, (-Pi, -PiHalf) in the third, (-PiHalf, 0) in the fourth,
      and always within [-Pi, Pi]. */
  lemma ATan2Quadrants(series: real -> real, y: real, x: real)
    requires ArctanShaped(series)
    ensures x > 0.0 && y > 0.0 ==> 0.0 < ATan2(series, y, x) < PiHalf
    ensures x < 0.0 && y > 0.0 ==> PiHalf < ATan2(series, y, x) <= Pi
    ensures x < 0.0 && y < 0.0 ==> -Pi < ATan2(series, y, x) < -PiHalf
    ensures x > 0.0 && y < 0.0 ==> -PiHalf < ATan2(series, y, x) < 0.0
    ensures -Pi <= ATan2(series, y, x) <= Pi
  {
    if x != 0.0 && y != 0.0 {
      QuotientSign(y, x);
      ATanRange(series, y / x);
    }
  }

  /** ASin from the square root of 1 - z*z (an outcome of Sqrt): out-of-range arguments
      are refused, -1, 0 and 1 are exact, and otherwise 2 * ATan(z / (1 + root)). */
  function ASinFrom(series: real -> real, z: real, root: Result<real>): Result<real>
    requires root.Ok? ==> root.value >= 0.0
  {
    if z < -1.0 || z > 1.0 then Err(ArgumentOutOfRangeException)
    else if z == -1.0 then Ok(-PiHalf)
    else if z == 0.0 then Ok(0.0)
    else if z == 1.0 then Ok(PiHalf)
    else if root.Err? then Err(root.error)
    else Ok(2.0 * ATan(series, z / (1.0 + root.value)))
  }

  /** ACos from the square root of 1 - z*z: out-of-range arguments are refused, -1, 0 and 1
      are exact, and otherwise 2 * ATan(root / (1 + z)). */
  function ACosFrom(series: real -> real, z: real, root: Result<real>): Result<real>
  {
    if z < -1.0 || z > 1.0 then Err(ArgumentOutOfRangeException)
    else if z == -1.0 then Ok(Pi)
    else if z == 0.0 then Ok(PiHalf)
    else if z == 1.0 then Ok(0.0)
    else if root.Err? then Err(root.error)
    else Ok(2.0 * ATan(series, root.value / (1.0 + z)))
  }

  /** DecimalEx.ASin. */
  method ASin(k: Kernel, z: real, fuel: nat) returns (r: Result<real>)
    ensures r == ASinFrom(k.atanSeries, z, DecimalEx.SqrtOutcome(k, 1.0 - z * z))
  {
    if z < -1.0 || z > 1.0 {
      return Err(ArgumentOutOfRangeException);
    }
    if z == -1.0 {
      return Ok(-PiHalf);
    }
    if z == 0.0 {
      return Ok(0.0);
    }
    if z == 1.0 {
      return Ok(PiHalf);
    }
    var root := DecimalEx.Sqrt(k, 1.0 - z * z, fuel);
    if root.Err? {
      return Err(root.error);
    }
    return Ok(2.0 * ATan(k.atanSeries, z / (1.0 + root.value)));
  }

  /** DecimalEx.ACos. */
  method ACos(k: Kernel, z: real, fuel: nat) returns (r: Result<real>)
    ensures r == ACosFrom(k.atanSeries, z, DecimalEx.SqrtOutcome(k, 1.0 - z * z))
  {
    if z < -1.0 || z > 1.0 {
      return Err(ArgumentOutOfRangeException);
    }
    if z == -1.0 {
      return Ok(Pi);
    }
    if z == 0.0 {
      return Ok(PiHalf);
    }
    if z == 1.0 {
      return Ok(0.0);
    }
    var root := DecimalEx.Sqrt(k, 1.0 - z * z, fuel);
    if root.Err? {
      return Err(root.error);
    }
    return Ok(2.0 * ATan(k.atanSeries, root.value / (1.0 + z)));
  }

  /** Dividing by a number of at least 1 keeps the sign and does not grow the magnitude. */
  lemma ShrinkingQuotient(z: real, d: real)
    requires d >= 1.0
    ensures Abs(z / d) <= Abs(z)
    ensures z > 0.0 ==> z / d > 0.0
    ensures z < 0.0 ==> z / d < 0.0
  {
    QuotientTimes(z, d);
    ShrinkCore(z, d, z / d);
  }

  lemma ShrinkCore(z: real, d: real, q: real)
    requires d >= 1.0 && q * d == z
    ensures Abs(q) <= Abs(z)
    ensures z > 0.0 ==> q > 0.0
    ensures z < 0.0 ==> q < 0.0
  {
    if q > 0.0 {
      MulMono(1.0, d, q);
      assert d * q == z;
    } else if q < 0.0 {
      MulMono(1.0, d, -q);
      assert d * (-q) == -z;
    } else {
      assert z == 0.0;
    }
  }

  /** ASin only fails for arguments outside [-1, 1] or when the root does not converge, and
      with any non-negative root and a series of the right shape it lands in
      [-PiHalf, PiHalf] with the sign of z. */
  lemma ASinRange(series: real -> real, z: real, root: Result<real>)
    requires root.Ok? ==> root.value >= 0.0
    requires ArctanShaped(series)
    ensures ASinFrom(series, z, root).Err? <==> z < -1.0 || z > 1.0 || (root.Err? && z != -1.0 && z != 0.0 && z != 1.0 && -1.0 < z < 1.0)
    ensures ASinFrom(series, z, root).Ok? ==>
      -PiHalf <= ASinFrom(series, z, root).value <= PiHalf &&
      Sign(ASinFrom(series, z, root).value) == Sign(z)
    ensures z < -1.0 || z > 1.0 ==> ASinFrom(series, z, root) == Err(ArgumentOutOfRangeException)
    ensures z == -1.0 ==> ASinFrom(series, z, root) == Ok(-PiHalf)
    ensures z == 0.0 ==> ASinFrom(series, z, root) == Ok(0.0)
    ensures z == 1.0 ==> ASinFrom(series, z, root) == Ok(PiHalf)
  {
    TableConstants();
    if -1.0 < z < 1.0 && z != 0.0 && root.Ok? {
      var t := z / (1.0 + root.value);
      ShrinkingQuotient(z, 1.0 + root.value);
      ATanRange(series, t);
    }
  }

  /** ACos fails in the same cases, and otherwise lands in [0, Pi]. */
  lemma ACosRange(series: real -> real, z: real, root: Result<real>)
    requires root.Ok? ==> root.value >= 0.0
    requires ArctanShaped(series)
    ensures ACosFrom(series, z, root).Err? <==> z < -1.0 || z > 1.0 || (root.Err? && z != -1.0 && z != 0.0 && z != 1.0 && -1.0 < z < 1.0)
    ensures ACosFrom(series, z, root).Ok? ==> 0.0 <= ACosFrom(series, z, root).value <= Pi
    ensures z < -1.0 || z > 1.0 ==> ACosFrom(series, z, root) == Err(ArgumentOutOfRangeException)
    ensures z == -1.0 ==> ACosFrom(series, z, root) == Ok(Pi)
    ensures z == 0.0 ==> ACosFrom(series, z, root) == Ok(PiHalf)
    ensures z == 1.0 ==> ACosFrom(series, z, root) == Ok(0.0)
  {
    TableConstants();
    if -1.0 < z < 1.0 && z != 0.0 && root.Ok? {
      var t := root.value / (1.0 + z);
      if root.value > 0.0 {
        QuotientSign(root.value, 1.0 + z);
      } else {
        ZeroOver(1.0 + z);
      }
      ATanRange(series, t);
    }
  }
}
