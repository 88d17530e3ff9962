/** The older MathExt snapshot of the kernel (MathExt/MathExt.cs): a square root whose seed
    is found in decimal arithmetic, GCF over integers obtained by scaling, Log with its
    range reduction, the first SolveQuadratic, and Max/Min. */
module MathExt {
  import opened Outcomes
  import opened Decimals
  import opened DecimalExConstants
  import opened Numerics
  import opened Quadratics
  import DecimalEx

  // Square root

  /** Bounds how many more times a loop can divide s by ten or more while s > 1. */
  function Magnitude(s: real): nat
  {
    if s >= 1.0 then
      assert Floor(s) as real > s - 1.0;
      Floor(s)
    else 0
  }

  lemma MagnitudeDecreases(s: real, f: real)
    requires s > 1.0 && f >= 10.0
    ensures Magnitude(s / f) < Magnitude(s)
  {
    assert s / f <= s / 10.0;
  }

  /** How many times the estimate loop of MathExt.Sqrt divides by 100. */
  function EstimateExponent(s: real): nat
    decreases Magnitude(s)
  {
    if s >= 100.0 then
      MagnitudeDecreases(s, 100.0);
      1 + EstimateExponent(s / 100.0)
    else 0
  }

  /** What is left of s when the estimate loop stops. */
  function EstimateRest(s: real): real
    decreases Magnitude(s)
  {
    if s >= 100.0 then
      MagnitudeDecreases(s, 100.0);
      EstimateRest(s / 100.0)
    else s
  }

  /** The Newton seed of MathExt.Sqrt: 2 or 6 times 10^k, by the leading digits of s. */
  function SqrtEstimate(s: real): real
  {
    var m := IntPow10(EstimateExponent(s)) as real;
    if EstimateRest(s) < 10.0 then 2.0 * m else 6.0 * m
  }

  /** The estimate loop writes s as rest * 100^k with rest below 100, and at least 1 when
      s is. */
  lemma {:induction false} EstimateSpec(s: real)
    requires s > 0.0
    ensures 0.0 < EstimateRest(s) < 100.0
    ensures s >= 1.0 ==> EstimateRest(s) >= 1.0
    ensures s == EstimateRest(s) * IntPow10(2 * EstimateExponent(s)) as real
    decreases Magnitude(s)
  {
    if s >= 100.0 {
      MagnitudeDecreases(s, 100.0);
      EstimateSpec(s / 100.0);
      var k := EstimateExponent(s / 100.0);
      HundredStep(k, EstimateRest(s / 100.0), s / 100.0);
    }
  }

  lemma HundredStep(k: nat, rest: real, t: real)
    requires t == rest * IntPow10(2 * k) as real
    ensures 100.0 * t == rest * IntPow10(2 * (k + 1)) as real
  {
    assert IntPow10(2 * k + 2) == 100 * IntPow10(2 * k);
    assert 2 * (k + 1) == 2 * k + 2;
  }

  /** The seed is positive and of the form 2 * 10^k or 6 * 10^k. */
  lemma SqrtEstimateShape(s: real)
    ensures SqrtEstimate(s) > 0.0
    ensures SqrtEstimate(s) == 2.0 * IntPow10(EstimateExponent(s)) as real ||
            SqrtEstimate(s) == 6.0 * IntPow10(EstimateExponent(s)) as real
  {
  }

  lemma EstimateStep(t: real, m: real, j: nat)
    requires t >= 100.0 && m == IntPow10(j) as real
    ensures Magnitude(t / 100.0) < Magnitude(t)
    ensures EstimateRest(t / 100.0) == EstimateRest(t)
    ensures EstimateExponent(t) == 1 + EstimateExponent(t / 100.0)
    ensures m * 10.0 == IntPow10(j + 1) as real
  {
    MagnitudeDecreases(t, 100.0);
  }

  lemma EstimateDone(s: real, t: real, m: real, j: nat)
    requires t < 100.0 && EstimateRest(t) == EstimateRest(s)
    requires EstimateExponent(s) == j + EstimateExponent(t) && m == IntPow10(j) as real
    ensures (if t < 10.0 then 2.0 * m else 6.0 * m) == SqrtEstimate(s) > 0.0
  {
  }

  /** The seed loop of MathExt.Sqrt: divide by 100 and multiply the estimate by 10 while
      the argument is at least 100, then take 2 or 6 times the multiplier. */
  method Estimate(s: real) returns (x: real)
    requires s > 0.0
    ensures x == SqrtEstimate(s) && x > 0.0
  {
    var sForEstimate := s;
    var estimateMultiplier := 1.0;
    ghost var j: nat := 0;
    while sForEstimate >= 100.0
      invariant EstimateRest(sForEstimate) == EstimateRest(s)
      invariant EstimateExponent(s) == j + EstimateExponent(sForEstimate)
      invariant estimateMultiplier == IntPow10(j) as real
      decreases Magnitude(sForEstimate)
    {
      EstimateStep(sForEstimate, estimateMultiplier, j);
      estimateMultiplier := estimateMultiplier * 10.0;
      sForEstimate := sForEstimate / 100.0;
      j := j + 1;
    }
    x := if sForEstimate < 10.0 then 2.0 * estimateMultiplier else 6.0 * estimateMultiplier;
    EstimateDone(s, sForEstimate, estimateMultiplier, j);
  }

    /** What MathExt.Sqrt returns, in exact arithmetic, with SqrtEstimate as the seed. */
  function SqrtOutcome(s: real): (r: Result<real>)
    ensures r.Err? <==> s < 0.0 || (s > 0.0 && s != SmallestNonZeroDec && SqrtEstimate(s) * SqrtEstimate(s) != s)
    ensures r.Ok? ==> r.value >= 0.0 && (s != SmallestNonZeroDec ==> r.value * r.value == s)
  {
    if s < 0.0 then Err(ArgumentException)
    else if s == 0.0 || s == SmallestNonZeroDec then Ok(0.0)
    else if SqrtEstimate(s) * SqrtEstimate(s) == s then Ok(SqrtEstimate(s))
    else Err(NotConverged)
  }

/** MathExt.Sqrt: the guards of DecimalEx.Sqrt, a seed found by dividing s by 100 while it
      is at least 100, then the same Babylonian loop (DecimalEx.Newton). */
  method Sqrt(s: real, fuel: nat) returns (r: Result<real>)
    ensures r == SqrtOutcome(s)
    ensures s < 0.0 ==> r == Err(ArgumentException)
    ensures s == 0.0 || s == SmallestNonZeroDec ==> r == Ok(0.0)
    ensures s > 0.0 && s != SmallestNonZeroDec ==>
      r == (if SqrtEstimate(s) * SqrtEstimate(s) == s then Ok(SqrtEstimate(s)) else Err(NotConverged))
    ensures r.Ok? ==> r.value >= 0.0 && (s != SmallestNonZeroDec ==> r.value * r.value == s)
  {
    if s < 0.0 {
      return Err(ArgumentException);
    }
    if s == 0.0 || s == SmallestNonZeroDec {
      return Ok(0.0);
    }
    var x := Estimate(s);
    r := DecimalEx.Newton(s, x, fuel);
  }

  // Greatest common factor

  /** d * 10^j, as decimal multiplication by ten j times leaves it: the coefficient grows,
      the scale stays. */
  function Shifted(d: Dec, j: nat): Dec
  {
    Dec(d.coeff * IntPow10(j), d.scale)
  }

  /** Scaling both arguments by 10^j scales their greatest common factor by 10^j. */
  lemma GcfShifted(a: Dec, b: Dec, j: nat)
    ensures Value(DecimalEx.GcfValue(Shifted(a, j), Shifted(b, j))) ==
            IntPow10(j) as real * Value(DecimalEx.GcfValue(a, b))
  {
    GcfShiftedCoeff(a, b, j);
    ShiftedValue(DecimalEx.GcfValue(a, b), j);
  }

  /** Shifting by j places multiplies the value by 10^j. */
  lemma ShiftedValue(d: Dec, j: nat)
    ensures Value(Shifted(d, j)) == IntPow10(j) as real * Value(d)
  {
    ScaledQuotient(d.coeff, IntPow10(j), IntPow10(d.scale));
  }

  /** Dividing (c * p) / q by p gives c / q back. */
  lemma Unshift(c: int, p: nat, q: nat, u: real, w: real)
    requires p >= 1 && q >= 1
    requires u == (c * p) as real / q as real && w == c as real / q as real
    ensures u / p as real == w
  {
    ScaledQuotient(c, p, q);
  }

  lemma GcfShiftedCoeff(a: Dec, b: Dec, j: nat)
    ensures DecimalEx.GcfValue(Shifted(a, j), Shifted(b, j)) ==
            Shifted(DecimalEx.GcfValue(a, b), j)
  {
    var s := CommonScale(a, b);
    assert CommonScale(Shifted(a, j), Shifted(b, j)) == s;
    CoeffAtShifted(a, j, s);
    CoeffAtShifted(b, j, s);
    EuclidShifted(CoeffAt(a, s), CoeffAt(b, s), IntPow10(j),
                  CoeffAt(Shifted(a, j), s), CoeffAt(Shifted(b, j), s));
  }

  lemma EuclidShifted(x: int, y: int, p: int, x': int, y': int)
    requires p > 0 && x' == p * x && y' == p * y
    ensures DecimalEx.Euclid(x', y') == DecimalEx.Euclid(x, y) * p
  {
    DecimalEx.EuclidScale(x, y, p);
  }

  lemma ScaledQuotient(e: int, p: nat, q: nat)
    requires q >= 1
    ensures (e * p) as real / q as real == p as real * (e as real / q as real)
  {
    RealOfProduct(e, p);
  }

  lemma CoeffAtShifted(d: Dec, j: nat, s: nat)
    requires d.scale <= s
    ensures CoeffAt(Shifted(d, j), s) == IntPow10(j) * CoeffAt(d, s)
  {
    ProductRegroup(d.coeff, IntPow10(j), IntPow10(s - d.scale));
  }

  lemma ProductRegroup(c: int, p: int, q: int)
    ensures c * p * q == p * (c * q)
  {
  }

  /** At scale a.scale or beyond a decimal is a whole number. */
  lemma ShiftedIntegral(d: Dec, j: nat)
    requires d.scale <= j
    ensures IsIntegral(Value(Shifted(d, j)))
  {
    IntPow10Add(d.scale, j - d.scale);
    assert d.scale + (j - d.scale) == j;
    var m := d.coeff * IntPow10(j - d.scale);
    RescaleQuotient(m, 1, IntPow10(d.scale), IntPow10(d.scale));
    assert d.coeff * IntPow10(j) == m * IntPow10(d.scale) by {
      assert IntPow10(j) == IntPow10(d.scale) * IntPow10(j - d.scale);
    }
    assert Value(Shifted(d, j)) == m as real;
    IntIsIntegral(m);
  }

  lemma ShiftStep(d: Dec, j: nat)
    ensures Dec(Shifted(d, j).coeff * 10, d.scale) == Shifted(d, j + 1)
    ensures IntPow10(j) as real * 10.0 == IntPow10(j + 1) as real
  {
    assert d.coeff * IntPow10(j) * 10 == d.coeff * (10 * IntPow10(j));
  }

  /** While one of the shifted values is not whole, the common scale has not been reached. */
  lemma ScaleBound(a: Dec, b: Dec, j: nat)
    requires j <= CommonScale(a, b)
    requires !IsIntegral(Value(Shifted(a, j))) || !IsIntegral(Value(Shifted(b, j)))
    ensures j < CommonScale(a, b)
  {
    if j == CommonScale(a, b) {
      ShiftedIntegral(a, j);
      ShiftedIntegral(b, j);
    }
  }

  /** MathExt.GCF: multiplies a, b and an adjustment by ten until a and b are both whole
      numbers, runs Euclid's algorithm on them (the loop of DecimalEx.GCF), and divides the
      result by the adjustment. */
  method GCF(a: Dec, b: Dec) returns (r: real)
    ensures r == Value(DecimalEx.GcfValue(a, b))
  {
    var x, y, decAdj, j := ToIntegers(a, b);
    var g := DecimalEx.GCF(x, y);
    ghost var d := DecimalEx.GcfValue(a, b);
    GcfShiftedCoeff(a, b, j);
    r := Value(g) / decAdj;
    Unshift(d.coeff, IntPow10(j), IntPow10(d.scale), Value(g), Value(d));
  }

  /** The first loop of MathExt.GCF: a, b and the adjustment times ten until a and b are
      both whole. */
  method ToIntegers(a: Dec, b: Dec) returns (x: Dec, y: Dec, decAdj: real, ghost j: nat)
    ensures x == Shifted(a, j) && y == Shifted(b, j) && decAdj == IntPow10(j) as real
    ensures IsIntegral(Value(x)) && IsIntegral(Value(y))
  {
    decAdj := 1.0;
    x, y := a, b;
    j := 0;
    while !IsIntegral(Value(x)) || !IsIntegral(Value(y))
      invariant j <= CommonScale(a, b)
      invariant x == Shifted(a, j) && y == Shifted(b, j)
      invariant decAdj == IntPow10(j) as real
      decreases CommonScale(a, b) - j
    {
      ScaleBound(a, b, j);
      decAdj := decAdj * 10.0;
      x := Dec(x.coeff * 10, x.scale);
      y := Dec(y.coeff * 10, y.scale);
      ShiftStep(a, j);
      ShiftStep(b, j);
      j := j + 1;
    }
  }

  // Natural logarithm

  /** The argument after the divide loop of MathExt.Log, and the number of divisions. */
  function LogReduction(d: real): (real, nat)
    decreases Magnitude(d)
  {
    if d > 1.0 then
      MagnitudeDecreases(d, 10.0);
      var (x, n) := LogReduction(d / 10.0);
      (x, n + 1)
    else (d, 0)
  }

  /** For d > 1 the loop leaves x in (0.1, 1] with d == x * 10^n and n >= 1, so the
      recursive call Log(x) never takes this branch again. */
  lemma {:induction false} LogReductionSpec(d: real)
    requires d > 1.0
    ensures var (x, n) := LogReduction(d);
      0.1 < x <= 1.0 && n >= 1 && d == x * IntPow10(n) as real
    decreases Magnitude(d)
  {
    MagnitudeDecreases(d, 10.0);
    var t := d / 10.0;
    var r := LogReduction(t);
    assert LogReduction(d) == (r.0, r.1 + 1);
    if t > 1.0 {
      LogReductionSpec(t);
      TenStep(r.1, r.0, t);
    } else {
      assert r == (t, 0);
      assert IntPow10(1) == 10;
    }
  }

  lemma TenStep(n: nat, x: real, t: real)
    requires t == x * IntPow10(n) as real
    ensures 10.0 * t == x * IntPow10(n + 1) as real
  {
    assert IntPow10(n + 1) == 10 * IntPow10(n);
  }

  /** Powers of ten reduce to exactly 1, so Log(10^n) is n * ln 10 with no series. */
  lemma {:induction false} LogReductionOfPower(n: nat)
    requires n >= 1
    ensures LogReduction(IntPow10(n) as real) == (1.0, n)
  {
    var d := IntPow10(n) as real;
    assert IntPow10(n) == 10 * IntPow10(n - 1);
    assert d / 10.0 == IntPow10(n - 1) as real;
    if n > 1 {
      assert IntPow10(n - 1) >= 10 by {
        assert IntPow10(n - 1) == 10 * IntPow10(n - 2);
      }
      LogReductionOfPower(n - 1);
    }
  }

  /** The value of MathExt.Log at an argument in (0, 1]: 0 at 1, the series below. */
  function LogBelowOne(k: Kernel, x: real): real
  {
    if x == 1.0 then 0.0 else k.oldLogSeries(x)
  }

  /** MathExt.Log: ArgumentException below zero, OverflowException at zero, 0 at 1; above
      1 divide by ten until the argument is at most 1 and add ln 10 per division. */
  method Log(k: Kernel, d: real) returns (r: Result<real>)
    ensures d < 0.0 ==> r == Err(ArgumentException)
    ensures d == 0.0 ==> r == Err(OverflowException)
    ensures d == 1.0 ==> r == Ok(0.0)
    ensures 0.0 < d < 1.0 ==> r == Ok(k.oldLogSeries(d))
    ensures d > 1.0 ==>
      r == Ok(LogBelowOne(k, LogReduction(d).0) + LogReduction(d).1 as real * Ln10)
  {
    if d < 0.0 {
      return Err(ArgumentException);
    }
    if d == 0.0 {
      return Err(OverflowException);
    }
    if d == 1.0 {
      return Ok(0.0);
    }
    if d >= 1.0 {
      var power := 0.0;
      var x := d;
      ghost var n: nat := 0;
      while x > 1.0
        invariant LogReduction(x).0 == LogReduction(d).0
        invariant LogReduction(d).1 == n + LogReduction(x).1
        invariant power == n as real
        decreases Magnitude(x)
      {
        MagnitudeDecreases(x, 10.0);
        x := x / 10.0;
        power := power + 1.0;
        n := n + 1;
      }
      LogReductionSpec(d);
      return Ok(LogBelowOne(k, x) + power * Ln10);
    }
    return Ok(k.oldLogSeries(d));
  }

  // Quadratic equations

  /** MathExt.SolveQuadratic: like DecimalEx.SolveQuadratic but it rejects a negative
      discriminant before rescaling (with the -SmallestNonZeroDec allowance), and takes both
      roots from the classical formula. A discriminant in [-SmallestNonZeroDec, 0) that
      rescaling makes more negative reaches Sqrt and throws (see SolveQuadraticNegativeAfterRescale). */
  method SolveQuadratic(a: real, b: real, c: real, fuel: nat) returns (r: Result<seq<real>>)
    ensures a == 0.0 && b == 0.0 ==> r == Ok([])
    ensures a == 0.0 && b != 0.0 ==> r == Ok([-c / b])
    ensures a != 0.0 && Disc(a, b, c) < -SmallestNonZeroDec ==> r == Ok([])
    ensures a != 0.0 && Disc(a, b, c) >= -SmallestNonZeroDec && ScaledDisc(a, b, c) < 0.0 &&
      ScaledDisc(a, b, c) != -SmallestNonZeroDec
      ==> r == Err(ArgumentException)
    ensures r.Ok? && (a != 0.0 || b != 0.0) && (a != 0.0 ==> !RoundedDisc(ScaledDisc(a, b, c))) ==>
      forall x :: x in r.value <==> IsRoot(a, b, c, x)
    ensures r.Ok? ==> ListedOnce(r.value)
    ensures a != 0.0 && Disc(a, b, c) >= -SmallestNonZeroDec &&
      (ScaledDisc(a, b, c) == 0.0 || RoundedDisc(ScaledDisc(a, b, c)))
      ==> r.Ok?
    ensures a != 0.0 && ScaledDisc(a, b, c) > 0.0 && !RoundedDisc(ScaledDisc(a, b, c)) &&
      SqrtEstimate(ScaledDisc(a, b, c)) * SqrtEstimate(ScaledDisc(a, b, c)) == ScaledDisc(a, b, c)
      ==> r.Ok?
    ensures r.Err? ==> r.error == ArgumentException || r.error == NotConverged
  {
    if a == 0.0 && b == 0.0 {
      return Ok([]);
    }
    if a == 0.0 {
      forall x
        ensures x in [-c / b] <==> IsRoot(a, b, c, x)
      {
        LinearRoot(b, c, x);
      }
      return Ok([-c / b]);
    }
    if b * b - 4.0 * a * c < -SmallestNonZeroDec {
      NoRootsBelow(a, b, c);
      return Ok([]);
    }
    var a2, b2, c2 := ScaleUp(a, b, c);
    RescaledFacts(a, b, c, a2, b2, c2);
    var disc := b2 * b2 - 4.0 * a2 * c2;
    if disc == -SmallestNonZeroDec {
      disc := 0.0;
    }
    var root := Sqrt(disc, fuel);
    if root.Err? {
      return Err(root.error);
    }
    var q := root.value;
    var h := PlusRoot(a2, b2, q);
    var k := MinusRoot(a2, b2, q);
    r := Ok(RootList(h, k));
    ClassicalRoots(a, b, c, a2, b2, c2, disc, q);
  }

  lemma NoRootsBelow(a: real, b: real, c: real)
    requires Disc(a, b, c) < 0.0
    ensures forall x :: !IsRoot(a, b, c, x)
  {
    forall x
      ensures !IsRoot(a, b, c, x)
    {
      NoRealRoots(a, b, c, x);
    }
  }

  /** With q the square root Sqrt returns for the adjusted discriminant, the classical roots
      of the rescaled equation are the roots of the original one. */
  lemma ClassicalRoots(a: real, b: real, c: real, a2: real, b2: real, c2: real, disc: real, q: real)
    requires a != 0.0 && a2 != 0.0 && Rescaled(a, b, c) == (a2, b2, c2)
    requires disc == (if Disc(a2, b2, c2) == -SmallestNonZeroDec then 0.0 else Disc(a2, b2, c2))
    requires disc != SmallestNonZeroDec ==> q * q == disc
    ensures !RoundedDisc(ScaledDisc(a, b, c)) ==>
      forall x :: x in RootList(PlusRoot(a2, b2, q), MinusRoot(a2, b2, q)) <==> IsRoot(a, b, c, x)
  {
    RescaledFacts(a, b, c, a2, b2, c2);
    if !RoundedDisc(Disc(a2, b2, c2)) {
      forall x
        ensures x in RootList(PlusRoot(a2, b2, q), MinusRoot(a2, b2, q)) <==> IsRoot(a, b, c, x)
      {
        RescaledRoots(a, b, c, x);
        QuadraticRoots(a2, b2, c2, q, x);
      }
    }
  }

  /** For 0.25x^2 + 1e-28 the discriminant is exactly -1e-28, which passes the early check;
      rescaling by ten makes it -1e-26, and Sqrt then throws although the equation simply
      has no real root. */
  lemma SolveQuadraticNegativeAfterRescale()
    ensures var a, b, c := 0.25, 0.0, SmallestNonZeroDec;
      Disc(a, b, c) == -SmallestNonZeroDec && ScaledDisc(a, b, c) == -100.0 * SmallestNonZeroDec &&
      forall x :: !IsRoot(a, b, c, x)
  {
    var a, b, c := 0.25, 0.0, SmallestNonZeroDec;
    assert AllInUnit(a, b, c);
    assert !AllInUnit(10.0 * a, 10.0 * b, 10.0 * c);
    assert Rescaled(a, b, c) == Rescaled(10.0 * a, 10.0 * b, 10.0 * c);
    assert Rescaled(10.0 * a, 10.0 * b, 10.0 * c) == (2.5, 0.0, 10.0 * SmallestNonZeroDec);
    NoRootsBelow(a, b, c);
  }

  /** MathExt.SolveQuadratic with the sign test moved after the rescaling, as DecimalEx does
      it: a negative discriminant never reaches Sqrt. */
  method SolveQuadraticCorrected(a: real, b: real, c: real, fuel: nat) returns (r: Result<seq<real>>)
    ensures a == 0.0 && b == 0.0 ==> r == Ok([])
    ensures a == 0.0 && b != 0.0 ==> r == Ok([-c / b])
    ensures a != 0.0 && Disc(a, b, c) < 0.0 && ScaledDisc(a, b, c) != -SmallestNonZeroDec ==> r == Ok([])
    ensures r.Ok? && (a != 0.0 || b != 0.0) && (a != 0.0 ==> !RoundedDisc(ScaledDisc(a, b, c))) ==>
      forall x :: x in r.value <==> IsRoot(a, b, c, x)
    ensures r.Ok? ==> ListedOnce(r.value)
    ensures a != 0.0 && (ScaledDisc(a, b, c) == 0.0 || RoundedDisc(ScaledDisc(a, b, c))) ==> r.Ok?
    ensures a != 0.0 && ScaledDisc(a, b, c) > 0.0 && !RoundedDisc(ScaledDisc(a, b, c)) &&
      SqrtEstimate(ScaledDisc(a, b, c)) * SqrtEstimate(ScaledDisc(a, b, c)) == ScaledDisc(a, b, c)
      ==> r.Ok?
    ensures r.Err? ==> r.error == NotConverged
  {
    if a == 0.0 && b == 0.0 {
      return Ok([]);
    }
    if a == 0.0 {
      forall x
        ensures x in [-c / b] <==> IsRoot(a, b, c, x)
      {
        LinearRoot(b, c, x);
      }
      return Ok([-c / b]);
    }
    var a2, b2, c2 := ScaleUp(a, b, c);
    RescaledFacts(a, b, c, a2, b2, c2);
    var disc := b2 * b2 - 4.0 * a2 * c2;
    if disc == -SmallestNonZeroDec {
      disc := 0.0;
    }
    if disc < 0.0 {
      NoRootsAfterRescale(a, b, c, a2, b2, c2);
      return Ok([]);
    }
    var root := Sqrt(disc, fuel);
    if root.Err? {
      return Err(root.error);
    }
    var q := root.value;
    r := Ok(RootList(PlusRoot(a2, b2, q), MinusRoot(a2, b2, q)));
    ClassicalRoots(a, b, c, a2, b2, c2, disc, q);
  }

  // Max and Min

  /** m is the largest element of s and occurs in it. */
  predicate IsMax(s: seq<real>, m: real)
  {
    m in s && forall i :: 0 <= i < |s| ==> s[i] <= m
  }

  predicate IsMin(s: seq<real>, m: real)
  {
    m in s && forall i :: 0 <= i < |s| ==> m <= s[i]
  }

  /** MathExt.Max: ArgumentException for a null or empty array, otherwise the element at the
      index that a strict comparison last moved to. */
  method Max(values: Option<seq<real>>) returns (r: Result<real>)
    ensures values.None? || |values.value| == 0 <==> r == Err(ArgumentException)
    ensures r.Ok? ==> values.Some? && IsMax(values.value, r.value)
  {
    if values.None? || |values.value| == 0 {
      return Err(ArgumentException);
    }
    var s := values.value;
    var highest := 0;
    for i := 1 to |s|
      invariant 0 <= highest < i
      invariant forall j :: 0 <= j < i ==> s[j] <= s[highest]
    {
      if s[i] > s[highest] {
        highest := i;
      }
    }
    return Ok(s[highest]);
  }

  /** MathExt.Min: the mirror image of Max. */
  method Min(values: Option<seq<real>>) returns (r: Result<real>)
    ensures values.None? || |values.value| == 0 <==> r == Err(ArgumentException)
    ensures r.Ok? ==> values.Some? && IsMin(values.value, r.value)
  {
    if values.None? || |values.value| == 0 {
      return Err(ArgumentException);
    }
    var s := values.value;
    var lowest := 0;
    for i := 1 to |s|
      invariant 0 <= lowest < i
      invariant forall j :: 0 <= j < i ==> s[lowest] <= s[j]
    {
      if s[i] < s[lowest] {
        lowest := i;
      }
    }
    return Ok(s[lowest]);
  }

  /** The largest element is unique as a value: any two maxima agree. */
  lemma MaxUnique(s: seq<real>, m1: real, m2: real)
    requires IsMax(s, m1) && IsMax(s, m2)
    ensures m1 == m2
  {
    var i1 :| 0 <= i1 < |s| && s[i1] == m1;
    var i2 :| 0 <= i2 < |s| && s[i2] == m2;
  }
}
