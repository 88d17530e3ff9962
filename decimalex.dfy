/** The arithmetic kernel of DecimalEx (DecimalEx/DecimalEx.cs), in exact arithmetic. */
module DecimalEx {
  import opened Outcomes
  import opened Decimals
  import opened DecimalExConstants
  import opened Numerics

  // ---------------------------------------------------------------------------
  // Powers

  /** x^n for a natural exponent: the reference for ExpBySquaring. */
  function Power(x: real, n: nat): (r: real)
    ensures x != 0.0 ==> r != 0.0
    ensures x > 0.0 ==> r > 0.0
  {
    if n == 0 then 1.0
    else
      var rest := Power(x, n - 1);
      if x > 0.0 then PositiveProduct(x, rest); x * rest
      else if x != 0.0 then NonzeroProduct(x, rest); x * rest
      else x * rest
  }

  lemma {:induction false} PowerAdd(x: real, m: nat, n: nat)
    ensures Power(x, m + n) == Power(x, m) * Power(x, n)
  {
    if m > 0 {
      PowerAdd(x, m - 1, n);
      assert Power(x, m + n) == x * Power(x, m - 1 + n);
      assert x * (Power(x, m - 1) * Power(x, n)) == (x * Power(x, m - 1)) * Power(x, n);
    }
  }

  /** Squaring the base halves the exponent. */
  lemma {:induction false} PowerSquare(x: real, n: nat)
    ensures Power(x * x, n) == Power(x, 2 * n)
  {
    if n > 0 {
      PowerSquare(x, n - 1);
      PowerAdd(x, 2, 2 * (n - 1));
      assert Power(x, 1) == x;
      assert Power(x, 2) == x * x;
      assert 2 * n == 2 + 2 * (n - 1);
    }
  }

  /** A power is zero exactly when the base is zero and the exponent is positive. */
  lemma {:induction false} PowerZero(x: real, n: nat)
    ensures Power(x, n) == 0.0 <==> x == 0.0 && n > 0
  {
    if n > 0 {
      PowerZero(x, n - 1);
      if x != 0.0 {
        assert Power(x, n - 1) != 0.0;
        NonzeroProduct(x, Power(x, n - 1));
      }
    }
  }

  lemma {:induction false} PowerPositive(x: real, n: nat)
    requires x > 0.0
    ensures Power(x, n) > 0.0
  {
    if n > 0 {
      PowerPositive(x, n - 1);
      PositiveProduct(x, Power(x, n - 1));
    }
  }

  /** The unit-test value 5^40 = 9094947017729282379150390625, exact in a decimal. */
  lemma PowerExample()
    ensures Power(5.0, 40) == 9094947017729282379150390625.0
  {
    PowerSquare(5.0, 20);
    PowerSquare(25.0, 10);
    PowerSquare(625.0, 5);
    var b := 390625.0;
    assert Power(b, 1) == b;
    assert Power(b, 2) == b * b;
    assert Power(b, 3) == b * (b * b);
    assert Power(b, 4) == b * (b * (b * b));
    assert Power(b, 5) == b * (b * (b * (b * b)));
  }

  /** An odd step of ExpBySquaring moves one factor of the multiplier into the result. */
  lemma OddSquaringStep(result: real, m: real, n: nat, total: real)
    requires n >= 1 && result * Power(m, n) == total
    ensures (result * m) * Power(m, n - 1) == total
  {
    var p := Power(m, n - 1);
    assert Power(m, n) == m * p;
    assert result * (m * p) == (result * m) * p;
  }

  /** An even step of ExpBySquaring squares the multiplier and halves the exponent. */
  lemma EvenSquaringStep(result: real, m: real, n: nat, total: real)
    requires n % 2 == 0 && result * Power(m, n) == total
    ensures result * Power(m * m, n / 2) == total
  {
    PowerSquare(m, n / 2);
    assert 2 * (n / 2) == n;
  }

  /** Raises x to a non-negative integral power by repeated squaring
      (DecimalEx.ExpBySquaring). The decimal exponent y stays integral in the loop, so
      it is tracked as the integer n. */
  method ExpBySquaring(x: real, y: real) returns (r: Result<real>)
    ensures y < 0.0 ==> r == Err(ArgumentOutOfRangeException)
    ensures y >= 0.0 && !IsIntegral(y) ==> r == Err(ArgumentException)
    ensures y >= 0.0 && IsIntegral(y) ==> r == Ok(Power(x, y.Floor))
  {
    if y < 0.0 {
      return Err(ArgumentOutOfRangeException);
    }
    if Trunc(y) as real != y {
      return Err(ArgumentException);
    }
    var result := 1.0;
    var multiplier := x;
    var n: int := Trunc(y);
    while n > 0
      invariant n >= 0
      invariant result * Power(multiplier, n) == Power(x, y.Floor)
      decreases n
    {
      if n % 2 == 1 {
        OddSquaringStep(result, multiplier, n, Power(x, y.Floor));
        result := result * multiplier;
        n := n - 1;
        if n == 0 {
          assert Power(multiplier, 0) == 1.0;
          break;
        }
      }
      EvenSquaringStep(result, multiplier, n, Power(x, y.Floor));
      multiplier := multiplier * multiplier;
      n := n / 2;
    }
    assert Power(multiplier, 0) == 1.0;
    assert result == Power(x, y.Floor);
    return Ok(result);
  }

  /** 10^n for an integer exponent. */
  function TenTo(n: int): (r: real)
    ensures r > 0.0
  {
    PowerPositive(10.0, if n >= 0 then n else -n);
    if n >= 0 then Power(10.0, n) else 1.0 / Power(10.0, -n)
  }

  lemma {:induction false} PowerOfTen(n: nat)
    ensures Power(10.0, n) == IntPow10(n) as real
  {
    if n > 0 {
      PowerOfTen(n - 1);
    }
  }

  // ---------------------------------------------------------------------------
  // Exp, Pow, Ln, Log

  /** e^a for a >= 0 as DecimalEx.Exp builds it: E to the integral part, times the
      series at the fractional part when there is one. */
  function ExpMagnitude(k: Kernel, a: real): (r: real)
    requires a >= 0.0
    ensures r > 0.0
  {
    PowerPositive(E, a.Floor);
    var whole := Power(E, a.Floor);
    if IsIntegral(a) then whole
    else
      PositiveProduct(whole, k.expSeries(a - a.Floor as real));
      whole * k.expSeries(a - a.Floor as real)
  }

  /** e^d for any d: the magnitude's power, or its reciprocal for a negative d. */
  function ExpOf(k: Kernel, d: real): (r: real)
    ensures r > 0.0
  {
    if d >= 0.0 then ExpMagnitude(k, d) else 1.0 / ExpMagnitude(k, -d)
  }

  /** x^n * e^(f * l): how Pow assembles a fractional power from the integral part n of
      the exponent, its fractional part f and l, standing for Ln x. */
  function Assemble(k: Kernel, x: real, n: nat, f: real, l: real): real
  {
    Power(x, n) * ExpOf(k, f * l)
  }

  /** The fractional power x^e of DecimalEx.Pow for e >= 0, l standing for Ln x: x to
      the integral part of e, times Exp of the fractional part of e times l. */
  function PowParts(k: Kernel, x: real, e: real, l: real): real
    requires e >= 0.0
  {
    Assemble(k, x, e.Floor, e - e.Floor as real, l)
  }

  /** PowParts with the integral part t of the exponent named. */
  lemma PowPartsAt(k: Kernel, x: real, e: real, l: real, t: int)
    requires e >= 0.0 && t == e.Floor
    ensures PowParts(k, x, e, l) == Assemble(k, x, t, e - t as real, l)
  {
  }

  /** e^d (DecimalEx.Exp): the series only ever sees a fractional part in (0, 1), and a
      negative power is the reciprocal of the positive one. */
  method Exp(k: Kernel, d: real) returns (r: real)
    decreases if Abs(d) > 1.0 && !IsIntegral(Abs(d)) then 1 else 0
    ensures r > 0.0 && r == ExpOf(k, d)
    ensures d >= 0.0 ==> r == ExpMagnitude(k, d)
    ensures d < 0.0 ==> r == 1.0 / ExpMagnitude(k, -d)
  {
    var reciprocal := d < 0.0;
    var a := Abs(d);
    var t := Trunc(a) as real;
    var result: real;
    if a == 0.0 {
      result := 1.0;
    } else if a == 1.0 {
      result := E;
      assert Power(E, 1) == E * Power(E, 0);
    } else if a > 1.0 && t != a {
      var whole := Exp(k, t);
      var frac := Exp(k, a - t);
      assert t.Floor == a.Floor && (a - t).Floor == 0;
      result := whole * frac;
    } else if a == t {
      var p := ExpBySquaring(E, a);
      result := p.value;
      PowerPositive(E, a.Floor);
    } else {
      assert a.Floor == 0;
      result := k.expSeries(a);
    }
    if reciprocal {
      result := 1.0 / result;
    }
    return result;
  }

  /** x^y (DecimalEx.Pow). */
  method Pow(k: Kernel, x: real, y: real) returns (r: Result<real>)
    decreases if IsIntegral(y) then 1 else 6
    ensures y == 0.0 ==> r == Ok(1.0)
    ensures y == 1.0 ==> r == Ok(x)
    ensures y > 0.0 && IsIntegral(y) ==> r == Ok(Power(x, y.Floor))
    ensures y < 0.0 && IsIntegral(y) && x == 0.0 ==> r == Err(OverflowException)
    ensures y < 0.0 && IsIntegral(y) && x != 0.0 ==> r == Ok(1.0 / Power(x, (-y).Floor))
    ensures !IsIntegral(y) && x <= 0.0 ==> r == Err(ArgumentOutOfRangeException)
    ensures !IsIntegral(y) && x > 0.0 ==> r.Ok? && r.value > 0.0
    ensures !IsIntegral(y) && x > 0.0 && y > 0.0 ==> r == Ok(PowParts(k, x, y, LnValue(k, x)))
    ensures !IsIntegral(y) && x > 0.0 && y < 0.0 ==>
      r == Ok(1.0 / PowParts(k, x, -y, LnValue(k, x)))
  {
    var isNegativeExponent := false;
    var e := y;
    if e < 0.0 {
      isNegativeExponent := true;
      e := -e;
    }
    IntegralNeg(y);
    var result := PowOfMagnitude(k, x, e);
    if result.Err? {
      return result;
    }
    if isNegativeExponent {
      if result.value == 0.0 {
        return Err(OverflowException);
      }
      return Ok(1.0 / result.value);
    }
    return result;
  }

  /** The part of Pow before the reciprocal of a negative exponent: e = |y|. */
  method PowOfMagnitude(k: Kernel, x: real, e: real) returns (r: Result<real>)
    requires e >= 0.0
    decreases if IsIntegral(e) then 0 else 5
    ensures IsIntegral(e) ==> r == Ok(Power(x, e.Floor))
    ensures e == 0.0 ==> r == Ok(1.0)
    ensures e == 1.0 ==> r == Ok(x)
    ensures IsIntegral(e) && e > 0.0 ==> (r.value == 0.0 <==> x == 0.0)
    ensures !IsIntegral(e) && x <= 0.0 ==> r == Err(ArgumentOutOfRangeException)
    ensures !IsIntegral(e) && x > 0.0 ==> r == Ok(PowParts(k, x, e, LnValue(k, x)))
    ensures !IsIntegral(e) && x > 0.0 ==> r.Ok? && r.value > 0.0
  {
    if e == 0.0 {
      return Ok(1.0);
    } else if e == 1.0 {
      assert Power(x, 1) == x * Power(x, 0);
      return Ok(x);
    }
    var t := Trunc(e);
    if e == t as real {
      r := ExpBySquaring(x, e);
      PowerZero(x, e.Floor);
    } else if x <= 0.0 {
      var ln := Ln(k, x);
      return Err(ln.error);
    } else {
      var ln := Ln(k, x);
      var v := FractionalPow(k, x, e, ln.value);
      return Ok(v);
    }
  }

  /** The fractional branch of Pow for a positive base x and l = Ln x: x to the
      truncated exponent by squaring, times Exp of the fractional part times l. */
  method FractionalPow(k: Kernel, x: real, e: real, l: real) returns (r: real)
    requires x > 0.0 && e >= 0.0
    ensures r == PowParts(k, x, e, l) && r > 0.0
  {
    var t := Trunc(e);
    var p := ExpBySquaring(x, t as real);
    var f := e - t as real;
    var ex := Exp(k, f * l);
    assert p.value == Power(x, t);
    assert ex == ExpOf(k, f * l);
    assert Assemble(k, x, t, f, l) == p.value * ex;
    PowPartsAt(k, x, e, l, t);
    PositiveProduct(p.value, ex);
    r := p.value * ex;
  }

  /** 10^m (DecimalEx.Pow10). */
  method Pow10(k: Kernel, m: real) returns (r: Result<real>)
    decreases if IsIntegral(m) then 2 else 7
    ensures IsIntegral(m) ==> r == Ok(TenTo(m.Floor))
    ensures !IsIntegral(m) ==> r.Ok? && r.value > 0.0
    ensures !IsIntegral(m) && m > 0.0 ==> r == Ok(PowParts(k, 10.0, m, Ln10))
    ensures !IsIntegral(m) && m < 0.0 ==> r == Ok(1.0 / PowParts(k, 10.0, -m, Ln10))
  {
    r := Pow(k, 10.0, m);
    if IsIntegral(m) {
      if m < 0.0 {
        assert (-m).Floor == -(m.Floor);
      }
      if m == 0.0 {
        assert Power(10.0, 0) == 1.0;
      }
    }
  }

  /** 2^m (DecimalEx.Pow2). */
  method Pow2(k: Kernel, m: real) returns (r: Result<real>)
    ensures IsIntegral(m) && m >= 0.0 ==> r == Ok(Power(2.0, m.Floor))
    ensures IsIntegral(m) && m < 0.0 ==> r == Ok(1.0 / Power(2.0, (-m).Floor))
    ensures !IsIntegral(m) ==> r.Ok? && r.value > 0.0
    ensures !IsIntegral(m) && m > 0.0 ==> r == Ok(PowParts(k, 2.0, m, Ln2))
    ensures !IsIntegral(m) && m < 0.0 ==> r == Ok(1.0 / PowParts(k, 2.0, -m, Ln2))
  {
    r := Pow(k, 2.0, m);
    if m == 0.0 {
      assert Power(2.0, 0) == 1.0;
    }
    if m < 0.0 && IsIntegral(m) {
      PowerZero(2.0, (-m).Floor);
    }
  }

  /** The natural logarithm of m > 0 as DecimalEx.Ln computes it: exact values at 1, 2,
      10 and E; otherwise the series at the argument scaled into (0, 1] by the
      floating-point estimate of its decimal exponent, plus that exponent times Ln10. */
  function LnValue(k: Kernel, m: real): real
  {
    if m == 1.0 then 0.0
    else if m == 2.0 then Ln2
    else if m == 10.0 then Ln10
    else if m == E then 1.0
    else
      var scale := k.log10Floor(m) + 1;
      k.lnSeries(m / TenTo(scale) - 1.0) + scale as real * Ln10
  }

  /** DecimalEx.Ln; DecimalEx.Log(m) is the same function. */
  method Ln(k: Kernel, m: real) returns (r: Result<real>)
    decreases 3
    ensures m <= 0.0 ==> r == Err(ArgumentOutOfRangeException)
    ensures m > 0.0 ==> r == Ok(LnValue(k, m))
    ensures m == 1.0 ==> r == Ok(0.0)
    ensures m == 2.0 ==> r == Ok(Ln2)
    ensures m == 10.0 ==> r == Ok(Ln10)
    ensures m == E ==> r == Ok(1.0)
  {
    if m == 0.0 {
      return Err(ArgumentOutOfRangeException);
    }
    if m < 0.0 {
      return Err(ArgumentOutOfRangeException);
    }
    if m == 1.0 {
      return Ok(0.0);
    }
    if m == 2.0 {
      return Ok(Ln2);
    }
    if m == 10.0 {
      return Ok(Ln10);
    }
    if m == E {
      return Ok(1.0);
    }
    var scale := k.log10Floor(m) + 1;
    var x: real;
    if scale <= 28 {
      var p := Pow10(k, scale as real);
      x := m / p.value;
    } else {
      var p := Pow10(k, (scale - 28) as real);
      x := m / 10000000000000000000000000000.0 / p.value;
      TenToSplit(m, scale);
    }
    x := x - 1.0;
    return Ok(k.lnSeries(x) + scale as real * Ln10);
  }

  /** 10^n = 10^28 * 10^(n - 28), which Ln uses to keep the divisor in range. */
  lemma TenToSplit(m: real, n: int)
    requires n > 28
    ensures m / 10000000000000000000000000000.0 / TenTo(n - 28) == m / TenTo(n)
  {
    PowerAdd(10.0, 28, n - 28);
    PowerOfTen(28);
    PowersOf10Step(28);
    PowerPositive(10.0, n - 28);
    assert TenTo(n) == 10000000000000000000000000000.0 * TenTo(n - 28);
    DivDiv(m, 10000000000000000000000000000.0, TenTo(n - 28));
  }

  lemma DivDiv(m: real, a: real, b: real)
    requires a != 0.0 && b != 0.0
    ensures m / a / b == m / (a * b)
  {
    NonzeroProduct(a, b);
  }

  /** The logarithm of m in base b (DecimalEx.Log). */
  method Log(k: Kernel, m: real, b: real) returns (r: Result<real>)
    ensures b == 1.0 ==> r == Err(ArgumentOutOfRangeException)
    ensures b == 0.0 && m == 1.0 ==> r == Ok(0.0)
    ensures b != 1.0 && !(b == 0.0 && m == 1.0) && (m <= 0.0 || b <= 0.0) ==>
              r == Err(ArgumentOutOfRangeException)
    ensures m > 0.0 && b > 0.0 && b != 1.0 && LnValue(k, b) == 0.0 ==> r == Err(DivideByZeroException)
    ensures m > 0.0 && b > 0.0 && b != 1.0 && LnValue(k, b) != 0.0 ==> r == Ok(LnValue(k, m) / LnValue(k, b))
  {
    if b == 1.0 {
      return Err(ArgumentOutOfRangeException);
    }
    if m == 1.0 && b == 0.0 {
      return Ok(0.0);
    }
    var lm := Ln(k, m);
    if lm.Err? {
      return lm;
    }
    var lb := Ln(k, b);
    if lb.Err? {
      return lb;
    }
    if lb.value == 0.0 {
      return Err(DivideByZeroException);
    }
    return Ok(lm.value / lb.value);
  }

  /** DecimalEx.Log10: exact at 1 and 10. */
  method Log10(k: Kernel, m: real) returns (r: Result<real>)
    ensures m <= 0.0 ==> r == Err(ArgumentOutOfRangeException)
    ensures m > 0.0 ==> r == Ok(LnValue(k, m) / Ln10)
    ensures m == 1.0 ==> r == Ok(0.0)
    ensures m == 10.0 ==> r == Ok(1.0)
  {
    r := Log(k, m, 10.0);
  }

  /** DecimalEx.Log2: exact at 1 and 2. */
  method Log2(k: Kernel, m: real) returns (r: Result<real>)
    ensures m <= 0.0 ==> r == Err(ArgumentOutOfRangeException)
    ensures m > 0.0 ==> r == Ok(LnValue(k, m) / Ln2)
    ensures m == 1.0 ==> r == Ok(0.0)
    ensures m == 2.0 ==> r == Ok(1.0)
  {
    r := Log(k, m, 2.0);
  }

  // Square root

  /** One Babylonian step from the estimate x towards the square root of s. */
  function NewtonNext(s: real, x: real): real
    requires x > 0.0
  {
    x / 2.0 + (s / 2.0) / x
  }

  /** In exact arithmetic a Babylonian step never lands below the root, lands on x only
      when x is the root, and moves down whenever x is above the root. */
  lemma NewtonStep(s: real, x: real)
    requires s > 0.0 && x > 0.0
    ensures NewtonNext(s, x) > 0.0
    ensures NewtonNext(s, x) == x <==> x * x == s
    ensures x * x != s ==> NewtonNext(s, x) * NewtonNext(s, x) > s
    ensures x * x > s ==> NewtonNext(s, x) < x
  {
    var n := NewtonNext(s, x);
    PositiveProduct(x, x);
    assert n * (2.0 * x) == x * x + s;
    if n == x {
      assert x * (2.0 * x) == x * x + s;
    }
    if x * x == s {
      assert n == x / 2.0 + (x * x / 2.0) / x;
      assert (x * x / 2.0) / x == x / 2.0;
    }
    if x * x != s {
      var d := n * n - s;
      var e := x * x - s;
      assert (n * (2.0 * x)) * (n * (2.0 * x)) == (x * x + s) * (x * x + s);
      assert 4.0 * (x * x) * d == e * e;
      if e > 0.0 { PositiveProduct(e, e); } else { PositiveProduct(-e, -e); }
      if d <= 0.0 {
        MulMono(d, 0.0, 4.0 * (x * x));
        assert false;
      }
    }
    if x * x > s {
      assert n - x == (s - x * x) / (2.0 * x);
    }
  }

  /** The Babylonian loop of DecimalEx.Sqrt from the given seed, stopping when the next
      estimate repeats the current or the previous one. In exact arithmetic the estimates
      decrease strictly once past the first step, so the loop stops only when the seed is
      already the root; the real loop stops because decimal rounding makes an estimate
      repeat. The fuel bound stands in for that rounding. */
  method Newton(s: real, seed: real, fuel: nat) returns (r: Result<real>)
    requires s > 0.0 && seed > 0.0
    ensures r == (if seed * seed == s then Ok(seed) else Err(NotConverged))
  {
    var halfS := s / 2.0;
    var lastX := -1.0;
    var x := seed;
    var budget := fuel;
    while true
      invariant x > 0.0
      invariant seed * seed == s ==> x == seed && lastX == -1.0
      invariant seed * seed != s ==>
        (x == seed && lastX == -1.0) || (x * x > s && lastX > 0.0 && (lastX > x || lastX * lastX < s))
      decreases budget
    {
      var nextX := x / 2.0 + halfS / x;
      assert nextX == NewtonNext(s, x);
      NewtonStep(s, x);
      if nextX == x || nextX == lastX {
        return Ok(nextX);
      }
      if budget == 0 {
        return Err(NotConverged);
      }
      lastX := x;
      x := nextX;
      budget := budget - 1;
    }
  }

  /** What DecimalEx.Sqrt returns, in exact arithmetic: an error for a negative input, 0 for
      0 and for the smallest decimal, the seed when it is the exact root, and otherwise the
      loop does not stop on its own. */
  function SqrtOutcome(k: Kernel, s: real): (r: Result<real>)
    ensures r.Err? <==> s < 0.0 || (s > 0.0 && s != SmallestNonZeroDec && k.sqrtSeed(s) * k.sqrtSeed(s) != s)
    ensures r.Ok? ==> r.value >= 0.0 && (s != SmallestNonZeroDec ==> r.value * r.value == s)
  {
    if s < 0.0 then Err(ArgumentException)
    else if s == 0.0 || s == SmallestNonZeroDec then Ok(0.0)
    else if k.sqrtSeed(s) * k.sqrtSeed(s) == s then Ok(k.sqrtSeed(s))
    else Err(NotConverged)
  }

  /** DecimalEx.Sqrt: the Babylonian loop from the floating-point seed. */
  method Sqrt(k: Kernel, s: real, fuel: nat) returns (r: Result<real>)
    ensures r == SqrtOutcome(k, s)
    ensures s < 0.0 ==> r == Err(ArgumentException)
    ensures s == 0.0 || s == SmallestNonZeroDec ==> r == Ok(0.0)
    ensures s > 0.0 && s != SmallestNonZeroDec ==>
              r == (if k.sqrtSeed(s) * k.sqrtSeed(s) == s then Ok(k.sqrtSeed(s)) else Err(NotConverged))
    ensures r.Ok? ==> r.value >= 0.0 && (s != SmallestNonZeroDec ==> r.value * r.value == s)
  {
    if s < 0.0 {
      return Err(ArgumentException);
    }
    if s == 0.0 || s == SmallestNonZeroDec {
      return Ok(0.0);
    }
    r := Newton(s, k.sqrtSeed(s), fuel);
  }

  // Factorial

  /** n! for a natural number n. */
  function Fact(n: nat): (r: nat)
    ensures r >= 1
  {
    if n == 0 then 1 else n * Fact(n - 1)
  }

  /** n! is divisible by every j in 1..n. */
  lemma {:induction false} FactDivisible(n: nat, j: nat)
    requires 1 <= j <= n
    ensures Fact(n) % j == 0
  {
    if j == n {
      MulMod(n, Fact(n - 1));
    } else {
      FactDivisible(n - 1, j);
      var q := Fact(n - 1) / j;
      assert Fact(n - 1) == j * q;
      assert Fact(n) == j * (n * q);
      MulMod(j, n * q);
    }
  }

  /** DecimalEx.Factorial: rejects negative and fractional input, then multiplies
      n, n - 1, ..., 2. */
  method Factorial(n: real) returns (r: Result<real>)
    ensures n < 0.0 || !IsIntegral(n) ==> r == Err(ArgumentException)
    ensures n >= 0.0 && IsIntegral(n) ==> r == Ok(Fact(n.Floor) as real)
  {
    if n < 0.0 {
      return Err(ArgumentException);
    }
    TruncOfIntegral(n);
    if Trunc(n) as real != n {
      return Err(ArgumentException);
    }
    var ret := 1.0;
    var i := n;
    ghost var j: nat := n.Floor;
    ghost var total := Fact(j) as real;
    while i >= 2.0
      invariant i == j as real
      invariant n >= 1.0 ==> j >= 1
      invariant ret * Fact(j) as real == total
      decreases j
    {
      FactStep(ret, j, total);
      ret := ret * i;
      i := i - 1.0;
      j := j - 1;
    }
    assert Fact(1) == 1 * Fact(0);
    return Ok(ret);
  }

  /** One pass of the Factorial loop: multiplying by j moves one factor of j! into ret. */
  lemma FactStep(ret: real, j: nat, total: real)
    requires j >= 1 && ret * Fact(j) as real == total
    ensures (ret * j as real) * Fact(j - 1) as real == total
  {
    RealOfProduct(j, Fact(j - 1));
    var f := Fact(j - 1) as real;
    assert ret * (j as real * f) == (ret * j as real) * f;
  }

  // Rounding at a number of places

  /** Scaling by p > 0, flooring and scaling back gives a multiple of 1/p at most
      1/p below v. */
  lemma ScaledFloor(v: real, p: real)
    requires p > 0.0
    ensures (Floor(v * p) as real / p) * p == Floor(v * p) as real
    ensures Floor(v * p) as real / p <= v < Floor(v * p) as real / p + 1.0 / p
  {
    var f := Floor(v * p) as real;
    DivMono(f, v * p, p);
    DivMono(v * p, f + 1.0, p);
    assert (f + 1.0) / p == f / p + 1.0 / p;
  }

  /** Scaling by p > 0, taking the ceiling and scaling back gives a multiple of 1/p at
      most 1/p above v. */
  lemma ScaledCeiling(v: real, p: real)
    requires p > 0.0
    ensures (Ceiling(v * p) as real / p) * p == Ceiling(v * p) as real
    ensures Ceiling(v * p) as real / p - 1.0 / p < v <= Ceiling(v * p) as real / p
  {
    var c := Ceiling(v * p) as real;
    DivMono(v * p, c, p);
    DivMono(c - 1.0, v * p, p);
    assert (c - 1.0) / p == c / p - 1.0 / p;
  }

  /** DecimalEx.Floor(value, places). The scale factor is the table entry
      PowersOf10[places], which PowersOf10Exact shows to be 10^places. */
  function FloorAt(value: real, places: int): (r: Result<real>)
    ensures places < 0 <==> r == Err(ArgumentOutOfRangeException)
    ensures places >= 28 ==> r == Ok(value)
    ensures places == 0 ==> r == Ok(Floor(value) as real)
    ensures 0 <= places < 28 ==>
              r.Ok? && OnGrid(r.value, IntPow10(places) as real) &&
              r.value <= value < r.value + 1.0 / IntPow10(places) as real
  {
    if places < 0 then Err(ArgumentOutOfRangeException)
    else if places == 0 then
      GridOf(Floor(value), 1.0);
      Ok(Floor(value) as real)
    else if places >= 28 then Ok(value)
    else
      var p := IntPow10(places) as real;
      ScaledFloor(value, p);
      GridOf(Floor(value * p), p);
      Ok(Floor(value * p) as real / p)
  }

  /** DecimalEx.Ceiling(value, places), scaled like FloorAt. */
  function CeilingAt(value: real, places: int): (r: Result<real>)
    ensures places < 0 <==> r == Err(ArgumentOutOfRangeException)
    ensures places >= 28 ==> r == Ok(value)
    ensures places == 0 ==> r == Ok(Ceiling(value) as real)
    ensures 0 <= places < 28 ==>
              r.Ok? && OnGrid(r.value, IntPow10(places) as real) &&
              r.value - 1.0 / IntPow10(places) as real < value <= r.value
  {
    if places < 0 then Err(ArgumentOutOfRangeException)
    else if places == 0 then
      GridOf(Ceiling(value), 1.0);
      Ok(Ceiling(value) as real)
    else if places >= 28 then Ok(value)
    else
      var p := IntPow10(places) as real;
      ScaledCeiling(value, p);
      GridOf(Ceiling(value * p), p);
      Ok(Ceiling(value * p) as real / p)
  }

  // Decimal places

  /** DecimalEx.GetDecimalPlaces: the stored scale, or, when trailing zeros are not
      counted, the scale less the trailing zero digits of the coefficient. The sign of the
      value plays no part. */
  method GetDecimalPlaces(dec: Dec, countTrailingZeros: bool) returns (r: nat)
    requires IsDecimal(dec)
    ensures countTrailingZeros ==> r == dec.scale
    ensures r <= dec.scale
    ensures AbsInt(dec.coeff) % IntPow10(dec.scale - r) == 0
    ensures !countTrailingZeros && r > 0 ==> AbsInt(dec.coeff) % IntPow10(dec.scale - r + 1) != 0
  {
    var result: nat := dec.scale;
    if countTrailingZeros || result == 0 {
      return result;
    }
    var rawValue := AbsInt(dec.coeff);
    while result > 0 && rawValue % 10 == 0
      invariant result <= dec.scale
      invariant rawValue * IntPow10(dec.scale - result) == AbsInt(dec.coeff)
      decreases result
    {
      StripZero(rawValue, IntPow10(dec.scale - result));
      assert IntPow10(dec.scale - (result - 1)) == 10 * IntPow10(dec.scale - result);
      result := result - 1;
      rawValue := rawValue / 10;
    }
    PlacesFinal(rawValue, IntPow10(dec.scale - result), result > 0);
    if result > 0 {
      assert IntPow10(dec.scale - result + 1) == 10 * IntPow10(dec.scale - result);
    }
    return result;
  }

  /** Dropping a trailing zero digit moves a factor of ten into the scale. */
  lemma StripZero(raw: nat, p: nat)
    requires raw % 10 == 0
    ensures (raw / 10) * (10 * p) == raw * p
  {
    assert raw == 10 * (raw / 10);
  }

  /** When the loop stops, raw * p is a multiple of p, and, if a trailing digit is
      nonzero, not a multiple of 10 * p. */
  lemma PlacesFinal(raw: nat, p: nat, digitsLeft: bool)
    requires p > 0
    requires digitsLeft ==> raw % 10 != 0
    ensures (raw * p) % p == 0
    ensures digitsLeft ==> (raw * p) % (10 * p) != 0
  {
    MulMod(p, raw);
    assert p * raw == raw * p;
    if digitsLeft {
      ModScaled(raw, p);
      MulAbsGrow(p, raw % 10);
    }
  }

  // Remainder

  /** DecimalEx.Remainder: subtracts trunc(d1/d2) times d2 one decimal digit of d2 at a
      time, then corrects a sign change by one more d2. The digit at position i is scaled
      by the table entry PowersOf10[i], which PowersOf10Exact shows to be 10^i. In exact
      arithmetic the digits sum to d2, so the total subtracted is trunc(d1/d2)*d2 and the
      result is the truncated remainder; the sign correction never fires. */
  method Remainder(d1: real, d2: Dec) returns (r: Result<real>)
    requires IsDecimal(d2)
    ensures Value(d2) == 0.0 ==> r == Err(DivideByZeroException)
    ensures Value(d2) != 0.0 ==> r == Ok(Rem(d1, Value(d2)))
  {
    var v2 := Value(d2);
    if Abs(d1) < Abs(v2) {
      RemOfSmaller(d1, v2);
      return Ok(d1);
    }
    if v2 == 0.0 {
      return Err(DivideByZeroException);
    }
    var timesInto := Trunc(d1 / v2) as real;
    var sign := Sign(d1);
    var places := GetDecimalPlaces(d2, true);
    var x := SubtractByDigits(d1, timesInto, d2, places);
    assert x == Rem(d1, v2);
    RemBounds(d1, v2);
    if x != 0.0 && Sign(x) != sign {
      x := if Sign(v2) == sign then x + v2 else x - v2;
    }
    return Ok(x);
  }

  /** Remainder(12, 2.5) is 2, Remainder(12, 4) is 0, and a negative dividend keeps its
      sign: Remainder(-12, 5) is -2. */
  lemma RemainderExamples()
    ensures Rem(12.0, 2.5) == 2.0 && Rem(12.0, 4.0) == 0.0 && Rem(-12.0, 5.0) == -2.0
  {
    assert Trunc(12.0 / 2.5) == 4;
    assert Trunc(12.0 / 4.0) == 3;
    assert Trunc(-12.0 / 5.0) == -2;
  }

  /** The digit loop of DecimalEx.Remainder: subtracts timesInto * d2 from d1 one decimal
      digit of d2 at a time, stopping once the shifted divisor has no digits left. */
  method SubtractByDigits(d1: real, timesInto: real, d2: Dec, places: nat) returns (x: real)
    requires places == d2.scale
    ensures x == d1 - timesInto * Value(d2)
  {
    var v2 := Value(d2);
    var shiftingNumber := v2;
    x := d1;
    var i := 0;
    ghost var k: int := d2.coeff;
    ValueScaled(d2);
    PendingStart(d1, timesInto, v2);
    while i <= places
      invariant 0 <= i <= places
      invariant x == d1 - timesInto * v2 + timesInto * (shiftingNumber / IntPow10(i) as real)
      invariant shiftingNumber * IntPow10(places - i) as real == k as real
      decreases places - i
    {
      x, shiftingNumber, k := SubtractDigit(d1, timesInto, v2, x, shiftingNumber, i, places, k);
      if shiftingNumber == 0.0 {
        PendingDone(d1, timesInto, v2, x, IntPow10(i + 1) as real);
        break;
      }
      i := i + 1;
    }
  }

  lemma PendingStart(d1: real, t: real, v2: real)
    ensures d1 == d1 - t * v2 + t * (v2 / IntPow10(0) as real)
  {
  }

  lemma PendingDone(d1: real, t: real, v2: real, x: real, p: real)
    requires p >= 1.0 && x == d1 - t * v2 + t * (0.0 / p)
    ensures x == d1 - t * v2
  {
  }

  /** One pass of the digit loop: subtract the leading digit of the shifted divisor s,
      scaled to place i, and shift what remains of s one place left. */
  method SubtractDigit(d1: real, t: real, v2: real, x: real, s: real, i: nat, places: nat,
                       ghost k: int)
    returns (x': real, s': real, ghost k': int)
    requires i <= places
    requires x == d1 - t * v2 + t * (s / IntPow10(i) as real)
    requires s * IntPow10(places - i) as real == k as real
    ensures x' == d1 - t * v2 + t * (s' / IntPow10(i + 1) as real)
    ensures i < places ==> s' * IntPow10(places - (i + 1)) as real == k' as real
    ensures i == places ==> s' == 0.0
  {
    var digit := Trunc(s);
    var p := IntPow10(i) as real;
    x' := x - t * (digit as real / p);
    s' := (s - digit as real) * 10.0;
    k' := k;
    DigitStep(d1, t, v2, x', s, digit as real, p, IntPow10(i + 1) as real);
    if i == places {
      LastDigit(s, k);
    } else {
      ShiftStep(s, digit, IntPow10(places - i - 1), k, IntPow10(places - i));
      k' := k - digit * 10 * IntPow10(places - i - 1);
    }
  }

  /** One digit of the divisor: subtracting t times digit/p and shifting what remains one
      place left keeps the amount still to subtract unchanged. */
  lemma DigitStep(d1: real, t: real, v2: real, x: real, s: real, digit: real, p: real, p1: real)
    requires p > 0.0 && p1 == 10.0 * p
    requires x + t * (digit / p) == d1 - t * v2 + t * (s / p)
    ensures x == d1 - t * v2 + t * (((s - digit) * 10.0) / p1)
  {
    assert ((s - digit) * 10.0) / (10.0 * p) == (s - digit) / p;
    assert s / p - digit / p == (s - digit) / p;
    assert t * (s / p) - t * (digit / p) == t * ((s - digit) / p);
  }

  /** At the last decimal place the shifted divisor is a whole number, so it is its own
      digit and nothing remains. */
  lemma LastDigit(s: real, k: int)
    requires s * IntPow10(0) as real == k as real
    ensures (s - Trunc(s) as real) * 10.0 == 0.0
  {
    assert s == k as real;
    IntIsIntegral(k);
    TruncOfIntegral(s);
  }

  /** Removing an integral digit keeps the shifted divisor a whole number of units of its
      last decimal place. */
  lemma ShiftStep(s: real, digit: int, q: nat, k: int, q10: nat)
    requires q10 == 10 * q && s * q10 as real == k as real
    ensures ((s - digit as real) * 10.0) * q as real == (k - digit * 10 * q) as real
  {
  }

  // Greatest common factor

  /** Euclid's algorithm on integers with the truncated remainder that decimal % uses. */
  function Euclid(x: int, y: int): int
    decreases AbsInt(y)
  {
    if y == 0 then x
    else
      IntRemBound(x, y);
      Euclid(y, IntRem(x, y))
  }

  /** The common divisors of x and y are exactly the divisors of Euclid(x, y). */
  lemma {:induction false} EuclidDivisors(x: int, y: int, d: int)
    requires d != 0
    ensures Divides(d, Euclid(x, y)) <==> Divides(d, x) && Divides(d, y)
    decreases AbsInt(y)
  {
    if y != 0 {
      IntRemBound(x, y);
      EuclidDivisors(y, IntRem(x, y), d);
      RemainderDivisors(x, y, Trunc(x as real / y as real), IntRem(x, y), d);
    }
  }

  /** x and y have the same common divisors as y and x - y*t. */
  lemma RemainderDivisors(x: int, y: int, t: int, r: int, d: int)
    requires d != 0 && r == x - y * t
    ensures Divides(d, y) && Divides(d, r) <==> Divides(d, x) && Divides(d, y)
  {
    assert x + y * (-t) == r;
    assert r + y * t == x;
    if Divides(d, x) && Divides(d, y) {
      DividesCombination(d, x, y, -t);
    }
    if Divides(d, y) && Divides(d, r) {
      DividesCombination(d, r, y, t);
    }
  }

  /** Euclid's result is zero only when both arguments are. */
  lemma {:induction false} EuclidZero(x: int, y: int)
    ensures Euclid(x, y) == 0 ==> x == 0 && y == 0
    decreases AbsInt(y)
  {
    if y != 0 {
      IntRemBound(x, y);
      EuclidZero(y, IntRem(x, y));
    }
  }

  /** Euclid's algorithm commutes with scaling both arguments by a positive factor. */
  lemma {:induction false} EuclidScale(x: int, y: int, c: int)
    requires c > 0
    ensures Euclid(c * x, c * y) == c * Euclid(x, y)
    decreases AbsInt(y)
  {
    if y != 0 {
      IntRemBound(x, y);
      assert c * y != 0 by { MulAbsGrow(c, y); }
      IntRemScale(x, y, c);
      EuclidScale(y, IntRem(x, y), c);
    }
  }

  lemma IntRemScale(x: int, y: int, c: int)
    requires c > 0 && y != 0
    ensures c * y != 0 && IntRem(c * x, c * y) == c * IntRem(x, y)
  {
    MulAbsGrow(c, y);
    var cx, cy := c * x, c * y;
    RealOfProduct(x, c);
    RealOfProduct(y, c);
    assert cx == x * c && cy == y * c;
    CancelFactorAt(x as real, y as real, c as real, cx as real, cy as real);
    var t := Trunc(x as real / y as real);
    assert IntRem(cx, cy) == cx - cy * t;
    FactorOut(c, x, y, t);
  }

  lemma FactorOut(c: int, x: int, y: int, t: int)
    ensures c * x - (c * y) * t == c * (x - y * t)
  {
  }

  /** The greatest common factor of two decimals at the precision of the more precise
      one, as a decimal at the common scale. */
  function GcfValue(a: Dec, b: Dec): Dec
  {
    var s := CommonScale(a, b);
    Dec(Euclid(CoeffAt(a, s), CoeffAt(b, s)), s)
  }

  /** The decimal `%` of x by a nonzero y: the integer remainder of the coefficients at
      the common scale, which is the scale decimal arithmetic gives the result. */
  function DecRem(x: Dec, y: Dec): (r: Dec)
    requires y.coeff != 0
    ensures r.scale == CommonScale(x, y)
  {
    var s := CommonScale(x, y);
    MulAbsGrow(y.coeff, IntPow10(s - y.scale));
    Dec(IntRem(CoeffAt(x, s), CoeffAt(y, s)), s)
  }

  /** The remainder of two values at a common scale is the integer remainder of their
      coefficients at that scale. */
  lemma RemAtScale(x: int, y: int, p: real)
    requires p > 0.0 && y != 0
    ensures Rem(x as real / p, y as real / p) == IntRem(x, y) as real / p
  {
    var t := Trunc(x as real / y as real);
    QuotientOfScaled(x as real, y as real, p);
    ScaledDifference(x as real, y as real, t as real, p);
    RealOfProduct(y, t);
  }

  /** DecRem computes the truncated remainder of the two values. */
  lemma DecRemValue(x: Dec, y: Dec)
    requires y.coeff != 0
    ensures Value(DecRem(x, y)) == Rem(Value(x), Value(y))
  {
    var s := CommonScale(x, y);
    MulAbsGrow(y.coeff, IntPow10(s - y.scale));
    CoeffAtValue(x, s);
    CoeffAtValue(y, s);
    RemAtScale(CoeffAt(x, s), CoeffAt(y, s), IntPow10(s) as real);
  }

  /** A decimal is zero exactly when its coefficient is. */
  lemma ValueZero(d: Dec)
    ensures Value(d) == 0.0 <==> d.coeff == 0
  {
    ValueScaled(d);
  }

  /** DecimalEx.GCF(a, b): Euclid's algorithm run directly on the decimal values. */
  method GCF(a: Dec, b: Dec) returns (r: Dec)
    ensures Value(r) == Value(GcfValue(a, b))
  {
    ghost var s := CommonScale(a, b);
    var x := a;
    var y := b;
    while true
      invariant x.scale <= s && y.scale <= s && CommonScale(x, y) == s
      invariant Euclid(CoeffAt(x, s), CoeffAt(y, s)) == Euclid(CoeffAt(a, s), CoeffAt(b, s))
      decreases AbsInt(CoeffAt(y, s))
    {
      ValueZero(y);
      if Value(y) == 0.0 {
        break;
      }
      MulAbsGrow(y.coeff, IntPow10(s - y.scale));
      IntRemBound(CoeffAt(x, s), CoeffAt(y, s));
      var rem := DecRem(x, y);
      x := y;
      y := rem;
    }
    CoeffAtValue(x, s);
    return x;
  }

  /** Exact division of integers carries over to the reals. */
  lemma ExactQuotient(n: int, d: int)
    requires Divides(d, n)
    ensures n as real / d as real == (n / d) as real
  {
    assert n == d * (n / d);
    RealOfProduct(d, n / d);
  }

  /** d divides itself. */
  lemma DividesSelf(d: int)
    requires d != 0
    ensures Divides(d, d)
  {
    MulMod(d, 1);
  }

  /** A nonzero result of GCF goes a whole number of times into both arguments. */
  lemma GcfDividesBoth(a: Dec, b: Dec)
    requires Value(GcfValue(a, b)) != 0.0
    ensures IsIntegral(Value(a) / Value(GcfValue(a, b)))
    ensures IsIntegral(Value(b) / Value(GcfValue(a, b)))
  {
    var s := CommonScale(a, b);
    var xs, ys := CoeffAt(a, s), CoeffAt(b, s);
    var g := Euclid(xs, ys);
    var p := IntPow10(s) as real;
    assert g != 0;
    DividesSelf(g);
    EuclidDivisors(xs, ys, g);
    CoeffAtValue(a, s);
    CoeffAtValue(b, s);
    QuotientOfScaled(xs as real, g as real, p);
    QuotientOfScaled(ys as real, g as real, p);
    ExactQuotient(xs, g);
    ExactQuotient(ys, g);
    IntIsIntegral(xs / g);
    IntIsIntegral(ys / g);
  }

  /** Rewriting a coefficient at a finer scale multiplies it by the extra power of ten. */
  lemma CoeffAtShift(d: Dec, s: nat, t: nat)
    requires d.scale <= s <= t
    ensures CoeffAt(d, t) == IntPow10(t - s) * CoeffAt(d, s)
  {
    IntPow10Add(s - d.scale, t - s);
    assert s - d.scale + (t - s) == t - d.scale;
    assert d.coeff * (IntPow10(s - d.scale) * IntPow10(t - s))
        == IntPow10(t - s) * (d.coeff * IntPow10(s - d.scale));
  }

  /** Equal quotients by the same positive divisor have equal whole-number numerators. */
  lemma SameQuotient(u: int, w: int, p: real)
    requires p > 0.0 && u as real / p == w as real / p
    ensures u == w
  {
    assert u as real == (u as real / p) * p;
    assert w as real == (w as real / p) * p;
  }

  /** Two decimals with the same value have the same coefficient at any common scale. */
  lemma CoeffAtSameValue(d: Dec, e: Dec, t: nat)
    requires d.scale <= t && e.scale <= t && Value(d) == Value(e)
    ensures CoeffAt(d, t) == CoeffAt(e, t)
  {
    CoeffAtValue(d, t);
    CoeffAtValue(e, t);
    SameQuotient(CoeffAt(d, t), CoeffAt(e, t), IntPow10(t) as real);
  }

  /** Scaling both Euclid arguments by c and the denominator by c leaves the quotient. */
  lemma ScaledGcf(x: int, y: int, c: nat, ps: nat, pt: nat)
    requires c >= 1 && ps >= 1 && pt == ps * c
    ensures Euclid(c * x, c * y) as real / pt as real == Euclid(x, y) as real / ps as real
  {
    EuclidScale(x, y, c);
    RescaleQuotient(Euclid(x, y), ps, c, pt);
    assert c * Euclid(x, y) == Euclid(x, y) * c;
  }

  /** The value of GcfValue can be computed at any scale at least as fine as both
      arguments. */
  lemma GcfAtScale(a: Dec, b: Dec, t: nat)
    requires a.scale <= t && b.scale <= t
    ensures Value(GcfValue(a, b)) == Euclid(CoeffAt(a, t), CoeffAt(b, t)) as real / IntPow10(t) as real
  {
    var s := CommonScale(a, b);
    CoeffAtShift(a, s, t);
    CoeffAtShift(b, s, t);
    IntPow10Add(s, t - s);
    assert s + (t - s) == t;
    ScaledGcf(CoeffAt(a, s), CoeffAt(b, s), IntPow10(t - s), IntPow10(s), IntPow10(t));
  }

  /** The greatest common factor depends only on the values of its arguments, not on
      how many trailing zeros they are stored with. */
  lemma GcfValueOnly(a: Dec, a': Dec, b: Dec, b': Dec)
    requires Value(a) == Value(a') && Value(b) == Value(b')
    ensures Value(GcfValue(a, b)) == Value(GcfValue(a', b'))
  {
    var s1 := CommonScale(a, b);
    var s2 := CommonScale(a', b');
    var t := if s1 >= s2 then s1 else s2;
    GcfAtScale(a, b, t);
    GcfAtScale(a', b', t);
    CoeffAtSameValue(a, a', t);
    CoeffAtSameValue(b, b', t);
  }

  /** GCF(1.2, 0.42) is 0.06 and GCF(1071, 462) is 21. */
  lemma GcfExamples()
    ensures Value(GcfValue(Dec(12, 1), Dec(42, 2))) == 0.06
    ensures Value(GcfValue(Dec(1071, 0), Dec(462, 0))) == 21.0
  {
    assert IntRem(120, 42) == 36;
    assert IntRem(42, 36) == 6;
    assert IntRem(36, 6) == 0;
    assert Euclid(120, 42) == 6;
    assert IntRem(1071, 462) == 147;
    assert IntRem(462, 147) == 21;
    assert IntRem(147, 21) == 0;
    assert Euclid(1071, 462) == 21;
  }

  /** Only two zeros have a zero greatest common factor. */
  lemma GcfZero(a: Dec, b: Dec)
    ensures Value(GcfValue(a, b)) == 0.0 ==> Value(a) == 0.0 && Value(b) == 0.0
  {
    var s := CommonScale(a, b);
    ValueZero(GcfValue(a, b));
    EuclidZero(CoeffAt(a, s), CoeffAt(b, s));
    ValueZero(a);
    ValueZero(b);
    if a.coeff != 0 {
      MulAbsGrow(a.coeff, IntPow10(s - a.scale));
    }
    if b.coeff != 0 {
      MulAbsGrow(b.coeff, IntPow10(s - b.scale));
    }
  }

  /** The params overload of GCF: the first two arguments' factor folded with GCF over
      the remaining values from left to right. */
  function GcfAll(first: Dec, values: seq<Dec>): Dec
    decreases |values|
  {
    if |values| == 0 then first
    else GcfValue(GcfAll(first, values[..|values| - 1]), values[|values| - 1])
  }

  /** DecimalEx.GCF(a, b, params values): the aggregate of GCF over the values. */
  method GCFOfMany(a: Dec, b: Dec, values: seq<Dec>) returns (r: Dec)
    ensures Value(r) == Value(GcfAll(GcfValue(a, b), values))
  {
    r := GCF(a, b);
    for i := 0 to |values|
      invariant Value(r) == Value(GcfAll(GcfValue(a, b), values[..i]))
    {
      var next := GCF(r, values[i]);
      assert values[..i + 1][..i] == values[..i];
      GcfValueOnly(r, GcfAll(GcfValue(a, b), values[..i]), values[i], values[i]);
      r := next;
    }
    assert values[..|values|] == values;
  }

  lemma IntegralProduct(x: real, y: real)
    requires IsIntegral(x) && IsIntegral(y)
    ensures IsIntegral(x * y)
  {
    var m, n := x.Floor, y.Floor;
    RealOfProduct(m, n);
    assert x * y == m as real * n as real;
    IntIsIntegral(m * n);
  }

  /** If g1 goes a whole number of times into x and g into g1, then g goes into x. */
  lemma DividesThrough(x: real, g1: real, g: real)
    requires g1 != 0.0 && g != 0.0 && IsIntegral(x / g1) && IsIntegral(g1 / g)
    ensures IsIntegral(x / g)
  {
    var u, w := x / g1, g1 / g;
    IntegralProduct(u, w);
    assert x / g == u * w;
    assert (x / g).Floor == (u * w).Floor;
  }

  /** The folded factor is zero only when every argument is. */
  lemma {:induction false} GcfAllZero(first: Dec, values: seq<Dec>)
    requires Value(GcfAll(first, values)) == 0.0
    ensures Value(first) == 0.0
    ensures forall i :: 0 <= i < |values| ==> Value(values[i]) == 0.0
    decreases |values|
  {
    if |values| > 0 {
      var init := values[..|values| - 1];
      GcfZero(GcfAll(first, init), values[|values| - 1]);
      GcfAllZero(first, init);
      assert forall i :: 0 <= i < |values| - 1 ==> values[i] == init[i];
    }
  }

  /** The induction step of GcfAllDividesAll, on the values alone. */
  lemma DividesAllStep(first: Dec, init: seq<Dec>, last: Dec, g1: real, g: real)
    requires g != 0.0 && IsIntegral(g1 / g) && IsIntegral(Value(last) / g)
    requires g1 != 0.0 ==>
      IsIntegral(Value(first) / g1) && forall i :: 0 <= i < |init| ==> IsIntegral(Value(init[i]) / g1)
    requires g1 == 0.0 ==>
      Value(first) == 0.0 && forall i :: 0 <= i < |init| ==> Value(init[i]) == 0.0
    ensures IsIntegral(Value(first) / g)
    ensures forall i :: 0 <= i < |init + [last]| ==> IsIntegral(Value((init + [last])[i]) / g)
  {
    var values := init + [last];
    IntIsIntegral(0);
    if g1 != 0.0 {
      DividesThrough(Value(first), g1, g);
    }
    forall i | 0 <= i < |values|
      ensures IsIntegral(Value(values[i]) / g)
    {
      if i < |init| {
        assert values[i] == init[i];
        if g1 != 0.0 {
          DividesThrough(Value(values[i]), g1, g);
        }
      }
    }
  }

  /** A nonzero folded factor goes a whole number of times into every argument. */
  lemma {:induction false} GcfAllDividesAll(first: Dec, values: seq<Dec>)
    requires Value(GcfAll(first, values)) != 0.0
    ensures IsIntegral(Value(first) / Value(GcfAll(first, values)))
    ensures forall i :: 0 <= i < |values| ==> IsIntegral(Value(values[i]) / Value(GcfAll(first, values)))
    decreases |values|
  {
    if |values| == 0 {
      assert Value(first) / Value(first) == 1.0;
      IntIsIntegral(1);
    } else {
      var init := values[..|values| - 1];
      var last := values[|values| - 1];
      assert values == init + [last];
      var g1 := GcfAll(first, init);
      GcfDividesBoth(g1, last);
      if Value(g1) != 0.0 {
        GcfAllDividesAll(first, init);
      } else {
        GcfAllZero(first, init);
      }
      DividesAllStep(first, init, last, Value(g1), Value(GcfValue(g1, last)));
    }
  }

  // Arithmetic-geometric mean

  lemma AmGmApart(u: real, v: real, g: real, h: real)
    requires h == g && g * h == u * v && u + v == g + h
    ensures u == v
  {
    if u != v {
      var t := u - g;
      var s := u - h;
      DifferenceOfSquares(g, h, t, s, u, v);
      if t > 0.0 {
        PositiveProduct(t, s);
      } else {
        BothNegativeProduct(t, s);
      }
    }
  }

  /** In exact arithmetic the arithmetic mean of two numbers equals their geometric
      mean only when the numbers are equal. */
  lemma AmGm(u: real, v: real, g: real)
    requires g * g == u * v && u + v == g + g
    ensures u == v
  {
    AmGmApart(u, v, g, g);
  }

  /** One pass of the AGMean loop: when the arithmetic mean equals the Sqrt of the
      product, the two magnitudes were already equal. */
  lemma MeansMeet(u: real, v: real, g: real)
    requires u > 0.0 && v >= 0.0 && g >= 0.0 && u / 2.0 + v / 2.0 == g
    requires u * v != SmallestNonZeroDec ==> g * g == u * v
    requires u * v == SmallestNonZeroDec ==> g == 0.0
    ensures u == v
  {
    if u * v != SmallestNonZeroDec {
      AmGm(u, v, g);
    }
  }

  /** DecimalEx.AGMean: zero when either argument is zero, an error for arguments of
      opposite signs, otherwise the mean of the magnitudes with the common sign. In
      exact arithmetic the loop stops only when the two magnitudes agree (the Sqrt of
      their product being exact); the real loop stops because decimal rounding makes the
      two means meet, for which the fuel bound of the loop and of Sqrt stands in. */
  method AGMean(k: Kernel, x: real, y: real, fuel: nat) returns (r: Result<real>)
    ensures x == 0.0 || y == 0.0 ==> r == Ok(0.0)
    ensures x != 0.0 && y != 0.0 && Sign(x) != Sign(y) ==> r == Err(GenericException)
    ensures r.Ok? && x != 0.0 && y != 0.0 ==> x == y && r.value == x
    ensures x != 0.0 && x == y && k.sqrtSeed(x * x) == Abs(x) && x * x != SmallestNonZeroDec ==> r == Ok(x)
    ensures r.Err? ==> r.error == GenericException || r.error == NotConverged
  {
    if x == 0.0 || y == 0.0 {
      return Ok(0.0);
    }
    var sign := Sign(x);
    if sign != Sign(y) {
      return Err(GenericException);
    }
    var u, v := x, y;
    if sign == -1 {
      u, v := -x, -y;
    }
    var a: real;
    var budget := fuel;
    while true
      invariant u > 0.0 && v >= 0.0
      invariant u == v ==> u == Abs(x) && v == Abs(y)
      invariant x == y && k.sqrtSeed(x * x) == Abs(x) && x * x != SmallestNonZeroDec ==>
        u == Abs(x) && v == Abs(x)
      decreases budget
    {
      a := u / 2.0 + v / 2.0;
      if v > 0.0 {
        PositiveProduct(u, v);
      }
      if u == Abs(x) && v == Abs(x) {
        assert u * v == x * x;
      }
      var root := Sqrt(k, u * v, fuel);
      if root.Err? {
        return Err(root.error);
      }
      var g := root.value;
      if a == g {
        MeansMeet(u, v, g);
        break;
      }
      if g == v && a == u {
        break;
      }
      if budget == 0 {
        return Err(NotConverged);
      }
      u, v := a, g;
      budget := budget - 1;
    }
    return if sign == -1 then Ok(-a) else Ok(a);
  }
}
