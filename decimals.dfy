/** The System.Decimal primitives the kernel is built on, in exact arithmetic. */
module Decimals {

  /** A decimal as stored: coefficient times 10^-scale. The 96-bit width of the
      coefficient is not modelled; the scale of a System.Decimal is at most 28. */
  datatype Dec = Dec(coeff: int, scale: nat)

  predicate IsDecimal(d: Dec) { d.scale <= 28 }

  function IntPow10(n: nat): (r: nat)
    ensures r >= 1
  {
    if n == 0 then 1 else 10 * IntPow10(n - 1)
  }

  function Value(d: Dec): real
  {
    d.coeff as real / IntPow10(d.scale) as real
  }

  function Abs(x: real): (r: real)
    ensures r >= 0.0 && (r == x || r == -x)
  {
    if x < 0.0 then -x else x
  }

  /** Math.Sign */
  function Sign(x: real): (r: int)
    ensures r == -1 <==> x < 0.0
    ensures r == 0 <==> x == 0.0
    ensures r == 1 <==> x > 0.0
  {
    if x < 0.0 then -1 else if x == 0.0 then 0 else 1
  }

  predicate IsIntegral(x: real) { x.Floor as real == x }

  /** decimal.Floor */
  function Floor(x: real): (r: int)
    ensures r as real <= x < r as real + 1.0
  {
    x.Floor
  }

  /** decimal.Ceiling */
  function Ceiling(x: real): (r: int)
    ensures r as real - 1.0 < x <= r as real
  {
    -((-x).Floor)
  }

  /** decimal.Truncate: rounds toward zero. */
  function Trunc(x: real): (r: int)
    ensures Abs(r as real) <= Abs(x) < Abs(r as real) + 1.0
    ensures x >= 0.0 ==> r >= 0
    ensures x <= 0.0 ==> r <= 0
  {
    if x >= 0.0 then x.Floor else -((-x).Floor)
  }

  /** The decimal `%` operator: the remainder of a division truncated toward zero,
      so its sign is that of the dividend. */
  function Rem(x: real, y: real): real
    requires y != 0.0
  {
    x - y * Trunc(x / y) as real
  }

  lemma IntIsIntegral(n: int)
    ensures IsIntegral(n as real)
  {
  }

  /** A value is integral exactly when truncation leaves it unchanged. */
  lemma TruncOfIntegral(x: real)
    ensures Trunc(x) as real == x <==> IsIntegral(x)
  {
    IntegralNeg(x);
  }

  /** Integrality is symmetric under negation, and so is the floor of an integer. */
  lemma IntegralNeg(x: real)
    ensures IsIntegral(-x) == IsIntegral(x)
    ensures IsIntegral(x) ==> (-x).Floor == -x.Floor
  {
    var n := x.Floor;
    if IsIntegral(x) {
      assert (-n) as real == -x;
    }
    if IsIntegral(-x) {
      var m := (-x).Floor;
      assert (-m) as real == x;
    }
  }

  lemma MulMono(u: real, w: real, v: real)
    requires u <= w && v > 0.0
    ensures u * v <= w * v
  {
  }

  lemma MulStrict(u: real, w: real, v: real)
    requires u < w && v > 0.0
    ensures u * v < w * v
  {
  }

  // Signs of products. Z3's arithmetic, as Dafny configures it, gives up on linear steps
  // once a product of a term with itself is among the facts, so the lemmas that matter
  // for squares take the two factors as separate parameters.

  lemma PositiveProduct(u: real, v: real)
    requires u > 0.0 && v > 0.0
    ensures u * v > 0.0
  {
  }

  lemma BothNegativeProduct(u: real, v: real)
    requires u < 0.0 && v < 0.0
    ensures u * v > 0.0
  {
  }

  lemma NegativeProduct(u: real, v: real)
    requires u < 0.0 && v > 0.0
    ensures u * v < 0.0
  {
  }

  /** A product of nonzero factors is nonzero. */
  lemma NonzeroProduct(m: real, n: real)
    requires m != 0.0 && n != 0.0
    ensures m * n != 0.0
  {
    if m > 0.0 && n > 0.0 {
      PositiveProduct(m, n);
    } else if m < 0.0 && n < 0.0 {
      BothNegativeProduct(m, n);
    } else if m < 0.0 {
      NegativeProduct(m, n);
    } else {
      NegativeProduct(n, m);
    }
  }

  lemma NegTimesNeg(b: real, g: real, h: real)
    requires g == -b && h == -b
    ensures g * h == b * b
  {
  }

  /** (g + t) * (h - s) with h == g and s == t. */
  lemma DifferenceOfSquares(g: real, h: real, t: real, s: real, p: real, q: real)
    requires h == g && s == t && p == g + t && q == h - s
    ensures p * q == g * h - t * s
  {
  }

  /** |q| < 1 when q = x / y and |x| < |y|. */
  lemma QuotBound(x: real, y: real)
    requires y != 0.0 && Abs(x) < Abs(y)
    ensures -1.0 < x / y < 1.0
  {
    if y > 0.0 {
      QuotBoundPositive(x, y);
    } else {
      QuotBoundPositive(-x, -y);
      assert (-x) / (-y) == x / y;
    }
  }

  lemma QuotBoundPositive(x: real, y: real)
    requires y > 0.0 && -y < x < y
    ensures -1.0 < x / y < 1.0
  {
    DivMono(x, y, y);
    DivMono(-y, x, y);
    assert y / y == 1.0 && (-y) / y == -1.0;
  }

  lemma FracTimesPositive(f: real, v: real)
    requires -1.0 < f < 1.0 && v > 0.0
    ensures -v < f * v < v
    ensures f > 0.0 ==> f * v > 0.0
    ensures f < 0.0 ==> f * v < 0.0
  {
    MulStrict(f, 1.0, v);
    MulStrict(-1.0, f, v);
    if f > 0.0 { MulStrict(0.0, f, v); }
    if f < 0.0 { MulStrict(f, 0.0, v); }
  }

  /** f * y lies strictly between -|y| and |y| when |f| < 1, with the sign of f * sign(y). */
  lemma FracTimes(f: real, y: real)
    requires -1.0 < f < 1.0 && y != 0.0
    ensures Abs(f * y) < Abs(y)
    ensures f > 0.0 ==> Sign(f * y) == Sign(y)
    ensures f < 0.0 ==> Sign(f * y) == -Sign(y)
  {
    if y > 0.0 {
      FracTimesPositive(f, y);
    } else {
      FracTimesPositive(f, -y);
      assert f * (-y) == -(f * y);
    }
  }

  /** The remainder is smaller than the divisor, keeps the dividend's sign, and
      differs from the dividend by a whole multiple of the divisor. */
  lemma RemBounds(x: real, y: real)
    requires y != 0.0
    ensures Abs(Rem(x, y)) < Abs(y)
    ensures Rem(x, y) == 0.0 || Sign(Rem(x, y)) == Sign(x)
    ensures IsIntegral((x - Rem(x, y)) / y)
  {
    var q := x / y;
    var t := Trunc(q);
    var f := q - t as real;
    RemAsFraction(x, y, q, t, f);
    if f != 0.0 {
      FracTimes(f, y);
      DividendSign(x, y, q);
    }
    assert (x - Rem(x, y)) / y == t as real;
  }

  /** The remainder is the fractional part of the quotient times the divisor. */
  lemma RemAsFraction(x: real, y: real, q: real, t: int, f: real)
    requires y != 0.0 && q == x / y && t == Trunc(q) && f == q - t as real
    ensures Rem(x, y) == f * y && x - Rem(x, y) == t as real * y
    ensures -1.0 < f < 1.0 && (q > 0.0 ==> f >= 0.0) && (q < 0.0 ==> f <= 0.0)
  {
    assert x == q * y;
    assert q * y == t as real * y + f * y;
  }

  /** A positive quotient means dividend and divisor share a sign, a negative one that
      their signs differ. */
  lemma DividendSign(x: real, y: real, q: real)
    requires y != 0.0 && q == x / y
    ensures q > 0.0 ==> Sign(x) == Sign(y)
    ensures q < 0.0 ==> Sign(x) == -Sign(y)
  {
    assert x == q * y;
    if y > 0.0 {
      if q > 0.0 { MulStrict(0.0, q, y); } else if q < 0.0 { MulStrict(q, 0.0, y); }
    } else {
      assert q * (-y) == -x;
      if q > 0.0 { MulStrict(0.0, q, -y); } else if q < 0.0 { MulStrict(q, 0.0, -y); }
    }
  }

  /** When |x| < |y| the remainder is x itself. */
  lemma RemOfSmaller(x: real, y: real)
    requires y != 0.0 && Abs(x) < Abs(y)
    ensures Rem(x, y) == x
  {
    QuotBound(x, y);
    assert Trunc(x / y) == 0;
  }

  /** The magnitude of an integer. */
  function AbsInt(x: int): (r: nat)
    ensures r == x || r == -x
  {
    if x < 0 then -x else x
  }

  /** Truncated integer remainder, the integer counterpart of Rem. */
  function IntRem(x: int, y: int): int
    requires y != 0
  {
    x - y * Trunc(x as real / y as real)
  }

  lemma MulGrow(u: int, k: int)
    requires u > 0 && k >= 1
    ensures u * k >= u
  {
    assert u * k == u + u * (k - 1);
    assert u * (k - 1) >= 0;
  }

  /** A nonzero multiple of d is at least as large as d in magnitude. */
  lemma MulAbsGrow(d: int, k: int)
    ensures d != 0 && k != 0 ==> -d <= d * k <= d || d * k >= d || d * k <= -d
    ensures d > 0 && k != 0 ==> d * k >= d || d * k <= -d
    ensures d < 0 && k != 0 ==> d * k <= d || d * k >= -d
  {
    if d > 0 && k > 0 { MulGrow(d, k); }
    if d > 0 && k < 0 { MulGrow(d, -k); assert d * (-k) == -(d * k); }
    if d < 0 && k > 0 { MulGrow(-d, k); assert (-d) * k == -(d * k); }
    if d < 0 && k < 0 { MulGrow(-d, -k); assert (-d) * (-k) == d * k; }
  }

  /** A multiple of d leaves no remainder on division by d. */
  lemma MulMod(d: int, m: int)
    requires d != 0
    ensures (d * m) % d == 0
  {
    var n := d * m;
    var q := n / d;
    var r := n % d;
    assert n == d * q + r;
    assert d * (m - q) == r;
    MulAbsGrow(d, m - q);
  }

  /** Euclidean division is unique: a decomposition n = d*q + t with 0 <= t < |d| gives
      the remainder. */
  lemma ModUnique(n: int, d: int, q: int, t: int)
    requires d != 0 && n == d * q + t && 0 <= t < (if d > 0 then d else -d)
    ensures n % d == t && n / d == q
  {
    var q2 := n / d;
    var t2 := n % d;
    assert d * (q - q2) == t2 - t;
    MulAbsGrow(d, q - q2);
  }

  /** Multiplying both sides of a division by the same factor keeps the remainder in
      proportion: (x*p) % (10*p) == (x % 10) * p. */
  lemma ModScaled(x: nat, p: nat)
    requires p > 0
    ensures (x * p) % (10 * p) == (x % 10) * p
  {
    var q := x / 10;
    var t := x % 10;
    assert x == 10 * q + t;
    assert x * p == (10 * p) * q + t * p;
    assert t * p < 10 * p by {
      assert (10 - t) * p >= p by { MulGrow(p, 10 - t); assert p * (10 - t) == (10 - t) * p; }
    }
    ModUnique(x * p, 10 * p, q, t * p);
  }

  /** Division by a positive number preserves order, strictly and not. */
  lemma DivMono(u: real, w: real, p: real)
    requires p > 0.0
    ensures u <= w ==> u / p <= w / p
    ensures u < w ==> u / p < w / p
  {
    var q := (w - u) / p;
    assert w / p - u / p == q;
    assert q * p == w - u;
    if q < 0.0 {
      MulStrict(q, 0.0, p);
    }
    if q == 0.0 {
      assert w - u == 0.0;
    }
  }

  /** x is a whole multiple of 1/p. */
  predicate OnGrid(x: real, p: real) { IsIntegral(x * p) }

  lemma GridOf(n: int, p: real)
    requires p > 0.0
    ensures OnGrid(n as real / p, p)
  {
    assert (n as real / p) * p == n as real;
    IntIsIntegral(n);
  }

  /** The stored coefficient is the value at the stored scale. */
  lemma ValueScaled(d: Dec)
    ensures Value(d) * IntPow10(d.scale) as real == d.coeff as real
  {
  }

  /** Powers of ten multiply by adding exponents. */
  lemma {:induction false} IntPow10Add(m: nat, n: nat)
    ensures IntPow10(m + n) == IntPow10(m) * IntPow10(n)
  {
    if n > 0 {
      IntPow10Add(m, n - 1);
      assert IntPow10(m + n) == 10 * IntPow10(m + n - 1);
    }
  }

  /** d divides n (d nonzero). */
  predicate Divides(d: int, n: int) { d != 0 && n % d == 0 }

  /** A combination a + b*t of two multiples of d is a multiple of d. */
  lemma DividesCombination(d: int, a: int, b: int, t: int)
    requires Divides(d, a) && Divides(d, b)
    ensures Divides(d, a + b * t)
  {
    var qa := a / d;
    var qb := b / d;
    assert a == d * qa && b == d * qb;
    assert a + b * t == d * (qa + qb * t);
    MulMod(d, qa + qb * t);
  }

  /** The integer remainder is the real remainder of the same numbers, and so is
      smaller than the divisor in magnitude. */
  lemma IntRemBound(x: int, y: int)
    requires y != 0
    ensures IntRem(x, y) as real == Rem(x as real, y as real)
    ensures AbsInt(IntRem(x, y)) < AbsInt(y)
  {
    var t := Trunc(x as real / y as real);
    assert (y * t) as real == (y as real) * (t as real);
    assert IntRem(x, y) as real == Rem(x as real, y as real);
    RemBounds(x as real, y as real);
    var r := IntRem(x, y);
    assert Abs(r as real) == AbsInt(r) as real;
    assert Abs(y as real) == AbsInt(y) as real;
  }

  lemma CancelFactor(c: real, p: real, q: real)
    requires p != 0.0 && q != 0.0
    ensures (c * q) / (p * q) == c / p
  {
    assert (c / p) * (p * q) == c * q;
  }

  lemma CancelFactorAt(c: real, p: real, q: real, x: real, y: real)
    requires p != 0.0 && q != 0.0 && x == c * q && y == p * q
    ensures x / y == c / p
  {
    CancelFactor(c, p, q);
  }

  lemma QuotientOfScaled(x: real, y: real, p: real)
    requires p != 0.0 && y != 0.0
    ensures (x / p) / (y / p) == x / y
  {
    assert (x / y) * (y / p) == x / p;
  }

  lemma ScaledDifference(x: real, y: real, t: real, p: real)
    requires p != 0.0
    ensures x / p - (y / p) * t == (x - y * t) / p
  {
    assert (y / p) * t == (y * t) / p;
  }

  /** Converting to real commutes with multiplication. */
  lemma {:induction false} RealOfProduct(m: int, n: int)
    ensures (m * n) as real == m as real * n as real
    decreases if n >= 0 then n else -n
  {
    if n > 0 {
      RealOfProduct(m, n - 1);
      assert m * n == m * (n - 1) + m;
      assert m as real * n as real == m as real * (n - 1) as real + m as real;
    } else if n < 0 {
      RealOfProduct(m, n + 1);
      assert m * n == m * (n + 1) - m;
      assert m as real * n as real == m as real * (n + 1) as real - m as real;
    }
  }

  /** The larger of the two scales: both values are whole numbers of units of 10^-S. */
  function CommonScale(a: Dec, b: Dec): nat
  {
    if a.scale >= b.scale then a.scale else b.scale
  }

  /** The coefficient of d rewritten at the scale s >= d.scale. */
  function CoeffAt(d: Dec, s: nat): int
    requires d.scale <= s
  {
    d.coeff * IntPow10(s - d.scale)
  }

  lemma CoeffAtValue(d: Dec, s: nat)
    requires d.scale <= s
    ensures Value(d) == CoeffAt(d, s) as real / IntPow10(s) as real
  {
    var m := s - d.scale;
    IntPow10Add(d.scale, m);
    assert d.scale + m == s;
    RescaleQuotient(d.coeff, IntPow10(d.scale), IntPow10(m), IntPow10(s));
  }

  /** c/a == (c*b)/(a*b) once a*b is a named whole number. */
  lemma RescaleQuotient(c: int, a: nat, b: nat, ab: nat)
    requires a >= 1 && b >= 1 && ab == a * b
    ensures (c * b) as real / ab as real == c as real / a as real
  {
    RealOfProduct(c, b);
    RealOfProduct(a, b);
    CancelFactorAt(c as real, a as real, b as real, (c * b) as real, ab as real);
  }
}
