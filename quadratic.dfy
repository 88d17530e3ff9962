/** The algebra behind SolveQuadratic in DecimalEx and MathExt: roots of
    a*x^2 + b*x + c, the discriminant, the two forms of the quadratic formula, and the
    rescaling of the coefficients by powers of ten that both versions perform first. */
module Quadratics {
  import opened Outcomes
  import opened Decimals
  import opened DecimalExConstants
  import opened Numerics
  import DecimalEx

  /** x solves a*x^2 + b*x + c == 0 (written in Horner form). */
  predicate IsRoot(a: real, b: real, c: real, x: real)
  {
    (a * x + b) * x + c == 0.0
  }

  function Disc(a: real, b: real, c: real): real
  {
    b * b - 4.0 * a * c
  }

  /** The root with +sqrt in the classical quadratic formula. */
  function PlusRoot(a: real, b: real, q: real): real
    requires a != 0.0
  {
    (-b + q) / (2.0 * a)
  }

  /** The root with -sqrt in the classical quadratic formula. */
  function MinusRoot(a: real, b: real, q: real): real
    requires a != 0.0
  {
    (-b - q) / (2.0 * a)
  }

  lemma QuotientProduct(m: real, n: real, d: real, e: real)
    requires d != 0.0 && e != 0.0
    ensures (m / d) * (n / e) == (m * n) / (d * e)
  {
  }

  lemma SquareNonNegative(e: real)
    ensures e * e >= 0.0
  {
    if e < 0.0 {
      NegTimesNeg(e, -e, -e);
      PositiveProduct(-e, -e);
    }
  }

  /** Scaling all three coefficients by a nonzero factor scales the polynomial. */
  lemma ScaledEval(a: real, b: real, c: real, f: real, x: real)
    ensures (f * a * x + f * b) * x + f * c == f * ((a * x + b) * x + c)
  {
  }

  /** Scaling the coefficients by a nonzero factor keeps the roots. */
  lemma ScaledRoots(a: real, b: real, c: real, f: real, x: real)
    requires f != 0.0
    ensures IsRoot(f * a, f * b, f * c, x) <==> IsRoot(a, b, c, x)
  {
    ScaledEval(a, b, c, f, x);
  }

  /** (-b + q) * (-b - q) == 4ac when q is a square root of the discriminant. */
  lemma ConjugateProduct(a: real, b: real, c: real, q: real)
    requires q * q == Disc(a, b, c)
    ensures (-b + q) * (-b - q) == 4.0 * a * c
  {
    DifferenceOfSquares(-b, -b, q, q, -b + q, -b - q);
    NegTimesNeg(b, -b, -b);
  }

  /** Vieta: the two roots sum to -b/a ... */
  lemma RootSum(a: real, b: real, q: real)
    requires a != 0.0
    ensures a * (PlusRoot(a, b, q) + MinusRoot(a, b, q)) == -b
  {
  }

  /** ... and multiply to c/a. */
  lemma RootProduct(a: real, b: real, c: real, q: real)
    requires a != 0.0 && q * q == Disc(a, b, c)
    ensures a * (PlusRoot(a, b, q) * MinusRoot(a, b, q)) == c
  {
    ConjugateProduct(a, b, c, q);
    QuotientProduct(-b + q, -b - q, 2.0 * a, 2.0 * a);
  }

  lemma Factor(a: real, b: real, c: real, r1: real, r2: real, x: real)
    requires a * (r1 + r2) == -b && a * (r1 * r2) == c
    ensures (a * x + b) * x + c == a * ((x - r1) * (x - r2))
  {
  }

  /** With q a square root of the non-negative discriminant, the roots are exactly the
      two values of the quadratic formula. */
  lemma QuadraticRoots(a: real, b: real, c: real, q: real, x: real)
    requires a != 0.0 && q * q == Disc(a, b, c)
    ensures IsRoot(a, b, c, x) <==> x == PlusRoot(a, b, q) || x == MinusRoot(a, b, q)
  {
    var r1, r2 := PlusRoot(a, b, q), MinusRoot(a, b, q);
    RootSum(a, b, q);
    RootProduct(a, b, c, q);
    Factor(a, b, c, r1, r2, x);
    if x != r1 && x != r2 {
      NonzeroProduct(x - r1, x - r2);
      NonzeroProduct(a, (x - r1) * (x - r2));
    }
  }

  lemma CompleteSquare(a: real, b: real, c: real, x: real, e: real)
    requires e == 2.0 * a * x + b
    ensures 4.0 * a * ((a * x + b) * x + c) == e * e - Disc(a, b, c)
  {
  }

  /** A negative discriminant means no real root. */
  lemma NoRealRoots(a: real, b: real, c: real, x: real)
    requires Disc(a, b, c) < 0.0
    ensures !IsRoot(a, b, c, x)
  {
    var e := 2.0 * a * x + b;
    CompleteSquare(a, b, c, x, e);
    SquareNonNegative(e);
  }

  /** The "citardauq" form 2c / (-b - q) is the classical root with +q. */
  lemma CitardauqPlus(a: real, b: real, c: real, q: real)
    requires a != 0.0 && q * q == Disc(a, b, c) && -b - q != 0.0
    ensures 2.0 * c / (-b - q) == PlusRoot(a, b, q)
  {
    ConjugateProduct(a, b, c, q);
    CrossDivide(-b + q, -b - q, 2.0 * a, 2.0 * c);
  }

  /** The "citardauq" form 2c / (-b + q) is the classical root with -q. */
  lemma CitardauqMinus(a: real, b: real, c: real, q: real)
    requires a != 0.0 && q * q == Disc(a, b, c) && -b + q != 0.0
    ensures 2.0 * c / (-b + q) == MinusRoot(a, b, q)
  {
    ConjugateProduct(a, b, c, q);
    assert (-b - q) * (-b + q) == 4.0 * a * c;
    CrossDivide(-b - q, -b + q, 2.0 * a, 2.0 * c);
  }

  /** m / d == e / n when m * n == d * e. */
  lemma CrossDivide(m: real, n: real, d: real, e: real)
    requires n != 0.0 && d != 0.0 && m * n == d * e
    ensures e / n == m / d
  {
    var w := m / d;
    assert m == w * d;
    ProductReorder(w, d, n, m * n);
    assert w * n * d == e * d;
    CancelRight(w * n, e, d);
  }

  lemma ProductReorder(w: real, d: real, n: real, p: real)
    requires p == (w * d) * n
    ensures p == w * n * d
  {
  }

  lemma CancelRight(x: real, y: real, d: real)
    requires d != 0.0 && x * d == y * d
    ensures x == y
  {
    assert x == (x * d) / d;
  }

  // Rescaling: both versions of SolveQuadratic multiply all three coefficients by ten
  // until at least one of them lies outside the open interval (-1, 1).

  predicate InUnit(x: real)
  {
    -1.0 < x < 1.0
  }

  predicate AllInUnit(a: real, b: real, c: real)
  {
    InUnit(a) && InUnit(b) && InUnit(c)
  }

  /** Bounds the number of times a nonzero coefficient can still be multiplied by ten
      before it leaves (-1, 1). */
  function RescaleMeasure(a: real): nat
    requires a != 0.0
  {
    if Abs(a) >= 1.0 then 0
    else
      var y := 1.0 / Abs(a);
      assert y > 0.0;
      Floor(y)
  }

  lemma RescaleMeasureDecreases(a: real)
    requires a != 0.0 && Abs(a) < 1.0
    ensures RescaleMeasure(10.0 * a) < RescaleMeasure(a)
  {
    var y := 1.0 / Abs(a);
    InverseAboveOne(Abs(a), y);
    if Abs(10.0 * a) < 1.0 {
      assert Abs(10.0 * a) == 10.0 * Abs(a);
      assert 1.0 / Abs(10.0 * a) == y / 10.0;
      assert Floor(y) >= 1;
    }
  }

  lemma InverseAboveOne(u: real, y: real)
    requires 0.0 < u < 1.0 && y == 1.0 / u
    ensures y > 1.0
  {
    assert y * u == 1.0;
  }

  /** The coefficients after the rescaling loop. */
  function Rescaled(a: real, b: real, c: real): (real, real, real)
    requires a != 0.0
    decreases RescaleMeasure(a)
  {
    if AllInUnit(a, b, c) then
      RescaleMeasureDecreases(a);
      Rescaled(10.0 * a, 10.0 * b, 10.0 * c)
    else (a, b, c)
  }

  /** The factor the rescaling loop multiplies the coefficients by. */
  function ScaleFactor(a: real, b: real, c: real): real
    requires a != 0.0
    decreases RescaleMeasure(a)
  {
    if AllInUnit(a, b, c) then
      RescaleMeasureDecreases(a);
      10.0 * ScaleFactor(10.0 * a, 10.0 * b, 10.0 * c)
    else 1.0
  }

  /** The rescaled coefficients are the originals times a factor of at least one. */
  lemma {:induction false} RescaledSpec(a: real, b: real, c: real)
    requires a != 0.0
    ensures ScaleFactor(a, b, c) >= 1.0
    ensures Rescaled(a, b, c).0 == ScaleFactor(a, b, c) * a
    ensures Rescaled(a, b, c).1 == ScaleFactor(a, b, c) * b
    ensures Rescaled(a, b, c).2 == ScaleFactor(a, b, c) * c
    decreases RescaleMeasure(a)
  {
    if AllInUnit(a, b, c) {
      RescaleMeasureDecreases(a);
      RescaledSpec(10.0 * a, 10.0 * b, 10.0 * c);
      var f1 := ScaleFactor(10.0 * a, 10.0 * b, 10.0 * c);
      Regroup(f1, a);
      Regroup(f1, b);
      Regroup(f1, c);
    }
  }

  /** After rescaling one coefficient lies outside (-1, 1), and coefficients that already
      had one outside are left alone. */
  lemma {:induction false} RescaledLeavesUnit(a: real, b: real, c: real)
    requires a != 0.0
    ensures var (a', b', c') := Rescaled(a, b, c); !AllInUnit(a', b', c')
    ensures !AllInUnit(a, b, c) ==> Rescaled(a, b, c) == (a, b, c)
    decreases RescaleMeasure(a)
  {
    if AllInUnit(a, b, c) {
      RescaleMeasureDecreases(a);
      RescaledLeavesUnit(10.0 * a, 10.0 * b, 10.0 * c);
    }
  }

  lemma Regroup(f: real, x: real)
    ensures f * (10.0 * x) == (10.0 * f) * x
  {
  }

  /** The rescaled equation has the same roots. */
  lemma RescaledRoots(a: real, b: real, c: real, x: real)
    requires a != 0.0
    ensures var (a', b', c') := Rescaled(a, b, c);
      a' != 0.0 && (IsRoot(a', b', c', x) <==> IsRoot(a, b, c, x))
  {
    RescaledSpec(a, b, c);
    var f := ScaleFactor(a, b, c);
    NonzeroProduct(f, a);
    ScaledRoots(a, b, c, f, x);
  }

  /** The rescaled discriminant is the original one times the square of the factor, so
      it has the same sign. */
  lemma RescaledDisc(a: real, b: real, c: real)
    requires a != 0.0
    ensures var (a', b', c') := Rescaled(a, b, c);
      Sign(Disc(a', b', c')) == Sign(Disc(a, b, c))
  {
    RescaledSpec(a, b, c);
    var f := ScaleFactor(a, b, c);
    var g := f;
    DiscOfScaled(a, b, c, f, g);
    PositiveProduct(f, g);
    SignOfScaled(f * g, Disc(a, b, c));
  }

  lemma DiscOfScaled(a: real, b: real, c: real, f: real, g: real)
    requires g == f
    ensures Disc(f * a, f * b, f * c) == (f * g) * Disc(a, b, c)
  {
  }

  lemma SignOfScaled(p: real, d: real)
    requires p > 0.0
    ensures Sign(p * d) == Sign(d)
  {
    if d > 0.0 {
      PositiveProduct(p, d);
    } else if d < 0.0 {
      NegativeProduct(d, p);
    }
  }

  /** The discriminant of the rescaled coefficients, the one the code computes. */
  function ScaledDisc(a: real, b: real, c: real): real
    requires a != 0.0
  {
    var (a', b', c') := Rescaled(a, b, c);
    Disc(a', b', c')
  }

  /** With a == 0 the equation is linear: its one root is -c / b. */
  lemma LinearRoot(b: real, c: real, x: real)
    requires b != 0.0
    ensures IsRoot(0.0, b, c, x) <==> x == -c / b
  {
  }

  // Choosing between the classical and the "citardauq" form of each root.

  /** A list of roots with no value listed twice: at most two, and two only when they
      differ. */
  predicate ListedOnce(s: seq<real>)
  {
    |s| <= 2 && (|s| == 2 ==> s[0] != s[1])
  }

  /** The answer list: one value when both roots agree, otherwise both in order. */
  function RootList(h: real, k: real): (r: seq<real>)
    ensures forall x :: x in r <==> x == h || x == k
    ensures ListedOnce(r)
  {
    if h == k then [h] else [h, k]
  }

  /** The roots as DecimalEx.SolveQuadratic picks them from a, b, c and q, the square root
      of the discriminant: h uses the classical formula when b < 0 and 2c / (-b - q)
      otherwise; k uses the classical formula when b > 0 and 2c / (-b + q) otherwise.
      Dividing by zero is an error; h is computed first. */
  function SelectRoots(a: real, b: real, c: real, q: real): (r: Result<seq<real>>)
    requires a != 0.0
    ensures r.Err? ==> r.error == DivideByZeroException
    ensures r.Ok? ==> ListedOnce(r.value)
    ensures b != 0.0 && q == 0.0 ==> r.Ok?
  {
    if Sign(b) == -1 then
      if -b + q == 0.0 then Err(DivideByZeroException)
      else Ok(RootList(PlusRoot(a, b, q), 2.0 * c / (-b + q)))
    else if -b - q == 0.0 then Err(DivideByZeroException)
    else if Sign(b) == 1 then Ok(RootList(2.0 * c / (-b - q), MinusRoot(a, b, q)))
    else if -b + q == 0.0 then Err(DivideByZeroException)
    else Ok(RootList(2.0 * c / (-b - q), 2.0 * c / (-b + q)))
  }

  /** With q the non-negative square root of the discriminant, the choice fails exactly
      when b and q are both zero, and otherwise yields the two classical roots, which
      are all the roots there are. */
  lemma SelectRootsSpec(a: real, b: real, c: real, q: real)
    requires a != 0.0 && q >= 0.0 && q * q == Disc(a, b, c)
    ensures SelectRoots(a, b, c, q).Err? <==> b == 0.0 && q == 0.0
    ensures SelectRoots(a, b, c, q).Err? ==> SelectRoots(a, b, c, q).error == DivideByZeroException
    ensures SelectRoots(a, b, c, q).Ok? ==>
      SelectRoots(a, b, c, q).value == RootList(PlusRoot(a, b, q), MinusRoot(a, b, q))
    ensures SelectRoots(a, b, c, q).Ok? ==>
      forall x :: x in SelectRoots(a, b, c, q).value <==> IsRoot(a, b, c, x)
  {
    if b < 0.0 {
      CitardauqMinus(a, b, c, q);
    } else if b > 0.0 {
      CitardauqPlus(a, b, c, q);
    } else if q != 0.0 {
      CitardauqPlus(a, b, c, q);
      CitardauqMinus(a, b, c, q);
    }
    if SelectRoots(a, b, c, q).Ok? {
      forall x
        ensures x in SelectRoots(a, b, c, q).value <==> IsRoot(a, b, c, x)
      {
        QuadraticRoots(a, b, c, q, x);
      }
    }
  }

  /** The unit-test equations: x^2 + 2x + 1 has the one root -1, which the choice lists
      once; 2x^2 + 3x + 4 has none; 2x + 4 has the root -2. */
  lemma QuadraticExamples()
    ensures SelectRoots(1.0, 2.0, 1.0, 0.0) == Ok([-1.0])
    ensures forall x :: IsRoot(1.0, 2.0, 1.0, x) <==> x == -1.0
    ensures forall x :: !IsRoot(2.0, 3.0, 4.0, x)
    ensures forall x :: IsRoot(0.0, 2.0, 4.0, x) <==> x == -2.0
  {
    forall x ensures IsRoot(1.0, 2.0, 1.0, x) <==> x == -1.0 {
      QuadraticRoots(1.0, 2.0, 1.0, 0.0, x);
    }
    forall x ensures !IsRoot(2.0, 3.0, 4.0, x) {
      NoRealRoots(2.0, 3.0, 4.0, x);
    }
    forall x ensures IsRoot(0.0, 2.0, 4.0, x) <==> x == -2.0 {
      LinearRoot(2.0, 4.0, x);
    }
  }

  /** For x^2 == 0 the choice divides 0 by 0, although 0 is a root. */
  lemma SelectRootsDoubleZero()
    ensures SelectRoots(1.0, 0.0, 0.0, 0.0) == Err(DivideByZeroException)
    ensures IsRoot(1.0, 0.0, 0.0, 0.0)
  {
  }

  /** The choice with the b == 0 case sent to the classical formula, for which neither
      denominator can vanish. */
  function SelectRootsCorrected(a: real, b: real, c: real, q: real): seq<real>
    requires a != 0.0 && q >= 0.0
  {
    if Sign(b) == -1 then RootList(PlusRoot(a, b, q), 2.0 * c / (-b + q))
    else if Sign(b) == 1 then RootList(2.0 * c / (-b - q), MinusRoot(a, b, q))
    else RootList(PlusRoot(a, b, q), MinusRoot(a, b, q))
  }

  /** The corrected choice always yields exactly the roots. */
  lemma SelectRootsCorrectedSpec(a: real, b: real, c: real, q: real)
    requires a != 0.0 && q >= 0.0 && q * q == Disc(a, b, c)
    ensures SelectRootsCorrected(a, b, c, q) == RootList(PlusRoot(a, b, q), MinusRoot(a, b, q))
    ensures forall x :: x in SelectRootsCorrected(a, b, c, q) <==> IsRoot(a, b, c, x)
  {
    if b < 0.0 {
      CitardauqMinus(a, b, c, q);
    } else if b > 0.0 {
      CitardauqPlus(a, b, c, q);
    }
    forall x
      ensures x in SelectRootsCorrected(a, b, c, q) <==> IsRoot(a, b, c, x)
    {
      QuadraticRoots(a, b, c, q, x);
    }
  }

  // Quadratic equations

  /** The rescaled discriminant is one the code bends: -SmallestNonZeroDec is read as 0, and
      Sqrt returns 0 for SmallestNonZeroDec. */
  predicate RoundedDisc(d: real)
  {
    d == SmallestNonZeroDec || d == -SmallestNonZeroDec
  }

  /** The floating-point seed of Sqrt is already the exact root of d. */
  predicate ExactSeed(k: Kernel, d: real)
  {
    k.sqrtSeed(d) * k.sqrtSeed(d) == d
  }

  /** DecimalEx.SolveQuadratic: the real roots of a*x^2 + b*x + c. A constant equation has
      no roots listed, a linear one its single root. Otherwise the coefficients are
      multiplied by ten until one leaves (-1, 1), the discriminant is computed (a value of
      -SmallestNonZeroDec counting as 0), a negative one gives no roots, and the two roots
      are taken from the classical or the "citardauq" formula by the sign of b. For b == 0
      and a zero square root that divides by zero (see SelectRootsDoubleZero). */
  method SolveQuadratic(k: Kernel, a: real, b: real, c: real, fuel: nat) returns (r: Result<seq<real>>)
    ensures a == 0.0 && b == 0.0 ==> r == Ok([])
    ensures a == 0.0 && b != 0.0 ==> r == Ok([-c / b])
    ensures a != 0.0 && Disc(a, b, c) < 0.0 && ScaledDisc(a, b, c) != -SmallestNonZeroDec ==> r == Ok([])
    ensures r == Err(DivideByZeroException) <==>
      a != 0.0 && b == 0.0 && (ScaledDisc(a, b, c) == 0.0 || RoundedDisc(ScaledDisc(a, b, c)))
    ensures a != 0.0 && ScaledDisc(a, b, c) > 0.0 && !RoundedDisc(ScaledDisc(a, b, c)) &&
      ExactSeed(k, ScaledDisc(a, b, c))
      ==> r.Ok?
    ensures r.Ok? && (a != 0.0 || b != 0.0) && (a != 0.0 ==> !RoundedDisc(ScaledDisc(a, b, c))) ==>
      forall x :: x in r.value <==> IsRoot(a, b, c, x)
    ensures r.Ok? ==> ListedOnce(r.value)
    ensures a != 0.0 && b != 0.0 && (ScaledDisc(a, b, c) == 0.0 || RoundedDisc(ScaledDisc(a, b, c))) ==> r.Ok?
    ensures r.Err? ==> r.error == DivideByZeroException || r.error == NotConverged
  {
    if a == 0.0 && b == 0.0 {
      return Ok([]);
    }
    if a == 0.0 {
      forall x
        ensures x in [-c / b] <==> IsRoot(a, b, c, x)
      {
        LinearRoot(b, c, x);
      }
      return Ok([-c / b]);
    }
    var a2, b2, c2 := ScaleUp(a, b, c);
    RescaledFacts(a, b, c, a2, b2, c2);
    var disc := b2 * b2 - 4.0 * a2 * c2;
    if disc == -SmallestNonZeroDec {
      disc := 0.0;
    }
    if disc < 0.0 {
      NoRootsAfterRescale(a, b, c, a2, b2, c2);
      return Ok([]);
    }
    var root := DecimalEx.Sqrt(k, disc, fuel);
    if root.Err? {
      return Err(root.error);
    }
    var q := root.value;
    r := SelectRoots(a2, b2, c2, q);
    SelectedRoots(a, b, c, a2, b2, c2, disc, q);
  }

  /** What SolveQuadratic's root choice yields, given the square root q that Sqrt returns
      for the adjusted discriminant disc of the rescaled coefficients. */
  lemma SelectedRoots(a: real, b: real, c: real, a2: real, b2: real, c2: real, disc: real, q: real)
    requires a != 0.0 && a2 != 0.0 && Rescaled(a, b, c) == (a2, b2, c2)
    requires disc == (if Disc(a2, b2, c2) == -SmallestNonZeroDec then 0.0 else Disc(a2, b2, c2))
    requires disc >= 0.0 && q >= 0.0
    requires disc != SmallestNonZeroDec ==> q * q == disc
    requires disc == SmallestNonZeroDec ==> q == 0.0
    ensures var r := SelectRoots(a2, b2, c2, q);
      (r == Err(DivideByZeroException) <==>
        b == 0.0 && (ScaledDisc(a, b, c) == 0.0 || RoundedDisc(ScaledDisc(a, b, c))))
      && (r.Err? ==> r.error == DivideByZeroException)
      && (disc > 0.0 && disc != SmallestNonZeroDec ==> r.Ok?)
      && (r.Ok? && !RoundedDisc(ScaledDisc(a, b, c)) ==> forall x :: x in r.value <==> IsRoot(a, b, c, x))
  {
    RescaledFacts(a, b, c, a2, b2, c2);
    var d := Disc(a2, b2, c2);
    if RoundedDisc(d) {
      if disc == 0.0 {
        ZeroSquare(q, q);
      }
    } else {
      assert q * q == Disc(a2, b2, c2);
      SelectRootsSpec(a2, b2, c2, q);
      var r := SelectRoots(a2, b2, c2, q);
      if r.Ok? {
        forall x
          ensures x in r.value <==> IsRoot(a, b, c, x)
        {
          RescaledRoots(a, b, c, x);
        }
      }
    }
  }

  lemma ZeroSquare(q: real, p: real)
    requires p == q && q >= 0.0 && q * p == 0.0
    ensures q == 0.0
  {
    if q > 0.0 {
      PositiveProduct(q, p);
    }
  }

  /** A negative discriminant after rescaling means the original equation has no root. */
  lemma NoRootsAfterRescale(a: real, b: real, c: real, a2: real, b2: real, c2: real)
    requires a != 0.0 && Rescaled(a, b, c) == (a2, b2, c2) && Disc(a2, b2, c2) < 0.0
    ensures forall x :: !IsRoot(a, b, c, x)
  {
    forall x
      ensures !IsRoot(a, b, c, x)
    {
      RescaledRoots(a, b, c, x);
      NoRealRoots(a2, b2, c2, x);
    }
  }

  /** The rescaling loop of SolveQuadratic: multiply all three coefficients by ten while
      each lies in (-1, 1). */
  method ScaleUp(a: real, b: real, c: real) returns (a2: real, b2: real, c2: real)
    requires a != 0.0
    ensures a2 != 0.0 && (a2, b2, c2) == Rescaled(a, b, c)
  {
    a2, b2, c2 := a, b, c;
    while AllInUnit(a2, b2, c2)
      invariant a2 != 0.0 && Rescaled(a2, b2, c2) == Rescaled(a, b, c)
      decreases RescaleMeasure(a2)
    {
      RescaleMeasureDecreases(a2);
      a2 := 10.0 * a2;
      b2 := 10.0 * b2;
      c2 := 10.0 * c2;
    }
  }

  /** What the rescaling loop leaves: the rescaled coefficients, b zero exactly when the
      original was, and a discriminant of the original's sign. */
  lemma RescaledFacts(a: real, b: real, c: real, a2: real, b2: real, c2: real)
    requires a != 0.0 && Rescaled(a, b, c) == (a2, b2, c2)
    ensures ScaledDisc(a, b, c) == Disc(a2, b2, c2)
    ensures b2 == 0.0 <==> b == 0.0
    ensures Sign(Disc(a2, b2, c2)) == Sign(Disc(a, b, c))
  {
    RescaledSpec(a, b, c);
    RescaledDisc(a, b, c);
    var f := ScaleFactor(a, b, c);
    if b != 0.0 {
      NonzeroProduct(f, b);
    }
  }
}
