# DecimalMath in Dafny

A model of the DecimalMath C# library (arbitrary math on `System.Decimal`) and proofs
about it. The model covers:

- the arithmetic kernel, in both the current `DecimalEx` version and the older `MathExt`
  snapshot: powers, exponentials and logarithms, square root, quadratic equations,
  floor and ceiling at N places, decimal places, remainder, greatest common factor,
  factorial and the arithmetic-geometric mean;
- the trigonometric dispatch of both versions: degree/radian conversion, angle
  normalisation, the exact special values of Sin and Cos, Tan, the reflection of ATan,
  the quadrant table of ATan2, ASin and ACos;
- the `decimal` extension methods (`InRangeIncl`, `InRangeExcl`, `RoundFromZero`) and
  the constant table (`PowersOf10`, Pi and its fractions);
- the array-based matrix helpers (`Matrix`), the transformation matrix class of
  DecimalEx (`TransformationMatrixBase`) and its MathExt counterpart (`MatrixBase`);
- the exact parts of the 2-D geometry: `Point2D` quadrants, extreme-point scans and
  offsets, `Vector2D` component arithmetic, and the angle logic of `Arc2D`.

Decimal values are exact `real`s. The representation `Decimals.Dec(coeff, scale)`,
with value `coeff / 10^scale`, is used where the code depends on it: decimal places,
the digit loop of Remainder, the termination of GCF, and the grid of Floor and Ceiling.
Properties are therefore stated in exact arithmetic. The 28-digit rounding of `*` and
`/` is not modelled. Each C# exception becomes `Outcomes.Err` with the exception kind.
A loop that only terminates because decimal rounding eventually makes two estimates
equal (the Newton loop of Sqrt, the loop of AGMean) takes a `fuel` bound and returns
`Err(NotConverged)` when the bound runs out.

The Taylor series and the two floating-point bootstraps (`Math.Sqrt` for the Sqrt seed,
`Math.Log10` for the Ln scale) are fields of a `Numerics.Kernel` value passed in as a
parameter. They are uninterpreted: every property holds for every choice of series.
Where a property needs a shape of the series (the sign of arctan, say), the lemma
states that shape as a precondition.

Files: `outcomes.dfy` (Result/Option and the exception kinds), `numerics.dfy` (the
kernel), `decimals.dfy` (decimal representation, truncation, remainder),
`constants.dfy`, `decimalex.dfy`, `quadratic.dfy`, `mathext.dfy`, `extensions.dfy`,
`decimalex_trig.dfy`, `mathext_trig.dfy`, `plane.dfy` (points and vectors),
`point2d.dfy`, `vector2d.dfy`, `arc2d.dfy`, `matrix.dfy`, `transformation_matrix.dfy`,
`matrix_base.dfy`.

## Model

| member | source | states |
|---|---|---|
| DecimalExConstants.PowersOf10Exact | DecimalEx/DecimalExConstants.cs:49-80 | the table has 29 entries and entry i is exactly 10^i |
| DecimalExConstants.TableConstants | DecimalEx/DecimalExConstants.cs:7-20 | SmallestNonZeroDec is 1 / PowersOf10[28]; the TwoPi literal is twice Pi; PiHalf is twice PiQuarter; the decimal TwoPiDec has the value TwoPi |
| DecimalEx.Power | DecimalEx/DecimalEx.cs:112-135 | the reference power x^n: it is nonzero for a nonzero base and positive for a positive base |
| DecimalEx.PowerSquare | DecimalEx/DecimalEx.cs:124-131 | squaring the base halves the exponent, the step the squaring loop relies on |
| DecimalEx.PowerZero | DecimalEx/DecimalEx.cs:95-101 | a power is zero exactly when the base is zero and the exponent positive, the case where Pow's reciprocal overflows |
| DecimalEx.ExpBySquaring | DecimalEx/DecimalEx.cs:112-135 | ArgumentOutOfRangeException for y < 0; ArgumentException for a fractional y; otherwise exactly x^y |
| DecimalEx.PowerExample | DecimalEx.Tests/DecimalExTests/PowTests.cs:15-19 | 5^40 = 9094947017729282379150390625 |
| DecimalEx.Pow | DecimalEx/DecimalEx.cs:59-104 | x^0 = 1 and x^1 = x; integral positive exponents give x^y; a negative integral exponent gives the reciprocal, or OverflowException when x = 0; a fractional exponent of a base <= 0 is ArgumentOutOfRangeException; for x > 0 and fractional y it is x^t * Exp((|y| - t) * Ln x) with t the integral part of |y|, or the reciprocal of that for y < 0, and positive |
| DecimalEx.PowOfMagnitude | DecimalEx/DecimalEx.cs:72-90 | Pow before the reciprocal: 1 at 0, x at 1, x^e for integral e (zero exactly when x is), ArgumentOutOfRangeException from Ln for a fractional e and x <= 0, else the split power |
| DecimalEx.FractionalPow | DecimalEx/DecimalEx.cs:84-89 | x to the truncated exponent by squaring, times Exp of the fractional part times Ln x; positive for x > 0 |
| DecimalEx.ExpMagnitude | DecimalEx/DecimalEx.cs:141-202 | e^a for a >= 0, assembled from E to the integral part and the series, is positive |
| DecimalEx.Exp | DecimalEx/DecimalEx.cs:141-202 | the result is positive; it is ExpMagnitude for d >= 0 and its reciprocal at -d for d < 0 |
| DecimalEx.Pow10 | DecimalEx/DecimalEx.cs:350 | 10^m exactly for integral m; for fractional m the split power of 10 with Ln10 as its logarithm, reciprocated for m < 0, and positive |
| DecimalEx.Pow2 | DecimalEx/DecimalEx.cs:367 | 2^m for integral m >= 0 and 1 / 2^-m for integral m < 0; for fractional m the split power of 2 with Ln2 as its logarithm, reciprocated for m < 0, and positive |
| DecimalEx.Ln | DecimalEx/DecimalEx.cs:217-286 | ArgumentOutOfRangeException for m <= 0; otherwise the exact values 0, Ln2, Ln10 and 1 at 1, 2, 10 and E, else the series after scaling |
| DecimalEx.TenToSplit | DecimalEx/DecimalEx.cs:246-254 | 10^n = 10^28 * 10^(n-28), the split Ln uses to keep the divisor in range |
| DecimalEx.Log | DecimalEx/DecimalEx.cs:315-331 | b = 1 throws whatever m is; (m = 1, b = 0) gives 0; other non-positive arguments throw; a zero Ln(b) throws DivideByZeroException; otherwise Ln(m) / Ln(b) |
| DecimalEx.Log10 | DecimalEx/DecimalEx.cs:343 | Ln(m) / Ln10, with the error for m <= 0 and the exact values 0 at 1 and 1 at 10 |
| DecimalEx.Log2 | DecimalEx/DecimalEx.cs:360 | Ln(m) / Ln2, with the error for m <= 0 and the exact values 0 at 1 and 1 at 2 |
| DecimalEx.NewtonStep | DecimalEx/DecimalEx.cs:41-45 | a Babylonian step stays positive, never lands below the root, is a fixed point exactly at the root, and moves down from above the root |
| DecimalEx.Newton | DecimalEx/DecimalEx.cs:39-51 | in exact arithmetic the stop rule (next equals current or previous) is met only when the seed is already the root |
| DecimalEx.SqrtOutcome | DecimalEx/DecimalEx.cs:20-52 | the only failures are s < 0 and non-convergence; any result is non-negative and squares to s, except for the 0 returned at SmallestNonZeroDec |
| DecimalEx.Sqrt | DecimalEx/DecimalEx.cs:20-52 | ArgumentException for s < 0; 0 for s = 0 and s = SmallestNonZeroDec; otherwise the outcome of the Newton loop from the seed |
| DecimalEx.Fact | DecimalEx/DecimalEx.cs:377-390 | the reference factorial n! is positive |
| DecimalEx.FactDivisible | DecimalEx/DecimalEx.cs:377-390 | n! is divisible by every j in 1..n |
| DecimalEx.Factorial | DecimalEx/DecimalEx.cs:377-390 | ArgumentException for negative or fractional n; otherwise n!, so 0! = 1 |
| DecimalEx.FloorAt | DecimalEx/DecimalEx.cs:460-470 | ArgumentOutOfRangeException exactly for places < 0; unchanged for places >= 28; otherwise the multiple of 10^-places with r <= v < r + 10^-places |
| DecimalEx.CeilingAt | DecimalEx/DecimalEx.cs:477-487 | the same guards; otherwise the multiple of 10^-places with r - 10^-places < v <= r |
| DecimalEx.GetDecimalPlaces | DecimalEx/DecimalEx.cs:599-623 | the stored scale when trailing zeros count; otherwise at most the scale, with the coefficient divisible by 10^(scale - r) and, for r > 0, not by 10^(scale - r + 1): the scale less the trailing zeros, sign ignored |
| DecimalEx.Remainder | DecimalEx/DecimalEx.cs:628-657 | DivideByZeroException for d2 = 0; otherwise exactly the truncated remainder of d1 by d2 (so d1 itself when abs(d1) < abs(d2)) |
| DecimalEx.SubtractByDigits | DecimalEx/DecimalEx.cs:636-645 | the digit loop subtracts exactly timesInto * d2 in total |
| Decimals.RemBounds | DecimalEx/DecimalEx.cs:628-657 | the remainder is smaller than the divisor in magnitude, has the sign of the dividend when nonzero, and differs from it by a whole multiple of the divisor |
| Decimals.RemOfSmaller | DecimalEx/DecimalEx.cs:630 | when abs(d1) < abs(d2) the remainder is d1 itself |
| DecimalEx.RemainderExamples | DecimalEx.Tests/DecimalExTests/RemainderTests.cs:15-16 | Remainder(12, 2.5) = 2, Remainder(12, 4) = 0, Remainder(-12, 5) = -2 |
| DecimalEx.EuclidDivisors | DecimalEx/DecimalEx.cs:498-510 | the common divisors of x and y are exactly the divisors of Euclid's result |
| DecimalEx.EuclidScale | DecimalEx/DecimalEx.cs:498-510 | Euclid's algorithm commutes with scaling both arguments by a positive factor |
| DecimalEx.GCF | DecimalEx/DecimalEx.cs:498-510 | Euclid's loop on decimals computes the greatest common factor at the common scale |
| DecimalEx.GcfDividesBoth | DecimalEx/DecimalEx.cs:498-510 | a nonzero result goes a whole number of times into both arguments |
| DecimalEx.GcfValueOnly | DecimalEx/DecimalEx.cs:498-510 | the result depends only on the values, not on stored trailing zeros |
| DecimalEx.GcfZero | DecimalEx/DecimalEx.cs:498-510 | the result is zero only when both arguments are |
| DecimalEx.GcfExamples | MathExtensions.Tests/MathExtTests/GCFTests.cs:16-17 | GCF(1.2, 0.42) = 0.06 and GCF(1071, 462) = 21 |
| DecimalEx.GCFOfMany | DecimalEx/DecimalEx.cs:515-518 | the params overload folds GCF over the values from left to right |
| DecimalEx.GcfAllZero | DecimalEx/DecimalEx.cs:515-518 | the folded factor is zero only when every argument is |
| DecimalEx.GcfAllDividesAll | DecimalEx/DecimalEx.cs:515-518 | a nonzero folded factor goes a whole number of times into every argument |
| DecimalEx.AmGm | DecimalEx/DecimalEx.cs:553-563 | the arithmetic and geometric means agree only for equal numbers, so the loop's stop test is met only there |
| DecimalEx.AGMean | DecimalEx/DecimalEx.cs:532-566 | 0 when either argument is 0; a generic Exception for opposite signs; any other result is x itself and needs x = y; equal arguments with an exact seed give x |
| Quadratics.ScaledRoots | DecimalEx/DecimalEx.cs:423-428 | scaling all coefficients by a nonzero factor keeps the roots |
| Quadratics.RescaledSpec | DecimalEx/DecimalEx.cs:423-428 | the rescaling loop multiplies all three coefficients by the same factor >= 1 |
| Quadratics.RescaledLeavesUnit | DecimalEx/DecimalEx.cs:423-428 | afterwards some coefficient lies outside (-1, 1), and coefficients that had one already are left alone |
| Quadratics.RescaledRoots | DecimalEx/DecimalEx.cs:423-428 | the rescaled equation has exactly the roots of the original |
| Quadratics.RescaledDisc | DecimalEx/DecimalEx.cs:423-436 | the rescaled discriminant has the sign of the original |
| Quadratics.ScaleUp | DecimalEx/DecimalEx.cs:423-428 | the loop computes the rescaled coefficients and leaves a nonzero |
| Quadratics.RescaledFacts | DecimalEx/DecimalEx.cs:423-430 | the discriminant the code computes is that of the rescaled coefficients; b stays zero exactly when it was |
| Quadratics.LinearRoot | DecimalEx/DecimalEx.cs:407-414 | for a = 0 the only root is -c / b |
| Quadratics.QuadraticRoots | DecimalEx/DecimalEx.cs:438-451 | with q a square root of the discriminant, the roots are exactly (-b +- q) / 2a |
| Quadratics.NoRealRoots | DecimalEx/DecimalEx.cs:435-436 | a negative discriminant means there is no real root |
| Quadratics.RootSum | DecimalEx/DecimalEx.cs:443-451 | the two roots sum to -b / a |
| Quadratics.RootProduct | DecimalEx/DecimalEx.cs:443-451 | the two roots multiply to c / a |
| Quadratics.CitardauqPlus | DecimalEx/DecimalEx.cs:443 | 2c / (-b - q) is the classical root with +q |
| Quadratics.CitardauqMinus | DecimalEx/DecimalEx.cs:444 | 2c / (-b + q) is the classical root with -q |
| Quadratics.RootList | DecimalEx/DecimalEx.cs:449-451 | the answer lists exactly h and k, once when they agree |
| Quadratics.SelectRoots | DecimalEx/DecimalEx.cs:441-451 | only DivideByZeroException can fail the choice, never when b is nonzero and q is 0; each answer has at most two values, two only when they differ |
| Quadratics.SelectRootsSpec | DecimalEx/DecimalEx.cs:443-451 | the root choice as written fails exactly when b and q are both 0, and otherwise returns the classical roots, which are all the roots |
| Quadratics.SelectRootsDoubleZero | DecimalEx/DecimalEx.cs:443-444 | for x^2 = 0 the choice divides 0 by 0 although 0 is a root |
| Quadratics.SelectRootsCorrectedSpec | DecimalEx/DecimalEx.cs:443-451 | the corrected choice always returns exactly the roots |
| Quadratics.SolveQuadratic | DecimalEx/DecimalEx.cs:402-452 | a = b = 0 gives no roots; a = 0 gives exactly -c / b; a negative discriminant gives none; the division by zero happens exactly in the b = 0, zero-discriminant case, and b != 0 with a zero discriminant succeeds; any other answer lists exactly the roots, once each (two values only when they differ) |
| Quadratics.SelectedRoots | DecimalEx/DecimalEx.cs:430-451 | the root choice after rescaling, with -1e-28 read as 0 and Sqrt's 0 at 1e-28, fails only in the b = 0 case and otherwise lists exactly the roots of the original equation |
| Quadratics.NoRootsAfterRescale | DecimalEx/DecimalEx.cs:430-436 | a negative discriminant after rescaling means the original has no root |
| Quadratics.QuadraticExamples | DecimalEx.Tests/DecimalExTests/SolveQuadraticTests.cs:17-20 | (1, 2, 1) has the one root -1, listed once; (2, 3, 4) has none; (0, 2, 4) has -2 |
| MathExt.EstimateSpec | MathExt/MathExt.cs:36-42 | the seed loop writes s as rest * 100^k with 0 < rest < 100, and rest >= 1 when s >= 1 |
| MathExt.SqrtEstimateShape | MathExt/MathExt.cs:44-51 | the seed is positive and 2 * 10^k or 6 * 10^k |
| MathExt.Estimate | MathExt/MathExt.cs:36-51 | the loop computes the seed SqrtEstimate(s) |
| MathExt.SqrtOutcome | MathExt/MathExt.cs:20-66 | only s < 0 and non-convergence fail; any result is non-negative and squares to s, except the 0 at SmallestNonZeroDec |
| MathExt.Sqrt | MathExt/MathExt.cs:20-66 | ArgumentException for s < 0; 0 at 0 and SmallestNonZeroDec; otherwise the Newton outcome from the decimal seed |
| MathExt.GcfShifted | MathExt/MathExt.cs:428-434 | scaling both arguments by 10^j scales their greatest common factor by 10^j |
| MathExt.ToIntegers | MathExt/MathExt.cs:428-434 | the first loop multiplies a, b and decAdj by the same 10^j and stops with a and b whole |
| MathExt.GCF | MathExt/MathExt.cs:421-451 | scaling to integers, Euclid and dividing back gives the same factor as DecimalEx.GCF |
| MathExt.LogReductionSpec | MathExt/MathExt.cs:240-246 | for d > 1 the loop leaves x in (0.1, 1] with d = x * 10^n and n >= 1, so the recursive call never comes back to this branch |
| MathExt.LogReductionOfPower | MathExt/MathExt.cs:240-248 | powers of ten reduce to exactly 1, so Log(10^n) = n * ln 10 |
| MathExt.Log | MathExt/MathExt.cs:227-287 | ArgumentException for d < 0; OverflowException at 0; 0 at 1; the series below 1; above 1 the reduced logarithm plus ln 10 per division |
| MathExt.SolveQuadratic | MathExt/MathExt.cs:315-373 | a = b = 0 gives none; a = 0 gives -c / b; a discriminant below -1e-28 gives none; a negative discriminant that only appears after rescaling throws; a zero rescaled discriminant succeeds, and so does a positive one whose decimal seed is its exact square root; any other answer lists exactly the roots, once each (two values only when they differ) |
| MathExt.NoRootsBelow | MathExt/MathExt.cs:338 | a negative discriminant means no real root |
| MathExt.ClassicalRoots | MathExt/MathExt.cs:354-372 | the classical roots of the rescaled equation are exactly the roots of the original |
| MathExt.SolveQuadraticNegativeAfterRescale | MathExt/MathExt.cs:338-357 | for 0.25x^2 + 1e-28 the early test passes, rescaling makes the discriminant -1e-26, and the equation has no root |
| MathExt.SolveQuadraticCorrected | MathExt/MathExt.cs:315-373 | with the sign test after the rescaling a negative discriminant gives no roots, and Sqrt is never given a negative number; a zero rescaled discriminant, or a positive one with an exact decimal seed, succeeds; the roots are listed once each |
| MathExt.Max | MathExt/MathExt.cs:528-547 | ArgumentException exactly for a null or empty array; otherwise an element that is at least every element |
| MathExt.Min | MathExt/MathExt.cs:552-571 | ArgumentException exactly for a null or empty array; otherwise an element that is at most every element |
| MathExt.MaxUnique | MathExt/MathExt.cs:528-547 | the maximum is unique as a value |
| Extensions.InRangeIncl | DecimalEx/Extensions.cs:16-22 | a generic Exception exactly for reversed limits; otherwise lower <= value <= upper |
| Extensions.InRangeExcl | DecimalEx/Extensions.cs:29-35 | a generic Exception exactly for reversed limits; otherwise lower < value < upper |
| Extensions.ExclImpliesIncl | DecimalEx/Extensions.cs:16-35 | both fail alike; inside the open range implies inside the closed one; they differ only at the limits |
| Extensions.InRangeExamples | DecimalEx.Tests/ExtensionsTest/InRangeTests.cs:15-21 | the unit-test values, with the limits 1 and 4 inside the closed range only |
| Extensions.RoundFromZero | DecimalEx/Extensions.cs:40-48 | an error exactly for places < 0 or beyond the table |
| Extensions.RoundFromZeroErrors | DecimalEx/Extensions.cs:42-44 | ArgumentOutOfRangeException below 0, IndexOutOfRangeException above 28, a value for 0..28 |
| Extensions.RoundFromZeroNearest | DecimalEx/Extensions.cs:44-47 | the result times 10^n is the whole number nearest d * 10^n, ties away from zero |
| Extensions.RoundFromZeroBound | DecimalEx/Extensions.cs:44-47 | the result is a multiple of 10^-n within 10^-n / 2 of d |
| Extensions.RoundFromZeroOdd | DecimalEx/Extensions.cs:44-47 | RoundFromZero(-d, n) = -RoundFromZero(d, n) |
| Extensions.RoundFromZeroOnGrid | DecimalEx/Extensions.cs:44-47 | a value with at most n places is left as it is |
| Extensions.RoundFromZeroExamples | DecimalEx.Tests/ExtensionsTest/RoundFromZeroTests.cs:15-31 | 2.5 to 3, -2.5 to -3, 0.25 to 0.3, -0.25 to -0.3, 2.1 to 2, -2.1 to -2; negative places throw |
| DecimalExTrig.ToRadAccuracy | DecimalEx/DecimalExTrig.cs:12-40 | every branch of the cascade is within abs(degrees) * 2e-30 of degrees * pi / 180 |
| DecimalExTrig.ToRadExact | DecimalEx/DecimalExTrig.cs:12-51 | multiples of 360, multiples of 180 that are no multiple of 270, and angles that are no multiple of 15 convert exactly, and ToDeg undoes ToRad there |
| DecimalExTrig.FifteenDivides | DecimalEx/DecimalExTrig.cs:14-38 | a multiple of 360, 270, 180, 90 or 45 is a multiple of 15, so the cascade ends in the fallback only for non-multiples of 15 |
| DecimalExTrig.ToRadExamples | DecimalEx/DecimalExTrig.cs:12-40 | 360, 270, 180, 90, 45 and 15 degrees give exactly TwoPi, Pi + PiHalf, Pi, PiHalf, PiQuarter and PiTwelfth |
| DecimalExTrig.WrapAngle | DecimalEx/DecimalExTrig.cs:57-73 | the remainder, moved up by one period when negative, is in [0, period) and a whole number of periods from the input |
| DecimalExTrig.WrapUnique | DecimalEx/DecimalExTrig.cs:57-73 | it is the only such value |
| DecimalExTrig.WrapIdempotent | DecimalEx/DecimalExTrig.cs:57-73 | normalising twice is normalising once |
| DecimalExTrig.WrapPeriodic | DecimalEx/DecimalExTrig.cs:57-73 | angles a whole number of periods apart normalise alike |
| DecimalExTrig.NormalizeAngleDeg | DecimalEx/DecimalExTrig.cs:68-73 | the result is in [0, 360) and a whole number of turns from the input |
| DecimalExTrig.NormalizeAngleDegExamples | DecimalEx.Tests/DecimalExTrigTests/NormalizeAngleTests.cs:32-40 | -360 to 0, -180 to 180, 810 to 90, 522277854577893 to 333, -522277854577893 to 27 |
| DecimalExTrig.NormalizeAngle | DecimalEx/DecimalExTrig.cs:57-62 | the result is the normalised angle in [0, TwoPi) |
| DecimalExTrig.NormalizeAngleExamples | DecimalEx.Tests/DecimalExTrigTests/NormalizeAngleTests.cs:13-16 | 0 to 0, -Pi to Pi, -TwoPi to 0 |
| DecimalExTrig.ReducedRange | DecimalEx/DecimalExTrig.cs:86-99 | the reduced angle lies strictly inside (-TwoPi, TwoPi), so its test for TwoPi never succeeds |
| DecimalExTrig.ReducedPeriodic | DecimalEx/DecimalExTrig.cs:86 | for non-negative angles the reduction forgets whole turns |
| DecimalExTrig.Sin | DecimalEx/DecimalExTrig.cs:83-131 | the special values or the series at the reduced angle |
| DecimalExTrig.Cos | DecimalEx/DecimalExTrig.cs:141-187 | the special values or the series at the reduced angle |
| DecimalExTrig.SpecialValues | DecimalEx/DecimalExTrig.cs:88-99 | whole turns past 0, PiHalf, Pi and Pi + PiHalf give the unit-circle values of Sin and Cos exactly, whatever the series |
| DecimalExTrig.Tan | DecimalEx/DecimalExTrig.cs:197-207 | Sin over Cos, and a generic Exception exactly when Cos is 0 |
| DecimalExTrig.ATanReflection | DecimalEx/DecimalExTrig.cs:266-281 | for abs(x) > 1 the reflection calls the series once with an argument inside (-1, 1) |
| DecimalExTrig.ATanRange | DecimalEx/DecimalExTrig.cs:266-281 | exact -PiQuarter and PiQuarter at -1 and 1, 0 at 0; with a series of arctan's shape, the sign of x and a value in (-PiHalf, PiHalf) |
| DecimalExTrig.ATanOdd | DecimalEx/DecimalExTrig.cs:266-281 | with an odd series ATan is odd |
| DecimalExTrig.QuotientSign | DecimalEx/DecimalExTrig.cs:344-354 | y / x has the sign of y times the sign of x, which routes ATan2's quadrants |
| DecimalExTrig.ATan2Quadrants | DecimalEx/DecimalExTrig.cs:326-355 | (0, PiHalf) in the first quadrant, (PiHalf, Pi] in the second, (-Pi, -PiHalf) in the third, (-PiHalf, 0) in the fourth, always within [-Pi, Pi] |
| DecimalExTrig.ASin | DecimalEx/DecimalExTrig.cs:220-233 | the domain check, exact values and ATan formula applied to the outcome of Sqrt(1 - z^2) |
| DecimalExTrig.ACos | DecimalEx/DecimalExTrig.cs:243-256 | the same for ACos |
| DecimalExTrig.ASinRange | DecimalEx/DecimalExTrig.cs:220-233 | ArgumentOutOfRangeException outside [-1, 1]; -PiHalf, 0, PiHalf at -1, 0, 1 without ATan; otherwise fails only if Sqrt does, and lands in [-PiHalf, PiHalf] with the sign of z |
| DecimalExTrig.ACosRange | DecimalEx/DecimalExTrig.cs:243-256 | ArgumentOutOfRangeException outside [-1, 1]; Pi, PiHalf, 0 at -1, 0, 1; otherwise fails only if Sqrt does, and lands in [0, Pi] |
| MathExtTrig.ToRadAgrees | MathExt/MathExtTrig.cs:16-46 | the snapshot's cascade with its Pi / 180 fallback converts every angle as DecimalEx does |
| MathExtTrig.LoopResult | MathExt/MathExtTrig.cs:63-71 | a non-negative angle reached by whole periods has the normalised angle as its remainder |
| MathExtTrig.NormalizeAngle | MathExt/MathExtTrig.cs:63-71 | adding TwoPi while negative and taking the remainder is the DecimalEx normalisation |
| MathExtTrig.NormalizeAngleDeg | MathExt/MathExtTrig.cs:77-85 | adding 360 while negative and taking the remainder is the DecimalEx normalisation |
| MathExtTrig.OldReduceRange | MathExt/MathExtTrig.cs:105-112 | the Sin/Cos loops leave the angle in [-TwoPi, TwoPi], whole turns from the input, with the sign of a nonzero input |
| MathExtTrig.ReduceTurns | MathExt/MathExtTrig.cs:105-112 | the two loops compute that reduced angle |
| MathExtTrig.Sin | MathExt/MathExtTrig.cs:96-156 | the special values or the series at the loop-reduced angle |
| MathExtTrig.Cos | MathExt/MathExtTrig.cs:166-226 | the special values or the series at the loop-reduced angle |
| MathExtTrig.Tan | MathExt/MathExtTrig.cs:236-248 | Sin over Cos, a generic Exception exactly when Cos is 0 |
| MathExtTrig.ReductionsAgree | MathExt/MathExtTrig.cs:105-126 | for non-negative angles the loop reduction gives the same Sin and Cos as the DecimalEx reduction |
| MathExtTrig.ReductionsPartAtMinusTwoPi | MathExt/MathExtTrig.cs:105-126 | at -TwoPi the loops hand -TwoPi to the series, where DecimalEx returns the exact 0 |
| MathExtTrig.ASin | MathExt/MathExtTrig.cs:261-285 | the DecimalEx dispatch with the snapshot's Sqrt and ATan series |
| MathExtTrig.ACos | MathExt/MathExtTrig.cs:294-309 | the DecimalEx dispatch with the snapshot's Sqrt and ATan series |
| MathExtTrig.ATan2Agrees | MathExt/MathExtTrig.cs:386-459 | dispatching on Point2D.Quadrant computes what the DecimalEx sign tests compute, so the quadrant ranges hold for it too |
| Point2D.Quadrant | MathExt/TwoD/Point2D.cs:37-68 | a generic Exception exactly on an axis; 1, 2, 3, 4 exactly for (+,+), (-,+), (-,-), (+,-) |
| Point2D.QuadrantOfOpposite | MathExt/TwoD/Point2D.cs:37-68 | reflecting through the origin moves a point two quadrants on |
| Point2D.AddSubInverse | MathExt/TwoD/Point2D.cs:128-143 | (pt + v) - v = pt and (pt - v) + v = pt |
| Point2D.AddTwice | MathExt/TwoD/Point2D.cs:128-133 | offsetting twice is offsetting by the sum |
| Point2D.EqualityOperators | MathExt/TwoD/Point2D.cs:145-152 | == is equality of both coordinates and != its negation |
| Point2D.Equals | MathExt/TwoD/Point2D.cs:164-171 | a generic Exception for anything but a point, else == |
| Point2D.FirstMinUnique | MathExt/TwoD/Point2D.cs:188-207 | the first point of least coordinate is unique |
| Point2D.FirstMaxUnique | MathExt/TwoD/Point2D.cs:214-233 | the first point of greatest coordinate is unique |
| Point2D.ScanMin | MathExt/TwoD/Point2D.cs:196-205 | the scan with strict comparison finds the first point of least coordinate |
| Point2D.ScanMax | MathExt/TwoD/Point2D.cs:222-231 | the scan with strict comparison finds the first point of greatest coordinate |
| Point2D.MinY | MathExt/TwoD/Point2D.cs:188-207 | ArgumentException exactly for a null or empty array; otherwise the first point of least Y |
| Point2D.MaxY | MathExt/TwoD/Point2D.cs:214-233 | ArgumentException exactly for a null or empty array; otherwise the first point of greatest Y |
| Point2D.MinX | MathExt/TwoD/Point2D.cs:241-260 | ArgumentException exactly for a null or empty array; otherwise the first point of least X |
| Point2D.MaxX | MathExt/TwoD/Point2D.cs:267-286 | ArgumentException exactly for a null or empty array; otherwise the first point of greatest X |
| Point2D.MinBelowMax | MathExt/TwoD/Point2D.cs:183-286 | the least coordinate is at most the greatest, and equal only when all points share it |
| Vector2D.FromPointsCarries | Decimal2D/Vector2D.cs:41-93 | the vector between two points carries the start to the end; the coordinate and one-point constructors agree with it |
| Vector2D.Div | Decimal2D/Vector2D.cs:262-265 | DivideByZeroException exactly for a zero scale |
| Vector2D.AddLaws | Decimal2D/Vector2D.cs:212-217 | + is commutative, with the null vector as identity and -v as inverse |
| Vector2D.SubIsAddNeg | Decimal2D/Vector2D.cs:223-238 | v1 - v2 = v1 + (-v2); subtraction undoes addition; negation is an involution |
| Vector2D.ScaleLaws | Decimal2D/Vector2D.cs:244-256 | v * s = s * v; scaling by 1 keeps v and by -1 negates it |
| Vector2D.DivUndoesScale | Decimal2D/Vector2D.cs:244-265 | dividing by a nonzero scale undoes scaling by it |
| Vector2D.DotLaws | Decimal2D/Vector2D.cs:271-276 | Dot is commutative and linear in its first argument |
| Vector2D.PerpendicularLaws | Decimal2D/Vector2D.cs:332-347 | the perpendicular is orthogonal and as long as the vector; twice it is GetReversed = -v; four times it is v |
| Vector2D.EqualityOperators | Decimal2D/Vector2D.cs:123-130 | == is equality of both components and != its negation |
| Vector2D.Equals | Decimal2D/Vector2D.cs:105-112 | a generic Exception for anything but a vector, else == |
| Vector2D.RoundTo | Decimal2D/Vector2D.cs:100-103 | ArgumentOutOfRangeException for negative places, IndexOutOfRangeException above 28; otherwise each component is its RoundFromZero |
| Vector2D.RoundToNearest | Decimal2D/Vector2D.cs:100-103 | each rounded component, times 10^places, is the whole number nearest the component times 10^places, ties away from zero |
| Vector2D.RoundToIdempotent | Decimal2D/Vector2D.cs:100-103 | rounding twice to the same places is rounding once |
| Vector2D.EqualsRounded | Decimal2D/Vector2D.cs:118-121 | the rounding's error for places outside 0..28; otherwise true exactly when both components round alike |
| Vector2D.EqualsRoundedLaws | Decimal2D/Vector2D.cs:118-121 | comparing to places is reflexive and symmetric |
| Vector2D.EqualsRoundedClose | Decimal2D/Vector2D.cs:118-121 | vectors equal to places differ by at most one unit of the last place in each component |
| Vector2D.EqualsRoundedOnGrid | Decimal2D/Vector2D.cs:118-121 | on vectors with at most that many places, comparing to places is exact equality |
| Arc2D.Arc2D.constructor | Decimal2D/Arc2D.cs:20-25 | the circle and the two angles are stored as given |
| Arc2D.Arc2D.SetStartAngle | Decimal2D/Arc2D.cs:195-201 | stores the normalised angle, in [0, 360); nothing else changes |
| Arc2D.Arc2D.SetEndAngle | Decimal2D/Arc2D.cs:207-213 | stores the normalised angle, in [0, 360); nothing else changes |
| Arc2D.Arc2D.CentralAngleCorrected | Decimal2D/Arc2D.cs:276-283 | the angle covered from start to end, always in [0, 360) |
| Arc2D.NormalizedIdentity | Decimal2D/Arc2D.cs:195-213 | an angle in [0, 360) is its own normalisation, so setting a normalised angle keeps it |
| Arc2D.OnArcModuloTurns | Decimal2D/Arc2D.cs:237-251 | membership ignores whole turns of the query angle |
| Arc2D.BisectorOnArc | Decimal2D/Arc2D.cs:217-251 | the bisecting angle of a normalised arc is on the arc, strictly inside a wrapping one |
| Arc2D.CentralAngleSpans | Decimal2D/Arc2D.cs:280-283 | the corrected angle is end - start for a non-wrapping arc and end - start + 360 for a wrapping one, where end - start is negative |
| Arc2D.WrappingArcCounterexample | Decimal2D/Arc2D.cs:237-283 | on the arc from 350 to 10 degrees neither end angle is on the arc as written, though both are on the arc from 10 to 350; its CentralAngle is -340 where 20 is covered |
| Arc2D.EndpointsOnArcCorrected | Decimal2D/Arc2D.cs:237-251 | with the correction both end angles are on a normalised arc, and the two tests agree on every other angle |
| Arc2D.EqualityOperators | Decimal2D/Arc2D.cs:163-170 | == compares circle, start and end; != is its exact negation |
| Arc2D.ArcAngles | Decimal2D/Arc2D.cs:114-156 | a generic Exception exactly when the end angles coincide or the interior angle equals one of them |
| Arc2D.FromPointsOnArc | Decimal2D/Arc2D.cs:114-156 | fails exactly as ArcAngles does; otherwise a new arc on the circle with the ordered angles |
| Arc2D.ArcAnglesContainInterior | Decimal2D/Arc2D.cs:137-152 | for angles in [0, 360) the ends are the two end angles and the interior angle lies strictly inside |
| Arc2D.FromPointsOnArcContains | Decimal2D/Arc2D.cs:114-156 | the arc built from normalised angles has its interior angle on it, by either test |
| Matrix.Elements | DecimalEx/Matrix.cs:14-126 | an array read as rows: the same shape and the same entries |
| Matrix.Product | DecimalEx/Matrix.cs:45-64 | the product of a rows x inner and an inner x cols matrix is rows x cols |
| Matrix.Identity | DecimalEx/Matrix.cs:14-26 | the n x n identity is n x n |
| Matrix.Apply | DecimalEx/TransformationMatrixBase.cs:95-105 | a matrix applied to a vector has one entry per row |
| Matrix.RowOrColumn | DecimalEx/Matrix.cs:98-126 | the single row first, then the single column, else ArgumentException; the length is the other dimension |
| Matrix.DotSymmetric | DecimalEx/Matrix.cs:45-64 | the dot product is symmetric |
| Matrix.DotUnit | DecimalEx/Matrix.cs:14-26 | the dot product with a unit vector picks one entry |
| Matrix.DotLinear | DecimalEx/Matrix.cs:45-64 | the dot product is linear in its second argument |
| Matrix.ProductIdentityRight | DecimalEx/Matrix.cs:20-64 | a matrix times the identity is that matrix |
| Matrix.ProductIdentityLeft | DecimalEx/Matrix.cs:20-64 | the identity times a matrix is that matrix |
| Matrix.ApplyIdentity | DecimalEx/TransformationMatrixBase.cs:95-105 | the identity leaves every vector as it is |
| Matrix.ProductWithColumn | DecimalEx/TransformationMatrixBase.cs:95-105 | multiplying by a column matrix and reading the column back is applying the matrix to the vector |
| Matrix.DotExchange | DecimalEx/Matrix.cs:45-64 | a double sum taken row-wise or column-wise is the same |
| Matrix.ApplyProduct | DecimalEx/Matrix.cs:45-64 | applying a product applies its right factor first, then its left one |
| Matrix.RowAndColumnRoundTrip | DecimalEx/Matrix.cs:70-126 | RowOrColumn reads back the vector from both a row and a column matrix |
| Matrix.GetIdentityMatrix | DecimalEx/Matrix.cs:14-26 | a new size x size array with ones on the diagonal and zeros elsewhere |
| Matrix.Multiply | DecimalEx/Matrix.cs:33-65 | a generic Exception exactly when the columns of m1 differ from the rows of m2; otherwise a new rows(m1) x cols(m2) array whose [r, c] is the sum of m1[r, i] * m2[i, c] |
| Matrix.FillRow | DecimalEx/Matrix.cs:50-62 | one row of the product is written and the other rows are left alone |
| Matrix.RowTimesColumn | DecimalEx/Matrix.cs:55-60 | the inner loop sums row r of m1 times column c of m2 |
| Matrix.CopyValues | DecimalEx/TransformationMatrixBase.cs:46 | the target array takes the entries of the source |
| Matrix.ToColumn | DecimalEx/Matrix.cs:70-79 | a new n x 1 array with [i, 0] = v[i] |
| Matrix.ToRow | DecimalEx/Matrix.cs:84-93 | a new 1 x n array with [0, i] = v[i] |
| Matrix.RowOrColumnToArray | DecimalEx/Matrix.cs:98-126 | a new array with the single row, else the single column, else ArgumentException |
| Matrix.SquareProductExample | DecimalEx.Tests/MatrixTests.cs:40-58 | the 3 x 3 product of the unit tests |
| Matrix.RectangularProductExample | DecimalEx.Tests/MatrixTests.cs:76-90 | the 2 x 3 by 3 x 2 product of the unit tests |
| Matrix.ApplyExample | DecimalEx.Tests/MatrixBaseTests.cs:105-118 | the column (67, 45, 33) transforms to (256, 1706, 3156) |
| TransformationMatrixBase.TransformationMatrix.constructor | DecimalEx/TransformationMatrixBase.cs:24-30 | M is a new size x size identity |
| TransformationMatrixBase.TransformationMatrix.FromValues | DecimalEx/TransformationMatrixBase.cs:38-47 | ArgumentException exactly unless values is size x size; otherwise M is a new array holding a copy of the values |
| TransformationMatrixBase.TransformationMatrix.Get | DecimalEx/TransformationMatrixBase.cs:56-60 | M[row, column], IndexOutOfRangeException exactly outside M |
| TransformationMatrixBase.TransformationMatrix.Set | DecimalEx/TransformationMatrixBase.cs:56-60 | exactly one entry changes, or IndexOutOfRangeException and none |
| TransformationMatrixBase.TransformationMatrix.SetRow | DecimalEx/TransformationMatrixBase.cs:67-76 | ArgumentException unless there are Size values; an invalid row throws before any write; otherwise that row becomes the values and no other entry changes |
| TransformationMatrixBase.TransformationMatrix.Multiply | DecimalEx/TransformationMatrixBase.cs:82-89 | a generic Exception exactly for different sizes; otherwise a new matrix holding M x other.M, both operands unchanged |
| TransformationMatrixBase.TransformationMatrix.Transform | DecimalEx/TransformationMatrixBase.cs:95-105 | ArgumentException exactly unless the column has Size entries; otherwise a new array holding M applied to it |
| TransformationMatrixBase.TransformationMatrix.Copy | DecimalEx/TransformationMatrixBase.cs:183-193 | a new object with its own array holding the same entries |
| TransformationMatrixBase.IdentityIsNeutral | DecimalEx.Tests/MatrixBaseTests.cs:27-40 | a new matrix is neutral under Multiply on either side |
| TransformationMatrixBase.TransformOfProduct | DecimalEx/TransformationMatrixBase.cs:82-105 | transforming by a product transforms by the right factor first |
| MatrixBase.MatrixBase.constructor | MathExt/MatrixBase.cs:19-25 | M is a new identity of the given size |
| MatrixBase.MatrixBase.Reset | MathExt/MatrixBase.cs:32-35 | M becomes a new identity, whatever it held |
| MatrixBase.MatrixBase.GetIdentityMatrix | MathExt/MatrixBase.cs:50-62 | a new Size x Size identity |
| MatrixBase.MatrixBase.Get | MathExt/MatrixBase.cs:42-45 | M[row, column], IndexOutOfRangeException exactly outside M |
| MatrixBase.MatrixBase.MultiplySquare | MathExt/MatrixBase.cs:83-114 | a generic Exception unless both arrays are n x n; otherwise a new array holding the product |
| MatrixBase.MatrixBase.MultiplyColumn | MathExt/MatrixBase.cs:122-151 | a generic Exception unless m2 is square of the column's length; otherwise a new array whose entry r is the sum of v[i] * m2[r, i] |
| MatrixBase.MatrixBase.ColumnTimesRow | MathExt/MatrixBase.cs:141-146 | the inner loop sums the column times row r of m2 |
| MatrixBase.MatrixBase.Multiply | MathExt/MatrixBase.cs:69-76 | a generic Exception for different sizes; otherwise a new matrix holding other.M x M, this unchanged |
| MatrixBase.MatrixBase.Copy | MathExt/MatrixBase.cs:225-235 | a new object of the same size with its own array holding the same entries |
| MatrixBase.FirstFailure | MathExt/MatrixBase.cs:159-207 | the first element whose transform throws, or the count when none does |
| MatrixBase.InPlaceTransform | MathExt/MatrixBase.cs:159-207 | one to five elements replaced in order: the elements before the first failing transform hold their transforms, the rest are unchanged, and that transform's exception escapes; with no failure every element is transformed |
| MatrixBase.InPlaceTransformTotal | MathExt/MatrixBase.cs:159-207 | when no transform throws, every element is replaced by its transform and no exception escapes |
| MatrixBase.MultiplyAppliesThisFirst | MathExt/MatrixBase.cs:65-76 | a product other x this, applied to a column, applies this first |
| MatrixBase.ResetIsNeutral | MathExt/MatrixBase.cs:19-35 | a new or reset matrix is neutral under Multiply |

## Left out

- The Taylor series of Exp, Ln, Sin, Cos and ATan, and those of the MathExt snapshot, are uninterpreted functions in `Numerics.Kernel`. They terminate only because decimal rounding drives the next term to 0, and what they promise is numerical accuracy.
- The floating-point bootstraps are parameters: the `Math.Sqrt` seed of DecimalEx.Sqrt (`Kernel.sqrtSeed`) and the `Math.Log10` scale of Ln (`Kernel.log10Floor`).
- DecimalEx.Sqrt, MathExt.Sqrt: the Newton loop stops on a repeated estimate, which in exact arithmetic happens only at an exact root. Other inputs return NotConverged after `fuel` steps, so values such as Sqrt(2) are not modelled; so is every convergence and tolerance claim.
- DecimalEx.AGMean: the same applies; only the sign handling and the exact cases are stated.
- The 28-digit rounding of decimal `*` and `/` and the 96-bit coefficient limit are not modelled. So an OverflowException that comes only from a too-large result is not modelled either.
- Average (in both versions) is left out: it relies on LINQ and catches OverflowException as control flow.
- The MathExt snapshot's Pow, ExpBySquaring, Exp, Factorial, Floor, Ceiling and AGMean are left out. The current versions of these are modelled.
- The snapshot's broken rounding is left out: InternalRoundFromZero (a debugger break with its work commented out), RoundFromZero and the Powers10 table.
- MathExt's InRangeIncl, InRangeExcl and GetDecimalPlaces are the same code as Extensions.InRangeIncl, Extensions.InRangeExcl and DecimalEx.GetDecimalPlaces, which model them.
- MathExt's ATan and ToDeg are the same code as DecimalEx's and are modelled by DecimalExTrig.ATan and DecimalExTrig.ToDeg. The snapshot's ToRad multiplies by the ratio Pi / 180, which is equal in exact arithmetic.
- DecimalEx.Log(m) is Ln(m) and is modelled by DecimalEx.Ln.
- The Debug.WriteLine in Sin, ToAutoCADCmd and ToString are text output.
- GetHashCode and the hashing helpers are left out.
- Activator.CreateInstance in MatrixBase.Multiply and Copy, and `new TSelf()` in TransformationMatrixBase.Multiply and Copy, are modelled as a new instance of the same size. This makes both Copy methods' size-mismatch Exception unreachable.
- The ITransformable generic plumbing is left out, as are TransformationMatrixBase's InPlaceTransform and Transform(obj), which call into the transformed objects.
- Negative matrix sizes are excluded by `nat` sizes. .NET would throw OverflowException when allocating such an array.
- Matrix.Multiply and MatrixBase.MultiplySquare accumulate each entry in a local sum, then store it. The C# adds into m[r, c] in place, starting from the zero the new array holds. The resulting arrays are the same.
- Point2D, Vector2D and Arc2D are C# structs. Points and vectors are datatypes. Arc2D is a class, because its setters update its fields in place; the copy made when a struct is assigned or passed is not modelled.
- Circle2D is a datatype with structural equality, standing for the circle Arc2D holds.
- Vector2D's Magnitude, its magnitude constructors, IsUnitVector, IsNull, Normalize, ProjectOnto, AngleTo and Angle are left out. They are built on Sqrt or trigonometry.
- Point2D's DistanceTo is left out: it is built on Sqrt.
- Point2D's GetVectorTo is left out: it builds MathExt's own Vector2D, and only Decimal2D's Vector2D is part of this model (its two-point constructor is `Vector2D.FromPoints`).
- Point2D's PointsAreColinear is left out: it intersects two LineSeg2D segments, and LineSeg2D is not part of this model.
- Point2D's RoundTo and Equals(other, decimals) are left out: they call the old MathExt RoundFromZero, which computes (d * f + 0.5) / f and is not a rounding.
- Arc2D's other constructors, operator + with a vector, Center, Radius, StartPt, EndPt, MidPt, tangents, GetChord, GrowRadius, ShrinkRadius, Sagitta, ArcLength, Transform and FromLinesCircle are left out.
- Arc2D.FromPointsOnArc: the angles at which the circle meets the three points are inputs. Computing them needs ATan2 on the geometry.
- The rest of the geometry layer is not part of this model: Circle2D, LineSeg2D, both Matrix2D files, RightTriangle, RightTriangleAbstract, RightTriangle2D, AnglePoint and DrawingSupport.
- Arc2D.Arc2D.IsAngleOnArc and Arc2D.Arc2D.CentralAngle are stated as written. Their properties are the lemmas about them, and the corrections are under Findings.
- MathExt.Max, MathExt.Min: the contract names the extreme value, not the index that reached it. For a value this is the same: any two maxima agree (MathExt.MaxUnique).

## Findings

| source | as written | input that shows it | evidently intended | confidence | as-written member | corrected member |
|---|---|---|---|---|---|---|
| DecimalEx/DecimalEx.cs:443-444 | for b = 0 both roots use the form 2c / (-b -+ sqrt(D)), which divides 0 by 0 when the discriminant is zero too | SolveQuadratic(1, 0, 0), i.e. x^2 = 0, throws DivideByZeroException although 0 is a root | use the classical formula when b = 0, so neither denominator vanishes, and return {0} | not executed | Quadratics.SelectRootsDoubleZero | Quadratics.SelectRootsCorrectedSpec |
| MathExt/MathExt.cs:338-357 | the negative-discriminant test, with a -1e-28 allowance, runs before the coefficients are rescaled, and the rescaled discriminant goes to Sqrt unchecked | SolveQuadratic(0.25, 0, 1e-28): the discriminant is -1e-28 and passes; after rescaling by ten it is -1e-26 and Sqrt throws ArgumentException | return no roots for any negative discriminant after rescaling, as DecimalEx does | not executed | MathExt.SolveQuadraticNegativeAfterRescale | MathExt.SolveQuadraticCorrected |
| Decimal2D/Arc2D.cs:246-249 | a wrapping arc (start > end) tests angle > start or angle < end, so its own end angles are not on it, while a non-wrapping arc includes them | the arc from 350 to 10 degrees: IsAngleOnArc(350) and IsAngleOnArc(10) are false | >= and <= in the wrapping case, as in the other | not executed | Arc2D.WrappingArcCounterexample | Arc2D.EndpointsOnArcCorrected |
| Decimal2D/Arc2D.cs:280-283 | CentralAngle is end - start, which is negative for a wrapping arc although it is documented as the total angle covered | the arc from 350 to 10 degrees has CentralAngle -340; it covers 20 degrees | the end - start difference normalised to [0, 360) | not executed | Arc2D.CentralAngleSpans | Arc2D.Arc2D.CentralAngleCorrected |
