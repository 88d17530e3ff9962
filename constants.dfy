/** The constants of DecimalEx (DecimalExConstants.cs). The MathExt snapshot carries the
    same literals (MathExt/Constants.cs). */
module DecimalExConstants {
  import opened Decimals

  const Pi: real := 3.1415926535897932384626433833
  const PiHalf: real := 1.5707963267948966192313216916
  const PiQuarter: real := 0.7853981633974483096156608458
  const PiTwelfth: real := 0.2617993877991494365385536153
  const TwoPi: real := 6.2831853071795864769252867666
  const SmallestNonZeroDec: real := 0.0000000000000000000000000001
  const E: real := 2.7182818284590452353602874714
  const Ln10: real := 2.3025850929940456840179914547
  const Ln2: real := 0.6931471805599453094172321215

  /** TwoPi as stored: 28 decimal places. Remainder reads the scale of its divisor. */
  const TwoPiDec: Dec := Dec(62831853071795864769252867666, 28)

  /** The table that gives fast access to 10^n. */
  const PowersOf10: seq<real> := [
      1.0,
      10.0,
      100.0,
      1000.0,
      10000.0,
      100000.0,
      1000000.0,
      10000000.0,
      100000000.0,
      1000000000.0,
      10000000000.0,
      100000000000.0,
      1000000000000.0,
      10000000000000.0,
      100000000000000.0,
      1000000000000000.0,
      10000000000000000.0,
      100000000000000000.0,
      1000000000000000000.0,
      10000000000000000000.0,
      100000000000000000000.0,
      1000000000000000000000.0,
      10000000000000000000000.0,
      100000000000000000000000.0,
      1000000000000000000000000.0,
      10000000000000000000000000.0,
      100000000000000000000000000.0,
      1000000000000000000000000000.0,
      10000000000000000000000000000.0
    ]

  /** Every entry of the table is the power of ten at its index, for 0..28. */
  lemma {:induction false} PowersOf10Exact()
    ensures |PowersOf10| == 29
    ensures forall i :: 0 <= i < |PowersOf10| ==> PowersOf10[i] == IntPow10(i) as real
  {
    forall i | 0 <= i < |PowersOf10|
      ensures PowersOf10[i] == IntPow10(i) as real
    {
      PowersOf10Step(i);
    }
  }

  lemma {:induction false} PowersOf10Step(i: nat)
    requires i < |PowersOf10|
    ensures PowersOf10[i] == IntPow10(i) as real
  {
    if i > 0 {
      PowersOf10Step(i - 1);
      assert PowersOf10[i] == 10.0 * PowersOf10[i - 1];
    }
  }

  lemma {:induction false} TableConstants()
    ensures SmallestNonZeroDec * PowersOf10[28] == 1.0
    ensures TwoPi == 2.0 * Pi
    ensures PiHalf == 2.0 * PiQuarter
    ensures Value(TwoPiDec) == TwoPi && IsDecimal(TwoPiDec)
  {
    PowersOf10Step(28);
  }
}
