/** The extension methods on decimal (DecimalEx/Extensions.cs): range tests and rounding
    half away from zero. The MathExt snapshot has the same two range tests. */
module Extensions {
  import opened Outcomes
  import opened Decimals
  import opened DecimalExConstants

  // Range tests

  /** InRangeIncl: a generic Exception for reversed limits, else lower <= value <= upper. */
  function InRangeIncl(value: real, lowerLimit: real, upperLimit: real): (r: Result<bool>)
    ensures r.Err? <==> upperLimit < lowerLimit
    ensures r.Err? ==> r.error == GenericException
    ensures r.Ok? ==> (r.value <==> lowerLimit <= value && value <= upperLimit)
  {
    if upperLimit < lowerLimit then Err(GenericException)
    else Ok(value >= lowerLimit && value <= upperLimit)
  }

  /** InRangeExcl: a generic Exception for reversed limits, else lower < value < upper. */
  function InRangeExcl(value: real, lowerLimit: real, upperLimit: real): (r: Result<bool>)
    ensures r.Err? <==> upperLimit < lowerLimit
    ensures r.Err? ==> r.error == GenericException
    ensures r.Ok? ==> (r.value <==> lowerLimit < value && value < upperLimit)
  {
    if upperLimit < lowerLimit then Err(GenericException)
    else Ok(value > lowerLimit && value < upperLimit)
  }

  /** Inside the open range means inside the closed one; the two differ exactly at the
      limits. */
  lemma ExclImpliesIncl(value: real, lowerLimit: real, upperLimit: real)
    ensures InRangeExcl(value, lowerLimit, upperLimit).Ok? <==> InRangeIncl(value, lowerLimit, upperLimit).Ok?
    ensures InRangeExcl(value, lowerLimit, upperLimit) == Ok(true) ==>
      InRangeIncl(value, lowerLimit, upperLimit) == Ok(true)
    ensures InRangeIncl(value, lowerLimit, upperLimit) == Ok(true) &&
      InRangeExcl(value, lowerLimit, upperLimit) == Ok(false)
      ==> value == lowerLimit || value == upperLimit
  {
  }

  lemma InRangeExamples()
    ensures InRangeIncl(3.5, 1.0, 4.0) == Ok(true) && InRangeIncl(1.0, 1.0, 4.0) == Ok(true)
    ensures InRangeIncl(4.0, 1.0, 4.0) == Ok(true)
    ensures InRangeIncl(0.0, 1.0, 4.0) == Ok(false) && InRangeIncl(4.1, 1.0, 4.0) == Ok(false)
    ensures InRangeExcl(3.5, 1.0, 4.0) == Ok(true)
    ensures InRangeExcl(1.0, 1.0, 4.0) == Ok(false) && InRangeExcl(4.0, 1.0, 4.0) == Ok(false)
    ensures InRangeIncl(2.0, 4.0, 1.0) == Err(GenericException)
  {
  }

  // Rounding

  /** RoundFromZero: ArgumentOutOfRangeException for negative places, an index past the
      end of PowersOf10 beyond 28; otherwise add a half unit in the direction of the sign
      (a negative half for zero), truncate and scale back. */
  function RoundFromZero(d: real, decimals: int): (r: Result<real>)
    ensures r.Err? <==> decimals < 0 || decimals >= |PowersOf10|
  {
    if decimals < 0 then Err(ArgumentOutOfRangeException)
    else if decimals >= |PowersOf10| then Err(IndexOutOfRangeException)
    else
      PowersOf10Positive(decimals);
      Ok(RoundAt(d, PowersOf10[decimals]))
  }

  /** The rounding step at a scale factor: add a half unit in the direction of the sign (a
      negative half for zero), truncate toward zero, divide back. */
  function RoundAt(d: real, scaleFactor: real): real
    requires scaleFactor >= 1.0
  {
    var roundingFactor := if d > 0.0 then 0.5 else -0.5;
    Trunc(d * scaleFactor + roundingFactor) as real / scaleFactor
  }

  lemma PowersOf10Positive(i: nat)
    requires i < |PowersOf10|
    ensures PowersOf10[i] >= 1.0
  {
    PowersOf10Step(i);
  }

  /** The error cases: negative places and places past the table. */
  lemma RoundFromZeroErrors(d: real, decimals: int)
    ensures decimals < 0 ==> RoundFromZero(d, decimals) == Err(ArgumentOutOfRangeException)
    ensures decimals > 28 ==> RoundFromZero(d, decimals) == Err(IndexOutOfRangeException)
    ensures 0 <= decimals <= 28 ==> RoundFromZero(d, decimals).Ok?
  {
    PowersOf10Exact();
  }

  /** r * p is the whole number nearest to d * p, a tie going to the one of larger
      magnitude: away from zero. */
  predicate NearestAwayFromZero(d: real, p: real, r: real)
  {
    IsIntegral(r * p) &&
    (d > 0.0 ==> r * p - 0.5 <= d * p < r * p + 0.5) &&
    (d <= 0.0 ==> r * p - 0.5 < d * p <= r * p + 0.5)
  }

  /** The result is m / 10^n for the whole number m nearest to d * 10^n, ties away from
      zero (PowersOf10[n] is 10^n by PowersOf10Exact). */
  lemma RoundFromZeroNearest(d: real, n: nat)
    requires n <= 28
    ensures RoundFromZero(d, n).Ok?
    ensures NearestAwayFromZero(d, PowersOf10[n], RoundFromZero(d, n).value)
  {
    PowersOf10Positive(n);
    RoundCore(d, PowersOf10[n]);
  }

  lemma RoundCore(d: real, p: real)
    requires p >= 1.0
    ensures NearestAwayFromZero(d, p, RoundAt(d, p))
  {
    var m := Trunc(d * p + (if d > 0.0 then 0.5 else -0.5));
    NearestOfTrunc(d, p, m, RoundAt(d, p));
  }

  lemma NearestOfTrunc(d: real, p: real, m: int, r: real)
    requires p >= 1.0
    requires m == Trunc(d * p + (if d > 0.0 then 0.5 else -0.5))
    requires r == m as real / p
    ensures NearestAwayFromZero(d, p, r)
  {
    assert r * p == m as real;
    if d > 0.0 {
      PositiveProduct(d, p);
    } else if d < 0.0 {
      NegativeProduct(d, p);
    }
    IntIsIntegral(m);
  }

  /** Rounding is within half a unit of the last kept place, and it lands on that grid. */
  lemma RoundFromZeroBound(d: real, n: nat)
    requires n <= 28
    ensures RoundFromZero(d, n).Ok?
    ensures OnGrid(RoundFromZero(d, n).value, PowersOf10[n])
    ensures Abs(RoundFromZero(d, n).value - d) * PowersOf10[n] <= 0.5
  {
    RoundFromZeroNearest(d, n);
    PowersOf10Positive(n);
    HalfUnit(d, PowersOf10[n], RoundFromZero(d, n).value);
  }

  lemma HalfUnit(d: real, p: real, r: real)
    requires p >= 1.0 && NearestAwayFromZero(d, p, r)
    ensures OnGrid(r, p)
    ensures Abs(r - d) * p <= 0.5
  {
    assert (r - d) * p == r * p - d * p;
    if r - d < 0.0 {
      assert (d - r) * p == -((r - d) * p);
    }
  }

  /** RoundFromZero is odd: d and -d round to opposite values. */
  lemma RoundFromZeroOdd(d: real, n: nat)
    requires n <= 28
    ensures RoundFromZero(-d, n).Ok? && RoundFromZero(d, n).Ok?
    ensures RoundFromZero(-d, n).value == -RoundFromZero(d, n).value
  {
    PowersOf10Positive(n);
    OddCore(d, PowersOf10[n]);
  }

  lemma OddCore(d: real, p: real)
    requires p >= 1.0
    ensures RoundAt(-d, p) == -RoundAt(d, p)
  {
    var t := d * p;
    assert (-d) * p == -t;
    if d > 0.0 {
      NegateTrunc(t + 0.5);
      assert -t - 0.5 == -(t + 0.5);
    } else if d < 0.0 {
      NegateTrunc(t - 0.5);
      assert -t + 0.5 == -(t - 0.5);
    }
    var m := Trunc(d * p + (if d > 0.0 then 0.5 else -0.5));
    NegatedQuotient(m, p);
  }

  lemma NegatedQuotient(m: int, p: real)
    requires p >= 1.0
    ensures (-m) as real / p == -(m as real / p)
  {
  }

  lemma NegateTrunc(x: real)
    ensures Trunc(-x) == -Trunc(x)
  {
  }

  /** A value already on the grid of n places is left as it is. */
  lemma RoundFromZeroOnGrid(d: real, n: nat)
    requires n <= 28 && OnGrid(d, PowersOf10[n])
    ensures RoundFromZero(d, n) == Ok(d)
  {
    PowersOf10Positive(n);
    OnGridCore(d, PowersOf10[n]);
  }

  lemma OnGridCore(d: real, p: real)
    requires p >= 1.0 && OnGrid(d, p)
    ensures RoundAt(d, p) == d
  {
    var t := d * p;
    var k := t.Floor;
    assert k as real == t;
    if d > 0.0 {
      PositiveProduct(d, p);
      assert Trunc(t + 0.5) == k;
    } else {
      if d < 0.0 {
        NegativeProduct(d, p);
      }
      assert Trunc(t - 0.5) == k;
    }
    assert t / p == d;
  }

  lemma RoundFromZeroExamples()
    ensures RoundFromZero(2.5, 0) == Ok(3.0) && RoundFromZero(-2.5, 0) == Ok(-3.0)
    ensures RoundFromZero(0.25, 1) == Ok(0.3) && RoundFromZero(-0.25, 1) == Ok(-0.3)
    ensures RoundFromZero(2.1, 0) == Ok(2.0) && RoundFromZero(-2.1, 0) == Ok(-2.0)
    ensures RoundFromZero(1.0, -1) == Err(ArgumentOutOfRangeException)
  {
    PowersOf10Step(0);
    PowersOf10Step(1);
    assert Trunc(3.0) == 3 && Trunc(-3.0) == -3;
    assert Trunc(2.6) == 2 && Trunc(-2.6) == -2;
  }
}
