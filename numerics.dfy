/** The parts of the kernel whose value depends on floating point or on a series whose
    termination comes from decimal rounding. They are inputs of the model: every
    operation that uses one of them takes a `Kernel` and is stated for all of them. */
module Numerics {

  type Positive = r: real | r > 0.0 witness 1.0

  datatype Kernel = Kernel(
    /** (decimal)Math.Sqrt((double)s) for s > 0: the Newton seed of DecimalEx.Sqrt */
    sqrtSeed: real -> Positive,
    /** (int)Math.Floor(Math.Log10((double)m)): the range-reduction scale of DecimalEx.Ln */
    log10Floor: real -> int,
    /** the Taylor loop of DecimalEx.Exp, for 0 < d < 1 (a sum of positive terms) */
    expSeries: real -> Positive,
    /** the Taylor loop of DecimalEx.Ln, given x - 1 for the reduced argument x */
    lnSeries: real -> real,
    /** the Taylor loops of DecimalEx.Sin, DecimalEx.Cos and DecimalEx.ATan (|x| < 1) */
    sinSeries: real -> real,
    cosSeries: real -> real,
    atanSeries: real -> real,
    /** the series of the MathExt snapshot: Log for 0 < d < 1, Sin, Cos, ATan */
    oldLogSeries: real -> real,
    oldSinSeries: real -> real,
    oldCosSeries: real -> real,
    oldAtanSeries: real -> real)
}
