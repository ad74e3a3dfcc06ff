/** The piecewise-linear conversion of main_v8.cpp from a mean raw
    temperature sample to degrees Celsius, over real numbers. */
module Calibration {

  const Breakpoint: real := 7300.0
  const HighOffset: real := 3300.0
  const HighDivisor: real := 15.0
  const LowOffset: real := 7000.0
  const LowDivisor: real := 30.0
  const KelvinOffset: real := 273.15

  /** Above the breakpoint `(raw - 3300) / 15`, at or below it
      `(raw + 7000) / 30`, then minus 273.15: on each side of the breakpoint
      the raw value is an affine function of the absolute temperature, and
      the result is the temperature that function maps to the raw value. */
  function Celsius(avgRaw: real): (c: real)
    ensures avgRaw > Breakpoint ==> (c + KelvinOffset) * HighDivisor + HighOffset == avgRaw
    ensures avgRaw <= Breakpoint ==> (c + KelvinOffset) * LowDivisor - LowOffset == avgRaw
  {
    if avgRaw > Breakpoint then (avgRaw - HighOffset) / HighDivisor - KelvinOffset
    else (avgRaw + LowOffset) / LowDivisor - KelvinOffset
  }

  /** The breakpoint itself takes the low branch, the next raw value the
      high one, and the formula drops by more than 200 degrees across it. */
  lemma BranchesAtBreakpoint()
    ensures Celsius(7300.0) == 14300.0 / 30.0 - 273.15
    ensures Celsius(7301.0) == 4001.0 / 15.0 - 273.15
    ensures Celsius(7301.0) + 200.0 < Celsius(7300.0)
  {
  }

  /** Within one branch the formula is increasing. */
  lemma IncreasingWithinBranch(a: real, b: real)
    requires a <= b
    requires (a > Breakpoint) == (b > Breakpoint)
    ensures Celsius(a) <= Celsius(b)
  {
  }

  /** The mean of 900 integer samples takes the high branch exactly when
      their sum exceeds 7300 * 900. */
  lemma HighBranchBySum(sum: int)
    ensures (sum as real / 900.0 > Breakpoint) <==> sum > 6570000
  {
  }

  function CalibrateThenAverage(a: real, b: real): real {
    (Celsius(a) + Celsius(b)) / 2.0
  }

  function AverageThenCalibrate(a: real, b: real): real {
    Celsius((a + b) / 2.0)
  }

  /** Two samples on the same side of the breakpoint: the order of averaging
      and calibrating does not matter, since each branch is affine. */
  lemma OrderIrrelevantWithinBranch(a: real, b: real)
    requires (a > Breakpoint) == (b > Breakpoint)
    ensures AverageThenCalibrate(a, b) == CalibrateThenAverage(a, b)
  {
  }

  /** Two samples straddling the breakpoint: averaging first (what the
      program does) and calibrating first agree only in the single case
      where the mean takes the low branch and the high sample is 13600. */
  lemma OrderMattersAcrossBreakpoint(a: real, b: real)
    requires a <= Breakpoint < b
    ensures AverageThenCalibrate(a, b) == CalibrateThenAverage(a, b) <==>
      (a + b) / 2.0 <= Breakpoint && b == 13600.0
  {
    if (a + b) / 2.0 > Breakpoint {
      assert AverageThenCalibrate(a, b) - CalibrateThenAverage(a, b) == (a - 13600.0) / 60.0;
    } else {
      assert AverageThenCalibrate(a, b) - CalibrateThenAverage(a, b) == (13600.0 - b) / 60.0;
    }
  }
}
