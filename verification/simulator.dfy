/**
  The ensemble of simulated portfolios and the summary shown to the user.

  Every trajectory is always simulated over the full horizon of 63 years
  (756 months), whatever horizon the user picked. From the ensemble the
  program takes the median across trajectories month by month over the full
  horizon; the curve it displays is the first `12 * years + 1` entries of
  that median. The final-value statistics (median, minimum, maximum, share of
  trajectories at or above one million) are taken at month `12 * years`, and
  the first month at which the median reaches one million is searched over
  the full 63 years.

  The monthly returns are an input: one row of 756 draws per trajectory.
 */
module Simulator {
  import Trajectory
  import Statistics
  import Goal

  /** Years always simulated. */
  const MaxYears: nat := 63

  /** Months always simulated: 63 years. */
  const MaxMonths: nat := MaxYears * Goal.MonthsPerYear

  /** The longest horizon the user can pick, in years. */
  const MaxUserYears: nat := 50

  /** The user's inputs that reach the deterministic part of the simulation. */
  datatype Parameters = Parameters(initialCapital: real, monthlyContribution: real, years: nat)

  /** The horizon can be set from 1 to 50 years. */
  predicate ValidHorizon(p: Parameters) {
    1 <= p.years <= MaxUserYears
  }

  /** The user's horizon in months. */
  function Horizon(p: Parameters): nat {
    p.years * Goal.MonthsPerYear
  }

  /** Every row of `m` has `width` entries. */
  predicate Rectangular(m: seq<seq<real>>, width: nat) {
    forall i :: 0 <= i < |m| ==> |m[i]| == width
  }

  /** `nets` holds the net series of each row of `draws`, in order. */
  predicate SimulatedFrom(p: Parameters, draws: seq<seq<real>>, nets: seq<seq<real>>) {
    && |nets| == |draws|
    && forall i :: 0 <= i < |nets| ==>
         nets[i] == Trajectory.NetSeries(p.initialCapital, p.monthlyContribution, draws[i])
  }

  /**
    The outer simulation loop: one trajectory per row of draws, each
    recorded as its net series. Every trajectory has one value per month
    0 .. 756 and starts at the initial capital.
   */
  method SimulateEnsemble(p: Parameters, draws: seq<seq<real>>) returns (nets: seq<seq<real>>)
    requires Rectangular(draws, MaxMonths)
    ensures SimulatedFrom(p, draws, nets)
    ensures Rectangular(nets, MaxMonths + 1)
    ensures forall i :: 0 <= i < |nets| ==> nets[i][0] == p.initialCapital
  {
    nets := [];
    var i := 0;
    while i < |draws|
      invariant 0 <= i <= |draws|
      invariant |nets| == i
      invariant forall k :: 0 <= k < i ==>
                  nets[k] == Trajectory.NetSeries(p.initialCapital, p.monthlyContribution, draws[k])
    {
      var gross, net, invested :=
        Trajectory.SimulateTrajectory(p.initialCapital, p.monthlyContribution, draws[i], Trajectory.TaxRate);
      nets := nets + [net];
      i := i + 1;
    }
  }

  /** The values of month `j` across all trajectories. */
  function Column(m: seq<seq<real>>, j: nat): (c: seq<real>)
    requires forall i :: 0 <= i < |m| ==> j < |m[i]|
    ensures |c| == |m|
    ensures forall i :: 0 <= i < |m| ==> c[i] == m[i][j]
  {
    seq(|m|, i requires 0 <= i < |m| => m[i][j])
  }

  /**
    The median across trajectories, month by month: one entry per month,
    each the median of that month's values, hence between that month's
    smallest and largest value.
   */
  function MedianCurve(m: seq<seq<real>>, width: nat): (curve: seq<real>)
    requires |m| > 0 && Rectangular(m, width)
    ensures |curve| == width
    ensures forall j :: 0 <= j < width ==> curve[j] == Statistics.Median(Column(m, j))
    ensures forall j :: 0 <= j < width ==>
              Statistics.Min(Column(m, j)) <= curve[j] <= Statistics.Max(Column(m, j))
  {
    seq(width, j requires 0 <= j < width => Statistics.Median(Column(m, j)))
  }

  /** Every trajectory cut to its first `width` months. */
  function Truncate(m: seq<seq<real>>, width: nat): (t: seq<seq<real>>)
    requires forall i :: 0 <= i < |m| ==> width <= |m[i]|
    ensures |t| == |m|
    ensures Rectangular(t, width)
    ensures forall i :: 0 <= i < |m| ==> t[i] == m[i][..width]
  {
    seq(|m|, i requires 0 <= i < |m| => m[i][..width])
  }

  /**
    The displayed median curve (the full-horizon median cut to the user's
    horizon) is the month-by-month median of the trajectories cut to that
    horizon: months beyond the horizon do not influence it.
   */
  lemma TruncatedMedian(m: seq<seq<real>>, full: nat, width: nat)
    requires |m| > 0 && Rectangular(m, full) && width <= full
    ensures MedianCurve(m, full)[..width] == MedianCurve(Truncate(m, width), width)
  {
    var t := Truncate(m, width);
    forall j | 0 <= j < width
      ensures MedianCurve(m, full)[j] == MedianCurve(t, width)[j]
    {
      assert Column(m, j) == Column(t, j);
    }
  }

  /**
    When every trajectory is the same series (all draws equal, as with zero
    volatility), the median curve is that series.
   */
  lemma IdenticalTrajectories(m: seq<seq<real>>, row: seq<real>)
    requires |m| > 0
    requires forall i :: 0 <= i < |m| ==> m[i] == row
    ensures MedianCurve(m, |row|) == row
  {
    forall j | 0 <= j < |row|
      ensures MedianCurve(m, |row|)[j] == row[j]
    {
      Statistics.MedianOfConstant(Column(m, j), row[j]);
    }
  }

  /**
    With zero volatility every trajectory draws the same returns; then the
    full-horizon median curve is the net series of those returns.
   */
  lemma IdenticalDraws(p: Parameters, draws: seq<seq<real>>, nets: seq<seq<real>>, rhos: seq<real>)
    requires |draws| > 0 && |rhos| == MaxMonths
    requires forall i :: 0 <= i < |draws| ==> draws[i] == rhos
    requires SimulatedFrom(p, draws, nets)
    ensures Rectangular(nets, MaxMonths + 1)
    ensures MedianCurve(nets, MaxMonths + 1)
            == Trajectory.NetSeries(p.initialCapital, p.monthlyContribution, rhos)
  {
    SimulatedShape(p, draws, nets);
    IdenticalTrajectories(nets, Trajectory.NetSeries(p.initialCapital, p.monthlyContribution, rhos));
  }

  /** Why no summary can be produced. */
  datatype SimError = EmptyEnsemble

  /** A summary, or the reason there is none. */
  datatype Result<T> = Ok(value: T) | Err(error: SimError)

  /**
    Month `h` of every trajectory, read as the program reads it: the last
    column of the ensemble cut to months 0 .. h.
   */
  function FinalValues(nets: seq<seq<real>>, h: nat): (f: seq<real>)
    requires forall i :: 0 <= i < |nets| ==> h < |nets[i]|
    ensures |f| == |nets|
    ensures forall i :: 0 <= i < |nets| ==> f[i] == nets[i][h]
  {
    var shown := Truncate(nets, h + 1);
    seq(|shown|, i requires 0 <= i < |shown| => shown[i][|shown[i]| - 1])
  }

  /** The statistics reported about the final values. */
  datatype FinalStats = FinalStats(median: real, min: real, max: real, goalPercent: real)

  /**
    The final median, minimum, maximum and the percentage of final values at
    or above one million. The minimum and maximum are final values and bound
    all of them, the median lies between them, and the percentage lies in
    [0, 100], is 100 exactly when every value reaches one million and 0
    exactly when none does.
   */
  function Finals(values: seq<real>): (f: FinalStats)
    requires |values| > 0
    ensures f.median == Statistics.Median(values)
    ensures f.goalPercent == Statistics.PercentAtLeast(values, Goal.Million)
    ensures f.min in values && f.max in values
    ensures forall i :: 0 <= i < |values| ==> f.min <= values[i] <= f.max
    ensures f.min <= f.median <= f.max
    ensures 0.0 <= f.goalPercent <= 100.0
    ensures f.goalPercent == 100.0 <==> forall i :: 0 <= i < |values| ==> values[i] >= Goal.Million
    ensures f.goalPercent == 0.0 <==> forall i :: 0 <= i < |values| ==> values[i] < Goal.Million
  {
    assert forall i :: 0 <= i < |values| ==> values[i] in values;
    FinalStats(
      Statistics.Median(values),
      Statistics.Min(values),
      Statistics.Max(values),
      Statistics.PercentAtLeast(values, Goal.Million))
  }

  /** What the program reports about an ensemble. */
  datatype Summary = Summary(
    median: seq<real>,
    displayMedian: seq<real>,
    finalValues: seq<real>,
    finals: FinalStats,
    totalContributed: real,
    crossing: Goal.Crossing)

  /**
    The summary of an ensemble of full-horizon net trajectories. There is
    none for an empty ensemble (the minimum of no values is undefined).
    Otherwise: the median is taken month by month over the full horizon and
    the displayed curve is its first `Horizon + 1` entries, which is also the
    median of the trajectories cut to the horizon; the final values are
    month `Horizon` of every trajectory (not the last simulated month), and
    the final statistics are those of `Finals`; and the month search runs
    over the full-horizon median, reaching exactly when some month of the 63
    years has a median of at least one million.
   */
  function Summarize(p: Parameters, nets: seq<seq<real>>): (r: Result<Summary>)
    requires ValidHorizon(p)
    requires Rectangular(nets, MaxMonths + 1)
    ensures r.Err? <==> |nets| == 0
    ensures r.Ok? ==> r.value.median == MedianCurve(nets, MaxMonths + 1)
    ensures r.Ok? ==> r.value.displayMedian == r.value.median[..Horizon(p) + 1]
    ensures r.Ok? ==>
              r.value.displayMedian == MedianCurve(Truncate(nets, Horizon(p) + 1), Horizon(p) + 1)
    ensures r.Ok? ==> |r.value.finalValues| == |nets|
    ensures r.Ok? ==> forall i :: 0 <= i < |nets| ==> r.value.finalValues[i] == nets[i][Horizon(p)]
    ensures r.Ok? ==> r.value.finals == Finals(r.value.finalValues)
    ensures r.Ok? ==> r.value.crossing == Goal.FirstCrossing(r.value.median)
  {
    if |nets| == 0 then Err(EmptyEnsemble)
    else
      var h := Horizon(p);
      var median := MedianCurve(nets, MaxMonths + 1);
      TruncatedMedian(nets, MaxMonths + 1, h + 1);
      var finalValues := FinalValues(nets, h);
      Ok(Summary(
        median,
        median[..h + 1],
        finalValues,
        Finals(finalValues),
        Trajectory.PaidIn(p.initialCapital, p.monthlyContribution, h),
        Goal.FirstCrossing(median)))
  }

  /**
    The whole program on given returns: simulate every trajectory, then
    summarise the ensemble. The ensemble holds the net series of each row of
    returns, one value per month over the full 63 years;
    the total contributed is what every trajectory has paid in by the end of
    the user's horizon, and each final value is that trajectory's net value
    at that month.
   */
  method Simulate(p: Parameters, draws: seq<seq<real>>) returns (nets: seq<seq<real>>, r: Result<Summary>)
    requires ValidHorizon(p)
    requires Rectangular(draws, MaxMonths)
    ensures SimulatedFrom(p, draws, nets)
    ensures Rectangular(nets, MaxMonths + 1)
    ensures r == Summarize(p, nets)
    ensures r.Err? <==> |draws| == 0
    ensures r.Ok? ==> |r.value.finalValues| == |draws|
    ensures r.Ok? ==> forall i :: 0 <= i < |draws| ==>
              Trajectory.Accounts(p.initialCapital, p.monthlyContribution, draws[i])[Horizon(p)].invested
              == r.value.totalContributed
    ensures r.Ok? ==> forall i :: 0 <= i < |draws| ==>
              r.value.finalValues[i]
              == Trajectory.NetSeries(p.initialCapital, p.monthlyContribution, draws[i])[Horizon(p)]
  {
    nets := SimulateEnsemble(p, draws);
    r := Summarize(p, nets);
    if r.Ok? {
      forall i | 0 <= i < |draws|
        ensures Trajectory.Accounts(p.initialCapital, p.monthlyContribution, draws[i])[Horizon(p)].invested
                == r.value.totalContributed
      {
        TotalContributed(p, draws[i]);
      }
    }
  }

  /**
    The total contributed that the summary reports, the capital plus one
    contribution per month of the user's horizon, is exactly what a
    trajectory has paid in by the end of that horizon, whatever its returns.
   */
  lemma TotalContributed(p: Parameters, rhos: seq<real>)
    requires ValidHorizon(p) && |rhos| == MaxMonths
    ensures Trajectory.Accounts(p.initialCapital, p.monthlyContribution, rhos)[Horizon(p)].invested
            == Trajectory.PaidIn(p.initialCapital, p.monthlyContribution, Horizon(p))
  {
    Trajectory.InvestedClosedForm(p.initialCapital, p.monthlyContribution, rhos, Horizon(p));
  }

  /** Every simulated trajectory has one value per month 0 .. 756. */
  lemma SimulatedShape(p: Parameters, draws: seq<seq<real>>, nets: seq<seq<real>>)
    requires Rectangular(draws, MaxMonths)
    requires SimulatedFrom(p, draws, nets)
    ensures Rectangular(nets, MaxMonths + 1)
  {
    forall i | 0 <= i < |nets|
      ensures |nets[i]| == MaxMonths + 1
    {
      assert |draws[i]| == MaxMonths;
    }
  }

  /** With no capital and no contributions every recorded value is zero. */
  lemma ZeroTrajectories(p: Parameters, draws: seq<seq<real>>, nets: seq<seq<real>>)
    requires p.initialCapital == 0.0 && p.monthlyContribution == 0.0
    requires SimulatedFrom(p, draws, nets)
    ensures forall i, j :: 0 <= i < |nets| && 0 <= j < |nets[i]| ==> nets[i][j] == 0.0
  {
    forall i | 0 <= i < |nets|
      ensures forall j :: 0 <= j < |nets[i]| ==> nets[i][j] == 0.0
    {
      Trajectory.NothingInNothingOut(draws[i]);
    }
  }

  /** An ensemble whose every value is zero has a median of zero in every month. */
  lemma ZeroMedianCurve(m: seq<seq<real>>, width: nat)
    requires |m| > 0 && Rectangular(m, width)
    requires forall i, j :: 0 <= i < |m| && 0 <= j < |m[i]| ==> m[i][j] == 0.0
    ensures forall j :: 0 <= j < width ==> MedianCurve(m, width)[j] == 0.0
  {
    forall j | 0 <= j < width
      ensures MedianCurve(m, width)[j] == 0.0
    {
      Statistics.MedianOfConstant(Column(m, j), 0.0);
    }
  }

  /**
    With no initial capital and no contributions the median is zero in every
    month and so is every final value.
   */
  lemma ZeroSummaryInputs(p: Parameters, draws: seq<seq<real>>, nets: seq<seq<real>>)
    requires ValidHorizon(p)
    requires p.initialCapital == 0.0 && p.monthlyContribution == 0.0
    requires Rectangular(draws, MaxMonths)
    requires SimulatedFrom(p, draws, nets)
    requires |draws| > 0
    ensures Rectangular(nets, MaxMonths + 1)
    ensures var curve := MedianCurve(nets, MaxMonths + 1);
            forall j :: 0 <= j < |curve| ==> curve[j] == 0.0
    ensures var finals := FinalValues(nets, Horizon(p));
            forall i :: 0 <= i < |finals| ==> finals[i] == 0.0
  {
    SimulatedShape(p, draws, nets);
    ZeroTrajectories(p, draws, nets);
    ZeroMedianCurve(nets, MaxMonths + 1);
  }

  /**
    With no initial capital and no contributions no trajectory reaches one
    million (the goal percentage is 0) and the median never does.
   */
  lemma NothingInvested(p: Parameters, draws: seq<seq<real>>, nets: seq<seq<real>>)
    requires ValidHorizon(p)
    requires p.initialCapital == 0.0 && p.monthlyContribution == 0.0
    requires Rectangular(draws, MaxMonths)
    requires SimulatedFrom(p, draws, nets)
    requires |draws| > 0
    ensures Rectangular(nets, MaxMonths + 1)
    ensures Summarize(p, nets).Ok?
    ensures Summarize(p, nets).value.finals.goalPercent == 0.0
    ensures Summarize(p, nets).value.crossing == Goal.NeverReached
  {
    ZeroSummaryInputs(p, draws, nets);
  }
}
