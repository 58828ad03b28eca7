# Net-of-tax portfolio simulator: verified model of the deterministic core

`quanto_per_milione.py` simulates many portfolios month by month. Each
portfolio starts from an initial capital, gets a random monthly return and a
fixed monthly contribution, and is taxed at 26% on the unrealised gain. The
program reports:

- the median portfolio over time;
- statistics of the values at the end of the user's horizon;
- the first month in which the median portfolio reaches one million euro.

This project models everything downstream of the random draw, over exact
`real` arithmetic. The returns become an explicit input: a matrix with one row
of 756 monthly returns per trajectory.

- `trajectory.dfy` (module `Trajectory`): one portfolio.
  - The state per month is the gross value and the amount paid in.
  - Each month the gross value compounds by the month's return and receives
    the contribution.
  - The tax is 26% of a positive gain (gross minus paid in), otherwise 0.
  - The recorded net value is gross minus tax. It never feeds back into the
    compounding.
  - `SimulateTrajectory` is the program's loop, with its two growing lists and
    its running total. It is proved equal to the functional series.
- `statistics.dfy` (module `Statistics`): the order statistics the program
  takes from numpy.
  - The median is computed by sorting: the middle element for an odd size,
    the mean of the two middle elements for an even size.
  - Also minimum, maximum, and the percentage of a sample at or above a
    threshold.
- `crossing.dfy` (module `Goal`): the goal search.
  - It lists the months whose median value is at least one million, in
    increasing order, and takes the first.
  - An empty list means "never reached".
  - The month found is split into whole years and leftover months.
- `simulator.dfy` (module `Simulator`): the ensemble and the summary.
  - The ensemble is always simulated for 63 years.
  - The median is taken month by month over the full horizon. The displayed
    curve is its first `12·years + 1` entries.
  - The final median, minimum, maximum and goal percentage are read at month
    `12·years`, not at the last simulated month.
  - The total contributed is the capital plus one contribution per month of
    the horizon.
  - The goal search runs over the full 63-year median.

## Model

| member | source | states |
|---|---|---|
| Trajectory.Tax | quanto_per_milione.py:60-61 | The tax is never negative. It is zero exactly when gross ≤ paid in, and otherwise never more than the gain. |
| Trajectory.Net | quanto_per_milione.py:60-62 | Net ≤ gross. With no gain, net = gross. With a gain, net stays at or above the amount paid in, and net − paid in = 74% of the gain. |
| Trajectory.Accounts | quanto_per_milione.py:52-55 | One state per month 0..n. Month 0 is the initial capital, fully paid in. |
| Trajectory.AccountsStep | quanto_per_milione.py:57-58 | Each month's state is the previous one compounded by that month's return, plus the contribution to both gross and paid in. |
| Trajectory.GrossRecurrence | quanto_per_milione.py:57-64 | Gross at month j+1 is gross at month j (never net) × (1 + return) + contribution. |
| Trajectory.GrossSeries | quanto_per_milione.py:52-64 | The recorded gross list has one entry per month 0..n and starts at the initial capital. `Trajectory.GrossRecurrence` gives each later entry. |
| Trajectory.NetSeries | quanto_per_milione.py:53-66 | The recorded net series has one entry per month 0..n and starts at the initial capital. |
| Trajectory.NetNeverAboveGross | quanto_per_milione.py:60-65 | In every month the recorded net value is at most the gross value. |
| Trajectory.NetSeriesTaxCases | quanto_per_milione.py:60-62 | In every month: if gross ≤ paid in, net = gross; otherwise net = gross − 0.26 × (gross − paid in). |
| Trajectory.InvestedClosedForm | quanto_per_milione.py:54-58 | After m months the amount paid in is capital + m × contribution. |
| Trajectory.AccountsPrefix | quanto_per_milione.py:55-58 | Simulating k months gives the first k+1 states of a longer simulation. Month k depends only on the first k returns. |
| Trajectory.NetSeriesPrefix | quanto_per_milione.py:55-65 | The net series of k months is a prefix of the net series of a longer simulation. |
| Trajectory.ConstantReturnGross | quanto_per_milione.py:57 | With the same return ρ every month, gross after j months = capital·q^j + contribution·(1 + q + … + q^(j−1)), where q = 1 + ρ. `Trajectory.GeometricSumSnoc` proves that the sum adds q^j as its next term. |
| Trajectory.ZeroAccounts | quanto_per_milione.py:52-58 | With no capital and no contribution, every monthly state is zero gross and zero paid in, whatever the returns. |
| Trajectory.NothingInNothingOut | quanto_per_milione.py:52-65 | With no capital and no contribution, every recorded net value is zero, whatever the returns. |
| Trajectory.Advance | quanto_per_milione.py:57-65 | One pass of the loop body appends one gross and one net value and keeps the earlier ones. At a non-negative tax rate the appended net value is at most the appended gross value. |
| Trajectory.Run | quanto_per_milione.py:52-65 | The loop as a fold: both lists have one entry per month 0..n and start at the capital. `Trajectory.RunAgrees` ties it to the series. |
| Trajectory.RunNetBelowGross | quanto_per_milione.py:57-65 | For any non-negative tax rate, every net value the loop records is at most the gross value it records for the same month. |
| Trajectory.RunAgrees | quanto_per_milione.py:51-66 | For any tax rate, the loop's gross list is the gross series and its running total is the amount paid in. At the 26% rate, its net list is the net series. |
| Trajectory.SimulateTrajectory | quanto_per_milione.py:52-65 | For any tax rate, the loop returns exactly the gross series, so the gross series is independent of the rate. At 26% it returns the net series. The final paid-in total is capital + n × contribution. |
| Statistics.Insert | quanto_per_milione.py:69 | Inserting into a sorted sequence keeps it sorted and adds exactly that element. |
| Statistics.Sort | quanto_per_milione.py:69 | The result is sorted and a permutation of the input. |
| Statistics.SortedUnique | quanto_per_milione.py:69 | Two sorted permutations of the same elements are equal, so the sorted order is unique. |
| Statistics.SortIgnoresOrder | quanto_per_milione.py:69 | Samples with the same elements sort to the same sequence. |
| Statistics.Min | quanto_per_milione.py:79 | The minimum is an element of the sample and at most every element. |
| Statistics.Max | quanto_per_milione.py:80 | The maximum is an element of the sample and at least every element. |
| Statistics.Count | quanto_per_milione.py:81 | The number of elements satisfying the predicate is at most the sample size. |
| Statistics.CountAll | quanto_per_milione.py:81 | The count equals the size exactly when every element satisfies the predicate. |
| Statistics.CountNone | quanto_per_milione.py:81 | The count is zero exactly when no element satisfies the predicate. |
| Statistics.CountIgnoresOrder | quanto_per_milione.py:81 | Counting does not depend on the order of the sample. |
| Statistics.Median | quanto_per_milione.py:69-78 | The median is the middle of every sorted arrangement of the sample: the middle element for an odd size, the mean of the two middle elements for an even size. At least half the sample is ≥ it and at least half is ≤ it. It lies between the minimum and the maximum. |
| Statistics.MedianOfTwo | quanto_per_milione.py:78 | The median of two values is their mean, in either order. For example, the median of 0 and 2,000,000 is 1,000,000. |
| Statistics.MedianIgnoresOrder | quanto_per_milione.py:69-78 | The median depends only on the multiset of values, not on the order of trajectories. |
| Statistics.MedianOfConstant | quanto_per_milione.py:69 | The median of a sample whose values are all v is v. |
| Statistics.PercentAtLeast | quanto_per_milione.py:81 | The percentage lies in [0, 100] and times the sample size equals 100 × the count of values ≥ the threshold. It is 100 exactly when all values reach the threshold, and 0 exactly when none does. |
| Goal.IndicesFrom | quanto_per_milione.py:102 | The listed positions increase strictly. Each listed position holds a value ≥ the threshold, and every such position is listed. |
| Goal.Indices | quanto_per_milione.py:102 | The same as `Goal.IndicesFrom`, over the whole series. |
| Goal.YearsAndMonths | quanto_per_milione.py:105-106 | 12 × years + months = the month, with months < 12. |
| Goal.YearsAndMonthsUnique | quanto_per_milione.py:105-106 | That split is the only one with fewer than 12 leftover months. |
| Goal.FirstCrossing | quanto_per_milione.py:101-112 | Reached exactly when some entry is ≥ 1,000,000. The reported month is such an entry, and every earlier entry is below 1,000,000. The month splits into years and fewer than 12 months. |
| Goal.CrossingOfPrefix | quanto_per_milione.py:102-104 | Once a series reaches the goal, extending it with later months does not change the crossing reported. |
| Simulator.SimulateEnsemble | quanto_per_milione.py:49-66 | One net series per row of returns, in order. Each has 757 entries and starts at the initial capital. |
| Simulator.SimulatedShape | quanto_per_milione.py:49-66 | Every simulated trajectory has one value for each month 0..756. |
| Simulator.MedianCurve | quanto_per_milione.py:69 | One entry per month. Each entry is the median of that month's values and lies between that month's minimum and maximum. |
| Simulator.Truncate | quanto_per_milione.py:74 | Every trajectory is cut to its first `width` months. |
| Simulator.TruncatedMedian | quanto_per_milione.py:69-74 | The full-horizon median cut to H+1 entries equals the month-by-month median of the trajectories cut to H+1 months. |
| Simulator.IdenticalTrajectories | quanto_per_milione.py:69 | When all trajectories are the same series, the median curve is that series. |
| Simulator.IdenticalDraws | quanto_per_milione.py:51-69 | When every trajectory gets the same returns (zero volatility), the full median curve is the net series of those returns. |
| Simulator.FinalValues | quanto_per_milione.py:74-77 | The last column of the ensemble cut to months 0..H is month H of every trajectory. |
| Simulator.Finals | quanto_per_milione.py:78-81 | The median is the median of the final values, and the percentage is `Statistics.PercentAtLeast` of them at one million. The minimum and maximum are final values and bound all of them. The median lies between them. The percentage is in [0, 100], 100 exactly when every value reaches one million, and 0 exactly when none does. |
| Simulator.Summarize | quanto_per_milione.py:69-104 | No summary for an empty ensemble. The displayed median is the first H+1 entries of the full median, and also the median of the truncated ensemble. The final values are column H, and the final statistics are `Simulator.Finals` of them. The crossing is the first crossing of the full median: the least month whose median is ≥ 1,000,000, with its split into years and months. By `Goal.FirstCrossing`'s contract it is reported exactly when some month of the 63 years has such a median. |
| Simulator.Simulate | quanto_per_milione.py:49-82 | The result is the summary of the simulated ensemble, whose trajectories each have 757 values. The total contributed equals what every trajectory has paid in by month H. Each final value is that trajectory's net value at month H. No summary exactly when there are no trajectories. |
| Simulator.TotalContributed | quanto_per_milione.py:82 | The reported total, capital + H × contribution, is every trajectory's paid-in amount at month H, whatever its returns. |
| Simulator.ZeroTrajectories | quanto_per_milione.py:51-66 | With no capital and no contribution, every recorded value of every trajectory is zero. |
| Simulator.ZeroMedianCurve | quanto_per_milione.py:69 | An all-zero ensemble has a zero median in every month. |
| Simulator.ZeroSummaryInputs | quanto_per_milione.py:69-77 | With no capital and no contribution, the full median and every final value are zero. |
| Simulator.NothingInvested | quanto_per_milione.py:81-112 | With no capital and no contribution, the goal percentage is 0 and the search reports "never reached", not a month. |

## Left out

- The random draw of each monthly return (`np.random.normal`, line 56). The returns are an input matrix instead.
- The conversion of the annual mean and deviation to monthly figures (lines 44-45). It uses a twelfth root and a square root in floating point. The model starts from given monthly returns.
- The Streamlit sidebar, page text, the results table and its number formatting, and the result sentence (lines 7-39, 84-98, 107-112). They are presentation only. The search outcome itself is modelled.
- The matplotlib plot and the closing note under it (lines 114-136). They are presentation only.
- Floating-point rounding. The model computes over exact reals, so it makes no tolerance claims.
- A numeric annuity check (for instance 40 years of 100 a month at 7% a year with no volatility) is not computed: the monthly return `1.07^(1/12) − 1` is irrational. `Trajectory.ConstantReturnGross` proves the general formula instead.
- The sidebar's range limits on capital, contribution and number of trajectories. Every result holds for any real capital and contribution and any number of trajectories. An empty ensemble, which the sidebar forbids, yields the error `EmptyEnsemble`.
- Rejecting an annual return of −100% or lower. The program has no such check; at −100% the monthly mean is −1. The annual-to-monthly conversion is outside this model.
- Simulator.Summarize: states the final statistics as `Simulator.Finals` of the final values, and leaves the total contributed to `Simulator.Simulate` and `Simulator.TotalContributed`. It does not repeat those contracts.
- Caching and concurrency. The program has neither.
