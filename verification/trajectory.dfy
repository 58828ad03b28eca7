/**
  One simulated portfolio, month by month.

  The state after month j is the gross value of the portfolio and the total
  amount paid in so far. Each month the gross value earns that month's return
  and receives the monthly contribution; the contribution is added to the
  amount paid in. The capital-gains tax is worked out as if the whole
  portfolio were sold that month: a fixed share of the unrealised gain (gross
  minus paid in) when that gain is positive, nothing otherwise. The net value
  (gross minus that tax) is only recorded; the next month compounds the gross
  value, never the net one.

  The monthly returns are an explicit input: the random draw that produces
  them is not part of the model.
 */
module Trajectory {

  /** The capital-gains tax rate (26%), as a fraction of the gain. */
  const TaxRate: real := 0.26

  /** Portfolio state at the end of a month. */
  datatype Account = Account(gross: real, invested: real)

  /** The share `rate` of a positive gain. */
  function Levy(rate: real, gain: real): real {
    rate * gain
  }

  /** Tax owed if the portfolio were liquidated now. */
  function Tax(a: Account): (t: real)
    ensures 0.0 <= t
    ensures a.gross > a.invested ==> t <= a.gross - a.invested
    ensures t == 0.0 <==> a.gross <= a.invested
  {
    var gain := a.gross - a.invested;
    if gain > 0.0 then Levy(TaxRate, gain) else 0.0
  }

  /**
    Value after tax. It never exceeds the gross value; with no gain it is the
    gross value, and with a gain the investor keeps 74% of it.
   */
  function Net(a: Account): (n: real)
    ensures n <= a.gross
    ensures a.gross <= a.invested ==> n == a.gross
    ensures a.gross > a.invested ==> a.invested <= n
    ensures a.gross > a.invested ==> n - a.invested == (1.0 - TaxRate) * (a.gross - a.invested)
  {
    a.gross - Tax(a)
  }

  /** A value after one month at return `rho`. */
  function Compound(value: real, rho: real): real {
    value * (1.0 + rho)
  }

  /** One month: the gross value earns `rho` and receives the contribution. */
  function Step(a: Account, rho: real, contribution: real): Account {
    Account(Compound(a.gross, rho) + contribution, a.invested + contribution)
  }

  /**
    The account at months 0 .. |rhos|, where `rhos[j]` is the return of month
    j + 1. Month 0 holds the initial capital, fully paid in; every later
    account follows from the previous one by `Step`.
   */
  function Accounts(capital: real, contribution: real, rhos: seq<real>): (r: seq<Account>)
    ensures |r| == |rhos| + 1
    ensures r[0] == Account(capital, capital)
    decreases |rhos|
  {
    if |rhos| == 0 then [Account(capital, capital)]
    else
      var n := |rhos|;
      var prev := Accounts(capital, contribution, rhos[..n - 1]);
      prev + [Step(prev[n - 1], rhos[n - 1], contribution)]
  }

  /** Each month's account follows from the previous one by one `Step`. */
  lemma {:induction false} AccountsStep(capital: real, contribution: real, rhos: seq<real>, j: nat)
    requires j < |rhos|
    ensures var a := Accounts(capital, contribution, rhos);
            a[j + 1] == Step(a[j], rhos[j], contribution)
    decreases |rhos|
  {
    var n := |rhos|;
    if j < n - 1 {
      var shorter := rhos[..n - 1];
      AccountsStep(capital, contribution, shorter, j);
      assert Accounts(capital, contribution, rhos)[..n] == Accounts(capital, contribution, shorter);
    }
  }

  /** Gross values of a sequence of accounts. */
  function Grosses(a: seq<Account>): (g: seq<real>)
    ensures |g| == |a|
    ensures forall k :: 0 <= k < |a| ==> g[k] == a[k].gross
    decreases |a|
  {
    if |a| == 0 then [] else Grosses(a[..|a| - 1]) + [a[|a| - 1].gross]
  }

  /** After-tax values of a sequence of accounts. */
  function Nets(a: seq<Account>): (n: seq<real>)
    ensures |n| == |a|
    ensures forall k :: 0 <= k < |a| ==> n[k] == Net(a[k])
    decreases |a|
  {
    if |a| == 0 then [] else Nets(a[..|a| - 1]) + [Net(a[|a| - 1])]
  }

  /**
    The gross series: one value per month 0 .. |rhos|, starting at the capital.
   */
  function GrossSeries(capital: real, contribution: real, rhos: seq<real>): (g: seq<real>)
    ensures |g| == |rhos| + 1
    ensures g[0] == capital
  {
    Grosses(Accounts(capital, contribution, rhos))
  }

  /**
    The gross value of month j + 1 is the gross value of month j (never the
    net one) compounded by that month's return, plus the contribution.
   */
  lemma GrossRecurrence(capital: real, contribution: real, rhos: seq<real>, j: nat)
    requires j < |rhos|
    ensures var g := GrossSeries(capital, contribution, rhos);
            g[j + 1] == Compound(g[j], rhos[j]) + contribution
  {
    AccountsStep(capital, contribution, rhos, j);
  }

  /**
    The recorded net series: one value per month 0 .. |rhos|, starting at the
    capital.
   */
  function NetSeries(capital: real, contribution: real, rhos: seq<real>): (n: seq<real>)
    ensures |n| == |rhos| + 1
    ensures n[0] == capital
  {
    Nets(Accounts(capital, contribution, rhos))
  }

  /** Month by month, the recorded net value never exceeds the gross value. */
  lemma NetNeverAboveGross(capital: real, contribution: real, rhos: seq<real>)
    ensures var n := NetSeries(capital, contribution, rhos);
            var g := GrossSeries(capital, contribution, rhos);
            forall j :: 0 <= j < |n| ==> n[j] <= g[j]
  {
  }

  /**
    Month by month: when the gross value is at most the amount paid in, no tax
    is due and the net value is the gross value; otherwise the net value is the
    gross value less 26% of the gain.
   */
  lemma NetSeriesTaxCases(capital: real, contribution: real, rhos: seq<real>, j: nat)
    requires j <= |rhos|
    ensures var a := Accounts(capital, contribution, rhos)[j];
            var n := NetSeries(capital, contribution, rhos)[j];
            var g := GrossSeries(capital, contribution, rhos)[j];
            && g == a.gross
            && (a.gross <= a.invested ==> n == g)
            && (a.gross > a.invested ==> n == g - TaxRate * (g - a.invested))
  {
  }

  /** The capital plus `months` monthly contributions. */
  function PaidIn(capital: real, contribution: real, months: nat): real {
    capital + (months as real) * contribution
  }

  /** After m months the amount paid in is the capital plus m contributions. */
  lemma {:induction false} InvestedClosedForm(capital: real, contribution: real, rhos: seq<real>, m: nat)
    requires m <= |rhos|
    ensures Accounts(capital, contribution, rhos)[m].invested == PaidIn(capital, contribution, m)
  {
    var a := Accounts(capital, contribution, rhos);
    var j := 0;
    while j < m
      invariant 0 <= j <= m
      invariant a[j].invested == PaidIn(capital, contribution, j)
    {
      AccountsStep(capital, contribution, rhos, j);
      assert (j as real) * contribution + contribution == ((j + 1) as real) * contribution;
      j := j + 1;
    }
  }

  /**
    Simulating fewer months gives a prefix of the longer simulation: the value
    at month k depends only on the first k returns.
   */
  lemma {:induction false} AccountsPrefix(capital: real, contribution: real, rhos: seq<real>, k: nat)
    requires k <= |rhos|
    ensures Accounts(capital, contribution, rhos[..k]) == Accounts(capital, contribution, rhos)[..k + 1]
    decreases |rhos|
  {
    if k < |rhos| {
      var shorter := rhos[..|rhos| - 1];
      assert shorter[..k] == rhos[..k];
      AccountsPrefix(capital, contribution, shorter, k);
    } else {
      assert rhos[..k] == rhos;
    }
  }

  /** `q` to the power `n`. */
  function Power(q: real, n: nat): real {
    if n == 0 then 1.0 else Power(q, n - 1) * q
  }

  /** The geometric sum 1 + q + ... + q^(n-1). */
  function GeometricSum(q: real, n: nat): real {
    if n == 0 then 0.0 else GeometricSum(q, n - 1) * q + 1.0
  }

  /** Each further term of the geometric sum is the next power of `q`. */
  lemma {:induction false} GeometricSumSnoc(q: real, n: nat)
    ensures GeometricSum(q, n + 1) == GeometricSum(q, n) + Power(q, n)
  {
    if n > 0 {
      GeometricSumSnoc(q, n - 1);
      var sum, power := GeometricSum(q, n - 1), Power(q, n - 1);
      assert (sum + power) * q + 1.0 == (sum * q + 1.0) + power * q;
    }
  }

  /**
    With the same return `rho` every month (no volatility), the gross value
    after j months is the annuity formula: the capital compounded j times
    plus each contribution compounded for the months since it was paid.
   */
  lemma {:induction false} ConstantReturnGross(capital: real, contribution: real, rhos: seq<real>, rho: real, j: nat)
    requires forall k :: 0 <= k < |rhos| ==> rhos[k] == rho
    requires j <= |rhos|
    ensures GrossSeries(capital, contribution, rhos)[j]
            == capital * Power(1.0 + rho, j) + contribution * GeometricSum(1.0 + rho, j)
  {
    if j > 0 {
      ConstantReturnGross(capital, contribution, rhos, rho, j - 1);
      GrossRecurrence(capital, contribution, rhos, j - 1);
      var q := 1.0 + rho;
      var power, sum := Power(q, j - 1), GeometricSum(q, j - 1);
      assert Compound(capital * power + contribution * sum, rho)
             == capital * (power * q) + contribution * (sum * q);
    }
  }

  /** The net series of a shorter simulation is a prefix of the longer one's. */
  lemma NetSeriesPrefix(capital: real, contribution: real, rhos: seq<real>, k: nat)
    requires k <= |rhos|
    ensures NetSeries(capital, contribution, rhos[..k]) == NetSeries(capital, contribution, rhos)[..k + 1]
  {
    AccountsPrefix(capital, contribution, rhos, k);
    var a := Accounts(capital, contribution, rhos);
    assert Nets(a[..k + 1]) == Nets(a)[..k + 1];
  }

  /** With no capital and no contributions every account stays empty, whatever the returns. */
  lemma {:induction false} ZeroAccounts(rhos: seq<real>, k: nat)
    requires k <= |rhos|
    ensures Accounts(0.0, 0.0, rhos)[k] == Account(0.0, 0.0)
  {
    if k > 0 {
      ZeroAccounts(rhos, k - 1);
      AccountsStep(0.0, 0.0, rhos, k - 1);
      assert Compound(0.0, rhos[k - 1]) == 0.0;
    }
  }

  /** With no capital and no contributions the portfolio stays at zero whatever the returns. */
  lemma NothingInNothingOut(rhos: seq<real>)
    ensures forall j :: 0 <= j <= |rhos| ==> NetSeries(0.0, 0.0, rhos)[j] == 0.0
  {
    forall j | 0 <= j <= |rhos|
      ensures NetSeries(0.0, 0.0, rhos)[j] == 0.0
    {
      ZeroAccounts(rhos, j);
    }
  }

  /** What the program's loop keeps: the recorded gross and net lists and the running amount paid in. */
  datatype Ledger = Ledger(gross: seq<real>, net: seq<real>, invested: real)

  /**
    One pass of the loop body at tax rate `rate`: compound the last gross
    value and add the contribution, add the contribution to the running
    total, tax a positive gain at `rate`, and append both values.
   */
  function Advance(l: Ledger, rho: real, contribution: real, rate: real): (next: Ledger)
    requires |l.gross| > 0
    ensures |next.gross| == |l.gross| + 1 && |next.net| == |l.net| + 1
    ensures next.gross[..|l.gross|] == l.gross && next.net[..|l.net|] == l.net
    ensures 0.0 <= rate ==> next.net[|l.net|] <= next.gross[|l.gross|]
  {
    var grossValue := Compound(l.gross[|l.gross| - 1], rho) + contribution;
    var invested := l.invested + contribution;
    var gain := grossValue - invested;
    var tax := if gain > 0.0 then Levy(rate, gain) else 0.0;
    assert 0.0 <= rate && gain > 0.0 ==> 0.0 <= Levy(rate, gain);
    Ledger(l.gross + [grossValue], l.net + [grossValue - tax], invested)
  }

  /**
    The loop over all months, as a fold of `Advance` from the initial lists:
    both lists hold one value per month 0 .. |rhos| and start at the capital.
   */
  function Run(capital: real, contribution: real, rhos: seq<real>, rate: real): (l: Ledger)
    ensures |l.gross| == |rhos| + 1 && |l.net| == |rhos| + 1
    ensures l.gross[0] == capital && l.net[0] == capital
    decreases |rhos|
  {
    if |rhos| == 0 then Ledger([capital], [capital], capital)
    else Advance(Run(capital, contribution, rhos[..|rhos| - 1], rate), rhos[|rhos| - 1], contribution, rate)
  }

  /**
    At any non-negative tax rate, no net value the loop records exceeds the
    gross value it records for the same month.
   */
  lemma {:induction false} RunNetBelowGross(capital: real, contribution: real, rhos: seq<real>, rate: real)
    requires 0.0 <= rate
    ensures forall k :: 0 <= k < |Run(capital, contribution, rhos, rate).net| ==>
              Run(capital, contribution, rhos, rate).net[k] <= Run(capital, contribution, rhos, rate).gross[k]
    decreases |rhos|
  {
    if |rhos| > 0 {
      var n := |rhos|;
      var before := Run(capital, contribution, rhos[..n - 1], rate);
      RunNetBelowGross(capital, contribution, rhos[..n - 1], rate);
      var l := Run(capital, contribution, rhos, rate);
      assert l == Advance(before, rhos[n - 1], contribution, rate);
      assert l.net == before.net + [l.net[n]];
      assert l.gross == before.gross + [l.gross[n]];
      forall k | 0 <= k < |l.net|
        ensures l.net[k] <= l.gross[k]
      {
        if k < n {
          assert l.net[k] == before.net[k] && l.gross[k] == before.gross[k];
        }
      }
    }
  }

  /** Running one more month is one more `Advance`. */
  lemma RunSnoc(capital: real, contribution: real, rhos: seq<real>, rate: real, j: nat)
    requires j < |rhos|
    ensures Run(capital, contribution, rhos[..j + 1], rate)
            == Advance(Run(capital, contribution, rhos[..j], rate), rhos[j], contribution, rate)
  {
    assert rhos[..j + 1][..j] == rhos[..j];
  }

  /**
    The loop computes the month-by-month model. Whatever the tax rate, its
    gross list is the gross series and its running total the amount paid in
    after the last month: the tax never feeds back into the compounding. At
    the 26% rate its net list is the net series.
   */
  lemma {:induction false} RunAgrees(capital: real, contribution: real, rhos: seq<real>, rate: real)
    ensures Run(capital, contribution, rhos, rate).gross == GrossSeries(capital, contribution, rhos)
    ensures Run(capital, contribution, rhos, rate).invested == Accounts(capital, contribution, rhos)[|rhos|].invested
    ensures rate == TaxRate ==> Run(capital, contribution, rhos, rate).net == NetSeries(capital, contribution, rhos)
    decreases |rhos|
  {
    if |rhos| > 0 {
      var n := |rhos|;
      var shorter := rhos[..n - 1];
      RunAgrees(capital, contribution, shorter, rate);
      var before := Accounts(capital, contribution, shorter);
      var after := Accounts(capital, contribution, rhos);
      assert after == before + [Step(before[n - 1], rhos[n - 1], contribution)];
      AdvanceSteps(Run(capital, contribution, shorter, rate), before[n - 1], rhos[n - 1], contribution, rate);
      assert after[..n] == before;
      GrossesSnoc(after);
      NetsSnoc(after);
    }
  }

  /**
    Advancing a ledger whose last entry records account `a` records
    `Step(a, ...)`; at the 26% rate the appended net value is that account's.
   */
  lemma AdvanceSteps(l: Ledger, a: Account, rho: real, contribution: real, rate: real)
    requires |l.gross| > 0
    requires l.gross[|l.gross| - 1] == a.gross && l.invested == a.invested
    ensures var next := Step(a, rho, contribution);
            && Advance(l, rho, contribution, rate).gross == l.gross + [next.gross]
            && Advance(l, rho, contribution, rate).invested == next.invested
            && (rate == TaxRate ==> Advance(l, rho, contribution, rate).net == l.net + [Net(next)])
  {
  }

  /** The gross values of one more account are the earlier ones plus its own. */
  lemma GrossesSnoc(a: seq<Account>)
    requires |a| > 0
    ensures Grosses(a) == Grosses(a[..|a| - 1]) + [a[|a| - 1].gross]
  {
  }

  /** The net values of one more account are the earlier ones plus its own. */
  lemma NetsSnoc(a: seq<Account>)
    requires |a| > 0
    ensures Nets(a) == Nets(a[..|a| - 1]) + [Net(a[|a| - 1])]
  {
  }

  /**
    The simulation loop for one trajectory, as quanto_per_milione.py writes it:
    two growing lists and a running total of the amount paid in, the tax
    worked out inline from that running total at rate `taxRate`. Whatever the
    rate, it records exactly the gross series and the amount paid in at the
    end is the capital plus one contribution per month; at the 26% rate it
    records exactly the net series.
   */
  method SimulateTrajectory(capital: real, contribution: real, rhos: seq<real>, taxRate: real)
    returns (gross: seq<real>, net: seq<real>, invested: real)
    ensures gross == GrossSeries(capital, contribution, rhos)
    ensures taxRate == TaxRate ==> net == NetSeries(capital, contribution, rhos)
    ensures |net| == |rhos| + 1 && net[0] == capital
    ensures invested == PaidIn(capital, contribution, |rhos|)
  {
    gross := [capital];
    net := [capital];
    invested := capital;
    var j := 0;
    while j < |rhos|
      invariant 0 <= j <= |rhos|
      invariant Ledger(gross, net, invested) == Run(capital, contribution, rhos[..j], taxRate)
      invariant |net| == j + 1 && net[0] == capital
    {
      var rho := rhos[j];
      ghost var before := Ledger(gross, net, invested);
      var grossValue := Compound(gross[|gross| - 1], rho) + contribution;
      invested := invested + contribution;
      var gain := grossValue - invested;
      var tax := if gain > 0.0 then Levy(taxRate, gain) else 0.0;
      var netValue := grossValue - tax;
      gross := gross + [grossValue];
      net := net + [netValue];
      assert Ledger(gross, net, invested) == Advance(before, rho, contribution, taxRate);
      RunSnoc(capital, contribution, rhos, taxRate, j);
      j := j + 1;
    }
    assert rhos[..j] == rhos;
    RunAgrees(capital, contribution, rhos, taxRate);
    InvestedClosedForm(capital, contribution, rhos, |rhos|);
  }
}
