/**
  The search for the month in which the median portfolio first reaches one
  million euro, and the split of that month into years and leftover months.

  The search lists every month whose value is at or above the threshold, in
  increasing order, and takes the first of them; an empty list means the
  threshold is never reached within the horizon searched.
 */
module Goal {

  /** The goal: one million euro. */
  const Million: real := 1000000.0

  /** Months in a year. */
  const MonthsPerYear: nat := 12

  /** Whether `s` is strictly increasing. */
  predicate Increasing(s: seq<nat>) {
    forall k, l :: 0 <= k < l < |s| ==> s[k] < s[l]
  }

  /**
    The positions `from .. |s| - 1` of `s` holding a value at or above `t`,
    in increasing order: every position listed qualifies, and every
    qualifying position is listed.
   */
  function IndicesFrom(s: seq<real>, t: real, from: nat): (r: seq<nat>)
    requires from <= |s|
    ensures Increasing(r)
    ensures forall k :: 0 <= k < |r| ==> from <= r[k] < |s| && s[r[k]] >= t
    ensures forall i :: from <= i < |s| && s[i] >= t ==> i in r
    decreases |s| - from
  {
    if from == |s| then []
    else if s[from] >= t then [from] + IndicesFrom(s, t, from + 1)
    else IndicesFrom(s, t, from + 1)
  }

  /** All positions of `s` holding a value at or above `t`, in increasing order. */
  function Indices(s: seq<real>, t: real): (r: seq<nat>)
    ensures Increasing(r)
    ensures forall k :: 0 <= k < |r| ==> r[k] < |s| && s[r[k]] >= t
    ensures forall i :: 0 <= i < |s| && s[i] >= t ==> i in r
  {
    IndicesFrom(s, t, 0)
  }

  /** No position before the first element of an increasing list is in the list. */
  lemma BeforeFirst(r: seq<nat>, i: nat)
    requires Increasing(r) && |r| > 0 && i < r[0]
    ensures i !in r
  {
    forall k | 0 <= k < |r|
      ensures r[k] != i
    {
      if k > 0 {
        assert r[0] < r[k];
      }
    }
  }

  /** A month split into whole years and the months left over. */
  datatype Duration = Duration(years: nat, months: nat)

  /** Splits `month` into whole years and leftover months. */
  function YearsAndMonths(month: nat): (d: Duration)
    ensures MonthsPerYear * d.years + d.months == month
    ensures d.months < MonthsPerYear
  {
    Duration(month / MonthsPerYear, month % MonthsPerYear)
  }

  /** The split is the only one with fewer than twelve leftover months. */
  lemma YearsAndMonthsUnique(month: nat, d: Duration)
    requires MonthsPerYear * d.years + d.months == month
    requires d.months < MonthsPerYear
    ensures YearsAndMonths(month) == d
  {
  }

  /** Outcome of the search: the first month at the goal, or never within the horizon. */
  datatype Crossing = Reached(month: nat, after: Duration) | NeverReached

  /**
    The first month whose value is at least one million. It is reached
    exactly when some month's value is at least one million; then the month
    reported holds such a value, every earlier month is below the goal, and
    the month is split into years and fewer than twelve leftover months.
   */
  function FirstCrossing(series: seq<real>): (c: Crossing)
    ensures c.Reached? <==> exists i :: 0 <= i < |series| && series[i] >= Million
    ensures c.Reached? ==> c.month < |series| && series[c.month] >= Million
    ensures c.Reached? ==> forall i :: 0 <= i < c.month ==> series[i] < Million
    ensures c.Reached? ==> MonthsPerYear * c.after.years + c.after.months == c.month
    ensures c.Reached? ==> c.after.months < MonthsPerYear
  {
    var hits := Indices(series, Million);
    if |hits| > 0 then
      var month := hits[0];
      assert forall i :: 0 <= i < month ==> series[i] < Million by {
        forall i | 0 <= i < month
          ensures i !in hits
        {
          BeforeFirst(hits, i);
        }
      }
      Reached(month, YearsAndMonths(month))
    else
      NeverReached
  }

  /**
    The search depends only on the months up to the crossing: a longer
    series that agrees with `s` on its months has the same first crossing
    whenever `s` reaches the goal.
   */
  lemma {:induction false} CrossingOfPrefix(s: seq<real>, longer: seq<real>)
    requires |s| <= |longer| && longer[..|s|] == s
    requires FirstCrossing(s).Reached?
    ensures FirstCrossing(longer) == FirstCrossing(s)
  {
    var c := FirstCrossing(s);
    assert longer[c.month] == s[c.month];
    var d := FirstCrossing(longer);
    assert d.month <= c.month;
    assert longer[d.month] == s[d.month];
    YearsAndMonthsUnique(c.month, c.after);
    YearsAndMonthsUnique(d.month, d.after);
  }
}
