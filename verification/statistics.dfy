/**
  Order statistics over a finite sample of reals, as the simulator uses them:
  the median, minimum and maximum of a column of the trajectory ensemble, and
  the share of a sample that reaches a threshold.

  The median follows the usual rule for a sample of size n: sort it; for odd n
  take the middle element, for even n the mean of the two middle elements.
 */
module Statistics {

  /** Non-decreasing order. */
  predicate Sorted(s: seq<real>) {
    forall i, j :: 0 <= i < j < |s| ==> s[i] <= s[j]
  }

  /** Inserts `x` into a sorted sequence, keeping it sorted. */
  function Insert(x: real, s: seq<real>): (r: seq<real>)
    requires Sorted(s)
    ensures Sorted(r)
    ensures multiset(r) == multiset(s) + multiset{x}
    decreases |s|
  {
    if |s| == 0 then [x]
    else if x <= s[0] then [x] + s
    else
      var rest := Insert(x, s[1..]);
      assert s == [s[0]] + s[1..];
      HeadBelowRest(x, s, rest);
      SortedCons(s[0], rest);
      [s[0]] + rest
  }

  /** Putting an element no larger than any other in front keeps a sequence sorted. */
  lemma SortedCons(y: real, r: seq<real>)
    requires Sorted(r)
    requires forall k :: 0 <= k < |r| ==> y <= r[k]
    ensures Sorted([y] + r)
  {
    var c := [y] + r;
    forall i, j | 0 <= i < j < |c|
      ensures c[i] <= c[j]
    {
      assert c[j] == r[j - 1];
      if i > 0 {
        assert c[i] == r[i - 1];
      }
    }
  }

  /** After inserting `x > s[0]` into the tail of `s`, `s[0]` still bounds it from below. */
  lemma HeadBelowRest(x: real, s: seq<real>, rest: seq<real>)
    requires Sorted(s) && |s| > 0 && s[0] < x
    requires multiset(rest) == multiset(s[1..]) + multiset{x}
    ensures forall k :: 0 <= k < |rest| ==> s[0] <= rest[k]
  {
    forall k | 0 <= k < |rest|
      ensures s[0] <= rest[k]
    {
      assert rest[k] in multiset(rest);
      if rest[k] != x {
        assert rest[k] in multiset(s[1..]);
        var i :| 0 <= i < |s[1..]| && s[1..][i] == rest[k];
        assert s[i + 1] == rest[k];
      }
    }
  }

  /** Sorts a sample (insertion sort): a sorted permutation of the input. */
  function Sort(s: seq<real>): (r: seq<real>)
    ensures Sorted(r)
    ensures multiset(r) == multiset(s)
    ensures |r| == |s|
    decreases |s|
  {
    if |s| == 0 then []
    else
      assert s == [s[0]] + s[1..];
      var r := Insert(s[0], Sort(s[1..]));
      assert |r| == |multiset(r)|;
      r
  }

  /** Two sorted sequences holding the same elements are equal. */
  lemma {:induction false} SortedUnique(a: seq<real>, b: seq<real>)
    requires Sorted(a) && Sorted(b)
    requires multiset(a) == multiset(b)
    ensures a == b
    decreases |a|
  {
    assert |a| == |multiset(a)| == |multiset(b)| == |b|;
    if |a| > 0 {
      assert a[0] in multiset(b);
      assert b[0] in multiset(a);
      assert a[0] == b[0];
      assert a == [a[0]] + a[1..];
      assert b == [b[0]] + b[1..];
      assert multiset(a[1..]) == multiset(a) - multiset{a[0]};
      assert multiset(b[1..]) == multiset(b) - multiset{b[0]};
      SortedUnique(a[1..], b[1..]);
    }
  }

  /** The sorted form of a sample depends only on which values it holds, not on their order. */
  lemma SortIgnoresOrder(s: seq<real>, t: seq<real>)
    requires multiset(s) == multiset(t)
    ensures Sort(s) == Sort(t)
  {
    SortedUnique(Sort(s), Sort(t));
  }

  /** Smallest element of a non-empty sample. */
  function Min(s: seq<real>): (m: real)
    requires |s| > 0
    ensures m in s
    ensures forall x :: x in s ==> m <= x
    decreases |s|
  {
    if |s| == 1 then s[0]
    else
      var rest := Min(s[1..]);
      assert s == [s[0]] + s[1..];
      if s[0] <= rest then s[0] else rest
  }

  /** Largest element of a non-empty sample. */
  function Max(s: seq<real>): (m: real)
    requires |s| > 0
    ensures m in s
    ensures forall x :: x in s ==> x <= m
    decreases |s|
  {
    if |s| == 1 then s[0]
    else
      var rest := Max(s[1..]);
      assert s == [s[0]] + s[1..];
      if s[0] >= rest then s[0] else rest
  }

  /** Number of elements of `s` that satisfy `p`. */
  function Count<T>(s: seq<T>, p: T -> bool): (n: nat)
    ensures n <= |s|
    decreases |s|
  {
    if |s| == 0 then 0 else (if p(s[0]) then 1 else 0) + Count(s[1..], p)
  }

  /** The predicate "at or above `t`". */
  function AtLeast(t: real): real -> bool {
    x => x >= t
  }

  /** The predicate "at or below `t`". */
  function AtMost(t: real): real -> bool {
    x => x <= t
  }

  /** Counting over a concatenation adds the counts of the two parts. */
  lemma {:induction false} CountConcat<T>(a: seq<T>, b: seq<T>, p: T -> bool)
    ensures Count(a + b, p) == Count(a, p) + Count(b, p)
    decreases |a|
  {
    if |a| > 0 {
      assert (a + b)[1..] == a[1..] + b;
      CountConcat(a[1..], b, p);
    } else {
      assert a + b == b;
    }
  }

  /** Every element satisfies `p` exactly when all of them are counted. */
  lemma {:induction false} CountAll<T>(s: seq<T>, p: T -> bool)
    ensures Count(s, p) == |s| <==> forall i :: 0 <= i < |s| ==> p(s[i])
    decreases |s|
  {
    if |s| > 0 {
      CountAll(s[1..], p);
      if Count(s, p) == |s| {
        forall i | 1 <= i < |s|
          ensures p(s[i])
        {
          assert s[i] == s[1..][i - 1];
        }
      }
    }
  }

  /** No element satisfies `p` exactly when none is counted. */
  lemma {:induction false} CountNone<T>(s: seq<T>, p: T -> bool)
    ensures Count(s, p) == 0 <==> forall i :: 0 <= i < |s| ==> !p(s[i])
    decreases |s|
  {
    if |s| > 0 {
      CountNone(s[1..], p);
      if Count(s, p) == 0 {
        forall i | 1 <= i < |s|
          ensures !p(s[i])
        {
          assert s[i] == s[1..][i - 1];
        }
      }
    }
  }

  /** Counting does not depend on the order of the elements. */
  lemma {:induction false} CountIgnoresOrder<T>(a: seq<T>, b: seq<T>, p: T -> bool)
    requires multiset(a) == multiset(b)
    ensures Count(a, p) == Count(b, p)
    decreases |a|
  {
    assert |a| == |multiset(a)| == |multiset(b)| == |b|;
    if |a| > 0 {
      var x := a[0];
      assert x in multiset(b);
      var k :| 0 <= k < |b| && b[k] == x;
      var rest := b[..k] + b[k + 1..];
      assert a == [x] + a[1..];
      assert multiset(a[1..]) == multiset(a) - multiset{x};
      MultisetRemoveAt(b, k);
      CountRemoveAt(b, k, p);
      CountIgnoresOrder(a[1..], rest, p);
    }
  }

  /** Taking out the element at `k` removes one copy of it from the multiset. */
  lemma MultisetRemoveAt<T>(b: seq<T>, k: nat)
    requires k < |b|
    ensures multiset(b[..k] + b[k + 1..]) == multiset(b) - multiset{b[k]}
  {
    assert b == b[..k] + [b[k]] + b[k + 1..];
  }

  /** Taking out the element at `k` removes its contribution to the count. */
  lemma {:induction false} CountRemoveAt<T>(b: seq<T>, k: nat, p: T -> bool)
    requires k < |b|
    ensures Count(b, p) == (if p(b[k]) then 1 else 0) + Count(b[..k] + b[k + 1..], p)
    decreases k
  {
    if k == 0 {
      assert b[..k] + b[k + 1..] == b[1..];
    } else {
      var tail := b[1..];
      CountRemoveAt(tail, k - 1, p);
      var shorter := tail[..k - 1] + tail[k..];
      assert b[..k] + b[k + 1..] == [b[0]] + shorter;
      assert ([b[0]] + shorter)[1..] == shorter;
    }
  }

  /** If every element from index `i` on satisfies `p`, at least |s| - i are counted. */
  lemma CountSuffix<T>(s: seq<T>, i: nat, p: T -> bool)
    requires i <= |s|
    requires forall k :: i <= k < |s| ==> p(s[k])
    ensures Count(s, p) >= |s| - i
  {
    assert s == s[..i] + s[i..];
    CountConcat(s[..i], s[i..], p);
    CountAll(s[i..], p);
  }

  /** If every element before index `i` satisfies `p`, at least i are counted. */
  lemma CountPrefix<T>(s: seq<T>, i: nat, p: T -> bool)
    requires i <= |s|
    requires forall k :: 0 <= k < i ==> p(s[k])
    ensures Count(s, p) >= i
  {
    assert s == s[..i] + s[i..];
    CountConcat(s[..i], s[i..], p);
    CountAll(s[..i], p);
  }

  /** The middle value of the sorted sample (mean of the two middle values for even size). */
  function MiddleOfSorted(t: seq<real>): real
    requires |t| > 0
  {
    var n := |t|;
    if n % 2 == 1 then t[n / 2] else (t[n / 2 - 1] + t[n / 2]) / 2.0
  }

  /**
    Median of a non-empty sample: the middle of ANY sorted arrangement of the
    sample (for an even size, the mean of the two middle values). It splits the
    sample in halves: at least half of the elements are at or above it and at
    least half are at or below it; it lies between the sample's minimum and
    maximum.
   */
  function Median(s: seq<real>): (m: real)
    requires |s| > 0
    ensures forall t :: Sorted(t) && multiset(t) == multiset(s) ==> |t| > 0 && m == MiddleOfSorted(t)
    ensures 2 * Count(s, AtLeast(m)) >= |s|
    ensures 2 * Count(s, AtMost(m)) >= |s|
    ensures Min(s) <= m <= Max(s)
  {
    var t := Sort(s);
    var m := MiddleOfSorted(t);
    MedianHalves(s, t, m);
    MedianWithinRange(s, t, m);
    MiddleOfAnySorted(s, t);
    m
  }

  /** Every sorted arrangement of `s` is `Sort(s)`, so it has the same middle. */
  lemma MiddleOfAnySorted(s: seq<real>, t: seq<real>)
    requires |s| > 0 && t == Sort(s)
    ensures forall u :: Sorted(u) && multiset(u) == multiset(s) ==> |u| > 0 && MiddleOfSorted(t) == MiddleOfSorted(u)
  {
    forall u | Sorted(u) && multiset(u) == multiset(s)
      ensures |u| > 0 && MiddleOfSorted(t) == MiddleOfSorted(u)
    {
      SortedUnique(t, u);
    }
  }

  /** In a sorted sample, everything from index `i` on is at or above any `m <= t[i]`. */
  lemma SortedCountAtLeast(t: seq<real>, i: nat, m: real)
    requires Sorted(t)
    requires i < |t| && m <= t[i]
    ensures Count(t, AtLeast(m)) >= |t| - i
  {
    forall k | i <= k < |t|
      ensures AtLeast(m)(t[k])
    {
      assert t[i] <= t[k];
    }
    CountSuffix(t, i, AtLeast(m));
  }

  /** In a sorted sample, everything before index `i` is at or below any `m >= t[i - 1]`. */
  lemma SortedCountAtMost(t: seq<real>, i: nat, m: real)
    requires Sorted(t)
    requires 0 < i <= |t| && t[i - 1] <= m
    ensures Count(t, AtMost(m)) >= i
  {
    forall k | 0 <= k < i
      ensures AtMost(m)(t[k])
    {
      assert t[k] <= t[i - 1];
    }
    CountPrefix(t, i, AtMost(m));
  }

  /** The middle of a sorted sample has at least half of it on either side. */
  lemma SortedHalves(t: seq<real>, m: real)
    requires |t| > 0 && Sorted(t) && m == MiddleOfSorted(t)
    ensures 2 * Count(t, AtLeast(m)) >= |t|
    ensures 2 * Count(t, AtMost(m)) >= |t|
  {
    var n := |t|;
    var h := n / 2;
    if n % 2 == 1 {
      SortedCountAtLeast(t, h, m);
      SortedCountAtMost(t, h + 1, m);
    } else {
      assert t[h - 1] <= t[h];
      SortedCountAtLeast(t, h, m);
      SortedCountAtMost(t, h, m);
    }
  }

  /** The middle of the sorted sample has at least half of the sample on either side. */
  lemma MedianHalves(s: seq<real>, t: seq<real>, m: real)
    requires |s| > 0 && t == Sort(s) && m == MiddleOfSorted(t)
    ensures 2 * Count(s, AtLeast(m)) >= |s|
    ensures 2 * Count(s, AtMost(m)) >= |s|
  {
    SortedHalves(t, m);
    CountIgnoresOrder(t, s, AtLeast(m));
    CountIgnoresOrder(t, s, AtMost(m));
  }

  /** Every element of a sample lies between its minimum and maximum. */
  lemma WithinRange(s: seq<real>, x: real)
    requires |s| > 0 && x in multiset(s)
    ensures Min(s) <= x <= Max(s)
  {
    assert x in s;
  }

  /** The middle of the sorted sample lies between the sample's minimum and maximum. */
  lemma MedianWithinRange(s: seq<real>, t: seq<real>, m: real)
    requires |s| > 0 && t == Sort(s) && m == MiddleOfSorted(t)
    ensures Min(s) <= m <= Max(s)
  {
    var n := |t|;
    var h := n / 2;
    WithinRange(s, t[h]);
    if n % 2 == 0 {
      WithinRange(s, t[h - 1]);
    }
  }

  /** The median of a sample depends only on which values it holds, not on their order. */
  lemma MedianIgnoresOrder(s: seq<real>, t: seq<real>)
    requires |s| > 0
    requires multiset(s) == multiset(t)
    ensures |t| > 0 && Median(s) == Median(t)
  {
    assert |s| == |multiset(s)| == |multiset(t)| == |t|;
    SortIgnoresOrder(s, t);
  }

  /** The median of two values is their mean, whichever order they come in. */
  lemma MedianOfTwo(a: real, b: real)
    ensures Median([a, b]) == (a + b) / 2.0
  {
  }

  /** A sample whose elements are all `v` has median `v`. */
  lemma MedianOfConstant(s: seq<real>, v: real)
    requires |s| > 0
    requires forall i :: 0 <= i < |s| ==> s[i] == v
    ensures Median(s) == v
  {
    var t := Sort(s);
    var n := |t|;
    assert t[n / 2] in multiset(s);
    if n % 2 == 0 {
      assert t[n / 2 - 1] in multiset(s);
    }
  }

  /**
    Percentage (0..100) of the sample at or above `t`: 100 times the number of
    such elements divided by the sample size.
   */
  function PercentAtLeast(s: seq<real>, t: real): (pct: real)
    requires |s| > 0
    ensures 0.0 <= pct <= 100.0
    ensures pct * (|s| as real) == 100.0 * (Count(s, AtLeast(t)) as real)
    ensures pct == 100.0 <==> forall i :: 0 <= i < |s| ==> s[i] >= t
    ensures pct == 0.0 <==> forall i :: 0 <= i < |s| ==> s[i] < t
  {
    var c := Count(s, AtLeast(t));
    CountAll(s, AtLeast(t));
    CountNone(s, AtLeast(t));
    Percent(c as real, |s| as real);
    100.0 * (c as real) / (|s| as real)
  }

  /** `100 c / n` for a count `c` out of `n`: its range, its defining product and its two endpoints. */
  lemma Percent(c: real, n: real)
    requires 0.0 <= c <= n && 0.0 < n
    ensures 0.0 <= 100.0 * c / n <= 100.0
    ensures (100.0 * c / n) * n == 100.0 * c
    ensures 100.0 * c / n == 100.0 <==> c == n
    ensures 100.0 * c / n == 0.0 <==> c == 0.0
  {
    var p := 100.0 * c / n;
    assert p * n == 100.0 * c;
    assert 100.0 * c <= 100.0 * n;
    assert (100.0 - p) * n == 100.0 * (n - c);
  }
}
