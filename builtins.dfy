/** The Python built-ins the search code applies to its lists of values:
    max(), min() and list.index(); and Sum and Tally, which add up the counts
    that the source's loops and counters accumulate. */
module Builtins {

  /** max(xs): the largest element of a non-empty list. */
  function Max(xs: seq<int>): (m: int)
    requires |xs| > 0
    ensures m in xs
    ensures forall k :: 0 <= k < |xs| ==> xs[k] <= m
  {
    if |xs| == 1 then xs[0]
    else
      var m := Max(xs[..|xs| - 1]);
      assert m in xs[..|xs| - 1];
      if xs[|xs| - 1] > m then xs[|xs| - 1] else m
  }

  /** min(xs): the smallest element of a non-empty list. */
  function Min(xs: seq<int>): (m: int)
    requires |xs| > 0
    ensures m in xs
    ensures forall k :: 0 <= k < |xs| ==> m <= xs[k]
  {
    if |xs| == 1 then xs[0]
    else
      var m := Min(xs[..|xs| - 1]);
      assert m in xs[..|xs| - 1];
      if xs[|xs| - 1] < m then xs[|xs| - 1] else m
  }

  /** xs.index(v): the position of the first occurrence of v. */
  function IndexOf(xs: seq<int>, v: int): (i: nat)
    requires v in xs
    ensures i < |xs| && xs[i] == v
    ensures forall j :: 0 <= j < i ==> xs[j] != v
  {
    if xs[0] == v then 0 else 1 + IndexOf(xs[1..], v)
  }

  /** xs.index(max(xs)): the first position holding the largest element. */
  function ArgMax(xs: seq<int>): (i: nat)
    requires |xs| > 0
    ensures i < |xs|
    ensures forall k :: 0 <= k < |xs| ==> xs[k] <= xs[i]
    ensures forall k :: 0 <= k < i ==> xs[k] < xs[i]
  {
    IndexOf(xs, Max(xs))
  }

  /** The total of a list of counts: what the leaf counter gains over a loop
      whose i-th turn adds xs[i]. */
  function Sum(xs: seq<nat>): nat
  {
    if xs == [] then 0 else Sum(xs[..|xs| - 1]) + xs[|xs| - 1]
  }

  /** The number of tests that came out true: what a loop of `if test: cnt += 1`
      leaves in cnt. */
  function Tally(tests: seq<bool>): (n: nat)
    ensures n <= |tests|
  {
    if tests == [] then 0 else Tally(tests[..|tests| - 1]) + (if tests[|tests| - 1] then 1 else 0)
  }

  /** Extending a prefix by one test adds one exactly when that test is true. */
  lemma TallyOfLongerPrefix(tests: seq<bool>, i: nat)
    requires i < |tests|
    ensures Tally(tests[..i + 1]) == Tally(tests[..i]) + (if tests[i] then 1 else 0)
  {
    assert tests[..i + 1][..i] == tests[..i];
  }

  /** Counting two lists of tests one after the other adds their counts. */
  lemma {:induction false} TallyAppend(xs: seq<bool>, ys: seq<bool>)
    ensures Tally(xs + ys) == Tally(xs) + Tally(ys)
    decreases |ys|
  {
    if ys != [] {
      var zs := ys[..|ys| - 1];
      assert (xs + ys)[..|xs + ys| - 1] == xs + zs;
      TallyAppend(xs, zs);
    } else {
      assert xs + ys == xs;
    }
  }

  /** The sum of a list of counts is at least each of its elements. */
  lemma {:induction false} SumAtLeastElement(xs: seq<nat>, k: nat)
    requires k < |xs|
    ensures xs[k] <= Sum(xs)
  {
    if k < |xs| - 1 {
      SumAtLeastElement(xs[..|xs| - 1], k);
    }
  }

  /** Raising no element of a list of counts cannot lower its sum. */
  lemma {:induction false} SumMonotone(xs: seq<nat>, ys: seq<nat>)
    requires |xs| == |ys|
    requires forall k :: 0 <= k < |xs| ==> xs[k] <= ys[k]
    ensures Sum(xs) <= Sum(ys)
  {
    if xs != [] {
      SumMonotone(xs[..|xs| - 1], ys[..|ys| - 1]);
    }
  }

  /** A prefix of a list of counts sums to no more than the whole list. */
  lemma {:induction false} SumOfPrefix(xs: seq<nat>, i: nat)
    requires i <= |xs|
    ensures Sum(xs[..i]) <= Sum(xs)
  {
    if i < |xs| {
      assert xs[..|xs| - 1][..i] == xs[..i];
      SumOfPrefix(xs[..|xs| - 1], i);
    } else {
      assert xs[..i] == xs;
    }
  }

  /** Extending a prefix by one element appends that element. */
  lemma PrefixExtend(xs: seq<int>, i: nat)
    requires i < |xs|
    ensures xs[..i] + [xs[i]] == xs[..i + 1]
  {
  }

  /** Extending a prefix by one element adds that element to its sum. */
  lemma SumOfLongerPrefix(xs: seq<nat>, i: nat)
    requires i < |xs|
    ensures Sum(xs[..i + 1]) == Sum(xs[..i]) + xs[i]
  {
    assert xs[..i + 1][..i] == xs[..i];
  }

  /** Extending a prefix by one element: the new maximum is the larger of the old
      maximum and the new element. */
  lemma MaxOfLongerPrefix(xs: seq<int>, i: nat)
    requires 0 < i < |xs|
    ensures Max(xs[..i + 1]) == if xs[i] > Max(xs[..i]) then xs[i] else Max(xs[..i])
  {
    assert xs[..i + 1][..i] == xs[..i];
  }

  /** Extending a prefix by one element: the new minimum is the smaller of the old
      minimum and the new element. */
  lemma MinOfLongerPrefix(xs: seq<int>, i: nat)
    requires 0 < i < |xs|
    ensures Min(xs[..i + 1]) == if xs[i] < Min(xs[..i]) then xs[i] else Min(xs[..i])
  {
    assert xs[..i + 1][..i] == xs[..i];
  }

  /** The largest of the first i elements, grown one element at a time as a loop
      keeping a running maximum does. */
  function MaxOfFirst(xs: seq<int>, i: nat): int
    requires 0 < i <= |xs|
  {
    if i == 1 then xs[0]
    else
      var m := MaxOfFirst(xs, i - 1);
      if xs[i - 1] > m then xs[i - 1] else m
  }

  /** The smallest of the first i elements, grown one element at a time. */
  function MinOfFirst(xs: seq<int>, i: nat): int
    requires 0 < i <= |xs|
  {
    if i == 1 then xs[0]
    else
      var m := MinOfFirst(xs, i - 1);
      if xs[i - 1] < m then xs[i - 1] else m
  }

  /** A running maximum is the maximum of the prefix it has seen. */
  lemma {:induction false} MaxOfFirstIsMax(xs: seq<int>, i: nat)
    requires 0 < i <= |xs|
    ensures MaxOfFirst(xs, i) == Max(xs[..i])
  {
    if i == 1 {
      assert xs[..1] == [xs[0]];
    } else {
      MaxOfFirstIsMax(xs, i - 1);
      assert xs[..i][..i - 1] == xs[..i - 1];
    }
  }

  /** A running minimum is the minimum of the prefix it has seen. */
  lemma {:induction false} MinOfFirstIsMin(xs: seq<int>, i: nat)
    requires 0 < i <= |xs|
    ensures MinOfFirst(xs, i) == Min(xs[..i])
  {
    if i == 1 {
      assert xs[..1] == [xs[0]];
    } else {
      MinOfFirstIsMin(xs, i - 1);
      assert xs[..i][..i - 1] == xs[..i - 1];
    }
  }

  /** The largest element of a prefix is at most the largest of the whole list. */
  lemma PrefixMaxAtMost(xs: seq<int>, i: nat)
    requires 0 < i <= |xs|
    ensures Max(xs[..i]) <= Max(xs)
  {
    var m := Max(xs[..i]);
    var k :| 0 <= k < i && xs[..i][k] == m;
    assert xs[k] == m;
  }

  /** The smallest element of a prefix is at least the smallest of the whole list. */
  lemma PrefixMinAtLeast(xs: seq<int>, i: nat)
    requires 0 < i <= |xs|
    ensures Min(xs) <= Min(xs[..i])
  {
    var m := Min(xs[..i]);
    var k :| 0 <= k < i && xs[..i][k] == m;
    assert xs[k] == m;
  }

  /** Scaling every element by a positive factor scales the maximum. */
  lemma MaxScaled(xs: seq<int>, ys: seq<int>, c: nat)
    requires |xs| == |ys| > 0 && c > 0
    requires forall k :: 0 <= k < |xs| ==> xs[k] == c * ys[k]
    ensures Max(xs) == c * Max(ys)
  {
    var mx, my := Max(xs), Max(ys);
    var i :| 0 <= i < |xs| && xs[i] == mx;
    var j :| 0 <= j < |ys| && ys[j] == my;
    assert ys[i] <= my;
    MulMonotone(ys[i], ys[j], c);
    assert xs[j] <= xs[i];
  }

  /** Scaling every element by a positive factor scales the minimum. */
  lemma MinScaled(xs: seq<int>, ys: seq<int>, c: nat)
    requires |xs| == |ys| > 0 && c > 0
    requires forall k :: 0 <= k < |xs| ==> xs[k] == c * ys[k]
    ensures Min(xs) == c * Min(ys)
  {
    var mx, my := Min(xs), Min(ys);
    var i :| 0 <= i < |xs| && xs[i] == mx;
    var j :| 0 <= j < |ys| && ys[j] == my;
    assert my <= ys[i];
    MulMonotone(ys[j], ys[i], c);
    assert xs[i] <= xs[j];
  }

  /** Negating every element turns the minimum into the maximum. */
  lemma MaxOfNegated(xs: seq<int>, ys: seq<int>)
    requires |xs| == |ys| > 0
    requires forall k :: 0 <= k < |xs| ==> xs[k] == -ys[k]
    ensures Max(xs) == -Min(ys)
  {
    var mx, my := Max(xs), Min(ys);
    var i :| 0 <= i < |xs| && xs[i] == mx;
    var j :| 0 <= j < |ys| && ys[j] == my;
    assert my <= ys[i];
    assert xs[j] <= xs[i];
  }

  lemma MulMonotone(a: int, b: int, c: nat)
    requires a <= b
    ensures a * c <= b * c
  {
  }
}
