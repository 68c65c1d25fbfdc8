/**
 * Normalized accumulation curves.
 *
 * For each of the first four categories the program walks the events again,
 * keeps those whose duration passes its own membership test, and turns each
 * kept event into the cumulative fraction of its total rainfall. Each curve is
 * added both to the category's list and to the list feeding the overall
 * average.
 */
module Curves {
  import opened Segmentation
  import opened Summary

  /** The categories that get curves, in the order the program visits them; `Over180` is not among them. */
  const CurveCategories: seq<Category> := [Under30, From30To60, From60To120, From120To180]

  /**
   * The curve-membership test, a chain of its own beside the classification.
   * Under the written policy its 30-60 band is open at 30, like the
   * classification's.
   */
  function Selects(policy: Policy, cat: Category, d: int): (b: bool)
    ensures b <==> cat != Over180 && Classify(policy, d) == cat
  {
    var above30 := match policy
      case AsWritten => 30 < d
      case Corrected => 30 <= d;
    || (cat == Under30 && d < 30)
    || (cat == From30To60 && above30 && d <= 60)
    || (cat == From60To120 && 60 < d <= 120)
    || (cat == From120To180 && 120 < d <= 180)
  }

  // ---------------------------------------------------------------------
  // Cumulative fraction of the total
  // ---------------------------------------------------------------------

  /** The running totals of the readings. */
  function CumSum(xs: seq<real>): (r: seq<real>)
    ensures |r| == |xs|
    ensures forall k :: 0 <= k < |xs| ==> r[k] == Sum(xs[..k + 1])
  {
    if xs == [] then []
    else
      var init := xs[..|xs| - 1];
      assert xs[..|xs|] == xs;
      assert forall n :: 0 <= n <= |init| ==> init[..n] == xs[..n];
      CumSum(init) + [Sum(xs)]
  }

  /** Running total divided by the event total: the share of the rain fallen by each row. */
  function CumFraction(xs: seq<real>): (r: seq<real>)
    requires Sum(xs) != 0.0
    ensures |r| == |xs|
    ensures forall k :: 0 <= k < |xs| ==> r[k] == Sum(xs[..k + 1]) / Sum(xs)
  {
    var total := Sum(xs);
    var sums := CumSum(xs);
    seq(|xs|, k requires 0 <= k < |xs| => sums[k] / total)
  }

  /** One more row adds its reading to the running total. */
  lemma SumStep(xs: seq<real>, k: nat)
    requires k < |xs|
    ensures Sum(xs[..k + 1]) == Sum(xs[..k]) + xs[k]
  {
    assert xs[..k + 1][..k] == xs[..k];
  }

  /** With all readings positive, running totals are positive and strictly increase up to the total. */
  lemma {:induction false} RunningTotalsIncrease(xs: seq<real>, j: nat, k: nat)
    requires forall i :: 0 <= i < |xs| ==> xs[i] > 0.0
    requires j <= k < |xs|
    ensures 0.0 < Sum(xs[..j + 1]) <= Sum(xs[..k + 1])
    ensures j < k ==> Sum(xs[..j + 1]) < Sum(xs[..k + 1])
    decreases k
  {
    SumStep(xs, k);
    if j < k {
      RunningTotalsIncrease(xs, j, k - 1);
    } else if k > 0 {
      RunningTotalsIncrease(xs, k - 1, k - 1);
    } else {
      assert xs[..0] == [];
    }
  }

  /** With all readings positive the cumulative fraction strictly increases. */
  lemma CumFractionIncreasing(xs: seq<real>, j: nat, k: nat)
    requires forall i :: 0 <= i < |xs| ==> xs[i] > 0.0
    requires j < k < |xs|
    ensures Sum(xs) > 0.0
    ensures CumFraction(xs)[j] < CumFraction(xs)[k]
  {
    SumPositive(xs);
    RunningTotalsIncrease(xs, j, k);
    DivideKeepsOrder(Sum(xs[..j + 1]), Sum(xs[..k + 1]), Sum(xs));
  }

  /** With all readings positive the cumulative fraction lies in (0, 1] and reaches 1 at the last row. */
  lemma CumFractionBounds(xs: seq<real>, k: nat)
    requires forall i :: 0 <= i < |xs| ==> xs[i] > 0.0
    requires k < |xs|
    ensures Sum(xs) > 0.0
    ensures 0.0 < CumFraction(xs)[k] <= 1.0
    ensures k == |xs| - 1 ==> CumFraction(xs)[k] == 1.0
  {
    SumPositive(xs);
    assert xs[..|xs|] == xs;
    RunningTotalsIncrease(xs, k, |xs| - 1);
    DivideKeepsOrder(Sum(xs[..k + 1]), Sum(xs), Sum(xs));
  }

  /**
   * For an event's readings, all positive: the cumulative fraction has one
   * entry per row, strictly increases, stays in (0, 1], and ends at 1.
   */
  lemma CumFractionShape(xs: seq<real>)
    requires |xs| > 0 && forall i :: 0 <= i < |xs| ==> xs[i] > 0.0
    ensures Sum(xs) > 0.0
    ensures |CumFraction(xs)| == |xs|
    ensures forall j, k :: 0 <= j < k < |xs| ==> CumFraction(xs)[j] < CumFraction(xs)[k]
    ensures forall k :: 0 <= k < |xs| ==> 0.0 < CumFraction(xs)[k] <= 1.0
    ensures CumFraction(xs)[|xs| - 1] == 1.0
  {
    SumPositive(xs);
    forall j, k | 0 <= j < k < |xs|
      ensures CumFraction(xs)[j] < CumFraction(xs)[k]
    {
      CumFractionIncreasing(xs, j, k);
    }
    forall k | 0 <= k < |xs|
      ensures 0.0 < CumFraction(xs)[k] <= 1.0
    {
      CumFractionBounds(xs, k);
    }
    CumFractionBounds(xs, |xs| - 1);
  }

  /** Dividing by a positive total keeps the order and positivity of the numerators. */
  lemma DivideKeepsOrder(a: real, b: real, t: real)
    requires 0.0 < a <= b && t > 0.0
    ensures 0.0 < a / t <= b / t
    ensures a < b ==> a / t < b / t
    ensures b == t ==> b / t == 1.0
  {
    assert b / t - a / t == (b - a) / t;
  }

  // ---------------------------------------------------------------------
  // Collecting the curves
  // ---------------------------------------------------------------------

  /** The readings of an event of the segmentation are positive and lie in the series. */
  lemma RunReadings(v: seq<real>, e: seq<nat>)
    requires IsRun(v, e)
    ensures InSeries(v, e)
    ensures |Values(v, e)| > 0 && forall i :: 0 <= i < |e| ==> Values(v, e)[i] > 0.0
    ensures Sum(Values(v, e)) > 0.0
  {
    SumPositive(Values(v, e));
  }

  /**
   * The normalized accumulation curve of one event: one entry per row,
   * strictly increasing, within (0, 1], and reaching 1 at the last row.
   */
  function Curve(v: seq<real>, e: seq<nat>): (r: seq<real>)
    requires IsRun(v, e)
    ensures |r| == |e|
    ensures forall j, k :: 0 <= j < k < |r| ==> r[j] < r[k]
    ensures forall k :: 0 <= k < |r| ==> 0.0 < r[k] <= 1.0
    ensures r[|r| - 1] == 1.0
  {
    RunReadings(v, e);
    CumFractionShape(Values(v, e));
    CumFraction(Values(v, e))
  }

  /** Every event is a run of rain, so every one has a curve. */
  ghost predicate AllRuns(v: seq<real>, events: seq<seq<nat>>) {
    forall j :: 0 <= j < |events| ==> IsRun(v, events[j])
  }

  /**
   * Positions, in event order, of the events among the first `n` that the
   * membership test keeps for `cat`.
   */
  function SelectedUpTo(policy: Policy, cat: Category, events: seq<seq<nat>>, n: nat): (ps: seq<nat>)
    requires n <= |events|
    ensures forall k :: 0 <= k < |ps| ==> ps[k] < n
    ensures StrictlyIncreasing(ps)
  {
    if n == 0 then []
    else
      var ps := SelectedUpTo(policy, cat, events, n - 1);
      if Selects(policy, cat, Duration(events[n - 1])) then ps + [n - 1] else ps
  }

  /** An event is among the selected positions exactly when the membership test keeps it. */
  lemma {:induction false} SelectedMembers(policy: Policy, cat: Category, events: seq<seq<nat>>, n: nat, p: nat)
    requires n <= |events|
    ensures p in SelectedUpTo(policy, cat, events, n) <==> p < n && Selects(policy, cat, Duration(events[p]))
  {
    if n > 0 {
      SelectedMembers(policy, cat, events, n - 1, p);
    }
  }

  /** Positions of all events the membership test keeps for `cat`. */
  function Selected(policy: Policy, cat: Category, events: seq<seq<nat>>): (ps: seq<nat>)
    ensures forall k :: 0 <= k < |ps| ==> ps[k] < |events|
  {
    SelectedUpTo(policy, cat, events, |events|)
  }

  /** Positions feeding the overall average after the first `c` categories. */
  function OverallUpTo(policy: Policy, events: seq<seq<nat>>, c: nat): (ps: seq<nat>)
    requires c <= |CurveCategories|
    ensures forall k :: 0 <= k < |ps| ==> ps[k] < |events|
  {
    if c == 0 then []
    else OverallUpTo(policy, events, c - 1) + Selected(policy, CurveCategories[c - 1], events)
  }

  /** Positions of the events whose curves feed the overall average, in the order they are added. */
  function Overall(policy: Policy, events: seq<seq<nat>>): seq<nat> {
    OverallUpTo(policy, events, |CurveCategories|)
  }

  /** `curves` holds the curves of the events at positions `ps`, in that order. */
  ghost predicate CurvesOf(v: seq<real>, events: seq<seq<nat>>, ps: seq<nat>, curves: seq<seq<real>>)
    requires AllRuns(v, events)
  {
    && |curves| == |ps|
    && forall k :: 0 <= k < |ps| ==> ps[k] < |events| && curves[k] == Curve(v, events[ps[k]])
  }

  /** Curves of two lists of positions, one after the other. */
  lemma CurvesOfAppend(v: seq<real>, events: seq<seq<nat>>, ps: seq<nat>, cs: seq<seq<real>>, qs: seq<nat>, ds: seq<seq<real>>)
    requires AllRuns(v, events)
    requires CurvesOf(v, events, ps, cs) && CurvesOf(v, events, qs, ds)
    ensures CurvesOf(v, events, ps + qs, cs + ds)
  {
    forall k | 0 <= k < |ps + qs|
      ensures (ps + qs)[k] < |events| && (cs + ds)[k] == Curve(v, events[(ps + qs)[k]])
    {
      if k >= |ps| {
        assert (ps + qs)[k] == qs[k - |ps|] && (cs + ds)[k] == ds[k - |ps|];
      }
    }
  }

  /** One step of the curve loop keeps the collected curves those of the events kept so far. */
  lemma CollectStep(policy: Policy, cat: Category, v: seq<real>, events: seq<seq<nat>>, j: nat, curves: seq<seq<real>>)
    requires AllRuns(v, events) && j < |events|
    requires CurvesOf(v, events, SelectedUpTo(policy, cat, events, j), curves)
    ensures Selects(policy, cat, Duration(events[j])) ==>
              CurvesOf(v, events, SelectedUpTo(policy, cat, events, j + 1), curves + [Curve(v, events[j])])
    ensures !Selects(policy, cat, Duration(events[j])) ==>
              CurvesOf(v, events, SelectedUpTo(policy, cat, events, j + 1), curves)
  {
    if Selects(policy, cat, Duration(events[j])) {
      assert CurvesOf(v, events, [j], [Curve(v, events[j])]);
      CurvesOfAppend(v, events, SelectedUpTo(policy, cat, events, j), curves, [j], [Curve(v, events[j])]);
    }
  }

  /** The curves of the events each of the first `c` listed categories keeps. */
  ghost predicate PerCategoryOf(policy: Policy, v: seq<real>, events: seq<seq<nat>>, perCategory: seq<seq<seq<real>>>)
    requires AllRuns(v, events) && |perCategory| <= |CurveCategories|
  {
    forall c :: 0 <= c < |perCategory| ==> CurvesOf(v, events, Selected(policy, CurveCategories[c], events), perCategory[c])
  }

  /**
   * One pass of the curve loop for category `cat`: every event the membership
   * test keeps contributes its curve to the category's list and to the overall
   * list `all`.
   */
  method CollectCategory(policy: Policy, cat: Category, v: seq<real>, events: seq<seq<nat>>, all0: seq<seq<real>>)
    returns (curves: seq<seq<real>>, all: seq<seq<real>>)
    requires AllRuns(v, events)
    ensures CurvesOf(v, events, Selected(policy, cat, events), curves)
    ensures all == all0 + curves
  {
    curves := [];
    all := all0;
    for j := 0 to |events|
      invariant CurvesOf(v, events, SelectedUpTo(policy, cat, events, j), curves)
      invariant all == all0 + curves
    {
      CollectStep(policy, cat, v, events, j, curves);
      if Selects(policy, cat, Duration(events[j])) {
        var curve := Curve(v, events[j]);
        curves := curves + [curve];
        all := all + [curve];
      }
    }
  }

  /**
   * The curve loop over the four listed categories: the curves of each
   * category, and all of them in visiting order for the overall average.
   */
  method CollectCurves(policy: Policy, v: seq<real>, events: seq<seq<nat>>)
    returns (perCategory: seq<seq<seq<real>>>, all: seq<seq<real>>)
    requires AllRuns(v, events)
    ensures |perCategory| == |CurveCategories|
    ensures PerCategoryOf(policy, v, events, perCategory)
    ensures CurvesOf(v, events, Overall(policy, events), all)
  {
    perCategory := [];
    all := [];
    for c := 0 to |CurveCategories|
      invariant |perCategory| == c
      invariant PerCategoryOf(policy, v, events, perCategory)
      invariant CurvesOf(v, events, OverallUpTo(policy, events, c), all)
    {
      ghost var all0 := all;
      var curves;
      curves, all := CollectCategory(policy, CurveCategories[c], v, events, all);
      CurvesOfAppend(v, events, OverallUpTo(policy, events, c), all0, Selected(policy, CurveCategories[c], events), curves);
      perCategory := perCategory + [curves];
    }
  }

  // ---------------------------------------------------------------------
  // Which events reach the overall average
  // ---------------------------------------------------------------------

  /** In a strictly increasing sequence every element occurs once. */
  lemma {:induction false} IncreasingOccursOnce(s: seq<nat>, x: nat)
    requires StrictlyIncreasing(s)
    ensures multiset(s)[x] == if x in s then 1 else 0
  {
    if s != [] {
      var init := s[..|s| - 1];
      assert s == init + [s[|s| - 1]];
      IncreasingOccursOnce(init, x);
      if x == s[|s| - 1] {
        assert x !in init;
      }
    }
  }

  /**
   * Every event that is not classified `Over180` feeds the overall average
   * exactly once, and no `Over180` event ever does; under the written policy
   * that excludes the events of exactly 30 minutes.
   */
  lemma OverallOnce(policy: Policy, events: seq<seq<nat>>, p: nat)
    requires p < |events|
    ensures multiset(Overall(policy, events))[p] == if Classify(policy, Duration(events[p])) == Over180 then 0 else 1
    ensures policy == AsWritten && Duration(events[p]) == 30 ==> p !in Overall(policy, events)
  {
    var s0 := Selected(policy, Under30, events);
    var s1 := Selected(policy, From30To60, events);
    var s2 := Selected(policy, From60To120, events);
    var s3 := Selected(policy, From120To180, events);
    assert OverallUpTo(policy, events, 1) == s0;
    assert OverallUpTo(policy, events, 2) == s0 + s1;
    assert OverallUpTo(policy, events, 3) == s0 + s1 + s2;
    assert Overall(policy, events) == s0 + s1 + s2 + s3;
    IncreasingOccursOnce(s0, p);
    IncreasingOccursOnce(s1, p);
    IncreasingOccursOnce(s2, p);
    IncreasingOccursOnce(s3, p);
    SelectedMembers(policy, Under30, events, |events|, p);
    SelectedMembers(policy, From30To60, events, |events|, p);
    SelectedMembers(policy, From60To120, events, |events|, p);
    SelectedMembers(policy, From120To180, events, |events|, p);
  }

  /**
   * No curve reaches the overall average exactly when every event is
   * classified `Over180`; under the written policy that includes the case of
   * events that all last 30 minutes.
   */
  lemma OverallEmpty(policy: Policy, events: seq<seq<nat>>)
    ensures Overall(policy, events) == [] <==>
      forall j :: 0 <= j < |events| ==> Classify(policy, Duration(events[j])) == Over180
  {
    forall j | 0 <= j < |events|
      ensures Overall(policy, events) == [] ==> Classify(policy, Duration(events[j])) == Over180
    {
      OverallOnce(policy, events, j);
    }
    var ps := Overall(policy, events);
    if ps != [] {
      assert ps[0] in multiset(ps);
      OverallOnce(policy, events, ps[0]);
    }
  }
}
