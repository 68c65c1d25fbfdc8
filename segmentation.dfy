/**
 * Event segmentation: one forward pass over the precipitation column that
 * splits it into maximal runs of rows holding rain (value > 0).
 *
 * An event is kept as the sequence of the original row indices it buffered;
 * its readings and timestamps are looked up from those indices.
 */
module Segmentation {

  /** The rain threshold: a row belongs to an event when its value exceeds it. */
  const Threshold: real := 0.0

  /** Index of the last row of a non-empty event. */
  function Last(e: seq<nat>): nat
    requires |e| > 0
  {
    e[|e| - 1]
  }

  /** All indices of `e` address rows of `v`. */
  predicate InSeries(v: seq<real>, e: seq<nat>) {
    forall k :: 0 <= k < |e| ==> e[k] < |v|
  }

  /** The readings of the rows an event holds, in order. */
  function Values(v: seq<real>, e: seq<nat>): (xs: seq<real>)
    requires InSeries(v, e)
    ensures |xs| == |e|
    ensures forall k :: 0 <= k < |e| ==> xs[k] == v[e[k]]
  {
    if e == [] then [] else Values(v, e[..|e| - 1]) + [v[Last(e)]]
  }

  /** Row `p` holds rain. */
  predicate Rainy(v: seq<real>, p: nat)
    requires p < |v|
  {
    v[p] > Threshold
  }

  /** A non-empty run of consecutive rows of `v`, every one holding rain. */
  ghost predicate IsRun(v: seq<real>, e: seq<nat>) {
    && |e| > 0
    && e[0] + |e| <= |v|
    && (forall k :: 0 <= k < |e| ==> e[k] == e[0] + k && v[e[k]] > Threshold)
  }

  /** A run that cannot be extended: the rows just before and after it are dry or absent. */
  ghost predicate IsMaximal(v: seq<real>, e: seq<nat>)
    requires IsRun(v, e)
  {
    && (e[0] == 0 || v[e[0] - 1] <= Threshold)
    && (Last(e) + 1 == |v| || v[Last(e) + 1] <= Threshold)
  }

  /**
   * `events` is the segmentation of `v`: maximal runs in increasing index
   * order that together hold every rainy row.
   */
  ghost predicate IsSegmentation(v: seq<real>, events: seq<seq<nat>>) {
    && (forall j :: 0 <= j < |events| ==> IsRun(v, events[j]) && IsMaximal(v, events[j]))
    && (forall j, k :: 0 <= j < k < |events| ==> Last(events[j]) < events[k][0])
    && (forall i :: 0 <= i < |v| && Rainy(v, i) ==> exists j :: 0 <= j < |events| && i in events[j])
  }

  /** Row `p` belongs to one of `events`. */
  ghost predicate Covered(events: seq<seq<nat>>, p: nat) {
    exists j :: 0 <= j < |events| && p in events[j]
  }

  /** What the scan knows after the rows before `i`: closed `events` and the open buffer `current`. */
  ghost predicate Scanned(v: seq<real>, events: seq<seq<nat>>, current: seq<nat>, i: nat) {
    && i <= |v|
    && (forall j :: 0 <= j < |events| ==> IsRun(v, events[j]) && IsMaximal(v, events[j]) && Last(events[j]) < i)
    && (forall j, k :: 0 <= j < k < |events| ==> Last(events[j]) < events[k][0])
    && (current != [] ==> IsRun(v, current) && Last(current) == i - 1)
    && (current != [] ==> current[0] == 0 || v[current[0] - 1] <= Threshold)
    && (current != [] && events != [] ==> Last(events[|events| - 1]) < current[0])
    && (current == [] && i > 0 ==> v[i - 1] <= Threshold)
    && (forall p :: 0 <= p < i && Rainy(v, p) ==> p in current || Covered(events, p))
  }

  /** A rainy row extends the open buffer. */
  lemma RainStep(v: seq<real>, events: seq<seq<nat>>, current: seq<nat>, i: nat)
    requires Scanned(v, events, current, i) && i < |v| && v[i] > Threshold
    ensures Scanned(v, events, current + [i], i + 1)
  {
    var current' := current + [i];
    assert current'[0] == if current == [] then i else current[0];
    assert forall p :: p in current ==> p in current';
  }

  /** Closing a non-empty open buffer makes it the last event. */
  lemma FlushCovers(events: seq<seq<nat>>, current: seq<nat>, p: nat)
    requires p in current || Covered(events, p)
    ensures Covered(events + [current], p)
  {
    var events' := events + [current];
    if p in current {
      assert p in events'[|events|];
    } else {
      var j :| 0 <= j < |events| && p in events[j];
      assert p in events'[j];
    }
  }

  /** The scan state right after a buffer is flushed at row `i`: only closed events. */
  ghost predicate Closed(v: seq<real>, events: seq<seq<nat>>, i: nat) {
    && i <= |v|
    && (forall j :: 0 <= j < |events| ==> IsRun(v, events[j]) && IsMaximal(v, events[j]) && Last(events[j]) < i)
    && (forall j, k :: 0 <= j < k < |events| ==> Last(events[j]) < events[k][0])
    && (forall p :: 0 <= p < i && Rainy(v, p) ==> Covered(events, p))
  }

  /** An open buffer followed by a dry row or the end of the series is a maximal run: flushing it closes it. */
  lemma Close(v: seq<real>, events: seq<seq<nat>>, current: seq<nat>, i: nat)
    requires Scanned(v, events, current, i) && current != []
    requires i < |v| ==> v[i] <= Threshold
    ensures Closed(v, events + [current], i)
  {
    var events' := events + [current];
    assert events'[|events|] == current;
    assert forall j :: 0 <= j < |events| ==> events'[j] == events[j];
    forall p | 0 <= p < i && Rainy(v, p)
      ensures Covered(events', p)
    {
      FlushCovers(events, current, p);
    }
  }

  /** A dry row after closed events leaves them closed with nothing open. */
  lemma ClosedDry(v: seq<real>, events: seq<seq<nat>>, i: nat)
    requires Closed(v, events, i) && i < |v| && v[i] <= Threshold
    ensures Scanned(v, events, [], i + 1)
  {
    assert !Rainy(v, i);
  }

  /** A dry row closes the open buffer, if any, and leaves none open. */
  lemma DryStep(v: seq<real>, events: seq<seq<nat>>, current: seq<nat>, i: nat)
    requires Scanned(v, events, current, i) && i < |v| && v[i] <= Threshold
    ensures current == [] ==> Scanned(v, events, [], i + 1)
    ensures current != [] ==> Scanned(v, events + [current], [], i + 1)
  {
    if current != [] {
      Close(v, events, current, i);
      ClosedDry(v, events + [current], i);
    } else {
      assert Closed(v, events, i);
      ClosedDry(v, events, i);
    }
  }

  /** At the end of the series, the buffer still open is the final event. */
  lemma Finish(v: seq<real>, events: seq<seq<nat>>, current: seq<nat>)
    requires Scanned(v, events, current, |v|)
    ensures current == [] ==> IsSegmentation(v, events)
    ensures current != [] ==> IsSegmentation(v, events + [current])
  {
    if current != [] {
      Close(v, events, current, |v|);
      ClosedSegmentation(v, events + [current]);
    } else {
      assert Closed(v, events, |v|);
      ClosedSegmentation(v, events);
    }
  }

  /** Closed events that reach the end of the series are its segmentation. */
  lemma ClosedSegmentation(v: seq<real>, events: seq<seq<nat>>)
    requires Closed(v, events, |v|)
    ensures IsSegmentation(v, events)
  {
  }

  /**
   * The segmentation loop: rainy rows are appended to the open buffer, a dry
   * row flushes a non-empty buffer as an event, and a buffer still open at the
   * end of the series is flushed once more.
   */
  method Segment(v: seq<real>) returns (events: seq<seq<nat>>)
    ensures IsSegmentation(v, events)
  {
    events := [];
    var current: seq<nat> := [];
    for i := 0 to |v|
      invariant Scanned(v, events, current, i)
    {
      if v[i] > Threshold {
        RainStep(v, events, current, i);
        current := current + [i];
      } else {
        DryStep(v, events, current, i);
        if current != [] {
          events := events + [current];
          current := [];
        }
      }
    }
    Finish(v, events, current);
    if current != [] {
      events := events + [current];
    }
  }

  // ---------------------------------------------------------------------
  // Properties of a segmentation
  // ---------------------------------------------------------------------

  /** A row of a run lies between its first and its last row. */
  lemma RunSpan(v: seq<real>, e: seq<nat>, p: nat)
    requires IsRun(v, e) && p in e
    ensures e[0] <= p <= Last(e) && p < |v| && Rainy(v, p)
  {
    var k :| 0 <= k < |e| && e[k] == p;
  }

  /** The `k`-th row of a run is its first row plus `k`, and it holds rain. */
  lemma RunAt(v: seq<real>, e: seq<nat>, k: nat)
    requires IsRun(v, e) && k < |e|
    ensures e[k] == e[0] + k && e[k] < |v| && Rainy(v, e[k])
  {
  }

  /** Every row between the ends of a run belongs to it. */
  lemma RunContains(v: seq<real>, e: seq<nat>, p: nat)
    requires IsRun(v, e) && e[0] <= p <= Last(e)
    ensures p in e
  {
    assert e[p - e[0]] == p;
  }

  /**
   * The events and the dry rows partition the rows of the series: a row is
   * rainy exactly when some event holds it, and no two events share a row.
   */
  lemma {:induction false} Partition(v: seq<real>, events: seq<seq<nat>>, p: nat)
    requires IsSegmentation(v, events) && p < |v|
    ensures Rainy(v, p) <==> Covered(events, p)
    ensures forall j, k :: 0 <= j < k < |events| && p in events[j] ==> p !in events[k]
  {
    if Covered(events, p) {
      var j :| 0 <= j < |events| && p in events[j];
      RunSpan(v, events[j], p);
    }
    forall j, k | 0 <= j < k < |events| && p in events[j]
      ensures p !in events[k]
    {
      RunSpan(v, events[j], p);
      if p in events[k] {
        RunSpan(v, events[k], p);
      }
    }
  }

  /** A series with no rainy row (in particular an empty one) has no events. */
  lemma NoRainNoEvents(v: seq<real>, events: seq<seq<nat>>)
    requires IsSegmentation(v, events)
    requires forall p :: 0 <= p < |v| ==> v[p] <= Threshold
    ensures events == []
  {
    if events != [] {
      StartIsRainStart(v, events, 0);
      assert false;
    }
  }

  /** A series has events exactly when some reading is above zero. */
  lemma EventsIffRain(v: seq<real>, events: seq<seq<nat>>)
    requires IsSegmentation(v, events)
    ensures events == [] <==> forall p :: 0 <= p < |v| ==> v[p] <= Threshold
  {
    if events == [] {
      forall p | 0 <= p < |v|
        ensures v[p] <= Threshold
      {
        assert !Rainy(v, p);
      }
    } else {
      var e := events[0];
      assert e[0] < |v| && Rainy(v, e[0]);
    }
  }

  /** In a series that rains on every row, a maximal run starts at the first row and ends at the last. */
  lemma SpanningRun(v: seq<real>, e: seq<nat>)
    requires IsRun(v, e) && IsMaximal(v, e)
    requires forall p :: 0 <= p < |v| ==> v[p] > Threshold
    ensures e[0] == 0 && Last(e) == |v| - 1
  {
  }

  /** When a segmentation has a second event, the first one ends before the last row. */
  lemma SecondEventLater(v: seq<real>, events: seq<seq<nat>>)
    requires IsSegmentation(v, events)
    ensures |events| > 1 ==> Last(events[0]) + 1 < |v|
  {
    if |events| > 1 {
      RunAt(v, events[1], 0);
    }
  }

  /**
   * A non-empty series whose rows all hold rain is one event spanning it,
   * the event that only the flush after the loop emits.
   */
  lemma AllRainOneEvent(v: seq<real>, events: seq<seq<nat>>)
    requires IsSegmentation(v, events) && |v| > 0
    requires forall p :: 0 <= p < |v| ==> v[p] > Threshold
    ensures |events| == 1
    ensures events[0] == seq(|v|, k => k)
  {
    assert Rainy(v, 0);
    var j :| 0 <= j < |events| && 0 in events[j];
    RunSpan(v, events[j], 0);
    var e := events[0];
    SpanningRun(v, e);
    SecondEventLater(v, events);
    assert |e| == |v|;
  }

  // ---------------------------------------------------------------------
  // A segmentation is unique
  // ---------------------------------------------------------------------

  /** Row `s` starts a stretch of rain: it is rainy and its predecessor is not. */
  ghost predicate StartsRain(v: seq<real>, s: nat) {
    s < |v| && Rainy(v, s) && (s == 0 || !Rainy(v, s - 1))
  }

  /** The first rows of the events, in order. */
  function Starts(events: seq<seq<nat>>): (r: seq<nat>)
    requires forall j :: 0 <= j < |events| ==> |events[j]| > 0
    ensures |r| == |events|
    ensures forall j :: 0 <= j < |events| ==> r[j] == events[j][0]
  {
    if events == [] then [] else Starts(events[..|events| - 1]) + [events[|events| - 1][0]]
  }

  ghost predicate StrictlyIncreasing(s: seq<nat>) {
    forall j, k :: 0 <= j < k < |s| ==> s[j] < s[k]
  }

  /** The starts of a segmentation increase with the events. */
  lemma StartsIncrease(v: seq<real>, events: seq<seq<nat>>)
    requires IsSegmentation(v, events)
    ensures StrictlyIncreasing(Starts(events))
  {
    var starts := Starts(events);
    forall j, k | 0 <= j < k < |starts|
      ensures starts[j] < starts[k]
    {
      assert IsRun(v, events[j]);
      assert Last(events[j]) < events[k][0];
    }
  }

  /** Every event starts a stretch of rain. */
  lemma StartIsRainStart(v: seq<real>, events: seq<seq<nat>>, j: nat)
    requires IsSegmentation(v, events) && j < |events|
    ensures StartsRain(v, events[j][0])
  {
    assert IsRun(v, events[j]) && IsMaximal(v, events[j]);
    assert v[events[j][0] + 0] > Threshold;
  }

  /** Every stretch of rain is started by an event. */
  lemma RainStartIsStart(v: seq<real>, events: seq<seq<nat>>, s: nat)
    requires IsSegmentation(v, events) && StartsRain(v, s)
    ensures exists j :: 0 <= j < |events| && events[j][0] == s
  {
    var j :| 0 <= j < |events| && s in events[j];
    RunSpan(v, events[j], s);
    if events[j][0] < s {
      RunContains(v, events[j], s - 1);
      assert false;
    }
  }

  /** The starts of a segmentation are exactly the rows that start a stretch of rain, in order. */
  lemma StartsOfSegmentation(v: seq<real>, events: seq<seq<nat>>)
    requires IsSegmentation(v, events)
    ensures StrictlyIncreasing(Starts(events))
    ensures forall s :: s in Starts(events) <==> StartsRain(v, s)
  {
    StartsIncrease(v, events);
    var starts := Starts(events);
    forall s | s in starts
      ensures StartsRain(v, s)
    {
      var j :| 0 <= j < |starts| && starts[j] == s;
      StartIsRainStart(v, events, j);
    }
    forall s | StartsRain(v, s)
      ensures s in starts
    {
      RainStartIsStart(v, events, s);
      var j :| 0 <= j < |events| && events[j][0] == s;
      assert starts[j] == s;
    }
  }

  /** Two strictly increasing sequences with the same elements are equal. */
  lemma {:induction false} IncreasingUnique(a: seq<nat>, b: seq<nat>)
    requires StrictlyIncreasing(a) && StrictlyIncreasing(b)
    requires forall x :: x in a <==> x in b
    ensures a == b
    decreases |a|
  {
    if a != [] {
      assert a[0] in a;
    }
    if b != [] {
      assert b[0] in b;
    }
    if a != [] && b != [] {
      assert a[0] in b && b[0] in a;
      assert a[0] == b[0];
      forall x
        ensures x in a[1..] <==> x in b[1..]
      {
        if x in a[1..] {
          assert x in a && x != a[0];
        }
        if x in b[1..] {
          assert x in b && x != b[0];
        }
      }
      IncreasingUnique(a[1..], b[1..]);
      assert a == [a[0]] + a[1..];
      assert b == [b[0]] + b[1..];
    }
  }

  /** A maximal run is determined by its first row. */
  lemma SameStartSameRun(v: seq<real>, a: seq<nat>, b: seq<nat>)
    requires IsRun(v, a) && IsMaximal(v, a)
    requires IsRun(v, b) && IsMaximal(v, b)
    requires a[0] == b[0]
    ensures a == b
  {
    if |a| < |b| {
      RunAt(v, b, |a|);
      assert false;
    } else if |b| < |a| {
      RunAt(v, a, |b|);
      assert false;
    }
  }

  /**
   * The segmentation of a series is unique, so `Segment` computes the one
   * list of events `IsSegmentation` describes.
   */
  lemma SegmentationUnique(v: seq<real>, events1: seq<seq<nat>>, events2: seq<seq<nat>>)
    requires IsSegmentation(v, events1) && IsSegmentation(v, events2)
    ensures events1 == events2
  {
    StartsOfSegmentation(v, events1);
    StartsOfSegmentation(v, events2);
    IncreasingUnique(Starts(events1), Starts(events2));
    assert |events1| == |events2|;
    forall j | 0 <= j < |events1|
      ensures events1[j] == events2[j]
    {
      SameStartSameRun(v, events1[j], events2[j]);
    }
  }
}
