/**
 * The analysis run as a whole: check that the precipitation column exists,
 * segment it into events, summarize and count them, collect the normalized
 * curves per category and overall, and lay out the exported workbook.
 */
module Pipeline {
  import opened Timeline
  import opened Segmentation
  import opened Summary
  import opened Curves
  import opened Export

  datatype Option<T> = None | Some(value: T)

  /**
   * Where the program as written stops after segmenting. With no event the
   * summary table has no `Categoria` column, so the category count fails; with
   * events but no curve for the overall average, the average and its fit fail.
   */
  datatype Stop = EmptyTable | NoOverallCurves

  /**
   * The run fails before segmenting when the column is missing, stops at one
   * of the points above, or yields a report.
   */
  datatype Outcome = MissingColumn | Stopped(stop: Stop, events: seq<seq<nat>>) | Done(report: Report)

  /** Everything the analysis hands to display and export. */
  datatype Report = Report(
    events: seq<seq<nat>>,
    table: seq<EventSummary>,
    counts: map<Category, nat>,
    perCategory: seq<seq<seq<real>>>,
    all: seq<seq<real>>,
    workbook: seq<Sheet>)

  /**
   * Whether the program stops on these events, and where. The written program
   * stops on no events and on events that are all `>180 min`; the corrected
   * one reports an empty table and leaves out the overall pattern instead.
   */
  function StopOf(policy: Policy, events: seq<seq<nat>>): (s: Option<Stop>)
    ensures s == Some(EmptyTable) <==> policy == AsWritten && events == []
    ensures s == Some(NoOverallCurves) <==>
      && policy == AsWritten
      && events != []
      && forall j :: 0 <= j < |events| ==> Classify(policy, Duration(events[j])) == Over180
    ensures s.None? <==> policy == Corrected || Overall(policy, events) != []
  {
    OverallEmpty(policy, events);
    if policy.Corrected? then None
    else if events == [] then Some(EmptyTable)
    else if Overall(policy, events) == [] then Some(NoOverallCurves)
    else None
  }

  /**
   * Runs the analysis on the decoded `Precipitacion` column, `None` when the
   * file has no such column.
   */
  method Analyze(policy: Policy, precipitation: Option<seq<real>>) returns (r: Outcome)
    ensures precipitation.None? <==> r.MissingColumn?
    ensures r.Stopped? ==>
      && precipitation.Some?
      && IsSegmentation(precipitation.value, r.events)
      && StopOf(policy, r.events) == Some(r.stop)
    ensures (r.Stopped? && r.stop == EmptyTable) <==>
      && policy == AsWritten
      && precipitation.Some?
      && forall p :: 0 <= p < |precipitation.value| ==> precipitation.value[p] <= Threshold
    ensures policy == Corrected ==> !r.Stopped?
    ensures r.Done? ==>
      var v, rep := precipitation.value, r.report;
      && IsSegmentation(v, rep.events)
      && StopOf(policy, rep.events).None?
      && |rep.table| == |rep.events|
      && Summarizable(v, rep.events)
      && (forall j :: 0 <= j < |rep.events| ==> rep.table[j] == Summarize(policy, v, rep.events[j]))
      && rep.counts == CategoryCounts(rep.table)
      && AllRuns(v, rep.events)
      && |rep.perCategory| == |CurveCategories|
      && PerCategoryOf(policy, v, rep.events, rep.perCategory)
      && CurvesOf(v, rep.events, Overall(policy, rep.events), rep.all)
      && rep.workbook == Workbook(rep.table)
  {
    if precipitation.None? {
      return MissingColumn;
    }
    var v := precipitation.value;
    var events := Segment(v);
    EventsIffRain(v, events);
    if policy.AsWritten? && events == [] {
      return Stopped(EmptyTable, events);
    }
    SegmentationSummarizable(v, events);
    var table := SummarizeAll(policy, v, events);
    var counts := CategoryCounts(table);
    var perCategory, all := CollectCurves(policy, v, events);
    if policy.AsWritten? && all == [] {
      return Stopped(NoOverallCurves, events);
    }
    var workbook := Workbook(table);
    r := Done(Report(events, table, counts, perCategory, all, workbook));
  }

  /**
   * A series without rain, empty or not: the written program stops at the
   * category count, the corrected one goes on with no events.
   */
  lemma DrySeriesStops(v: seq<real>, events: seq<seq<nat>>)
    requires IsSegmentation(v, events)
    requires forall p :: 0 <= p < |v| ==> v[p] <= Threshold
    ensures StopOf(AsWritten, events) == Some(EmptyTable)
    ensures StopOf(Corrected, events).None?
  {
    NoRainNoEvents(v, events);
  }

  /** One shower of six rows, 30 minutes long. */
  const ThirtySeries: seq<real> := [0.0, 1.0, 1.0, 1.0, 1.0, 1.0, 1.0, 0.0]

  /**
   * The only event of the series lasts 30 minutes: the written program files
   * it `>180 min`, has no curve to average and stops; the corrected one does not.
   */
  lemma ThirtyMinuteSeriesStops(events: seq<seq<nat>>)
    requires IsSegmentation(ThirtySeries, events)
    ensures events == [[1, 2, 3, 4, 5, 6]]
    ensures StopOf(AsWritten, events) == Some(NoOverallCurves)
    ensures StopOf(Corrected, events).None?
  {
    var v := ThirtySeries;
    var only: seq<nat> := [1, 2, 3, 4, 5, 6];
    assert IsRun(v, only) && IsMaximal(v, only);
    forall i | 0 <= i < |v| && Rainy(v, i)
      ensures exists j :: 0 <= j < |[only]| && i in [only][j]
    {
      assert i in [only][0];
    }
    SegmentationUnique(v, events, [only]);
    assert Duration(only) == 30;
  }

  /** Series of the worked example: two showers separated by dry rows. */
  const ExampleSeries: seq<real> := [0.0, 5.0, 5.0, 0.0, 0.0, 3.0, 3.0, 3.0, 3.0, 0.0]

  /** The events of the worked example: rows 1-2 and rows 5-8. */
  const ExampleEvents: seq<seq<nat>> := [[1, 2], [5, 6, 7, 8]]

  /** The two showers of the example are maximal runs of rain covering every rainy row. */
  lemma ExampleIsSegmentation()
    ensures IsSegmentation(ExampleSeries, ExampleEvents)
  {
    var v := ExampleSeries;
    assert IsRun(v, ExampleEvents[0]) && IsMaximal(v, ExampleEvents[0]);
    assert IsRun(v, ExampleEvents[1]) && IsMaximal(v, ExampleEvents[1]);
    forall i | 0 <= i < |v| && Rainy(v, i)
      ensures exists j :: 0 <= j < |ExampleEvents| && i in ExampleEvents[j]
    {
      if i <= 2 {
        assert i in ExampleEvents[0];
      } else {
        assert i in ExampleEvents[1];
      }
    }
  }

  /** The example series has exactly two events, rows 1-2 and rows 5-8. */
  lemma ExampleSegmentation(events: seq<seq<nat>>)
    requires IsSegmentation(ExampleSeries, events)
    ensures events == ExampleEvents
  {
    ExampleIsSegmentation();
    SegmentationUnique(ExampleSeries, events, ExampleEvents);
  }

  /** The first shower of the example: ten minutes with 10 mm, peaking at row 1. */
  lemma ExampleFirstSummary()
    ensures Summarize(AsWritten, ExampleSeries, ExampleEvents[0]) == EventSummary(Under30, 5, 10, 10, 10.0, 5, 5.0)
  {
    var e: seq<nat> := [1, 2];
    assert ExampleEvents[0] == e;
    var xs := Values(ExampleSeries, e);
    assert xs[0] == 5.0 && xs[1] == 5.0;
    assert xs[..1] == [5.0] && xs[..1][..0] == [];
    assert PeakIndex(xs) == 0;
    assert Sum(xs[..1]) == 5.0;
    assert Sum(xs) == 10.0;
    assert Last(e) == 2 && Duration(e) == 10;
  }

  /**
   * The second shower of the example: twenty minutes with 12 mm, its peak
   * first reached at row 5; still shorter than 30 minutes.
   */
  lemma ExampleSecondSummary()
    ensures Summarize(AsWritten, ExampleSeries, ExampleEvents[1]) == EventSummary(Under30, 25, 40, 20, 12.0, 25, 3.0)
  {
    var e: seq<nat> := [5, 6, 7, 8];
    assert ExampleEvents[1] == e;
    var ys := Values(ExampleSeries, e);
    assert ys[0] == 3.0 && ys[1] == 3.0 && ys[2] == 3.0 && ys[3] == 3.0;
    assert ys[..3][..2] == ys[..2] && ys[..2][..1] == ys[..1] && ys[..1][..0] == [];
    assert PeakIndex(ys[..1]) == 0;
    assert PeakIndex(ys[..2]) == 0;
    assert PeakIndex(ys[..3]) == 0;
    assert PeakIndex(ys) == 0;
    assert Sum(ys[..1]) == 3.0;
    assert Sum(ys[..2]) == 6.0;
    assert Sum(ys[..3]) == 9.0;
    assert Sum(ys) == 12.0;
    assert Last(e) == 8 && Duration(e) == 20;
  }
}
