/**
 * Per-event summary and duration classification.
 *
 * For every event the summary loop records its start and end time, its
 * duration (rows times the interval), its total rainfall, its peak reading
 * and the time of the first row reaching that peak, and a duration category.
 */
module Summary {
  import opened Timeline
  import opened Segmentation

  /** The duration classes an event can fall in. */
  datatype Category = Under30 | From30To60 | From60To120 | From120To180 | Over180

  /**
   * Which duration classification to use: the chain as the program writes it,
   * which sends a duration of exactly 30 minutes to `Over180`, or the evidently
   * intended one, which puts it in `From30To60`.
   */
  datatype Policy = AsWritten | Corrected

  /** The five categories, in the order the program lists them. */
  const AllCategories: seq<Category> := [Under30, From30To60, From60To120, From120To180, Over180]

  /** The category label the program stores in the event table. */
  function Label(c: Category): (s: string)
    ensures |s| >= 7 && s[|s| - 4..] == " min"
  {
    match c
    case Under30 => "<30 min"
    case From30To60 => "30-60 min"
    case From60To120 => "60-120 min"
    case From120To180 => "120-180 min"
    case Over180 => ">180 min"
  }

  /**
   * The classification chain as written: every band but the first is open at
   * its lower end, so a duration of 30 fails every test and takes the final
   * branch.
   */
  function ClassifyAsWritten(d: int): (c: Category)
    ensures c == Under30 <==> d < 30
    ensures c == From30To60 <==> 30 < d <= 60
    ensures c == From60To120 <==> 60 < d <= 120
    ensures c == From120To180 <==> 120 < d <= 180
    ensures c == Over180 <==> d == 30 || d > 180
  {
    if d < 30 then Under30
    else if 30 < d <= 60 then From30To60
    else if 60 < d <= 120 then From60To120
    else if 120 < d <= 180 then From120To180
    else Over180
  }

  /** The intended classification: consecutive bands that leave no duration out. */
  function ClassifyCorrected(d: int): (c: Category)
    ensures c == Under30 <==> d < 30
    ensures c == From30To60 <==> 30 <= d <= 60
    ensures c == From60To120 <==> 60 < d <= 120
    ensures c == From120To180 <==> 120 < d <= 180
    ensures c == Over180 <==> d > 180
  {
    if d < 30 then Under30
    else if d <= 60 then From30To60
    else if d <= 120 then From60To120
    else if d <= 180 then From120To180
    else Over180
  }

  /** The category of a duration under a policy. */
  function Classify(policy: Policy, d: int): (c: Category)
    ensures c == Over180 <==> d > 180 || (policy == AsWritten && d == 30)
  {
    match policy
    case AsWritten => ClassifyAsWritten(d)
    case Corrected => ClassifyCorrected(d)
  }

  /** The two policies disagree on exactly one duration, 30 minutes. */
  lemma PoliciesDifferOnlyAtThirty(d: int)
    ensures ClassifyAsWritten(d) != ClassifyCorrected(d) <==> d == 30
    ensures ClassifyAsWritten(30) == Over180 && ClassifyCorrected(30) == From30To60
  {
  }

  /** Duration of an event in minutes: one interval per row. */
  function Duration(e: seq<nat>): (d: nat)
    ensures d % Interval == 0 && d / Interval == |e|
  {
    |e| * Interval
  }

  /** Total rainfall of a sequence of readings. */
  function Sum(xs: seq<real>): (r: real)
  {
    if xs == [] then 0.0 else Sum(xs[..|xs| - 1]) + xs[|xs| - 1]
  }

  /** Readings that are all rain add up to a positive total. */
  lemma {:induction false} SumPositive(xs: seq<real>)
    requires |xs| > 0 && forall k :: 0 <= k < |xs| ==> xs[k] > 0.0
    ensures Sum(xs) > 0.0
  {
    if |xs| > 1 {
      SumPositive(xs[..|xs| - 1]);
    }
  }

  /**
   * Position of the peak reading; on a tie the first position, as `idxmax`
   * picks the first row holding the maximum.
   */
  function PeakIndex(xs: seq<real>): (k: nat)
    requires |xs| > 0
    ensures k < |xs|
    ensures forall j :: 0 <= j < |xs| ==> xs[j] <= xs[k]
    ensures forall j :: 0 <= j < k ==> xs[j] < xs[k]
  {
    if |xs| == 1 then 0
    else
      var k := PeakIndex(xs[..|xs| - 1]);
      if xs[|xs| - 1] > xs[k] then |xs| - 1 else k
  }

  /** One row of the event table. */
  datatype EventSummary = EventSummary(
    category: Category,
    start: int,
    end: int,
    duration: nat,
    total: real,
    peakTime: int,
    peakValue: real)

  /** The summary of one event. */
  function Summarize(policy: Policy, v: seq<real>, e: seq<nat>): (s: EventSummary)
    requires |e| > 0 && InSeries(v, e)
    ensures s.start == TimeOf(e[0]) && s.end == TimeOf(Last(e))
    ensures s.duration == Interval * |e|
    ensures s.total == Sum(Values(v, e))
    ensures forall k :: 0 <= k < |e| ==> v[e[k]] <= s.peakValue
    ensures exists k :: 0 <= k < |e| && s.peakValue == v[e[k]] && s.peakTime == TimeOf(e[k])
                        && forall j :: 0 <= j < k ==> v[e[j]] < s.peakValue
    ensures s.category == Classify(policy, s.duration)
  {
    var xs := Values(v, e);
    var k := PeakIndex(xs);
    var d := Duration(e);
    EventSummary(Classify(policy, d), TimeOf(e[0]), TimeOf(Last(e)), d, Sum(xs), TimeOf(e[k]), xs[k])
  }

  /** The summary's times are read from the series' timestamp column. */
  lemma SummaryStamps(policy: Policy, v: seq<real>, e: seq<nat>)
    requires |e| > 0 && InSeries(v, e)
    ensures Summarize(policy, v, e).start == Timestamps(|v|)[e[0]]
    ensures Summarize(policy, v, e).end == Timestamps(|v|)[Last(e)]
    ensures exists k :: 0 <= k < |e| && Summarize(policy, v, e).peakTime == Timestamps(|v|)[e[k]]
  {
    StampOfRow(|v|, e[0]);
    StampOfRow(|v|, Last(e));
    forall k | 0 <= k < |e|
      ensures Timestamps(|v|)[e[k]] == TimeOf(e[k])
    {
      StampOfRow(|v|, e[k]);
    }
  }

  /**
   * For an event of the segmentation, the end is one interval before start
   * plus duration, the peak lies within the event, and the total is positive.
   */
  lemma SummaryOfRun(policy: Policy, v: seq<real>, e: seq<nat>)
    requires IsRun(v, e)
    ensures InSeries(v, e)
    ensures Summarize(policy, v, e).end - Summarize(policy, v, e).start == Summarize(policy, v, e).duration - Interval
    ensures Summarize(policy, v, e).start <= Summarize(policy, v, e).peakTime <= Summarize(policy, v, e).end
    ensures Summarize(policy, v, e).total > 0.0
  {
    var s := Summarize(policy, v, e);
    assert Last(e) == e[0] + |e| - 1;
    var k :| 0 <= k < |e| && s.peakValue == v[e[k]] && s.peakTime == TimeOf(e[k])
             && forall j :: 0 <= j < k ==> v[e[j]] < s.peakValue;
    assert e[k] == e[0] + k;
    SumPositive(Values(v, e));
  }

  /**
   * An event of six rows lasts exactly 30 minutes: the chain as written files
   * it under `Over180`, the corrected one under `From30To60`.
   */
  lemma SixRowEvent(v: seq<real>, e: seq<nat>)
    requires |e| == 6 && InSeries(v, e)
    ensures Summarize(AsWritten, v, e).category == Over180
    ensures Summarize(Corrected, v, e).category == From30To60
  {
  }

  /** Events whose every row lies in the series. */
  ghost predicate Summarizable(v: seq<real>, events: seq<seq<nat>>) {
    forall j :: 0 <= j < |events| ==> |events[j]| > 0 && InSeries(v, events[j])
  }

  /** Every event of a segmentation can be summarized. */
  lemma SegmentationSummarizable(v: seq<real>, events: seq<seq<nat>>)
    requires IsSegmentation(v, events)
    ensures Summarizable(v, events)
  {
    forall j | 0 <= j < |events|
      ensures |events[j]| > 0 && InSeries(v, events[j])
    {
      assert IsRun(v, events[j]);
    }
  }

  /** The summary loop: one table row per event, in event order. */
  method SummarizeAll(policy: Policy, v: seq<real>, events: seq<seq<nat>>) returns (table: seq<EventSummary>)
    requires Summarizable(v, events)
    ensures |table| == |events|
    ensures forall j :: 0 <= j < |events| ==> table[j] == Summarize(policy, v, events[j])
  {
    table := [];
    for j := 0 to |events|
      invariant |table| == j
      invariant forall i :: 0 <= i < j ==> table[i] == Summarize(policy, v, events[i])
    {
      table := table + [Summarize(policy, v, events[j])];
    }
  }

  // ---------------------------------------------------------------------
  // Events per category
  // ---------------------------------------------------------------------

  /** The category column of the table. */
  function Categories(table: seq<EventSummary>): (cs: seq<Category>)
    ensures |cs| == |table|
    ensures forall j :: 0 <= j < |table| ==> cs[j] == table[j].category
  {
    seq(|table|, j requires 0 <= j < |table| => table[j].category)
  }

  /** Number of table rows in category `c`: how often `c` occurs in the category column. */
  function CountOf(table: seq<EventSummary>, c: Category): (n: nat)
    ensures n <= |table|
    ensures n == multiset(Categories(table))[c]
  {
    if table == [] then 0
    else
      var init := table[..|table| - 1];
      assert Categories(table) == Categories(init) + [table[|table| - 1].category];
      CountOf(init, c) + (if table[|table| - 1].category == c then 1 else 0)
  }

  /** The category count: every category present in the table with its number of rows. */
  function CategoryCounts(table: seq<EventSummary>): (m: map<Category, nat>)
    ensures forall c :: c in m <==> CountOf(table, c) > 0
    ensures forall c :: c in m ==> m[c] == CountOf(table, c)
  {
    map c | c in AllCategories && CountOf(table, c) > 0 :: CountOf(table, c)
  }

  /** The count of `c`, zero when the category is absent. */
  function CountOr0(m: map<Category, nat>, c: Category): nat {
    if c in m then m[c] else 0
  }

  /** Each row is counted in exactly one category. */
  lemma {:induction false} RowsCountedOnce(table: seq<EventSummary>)
    ensures CountOf(table, Under30) + CountOf(table, From30To60) + CountOf(table, From60To120)
            + CountOf(table, From120To180) + CountOf(table, Over180) == |table|
  {
    if table != [] {
      RowsCountedOnce(table[..|table| - 1]);
    }
  }

  /** The category counts add up to the number of events. */
  lemma CountsAddUp(table: seq<EventSummary>)
    ensures var m := CategoryCounts(table);
            CountOr0(m, Under30) + CountOr0(m, From30To60) + CountOr0(m, From60To120)
            + CountOr0(m, From120To180) + CountOr0(m, Over180) == |table|
  {
    RowsCountedOnce(table);
  }
}
