/**
 * The dashboard's period selector and one refresh: the selected period is
 * cut from the series by the same trailing-window filter, and both the
 * KPI snapshot and the recommender are computed on that view.
 */
module Dashboard {
  import opened Telemetry
  import opened Kpis
  import opened Recommender

  datatype Period = Last24Hours | Last3Days | Last7Days | Everything

  /** Length of a bounded period in hours. */
  function PeriodHours(p: Period): (h: int)
    requires p != Everything
    ensures h >= DayHours
  {
    match p
    case Last24Hours => DayHours
    case Last3Days => 3 * DayHours
    case Last7Days => 7 * DayHours
  }

  /** The rows of the selected period, measured back from the series' latest timestamp. */
  function PeriodView(s: seq<Obs>, p: Period): (v: seq<Obs>)
    requires |s| > 0
    ensures |v| > 0 && MaxTime(v) == MaxTime(s)
  {
    if p == Everything then s
    else
      WindowKeepsMaxTime(s, MaxTime(s) - PeriodHours(p));
      Window(s, MaxTime(s) - PeriodHours(p))
  }

  /**
   * On a sorted series every period is a non-empty suffix holding the last
   * row, and the rows it drops are exactly those before the cut-off.
   */
  lemma PeriodViewIsSuffix(s: seq<Obs>, p: Period) returns (k: nat)
    requires |s| > 0 && Sorted(s)
    ensures k < |s| && PeriodView(s, p) == s[k..]
    ensures p == Everything ==> k == 0
    ensures p != Everything ==> forall i :: 0 <= i < |s| ==> (i < k <==> s[i].timestamp < MaxTime(s) - PeriodHours(p))
  {
    if p == Everything {
      k := 0;
    } else {
      var since := MaxTime(s) - PeriodHours(p);
      assert PeriodView(s, p) == Window(s, since);
      SortedMaxIsLast(s);
      k := WindowIsSuffix(s, since);
    }
  }

  /** Any period at least a day long has the same trailing windows of up to a day as the full series. */
  lemma ViewKeepsTrailing(s: seq<Obs>, p: Period, hours: int)
    requires |s| > 0 && 0 <= hours <= DayHours
    ensures Trailing(PeriodView(s, p), hours) == Trailing(s, hours)
  {
    if p != Everything {
      WindowOfWindow(s, MaxTime(s) - PeriodHours(p), MaxTime(s) - hours);
    }
  }

  /** On a sorted series every period ends with the series' last row. */
  lemma ViewKeepsLastRow(s: seq<Obs>, p: Period)
    requires |s| > 0 && Sorted(s)
    ensures PeriodView(s, p)[|PeriodView(s, p)| - 1] == s[|s| - 1]
  {
    var k := PeriodViewIsSuffix(s, p);
  }

  /**
   * The recommender sees the period view. Its 24-hour and 6-hour windows
   * and the last row are the same as on the full series, so the rain and
   * depth rules and the recent efficiency agree; only the baseline, taken
   * over the view's pump-on rows, may differ.
   */
  lemma ViewKeepsRecentFeatures(s: seq<Obs>, p: Period)
    requires |s| > 0 && Sorted(s)
    ensures FeaturesOf(PeriodView(s, p)).rain24hMm == FeaturesOf(s).rain24hMm
    ensures FeaturesOf(PeriodView(s, p)).depthNowCm == FeaturesOf(s).depthNowCm
    ensures FeaturesOf(PeriodView(s, p)).recent == FeaturesOf(s).recent
  {
    ViewKeepsTrailing(s, p, DayHours);
    ViewKeepsTrailing(s, p, RecentHours);
    ViewKeepsLastRow(s, p);
  }

  /**
   * One refresh of the dashboard tab: the KPI snapshot and the
   * recommendation, both on the period view. On a sorted series the
   * recommendation reads the full series' recent inputs and only the
   * baseline comes from the view.
   */
  method Refresh(s: seq<Obs>, p: Period) returns (k: Kpi, level: Severity, msgs: seq<Message>)
    requires |s| > 0
    ensures k == Summarize(PeriodView(s, p))
    ensures level == Level(FeaturesOf(PeriodView(s, p)))
    ensures msgs == Messages(FeaturesOf(PeriodView(s, p)))
    ensures Sorted(s) ==>
      FeaturesOf(PeriodView(s, p)) ==
      Features(FeaturesOf(s).rain24hMm, FeaturesOf(s).depthNowCm, FeaturesOf(s).recent, BaselineOf(PeriodView(s, p)))
  {
    if Sorted(s) {
      ViewKeepsRecentFeatures(s, p);
    }
    var view := PeriodView(s, p);
    k := Summarize(view);
    level, msgs := Recommend(view);
  }
}
