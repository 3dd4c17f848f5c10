/**
 * The KPI snapshot the dashboard shows for the selected period
 * (kpis_basicos): totals, mean depth, energy efficiency, pump hours and
 * the rain of the trailing day.
 */
module Kpis {
  import opened Telemetry

  datatype Kpi = Kpi(
    meanDepthCm: real,
    totalEnergyKwh: real,
    totalVolumeM3: real,
    efficiency: Option<real>,  // kWh per cubic metre; absent when no volume was pumped
    pumpHours: nat,
    rain24hMm: real)

  function Summarize(s: seq<Obs>): (k: Kpi)
    requires |s| > 0
    ensures k.efficiency.Some? <==> k.totalVolumeM3 > 0.0
    ensures k.efficiency.Some? ==> k.efficiency.value * k.totalVolumeM3 == k.totalEnergyKwh
    ensures k.pumpHours == |PumpRows(s)| <= |s|
  {
    PumpRowsCount(s);
    var energy := Total(s, Energy);
    var volume := Total(s, Flow);
    Kpi(Mean(s, Depth), energy, volume, Ratio(energy, volume), PumpHours(s),
        Total(Trailing(s, DayHours), Rain))
  }

  /** With non-negative rain, the trailing-day rain is between 0 and the period's total rain. */
  lemma RainWithinTotal(s: seq<Obs>)
    requires |s| > 0 && NonNegative(s, Rain)
    ensures 0.0 <= Summarize(s).rain24hMm <= Total(s, Rain)
  {
    WindowTotalBounds(s, MaxTime(s) - DayHours, Rain);
  }

  /**
   * On a sorted series the trailing-day rain is the rain of a non-empty
   * suffix: exactly the rows at most 24 hours older than the last one.
   */
  lemma RainOfLastDay(s: seq<Obs>) returns (k: nat)
    requires |s| > 0 && Sorted(s)
    ensures k < |s| && Summarize(s).rain24hMm == Total(s[k..], Rain)
    ensures forall i :: 0 <= i < k ==> s[i].timestamp < s[|s| - 1].timestamp - DayHours
    ensures forall i :: k <= i < |s| ==> s[i].timestamp >= s[|s| - 1].timestamp - DayHours
  {
    SortedMaxIsLast(s);
    k := WindowIsSuffix(s, MaxTime(s) - DayHours);
    var k' := TrailingKeepsLatest(s, DayHours);
  }

  /** On a sorted series the period's rain is the rain before the trailing day plus the day's. */
  lemma RainSplitsAtDay(s: seq<Obs>) returns (k: nat)
    requires |s| > 0 && Sorted(s)
    ensures k < |s| && forall i :: 0 <= i < k ==> s[i].timestamp < s[|s| - 1].timestamp - DayHours
    ensures Total(s, Rain) == Total(s[..k], Rain) + Summarize(s).rain24hMm
  {
    k := RainOfLastDay(s);
    assert s[..k] + s[k..] == s;
    TotalAppend(s[..k], s[k..], Rain);
  }

  /** With non-negative rain on a sorted series, the trailing-day rain includes the last hour's. */
  lemma RainIncludesLastHour(s: seq<Obs>)
    requires |s| > 0 && Sorted(s) && NonNegative(s, Rain)
    ensures Summarize(s).rain24hMm >= s[|s| - 1].rainMm
  {
    var k := TrailingKeepsLatest(s, DayHours);
    var day := s[k..];
    assert NonNegative(day, Rain) by {
      assert forall i :: 0 <= i < |day| ==> day[i] == s[k + i];
    }
    TotalAtLeastLast(day, Rain);
  }

  /** The mean depth lies within any bounds the depth readings respect. */
  lemma MeanDepthWithin(s: seq<Obs>, lo: real, hi: real)
    requires |s| > 0
    requires forall i :: 0 <= i < |s| ==> lo <= s[i].depthCm <= hi
    ensures lo <= Summarize(s).meanDepthCm <= hi
  {
    MeanBounds(s, Depth, lo, hi);
  }
}
