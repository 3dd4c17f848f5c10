/**
 * The hourly irrigation telemetry series and the column operations the
 * dashboard performs on it: column sums, the latest timestamp, the
 * "rows at or after a timestamp" filter behind every trailing window,
 * and the pump-on selection.
 */
module Telemetry {

  datatype Option<T> = None | Some(value: T)

  /** One hourly sample. Timestamps are whole hours. */
  datatype Obs = Obs(
    timestamp: int,
    depthCm: real,    // water-sheet depth
    flowM3h: real,    // pumped flow; one hourly row is that many cubic metres
    energyKwh: real,
    rainMm: real,
    pumpOn: bool)

  /** One day in hours: the span of the dashboard's shortest period and of the trailing rain window. */
  const DayHours: int := 24

  /** The recommender's recent window, in hours. */
  const RecentHours: int := 6

  /** The numeric columns of the series. */
  datatype Column = Depth | Flow | Energy | Rain

  function Value(o: Obs, c: Column): real
  {
    match c
    case Depth => o.depthCm
    case Flow => o.flowM3h
    case Energy => o.energyKwh
    case Rain => o.rainMm
  }

  /** Ascending timestamps; duplicates are allowed. */
  predicate Sorted(s: seq<Obs>)
  {
    forall i, j :: 0 <= i < j < |s| ==> s[i].timestamp <= s[j].timestamp
  }

  predicate NonNegative(s: seq<Obs>, c: Column)
  {
    forall i :: 0 <= i < |s| ==> Value(s[i], c) >= 0.0
  }

  /** Column sum; the sum of no rows is 0. */
  function Total(s: seq<Obs>, c: Column): real
  {
    if s == [] then 0.0 else Value(s[0], c) + Total(s[1..], c)
  }

  /** Arithmetic mean of a column over a non-empty series. */
  function Mean(s: seq<Obs>, c: Column): (m: real)
    requires |s| > 0
    ensures m * (|s| as real) == Total(s, c)
  {
    Total(s, c) / (|s| as real)
  }

  /** The guarded quotient: present exactly when the volume is positive. */
  function Ratio(energy: real, volume: real): (r: Option<real>)
    ensures r.Some? <==> volume > 0.0
    ensures r.Some? ==> r.value * volume == energy
  {
    if volume > 0.0 then Some(energy / volume) else None
  }

  /** The largest timestamp of a non-empty series, wherever it sits. */
  function MaxTime(s: seq<Obs>): (m: int)
    requires |s| > 0
    ensures forall i :: 0 <= i < |s| ==> s[i].timestamp <= m
    ensures exists i :: 0 <= i < |s| && s[i].timestamp == m
  {
    if |s| == 1 then s[0].timestamp
    else
      var rest := MaxTime(s[1..]);
      assert forall i :: 1 <= i < |s| ==> s[i] == s[1..][i - 1];
      if s[0].timestamp >= rest then s[0].timestamp else rest
  }

  /** The rows whose timestamp is at or after `since`, in their original order. */
  function Window(s: seq<Obs>, since: int): (w: seq<Obs>)
    ensures |w| <= |s|
  {
    if s == [] then []
    else if s[0].timestamp >= since then [s[0]] + Window(s[1..], since)
    else Window(s[1..], since)
  }

  /** The rows of the trailing `hours` measured from the series' own latest timestamp. */
  function Trailing(s: seq<Obs>, hours: int): (t: seq<Obs>)
    requires |s| > 0
    ensures |t| <= |s|
  {
    Window(s, MaxTime(s) - hours)
  }

  /** Number of rows with the pump on. */
  function PumpHours(s: seq<Obs>): (n: nat)
    ensures n <= |s|
  {
    if s == [] then 0 else (if s[0].pumpOn then 1 else 0) + PumpHours(s[1..])
  }

  /** The pump-on rows, in their original order. */
  function PumpRows(s: seq<Obs>): (p: seq<Obs>)
    ensures forall o :: o in p <==> o in s && o.pumpOn
  {
    if s == [] then []
    else if s[0].pumpOn then [s[0]] + PumpRows(s[1..])
    else PumpRows(s[1..])
  }

  // ---------------------------------------------------------------------
  // Lemmas about sums

  lemma {:induction false} TotalAppend(a: seq<Obs>, b: seq<Obs>, c: Column)
    ensures Total(a + b, c) == Total(a, c) + Total(b, c)
  {
    if a == [] {
      assert a + b == b;
    } else {
      assert (a + b)[1..] == a[1..] + b;
      TotalAppend(a[1..], b, c);
    }
  }

  /** Every value in [lo, hi] puts the sum in [lo * n, hi * n]. */
  lemma {:induction false} TotalBounds(s: seq<Obs>, c: Column, lo: real, hi: real)
    requires forall i :: 0 <= i < |s| ==> lo <= Value(s[i], c) <= hi
    ensures lo * (|s| as real) <= Total(s, c) <= hi * (|s| as real)
  {
    if s != [] {
      assert forall i :: 0 <= i < |s| - 1 ==> s[1..][i] == s[i + 1];
      TotalBounds(s[1..], c, lo, hi);
    }
  }

  /** The mean lies between any lower and upper bound of the column. */
  lemma MeanBounds(s: seq<Obs>, c: Column, lo: real, hi: real)
    requires |s| > 0
    requires forall i :: 0 <= i < |s| ==> lo <= Value(s[i], c) <= hi
    ensures lo <= Mean(s, c) <= hi
  {
    TotalBounds(s, c, lo, hi);
    var n := |s| as real;
    assert Mean(s, c) * n == Total(s, c);
  }

  /** A filtered sum of a non-negative column is itself non-negative and at most the full sum. */
  lemma {:induction false} WindowTotalBounds(s: seq<Obs>, since: int, c: Column)
    requires NonNegative(s, c)
    ensures 0.0 <= Total(Window(s, since), c) <= Total(s, c)
  {
    if s != [] {
      assert NonNegative(s[1..], c) by {
        assert forall i :: 0 <= i < |s| - 1 ==> s[1..][i] == s[i + 1];
      }
      WindowTotalBounds(s[1..], since, c);
      if s[0].timestamp >= since {
        var w := [s[0]] + Window(s[1..], since);
        assert w[0] == s[0] && w[1..] == Window(s[1..], since);
      }
    }
  }

  /** A non-negative column sums to at least its last value. */
  lemma {:induction false} TotalAtLeastLast(s: seq<Obs>, c: Column)
    requires |s| > 0 && NonNegative(s, c)
    ensures Total(s, c) >= Value(s[|s| - 1], c)
  {
    if |s| > 1 {
      var rest := s[1..];
      assert forall i :: 0 <= i < |rest| ==> rest[i] == s[i + 1];
      assert NonNegative(rest, c);
      TotalAtLeastLast(rest, c);
      assert Value(s[0], c) >= 0.0;
    }
  }

  // ---------------------------------------------------------------------
  // Lemmas about the latest timestamp and windows

  /** In a sorted series the latest timestamp is the last row's. */
  lemma SortedMaxIsLast(s: seq<Obs>)
    requires |s| > 0 && Sorted(s)
    ensures MaxTime(s) == s[|s| - 1].timestamp
  {
  }

  /** Filtering twice keeps only what the later cut-off keeps. */
  lemma {:induction false} WindowOfWindow(s: seq<Obs>, early: int, late: int)
    requires early <= late
    ensures Window(Window(s, early), late) == Window(s, late)
  {
    if s != [] {
      WindowOfWindow(s[1..], early, late);
      if s[0].timestamp >= early {
        var w := [s[0]] + Window(s[1..], early);
        assert w[0] == s[0] && w[1..] == Window(s[1..], early);
      }
    }
  }

  /**
   * On a sorted series a window is a suffix: the rows before index k are
   * all earlier than the cut-off, the rows from k on are all at or after it.
   */
  lemma {:induction false} WindowIsSuffix(s: seq<Obs>, since: int) returns (k: nat)
    requires Sorted(s)
    ensures k <= |s| && Window(s, since) == s[k..]
    ensures forall i :: 0 <= i < k ==> s[i].timestamp < since
    ensures forall i :: k <= i < |s| ==> s[i].timestamp >= since
  {
    if s == [] {
      k := 0;
    } else {
      var rest := s[1..];
      assert forall i :: 0 <= i < |rest| ==> rest[i] == s[i + 1];
      assert Sorted(rest);
      var k' := WindowIsSuffix(rest, since);
      if s[0].timestamp >= since {
        assert |rest| > 0 ==> rest[0].timestamp >= since;
        assert [s[0]] + rest == s;
        k := 0;
      } else {
        assert s[k' + 1..] == rest[k'..];
        k := k' + 1;
      }
    }
  }

  lemma SortedSuffix(s: seq<Obs>, k: nat)
    requires Sorted(s) && k <= |s|
    ensures Sorted(s[k..])
  {
    assert forall i :: 0 <= i < |s| - k ==> s[k..][i] == s[k + i];
  }

  /** A window holds exactly the rows of the series at or after its cut-off. */
  lemma {:induction false} WindowMembers(s: seq<Obs>, since: int)
    ensures forall o :: o in Window(s, since) <==> o in s && o.timestamp >= since
  {
    if s != [] {
      WindowMembers(s[1..], since);
      assert forall o :: o in s <==> o == s[0] || o in s[1..];
    }
  }

  /** A window whose cut-off does not pass the latest timestamp keeps that timestamp. */
  lemma WindowKeepsMaxTime(s: seq<Obs>, since: int)
    requires |s| > 0 && since <= MaxTime(s)
    ensures |Window(s, since)| > 0
    ensures MaxTime(Window(s, since)) == MaxTime(s)
  {
    var w := Window(s, since);
    WindowMembers(s, since);
    var i :| 0 <= i < |s| && s[i].timestamp == MaxTime(s);
    assert s[i] in w;
    var j :| 0 <= j < |w| && w[j] == s[i];
    forall k | 0 <= k < |w| ensures w[k].timestamp <= MaxTime(s) {
      assert w[k] in s;
    }
    var m := MaxTime(w);
    var l :| 0 <= l < |w| && w[l].timestamp == m;
    assert w[j].timestamp <= m;
  }

  /**
   * On a sorted series a trailing window of non-negative length is a
   * non-empty suffix that ends in the series' last row.
   */
  lemma TrailingKeepsLatest(s: seq<Obs>, hours: int) returns (k: nat)
    requires |s| > 0 && Sorted(s) && hours >= 0
    ensures k < |s| && Trailing(s, hours) == s[k..]
    ensures Trailing(s, hours)[|Trailing(s, hours)| - 1] == s[|s| - 1]
  {
    var since := MaxTime(s) - hours;
    var last := s[|s| - 1];
    assert last.timestamp >= since by {
      SortedMaxIsLast(s);
    }
    k := WindowIsSuffix(s, since);
    assert k < |s|;
    var w := Trailing(s, hours);
    assert w == s[k..];
    assert w[|w| - 1] == s[|s| - 1];
  }

  /** The 6-hour window is a suffix of the 24-hour window, and both hold the last row. */
  lemma SixHoursWithinDay(s: seq<Obs>) returns (k: nat)
    requires |s| > 0 && Sorted(s)
    ensures |Trailing(s, RecentHours)| > 0 && |Trailing(s, DayHours)| > 0
    ensures k < |Trailing(s, DayHours)| && Trailing(s, RecentHours) == Trailing(s, DayHours)[k..]
    ensures Trailing(s, RecentHours)[|Trailing(s, RecentHours)| - 1] == s[|s| - 1]
    ensures Trailing(s, DayHours)[|Trailing(s, DayHours)| - 1] == s[|s| - 1]
  {
    var k6 := TrailingKeepsLatest(s, RecentHours);
    var k24 := TrailingKeepsLatest(s, DayHours);
    var day := Trailing(s, DayHours);
    WindowOfWindow(s, MaxTime(s) - DayHours, MaxTime(s) - RecentHours);
    SortedSuffix(s, k24);
    k := WindowIsSuffix(day, MaxTime(s) - RecentHours);
  }

  lemma {:induction false} PumpRowsCount(s: seq<Obs>)
    ensures |PumpRows(s)| == PumpHours(s) <= |s|
  {
    if s != [] {
      PumpRowsCount(s[1..]);
    }
  }
}
