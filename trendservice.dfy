/**
 * The trend analyzer: the mean of the last (up to) 28 readings is the
 * baseline, the mean of the last 7 is the recent level, and their signed
 * difference is described in words with a one-minute noise floor. All three
 * numbers are returned formatted as "Xh Ymin" strings.
 */
module TrendService {
  import opened Common
  import PyFloat
  import Format
  import Stats

  /** Rows in the baseline window and in the recent window. */
  const Baseline: nat := 28
  const Last7: nat := 7

  /** The trend response: resident, three formatted durations and a sentence. */
  datatype TrendRead = TrendRead(
    residentId: int,
    baselineHours: string,
    last7DaysHours: string,
    differenceHours: string,
    description: string)

  const NoChange: string := "\U{2248} no change"
  const InsufficientData: string := "insufficient data"

  /** The last min(k, |s|) elements of `s` (pandas `tail(k)`). */
  function Tail<T>(s: seq<T>, k: nat): seq<T>
  {
    if |s| <= k then s else s[|s| - k..]
  }

  /** The trend file's copy of the duration formatter, with Python's float operators. */
  function FormatSecondsHMin(val: Option<real>): (r: string)
    ensures r == Format.FormatDuration(val)
  {
    match val
    case None => "N/A"
    case Some(sec) =>
      var secAbs := Abs(sec);
      var hours := PyFloat.Int(PyFloat.FloorDiv(secAbs, 3600.0));
      var minutes := PyFloat.Int(PyFloat.FloorDiv(PyFloat.Mod(secAbs, 3600.0), 60.0));
      Format.PythonSplitAgrees(secAbs);
      if hours != 0 && minutes != 0 then NatToString(hours) + "h " + NatToString(minutes) + "min"
      else if hours != 0 then NatToString(hours) + "h"
      else NatToString(minutes) + "min"
  }

  /**
   * Baseline and recent means. Fewer than 7 values give a missing pair; a
   * mean over values that are all missing is missing too.
   */
  function ComputeBaselineLast7(values: seq<Option<real>>): (r: (Option<real>, Option<real>))
    ensures |values| < Last7 ==> r == (None, None)
    ensures |values| >= Last7 ==>
      r.0 == Stats.MeanSkipNa(Tail(values, Baseline)) && r.1 == Stats.MeanSkipNa(values[|values| - Last7..])
    ensures |values| >= Last7 ==>
      (r.1.None? <==> forall i :: |values| - Last7 <= i < |values| ==> values[i].None?)
  {
    if |values| < Last7 then (None, None)
    else (Stats.MeanSkipNa(Tail(values, Baseline)), Stats.MeanSkipNa(Tail(values, Last7)))
  }

  /** NaN-propagating subtraction `a - b`. */
  function Difference(a: Option<real>, b: Option<real>): (r: Option<real>)
    ensures r.Some? <==> a.Some? && b.Some?
    ensures r.Some? ==> r.value + b.value == a.value
  {
    if a.Some? && b.Some? then Some(a.value - b.value) else None
  }

  /**
   * The sentence describing a change of `diff` seconds: missing gives
   * "insufficient data", under a minute either way gives "≈ no change", and
   * otherwise the metric name with spaces, the direction, and the magnitude
   * in whole hours and minutes.
   */
  function FormatDescription(metricName: string, diff: Option<real>): (r: string)
    ensures diff.None? ==> r == InsufficientData
    ensures diff.Some? && Abs(diff.value) < 60.0 ==> r == NoChange
    ensures diff.Some? && Abs(diff.value) >= 60.0 ==>
      r == ReplaceUnderscores(metricName) + " " + (if diff.value > 0.0 then "increased" else "decreased")
        + " by " + Format.ChangePhrase(Format.Hours(diff.value), Format.Minutes(diff.value))
  {
    match diff
    case None => InsufficientData
    case Some(d) =>
      if Abs(d) < 60.0 then NoChange
      else
        var verb := if d > 0.0 then "increased" else "decreased";
        var absDiff := Abs(d);
        var hours := PyFloat.Int(PyFloat.FloorDiv(absDiff, 3600.0));
        var minutes := PyFloat.Int(PyFloat.FloorDiv(PyFloat.Mod(absDiff, 3600.0), 60.0));
        Format.PythonSplitAgrees(absDiff);
        var timeStr :=
          if hours != 0 && minutes != 0 then NatToString(hours) + "h and " + NatToString(minutes) + " minutes"
          else if hours != 0 then NatToString(hours) + "h"
          else NatToString(minutes) + " minutes";
        var humanMetric := ReplaceUnderscores(metricName);
        humanMetric + " " + verb + " by " + timeStr
  }

  /**
   * A change of at least a minute never reads "0 minutes", and the stated
   * hours and minutes are |diff| rounded down to the minute.
   */
  lemma DescriptionMagnitude(d: real)
    requires Abs(d) >= 60.0
    ensures Format.Hours(d) != 0 || Format.Minutes(d) != 0
    ensures ((3600 * Format.Hours(d) + 60 * Format.Minutes(d)) as real) <= Abs(d)
    ensures Abs(d) < (3600 * Format.Hours(d) + 60 * Format.Minutes(d) + 60) as real
  {
    Format.SplitBounds(d);
  }

  /**
   * Opposite changes are described alike except for the direction: the
   * verb is "increased" for the positive one and "decreased" for the other.
   */
  lemma DescriptionSymmetric(metricName: string, d: real)
    requires d >= 60.0
    ensures FormatDescription(metricName, Some(d)) ==
      ReplaceUnderscores(metricName) + " " + "increased" + " by " + Format.ChangePhrase(Format.Hours(d), Format.Minutes(d))
    ensures FormatDescription(metricName, Some(-d)) ==
      ReplaceUnderscores(metricName) + " " + "decreased" + " by " + Format.ChangePhrase(Format.Hours(d), Format.Minutes(d))
  {
    Format.SplitIgnoresSign(d);
  }

  /**
   * The trend for `metric` over a window of at most 28 rows. An unknown
   * metric is refused, fewer than 7 rows give no result, and otherwise the
   * baseline is the mean over the whole window, the recent level the mean of
   * its last 7 rows, and the difference their NaN-propagating difference.
   */
  function ComputeTrend(residentId: int, metric: string, w: seq<Sample>): (r: Insight<TrendRead>)
    requires IsWindow(w, Baseline)
    ensures r.UnknownMetric? <==> !KnownMetric(metric)
    ensures r.UnknownMetric? ==> r.metric == metric
    ensures KnownMetric(metric) ==> (r.NoResult? <==> |w| < Last7)
    ensures r.Found? ==>
      var baseline := Stats.MeanSkipNa(Values(w));
      var last7 := Stats.MeanSkipNa(Values(w)[|w| - Last7..]);
      var diff := Difference(last7, baseline);
      r.value == TrendRead(residentId, Format.FormatDuration(baseline), Format.FormatDuration(last7),
                           Format.FormatDuration(diff), FormatDescription(metric, diff))
  {
    if !KnownMetric(metric) then UnknownMetric(metric)
    else
      var records := w;
      if |records| < Last7 then NoResult
      else
        var values := Values(records);
        var (baselineSec, last7Sec) := ComputeBaselineLast7(values);
        var differenceSec := Difference(last7Sec, baselineSec);
        var description := FormatDescription(metric, differenceSec);
        Found(TrendRead(
          residentId,
          FormatSecondsHMin(baselineSec),
          FormatSecondsHMin(last7Sec),
          FormatSecondsHMin(differenceSec),
          description))
  }

  /** The skip-missing mean of a gap-free column is the plain mean. */
  lemma MeanOfComplete(s: seq<Option<real>>)
    requires |s| > 0 && forall i :: 0 <= i < |s| ==> s[i].Some?
    ensures Stats.MeanSkipNa(s) == Some(Stats.Mean(Stats.Unwrap(s)))
  {
    Stats.PresentOfUnwrapped(s);
  }

  /**
   * A steady window, every reading the same value c, has equal baseline and
   * recent level and is described as no change.
   */
  lemma SteadyWindow(residentId: int, metric: string, w: seq<Sample>, c: real)
    requires IsWindow(w, Baseline) && KnownMetric(metric) && |w| >= Last7
    requires forall i :: 0 <= i < |w| ==> w[i].value == Some(c)
    ensures ComputeTrend(residentId, metric, w) ==
      Found(TrendRead(residentId, Format.FormatDuration(Some(c)), Format.FormatDuration(Some(c)), "0min", NoChange))
  {
    var vs := Values(w);
    var tail := vs[|w| - Last7..];
    MeanOfComplete(vs);
    MeanOfComplete(tail);
    Stats.MeanConstant(Stats.Unwrap(vs), c);
    Stats.MeanConstant(Stats.Unwrap(tail), c);
    Format.FormatShape(0.0);
  }

  /** The two means of the decline window. */
  lemma DeclineMeans(w: seq<Sample>)
    requires |w| == 28
    requires forall i :: 0 <= i < 21 ==> w[i].value == Some(28800.0)
    requires forall i :: 21 <= i < 28 ==> w[i].value == Some(14400.0)
    ensures Stats.MeanSkipNa(Values(w)) == Some(25200.0)
    ensures Stats.MeanSkipNa(Values(w)[21..]) == Some(14400.0)
  {
    var vs := Values(w);
    var tail := vs[21..];
    MeanOfComplete(vs);
    MeanOfComplete(tail);
    var xs := Stats.Unwrap(vs);
    assert xs == xs[..21] + xs[21..];
    Stats.SumAppend(xs[..21], xs[21..]);
    Stats.SumConstant(xs[..21], 28800.0);
    Stats.SumConstant(xs[21..], 14400.0);
    Stats.MeanConstant(Stats.Unwrap(tail), 14400.0);
  }

  /** The renderings of the decline window's three numbers. */
  lemma DeclineRenderings(baseline: real, last7: real, diff: real)
    requires baseline == 25200.0 && last7 == 14400.0 && diff == -10800.0
    ensures Format.FormatDuration(Some(baseline)) == "7h"
    ensures Format.FormatDuration(Some(last7)) == "4h"
    ensures Format.FormatDuration(Some(diff)) == "3h"
  {
    Format.HoursOnlyRendering(baseline, 7);
    Format.HoursOnlyRendering(last7, 4);
    Format.HoursOnlyRendering(diff, 3);
  }

  /** The decline window's description. */
  lemma DeclineDescription(metric: string, diff: real)
    requires metric == "time_in_bed" && diff == -10800.0
    ensures FormatDescription(metric, Some(diff)) == "time in bed decreased by 3h"
  {
    Format.HoursOnlyRendering(diff, 3);
    assert ReplaceUnderscores(metric) == "time in bed";
    assert "time in bed" + " " + "decreased" + " by " + "3h" == "time in bed decreased by 3h";
  }

  /**
   * Three weeks at 8h followed by a week at 4h (the last 28 rows of the
   * decline fixture): baseline 7h, recent 4h, a 3h decrease.
   */
  lemma DeclineExample(residentId: int, w: seq<Sample>)
    requires IsWindow(w, Baseline) && |w| == 28
    requires forall i :: 0 <= i < 21 ==> w[i].value == Some(28800.0)
    requires forall i :: 21 <= i < 28 ==> w[i].value == Some(14400.0)
    ensures ComputeTrend(residentId, "time_in_bed", w) ==
      Found(TrendRead(residentId, "7h", "4h", "3h", "time in bed decreased by 3h"))
  {
    DeclineMeans(w);
    DeclineRenderings(25200.0, 14400.0, -10800.0);
    DeclineDescription("time_in_bed", -10800.0);
    assert Difference(Some(14400.0), Some(25200.0)) == Some(-10800.0);
  }
}
