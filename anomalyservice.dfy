/**
 * The anomaly analyzer: over the last `limit` rows, gaps are filled forward
 * then backward in place, the population mean and standard deviation of the
 * filled column are taken, and every row whose z-score reaches the threshold
 * in magnitude is reported with its date and formatted value.
 *
 * No square root is taken: with sigma = sqrt(variance) > 0 and t >= 0,
 * |x - mu| / sigma >= t holds exactly when (x - mu)^2 >= t^2 * variance
 * (ZScoreTest), and sigma = 0 exactly when the variance is 0.
 */
module AnomalyService {
  import opened Common
  import PyFloat
  import Format
  import Stats
  import Series

  /** Rows fetched when the caller does not say. */
  const DefaultLimit: nat := 30
  /** The threshold the code applies. */
  const Threshold: real := 1.0
  /** The threshold the module documentation states. */
  const DocumentedThreshold: real := 3.0

  /** The anomaly response. */
  datatype AnomalyRead = AnomalyRead(
    residentId: int,
    metric: string,
    nAnomalies: int,
    anomalyIndices: seq<int>,
    anomalyDates: seq<Date>,
    anomalyValues: seq<string>,
    description: string)

  /** The anomaly file's copy of the duration formatter. */
  function FormatSecondsHMin(val: Option<real>): (r: string)
    ensures r == Format.FormatDuration(val)
  {
    match val
    case None => "N/A"
    case Some(sec) =>
      var secAbs := Abs(sec);
      var hours := PyFloat.Int(PyFloat.FloorDiv(secAbs, 3600.0));
      var minutes := PyFloat.Int(PyFloat.FloorDiv(PyFloat.Mod(secAbs, 3600.0), 60.0));
      Format.PythonSplitAgrees(secAbs);
      if hours != 0 && minutes != 0 then NatToString(hours) + "h " + NatToString(minutes) + "min"
      else if hours != 0 then NatToString(hours) + "h"
      else NatToString(minutes) + "min"
  }

  /**
   * `df["value"] = df["value"].ffill().bfill()`: the column is overwritten in
   * place, first carrying the last value seen forward, then carrying the
   * next value seen backward.
   */
  method FillGaps(a: array<Option<real>>)
    modifies a
    ensures a[..] == Series.GapFill(old(a[..]))
  {
    ForwardFill(a);
    BackwardFill(a);
  }

  /** `ffill()` in place: a missing slot takes the last value seen so far. */
  method ForwardFill(a: array<Option<real>>)
    modifies a
    ensures a[..] == Series.FFill(old(a[..]))
  {
    ghost var s := a[..];
    var last: Option<real> := None;
    var i := 0;
    while i < a.Length
      invariant 0 <= i <= a.Length
      invariant forall k :: 0 <= k < i ==> a[k] == Series.LastPresent(s, k)
      invariant forall k :: i <= k < a.Length ==> a[k] == s[k]
      invariant i == 0 ==> last == None
      invariant i > 0 ==> last == Series.LastPresent(s, i - 1)
    {
      if a[i].None? {
        a[i] := last;
      } else {
        last := a[i];
      }
      i := i + 1;
    }
  }

  /** `bfill()` in place: a missing slot takes the next value still to come. */
  method BackwardFill(a: array<Option<real>>)
    modifies a
    ensures a[..] == Series.BFill(old(a[..]))
  {
    ghost var s := a[..];
    var next: Option<real> := None;
    var j := a.Length;
    while j > 0
      invariant 0 <= j <= a.Length
      invariant forall k :: j <= k < a.Length ==> a[k] == Series.NextPresent(s, k)
      invariant forall k :: 0 <= k < j ==> a[k] == s[k]
      invariant j == a.Length ==> next == None
      invariant j < a.Length ==> next == Series.NextPresent(s, j)
    {
      j := j - 1;
      if a[j].None? {
        a[j] := next;
      } else {
        next := a[j];
      }
    }
  }

  /** The squared form of |(x - mu) / sigma| >= t. */
  predicate IsAnomaly(x: real, mu: real, variance: real, t: real)
  {
    (x - mu) * (x - mu) >= t * t * variance
  }

  /** The indices below n whose values pass the test, in increasing order. */
  function AnomalyIndices(xs: seq<real>, mu: real, variance: real, t: real, n: nat): (idx: seq<int>)
    requires n <= |xs|
    ensures StrictlyIncreasing(idx)
    ensures forall k :: 0 <= k < |idx| ==> 0 <= idx[k] < n
    ensures forall i :: 0 <= i < n ==> (i in idx <==> IsAnomaly(xs[i], mu, variance, t))
    decreases n
  {
    if n == 0 then []
    else
      var prefix := AnomalyIndices(xs, mu, variance, t, n - 1);
      prefix + if IsAnomaly(xs[n - 1], mu, variance, t) then [n - 1] else []
  }

  /** "no anomalies" for none, otherwise "{n} anomalies detected". */
  function Description(n: nat): (r: string)
    ensures n == 0 <==> r == "no anomalies"
    ensures n != 0 ==> r == NatToString(n) + " anomalies detected"
  {
    if n != 0 then
      var r := NatToString(n) + " anomalies detected";
      assert r != "no anomalies" by { assert IsDigit(r[0]) && !IsDigit("no anomalies"[0]); }
      r
    else "no anomalies"
  }

  /** The value column after gap filling. */
  function Filled(w: seq<Sample>): seq<Option<real>>
  {
    Series.GapFill(Values(w))
  }

  /**
   * What a computed anomaly response says about window `w`: with xs the
   * filled column (gap-free), mu its mean and a positive variance, index i is
   * reported exactly when xs[i] passes the test, the indices increase and
   * stay in the window, and dates and formatted filled values line up with
   * them.
   */
  predicate Reports(residentId: int, metric: string, w: seq<Sample>, threshold: real, a: AnomalyRead)
  {
    && |w| >= 2
    && (forall i :: 0 <= i < |w| ==> Filled(w)[i].Some?)
    && var xs := Stats.Unwrap(Filled(w));
       var mu := Stats.Mean(xs);
       var variance := Stats.PopVariance(xs);
       && variance > 0.0
       && a.residentId == residentId && a.metric == metric
       && a.anomalyIndices == AnomalyIndices(xs, mu, variance, threshold, |w|)
       && StrictlyIncreasing(a.anomalyIndices)
       && (forall k :: 0 <= k < |a.anomalyIndices| ==> 0 <= a.anomalyIndices[k] < |w|)
       && (forall i :: 0 <= i < |w| ==> (i in a.anomalyIndices <==> IsAnomaly(xs[i], mu, variance, threshold)))
       && a.nAnomalies == |a.anomalyIndices|
       && |a.anomalyDates| == |a.anomalyIndices| && |a.anomalyValues| == |a.anomalyIndices|
       && (forall k :: 0 <= k < |a.anomalyIndices| ==>
             a.anomalyDates[k] == w[a.anomalyIndices[k]].date
             && a.anomalyValues[k] == Format.FormatDuration(Filled(w)[a.anomalyIndices[k]]))
       && a.description == Description(a.nAnomalies)
  }

  /**
   * Anomalies of `metric` over a fetched window.
   *  - An unknown metric is refused.
   *  - No result when the window is empty, when every reading is missing, or
   *    when the filled column is constant (sigma = 0, which covers a single
   *    row): altogether, exactly when no two present readings differ.
   *  - Otherwise index i is reported exactly when its filled value passes
   *    the z-test against the mean and variance of the filled column; the
   *    indices increase, and the dates and formatted filled values line up
   *    with them.
   */
  method ComputeAnomalies(residentId: int, metric: string, w: seq<Sample>, limit: nat, threshold: real)
    returns (r: Insight<AnomalyRead>)
    requires IsWindow(w, limit) && threshold >= 0.0
    ensures r.UnknownMetric? <==> !KnownMetric(metric)
    ensures r.UnknownMetric? ==> r.metric == metric
    ensures KnownMetric(metric) ==> (r.NoResult? <==> Series.PresentAgree(Values(w)))
    ensures r.Found? ==> Reports(residentId, metric, w, threshold, r.value)
  {
    if !KnownMetric(metric) {
      return UnknownMetric(metric);
    }
    var rows := w;
    var vs := Values(rows);
    if |rows| == 0 {
      return NoResult;
    }
    var column := new Option<real>[|rows|](i requires 0 <= i < |rows| => vs[i]);
    assert column[..] == vs;
    FillGaps(column);
    var filled := column[..];
    assert filled == Series.GapFill(vs);
    if Series.MissingIn(filled, 0, |filled|) {
      Series.GapFillMissing(vs, 0);
      assert Series.PresentAgree(vs);
      return NoResult;
    }
    var k :| 0 <= k < |filled| && filled[k].Some?;
    Series.GapFillMissing(vs, k);
    var j :| 0 <= j < |vs| && vs[j].Some?;
    Series.GapFillComplete(vs, j);
    var xs := Stats.Unwrap(filled);
    var variance := Stats.PopVariance(xs);
    AgreeIffNoSpread(vs);
    if variance == 0.0 || |xs| < 2 {
      assert Series.PresentAgree(vs);
      return NoResult;
    }
    assert !Series.PresentAgree(vs);
    r := Found(Assemble(residentId, metric, w, xs, threshold));
  }

  /**
   * The response over the filled column xs of `w`: the z-test mask, the
   * matching indices, and their dates and formatted values.
   */
  function Assemble(residentId: int, metric: string, w: seq<Sample>, xs: seq<real>, threshold: real)
    : (a: AnomalyRead)
    requires |w| >= 2 && forall i :: 0 <= i < |w| ==> Filled(w)[i].Some?
    requires xs == Stats.Unwrap(Filled(w)) && Stats.PopVariance(xs) > 0.0
    ensures Reports(residentId, metric, w, threshold, a)
  {
    var mu := Stats.Mean(xs);
    var variance := Stats.PopVariance(xs);
    var indices := AnomalyIndices(xs, mu, variance, threshold, |xs|);
    var dates := seq(|indices|, k requires 0 <= k < |indices| => w[indices[k]].date);
    var values := seq(|indices|, k requires 0 <= k < |indices| => FormatSecondsHMin(Some(xs[indices[k]])));
    var n := |indices|;
    AnomalyRead(residentId, metric, n, indices, dates, values, Description(n))
  }

  /**
   * For a column with a reading present, the present readings all agree
   * exactly when the filled column has zero variance; a single row always
   * agrees with itself.
   */
  lemma AgreeIffNoSpread(vs: seq<Option<real>>)
    requires |vs| > 0 && forall i :: 0 <= i < |vs| ==> Series.GapFill(vs)[i].Some?
    ensures Series.PresentAgree(vs) <==> Stats.PopVariance(Stats.Unwrap(Series.GapFill(vs))) == 0.0
    ensures |vs| < 2 ==> Series.PresentAgree(vs)
  {
    var g := Series.GapFill(vs);
    var xs := Stats.Unwrap(g);
    Series.GapFillConstant(vs);
    Stats.VarianceZeroIffConstant(xs);
    assert (forall i :: 0 <= i < |vs| ==> g[i] == g[0]) <==> (forall i :: 0 <= i < |xs| ==> xs[i] == xs[0]);
  }

  // ---------------------------------------------------------------------
  // The squared test against the z-score it stands for.

  lemma ProductMonotone(a: real, b: real, c: real)
    requires 0.0 <= a <= b && c >= 0.0
    ensures a * c <= b * c
  {
  }

  lemma ScaleCancels(a: real, b: real, v: real)
    requires v > 0.0
    ensures a * v >= b * v <==> a >= b
  {
    if a >= b {
      ProductMonotone(0.0, a - b, v);
    } else {
      ProductMonotone(0.0, b - a, v);
      assert (b - a) * v > 0.0;
    }
  }

  /** Between non-negative numbers, comparing squares compares the numbers. */
  lemma SquareMonotone(a: real, b: real)
    requires a >= 0.0 && b >= 0.0
    ensures a * a >= b * b <==> a >= b
  {
    if a >= b {
      ProductMonotone(b, a, a);
      ProductMonotone(b, a, b);
    } else {
      ProductMonotone(a, b, a);
      ProductMonotone(a, b, b);
      assert (b - a) * (b - a) > 0.0 by { Stats.SquarePositive(b - a, 0.0); }
      assert b * b - a * a == (b - a) * (b - a) + 2.0 * a * (b - a);
      ProductMonotone(0.0, b - a, a);
    }
  }

  /**
   * With sigma the positive square root of the variance and t >= 0, the
   * squared test says |(x - mu) / sigma| >= t.
   */
  lemma ZScoreTest(x: real, mu: real, variance: real, sigma: real, t: real)
    requires sigma > 0.0 && sigma * sigma == variance && t >= 0.0
    ensures IsAnomaly(x, mu, variance, t) <==> Abs((x - mu) / sigma) >= t
  {
    var z := (x - mu) / sigma;
    var a := Abs(z);
    assert x - mu == z * sigma;
    assert (x - mu) * (x - mu) == (z * z) * variance;
    assert a * a == z * z;
    ProductMonotone(0.0, sigma, sigma);
    assert variance > 0.0 by { Stats.SquarePositive(sigma, 0.0); }
    ScaleCancels(a * a, t * t, variance);
    SquareMonotone(a, t);
  }

  /**
   * A higher threshold flags a subset: what the documented 3.0 reports, the
   * 1.0 in the code reports too.
   */
  lemma ThresholdMonotone(x: real, mu: real, variance: real, t1: real, t2: real)
    requires 0.0 <= t1 <= t2 && variance >= 0.0
    requires IsAnomaly(x, mu, variance, t2)
    ensures IsAnomaly(x, mu, variance, t1)
  {
    ProductMonotone(t1, t2, t1);
    ProductMonotone(t1, t2, t2);
    ProductMonotone(t1 * t1, t2 * t2, variance);
  }

  // ---------------------------------------------------------------------
  // The outlier fixture: 30 nights at 8h except 2h on night 15.

  /** When the test passes at index k alone, k is the only index reported. */
  lemma {:induction false} SingleAnomaly(xs: seq<real>, mu: real, v: real, t: real, n: nat, k: nat)
    requires n <= |xs| && k < |xs|
    requires forall i :: 0 <= i < |xs| ==> (IsAnomaly(xs[i], mu, v, t) <==> i == k)
    ensures AnomalyIndices(xs, mu, v, t, n) == if k < n then [k] else []
    decreases n
  {
    if n > 0 {
      SingleAnomaly(xs, mu, v, t, n - 1, k);
    }
  }

  /** Mean and variance of the fixture's column. */
  lemma OutlierStatistics(xs: seq<real>)
    requires |xs| == 30 && xs[15] == 7200.0
    requires forall i :: 0 <= i < 30 && i != 15 ==> xs[i] == 28800.0
    ensures Stats.Mean(xs) == 28080.0
    ensures Stats.PopVariance(xs) == 15033600.0
  {
    Stats.SumAllButOne(xs, 15, 28800.0);
    var mu := Stats.Mean(xs);
    assert mu == 28080.0;
    var sq := Stats.SquaredDeviations(xs, mu);
    forall i | 0 <= i < 30 && i != 15
      ensures sq[i] == 518400.0
    {
      assert xs[i] - mu == 720.0;
    }
    assert xs[15] - mu == -20880.0;
    assert sq[15] == 435974400.0;
    Stats.SumAllButOne(sq, 15, 518400.0);
  }

  /** The fixture's two values against its mean and variance. */
  lemma OutlierTest(x: real, mu: real, v: real, t: real)
    requires mu == 28080.0 && v == 15033600.0
    requires t == Threshold || t == DocumentedThreshold
    requires x == 7200.0 || x == 28800.0
    ensures IsAnomaly(x, mu, v, t) <==> x == 7200.0
  {
    if x == 7200.0 {
      assert (x - mu) * (x - mu) == 435974400.0;
    } else {
      assert (x - mu) * (x - mu) == 518400.0;
    }
  }

  /** Exactly night 15 is flagged, with the code's threshold or the documented one. */
  lemma OutlierFlags(xs: seq<real>, t: real)
    requires |xs| == 30 && xs[15] == 7200.0
    requires forall i :: 0 <= i < |xs| && i != 15 ==> xs[i] == 28800.0
    requires t == Threshold || t == DocumentedThreshold
    ensures forall i :: 0 <= i < |xs| ==> (IsAnomaly(xs[i], Stats.Mean(xs), Stats.PopVariance(xs), t) <==> i == 15)
    ensures AnomalyIndices(xs, Stats.Mean(xs), Stats.PopVariance(xs), t, |xs|) == [15]
  {
    OutlierStatistics(xs);
    var idx := AnomalyIndices(xs, Stats.Mean(xs), Stats.PopVariance(xs), t, |xs|);
    forall i | 0 <= i < |xs|
      ensures IsAnomaly(xs[i], Stats.Mean(xs), Stats.PopVariance(xs), t) <==> i == 15
    {
      OutlierTest(xs[i], Stats.Mean(xs), Stats.PopVariance(xs), t);
    }
    SingleAnomaly(xs, Stats.Mean(xs), Stats.PopVariance(xs), t, |xs|, 15);
  }

  /**
   * The outlier fixture through the whole analyzer: one anomaly, on night 15,
   * rendered "2h", under either threshold.
   */
  method OutlierExample(residentId: int, w: seq<Sample>, t: real) returns (r: Insight<AnomalyRead>)
    requires IsWindow(w, DefaultLimit) && |w| == 30
    requires w[15].value == Some(7200.0)
    requires forall i :: 0 <= i < 30 && i != 15 ==> w[i].value == Some(28800.0)
    requires t == Threshold || t == DocumentedThreshold
    ensures r == Found(AnomalyRead(residentId, "time_in_bed", 1, [15], [w[15].date], ["2h"], "1 anomalies detected"))
  {
    r := ComputeAnomalies(residentId, "time_in_bed", w, DefaultLimit, t);
    var vs := Values(w);
    assert r.Found? by {
      assert vs[0].Some? && vs[15].Some? && vs[0] != vs[15];
      assert !Series.PresentAgree(vs);
      assert KnownMetric("time_in_bed");
    }
    OutlierReport(residentId, w, t, r.value);
  }

  /** Any response that Reports on the outlier fixture is the one expected. */
  lemma OutlierReport(residentId: int, w: seq<Sample>, t: real, a: AnomalyRead)
    requires |w| == 30
    requires w[15].value == Some(7200.0)
    requires forall i :: 0 <= i < 30 && i != 15 ==> w[i].value == Some(28800.0)
    requires t == Threshold || t == DocumentedThreshold
    requires Reports(residentId, "time_in_bed", w, t, a)
    ensures a == AnomalyRead(residentId, "time_in_bed", 1, [15], [w[15].date], ["2h"], "1 anomalies detected")
  {
    OutlierIndices(residentId, w, t, a);
    ReportedFields(residentId, "time_in_bed", w, t, a);
    OutlierFields(residentId, w, a);
  }

  /** The fields of a response that Reports, one by one. */
  lemma ReportedFields(residentId: int, metric: string, w: seq<Sample>, t: real, a: AnomalyRead)
    requires Reports(residentId, metric, w, t, a)
    ensures a.residentId == residentId && a.metric == metric
    ensures a.nAnomalies == |a.anomalyIndices|
    ensures |a.anomalyDates| == |a.anomalyIndices| && |a.anomalyValues| == |a.anomalyIndices|
    ensures forall k :: 0 <= k < |a.anomalyIndices| ==>
      0 <= a.anomalyIndices[k] < |w| && a.anomalyDates[k] == w[a.anomalyIndices[k]].date
      && a.anomalyValues[k] == Format.FormatDuration(Filled(w)[a.anomalyIndices[k]])
    ensures a.description == Description(a.nAnomalies)
  {
  }

  /** The outlier response, assembled from its fields. */
  lemma OutlierFields(residentId: int, w: seq<Sample>, a: AnomalyRead)
    requires |w| == 30 && Filled(w)[15] == Some(7200.0)
    requires a.residentId == residentId && a.metric == "time_in_bed"
    requires a.anomalyIndices == [15] && a.nAnomalies == 1
    requires |a.anomalyDates| == 1 && |a.anomalyValues| == 1
    requires a.anomalyDates[0] == w[15].date && a.anomalyValues[0] == Format.FormatDuration(Filled(w)[15])
    requires a.description == Description(a.nAnomalies)
    ensures a == AnomalyRead(residentId, "time_in_bed", 1, [15], [w[15].date], ["2h"], "1 anomalies detected")
  {
    OutlierStrings(Filled(w)[15].value, a.nAnomalies);
    assert a.anomalyValues == ["2h"];
    assert a.anomalyDates == [w[15].date];
  }

  /** On the outlier fixture, a response that Reports flags night 15 alone. */
  lemma OutlierIndices(residentId: int, w: seq<Sample>, t: real, a: AnomalyRead)
    requires |w| == 30
    requires w[15].value == Some(7200.0)
    requires forall i :: 0 <= i < 30 && i != 15 ==> w[i].value == Some(28800.0)
    requires t == Threshold || t == DocumentedThreshold
    requires Reports(residentId, "time_in_bed", w, t, a)
    ensures a.anomalyIndices == [15] && a.nAnomalies == 1 && Filled(w)[15] == Some(7200.0)
  {
    OutlierColumn(w);
    var xs := Stats.Unwrap(Filled(w));
    OutlierFlags(xs, t);
  }

  /** The fixture's flagged value renders "2h", and one anomaly is worded so. */
  lemma OutlierStrings(x: real, n: nat)
    requires x == 7200.0 && n == 1
    ensures Format.FormatDuration(Some(x)) == "2h"
    ensures Description(n) == "1 anomalies detected"
  {
    Format.HoursOnlyRendering(x, 2);
    assert NatToString(n) == "1";
  }

  /** The fixture has no gaps, so filling leaves its column as it is. */
  lemma OutlierColumn(w: seq<Sample>)
    requires |w| == 30 && w[15].value == Some(7200.0)
    requires forall i :: 0 <= i < |w| && i != 15 ==> w[i].value == Some(28800.0)
    ensures |Filled(w)| == 30 && forall i :: 0 <= i < 30 ==> Filled(w)[i].Some?
    ensures var xs := Stats.Unwrap(Filled(w));
      xs[15] == 7200.0 && forall i :: 0 <= i < |xs| && i != 15 ==> xs[i] == 28800.0
  {
    var vs := Values(w);
    forall i | 0 <= i < 30
      ensures Filled(w)[i] == vs[i]
    {
      Series.GapFillKeepsPresent(vs, i);
    }
  }
}
