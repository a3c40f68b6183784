/**
 * The change-point analyzer: the gap-filled signal is standardised (centred
 * only, when its standard deviation is not positive), handed to a PELT
 * search with an l2 cost and penalty 1, and the breakpoints it returns are
 * turned into 0-based "last index of a segment" values with the final
 * boundary dropped; each reported index gets its ISO date and the formatted
 * raw reading.
 *
 * The square root behind numpy's standard deviation and the ruptures PELT
 * search are parameters of the analyzer (`sqrt`, `pelt`): nothing is assumed
 * about them except where a lemma says so.
 */
module ChangePointService {
  import opened Common
  import PyFloat
  import Format
  import Stats
  import Series

  /** Rows fetched when the caller does not say. */
  const DefaultLimit: nat := 30
  /** The penalty handed to the search. */
  const Penalty: int := 1

  /** The change-point response. */
  datatype ChangePointRead = ChangePointRead(
    residentId: int,
    metric: string,
    nChangePoints: int,
    changePointIndices: seq<int>,
    changePointDates: seq<string>,
    changePointValues: seq<string>,
    description: string)

  /** The change-point file's copy of the duration formatter. */
  function FormatSecondsHMin(val: Option<real>): (r: string)
    ensures r == Format.FormatDuration(val)
  {
    match val
    case None => "N/A"
    case Some(v) =>
      var secAbs := Abs(v);
      var hours := PyFloat.Int(PyFloat.FloorDiv(secAbs, 3600.0));
      var minutes := PyFloat.Int(PyFloat.FloorDiv(PyFloat.Mod(secAbs, 3600.0), 60.0));
      Format.PythonSplitAgrees(secAbs);
      if hours != 0 && minutes != 0 then NatToString(hours) + "h " + NatToString(minutes) + "min"
      else if hours != 0 then NatToString(hours) + "h"
      else NatToString(minutes) + "min"
  }

  // ---------------------------------------------------------------------
  // The signal

  /**
   * `df["value"].ffill().bfill().to_numpy()`: with one reading present, the
   * filled column has no gaps, so the signal is exactly the forward-then-
   * backward filled column, and each present reading stays in place.
   */
  function Signal(w: seq<Sample>): (sig: seq<real>)
    requires exists i :: 0 <= i < |w| && w[i].value.Some?
    ensures |sig| == |w|
    ensures Wrap(sig) == Series.GapFill(Values(w))
    ensures forall i :: 0 <= i < |w| && w[i].value.Some? ==> sig[i] == w[i].value.value
  {
    var vs := Values(w);
    var j :| 0 <= j < |w| && w[j].value.Some?;
    Series.GapFillComplete(vs, j);
    var filled := Series.GapFill(vs);
    assert forall i :: 0 <= i < |w| && w[i].value.Some? ==> filled[i] == vs[i] by {
      forall i | 0 <= i < |w| && w[i].value.Some? {
        Series.GapFillKeepsPresent(vs, i);
      }
    }
    Stats.Unwrap(filled)
  }

  /**
   * z-scoring with the population standard deviation `sqrt(variance)`: when
   * it is positive each value becomes (x - mean) / std, which scaling back by
   * std and adding the mean undoes; otherwise each value is only centred.
   */
  function Standardise(sig: seq<real>, sqrt: real -> real): (z: seq<real>)
    requires |sig| > 0
    ensures |z| == |sig|
    ensures var mean := Stats.Mean(sig);
      var std := sqrt(Stats.PopVariance(sig));
      forall i :: 0 <= i < |sig| ==>
        (if std > 0.0 then z[i] * std + mean else z[i] + mean) == sig[i]
  {
    var n := |sig|;
    var mean := Stats.Mean(sig);
    var std := sqrt(Stats.PopVariance(sig));
    if std > 0.0 then seq(n, i requires 0 <= i < n => (sig[i] - mean) / std)
    else seq(n, i requires 0 <= i < n => sig[i] - mean)
  }

  /** Whichever branch is taken, the standardised signal sums to zero. */
  lemma StandardisedSumsToZero(sig: seq<real>, sqrt: real -> real)
    requires |sig| > 0
    ensures Stats.Sum(Standardise(sig, sqrt)) == 0.0
  {
    var mean := Stats.Mean(sig);
    var std := sqrt(Stats.PopVariance(sig));
    var z := Standardise(sig, sqrt);
    var centred := Stats.Shift(sig, mean);
    Stats.SumDeviations(sig);
    if std > 0.0 {
      assert forall i :: 0 <= i < |sig| ==> z[i] == centred[i] / std;
      SumDivided(centred, z, std);
    } else {
      assert z == centred;
    }
  }

  /** Dividing every term by d divides the sum by d. */
  lemma {:induction false} SumDivided(c: seq<real>, z: seq<real>, d: real)
    requires d != 0.0 && |z| == |c|
    requires forall i :: 0 <= i < |c| ==> z[i] == c[i] / d
    ensures Stats.Sum(z) == Stats.Sum(c) / d
  {
    if c != [] {
      SumDivided(c[1..], z[1..], d);
      assert (c[0] + Stats.Sum(c[1..])) / d == c[0] / d + Stats.Sum(c[1..]) / d;
    }
  }

  /** A constant signal standardises to all zeros, whatever `sqrt` returns. */
  lemma ConstantStandardisesToZero(sig: seq<real>, sqrt: real -> real)
    requires |sig| > 0 && forall i :: 0 <= i < |sig| ==> sig[i] == sig[0]
    ensures forall i :: 0 <= i < |sig| ==> Standardise(sig, sqrt)[i] == 0.0
  {
    Stats.MeanConstant(sig, sig[0]);
  }

  /** Every value wrapped as present. */
  function Wrap(xs: seq<real>): (s: seq<Option<real>>)
    ensures |s| == |xs| && forall i :: 0 <= i < |xs| ==> s[i] == Some(xs[i])
  {
    seq(|xs|, i requires 0 <= i < |xs| => Some(xs[i]))
  }

  /**
   * The array handed to the search. With a reading present it is the
   * standardised signal; a window without any reading fills to all NaN, whose
   * mean and standard deviation are NaN, so the comparison `std > 0` fails
   * and centring leaves every value NaN (missing).
   */
  function SearchInput(w: seq<Sample>, sqrt: real -> real): (z: seq<Option<real>>)
    requires |w| > 0
    ensures |z| == |w|
    ensures (exists i :: 0 <= i < |w| && w[i].value.Some?) ==> z == Wrap(Standardise(Signal(w), sqrt))
    ensures (forall i :: 0 <= i < |w| ==> w[i].value.None?) ==> forall i :: 0 <= i < |w| ==> z[i].None?
  {
    if exists i :: 0 <= i < |w| && w[i].value.Some? then Wrap(Standardise(Signal(w), sqrt))
    else seq(|w|, i => None)
  }

  // ---------------------------------------------------------------------
  // From breakpoints to reported indices

  /** `[b - 1 for b in bkps if b - 1 < n and b - 1 >= 0]`. */
  function SegmentEnds(bkps: seq<int>, n: int): (r: seq<int>)
    ensures |r| <= |bkps|
    ensures forall k :: 0 <= k < |r| ==> 0 <= r[k] < n
  {
    if bkps == [] then []
    else
      var rest := SegmentEnds(bkps[1..], n);
      if 0 <= bkps[0] - 1 < n then [bkps[0] - 1] + rest else rest
  }

  /** `[i for i in ends if i < n - 1]`: drop the end of the final segment. */
  function DropFinal(ends: seq<int>, n: int): (r: seq<int>)
    ensures |r| <= |ends|
    ensures forall k :: 0 <= k < |r| ==> r[k] < n - 1 && r[k] in ends
  {
    if ends == [] then []
    else
      var rest := DropFinal(ends[1..], n);
      if ends[0] < n - 1 then [ends[0]] + rest else rest
  }

  lemma {:induction false} SegmentEndsMembers(bkps: seq<int>, n: int, i: int)
    ensures i in SegmentEnds(bkps, n) <==> i + 1 in bkps && 0 <= i < n
  {
    if bkps != [] {
      SegmentEndsMembers(bkps[1..], n, i);
      assert bkps == [bkps[0]] + bkps[1..];
    }
  }

  lemma {:induction false} SegmentEndsIncreasing(bkps: seq<int>, n: int)
    requires StrictlyIncreasing(bkps)
    ensures StrictlyIncreasing(SegmentEnds(bkps, n))
  {
    if bkps != [] {
      var b := bkps[0];
      var rest := SegmentEnds(bkps[1..], n);
      TailIncreasing(bkps);
      SegmentEndsIncreasing(bkps[1..], n);
      if 0 <= b - 1 < n {
        forall x | x in rest
          ensures b - 1 < x
        {
          SegmentEndsMembers(bkps[1..], n, x);
        }
        ConsIncreasing(b - 1, rest);
      }
    }
  }

  lemma {:induction false} DropFinalMembers(ends: seq<int>, n: int, i: int)
    ensures i in DropFinal(ends, n) <==> i in ends && i < n - 1
  {
    if ends != [] {
      DropFinalMembers(ends[1..], n, i);
      assert ends == [ends[0]] + ends[1..];
    }
  }

  lemma {:induction false} DropFinalIncreasing(ends: seq<int>, n: int)
    requires StrictlyIncreasing(ends)
    ensures StrictlyIncreasing(DropFinal(ends, n))
  {
    if ends != [] {
      var rest := DropFinal(ends[1..], n);
      TailIncreasing(ends);
      DropFinalIncreasing(ends[1..], n);
      if ends[0] < n - 1 {
        ConsIncreasing(ends[0], rest);
      }
    }
  }

  /** The reported indices: segment ends, with the end of the final segment dropped. */
  function ChangePointIndices(bkps: seq<int>, n: int): (r: seq<int>)
    ensures forall k :: 0 <= k < |r| ==> 0 <= r[k] < n - 1
  {
    DropFinal(SegmentEnds(bkps, n), n)
  }

  /**
   * i is reported exactly when i + 1 is a breakpoint and 0 <= i < n - 1, so
   * the final position n - 1 never is; breakpoint order is kept.
   */
  lemma ChangePointIndicesSpec(bkps: seq<int>, n: int)
    ensures forall i :: i in ChangePointIndices(bkps, n) <==> i + 1 in bkps && 0 <= i < n - 1
    ensures n - 1 !in ChangePointIndices(bkps, n)
    ensures StrictlyIncreasing(bkps) ==> StrictlyIncreasing(ChangePointIndices(bkps, n))
  {
    forall i
      ensures i in ChangePointIndices(bkps, n) <==> i + 1 in bkps && 0 <= i < n - 1
    {
      DropFinalMembers(SegmentEnds(bkps, n), n, i);
      SegmentEndsMembers(bkps, n, i);
    }
    if StrictlyIncreasing(bkps) {
      SegmentEndsIncreasing(bkps, n);
      DropFinalIncreasing(SegmentEnds(bkps, n), n);
    }
  }

  /** Breakpoints b with 1 <= b <= n - 1, i.e. those that end a segment before the last. */
  function InteriorCount(bkps: seq<int>, n: int): nat
  {
    if bkps == [] then 0
    else (if 1 <= bkps[0] <= n - 1 then 1 else 0) + InteriorCount(bkps[1..], n)
  }

  /** One index is reported per interior breakpoint. */
  lemma {:induction false} IndicesCount(bkps: seq<int>, n: int)
    ensures |ChangePointIndices(bkps, n)| == InteriorCount(bkps, n)
  {
    if bkps != [] {
      IndicesCount(bkps[1..], n);
      var b := bkps[0];
      var tail := SegmentEnds(bkps[1..], n);
      if 0 <= b - 1 < n {
        assert SegmentEnds(bkps, n) == [b - 1] + tail;
        assert ([b - 1] + tail)[1..] == tail;
      }
    }
  }

  /**
   * The output PELT is taken to return: segment ends, strictly increasing,
   * in 1..n, the last of them n.
   */
  predicate ValidBreakpoints(bkps: seq<int>, n: int)
  {
    && |bkps| > 0
    && StrictlyIncreasing(bkps)
    && (forall k :: 0 <= k < |bkps| ==> 1 <= bkps[k] <= n)
    && bkps[|bkps| - 1] == n
  }

  /** Every breakpoint but the final one is interior. */
  lemma {:induction false} InteriorOfValid(bkps: seq<int>, n: int)
    requires ValidBreakpoints(bkps, n)
    ensures InteriorCount(bkps, n) == |bkps| - 1
  {
    if |bkps| > 1 {
      assert bkps[0] < bkps[|bkps| - 1];
      assert ValidBreakpoints(bkps[1..], n) by {
        assert bkps[1..][|bkps| - 2] == bkps[|bkps| - 1];
      }
      InteriorOfValid(bkps[1..], n);
    }
  }

  /** Every element decreased by one. */
  function Shifted(s: seq<int>): (r: seq<int>)
    ensures |r| == |s| && forall k :: 0 <= k < |s| ==> r[k] == s[k] - 1
  {
    seq(|s|, k requires 0 <= k < |s| => s[k] - 1)
  }

  /** Breakpoints all in 1..n each end a segment: each is kept, minus one. */
  lemma {:induction false} SegmentEndsInRange(bkps: seq<int>, n: int)
    requires forall k :: 0 <= k < |bkps| ==> 1 <= bkps[k] <= n
    ensures SegmentEnds(bkps, n) == Shifted(bkps)
  {
    if bkps != [] {
      SegmentEndsInRange(bkps[1..], n);
      assert Shifted(bkps) == [bkps[0] - 1] + Shifted(bkps[1..]);
    }
  }

  /** Ends below n - 1 except the last, which is n - 1: only the last is dropped. */
  lemma {:induction false} DropFinalOfLast(ends: seq<int>, n: int)
    requires |ends| > 0 && ends[|ends| - 1] == n - 1
    requires forall k :: 0 <= k < |ends| - 1 ==> ends[k] < n - 1
    ensures DropFinal(ends, n) == ends[..|ends| - 1]
  {
    if |ends| > 1 {
      DropFinalOfLast(ends[1..], n);
      assert ends[..|ends| - 1] == [ends[0]] + ends[1..][..|ends| - 2];
    }
  }

  /**
   * For PELT output of the assumed shape, exactly the breakpoints before the
   * last are reported, each minus one, in order.
   */
  lemma ValidBreakpointsReported(bkps: seq<int>, n: int)
    requires ValidBreakpoints(bkps, n)
    ensures ChangePointIndices(bkps, n) == Shifted(bkps[..|bkps| - 1])
    ensures |ChangePointIndices(bkps, n)| == |bkps| - 1
  {
    var m := |bkps| - 1;
    SegmentEndsInRange(bkps, n);
    var ends := Shifted(bkps);
    forall k | 0 <= k < m
      ensures ends[k] < n - 1
    {
      assert bkps[k] < bkps[m];
    }
    assert ends[m] == n - 1;
    DropFinalOfLast(ends, n);
    var kept := Shifted(bkps[..m]);
    assert |ends[..m]| == |kept|;
    forall k | 0 <= k < m
      ensures ends[..m][k] == kept[k]
    {
    }
    assert ends[..m] == kept;
  }

  // ---------------------------------------------------------------------
  // The analyzer

  /** "Detected {k} change points using PELT (l2) over last {n} days." */
  function Description(k: nat, n: nat): string
  {
    "Detected " + NatToString(k) + " change points using PELT (l2) over last " + NatToString(n) + " days."
  }

  /** The sentence determines both the number of change points and the number of days. */
  lemma DescriptionInjective(k1: nat, n1: nat, k2: nat, n2: nat)
    ensures Description(k1, n1) == Description(k2, n2) <==> k1 == k2 && n1 == n2
  {
    if Description(k1, n1) == Description(k2, n2) {
      var mid, tail := " change points using PELT (l2) over last ", " days.";
      var b1, b2 := NatToString(n1), NatToString(n2);
      DescriptionSplit(k1, n1);
      DescriptionSplit(k2, n2);
      PrefixCancel("Detected ", NatToString(k1) + (mid + (b1 + tail)), NatToString(k2) + (mid + (b2 + tail)));
      Format.NumeralPrefix(k1, k2, mid + (b1 + tail), mid + (b2 + tail));
      PrefixCancel(mid, b1 + tail, b2 + tail);
      Format.NumeralPrefix(n1, n2, tail, tail);
    }
  }

  /** The sentence as its fixed pieces around the two numerals. */
  lemma DescriptionSplit(k: nat, n: nat)
    ensures var mid, tail := " change points using PELT (l2) over last ", " days.";
      Description(k, n) == "Detected " + (NatToString(k) + (mid + (NatToString(n) + tail)))
      && (mid + (NatToString(n) + tail))[0] == ' ' && tail[0] == ' '
  {
  }

  /**
   * Change points of `metric` over a fetched window, with `sqrt` standing for
   * the square root and `pelt` for the breakpoint search on the standardised
   * signal. An unknown metric is refused and fewer than two rows give no
   * result; otherwise the indices are those ChangePointIndices derives from
   * the search's breakpoints, and they carry the ISO date and the formatted
   * raw reading of their row ("N/A" for a missing one).
   */
  function ComputeChangePoints(residentId: int, metric: string, w: seq<Sample>, limit: nat,
                               sqrt: real -> real, pelt: (seq<Option<real>>, int) -> seq<int>)
    : (r: Insight<ChangePointRead>)
    requires IsWindow(w, limit)
    ensures r.UnknownMetric? <==> !KnownMetric(metric)
    ensures r.UnknownMetric? ==> r.metric == metric
    ensures KnownMetric(metric) ==> (r.NoResult? <==> |w| < 2)
    ensures r.Found? ==>
      var bkps := pelt(SearchInput(w, sqrt), Penalty);
      var a := r.value;
      && a.residentId == residentId && a.metric == metric
      && a.changePointIndices == ChangePointIndices(bkps, |w|)
      && a.nChangePoints == |a.changePointIndices|
      && |a.changePointDates| == |a.changePointIndices| && |a.changePointValues| == |a.changePointIndices|
      && (forall k :: 0 <= k < |a.changePointIndices| ==>
            0 <= a.changePointIndices[k] < |w| - 1
            && a.changePointDates[k] == IsoDate(w[a.changePointIndices[k]].date)
            && a.changePointValues[k] == Format.FormatDuration(w[a.changePointIndices[k]].value))
      && a.description == Description(a.nChangePoints, |w|)
  {
    if !KnownMetric(metric) then UnknownMetric(metric)
    else
      var rows := w;
      if |rows| < 2 then NoResult
      else
        var sigStd := SearchInput(rows, sqrt);
        if |sigStd| == 0 then NoResult
        else
          var bkps := pelt(sigStd, Penalty);
          var cpIndices := ChangePointIndices(bkps, |sigStd|);
          var cpDates := seq(|cpIndices|, k requires 0 <= k < |cpIndices| => IsoDate(rows[cpIndices[k]].date));
          var cpValues := seq(|cpIndices|, k requires 0 <= k < |cpIndices| => FormatSecondsHMin(rows[cpIndices[k]].value));
          var description := Description(|cpIndices|, |rows|);
          Found(ChangePointRead(residentId, metric, |cpIndices|, cpIndices, cpDates, cpValues, description))
  }

  /**
   * With a search that returns breakpoints of the assumed shape, one change
   * point is reported per breakpoint but the last: breakpoint b gives index
   * b - 1.
   */
  lemma ChangePointsOfValidSearch(residentId: int, metric: string, w: seq<Sample>, limit: nat,
                                  sqrt: real -> real, pelt: (seq<Option<real>>, int) -> seq<int>)
    requires IsWindow(w, limit) && KnownMetric(metric) && |w| >= 2
    requires ValidBreakpoints(pelt(SearchInput(w, sqrt), Penalty), |w|)
    ensures var r := ComputeChangePoints(residentId, metric, w, limit, sqrt, pelt);
      var bkps := pelt(SearchInput(w, sqrt), Penalty);
      && r.Found?
      && r.value.nChangePoints == |bkps| - 1
      && r.value.changePointIndices == Shifted(bkps[..|bkps| - 1])
  {
    ValidBreakpointsReported(pelt(SearchInput(w, sqrt), Penalty), |w|);
  }
}
