/**
 * pandas' `Series.ffill().bfill()` on a column of optional readings: every
 * missing value takes the nearest present value before it, and a missing
 * value with none before it takes the nearest present value after it.
 */
module Series {
  import opened Common

  /** No value of `s` in [lo, hi) is present. */
  predicate MissingIn(s: seq<Option<real>>, lo: int, hi: int)
  {
    forall k :: 0 <= lo <= k < hi <= |s| ==> s[k].None?
  }

  /** The nearest present value at or before index i, if any. */
  function LastPresent(s: seq<Option<real>>, i: nat): Option<real>
    requires i < |s|
  {
    if s[i].Some? || i == 0 then s[i] else LastPresent(s, i - 1)
  }

  /** The nearest present value at or after index i, if any. */
  function NextPresent(s: seq<Option<real>>, i: nat): Option<real>
    requires i < |s|
    decreases |s| - i
  {
    if s[i].Some? || i == |s| - 1 then s[i] else NextPresent(s, i + 1)
  }

  /** `ffill()`: each position holds the last value seen so far. */
  function FFill(s: seq<Option<real>>): (r: seq<Option<real>>)
    ensures |r| == |s|
    ensures forall i :: 0 <= i < |s| ==> r[i] == LastPresent(s, i)
  {
    seq(|s|, i requires 0 <= i < |s| => LastPresent(s, i))
  }

  /** `bfill()`: each position holds the next value still to come. */
  function BFill(s: seq<Option<real>>): (r: seq<Option<real>>)
    ensures |r| == |s|
    ensures forall i :: 0 <= i < |s| ==> r[i] == NextPresent(s, i)
  {
    seq(|s|, i requires 0 <= i < |s| => NextPresent(s, i))
  }

  /** `ffill().bfill()`. */
  function GapFill(s: seq<Option<real>>): seq<Option<real>>
  {
    BFill(FFill(s))
  }

  /**
   * LastPresent finds the present value at the largest index j <= i, and is
   * missing exactly when nothing up to i is present.
   */
  lemma {:induction false} LastPresentIsNearest(s: seq<Option<real>>, i: nat, j: nat)
    requires j <= i < |s| && s[j].Some? && MissingIn(s, j + 1, i + 1)
    ensures LastPresent(s, i) == s[j]
    decreases i
  {
    if i != j {
      LastPresentIsNearest(s, i - 1, j);
    }
  }

  lemma {:induction false} LastPresentMissing(s: seq<Option<real>>, i: nat)
    requires i < |s|
    ensures LastPresent(s, i).None? <==> MissingIn(s, 0, i + 1)
    decreases i
  {
    if i > 0 && s[i].None? {
      LastPresentMissing(s, i - 1);
    }
  }

  /** NextPresent finds the present value at the smallest index j >= i. */
  lemma {:induction false} NextPresentIsNearest(s: seq<Option<real>>, i: nat, j: nat)
    requires i <= j < |s| && s[j].Some? && MissingIn(s, i, j)
    ensures NextPresent(s, i) == s[j]
    decreases j - i
  {
    if i != j {
      NextPresentIsNearest(s, i + 1, j);
    }
  }

  lemma {:induction false} NextPresentMissing(s: seq<Option<real>>, i: nat)
    requires i < |s|
    ensures NextPresent(s, i).None? <==> MissingIn(s, i, |s|)
    decreases |s| - i
  {
    if i < |s| - 1 && s[i].None? {
      NextPresentMissing(s, i + 1);
    }
  }

  /** A present value is kept as it is. */
  lemma GapFillKeepsPresent(s: seq<Option<real>>, i: nat)
    requires i < |s| && s[i].Some?
    ensures GapFill(s)[i] == s[i]
  {
  }

  /** A missing value with a present value before it takes the nearest one. */
  lemma GapFillFromBefore(s: seq<Option<real>>, i: nat, j: nat)
    requires j < i < |s| && s[j].Some? && MissingIn(s, j + 1, i + 1)
    ensures GapFill(s)[i] == s[j]
  {
    LastPresentIsNearest(s, i, j);
  }

  /**
   * A missing value with nothing present before it takes the nearest present
   * value after it.
   */
  lemma GapFillFromAfter(s: seq<Option<real>>, i: nat, j: nat)
    requires i < j < |s| && s[j].Some? && MissingIn(s, 0, j)
    ensures GapFill(s)[i] == s[j]
  {
    var f := FFill(s);
    forall k | i <= k < j
      ensures f[k].None?
    {
      LastPresentMissing(s, k);
    }
    assert f[j] == s[j];
    NextPresentIsNearest(f, i, j);
  }

  /**
   * After filling, a position is missing exactly when the whole column was
   * missing: one present value anywhere fills every gap.
   */
  lemma GapFillMissing(s: seq<Option<real>>, i: nat)
    requires i < |s|
    ensures GapFill(s)[i].None? <==> MissingIn(s, 0, |s|)
  {
    var f := FFill(s);
    LastPresentMissing(s, i);
    if f[i].None? {
      NextPresentMissing(f, i);
      if MissingIn(f, i, |s|) {
        forall k | 0 <= k < |s|
          ensures s[k].None?
        {
          if k > i {
            LastPresentMissing(s, k);
          }
        }
      } else {
        var k :| i <= k < |s| && f[k].Some?;
        LastPresentMissing(s, k);
      }
    }
  }

  /** Filling keeps the length, and an all-missing column stays all missing. */
  lemma GapFillAllMissing(s: seq<Option<real>>)
    requires MissingIn(s, 0, |s|)
    ensures |GapFill(s)| == |s| && MissingIn(GapFill(s), 0, |s|)
  {
    forall i | 0 <= i < |s|
      ensures GapFill(s)[i].None?
    {
      GapFillMissing(s, i);
    }
  }

  /** One present value anywhere leaves no gap at all. */
  lemma GapFillComplete(s: seq<Option<real>>, j: nat)
    requires j < |s| && s[j].Some?
    ensures |GapFill(s)| == |s|
    ensures forall i :: 0 <= i < |s| ==> GapFill(s)[i].Some?
  {
    forall i | 0 <= i < |s|
      ensures GapFill(s)[i].Some?
    {
      GapFillMissing(s, i);
    }
  }

  lemma {:induction false} LastPresentFrom(s: seq<Option<real>>, i: nat)
    requires i < |s| && LastPresent(s, i).Some?
    ensures exists j :: 0 <= j <= i && s[j] == LastPresent(s, i)
    decreases i
  {
    if s[i].None? && i > 0 {
      LastPresentFrom(s, i - 1);
    }
  }

  lemma {:induction false} NextPresentFrom(s: seq<Option<real>>, i: nat)
    requires i < |s| && NextPresent(s, i).Some?
    ensures exists j :: i <= j < |s| && s[j] == NextPresent(s, i)
    decreases |s| - i
  {
    if s[i].None? && i < |s| - 1 {
      NextPresentFrom(s, i + 1);
    }
  }

  /** Every filled value is one of the column's present values. */
  lemma GapFillFrom(s: seq<Option<real>>, i: nat)
    requires i < |s| && GapFill(s)[i].Some?
    ensures exists j :: 0 <= j < |s| && s[j] == GapFill(s)[i]
  {
    var f := FFill(s);
    NextPresentFrom(f, i);
    var k :| i <= k < |s| && f[k] == GapFill(s)[i];
    LastPresentFrom(s, k);
  }

  /** No two present values of `s` differ. */
  predicate PresentAgree(s: seq<Option<real>>)
  {
    forall i, j :: 0 <= i < |s| && 0 <= j < |s| && s[i].Some? && s[j].Some? ==> s[i] == s[j]
  }

  /**
   * The filled column is constant exactly when the present values of the
   * original column all agree (including when there are none).
   */
  lemma GapFillConstant(s: seq<Option<real>>)
    ensures (forall i :: 0 <= i < |s| ==> GapFill(s)[i] == GapFill(s)[0]) <==> PresentAgree(s)
  {
    var g := GapFill(s);
    if forall i :: 0 <= i < |s| ==> g[i] == g[0] {
      forall i, j | 0 <= i < |s| && 0 <= j < |s| && s[i].Some? && s[j].Some?
        ensures s[i] == s[j]
      {
        GapFillKeepsPresent(s, i);
        GapFillKeepsPresent(s, j);
      }
    }
    if PresentAgree(s) && |s| > 0 {
      forall i | 0 <= i < |s|
        ensures g[i] == g[0]
      {
        GapFillMissing(s, i);
        GapFillMissing(s, 0);
        if g[i].Some? {
          GapFillFrom(s, i);
          GapFillFrom(s, 0);
        }
      }
    }
  }
}
