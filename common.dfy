/**
 * Shared vocabulary of the insight engine: optional readings, calendar dates,
 * the (date, value) samples a series provider hands to an analyzer, the three
 * outcomes of an analyzer call, the closed set of metric keys, and the decimal
 * rendering of whole numbers that every formatted string is built from.
 */
module Common {

  /** A reading that may be missing (pandas NaN / SQL NULL). */
  datatype Option<+T> = None | Some(value: T)

  /** A calendar date; only its field order and its ISO rendering matter here. */
  datatype Date = Date(year: nat, month: nat, day: nat)

  /** Strict chronological order on dates: by year, then month, then day. */
  predicate Before(a: Date, b: Date)
  {
    a.year < b.year
    || (a.year == b.year && a.month < b.month)
    || (a.year == b.year && a.month == b.month && a.day < b.day)
  }

  /** One daily reading of one metric for one resident, in seconds. */
  datatype Sample = Sample(date: Date, value: Option<real>)

  /**
   * What the series provider promises about a fetched window: at most `limit`
   * rows, oldest first (the table does not make dates unique, so two rows
   * may share a date).
   */
  predicate IsWindow(w: seq<Sample>, limit: nat)
  {
    |w| <= limit && forall i :: 0 < i < |w| ==> !Before(w[i].date, w[i - 1].date)
  }

  /** The value column of a window, in window order. */
  function Values(w: seq<Sample>): (vs: seq<Option<real>>)
    ensures |vs| == |w|
    ensures forall i :: 0 <= i < |w| ==> vs[i] == w[i].value
  {
    seq(|w|, i requires 0 <= i < |w| => w[i].value)
  }

  /**
   * The three ways an analyzer call ends: the metric key is not one the
   * provider knows (it raises before fetching), there is not enough data,
   * or a result was computed.
   */
  datatype Insight<+T> = UnknownMetric(metric: string) | NoResult | Found(value: T)

  /** The metric keys the series provider maps to columns. */
  predicate KnownMetric(metric: string)
  {
    metric == "time_in_bed" || metric == "low_activity"
    || metric == "high_activity" || metric == "at_rest"
  }

  /** Each element is smaller than the next. */
  predicate StrictlyIncreasing(s: seq<int>)
  {
    forall i, j :: 0 <= i < j < |s| ==> s[i] < s[j]
  }

  /** Dropping the first element keeps the order, and the first is below the rest. */
  lemma TailIncreasing(s: seq<int>)
    requires |s| > 0 && StrictlyIncreasing(s)
    ensures StrictlyIncreasing(s[1..])
    ensures forall x :: x in s[1..] ==> s[0] < x
  {
  }

  /** Putting a smaller element in front keeps the order. */
  lemma ConsIncreasing(a: int, s: seq<int>)
    requires StrictlyIncreasing(s) && forall x :: x in s ==> a < x
    ensures StrictlyIncreasing([a] + s)
  {
    forall i, j | 0 <= i < j < |[a] + s|
      ensures ([a] + s)[i] < ([a] + s)[j]
    {
      if i == 0 {
        assert ([a] + s)[j] == s[j - 1] && s[j - 1] in s;
      } else {
        assert ([a] + s)[i] == s[i - 1] && ([a] + s)[j] == s[j - 1];
      }
    }
  }

  function Abs(x: real): (r: real)
    ensures r >= 0.0 && (r == x || r == -x)
  {
    if x < 0.0 then -x else x
  }

  /** The metric key as prose: every underscore becomes a space. */
  function ReplaceUnderscores(s: string): (r: string)
    ensures |r| == |s|
    ensures forall i :: 0 <= i < |s| ==> r[i] == (if s[i] == '_' then ' ' else s[i])
  {
    if s == [] then [] else [if s[0] == '_' then ' ' else s[0]] + ReplaceUnderscores(s[1..])
  }

  // ---------------------------------------------------------------------
  // Decimal rendering of natural numbers (Python's str() / f-string of an int)

  predicate IsDigit(c: char)
  {
    '0' <= c <= '9'
  }

  predicate AllDigits(s: string)
  {
    forall i :: 0 <= i < |s| ==> IsDigit(s[i])
  }

  function DigitChar(d: nat): (c: char)
    requires d < 10
    ensures IsDigit(c) && c as int - '0' as int == d
  {
    (48 + d) as char
  }

  function DigitValue(c: char): (d: nat)
    requires IsDigit(c)
    ensures d < 10
  {
    c as int - '0' as int
  }

  /** Shortest decimal numeral of `n`: digits only, no leading zero. */
  function NatToString(n: nat): (s: string)
    ensures 1 <= |s| && AllDigits(s)
    ensures s[0] == '0' ==> n == 0 && s == "0"
    decreases n
  {
    if n < 10 then [DigitChar(n)] else NatToString(n / 10) + [DigitChar(n % 10)]
  }

  /** Value of a string of decimal digits (the empty string reads as 0). */
  function ParseNat(s: string): nat
    requires AllDigits(s)
  {
    if s == [] then 0 else 10 * ParseNat(s[..|s| - 1]) + DigitValue(s[|s| - 1])
  }

  /** Reading a rendered numeral back gives the number: the rendering is injective. */
  lemma {:induction false} ParseNatToString(n: nat)
    ensures ParseNat(NatToString(n)) == n
    decreases n
  {
    var s := NatToString(n);
    if n < 10 {
      assert s[..|s| - 1] == [];
    } else {
      ParseNatToString(n / 10);
      assert s[..|s| - 1] == NatToString(n / 10);
    }
  }

  lemma NatToStringInjective(a: nat, b: nat)
    requires NatToString(a) == NatToString(b)
    ensures a == b
  {
    ParseNatToString(a);
    ParseNatToString(b);
  }

  /** Left-pad with zeros to at least `width` characters (Python's %0Nd). */
  function ZeroPad(s: string, width: nat): (r: string)
    ensures |r| == if |s| >= width then |s| else width
    ensures r[|r| - |s|..] == s
    ensures forall i :: 0 <= i < |r| - |s| ==> r[i] == '0'
  {
    var pad := if |s| >= width then 0 else width - |s|;
    var zeros := seq(pad, _ => '0');
    assert (zeros + s)[pad..] == s;
    zeros + s
  }

  /** A common prefix cancels. */
  lemma PrefixCancel(p: string, x: string, y: string)
    requires p + x == p + y
    ensures x == y
  {
    assert x == (p + x)[|p|..];
    assert y == (p + y)[|p|..];
  }

  /** 10 to the power k. */
  function Pow10(k: nat): nat
  {
    if k == 0 then 1 else 10 * Pow10(k - 1)
  }

  /** A number below 10^k has at most k digits. */
  lemma {:induction false} NatToStringWidth(n: nat, k: nat)
    requires 1 <= k && n < Pow10(k)
    ensures |NatToString(n)| <= k
  {
    if n >= 10 {
      assert n / 10 < Pow10(k - 1);
      NatToStringWidth(n / 10, k - 1);
    }
  }

  /** A run of zeros reads as 0. */
  lemma {:induction false} ZerosParse(z: string)
    requires forall i :: 0 <= i < |z| ==> z[i] == '0'
    ensures AllDigits(z) && ParseNat(z) == 0
  {
    if z != [] {
      ZerosParse(z[..|z| - 1]);
    }
  }

  /** Leading zeros do not change the value of a numeral. */
  lemma {:induction false} ParseAfterZeros(z: string, s: string)
    requires forall i :: 0 <= i < |z| ==> z[i] == '0'
    requires AllDigits(s)
    ensures AllDigits(z + s) && ParseNat(z + s) == ParseNat(s)
  {
    ZerosParse(z);
    if s == [] {
      assert z + s == z;
    } else {
      var t := z + s;
      assert t[..|t| - 1] == z + s[..|s| - 1];
      ParseAfterZeros(z, s[..|s| - 1]);
    }
  }

  /** A number below 10^width, zero-padded to width, has exactly width digits and reads back as itself. */
  lemma PaddedNumeral(n: nat, width: nat)
    requires 1 <= width && n < Pow10(width)
    ensures var p := ZeroPad(NatToString(n), width);
      |p| == width && AllDigits(p) && ParseNat(p) == n
  {
    var s := NatToString(n);
    var p := ZeroPad(s, width);
    NatToStringWidth(n, width);
    var z := p[..|p| - |s|];
    assert p == z + s;
    ParseAfterZeros(z, s);
    ParseNatToString(n);
  }

  /**
   * `str(date)`: ISO 8601 "YYYY-MM-DD". For a year below 10000 and a month
   * and day below 100 the rendering is ten characters with dashes at 4 and 7,
   * and its three digit fields read back as the year, month and day.
   */
  function IsoDate(d: Date): (r: string)
    ensures d.year < 10000 && d.month < 100 && d.day < 100 ==>
      |r| == 10 && r[4] == '-' && r[7] == '-'
      && AllDigits(r[..4]) && AllDigits(r[5..7]) && AllDigits(r[8..])
      && ParseNat(r[..4]) == d.year && ParseNat(r[5..7]) == d.month && ParseNat(r[8..]) == d.day
  {
    var y := ZeroPad(NatToString(d.year), 4);
    var m := ZeroPad(NatToString(d.month), 2);
    var dd := ZeroPad(NatToString(d.day), 2);
    var r := y + "-" + m + "-" + dd;
    if d.year < 10000 && d.month < 100 && d.day < 100 then
      PaddedNumeral(d.year, 4);
      PaddedNumeral(d.month, 2);
      PaddedNumeral(d.day, 2);
      assert r[..4] == y && r[5..7] == m && r[8..] == dd;
      r
    else r
  }
}
