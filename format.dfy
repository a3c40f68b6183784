/**
 * The value formatter: a signed duration in seconds rendered as a compact
 * "Xh Ymin" string from its magnitude. This is the single reference
 * definition; each service file carries its own copy written with Python's
 * float operators, and each copy is proved equal to FormatDuration.
 */
module Format {
  import opened Common
  import PyFloat

  /** Whole minutes in the magnitude of a duration of `s` seconds. */
  function TotalMinutes(s: real): nat
  {
    (Abs(s) / 60.0).Floor
  }

  /** Whole hours in |s|. */
  function Hours(s: real): nat
  {
    TotalMinutes(s) / 60
  }

  /** Whole minutes in |s| beyond the whole hours. */
  function Minutes(s: real): nat
  {
    TotalMinutes(s) % 60
  }

  /** Hours and minutes pin |s| down to one minute, and minutes is below 60. */
  lemma SplitBounds(s: real)
    ensures Minutes(s) < 60
    ensures ((3600 * Hours(s) + 60 * Minutes(s)) as real) <= Abs(s)
    ensures Abs(s) < (3600 * Hours(s) + 60 * Minutes(s) + 60) as real
  {
    var t := TotalMinutes(s);
    assert t as real <= Abs(s) / 60.0 < t as real + 1.0;
    assert t == 60 * Hours(s) + Minutes(s);
  }

  /** Any split satisfying the bounds of SplitBounds is the canonical one. */
  lemma SplitUnique(s: real, h: int, m: int)
    requires 0 <= h && 0 <= m < 60
    requires ((3600 * h + 60 * m) as real) <= Abs(s) < ((3600 * h + 60 * m + 60) as real)
    ensures h == Hours(s) && m == Minutes(s)
  {
    var k := 60 * h + m;
    assert k as real <= Abs(s) / 60.0 < k as real + 1.0;
    assert TotalMinutes(s) == k;
  }

  /**
   * What the service copies compute from the magnitude with `//`, `%` and
   * `int()` is the canonical split: hours = int(x // 3600) and
   * minutes = int((x % 3600) // 60).
   */
  lemma {:induction false} PythonSplitAgrees(x: real)
    requires x >= 0.0
    ensures PyFloat.Int(PyFloat.FloorDiv(x, 3600.0)) == Hours(x)
    ensures PyFloat.Int(PyFloat.FloorDiv(PyFloat.Mod(x, 3600.0), 60.0)) == Minutes(x)
  {
    var hq := PyFloat.FloorDiv(x, 3600.0);
    var rem := PyFloat.Mod(x, 3600.0);
    var mq := PyFloat.FloorDiv(rem, 60.0);
    var h := hq.Floor;
    var m := mq.Floor;
    assert h as real <= x / 3600.0 < h as real + 1.0;
    assert 0.0 <= rem < 3600.0;
    assert m as real <= rem / 60.0 < m as real + 1.0;
    assert 0 <= m < 60;
    SplitUnique(x, h, m);
  }

  /** Rendering of an hours/minutes pair: "{h}h {m}min", "{h}h" or "{m}min". */
  function HoursMinutes(h: nat, m: nat): (r: string)
    ensures |r| > 0 && IsDigit(r[0])
  {
    if h != 0 && m != 0 then NatToString(h) + "h " + NatToString(m) + "min"
    else if h != 0 then NatToString(h) + "h"
    else NatToString(m) + "min"
  }

  /**
   * The reference formatter. A missing value renders as "N/A"; a present one
   * renders from its magnitude and always starts with a digit, so "N/A"
   * marks exactly the missing values.
   */
  function FormatDuration(v: Option<real>): (r: string)
    ensures v.None? <==> r == "N/A"
    ensures v.Some? ==> |r| > 0 && IsDigit(r[0])
  {
    match v
    case None => "N/A"
    case Some(s) =>
      var r := HoursMinutes(Hours(s), Minutes(s));
      assert r != "N/A" by { assert IsDigit(r[0]) && !IsDigit("N/A"[0]); }
      r
  }

  /** The rendering depends only on |s|: the sign is never shown. */
  lemma FormatIgnoresSign(s: real)
    ensures FormatDuration(Some(-s)) == FormatDuration(Some(s))
    ensures FormatDuration(Some(s)) == FormatDuration(Some(Abs(s)))
  {
  }

  /** Hours and minutes are those of the magnitude. */
  lemma SplitIgnoresSign(s: real)
    ensures Hours(-s) == Hours(s) && Minutes(-s) == Minutes(s)
  {
    assert Abs(-s) == Abs(s);
  }

  /** Which of the three shapes a present value takes. */
  lemma FormatShape(s: real)
    ensures Hours(s) != 0 && Minutes(s) != 0 ==>
      FormatDuration(Some(s)) == NatToString(Hours(s)) + "h " + NatToString(Minutes(s)) + "min"
    ensures Hours(s) != 0 && Minutes(s) == 0 ==>
      FormatDuration(Some(s)) == NatToString(Hours(s)) + "h"
    ensures Hours(s) == 0 ==> FormatDuration(Some(s)) == NatToString(Minutes(s)) + "min"
    ensures Abs(s) < 60.0 ==> FormatDuration(Some(s)) == "0min"
  {
    if Abs(s) < 60.0 {
      assert TotalMinutes(s) == 0;
    }
  }

  /** A whole number h of hours, fewer than ten, renders as "{h}h". */
  lemma HoursOnlyRendering(s: real, h: nat)
    requires 0 < h < 10 && Abs(s) == (3600 * h) as real
    ensures Hours(s) == h && Minutes(s) == 0
    ensures FormatDuration(Some(s)) == [DigitChar(h), 'h']
    ensures ChangePhrase(h, 0) == [DigitChar(h), 'h']
  {
    assert TotalMinutes(s) == 60 * h;
  }

  /** The documented examples, and the sign being dropped. */
  lemma FormatExamples()
    ensures FormatDuration(Some(9000.0)) == "2h 30min"
    ensures FormatDuration(Some(3600.0)) == "1h"
    ensures FormatDuration(Some(120.0)) == "2min"
    ensures FormatDuration(Some(0.0)) == "0min"
    ensures FormatDuration(Some(-9000.0)) == "2h 30min"
    ensures FormatDuration(None) == "N/A"
  {
    assert TotalMinutes(9000.0) == 150;
    assert TotalMinutes(-9000.0) == 150;
    assert TotalMinutes(3600.0) == 60;
    assert TotalMinutes(120.0) == 2;
    assert TotalMinutes(0.0) == 0;
    assert NatToString(30) == "30";
  }

  // ---------------------------------------------------------------------
  // Reading a rendering back: the string determines the hours and minutes.

  /** Length of the run of decimal digits at the start of `s`. */
  function SpanDigits(s: string): (n: nat)
    ensures n <= |s| && AllDigits(s[..n])
    ensures n < |s| ==> !IsDigit(s[n])
  {
    if s == [] || !IsDigit(s[0]) then 0 else 1 + SpanDigits(s[1..])
  }

  lemma {:induction false} SpanDigitsOfNumeral(d: string, rest: string)
    requires AllDigits(d)
    requires rest == [] || !IsDigit(rest[0])
    ensures SpanDigits(d + rest) == |d|
  {
    if d != [] {
      assert (d + rest)[1..] == d[1..] + rest;
      SpanDigitsOfNumeral(d[1..], rest);
    }
  }

  /** Parses "{h}h {m}min", "{h}h" or "{m}min" back into (h, m). */
  function ParseDuration(s: string): Option<(nat, nat)>
  {
    var k := SpanDigits(s);
    if k == 0 then None else ParseAfterNumber(ParseNat(s[..k]), s[k..])
  }

  /** The rest of a rendering after its leading number x. */
  function ParseAfterNumber(x: nat, rest: string): Option<(nat, nat)>
  {
    if rest == "min" then Some((0, x))
    else if rest == "h" then Some((x, 0))
    else if |rest| >= 2 && rest[..2] == "h " then ParseMinutesTail(x, rest[2..])
    else None
  }

  /** The "{m}min" after "{h}h ". */
  function ParseMinutesTail(h: nat, t: string): Option<(nat, nat)>
  {
    var k := SpanDigits(t);
    if k > 0 && t[k..] == "min" then Some((h, ParseNat(t[..k]))) else None
  }

  /** Reading back the digits of a numeral followed by a non-digit tail. */
  lemma NumeralThen(n: nat, rest: string)
    requires rest == [] || !IsDigit(rest[0])
    ensures SpanDigits(NatToString(n) + rest) == |NatToString(n)|
    ensures (NatToString(n) + rest)[..|NatToString(n)|] == NatToString(n)
    ensures (NatToString(n) + rest)[|NatToString(n)|..] == rest
    ensures ParseNat(NatToString(n)) == n
  {
    SpanDigitsOfNumeral(NatToString(n), rest);
    ParseNatToString(n);
  }

  /** Two texts that each start with a numeral and go on with a non-digit split alike. */
  lemma NumeralPrefix(a: nat, b: nat, r1: string, r2: string)
    requires r1 == [] || !IsDigit(r1[0])
    requires r2 == [] || !IsDigit(r2[0])
    requires NatToString(a) + r1 == NatToString(b) + r2
    ensures a == b && r1 == r2
  {
    NumeralThen(a, r1);
    NumeralThen(b, r2);
  }

  /** A rendering starting with the numeral of n is parsed on from after it. */
  lemma ParseNumeral(n: nat, rest: string)
    requires rest == [] || !IsDigit(rest[0])
    ensures ParseDuration(NatToString(n) + rest) == ParseAfterNumber(n, rest)
  {
    NumeralThen(n, rest);
  }

  lemma ParseBoth(h: nat, m: nat)
    requires h != 0 && m != 0
    ensures ParseDuration(HoursMinutes(h, m)) == Some((h, m))
  {
    var tail := NatToString(m) + "min";
    var rest := "h " + tail;
    assert HoursMinutes(h, m) == NatToString(h) + rest;
    ParseNumeral(h, rest);
    assert ParseAfterNumber(h, rest) == ParseMinutesTail(h, tail) by {
      assert rest != "min" && rest != "h";
      assert rest[..2] == "h " && rest[2..] == tail;
    }
    assert ParseMinutesTail(h, tail) == Some((h, m)) by {
      NumeralThen(m, "min");
    }
  }

  lemma ParseHoursOnly(h: nat)
    requires h != 0
    ensures ParseDuration(HoursMinutes(h, 0)) == Some((h, 0))
  {
    assert HoursMinutes(h, 0) == NatToString(h) + "h";
    ParseNumeral(h, "h");
    assert "h" != "min";
  }

  lemma ParseMinutesOnly(m: nat)
    ensures ParseDuration(HoursMinutes(0, m)) == Some((0, m))
  {
    assert HoursMinutes(0, m) == NatToString(m) + "min";
    ParseNumeral(m, "min");
  }

  lemma ParseHoursMinutes(h: nat, m: nat)
    ensures ParseDuration(HoursMinutes(h, m)) == Some((h, m))
  {
    if h != 0 && m != 0 {
      ParseBoth(h, m);
    } else if h != 0 {
      ParseHoursOnly(h);
    } else {
      ParseMinutesOnly(m);
    }
  }

  /** A present value's rendering parses back to its hours and minutes. */
  lemma FormatDurationParses(s: real)
    ensures ParseDuration(FormatDuration(Some(s))) == Some((Hours(s), Minutes(s)))
  {
    ParseHoursMinutes(Hours(s), Minutes(s));
  }

  /**
   * Two present durations render alike exactly when their magnitudes hold
   * the same number of whole minutes.
   */
  lemma SameRendering(a: real, b: real)
    ensures FormatDuration(Some(a)) == FormatDuration(Some(b)) <==> TotalMinutes(a) == TotalMinutes(b)
  {
    if FormatDuration(Some(a)) == FormatDuration(Some(b)) {
      FormatDurationParses(a);
      FormatDurationParses(b);
      assert TotalMinutes(a) == 60 * Hours(a) + Minutes(a);
      assert TotalMinutes(b) == 60 * Hours(b) + Minutes(b);
    }
  }

  // ---------------------------------------------------------------------
  // The trend description's wording of a magnitude.

  /** "{h}h and {m} minutes", "{h}h" or "{m} minutes". */
  function ChangePhrase(h: nat, m: nat): string
  {
    if h != 0 && m != 0 then NatToString(h) + "h and " + NatToString(m) + " minutes"
    else if h != 0 then NatToString(h) + "h"
    else NatToString(m) + " minutes"
  }

  /** The wording leads with the hours when there are any, else with the minutes. */
  function PhraseLead(h: nat, m: nat): nat
  {
    if h != 0 then h else m
  }

  /** What follows the leading numeral. */
  function PhraseRest(h: nat, m: nat): string
  {
    if h != 0 && m != 0 then "h and " + NatToString(m) + " minutes"
    else if h != 0 then "h"
    else " minutes"
  }

  /** Different magnitudes are never worded alike. */
  lemma ChangePhraseInjective(h1: nat, m1: nat, h2: nat, m2: nat)
    ensures ChangePhrase(h1, m1) == ChangePhrase(h2, m2) <==> h1 == h2 && m1 == m2
  {
    if ChangePhrase(h1, m1) == ChangePhrase(h2, m2) {
      var r1, r2 := PhraseRest(h1, m1), PhraseRest(h2, m2);
      PhraseSplit(h1, m1);
      PhraseSplit(h2, m2);
      NumeralPrefix(PhraseLead(h1, m1), PhraseLead(h2, m2), r1, r2);
      if h1 != 0 && m1 != 0 {
        assert h2 != 0 && m2 != 0 by {
          assert r1[0] == 'h' && |r1| > 1;
          assert r2 != "h" && r2 != " minutes";
        }
        var tail := " minutes";
        assert r1 == "h and " + (NatToString(m1) + tail);
        assert r2 == "h and " + (NatToString(m2) + tail);
        PrefixCancel("h and ", NatToString(m1) + tail, NatToString(m2) + tail);
        assert tail[0] == ' ';
        NumeralPrefix(m1, m2, tail, tail);
      } else if h1 != 0 {
        assert r1 == "h";
      } else {
        assert r1 == " minutes";
      }
    }
  }

  /** Each wording is the leading numeral followed by a non-digit rest. */
  lemma PhraseSplit(h: nat, m: nat)
    ensures ChangePhrase(h, m) == NatToString(PhraseLead(h, m)) + PhraseRest(h, m)
    ensures PhraseRest(h, m)[0] == (if h != 0 then 'h' else ' ')
  {
    if h != 0 && m != 0 {
      assert NatToString(h) + "h and " + NatToString(m) + " minutes"
        == NatToString(h) + ("h and " + NatToString(m) + " minutes");
    }
  }

}
