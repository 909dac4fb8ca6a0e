/**
 * Wall-clock text used by the converter: moment's `HH:mm` form, the unpadded `H:MM`
 * form of the dropdown values, the 12-hour `h:mm A` form of the dropdown labels, and
 * the reading of such text back into minutes (`moment.duration(text).asMinutes()`).
 * A local day is taken to have exactly 1440 minutes.
 */
module Clock {
  import opened Wrappers

  const MinutesPerDay: int := 1440

  predicate IsDigit(c: char) { '0' <= c <= '9' }

  predicate AllDigits(s: string) { forall i :: 0 <= i < |s| ==> IsDigit(s[i]) }

  function Digit(d: nat): (c: char)
    requires d < 10
    ensures IsDigit(c) && c as int - '0' as int == d
  {
    ('0' as int + d) as char
  }

  /** The number a string of decimal digits denotes. */
  function DigitsValue(s: string): nat
    requires AllDigits(s)
  {
    if s == [] then 0 else DigitsValue(s[..|s| - 1]) * 10 + (s[|s| - 1] as int - '0' as int)
  }

  /** A number below 100 as two digits, zero-padded (moment's `HH` and `mm`). */
  function Pad2(n: nat): string
    requires n < 100
  {
    [Digit(n / 10), Digit(n % 10)]
  }

  /** A number below 100 as a template literal prints it: no padding. */
  function Decimal(n: nat): string
    requires n < 100
  {
    if n < 10 then [Digit(n)] else Pad2(n)
  }

  /** The padded form is two digits that denote `n`. */
  lemma Pad2Digits(n: nat)
    requires n < 100
    ensures |Pad2(n)| == 2 && AllDigits(Pad2(n)) && DigitsValue(Pad2(n)) == n
  {
    var s := Pad2(n);
    assert s[..1] == [Digit(n / 10)] && s[..1][..0] == [];
    assert DigitsValue(s[..1]) == n / 10;
    assert DigitsValue(s) == (n / 10) * 10 + n % 10;
  }

  /** The unpadded form is one digit below ten and two from ten on, and denotes `n`. */
  lemma DecimalDigits(n: nat)
    requires n < 100
    ensures 1 <= |Decimal(n)| <= 2 && AllDigits(Decimal(n)) && DigitsValue(Decimal(n)) == n
    ensures |Decimal(n)| == 2 <==> n >= 10
  {
    if n < 10 {
      assert Decimal(n)[..0] == [];
    } else {
      Pad2Digits(n);
    }
  }

  /** First index of `c` in `s`, or -1 (JavaScript's `indexOf`). */
  function IndexOfChar(s: string, c: char): (i: int)
    ensures -1 <= i < |s|
    ensures i >= 0 ==> s[i] == c && c !in s[..i]
    ensures i == -1 ==> c !in s
  {
    if s == [] then -1
    else if s[0] == c then 0
    else
      var j := IndexOfChar(s[1..], c);
      if j < 0 then -1
      else
        assert s[1..][..j] == s[1..j + 1];
        assert s[..j + 1] == [s[0]] + s[1..j + 1];
        j + 1
  }

  /**
   * Reads `hours:minutes` text as a number of minutes, as `moment.duration` does for
   * the strings this component hands it; anything else is `None`.
   */
  function ParseClock(s: string): (r: Option<int>)
    ensures r.Some? ==> r.value >= 0
  {
    var i := IndexOfChar(s, ':');
    if i < 0 then None else ParseParts(s[..i], s[i + 1..])
  }

  /** Hours and minutes, each a non-empty run of digits, as a number of minutes. */
  function ParseParts(h: string, m: string): Option<int>
  {
    if |h| > 0 && |m| > 0 && AllDigits(h) && AllDigits(m)
    then Some(DigitsValue(h) * 60 + DigitsValue(m))
    else None
  }

  /** moment's `HH:mm` of the wall-clock time `m` minutes after a midnight (wrapping at a day). */
  function FormatHHmm(m: int): (s: string)
    ensures |s| == 5 && s[2] == ':'
  {
    var t := m % MinutesPerDay;
    Pad2(t / 60) + ":" + Pad2(t % 60)
  }

  /** The hour of the 12-hour clock (`h`): 12 for midnight and noon. */
  function Hour12(hour: nat): (h: nat)
    ensures 1 <= h <= 12
  {
    if hour % 12 == 0 then 12 else hour % 12
  }

  /** moment's `A`: the half of the day `hour` (0..23) falls in. */
  function Meridiem(hour: nat): string
  {
    if hour < 12 then "AM" else "PM"
  }

  /** moment's `h:mm A` of `hour:minute`. */
  function TwelveHourClock(hour: nat, minute: nat): (s: string)
    requires minute < 60
    ensures |s| >= 2 && s[|s| - 1] == 'M' && s[|s| - 2] == (if hour < 12 then 'A' else 'P')
  {
    Decimal(Hour12(hour)) + ":" + Pad2(minute) + " " + Meridiem(hour)
  }

  /** An hour named the way the slider's labels name it, e.g. "12AM", "3PM". */
  function HourName(hour: nat): string
  {
    Decimal(Hour12(hour)) + Meridiem(hour)
  }

  /** The first `c` in `h + t` is the one that starts `t` when `h` has none. */
  lemma {:induction false} IndexOfCharAfter(h: string, t: string, c: char)
    requires c !in h && |t| > 0 && t[0] == c
    ensures IndexOfChar(h + t, c) == |h|
  {
    if h == [] {
      assert h + t == t;
    } else {
      assert (h + t)[1..] == h[1..] + t;
      IndexOfCharAfter(h[1..], t, c);
    }
  }

  /** Reading a clock text made of two digit groups around a colon gives hours * 60 + minutes. */
  lemma ParseClockOf(h: string, m: string)
    requires 1 <= |h| && 1 <= |m| && AllDigits(h) && AllDigits(m)
    ensures ParseClock(h + ":" + m) == Some(DigitsValue(h) * 60 + DigitsValue(m))
  {
    assert ':' !in h by {
      forall k | 0 <= k < |h| ensures h[k] != ':' { assert IsDigit(h[k]); }
    }
    assert h + ":" + m == h + (":" + m);
    IndexOfCharAfter(h, ":" + m, ':');
    SplitAtColon(h, m);
    ReadParts(h, m);
  }

  lemma ReadParts(h: string, m: string)
    requires 1 <= |h| && 1 <= |m| && AllDigits(h) && AllDigits(m)
    ensures ParseParts(h, m) == Some(DigitsValue(h) * 60 + DigitsValue(m))
  {
  }

  lemma SplitAtColon(h: string, m: string)
    requires IndexOfChar(h + ":" + m, ':') == |h|
    ensures ParseClock(h + ":" + m) == ParseParts(h, m)
  {
    var s := h + ":" + m;
    assert s[..|h|] == h;
    assert s[|h| + 1..] == m;
  }

  /** The `HH:mm` text of a time reads back as that time of day: the two forms are inverse. */
  lemma FormatHHmmRoundTrip(m: int)
    ensures ParseClock(FormatHHmm(m)) == Some(m % MinutesPerDay)
  {
    var t := m % MinutesPerDay;
    Pad2Digits(t / 60);
    Pad2Digits(t % 60);
    ParseClockOf(Pad2(t / 60), Pad2(t % 60));
  }

  /** Two `HH:mm` texts are equal exactly when their times of day are. */
  lemma FormatHHmmInjective(m: int, n: int)
    ensures FormatHHmm(m) == FormatHHmm(n) <==> m % MinutesPerDay == n % MinutesPerDay
  {
    FormatHHmmRoundTrip(m);
    FormatHHmmRoundTrip(n);
  }

  /** The slider's maximum, one whole day, shows as midnight. */
  lemma WholeDayIsMidnight()
    ensures FormatHHmm(MinutesPerDay) == "00:00"
    ensures ParseClock(FormatHHmm(MinutesPerDay)) == Some(0)
  {
    FormatHHmmRoundTrip(MinutesPerDay);
  }

  /** `HH:mm` shows only the time of day: minutes a whole number of days apart look the same. */
  lemma FormatHHmmOfDay(m: int)
    ensures FormatHHmm(m % MinutesPerDay) == FormatHHmm(m)
  {
    assert (m % MinutesPerDay) % MinutesPerDay == m % MinutesPerDay;
  }
}
