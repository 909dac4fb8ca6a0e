/**
 * The two tables the component builds with loops: the 96 quarter-hour choices of the
 * time dropdown (`generateTimeOptions`) and the 25 hourly marks of the time slider
 * (`generateSliderMarks`), with the filter that keeps every third mark (nine marks, 0 to
 * 1440), pairs the first eight with the eight slider labels and leaves the ninth, 1440,
 * with `undefined`.
 */
module TimeTables {
  import opened Wrappers
  import opened Clock

  /** One dropdown choice: `value` is read back as a duration, `labelText` (the component's `label`) is shown. */
  datatype TimeOption = TimeOption(value: string, labelText: string)

  const NumOptions: nat := 96
  const NumMarks: nat := 25

  /** The labels drawn under the slider, one per three hours. */
  const Labels: seq<string> := ["12AM", "3AM", "6AM", "9AM", "12PM", "3PM", "6PM", "9PM"]

  /** The value template `${hour}:${minute < 10 ? '0' : ''}${minute}`. */
  function OptionValue(hour: nat, minute: nat): (s: string)
    requires hour < 100 && minute < 100
    ensures |s| >= 4 && s[|s| - 3] == ':'
  {
    Decimal(hour) + ":" + (if minute < 10 then "0" else "") + Decimal(minute)
  }

  /** The choice the i-th loop round pushes. */
  function OptionAt(i: nat): TimeOption
    requires i < NumOptions
  {
    var hour := i / 4;
    var minute := (i % 4) * 15;
    TimeOption(OptionValue(hour, minute), TwelveHourClock(hour, minute))
  }

  /** The choices of the first n rounds. */
  function OptionsBelow(n: nat): seq<TimeOption>
    requires n <= NumOptions
  {
    seq(n, k requires 0 <= k < n => OptionAt(k))
  }

  /** The i-th value is the unpadded hour i div 4, a colon and the minute (i mod 4) * 15 in two digits. */
  lemma OptionValueShape(i: nat)
    requires i < NumOptions
    ensures OptionAt(i).value == Decimal(i / 4) + ":" + Pad2((i % 4) * 15)
    ensures 0 <= i / 4 < 24
  {
    var minute := (i % 4) * 15;
    if minute < 10 {
      assert minute == 0;
      assert "0" + Decimal(0) == Pad2(0);
    } else {
      assert Decimal(minute) == Pad2(minute);
    }
    assert Decimal(i / 4) + ":" + (if minute < 10 then "0" else "") + Decimal(minute)
        == Decimal(i / 4) + ":" + ((if minute < 10 then "0" else "") + Decimal(minute));
  }

  /** Read back as a duration, the i-th value is i quarter hours. */
  lemma OptionMinutes(i: nat)
    requires i < NumOptions
    ensures ParseClock(OptionAt(i).value) == Some(i * 15)
  {
    OptionValueShape(i);
    DecimalDigits(i / 4);
    Pad2Digits((i % 4) * 15);
    ParseClockOf(Decimal(i / 4), Pad2((i % 4) * 15));
    assert i == 4 * (i / 4) + i % 4;
  }

  /** The labels of the first choice, of noon and of the last choice. */
  lemma OptionLabelsAtEnds()
    ensures OptionAt(0).labelText == "12:00 AM"
    ensures OptionAt(48).labelText == "12:00 PM"
    ensures OptionAt(95).labelText == "11:45 PM"
  {
    assert Decimal(12) == "12" && Decimal(11) == "11";
    assert Pad2(0) == "00" && Pad2(45) == "45";
  }

  /** `generateTimeOptions`: 96 choices, the i-th worth i * 15 minutes, so ascending and distinct. */
  method GenerateTimeOptions() returns (options: seq<TimeOption>)
    ensures |options| == NumOptions
    ensures forall i :: 0 <= i < |options| ==> options[i] == OptionAt(i)
    ensures forall i :: 0 <= i < |options| ==> ParseClock(options[i].value) == Some(i * 15)
    ensures forall i, j :: 0 <= i < j < |options| ==> options[i].value != options[j].value
  {
    options := [];
    for i := 0 to 96
      invariant options == OptionsBelow(i)
    {
      var hour := i / 4;
      var minute := (i % 4) * 15;
      var time := TwelveHourClock(hour, minute);
      var option := TimeOption(OptionValue(hour, minute), time);
      assert option == OptionAt(i);
      assert OptionsBelow(i + 1) == OptionsBelow(i) + [option];
      options := options + [option];
    }
    forall i | 0 <= i < |options| ensures ParseClock(options[i].value) == Some(i * 15) {
      OptionMinutes(i);
    }
  }

  /** `generateSliderMarks`: 25 marks, one per hour from 0 to 1440 minutes. */
  method GenerateSliderMarks() returns (marks: seq<int>)
    ensures |marks| == NumMarks
    ensures forall i :: 0 <= i < |marks| ==> marks[i] == i * 60
    ensures marks[0] == 0 && marks[NumMarks - 1] == MinutesPerDay
    ensures forall i, j :: 0 <= i < j < |marks| ==> marks[i] < marks[j]
  {
    marks := [];
    var markSpacing := MinutesPerDay / (NumMarks - 1);
    assert markSpacing * (NumMarks - 1) == MinutesPerDay;
    for i := 0 to NumMarks
      invariant |marks| == i
      invariant forall k :: 0 <= k < i ==> marks[k] == k * markSpacing
    {
      var markPosition := i * markSpacing;
      marks := marks + [markPosition];
    }
  }

  /** `marks.filter(mark => mark % d === 0)`: exactly the multiples of `d` among the marks. */
  function KeepMultiples(marks: seq<int>, d: int): (kept: seq<int>)
    requires d > 0
    ensures forall k :: 0 <= k < |kept| ==> kept[k] % d == 0 && kept[k] in marks
    ensures forall x :: x in kept <==> x in marks && x % d == 0
  {
    if marks == [] then []
    else
      var init, last := marks[..|marks| - 1], marks[|marks| - 1];
      var kept := KeepMultiples(init, d);
      assert marks == init + [last];
      kept + (if last % d == 0 then [last] else [])
  }

  /** The filter keeps order: filtering a concatenation is concatenating the filtered parts. */
  lemma {:induction false} KeepMultiplesConcat(a: seq<int>, b: seq<int>, d: int)
    requires d > 0
    ensures KeepMultiples(a + b, d) == KeepMultiples(a, d) + KeepMultiples(b, d)
  {
    if b == [] {
      assert a + b == a;
    } else {
      var init := b[..|b| - 1];
      KeepMultiplesConcat(a, init, d);
      assert (a + b)[..|a + b| - 1] == a + init;
      assert (a + b)[|a + b| - 1] == b[|b| - 1];
    }
  }

  /** The k-th kept mark paired with `labels[k]`, which is `undefined` past the last label. */
  function SliderLabels(marks: seq<int>): (r: seq<(int, Option<string>)>)
    ensures |r| == |KeepMultiples(marks, 180)|
    ensures forall k :: 0 <= k < |r| ==> r[k].0 in marks && r[k].0 % 180 == 0 && (r[k].1.Some? <==> k < |Labels|)
  {
    var kept := KeepMultiples(marks, 180);
    seq(|kept|, k requires 0 <= k < |kept| => (kept[k], if k < |Labels| then Some(Labels[k]) else None))
  }

  /** The first n hourly marks. */
  function Hourly(n: nat): seq<int>
  {
    seq(n, i requires 0 <= i => i * 60)
  }

  /** The first c three-hourly marks. */
  function ThreeHourly(c: nat): seq<int>
  {
    seq(c, k requires 0 <= k => k * 180)
  }

  /** Of n hourly marks, the multiples of 180 are the first ceil(n / 3) three-hourly ones. */
  lemma {:induction false} HourlyMultiplesOf180(n: nat)
    ensures KeepMultiples(Hourly(n), 180) == ThreeHourly((n + 2) / 3)
  {
    if n == 0 {
      assert Hourly(0) == [];
      assert ThreeHourly(0) == [];
    } else {
      var j := n - 1;
      assert Hourly(n)[..j] == Hourly(j);
      assert Hourly(n)[j] == j * 60;
      HourlyMultiplesOf180(j);
      var c := (j + 2) / 3;
      if j % 3 == 0 {
        assert j * 60 % 180 == 0;
        assert (n + 2) / 3 == c + 1;
        assert ThreeHourly(c + 1) == ThreeHourly(c) + [c * 180];
      } else {
        assert j * 60 % 180 != 0;
        assert (n + 2) / 3 == c;
      }
    }
  }

  /**
   * The slider's label row: nine marks (0, 180, ..., 1440) pass the filter, the first
   * eight carry the eight labels and the ninth, 1440, carries `undefined`.
   */
  lemma SliderLabelRow(marks: seq<int>)
    requires |marks| == NumMarks && forall i :: 0 <= i < |marks| ==> marks[i] == i * 60
    ensures var r := SliderLabels(marks);
      && |r| == 9
      && (forall k :: 0 <= k < 8 ==> r[k] == (k * 180, Some(Labels[k])))
      && r[8] == (MinutesPerDay, None)
  {
    assert marks == Hourly(NumMarks);
    HourlyMultiplesOf180(NumMarks);
  }

  /** Each hand-written label names the hour of the mark it sits under. */
  lemma LabelsNameTheirMarks()
    ensures |Labels| == 8
    ensures forall k :: 0 <= k < |Labels| ==> Labels[k] == HourName(k * 180 / 60)
  {
    assert HourName(0) == "12AM";
    assert HourName(3) == "3AM";
    assert HourName(6) == "6AM";
    assert HourName(9) == "9AM";
    assert HourName(12) == "12PM";
    assert HourName(15) == "3PM";
    assert HourName(18) == "6PM";
    assert HourName(21) == "9PM";
  }
}
