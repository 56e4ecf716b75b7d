/**
 * The two display helpers both pages define, word for word the same:
 * `formatTime`, which turns a stored `HH:MM:SS` time into a 12-hour clock
 * text, and `getDayName`, which turns a day code into a weekday name.
 */
module ScheduleDisplay {
  import opened Wrappers
  import opened JsText

  // ---------------------------------------------------------------------
  // formatTime
  // ---------------------------------------------------------------------

  /** `hour % 12 || 12`: the hour on a 12-hour clock face. A `NaN` hour and a
      zero remainder are both falsy and show as 12. */
  function ClockHour(hour: Option<int>): (h: int)
    ensures hour.None? ==> h == 12
    ensures hour.Some? && hour.value >= 0 ==> 1 <= h <= 12 && h % 12 == hour.value % 12
  {
    match hour
    case None => 12
    case Some(v) =>
      var r := JsRem(v, 12);
      if r == 0 then 12 else r
  }

  /** `hour >= 12 ? 'PM' : 'AM'`; a comparison with `NaN` is false. */
  function Meridiem(hour: Option<int>): (m: string)
    ensures m == "PM" || m == "AM"
    ensures m == "PM" <==> hour.Some? && hour.value >= 12
  {
    if hour.Some? && hour.value >= 12 then "PM" else "AM"
  }

  /** `formatTime(timeString)`: the hour field is read with `parseInt(_, 10)`,
      the minutes field is copied as it is (`undefined` when the text has no
      colon), and the seconds are dropped. */
  function FormatTime(time: string): string {
    var fields := Split(time, ':');
    var hour := ParseInt(fields[0], Radix10);
    var minutes := if |fields| > 1 then fields[1] else "undefined";
    NumberToString(ClockHour(hour)) + ":" + minutes + " " + Meridiem(hour)
  }

  /** Splitting `hh:mm` followed by nothing or by `:...` at ':' gives `hh`
      and then `mm`. */
  lemma SplitTimeFields(hh: string, mm: string, rest: string)
    requires ':' !in hh && ':' !in mm
    requires rest == [] || rest[0] == ':'
    ensures var fields := Split(hh + ":" + mm + rest, ':');
            |fields| > 1 && fields[0] == hh && fields[1] == mm
  {
    assert hh + ":" + mm + rest == hh + [':'] + (mm + rest);
    SplitAtFirst(hh, ':', mm + rest);
    if rest == [] {
      assert mm + rest == mm;
      SplitNoSeparator(mm, ':');
    } else {
      assert mm + rest == mm + [':'] + rest[1..];
      SplitAtFirst(mm, ':', rest[1..]);
    }
  }

  /** What `formatTime` shows for a stored time whose hour field is a digit
      run: the hour on the 12-hour clock, the minutes text unchanged, and PM
      exactly from hour 12 on. */
  lemma FormatTimeOfTime(hh: string, mm: string, rest: string)
    requires hh != [] && AllDecimalDigits(hh)
    requires ':' !in mm
    requires rest == [] || rest[0] == ':'
    ensures var h := DigitsValue(hh, 10);
            FormatTime(hh + ":" + mm + rest)
            == NatToString(ClockHour(Some(h))) + ":" + mm + " " + (if h >= 12 then "PM" else "AM")
  {
    ParseIntOfDigits(hh, Radix10);
    assert ':' !in hh by {
      forall i | 0 <= i < |hh| ensures hh[i] != ':' { assert IsDecimalDigit(hh[i]); }
    }
    SplitTimeFields(hh, mm, rest);
    assert ClockHour(Some(DigitsValue(hh, 10))) >= 1;
  }

  /** The 24-hour clock hour recovered from a 12-hour clock hour and its
      suffix. */
  function To24Hour(clockHour: int, meridiem: string): int {
    clockHour % 12 + (if meridiem == "PM" then 12 else 0)
  }

  /** For every hour of the day, the 12-hour hour and the suffix determine
      the hour: `formatTime` loses no information about it. */
  lemma ClockRoundTrip(h: int)
    requires 0 <= h < 24
    ensures To24Hour(ClockHour(Some(h)), Meridiem(Some(h))) == h
  {
  }

  /** The two-digit text of an hour, as stored times write it. */
  function TwoDigitText(h: nat): (t: string)
    requires h < 100
    ensures |t| == 2 && AllDecimalDigits(t)
  {
    [DigitChar(h / 10), DigitChar(h % 10)]
  }

  lemma TwoDigitValue(h: nat)
    requires h < 100
    ensures DigitsValue(TwoDigitText(h), 10) == h
  {
    var t := TwoDigitText(h);
    assert t[..1][..0] == [];
    assert DigitsValue(t[..1], 10) == h / 10;
    assert DigitsValue(t, 10) == (h / 10) * 10 + h % 10;
  }

  /** `formatTime` of a stored `HH:MM:SS` time with a two-digit hour. */
  lemma FormatTimeOfHour(h: nat, mm: string, ss: string)
    requires h < 100 && ':' !in mm
    ensures FormatTime(TwoDigitText(h) + ":" + mm + ":" + ss)
            == NatToString(ClockHour(Some(h))) + ":" + mm + " " + Meridiem(Some(h))
  {
    TwoDigitValue(h);
    FormatTimeOfTime(TwoDigitText(h), mm, ":" + ss);
    assert TwoDigitText(h) + ":" + mm + ":" + ss == TwoDigitText(h) + ":" + mm + (":" + ss);
  }

  /** Midnight shows as 12 AM. */
  lemma FormatTimeMidnight(mm: string, ss: string)
    requires ':' !in mm
    ensures FormatTime("00:" + mm + ":" + ss) == "12:" + mm + " AM"
  {
    calc {
      FormatTime("00:" + mm + ":" + ss);
    == { assert "00:" + mm + ":" + ss == TwoDigitText(0) + ":" + mm + ":" + ss; }
      FormatTime(TwoDigitText(0) + ":" + mm + ":" + ss);
    == { FormatTimeOfHour(0, mm, ss); }
      NatToString(ClockHour(Some(0))) + ":" + mm + " " + Meridiem(Some(0));
    == { assert NatToString(12) == "12"; }
      "12:" + mm + " AM";
    }
  }

  /** Noon shows as 12 PM. */
  lemma FormatTimeNoon(mm: string, ss: string)
    requires ':' !in mm
    ensures FormatTime("12:" + mm + ":" + ss) == "12:" + mm + " PM"
  {
    calc {
      FormatTime("12:" + mm + ":" + ss);
    == { assert "12:" + mm + ":" + ss == TwoDigitText(12) + ":" + mm + ":" + ss; }
      FormatTime(TwoDigitText(12) + ":" + mm + ":" + ss);
    == { FormatTimeOfHour(12, mm, ss); }
      NatToString(ClockHour(Some(12))) + ":" + mm + " " + Meridiem(Some(12));
    == { assert NatToString(12) == "12"; }
      "12:" + mm + " PM";
    }
  }

  /** A text without a colon has no minutes field and a `NaN` hour. */
  lemma FormatTimeWithoutColon(time: string)
    requires ':' !in time
    requires ParseInt(time, Radix10).None?
    ensures FormatTime(time) == "12:undefined AM"
  {
    SplitNoSeparator(time, ':');
    assert NumberToString(ClockHour(None)) == "12" by {
      assert ClockHour(None) == 12;
      assert NatToString(12) == NatToString(1) + [DigitChar(2)];
    }
  }

  // ---------------------------------------------------------------------
  // getDayName
  // ---------------------------------------------------------------------

  /** The day codes of the `days` table, in its order. */
  const DayCodes: seq<string> := ["M", "T", "W", "R", "F", "SAT", "SUN"]

  /** The weekday names of the `days` table, in its order. */
  const WeekdayNames: seq<string> :=
    ["Monday", "Tuesday", "Wednesday", "Thursday", "Friday", "Saturday", "Sunday"]

  /** The `days` lookup table. */
  const DayNames: map<string, string> :=
    map["M" := "Monday", "T" := "Tuesday", "W" := "Wednesday", "R" := "Thursday",
        "F" := "Friday", "SAT" := "Saturday", "SUN" := "Sunday"]

  /** `days[dayCode] || dayCode`. */
  function GetDayName(code: string): string {
    if code in DayNames && DayNames[code] != "" then DayNames[code] else code
  }

  /** The seven codes map, in order, to Monday through Sunday. */
  lemma GetDayNameOfCodes(i: int)
    requires 0 <= i < 7
    ensures GetDayName(DayCodes[i]) == WeekdayNames[i]
  {
  }

  /** A code comes back unchanged exactly when it is not one of the seven. */
  lemma GetDayNameUnchanged(code: string)
    ensures GetDayName(code) == code <==> code !in DayCodes
  {
    assert code in DayNames <==> code in DayCodes by {
      assert code in DayCodes <==>
        (code == DayCodes[0] || code == DayCodes[1] || code == DayCodes[2] || code == DayCodes[3]
         || code == DayCodes[4] || code == DayCodes[5] || code == DayCodes[6]);
    }
    if code in DayCodes {
      var i :| 0 <= i < 7 && DayCodes[i] == code;
      GetDayNameOfCodes(i);
    }
  }

  /** Two different known codes never show the same name. */
  lemma GetDayNameInjective(i: int, j: int)
    requires 0 <= i < 7 && 0 <= j < 7
    requires GetDayName(DayCodes[i]) == GetDayName(DayCodes[j])
    ensures i == j
  {
    GetDayNameOfCodes(i);
    GetDayNameOfCodes(j);
  }
}
