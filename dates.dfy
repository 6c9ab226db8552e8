/**
 * The strict date parsing that extraction relies on: dayjs with the
 * customParseFormat plugin, formats "DD.MM.YYYY HH:mm" and "DD.MM.YYYY",
 * strict mode. Strict means the parsed value, formatted again with the format
 * that parsed it, must give back the input text exactly; JavaScript's `Date`
 * rolls an out-of-range field over into the next one, so a day past the end
 * of the month, hour 24, minute 60, month 0 or 13 all format differently and
 * are rejected. Years 0 to 99 are rejected too: dayjs takes year 0 as
 * "missing" and `new Date` maps 1 to 99 onto 1901 to 1999.
 */
module Dates {
  import opened Wrappers
  import opened Text

  /** A local calendar date and time, to the minute. */
  datatype DateTime = DateTime(day: nat, month: nat, year: nat, hour: nat, minute: nat)

  predicate IsLeapYear(y: nat) {
    y % 4 == 0 && (y % 100 != 0 || y % 400 == 0)
  }

  function DaysInMonth(month: nat, year: nat): nat {
    if month == 2 then (if IsLeapYear(year) then 29 else 28)
    else if month == 4 || month == 6 || month == 9 || month == 11 then 30
    else 31
  }

  /** The values a strict parse can produce: no field rolls over into another. */
  predicate IsValidDateTime(d: DateTime) {
    && 1 <= d.month <= 12
    && 1 <= d.day <= DaysInMonth(d.month, d.year)
    && 100 <= d.year <= 9999
    && d.hour < 24
    && d.minute < 60
  }

  /** `format("DD.MM.YYYY HH:mm")` */
  function FormatDateTime(d: DateTime): string {
    Pad(d.day, 2) + "." + Pad(d.month, 2) + "." + Pad(d.year, 4) + " " + Pad(d.hour, 2) + ":" + Pad(d.minute, 2)
  }

  /** `format("DD.MM.YYYY")` */
  function FormatDate(d: DateTime): string {
    Pad(d.day, 2) + "." + Pad(d.month, 2) + "." + Pad(d.year, 4)
  }

  /** The numeric field of `len` digits at `from` in `t`. */
  function Field(t: string, from: nat, len: nat): nat
    requires from + len <= |t| && AllDigits(t[from..from + len])
  {
    DigitsValue(t[from..from + len])
  }

  predicate DigitsIn(t: string, from: nat, len: nat) {
    from + len <= |t| && AllDigits(t[from..from + len])
  }

  /** The value "DD.MM.YYYY HH:mm" reads from `t`, if its digit positions hold digits. */
  function ReadDateTime(t: string): Option<DateTime> {
    if |t| == 16 && DigitsIn(t, 0, 2) && DigitsIn(t, 3, 2) && DigitsIn(t, 6, 4) && DigitsIn(t, 11, 2) && DigitsIn(t, 14, 2)
    then Some(DateTime(Field(t, 0, 2), Field(t, 3, 2), Field(t, 6, 4), Field(t, 11, 2), Field(t, 14, 2)))
    else None
  }

  /** The value "DD.MM.YYYY" reads from `t`, at midnight. */
  function ReadDate(t: string): Option<DateTime> {
    if |t| == 10 && DigitsIn(t, 0, 2) && DigitsIn(t, 3, 2) && DigitsIn(t, 6, 4)
    then Some(DateTime(Field(t, 0, 2), Field(t, 3, 2), Field(t, 6, 4), 0, 0))
    else None
  }

  /**
   * `dayjs(t, ["DD.MM.YYYY HH:mm", "DD.MM.YYYY"], true)`: the formats are
   * tried in order and the first valid parse wins; each parse is kept only
   * if it is in range and formats back to `t`.
   */
  function ParseStrict(t: string): (r: Option<DateTime>)
    ensures r.Some? ==> IsValidDateTime(r.value)
    ensures r.Some? ==> t == FormatDateTime(r.value) || (t == FormatDate(r.value) && r.value.hour == 0 && r.value.minute == 0)
  {
    var withTime := ReadDateTime(t);
    if withTime.Some? && IsValidDateTime(withTime.value) && FormatDateTime(withTime.value) == t then withTime
    else
      var dateOnly := ReadDate(t);
      if dateOnly.Some? && IsValidDateTime(dateOnly.value) && FormatDate(dateOnly.value) == t then dateOnly
      else None
  }

  lemma PadField(n: nat, width: nat, t: string, from: nat)
    requires 1 <= width && n < Pow10(width)
    requires from + width <= |t| && t[from..from + width] == Pad(n, width)
    ensures DigitsIn(t, from, width) && Field(t, from, width) == n
  {
    PadValue(n, width);
  }

  lemma FormatFields(d: DateTime)
    requires IsValidDateTime(d)
    ensures var t := FormatDateTime(d);
      && |t| == 16
      && t[0..2] == Pad(d.day, 2) && t[3..5] == Pad(d.month, 2) && t[6..10] == Pad(d.year, 4)
      && t[11..13] == Pad(d.hour, 2) && t[14..16] == Pad(d.minute, 2)
      && t[2] == '.' && t[5] == '.' && t[10] == ' ' && t[13] == ':'
      && t[..10] == FormatDate(d)
      && AllDigits(Pad(d.day, 2)) && AllDigits(Pad(d.month, 2)) && AllDigits(Pad(d.year, 4))
      && AllDigits(Pad(d.hour, 2)) && AllDigits(Pad(d.minute, 2))
  {
    var date, time := FormatDate(d), TimeText(d);
    FormatDateFields(d);
    TimeTextFields(d);
    var t := FormatDateTime(d);
    assert t == date + time;
    assert t[..10] == date && t[10..] == time;
    assert t[0..2] == date[0..2] && t[3..5] == date[3..5] && t[6..10] == date[6..10];
    assert t[11..13] == time[1..3] && t[14..16] == time[4..6];
  }

  /** The " HH:mm" tail of the long format. */
  function TimeText(d: DateTime): string {
    " " + Pad(d.hour, 2) + ":" + Pad(d.minute, 2)
  }

  lemma FormatDateFields(d: DateTime)
    requires IsValidDateTime(d)
    ensures var t := FormatDate(d);
      && |t| == 10
      && t[0..2] == Pad(d.day, 2) && t[3..5] == Pad(d.month, 2) && t[6..10] == Pad(d.year, 4)
      && t[2] == '.' && t[5] == '.'
      && AllDigits(Pad(d.day, 2)) && AllDigits(Pad(d.month, 2)) && AllDigits(Pad(d.year, 4))
  {
    PadValue(d.day, 2);
    PadValue(d.month, 2);
    PadValue(d.year, 4);
  }

  lemma TimeTextFields(d: DateTime)
    requires IsValidDateTime(d)
    ensures var t := TimeText(d);
      && |t| == 6
      && t[1..3] == Pad(d.hour, 2) && t[4..6] == Pad(d.minute, 2)
      && t[0] == ' ' && t[3] == ':'
      && AllDigits(Pad(d.hour, 2)) && AllDigits(Pad(d.minute, 2))
  {
    PadValue(d.hour, 2);
    PadValue(d.minute, 2);
  }

  /** A formatted value holds only digits and the separators ".", " " and ":". */
  lemma FormattedCharacters(d: DateTime)
    requires IsValidDateTime(d)
    ensures var t := FormatDateTime(d);
      forall i :: 0 <= i < |t| ==> IsDigit(t[i]) || t[i] == '.' || t[i] == ' ' || t[i] == ':'
  {
    var t := FormatDateTime(d);
    FormatFields(d);
    forall i | 0 <= i < |t| ensures IsDigit(t[i]) || t[i] == '.' || t[i] == ' ' || t[i] == ':' {
      if i < 2 {
        assert t[i] == t[0..2][i];
      } else if 3 <= i < 5 {
        assert t[i] == t[3..5][i - 3];
      } else if 6 <= i < 10 {
        assert t[i] == t[6..10][i - 6];
      } else if 11 <= i < 13 {
        assert t[i] == t[11..13][i - 11];
      } else if 14 <= i {
        assert t[i] == t[14..16][i - 14];
      }
    }
  }

  /** A formatted value starts and ends with a digit. */
  lemma FormattedEnds(d: DateTime)
    requires IsValidDateTime(d)
    ensures var t := FormatDateTime(d); |t| == 16 && IsDigit(t[0]) && IsDigit(t[15])
  {
    var t := FormatDateTime(d);
    FormatFields(d);
    assert t[0] == t[0..2][0] && t[15] == t[14..16][1];
  }

  /** Every valid value survives "DD.MM.YYYY HH:mm" formatting and strict parsing. */
  lemma FormatDateTimeRoundTrip(d: DateTime)
    requires IsValidDateTime(d)
    ensures ParseStrict(FormatDateTime(d)) == Some(d)
  {
    var t := FormatDateTime(d);
    FormatFields(d);
    PadField(d.day, 2, t, 0);
    PadField(d.month, 2, t, 3);
    PadField(d.year, 4, t, 6);
    PadField(d.hour, 2, t, 11);
    PadField(d.minute, 2, t, 14);
    assert ReadDateTime(t) == Some(d);
  }

  /** A valid value at midnight survives "DD.MM.YYYY" formatting and strict parsing. */
  lemma FormatDateRoundTrip(d: DateTime)
    requires IsValidDateTime(d) && d.hour == 0 && d.minute == 0
    ensures ParseStrict(FormatDate(d)) == Some(d)
  {
    var t := FormatDate(d);
    FormatDateFields(d);
    PadField(d.day, 2, t, 0);
    PadField(d.month, 2, t, 3);
    PadField(d.year, 4, t, 6);
    assert ReadDateTime(t).None?;
    assert ReadDate(t) == Some(d);
  }

  /**
   * Strict parsing accepts exactly the texts of the two formats: `t` parses
   * to `d` if and only if `d` is valid and `t` is `d` in the first format, or
   * `d` is at midnight and `t` is `d` in the second.
   */
  lemma ParseStrictExactly(t: string, d: DateTime)
    ensures ParseStrict(t) == Some(d) <==>
      IsValidDateTime(d) && (t == FormatDateTime(d) || (t == FormatDate(d) && d.hour == 0 && d.minute == 0))
  {
    if IsValidDateTime(d) {
      if t == FormatDateTime(d) {
        FormatDateTimeRoundTrip(d);
      } else if t == FormatDate(d) && d.hour == 0 && d.minute == 0 {
        FormatDateRoundTrip(d);
      }
    }
    if ParseStrict(t) == Some(d) {
      assert IsValidDateTime(d);
    }
  }

  /** A day past the end of the month is refused: "31.02.2023" is not a date. */
  lemma ThirtyFirstOfFebruaryRejected()
    ensures ParseStrict("31.02.2023") == None
  {
    var t := "31.02.2023";
    assert ReadDateTime(t) == None;
    assert t[0..2] == "31";
    assert t[3..5] == "02";
    assert t[6..10] == "2023";
    assert DigitsValue("31") == 31 by { assert "31"[..1] == "3"; }
    assert DigitsValue("02") == 2 by { assert "02"[..1] == "0"; }
    var d := ReadDate(t).value;
    assert d.day == 31 && d.month == 2;
    assert !IsValidDateTime(d);
  }

  /** 29 February exists in a leap year, and the date-only format reads it at midnight. */
  lemma LeapDayAccepted()
    ensures ParseStrict("29.02.2024") == Some(DateTime(29, 2, 2024, 0, 0))
  {
    var d := DateTime(29, 2, 2024, 0, 0);
    assert IsValidDateTime(d);
    LeapDayText();
    FormatDateRoundTrip(d);
  }

  lemma LeapDayText()
    ensures FormatDate(DateTime(29, 2, 2024, 0, 0)) == "29.02.2024"
  {
    assert NatToString(2) == "2";
    assert NatToString(29) == "29" by { assert 29 / 10 == 2 && 29 % 10 == 9; }
    assert NatToString(20) == "20" by { assert 20 / 10 == 2 && 20 % 10 == 0; }
    assert NatToString(202) == "202" by { assert 202 / 10 == 20 && 202 % 10 == 2; }
    assert NatToString(2024) == "2024" by { assert 2024 / 10 == 202 && 2024 % 10 == 4; }
    assert Pad(29, 2) == "29";
    assert Pad(2, 2) == "02";
    assert Pad(2024, 4) == "2024";
  }
}
