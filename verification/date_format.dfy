/**
 * The sampler widget's timestamp rendering: `toPaddedString` puts a '0' in
 * front of values below ten and `formatDate` lays out a UTC date as
 * `YYYY-MM-DD HH:MM:SS`. The components are taken as the integers the
 * JavaScript Date getters return (`getUTCMonth` counts months from 0).
 */
module DateFormat {
  import opened Decimal

  /** `(value < 10 ? '0' : '') + value` for a non-negative integer value. */
  function ToPaddedString(value: nat): (s: string)
    ensures AllDigits(s) && DecimalValue(s) == value
    ensures value < 10 ==> |s| == 2 && s[0] == '0'
    ensures value >= 10 ==> s == NatToString(value)
    ensures value < 100 ==> |s| == 2
    ensures |s| >= 2
  {
    DecimalValueOfNatToString(value);
    DecimalValueLeadingZero(NatToString(value));
    NatToStringLength(value);
    if value < 10 then "0" + NatToString(value) else NatToString(value)
  }

  /** The rendering after the year: the five other fields, each padded to
      two digits and preceded by its separator. */
  function DateTail(monthIndex: nat, day: nat, hours: nat, minutes: nat, seconds: nat): (t: string)
    ensures |t| >= 15 && t[0] == '-'
    ensures monthIndex < 99 && day < 100 && hours < 100 && minutes < 100 && seconds < 100 ==> |t| == 15
  {
    var mo, d, h, mi, se := ToPaddedString(monthIndex + 1), ToPaddedString(day),
      ToPaddedString(hours), ToPaddedString(minutes), ToPaddedString(seconds);
    "-" + mo + "-" + d + " " + h + ":" + mi + ":" + se
  }

  /** The rendering of a UTC date whose getters returned the given values:
      the year's notation, then the other five fields. */
  function FormatDate(year: int, monthIndex: nat, day: nat, hours: nat, minutes: nat, seconds: nat): (r: string)
    ensures |r| >= |IntToString(year)| + 15
    ensures r[..|IntToString(year)|] == IntToString(year) && r[|IntToString(year)|] == '-'
    ensures monthIndex < 99 && day < 100 && hours < 100 && minutes < 100 && seconds < 100 ==>
      |r| == |IntToString(year)| + 15
  {
    var y := IntToString(year);
    var t := DateTail(monthIndex, day, hours, minutes, seconds);
    FormatDateStartsWithYear(y, t);
    assert (y + t)[|y|] == t[0];
    y + t
  }

  lemma FormatDateStartsWithYear(y: string, tail: string)
    ensures (y + tail)[..|y|] == y
  {
  }

  /** Where the five fields after the year sit when each has two
      characters. */
  lemma {:induction false} TailPositions(mo: string, d: string, h: string, mi: string, se: string)
    requires |mo| == 2 && |d| == 2 && |h| == 2 && |mi| == 2 && |se| == 2
    ensures var t := "-" + mo + "-" + d + " " + h + ":" + mi + ":" + se;
      && |t| == 15
      && t[0] == '-' && t[3] == '-' && t[6] == ' ' && t[9] == ':' && t[12] == ':'
      && t[1..3] == mo && t[4..6] == d && t[7..9] == h && t[10..12] == mi && t[13..15] == se
  {
    var t := "-" + mo + "-" + d + " " + h + ":" + mi + ":" + se;
    assert forall i :: 0 <= i < 2 ==>
      t[1 + i] == mo[i] && t[4 + i] == d[i] && t[7 + i] == h[i] && t[10 + i] == mi[i] && t[13 + i] == se[i];
  }

  /** A four-character year followed by a 15-character tail: the tail's
      fields move four places to the right. */
  lemma {:induction false} YearPositions(y: string, t: string)
    requires |y| == 4 && |t| == 15
    ensures var r := y + t;
      && |r| == 19 && r[0..4] == y
      && r[4] == t[0] && r[7] == t[3] && r[10] == t[6] && r[13] == t[9] && r[16] == t[12]
      && r[5..7] == t[1..3] && r[8..10] == t[4..6] && r[11..13] == t[7..9]
      && r[14..16] == t[10..12] && r[17..19] == t[13..15]
  {
    var r := y + t;
    assert forall i :: 0 <= i < 4 ==> r[i] == y[i];
    assert forall i :: 0 <= i < 15 ==> r[4 + i] == t[i];
  }

  /** For a four-digit year and in-range components the rendering has the fixed
      19-character layout, and every field reads back as the component it came
      from; the month field reads back as the month index plus one. */
  lemma FormatDateLayout(year: int, monthIndex: nat, day: nat, hours: nat, minutes: nat, seconds: nat)
    requires 1000 <= year <= 9999
    requires monthIndex < 12 && 1 <= day <= 31 && hours < 24 && minutes < 60 && seconds < 60
    ensures var r := FormatDate(year, monthIndex, day, hours, minutes, seconds);
      && |r| == 19
      && r[4] == '-' && r[7] == '-' && r[10] == ' ' && r[13] == ':' && r[16] == ':'
      && AllDigits(r[0..4]) && DecimalValue(r[0..4]) == year
      && AllDigits(r[5..7]) && DecimalValue(r[5..7]) == monthIndex + 1
      && AllDigits(r[8..10]) && DecimalValue(r[8..10]) == day
      && AllDigits(r[11..13]) && DecimalValue(r[11..13]) == hours
      && AllDigits(r[14..16]) && DecimalValue(r[14..16]) == minutes
      && AllDigits(r[17..19]) && DecimalValue(r[17..19]) == seconds
  {
    var y := IntToString(year);
    NatToStringLength(year);
    DecimalValueOfNatToString(year);
    var mo, d, h, mi, se := ToPaddedString(monthIndex + 1), ToPaddedString(day),
      ToPaddedString(hours), ToPaddedString(minutes), ToPaddedString(seconds);
    var t := DateTail(monthIndex, day, hours, minutes, seconds);
    assert t == "-" + mo + "-" + d + " " + h + ":" + mi + ":" + se;
    TailPositions(mo, d, h, mi, se);
    YearPositions(y, t);
  }
}
