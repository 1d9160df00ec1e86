/**
 * The `fecha` column: `pd.to_datetime(..., format='%d-%m-%Y %I:%M:%S%p',
 * errors='coerce')`, here for the fixed-width form of that format
 * ("25-02-2024 10:30:45AM"). Text that does not parse, or that names no real
 * date or time, becomes a missing value instead of an error, and `hora` is
 * the 24-hour hour of a parsed value.
 */
module Timestamps {
  import opened Wrappers
  import opened Text

  /** A parsed `fecha`: a calendar date and a 24-hour time of day. */
  datatype Stamp = Stamp(day: nat, month: nat, year: nat, hour: nat, minute: nat, second: nat)

  predicate IsLeapYear(year: nat) {
    year % 4 == 0 && (year % 100 != 0 || year % 400 == 0)
  }

  function DaysInMonth(month: nat, year: nat): nat {
    if month == 2 then (if IsLeapYear(year) then 29 else 28)
    else if month == 4 || month == 6 || month == 9 || month == 11 then 30
    else 31
  }

  /** A date and time that Python's `datetime` accepts. */
  predicate ValidStamp(t: Stamp) {
    && 1 <= t.year <= 9999
    && 1 <= t.month <= 12
    && 1 <= t.day <= DaysInMonth(t.month, t.year)
    && t.hour < 24 && t.minute < 60 && t.second < 60
  }

  predicate IsDigit(c: char) {
    '0' <= c <= '9'
  }

  function DigitValue(c: char): nat
    requires IsDigit(c)
  {
    c as int - '0' as int
  }

  function DigitChar(d: nat): char
    requires d < 10
  {
    ('0' as int + d) as char
  }

  /** The `width` characters of `s` from position `at` are all digits. */
  predicate DigitsAt(s: string, at: nat, width: nat) {
    at + width <= |s| && forall j :: at <= j < at + width ==> IsDigit(s[j])
  }

  /** The decimal number written in the `width` characters of `s` from position `at`. */
  function Field(s: string, at: nat, width: nat): nat
    requires DigitsAt(s, at, width)
    decreases width
  {
    if width == 0 then 0 else Field(s, at, width - 1) * 10 + DigitValue(s[at + width - 1])
  }

  /** The `%p` field: whether it reads PM, in any case; `None` if it is neither AM nor PM. */
  function Meridiem(a: char, m: char): Option<bool> {
    if Lower(m) != 'm' then None
    else if Lower(a) == 'a' then Some(false)
    else if Lower(a) == 'p' then Some(true)
    else None
  }

  /** A 12-hour clock reading as a 24-hour hour: 12AM is 0, 12PM is 12, other PM hours add 12. */
  function To24(hour12: nat, pm: bool): nat
    requires 1 <= hour12 <= 12
  {
    if hour12 == 12 then (if pm then 12 else 0)
    else if pm then hour12 + 12
    else hour12
  }

  /** A 24-hour hour as it reads on a 12-hour clock. */
  function Hour12(hour: nat): nat {
    if hour % 12 == 0 then 12 else hour % 12
  }

  /** The two clocks correspond one to one. */
  lemma ClockConversion(hour12: nat, pm: bool, hour: nat)
    requires 1 <= hour12 <= 12 && hour < 24
    ensures To24(hour12, pm) < 24
    ensures (To24(hour12, pm) >= 12) == pm && Hour12(To24(hour12, pm)) == hour12
    ensures 1 <= Hour12(hour) <= 12 && To24(Hour12(hour), hour >= 12) == hour
  {
  }

  /** Separators in place and every numeric field made of digits. */
  predicate WellShaped(s: string) {
    && |s| == 21
    && s[2] == '-' && s[5] == '-' && s[10] == ' ' && s[13] == ':' && s[16] == ':'
    && DigitsAt(s, 0, 2) && DigitsAt(s, 3, 2) && DigitsAt(s, 6, 4)
    && DigitsAt(s, 11, 2) && DigitsAt(s, 14, 2) && DigitsAt(s, 17, 2)
  }

  /** One `fecha` cell through `pd.to_datetime(format='%d-%m-%Y %I:%M:%S%p', errors='coerce')`. */
  function ParseFecha(s: string): (t: Option<Stamp>)
    ensures t.Some? ==> ValidStamp(t.value)
  {
    if !WellShaped(s) then None
    else
      var hour12 := Field(s, 11, 2);
      var pm := Meridiem(s[19], s[20]);
      if pm.None? || !(1 <= hour12 <= 12) then None
      else
        var t := Stamp(Field(s, 0, 2), Field(s, 3, 2), Field(s, 6, 4),
                       To24(hour12, pm.value), Field(s, 14, 2), Field(s, 17, 2));
        if ValidStamp(t) then Some(t) else None
  }

  /** A valid timestamp written in the log's format, with an upper-case AM/PM. */
  function FormatFecha(t: Stamp): (s: string)
    requires ValidStamp(t)
    ensures |s| == 21
  {
    var h := Hour12(t.hour);
    [ DigitChar(t.day / 10), DigitChar(t.day % 10), '-',
      DigitChar(t.month / 10), DigitChar(t.month % 10), '-',
      DigitChar(t.year / 1000), DigitChar(t.year / 100 % 10), DigitChar(t.year / 10 % 10), DigitChar(t.year % 10), ' ',
      DigitChar(h / 10), DigitChar(h % 10), ':',
      DigitChar(t.minute / 10), DigitChar(t.minute % 10), ':',
      DigitChar(t.second / 10), DigitChar(t.second % 10),
      if t.hour < 12 then 'A' else 'P', 'M' ]
  }

  /** `df['fecha'].dt.hour` for one cell: missing stays missing. */
  function Hora(fecha: Option<Stamp>): (hora: Option<nat>)
    ensures hora.Some? <==> fecha.Some?
    ensures fecha.Some? && ValidStamp(fecha.value) ==> hora.value < 24
  {
    if fecha.Some? then Some(fecha.value.hour) else None
  }

  /** Two digit characters read back as the number they were written from. */
  lemma ReadTwo(s: string, at: nat, n: nat)
    requires n < 100 && at + 2 <= |s|
    requires s[at] == DigitChar(n / 10) && s[at + 1] == DigitChar(n % 10)
    ensures DigitsAt(s, at, 2) && Field(s, at, 2) == n
  {
    assert Field(s, at, 1) == n / 10;
  }

  /** Four digit characters read back as the number they were written from. */
  lemma ReadFour(s: string, at: nat, n: nat)
    requires n < 10000 && at + 4 <= |s|
    requires s[at] == DigitChar(n / 1000) && s[at + 1] == DigitChar(n / 100 % 10)
    requires s[at + 2] == DigitChar(n / 10 % 10) && s[at + 3] == DigitChar(n % 10)
    ensures DigitsAt(s, at, 4) && Field(s, at, 4) == n
  {
    assert Field(s, at, 1) == n / 1000;
    assert Field(s, at, 2) == n / 100;
    assert Field(s, at, 3) == n / 10;
  }

  /** A two-digit field written back gives its two characters. */
  lemma WriteTwo(s: string, at: nat)
    requires DigitsAt(s, at, 2)
    ensures Field(s, at, 2) < 100
    ensures DigitChar(Field(s, at, 2) / 10) == s[at] && DigitChar(Field(s, at, 2) % 10) == s[at + 1]
  {
    assert Field(s, at, 1) == DigitValue(s[at]);
  }

  /** A four-digit field written back gives its four characters. */
  lemma WriteFour(s: string, at: nat)
    requires DigitsAt(s, at, 4)
    ensures Field(s, at, 4) < 10000
    ensures DigitChar(Field(s, at, 4) / 1000) == s[at] && DigitChar(Field(s, at, 4) / 100 % 10) == s[at + 1]
    ensures DigitChar(Field(s, at, 4) / 10 % 10) == s[at + 2] && DigitChar(Field(s, at, 4) % 10) == s[at + 3]
  {
    assert Field(s, at, 1) == DigitValue(s[at]);
    assert Field(s, at, 2) == DigitValue(s[at]) * 10 + DigitValue(s[at + 1]);
  }

  /** Every valid timestamp, written in the log's format, parses back to itself. */
  lemma ParseFormat(t: Stamp)
    requires ValidStamp(t)
    ensures ParseFecha(FormatFecha(t)) == Some(t)
  {
    var s := FormatFecha(t);
    ClockConversion(1, false, t.hour);
    ReadTwo(s, 0, t.day);
    ReadTwo(s, 3, t.month);
    ReadFour(s, 6, t.year);
    ReadTwo(s, 11, Hour12(t.hour));
    ReadTwo(s, 14, t.minute);
    ReadTwo(s, 17, t.second);
    assert WellShaped(s);
    assert Meridiem(s[19], s[20]) == Some(t.hour >= 12);
  }

  /** Every text that parses, with an upper-case AM/PM, is exactly the rendering of what it parses to. */
  lemma FormatParse(s: string)
    requires ParseFecha(s).Some?
    requires s[19] == 'A' || s[19] == 'P'
    requires s[20] == 'M'
    ensures FormatFecha(ParseFecha(s).value) == s
  {
    var t := ParseFecha(s).value;
    WriteTwo(s, 0);
    WriteTwo(s, 3);
    WriteFour(s, 6);
    WriteTwo(s, 11);
    WriteTwo(s, 14);
    WriteTwo(s, 17);
    ClockConversion(Field(s, 11, 2), s[19] == 'P', 0);
    var f := FormatFecha(t);
    assert forall j :: 0 <= j < 21 ==> f[j] == s[j];
  }

  /** The sample record of the upload help text is read at 10 in the morning. */
  lemma SampleFecha()
    ensures ParseFecha("25-02-2024 10:30:45AM") == Some(Stamp(25, 2, 2024, 10, 30, 45))
  {
    var t := Stamp(25, 2, 2024, 10, 30, 45);
    assert FormatFecha(t) == "25-02-2024 10:30:45AM";
    ParseFormat(t);
  }
}
