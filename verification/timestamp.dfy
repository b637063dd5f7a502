/** The creation and push bounds of a search are rendered into the query with
    `strftime('%Y-%m-%dT%H:%M:%SZ')`. */
module Timestamp {
  import opened Wrappers
  import opened Text

  /** A Python `datetime` down to the second; microseconds and the time zone take
      no part in the rendering. */
  datatype DateTime = DateTime(year: int, month: int, day: int, hour: int, minute: int, second: int)

  predicate IsLeapYear(y: int)
  {
    y % 4 == 0 && (y % 100 != 0 || y % 400 == 0)
  }

  function DaysInMonth(y: int, m: int): int
    requires 1 <= m <= 12
  {
    if m == 2 then (if IsLeapYear(y) then 29 else 28)
    else if m == 4 || m == 6 || m == 9 || m == 11 then 30
    else 31
  }

  /** The values a `datetime` can hold: years 1 to 9999 of the proleptic Gregorian
      calendar, and no leap seconds. */
  predicate Valid(t: DateTime)
  {
    && 1 <= t.year <= 9999
    && 1 <= t.month <= 12
    && 1 <= t.day <= DaysInMonth(t.year, t.month)
    && 0 <= t.hour < 24
    && 0 <= t.minute < 60
    && 0 <= t.second < 60
  }

  /** The characters a rendered timestamp is made of. */
  predicate StampChar(c: char)
  {
    IsDigit(c) || c == '-' || c == ':' || c == 'T' || c == 'Z'
  }

  /** `%m`, `%d`, `%H`, `%M`, `%S`: two digits, zero-padded. */
  function Pad2(n: nat): string
    requires n < 100
  {
    [DigitChar(n / 10), DigitChar(n % 10)]
  }

  /** `t.strftime('%Y-%m-%dT%H:%M:%SZ')`, with `%Y` the year's decimal digits. */
  function Format(t: DateTime): (r: string)
    requires Valid(t)
    ensures |r| > 0 && IsDigit(r[0]) && r[|r| - 1] == 'Z'
    ensures forall i | 0 <= i < |r| :: StampChar(r[i])
  {
    NatToString(t.year) + "-" + Pad2(t.month) + "-" + Pad2(t.day)
      + "T" + Pad2(t.hour) + ":" + Pad2(t.minute) + ":" + Pad2(t.second) + "Z"
  }

  /** Reads a text of the shape `Format` produces back into a date and time:
      the year is everything before the last sixteen characters. */
  function Parse(s: string): Option<DateTime>
  {
    if |s| < 17 then None
    else
      var n := |s| - 16;
      var year, month, day := s[..n], s[n + 1..n + 3], s[n + 4..n + 6];
      var hour, minute, second := s[n + 7..n + 9], s[n + 10..n + 12], s[n + 13..n + 15];
      if && s[n] == '-' && s[n + 3] == '-' && s[n + 6] == 'T'
         && s[n + 9] == ':' && s[n + 12] == ':' && s[n + 15] == 'Z'
         && AllDigits(year) && AllDigits(month) && AllDigits(day)
         && AllDigits(hour) && AllDigits(minute) && AllDigits(second)
      then
        var t := DateTime(ParseNat(year), ParseNat(month), ParseNat(day),
                          ParseNat(hour), ParseNat(minute), ParseNat(second));
        if Valid(t) then Some(t) else None
      else None
  }

  lemma ParsePad2(n: nat)
    requires n < 100
    ensures AllDigits(Pad2(n)) && ParseNat(Pad2(n)) == n
  {
    var p := Pad2(n);
    assert DigitValue(p[0]) == n / 10 && DigitValue(p[1]) == n % 10;
    assert p[..1][..0] == [];
    assert ParseNat(p[..1]) == n / 10;
  }

  /** Every date and time is read back from its rendering. */
  lemma FormatRoundTrip(t: DateTime)
    requires Valid(t)
    ensures Parse(Format(t)) == Some(t)
  {
    var r := Format(t);
    var y := NatToString(t.year);
    var n := |y|;
    assert |r| == n + 16;
    assert r[..n] == y;
    assert r[n + 1..n + 3] == Pad2(t.month);
    assert r[n + 4..n + 6] == Pad2(t.day);
    assert r[n + 7..n + 9] == Pad2(t.hour);
    assert r[n + 10..n + 12] == Pad2(t.minute);
    assert r[n + 13..n + 15] == Pad2(t.second);
    ParseNatToString(t.year);
    ParsePad2(t.month);
    ParsePad2(t.day);
    ParsePad2(t.hour);
    ParsePad2(t.minute);
    ParsePad2(t.second);
  }
}
