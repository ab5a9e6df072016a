/**
 * Timestamps as the timeline script reads them from the database: `parse_timestamp`
 * (generate_timeline.py:24-33) replaces every 'T' with a space and hands the text to
 * `datetime.fromisoformat`, returning None for a missing value or text that does not
 * parse. The model accepts the forms the tracker writes ("YYYY-MM-DD HH:MM:SS" with an
 * optional fraction) and a few shorter ones, and maps a date-time to the microsecond
 * count that Python's datetime arithmetic is based on.
 */
module Timestamp {
  import opened Wrappers
  import Clock

  /** A naive `datetime`: the fields Python stores, microseconds included. */
  datatype DateTime = DateTime(year: int, month: int, day: int, hour: int, minute: int, second: int, micro: int)

  predicate IsLeap(y: int)
  {
    y % 4 == 0 && (y % 100 != 0 || y % 400 == 0)
  }

  function DaysInMonth(y: int, m: int): int
    requires 1 <= m <= 12
  {
    if m == 2 then (if IsLeap(y) then 29 else 28)
    else if m == 4 || m == 6 || m == 9 || m == 11 then 30
    else 31
  }

  /** Python's `_days_before_month`: the days of the year before the first of month `m`. */
  function DaysBeforeMonth(y: int, m: int): int
    requires 1 <= m <= 12
  {
    [0, 31, 59, 90, 120, 151, 181, 212, 243, 273, 304, 334][m - 1] + (if m > 2 && IsLeap(y) then 1 else 0)
  }

  /** The range checks `datetime` makes on construction. */
  predicate Valid(dt: DateTime)
  {
    1 <= dt.year <= 9999 && 1 <= dt.month <= 12 && 1 <= dt.day <= DaysInMonth(dt.year, dt.month) &&
    0 <= dt.hour < 24 && 0 <= dt.minute < 60 && 0 <= dt.second < 60 && 0 <= dt.micro < 1_000_000
  }

  // ------------------------------------------------------------- digits

  predicate IsDigit(c: char)
  {
    '0' <= c <= '9'
  }

  predicate AllDigits(s: string)
  {
    forall i :: 0 <= i < |s| ==> IsDigit(s[i])
  }

  function Pow10(k: nat): (p: nat)
    ensures p >= 1
  {
    if k == 0 then 1 else 10 * Pow10(k - 1)
  }

  /** The number a string of decimal digits denotes. */
  function Value(s: string): (n: nat)
    requires AllDigits(s)
    ensures n < Pow10(|s|)
  {
    if s == [] then 0 else Value(s[..|s| - 1]) * 10 + (s[|s| - 1] as int - '0' as int)
  }

  /** `n` written with exactly `k` digits, zero-padded on the left. */
  function Digits(n: nat, k: nat): (s: string)
    ensures |s| == k && AllDigits(s)
  {
    if k == 0 then [] else Digits(n / 10, k - 1) + [(n % 10 + '0' as int) as char]
  }

  /** Writing a number that fits in `k` digits and reading it back gives the number. */
  lemma {:induction false} ValueDigits(n: nat, k: nat)
    requires n < Pow10(k)
    ensures Value(Digits(n, k)) == n
  {
    if k > 0 {
      var s := Digits(n, k);
      assert s[..|s| - 1] == Digits(n / 10, k - 1);
      ValueDigits(n / 10, k - 1);
    }
  }

  /** The number in `s[from..from + len]`, if those are all digits. */
  function Number(s: string, from: nat, len: nat): (r: Option<nat>)
    requires from + len <= |s|
    ensures r.Some? ==> r.value < Pow10(len)
  {
    if AllDigits(s[from..from + len]) then Some(Value(s[from..from + len])) else None
  }

  // ------------------------------------------------------------- parsing

  /** generate_timeline.py:29: every 'T' becomes a space. */
  function ReplaceT(s: string): (r: string)
    ensures |r| == |s| && forall i :: 0 <= i < |s| ==> r[i] == (if s[i] == 'T' then ' ' else s[i])
  {
    seq(|s|, i requires 0 <= i < |s| => if s[i] == 'T' then ' ' else s[i])
  }

  datatype Clock4 = Clock4(hour: nat, minute: nat, second: nat, micro: nat)

  /** "YYYY-MM-DD": the year, month and day, not yet range-checked. */
  function ParseDate(s: string): Option<(nat, nat, nat)>
    requires |s| == 10
  {
    if s[4] != '-' || s[7] != '-' then None
    else
      var y := Number(s, 0, 4);
      var m := Number(s, 5, 2);
      var d := Number(s, 8, 2);
      if y.None? || m.None? || d.None? then None else Some((y.value, m.value, d.value))
  }

  /**
   * "HH:MM", "HH:MM:SS" or "HH:MM:SS.f" with one to six fraction digits (padded on the
   * right to microseconds), not yet range-checked.
   */
  function ParseTime(t: string): (r: Option<Clock4>)
    ensures r.Some? ==> r.value.micro < 1_000_000
  {
    if |t| < 5 || t[2] != ':' then None
    else
      var h := Number(t, 0, 2);
      var m := Number(t, 3, 2);
      if h.None? || m.None? then None
      else if |t| == 5 then Some(Clock4(h.value, m.value, 0, 0))
      else if |t| < 8 || t[5] != ':' then None
      else
        var sec := Number(t, 6, 2);
        if sec.None? then None
        else if |t| == 8 then Some(Clock4(h.value, m.value, sec.value, 0))
        else if t[8] != '.' || |t| < 10 || |t| > 15 then None
        else
          var f := Number(t, 9, |t| - 9);
          if f.None? then None
          else
            assert f.value * Pow10(15 - |t|) < 1_000_000 by { FractionBound(f.value, |t| - 9); }
            Some(Clock4(h.value, m.value, sec.value, f.value * Pow10(15 - |t|)))
  }

  lemma FractionBound(f: nat, len: nat)
    requires 1 <= len <= 6 && f < Pow10(len)
    ensures f * Pow10(6 - len) < 1_000_000
  {
    assert Pow10(len) * Pow10(6 - len) == 1_000_000 by {
      assert Pow10(1) == 10 && Pow10(2) == 100 && Pow10(3) == 1000;
      assert Pow10(4) == 10000 && Pow10(5) == 100000 && Pow10(6) == 1000000;
    }
  }

  /** `datetime.fromisoformat` on the accepted forms: None for anything else or out-of-range fields. */
  function ParseIso(s: string): (r: Option<DateTime>)
    ensures r.Some? ==> Valid(r.value)
  {
    if |s| < 10 then None
    else
      var date := ParseDate(s[..10]);
      var time := if |s| == 10 then Some(Clock4(0, 0, 0, 0)) else if s[10] == ' ' then ParseTime(s[11..]) else None;
      if date.None? || time.None? then None
      else
        var dt := DateTime(date.value.0, date.value.1, date.value.2, time.value.hour, time.value.minute, time.value.second, time.value.micro);
        if Valid(dt) then Some(dt) else None
  }

  /**
   * `parse_timestamp`: a missing value (SQL NULL, such as the end of an open interval)
   * and unparseable text both give None; a result is always a valid date-time.
   */
  function ParseTimestamp(s: Option<string>): (r: Option<DateTime>)
    ensures s.None? ==> r.None?
    ensures r.Some? ==> Valid(r.value)
  {
    if s.None? then None else ParseIso(ReplaceT(s.value))
  }

  // ------------------------------------------------------------ printing

  function FormatDate(dt: DateTime): (s: string)
    requires Valid(dt)
    ensures |s| == 10
  {
    Digits(dt.year, 4) + "-" + Digits(dt.month, 2) + "-" + Digits(dt.day, 2)
  }

  function FormatTime(dt: DateTime): (s: string)
    requires Valid(dt)
    ensures |s| >= 8
  {
    Digits(dt.hour, 2) + ":" + Digits(dt.minute, 2) + ":" + Digits(dt.second, 2) +
    (if dt.micro != 0 then "." + Digits(dt.micro, 6) else "")
  }

  /** `str(datetime)`: how the tracker's datetimes are stored as text in the database. */
  function Format(dt: DateTime): string
    requires Valid(dt)
  {
    FormatDate(dt) + " " + FormatTime(dt)
  }

  /** `datetime.isoformat()`: the same with a 'T' between date and time. */
  function FormatIso(dt: DateTime): string
    requires Valid(dt)
  {
    FormatDate(dt) + "T" + FormatTime(dt)
  }

  lemma ParseFormatDate(dt: DateTime)
    requires Valid(dt)
    ensures ParseDate(FormatDate(dt)) == Some((dt.year, dt.month, dt.day))
  {
    var s := FormatDate(dt);
    assert s[0..4] == Digits(dt.year, 4);
    assert s[5..7] == Digits(dt.month, 2);
    assert s[8..10] == Digits(dt.day, 2);
    ValueDigits(dt.year, 4);
    ValueDigits(dt.month, 2);
    ValueDigits(dt.day, 2);
  }

  /** Digits written at `from` read back as the number. */
  lemma NumberOfDigits(s: string, from: nat, n: nat, k: nat)
    requires from + k <= |s| && n < Pow10(k) && s[from..from + k] == Digits(n, k)
    ensures Number(s, from, k) == Some(n)
  {
    ValueDigits(n, k);
  }

  /** Where the fields of a formatted time sit, and what they read back as. */
  lemma FormatTimeFields(dt: DateTime)
    requires Valid(dt)
    ensures var t := FormatTime(dt);
      t[2] == ':' && t[5] == ':' &&
      Number(t, 0, 2) == Some(dt.hour) && Number(t, 3, 2) == Some(dt.minute) && Number(t, 6, 2) == Some(dt.second) &&
      (dt.micro == 0 ==> |t| == 8) &&
      (dt.micro != 0 ==> |t| == 15 && t[8] == '.' && Number(t, 9, 6) == Some(dt.micro))
  {
    var t := FormatTime(dt);
    var hms := Digits(dt.hour, 2) + ":" + Digits(dt.minute, 2) + ":" + Digits(dt.second, 2);
    assert t[..8] == hms;
    assert t[0..2] == Digits(dt.hour, 2);
    assert t[3..5] == Digits(dt.minute, 2);
    assert t[6..8] == Digits(dt.second, 2);
    NumberOfDigits(t, 0, dt.hour, 2);
    NumberOfDigits(t, 3, dt.minute, 2);
    NumberOfDigits(t, 6, dt.second, 2);
    if dt.micro != 0 {
      assert t[9..15] == Digits(dt.micro, 6);
      NumberOfDigits(t, 9, dt.micro, 6);
    }
  }

  lemma ParseFormatTime(dt: DateTime)
    requires Valid(dt)
    ensures ParseTime(FormatTime(dt)) == Some(Clock4(dt.hour, dt.minute, dt.second, dt.micro))
  {
    FormatTimeFields(dt);
    assert Pow10(0) == 1;
  }

  /** No character of a formatted date-time is a 'T'. */
  lemma FormatHasNoT(dt: DateTime)
    requires Valid(dt)
    ensures ReplaceT(Format(dt)) == Format(dt)
  {
  }

  /**
   * Round trip: the text the database holds for a date-time, in either the space or
   * the 'T' form, parses back to that date-time.
   */
  lemma ParseFormat(dt: DateTime)
    requires Valid(dt)
    ensures ParseTimestamp(Some(Format(dt))) == Some(dt)
    ensures ParseTimestamp(Some(FormatIso(dt))) == Some(dt)
  {
    var s := Format(dt);
    FormatHasNoT(dt);
    assert ReplaceT(FormatIso(dt)) == s;
    assert s[..10] == FormatDate(dt);
    assert s[11..] == FormatTime(dt);
    ParseFormatDate(dt);
    ParseFormatTime(dt);
  }

  /** A month out of range gives None rather than an exception. */
  lemma ParseRejectsBadMonth()
    ensures ParseTimestamp(Some("2024-13-01 10:00:00")) == None
  {
    var s := "2024-13-01 10:00:00";
    assert forall i :: 0 <= i < |s| ==> s[i] != 'T';
    assert ReplaceT(s) == s;
    var date := s[..10];
    assert date == "2024-13-01";
    assert date[5..7] == ['1', '3'];
    assert Value(['1']) == 1;
    assert Value(['1', '3']) == 13;
  }

  /** Text that is not a date, and a missing value, give None. */
  lemma ParseRejectsText()
    ensures ParseTimestamp(Some("not a time")) == None
    ensures ParseTimestamp(None) == None
  {
    var u := "not a time";
    assert ReplaceT(u) == u;
    assert u[..10][4] == 'a';
  }

  // -------------------------------------------------------------- ticks

  /** Python's `_days_before_year`. */
  function DaysBeforeYear(y: int): int
  {
    (y - 1) * 365 + (y - 1) / 4 - (y - 1) / 100 + (y - 1) / 400
  }

  /** `date.toordinal()`: day 1 is 0001-01-01. */
  function Ordinal(dt: DateTime): int
    requires Valid(dt)
  {
    DaysBeforeYear(dt.year) + DaysBeforeMonth(dt.year, dt.month) + dt.day
  }

  function TimeOfDay(dt: DateTime): int
  {
    ((dt.hour * 60 + dt.minute) * 60 + dt.second) * 1_000_000 + dt.micro
  }

  /**
   * The date-time as microseconds since the start of day 0 (86 400 000 000 to a day);
   * differences of these are `timedelta`s.
   */
  function ToTicks(dt: DateTime): Clock.Time
    requires Valid(dt)
  {
    Ordinal(dt) * 86_400_000_000 + TimeOfDay(dt)
  }

  /** Python's comparison of naive date-times: field by field. */
  predicate Before(a: DateTime, b: DateTime)
  {
    if a.year != b.year then a.year < b.year
    else if a.month != b.month then a.month < b.month
    else if a.day != b.day then a.day < b.day
    else if a.hour != b.hour then a.hour < b.hour
    else if a.minute != b.minute then a.minute < b.minute
    else if a.second != b.second then a.second < b.second
    else a.micro < b.micro
  }

  lemma TimeOfDayBounds(dt: DateTime)
    requires Valid(dt)
    ensures 0 <= TimeOfDay(dt) < 86_400_000_000
  {
  }

  lemma TimeOfDayMonotone(a: DateTime, b: DateTime)
    requires Valid(a) && Valid(b) && Before(a, b)
    requires a.year == b.year && a.month == b.month && a.day == b.day
    ensures TimeOfDay(a) < TimeOfDay(b)
  {
  }

  lemma DaysInYear(y: int)
    requires y >= 1
    ensures DaysBeforeYear(y + 1) - DaysBeforeYear(y) == if IsLeap(y) then 366 else 365
  {
    var z := y - 1;
    DivStep(z, 4);
    DivStep(z, 100);
    DivStep(z, 400);
    MultipleOfFactor(y, 400, 100, 4);
    MultipleOfFactor(y, 100, 4, 25);
    var a, b, c := (z + 1) / 4 - z / 4, (z + 1) / 100 - z / 100, (z + 1) / 400 - z / 400;
    assert DaysBeforeYear(y + 1) - DaysBeforeYear(y) == 365 + a - b + c;
  }

  /** A multiple of `d * k` is a multiple of `d`. */
  lemma MultipleOfFactor(n: int, m: int, d: int, k: int)
    requires d > 0 && k > 0 && m == d * k
    ensures n % m == 0 ==> n % d == 0
  {
    if n % m == 0 {
      var q := n / m;
      assert n == m * q;
      assert n == d * (k * q);
      DivUnique(n, d, k * q, 0);
    }
  }

  /** One more day in the count moves the quotient by `d` exactly at a multiple of `d`. */
  lemma DivStep(z: int, d: int)
    requires d > 0
    ensures (z + 1) / d - z / d == if (z + 1) % d == 0 then 1 else 0
  {
    var q, r := z / d, z % d;
    assert z == d * q + r && 0 <= r < d;
    if r == d - 1 {
      assert z + 1 == d * (q + 1);
      DivUnique(z + 1, d, q + 1, 0);
    } else {
      assert z + 1 == d * q + (r + 1);
      DivUnique(z + 1, d, q, r + 1);
    }
  }

  lemma DivUnique(n: int, d: int, q: int, r: int)
    requires d > 0 && n == d * q + r && 0 <= r < d
    ensures n / d == q && n % d == r
  {
    var q', r' := n / d, n % d;
    assert d * (q - q') == r' - r;
    MulSmallZero(d, q - q');
  }

  /** A multiple of `d` strictly between `-d` and `d` is zero. */
  lemma MulSmallZero(d: int, x: int)
    requires d > 0 && -d < d * x < d
    ensures x == 0
  {
    if x >= 1 {
      MulAtLeast(d, x);
    } else if x <= -1 {
      MulAtLeast(d, -x);
    }
  }

  lemma {:induction false} MulAtLeast(d: int, x: int)
    requires d > 0 && x >= 1
    ensures d * x >= d
    decreases x
  {
    if x > 1 {
      MulAtLeast(d, x - 1);
      assert d * x == d * (x - 1) + d;
    }
  }

  lemma MonthInYear(y: int, m: int)
    requires 1 <= m <= 12
    ensures DaysBeforeMonth(y, m) + DaysInMonth(y, m) <= if IsLeap(y) then 366 else 365
    ensures m < 12 ==> DaysBeforeMonth(y, m) + DaysInMonth(y, m) == DaysBeforeMonth(y, m + 1)
  {
  }

  lemma YearsMonotone(y: int, y': int)
    requires 1 <= y < y'
    ensures DaysBeforeYear(y) + (if IsLeap(y) then 366 else 365) <= DaysBeforeYear(y')
    decreases y' - y
  {
    DaysInYear(y);
    if y + 1 < y' {
      YearsMonotone(y + 1, y');
      DaysInYear(y + 1);
    }
  }

  /**
   * Ticks order date-times as Python compares them, so `max`, `min` and `<=` on
   * date-times (generate_timeline.py:95-97) are the same on their ticks.
   */
  lemma ToTicksMonotone(a: DateTime, b: DateTime)
    requires Valid(a) && Valid(b) && Before(a, b)
    ensures ToTicks(a) < ToTicks(b)
  {
    TimeOfDayBounds(a);
    TimeOfDayBounds(b);
    if a.year == b.year && a.month == b.month && a.day == b.day {
      TimeOfDayMonotone(a, b);
    } else {
      assert Ordinal(a) < Ordinal(b) by {
        MonthInYear(a.year, a.month);
        if a.year < b.year {
          YearsMonotone(a.year, b.year);
        } else if a.month < b.month {
          MonthsMonotone(a.year, a.month, b.month);
        }
      }
    }
  }

  lemma MonthsMonotone(y: int, m: int, m': int)
    requires 1 <= m < m' <= 12
    ensures DaysBeforeMonth(y, m) + DaysInMonth(y, m) <= DaysBeforeMonth(y, m')
  {
  }
}
