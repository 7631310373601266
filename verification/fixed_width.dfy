/** Decimal numbers padded with zeros to a fixed width, which order as texts as they do as numbers. */
module FixedWidth {
  import opened Ordering

  function Pow10(width: nat): (p: nat)
    ensures p >= 1
  {
    if width == 0 then 1 else 10 * Pow10(width - 1)
  }

  function Digit(d: nat): char
    requires d < 10
  {
    ('0' as int + d) as char
  }

  function Padded(n: nat, width: nat): (r: string)
    requires n < Pow10(width)
    ensures |r| == width
  {
    if width == 0 then "" else Padded(n / 10, width - 1) + [Digit(n % 10)]
  }

  lemma {:induction false} PaddedOrder(a: nat, b: nat, width: nat)
    requires a < Pow10(width) && b < Pow10(width)
    ensures Less(Padded(a, width), Padded(b, width)) <==> a < b
    ensures Padded(a, width) == Padded(b, width) <==> a == b
  {
    if width > 0 {
      PaddedOrder(a / 10, b / 10, width - 1);
      var x, y := [Digit(a % 10)], [Digit(b % 10)];
      LessFieldwise(Padded(a / 10, width - 1), Padded(b / 10, width - 1), x, y);
      SameDigits(Padded(a / 10, width - 1), Padded(b / 10, width - 1), a % 10, b % 10);
    }
  }

  lemma SameDigits(p: string, q: string, d: nat, e: nat)
    requires |p| == |q| && d < 10 && e < 10
    ensures p + [Digit(d)] == q + [Digit(e)] <==> p == q && d == e
    ensures Less([Digit(d)], [Digit(e)]) <==> d < e
  {
    var s, t := p + [Digit(d)], q + [Digit(e)];
    if s == t {
      assert s[..|p|] == p && t[..|q|] == q;
      assert s[|p|] == Digit(d) && t[|q|] == Digit(e);
    }
    assert [Digit(d)][1..] == "" && [Digit(e)][1..] == "";
  }

  ghost predicate AllDigits(s: string) {
    forall c | c in s :: '0' <= c <= '9'
  }

  /** The number that a text of digits denotes. */
  ghost function DecimalValue(s: string): int {
    if s == "" then 0 else 10 * DecimalValue(s[..|s| - 1]) + (s[|s| - 1] as int - '0' as int)
  }

  lemma {:induction false} PaddedDenotes(n: nat, width: nat)
    requires n < Pow10(width)
    ensures AllDigits(Padded(n, width)) && DecimalValue(Padded(n, width)) == n
  {
    if width > 0 {
      PaddedDenotes(n / 10, width - 1);
      assert Padded(n, width)[..width - 1] == Padded(n / 10, width - 1);
    }
  }

  /** Comparing texts that begin with a field of fixed width compares that field first. */
  lemma FieldOrder(a: nat, b: nat, width: nat, x: string, y: string)
    requires a < Pow10(width) && b < Pow10(width)
    ensures Less(Padded(a, width) + x, Padded(b, width) + y) <==> a < b || (a == b && Less(x, y))
  {
    PaddedOrder(a, b, width);
    LessFieldwise(Padded(a, width), Padded(b, width), x, y);
  }
}

/** Timestamps in UTC and their fixed-width text
  (`_format_timestamp`, src/m365_mcp/capability_evidence.py:251-253). */
module Timestamps {
  import opened FixedWidth
  import opened Ordering

  predicate Leap(year: nat) {
    year % 4 == 0 && (year % 100 != 0 || year % 400 == 0)
  }

  function DaysInMonth(year: nat, month: nat): nat {
    if month == 2 then (if Leap(year) then 29 else 28)
    else if month == 4 || month == 6 || month == 9 || month == 11 then 30
    else 31
  }

  /** Days from the start of year 1 to the start of the year. */
  function DaysBeforeYear(year: nat): nat {
    if year <= 1 then 0 else DaysBeforeYear(year - 1) + (if Leap(year - 1) then 366 else 365)
  }

  function DaysBeforeMonth(year: nat, month: nat): nat {
    if month <= 1 then 0 else DaysBeforeMonth(year, month - 1) + DaysInMonth(year, month - 1)
  }

  datatype DateTime = DateTime(year: nat, month: nat, day: nat, hour: nat, minute: nat, second: nat, micro: nat) {
    predicate Valid() {
      && 1 <= year <= 9999 && 1 <= month <= 12 && 1 <= day <= DaysInMonth(year, month)
      && hour < 24 && minute < 60 && second < 60 && micro < 1_000_000
    }

    function Day(): nat {
      DaysBeforeYear(year) + DaysBeforeMonth(year, month) + day
    }

    /** Microseconds since midnight. */
    function Clock(): nat {
      ((hour * 60 + minute) * 60 + second) * 1_000_000 + micro
    }

    /** Microseconds on the time line. */
    function Instant(): nat {
      Day() * 86_400_000_000 + Clock()
    }
  }

  function ClockText(t: DateTime): string
    requires t.Valid()
  {
    Pow10Values();
    Padded(t.hour, 2) + (":" + (Padded(t.minute, 2) + (":" +
      (Padded(t.second, 2) + ("." + (Padded(t.micro, 6) + "Z"))))))
  }

  /** `isoformat(timespec="microseconds")` with "Z" for the offset. */
  function FormatTimestamp(t: DateTime): string
    requires t.Valid()
  {
    Pow10Values();
    Padded(t.year, 4) + ("-" + (Padded(t.month, 2) + ("-" + (Padded(t.day, 2) + ("T" + ClockText(t))))))
  }

  lemma Pow10Values()
    ensures Pow10(2) == 100 && Pow10(4) == 10_000 && Pow10(6) == 1_000_000
  {
  }

  // ----- the text orders like the fields

  predicate ClockBefore(a: DateTime, b: DateTime) {
    || a.hour < b.hour
    || (a.hour == b.hour && (a.minute < b.minute
    || (a.minute == b.minute && (a.second < b.second
    || (a.second == b.second && a.micro < b.micro)))))
  }

  predicate DateBefore(a: DateTime, b: DateTime) {
    || a.year < b.year
    || (a.year == b.year && (a.month < b.month
    || (a.month == b.month && a.day < b.day)))
  }

  predicate SameDate(a: DateTime, b: DateTime) {
    a.year == b.year && a.month == b.month && a.day == b.day
  }

  lemma SeparatedOrder(a: nat, b: nat, width: nat, separator: string, x: string, y: string)
    requires a < Pow10(width) && b < Pow10(width)
    ensures Less(Padded(a, width) + (separator + x), Padded(b, width) + (separator + y))
      <==> a < b || (a == b && Less(x, y))
  {
    FieldOrder(a, b, width, separator + x, separator + y);
    LessPrefixed(separator, x, y);
  }

  lemma ClockTextOrder(a: DateTime, b: DateTime)
    requires a.Valid() && b.Valid()
    ensures Less(ClockText(a), ClockText(b)) <==> ClockBefore(a, b)
  {
    Pow10Values();
    var a3, b3 := Padded(a.micro, 6) + "Z", Padded(b.micro, 6) + "Z";
    FieldOrder(a.micro, b.micro, 6, "Z", "Z");
    LessAsymmetric("Z", "Z");
    var a2, b2 := Padded(a.second, 2) + ("." + a3), Padded(b.second, 2) + ("." + b3);
    SeparatedOrder(a.second, b.second, 2, ".", a3, b3);
    var a1, b1 := Padded(a.minute, 2) + (":" + a2), Padded(b.minute, 2) + (":" + b2);
    SeparatedOrder(a.minute, b.minute, 2, ":", a2, b2);
    SeparatedOrder(a.hour, b.hour, 2, ":", a1, b1);
  }

  lemma DateTextOrder(a: DateTime, b: DateTime)
    requires a.Valid() && b.Valid()
    ensures Less(FormatTimestamp(a), FormatTimestamp(b)) <==> DateBefore(a, b) || (SameDate(a, b) && ClockBefore(a, b))
  {
    Pow10Values();
    ClockTextOrder(a, b);
    var a2, b2 := Padded(a.day, 2) + ("T" + ClockText(a)), Padded(b.day, 2) + ("T" + ClockText(b));
    SeparatedOrder(a.day, b.day, 2, "T", ClockText(a), ClockText(b));
    var a1, b1 := Padded(a.month, 2) + ("-" + a2), Padded(b.month, 2) + ("-" + b2);
    SeparatedOrder(a.month, b.month, 2, "-", a2, b2);
    SeparatedOrder(a.year, b.year, 4, "-", a1, b1);
  }

  // ----- the fields order like the instants

  lemma {:induction false} LaterYear(a: nat, b: nat)
    requires 1 <= a < b
    ensures DaysBeforeYear(a) + (if Leap(a) then 366 else 365) <= DaysBeforeYear(b)
  {
    if a + 1 < b {
      LaterYear(a, b - 1);
    }
  }

  lemma {:induction false} LaterMonth(year: nat, a: nat, b: nat)
    requires 1 <= a < b
    ensures DaysBeforeMonth(year, a) + DaysInMonth(year, a) <= DaysBeforeMonth(year, b)
  {
    if a + 1 < b {
      LaterMonth(year, a, b - 1);
    }
  }

  lemma YearLength(year: nat)
    ensures DaysBeforeMonth(year, 13) == if Leap(year) then 366 else 365
  {
    assert DaysBeforeMonth(year, 1) == 0 && DaysBeforeMonth(year, 2) == 31;
    assert DaysBeforeMonth(year, 3) == 31 + DaysInMonth(year, 2);
    assert DaysBeforeMonth(year, 5) == DaysBeforeMonth(year, 3) + 61;
    assert DaysBeforeMonth(year, 7) == DaysBeforeMonth(year, 5) + 61;
    assert DaysBeforeMonth(year, 9) == DaysBeforeMonth(year, 7) + 62;
    assert DaysBeforeMonth(year, 11) == DaysBeforeMonth(year, 9) + 61;
    assert DaysBeforeMonth(year, 13) == DaysBeforeMonth(year, 11) + 61;
  }

  lemma DayOfYear(t: DateTime)
    requires t.Valid()
    ensures 1 <= DaysBeforeMonth(t.year, t.month) + t.day <= if Leap(t.year) then 366 else 365
  {
    LaterMonth(t.year, t.month, 13);
    YearLength(t.year);
  }

  lemma EarlierDate(a: DateTime, b: DateTime)
    requires a.Valid() && b.Valid() && DateBefore(a, b)
    ensures a.Day() < b.Day()
  {
    if a.year < b.year {
      LaterYear(a.year, b.year);
      DayOfYear(a);
      DayOfYear(b);
    } else if a.month < b.month {
      LaterMonth(a.year, a.month, b.month);
    }
  }

  lemma EarlierClock(a: DateTime, b: DateTime)
    requires a.Valid() && b.Valid()
    ensures ClockBefore(a, b) <==> a.Clock() < b.Clock()
    ensures a.Clock() < 86_400_000_000
  {
  }

  lemma DateTrichotomy(a: DateTime, b: DateTime)
    ensures DateBefore(a, b) || DateBefore(b, a) || SameDate(a, b)
    ensures SameDate(a, b) ==> a.Day() == b.Day()
  {
  }

  lemma EarlierInstant(day: nat, clock: nat, day': nat, clock': nat)
    requires clock < 86_400_000_000 && clock' < 86_400_000_000
    ensures day * 86_400_000_000 + clock < day' * 86_400_000_000 + clock' <==>
      day < day' || (day == day' && clock < clock')
  {
  }

  /** The fixed-width text orders chronologically. */
  lemma TextIsChronological(a: DateTime, b: DateTime)
    requires a.Valid() && b.Valid()
    ensures Less(FormatTimestamp(a), FormatTimestamp(b)) <==> a.Instant() < b.Instant()
  {
    DateTextOrder(a, b);
    DateTrichotomy(a, b);
    EarlierClock(a, b);
    EarlierClock(b, a);
    if DateBefore(a, b) { EarlierDate(a, b); }
    if DateBefore(b, a) { EarlierDate(b, a); }
    EarlierInstant(a.Day(), a.Clock(), b.Day(), b.Clock());
  }

  /** The text and the instant both determine the timestamp. */
  lemma TimestampExact(a: DateTime, b: DateTime)
    requires a.Valid() && b.Valid()
    ensures FormatTimestamp(a) == FormatTimestamp(b) <==> a.Instant() == b.Instant()
    ensures a.Instant() == b.Instant() <==> a == b
  {
    TextIsChronological(a, b);
    TextIsChronological(b, a);
    LessAsymmetric(FormatTimestamp(a), FormatTimestamp(a));
    LessTotal(FormatTimestamp(a), FormatTimestamp(b));
    DateTextOrder(a, b);
    DateTextOrder(b, a);
    DateTrichotomy(a, b);
  }

  // ----- the text and the calendar

  ghost predicate Field(text: string, width: nat, n: nat) {
    |text| == width && AllDigits(text) && DecimalValue(text) == n
  }

  lemma PaddedField(n: nat, width: nat)
    requires n < Pow10(width)
    ensures Field(Padded(n, width), width, n)
  {
    PaddedDenotes(n, width);
  }

  /** Every field stands at its place in the text: `YYYY-MM-DDTHH:MM:SS.ffffffZ`. */
  lemma TimestampReads(t: DateTime)
    requires t.Valid()
    ensures exists year, month, day, hour, minute, second, micro ::
      && Field(year, 4, t.year) && Field(month, 2, t.month) && Field(day, 2, t.day)
      && Field(hour, 2, t.hour) && Field(minute, 2, t.minute) && Field(second, 2, t.second)
      && Field(micro, 6, t.micro)
      && FormatTimestamp(t) == year + ("-" + (month + ("-" + (day + ("T" +
           (hour + (":" + (minute + (":" + (second + ("." + (micro + "Z"))))))))))))
  {
    Pow10Values();
    PaddedField(t.year, 4);
    PaddedField(t.month, 2);
    PaddedField(t.day, 2);
    PaddedField(t.hour, 2);
    PaddedField(t.minute, 2);
    PaddedField(t.second, 2);
    PaddedField(t.micro, 6);
  }

  lemma NextQuotients(k: nat)
    requires k >= 1
    ensures k / 4 - (k - 1) / 4 == if k % 4 == 0 then 1 else 0
    ensures k / 100 - (k - 1) / 100 == if k % 100 == 0 then 1 else 0
    ensures k / 400 - (k - 1) / 400 == if k % 400 == 0 then 1 else 0
  {
  }

  lemma Multiples(year: nat)
    ensures year % 400 == 0 ==> year % 100 == 0
    ensures year % 100 == 0 ==> year % 4 == 0
  {
    if year % 400 == 0 {
      assert year == 100 * (4 * (year / 400));
    }
    if year % 100 == 0 {
      assert year == 4 * (25 * (year / 100));
    }
  }

  /** The days of the first n years of the Gregorian calendar. */
  ghost function DaysOfYears(n: nat): int {
    365 * n + n / 4 - n / 100 + n / 400
  }

  lemma OneMoreYear(n: nat)
    requires n >= 1
    ensures DaysOfYears(n) == DaysOfYears(n - 1) + (if Leap(n) then 366 else 365)
  {
    Multiples(n);
    NextQuotients(n);
  }

  lemma {:induction false} DaysBeforeYearExact(year: nat)
    requires year >= 1
    ensures DaysBeforeYear(year) == DaysOfYears(year - 1)
  {
    if year > 1 {
      DaysBeforeYearExact(year - 1);
      OneMoreYear(year - 1);
    }
  }

  /** Instants count microseconds by days, hours, minutes and seconds. */
  lemma InstantExact(t: DateTime)
    requires t.Valid()
    ensures t.Instant() ==
      ((((DaysOfYears(t.year - 1) + DaysBeforeMonth(t.year, t.month) + t.day) * 24 + t.hour) * 60 + t.minute) * 60
        + t.second) * 1_000_000 + t.micro
  {
    DaysBeforeYearExact(t.year);
  }

  /** The days before each month of a common year; a leap day comes before March. */
  lemma DaysBeforeMonthExact(year: nat, month: nat)
    requires 1 <= month <= 12
    ensures DaysBeforeMonth(year, month) ==
      [0, 31, 59, 90, 120, 151, 181, 212, 243, 273, 304, 334][month - 1] + (if month > 2 && Leap(year) then 1 else 0)
  {
    MonthsToJune(year);
    MonthsToDecember(year);
  }

  lemma MonthsToJune(year: nat)
    ensures DaysBeforeMonth(year, 1) == 0 && DaysBeforeMonth(year, 2) == 31
    ensures var leap := if Leap(year) then 1 else 0;
      && DaysBeforeMonth(year, 3) == 59 + leap && DaysBeforeMonth(year, 4) == 90 + leap
      && DaysBeforeMonth(year, 5) == 120 + leap && DaysBeforeMonth(year, 6) == 151 + leap
  {
    assert DaysBeforeMonth(year, 3) == DaysBeforeMonth(year, 2) + DaysInMonth(year, 2);
    assert DaysBeforeMonth(year, 4) == DaysBeforeMonth(year, 3) + DaysInMonth(year, 3);
    assert DaysBeforeMonth(year, 5) == DaysBeforeMonth(year, 4) + DaysInMonth(year, 4);
  }

  lemma MonthsToDecember(year: nat)
    ensures var leap := if Leap(year) then 1 else 0;
      && DaysBeforeMonth(year, 7) == 181 + leap && DaysBeforeMonth(year, 8) == 212 + leap
      && DaysBeforeMonth(year, 9) == 243 + leap && DaysBeforeMonth(year, 10) == 273 + leap
      && DaysBeforeMonth(year, 11) == 304 + leap && DaysBeforeMonth(year, 12) == 334 + leap
  {
    MonthsToJune(year);
    assert DaysBeforeMonth(year, 7) == DaysBeforeMonth(year, 6) + DaysInMonth(year, 6);
    assert DaysBeforeMonth(year, 8) == DaysBeforeMonth(year, 7) + DaysInMonth(year, 7);
    assert DaysBeforeMonth(year, 9) == DaysBeforeMonth(year, 8) + DaysInMonth(year, 8);
    assert DaysBeforeMonth(year, 10) == DaysBeforeMonth(year, 9) + DaysInMonth(year, 9);
    assert DaysBeforeMonth(year, 11) == DaysBeforeMonth(year, 10) + DaysInMonth(year, 10);
  }
}
