/**
 * Calendar times and POSIX times (crypto/asn1/posix_time.c, and the two conversions of pki/encode_values.cc): the
 * valid times of the years 0 to 9999 and the seconds from the first to the last of them correspond one to one.
 */
module PosixTime {
  import opened Modular
  import opened Times
  import opened Wrappers

  const SECS_PER_HOUR := 3600
  const SECS_PER_DAY := 86400
  const MIN_POSIX_TIME := -62167219200
  const MAX_POSIX_TIME := 253402300799

  datatype Utc = Utc(year: int, month: int, day: int, hours: int, minutes: int, seconds: int)

  // ----- the code

  /** Division and remainder of C, which truncate towards zero. */
  function Div(a: int, b: int): int
    requires b > 0
  {
    if a >= 0 then a / b else -((-a) / b)
  }

  function Mod(a: int, b: int): int
    requires b > 0
  {
    a - b * Div(a, b)
  }

  predicate IsValidDate(year: int, month: int, day: int) {
    if day < 1 || month < 1 || year < 0 || year > 9999 then false
    else if month in {1, 3, 5, 7, 8, 10, 12} then day <= 31
    else if month in {4, 6, 9, 11} then day <= 30
    else if month == 2 then
      if (Mod(year, 4) == 0 && Mod(year, 100) != 0) || Mod(year, 400) == 0 then day <= 29 else day <= 28
    else false
  }

  predicate IsValidTime(hours: int, minutes: int, seconds: int) {
    !(hours < 0 || minutes < 0 || seconds < 0 || hours > 23 || minutes > 59 || seconds > 59)
  }

  /** The days since 1970, by years that start in March. */
  function PosixDays(y: int, month: int, day: int): int {
    var year := if month <= 2 then y - 1 else y;
    var era := Div(if year >= 0 then year else year - 399, 400);
    var yearOfEra := year - era * 400;
    var dayOfYear := Div(153 * (if month > 2 then month - 3 else month + 9) + 2, 5) + day - 1;
    var dayOfEra := yearOfEra * 365 + Div(yearOfEra, 4) - Div(yearOfEra, 100) + dayOfYear;
    era * 146097 + dayOfEra - 719468
  }

  /** posix_time_from_utc. */
  function PosixTimeFromUtc(t: Utc): Option<int> {
    if !IsValidDate(t.year, t.month, t.day) || !IsValidTime(t.hours, t.minutes, t.seconds) then None
    else Some(PosixDays(t.year, t.month, t.day) * SECS_PER_DAY + t.hours * SECS_PER_HOUR + t.minutes * 60 + t.seconds)
  }

  function YearOfEra(dayOfEra: int): int {
    Div(dayOfEra - Div(dayOfEra, 1460) + Div(dayOfEra, 36524) - Div(dayOfEra, 146096), 365)
  }

  /** The date of a day of a year that starts in March. */
  function DateInYear(year: int, dayOfYear: int): (int, int, int) {
    var monthOfYear := Div(5 * dayOfYear + 2, 153);
    var month := if monthOfYear < 10 then monthOfYear + 3 else monthOfYear - 9;
    (if month <= 2 then year + 1 else year, month, dayOfYear - Div(153 * monthOfYear + 2, 5) + 1)
  }

  /** The date of a day since March 1 of the year 0. */
  function DateOf(days: int): (int, int, int) {
    var era := Div(if days > 0 then days else days - 146096, 146097);
    var dayOfEra := days - era * 146097;
    var yearOfEra := YearOfEra(dayOfEra);
    DateInYear(yearOfEra + era * 400, dayOfEra - (365 * yearOfEra + Div(yearOfEra, 4) - Div(yearOfEra, 100)))
  }

  /** utc_from_posix_time. */
  function UtcFromPosixTime(time: int): Option<Utc> {
    if !(MIN_POSIX_TIME <= time <= MAX_POSIX_TIME) then None
    else
      var leftover := Mod(time, SECS_PER_DAY);
      var days := if leftover < 0 then Div(time, SECS_PER_DAY) - 1 else Div(time, SECS_PER_DAY);
      var seconds := if leftover < 0 then leftover + SECS_PER_DAY else leftover;
      var date := DateOf(days + 719468);
      Some(Utc(date.0, date.1, date.2, Div(seconds, SECS_PER_HOUR),
               Div(Mod(seconds, SECS_PER_HOUR), 60), Mod(Mod(seconds, SECS_PER_HOUR), 60)))
  }

  /** GeneralizedTimeToPosixTime: a leap second counts as the second before it. */
  function GeneralizedTimeToPosixTime(t: GeneralizedTime): Option<int> {
    PosixTimeFromUtc(Utc(t.year, t.month, t.day, t.hours, t.minutes, if t.seconds == 60 then 59 else t.seconds))
  }

  // ----- floors

  lemma DivIsFloor(a: int, b: int)
    requires b > 0
    ensures a >= 0 ==> Div(a, b) == a / b && Mod(a, b) == a % b
    ensures Div(if a >= 0 then a else a - (b - 1), b) == a / b
    ensures Div(if a > 0 then a else a - (b - 1), b) == a / b
  {
    if a < 0 {
      var c := -(a - (b - 1));
      var q := a / b;
      assert a == b * q + a % b;
      assert c == b * (-q) + (b - 1 - a % b);
      RemainderUnique(c, -q, b - 1 - a % b, b);
    } else if a == 0 {
      RemainderUnique(b - 1, 0, b - 1, b);
      RemainderUnique(0, 0, 0, b);
    }
  }

  predicate Leap(year: int) {
    year % 4 == 0 && (year % 100 != 0 || year % 400 == 0)
  }

  // ----- a year that starts in March

  /** The first day of the m-th month counted from March, by the lengths of the months. */
  function MonthStart(m: nat): nat
    requires m < 12
  {
    [0, 31, 61, 92, 122, 153, 184, 214, 245, 275, 306, 337][m]
  }

  predicate InMonth(m: nat, day: int, leap: bool)
    requires m < 12
  {
    1 <= day <= if m == 11 then if leap then 29 else 28 else MonthStart(m + 1) - MonthStart(m)
  }

  /** The code's formulas for the first day of a month, and for the month of a day. */
  lemma MonthFormulas(m: nat, t: int)
    requires m < 12
    ensures Div(153 * m + 2, 5) == MonthStart(m)
    ensures MonthStart(m) <= t <= 365 && (m < 11 ==> t < MonthStart(m + 1)) ==> Div(5 * t + 2, 153) == m
  {
    DivIsFloor(153 * m + 2, 5);
    DivIsFloor(5 * t + 2, 153);
    hide Div;
    RemainderUnique(153 * m + 2, MonthStart(m), 153 * m + 2 - 5 * MonthStart(m), 5);
    if MonthStart(m) <= t <= 365 && (m < 11 ==> t < MonthStart(m + 1)) {
      RemainderUnique(5 * t + 2, m, 5 * t + 2 - 153 * m, 153);
    }
  }

  lemma FindMonth(t: int) returns (m: nat)
    requires 0 <= t <= 365
    ensures m < 12 && MonthStart(m) <= t && (m < 11 ==> t < MonthStart(m + 1))
  {
    m := 0;
    while m < 11 && t >= MonthStart(m + 1)
      invariant m < 12 && MonthStart(m) <= t
    {
      m := m + 1;
    }
  }

  // ----- an era of 400 years

  function YearStart(y: int): int {
    365 * y + y / 4 - y / 100
  }

  /** The year of an era by the code's formula. */
  function YearOf(d: int): int {
    (d - d / 1460 + d / 36524 - d / 146096) / 365
  }

  /** Centuries, leap cycles and years of an era. */
  lemma YearParts(a: nat, b: nat, c: nat, d: nat)
    requires a < 4 && b < 25 && c < 4 && d <= 365
    requires d == 365 ==> c == 3 && (b < 24 || a == 3)
    ensures var y, n := 100 * a + 4 * b + c, 36524 * a + 1461 * b + 365 * c + d;
            y / 4 == 25 * a + b && y / 100 == a && y < 400 && n == YearStart(y) + d && YearOf(n) == y && n < 146097
  {
    var y, n := 100 * a + 4 * b + c, 36524 * a + 1461 * b + 365 * c + d;
    assert y / 4 == 25 * a + b && y / 100 == a;
    var r := 1461 * b + 365 * c + d;
    assert n / 36524 - n / 146096 == a;
    var e := 24 * a + b + 365 * c + d;
    assert n == 1460 * (25 * a + b) + e;
    assert n / 1460 == 25 * a + b + e / 1460;
    assert n - n / 1460 + a == 365 * y + d - e / 1460;
  }

  /** The day of a year of the era, counted over the era, gives back the year. */
  lemma YearOfDay(y: nat, d: nat)
    requires y < 400 && d <= 365 && (d == 365 ==> Leap(y + 1))
    ensures YearOf(YearStart(y) + d) == y && 0 <= YearStart(y) + d < 146097
  {
    var a, b, c := y / 100, y % 100 / 4, y % 4;
    assert y == 100 * a + 4 * b + c;
    if d == 365 { assert (y + 1) % 4 == 0 && ((y + 1) % 100 != 0 || (y + 1) % 400 == 0); }
    YearParts(a, b, c, d);
  }

  /** Every day of the era lies in one of its years. */
  lemma DayHasYear(n: nat)
    requires n < 146097
    ensures var y := YearOf(n);
            0 <= y < 400 && 0 <= n - YearStart(y) <= 365 && (n - YearStart(y) == 365 ==> Leap(y + 1))
  {
    var a := if n / 36524 > 3 then 3 else n / 36524;
    var r := n - 36524 * a;
    var b := r / 1461;
    var q := r - 1461 * b;
    var c := if q / 365 > 3 then 3 else q / 365;
    var d := q - 365 * c;
    assert 0 <= r <= 36524 && (r == 36524 ==> a == 3);
    assert b < 25 && 0 <= q <= 1460 && c < 4 && 0 <= d <= 365;
    YearParts(a, b, c, d);
    if d == 365 { LeapParts(a, b); }
  }

  lemma LeapParts(a: nat, b: nat)
    requires a < 4 && b < 25 && (b < 24 || a == 3)
    ensures Leap(100 * a + 4 * b + 3 + 1)
  {
    var z := 100 * a + 4 * b + 4;
    assert z % 4 == 0;
    assert b < 24 ==> z % 100 == 4 * b + 4;
    assert b == 24 ==> z == 400;
  }

  // ----- days and dates

  /** The month counted from March, and the year it belongs to. */
  function FromMarch(month: int): int {
    if month > 2 then month - 3 else month + 9
  }

  function MarchYear(year: int, month: int): int {
    if month <= 2 then year - 1 else year
  }

  /** The date of a day, with the era, the year in it, the day in the year and the month given. */
  lemma DateFrom(e: int, y: nat, t: nat, m: nat)
    requires y < 400 && t <= 365 && (t == 365 ==> Leap(y + 1))
    requires m < 12 && MonthStart(m) <= t && (m < 11 ==> t < MonthStart(m + 1))
    ensures DateOf(146097 * e + YearStart(y) + t)
            == (if m < 10 then 400 * e + y else 400 * e + y + 1, if m < 10 then m + 3 else m - 9, t - MonthStart(m) + 1)
  {
    hide Div, Leap, MonthStart, YearStart, DateOf, YearOf, YearOfEra;
    var d := YearStart(y) + t;
    YearOfDay(y, t);
    EraIs(e, d);
    YearOfEraIs(d);
    DateOfIs(146097 * e + d, e, d, y, t);
    DateInYearIs(y + e * 400, t, m);
  }

  lemma DateOfIs(n: int, e: int, d: int, y: int, t: int)
    requires Div(if n > 0 then n else n - 146096, 146097) == e && n - e * 146097 == d
    requires YearOfEra(d) == y && d - (365 * y + Div(y, 4) - Div(y, 100)) == t
    ensures DateOf(n) == DateInYear(y + e * 400, t)
  {
    hide Div, YearOfEra, DateInYear;
  }

  lemma EraIs(e: int, d: int)
    requires 0 <= d < 146097
    ensures var n := 146097 * e + d; Div(if n > 0 then n else n - 146096, 146097) == e
  {
    var n := 146097 * e + d;
    DivIsFloor(n, 146097);
    hide Div;
    RemainderUnique(n, e, d, 146097);
  }

  lemma DateInYearIs(year: int, t: nat, m: nat)
    requires t <= 365 && m < 12 && MonthStart(m) <= t && (m < 11 ==> t < MonthStart(m + 1))
    ensures DateInYear(year, t) == (if m < 10 then year else year + 1, if m < 10 then m + 3 else m - 9, t - MonthStart(m) + 1)
  {
    MonthFormulas(m, t);
    hide Div, MonthStart;
  }

  lemma YearOfEraIs(d: int)
    requires 0 <= d < 146097
    ensures YearOfEra(d) == YearOf(d) >= 0
    ensures 365 * YearOf(d) + Div(YearOf(d), 4) - Div(YearOf(d), 100) == YearStart(YearOf(d))
  {
    DayHasYear(d);
    DivIsFloor(d, 1460);
    DivIsFloor(d, 36524);
    DivIsFloor(d, 146096);
    DivIsFloor(d - d / 1460 + d / 36524 - d / 146096, 365);
    DivIsFloor(YearOf(d), 4);
    DivIsFloor(YearOf(d), 100);
    hide Div, Leap;
  }

  /** The day of a date, with the era and the year in it given. */
  lemma DaysFrom(year: int, month: int, day: int, e: int, y: nat)
    requires 1 <= month <= 12 && y < 400 && MarchYear(year, month) == 400 * e + y
    ensures PosixDays(year, month, day) == 146097 * e + YearStart(y) + MonthStart(FromMarch(month)) + day - 1 - 719468
  {
    DivIsFloor(400 * e + y, 400);
    DivIsFloor(y, 4);
    DivIsFloor(y, 100);
    MonthFormulas(FromMarch(month), 0);
    hide Div, MonthStart;
    RemainderUnique(400 * e + y, e, y, 400);
  }

  lemma LeapIs(year: int)
    requires year >= 0
    ensures (Mod(year, 4) == 0 && Mod(year, 100) != 0) || Mod(year, 400) == 0 <==> Leap(year)
  {
    DivIsFloor(year, 4);
    DivIsFloor(year, 100);
    DivIsFloor(year, 400);
    hide Div, Mod;
    if year % 400 == 0 { RemainderUnique(year, year / 400 * 100, 0, 4); }
  }

  lemma ValidDates(year: int, month: int, day: int)
    ensures IsValidDate(year, month, day) <==>
            0 <= year <= 9999 && 1 <= month <= 12 && InMonth(FromMarch(month), day, Leap(year))
  {
    if year >= 0 { LeapIs(year); }
    hide Leap, Mod;
  }

  lemma LeapInEra(e: int, y: nat)
    ensures Leap(400 * e + y) <==> Leap(y)
  {
    Shift(y, 100 * e, 4);
    Shift(y, 4 * e, 100);
    Shift(y, e, 400);
  }

  lemma Shift(x: int, q: int, m: nat)
    requires m > 0
    ensures (x + q * m) % m == x % m
  {
    assert x == x / m * m + x % m;
    assert x + q * m == (x / m + q) * m + x % m;
    RemainderUnique(x + q * m, x / m + q, x % m, m);
  }

  lemma EraOf(year: int) returns (e: int, y: nat)
    ensures y < 400 && year == 400 * e + y
  {
    e, y := year / 400, year % 400;
  }

  lemma DayInYear(m: nat, day: int, leap: bool)
    requires m < 12 && InMonth(m, day, leap)
    ensures var t := MonthStart(m) + day - 1;
            0 <= t <= 365 && MonthStart(m) <= t && (m < 11 ==> t < MonthStart(m + 1)) && (t == 365 ==> leap && m == 11)
  {
  }

  /** The date of a day is the date it was computed from. */
  lemma DateRoundTrip(year: int, month: int, day: int)
    requires IsValidDate(year, month, day)
    ensures DateOf(PosixDays(year, month, day) + 719468) == (year, month, day)
  {
    hide IsValidDate, PosixDays, DateOf, MonthStart, YearStart, Leap, InMonth, MarchYear, FromMarch;
    ValidDates(year, month, day);
    var e, y := EraOf(MarchYear(year, month));
    MarchBack(year, month, e, y);
    var m := FromMarch(month);
    DayInYear(m, day, Leap(year));
    DaysFrom(year, month, day, e, y);
    LeapInEra(e, y + 1);
    DateFrom(e, y, MonthStart(m) + day - 1, m);
  }

  lemma MarchBack(year: int, month: int, e: int, y: nat)
    requires 1 <= month <= 12 && MarchYear(year, month) == 400 * e + y
    ensures var m := FromMarch(month);
            && 0 <= m < 12 && (if m < 10 then m + 3 else m - 9) == month
            && (if m < 10 then 400 * e + y else 400 * e + y + 1) == year && (m == 11 ==> 400 * e + y + 1 == year)
  {
  }

  /** Era, year, day and month of a day. */
  lemma DayParts(n: int) returns (e: int, y: nat, t: nat, m: nat)
    ensures y < 400 && t <= 365 && (t == 365 ==> Leap(y + 1)) && n == 146097 * e + YearStart(y) + t
    ensures m < 12 && MonthStart(m) <= t && (m < 11 ==> t < MonthStart(m + 1))
  {
    e := n / 146097;
    var d := n % 146097;
    assert n == 146097 * e + d;
    DayHasYear(d);
    hide YearOf, Leap;
    y := YearOf(d);
    t := d - YearStart(y);
    hide YearStart;
    m := FindMonth(t);
  }

  lemma DayFits(t: nat, m: nat, leap: bool)
    requires t <= 365 && (t == 365 ==> leap) && m < 12 && MonthStart(m) <= t && (m < 11 ==> t < MonthStart(m + 1))
    ensures InMonth(m, t - MonthStart(m) + 1, leap)
  {
  }

  /** The day of a date is the day it was computed from, and the date is valid within the years allowed. */
  lemma DayRoundTrip(n: int)
    ensures var d := DateOf(n);
            && 1 <= d.1 <= 12 && PosixDays(d.0, d.1, d.2) == n - 719468
            && (0 <= d.0 <= 9999 ==> IsValidDate(d.0, d.1, d.2))
  {
    hide IsValidDate, PosixDays, DateOf, MonthStart, YearStart, Leap, InMonth;
    var e, y, t, m := DayParts(n);
    DateFrom(e, y, t, m);
    var d := DateOf(n);
    DaysFrom(d.0, d.1, d.2, e, y);
    ValidDates(d.0, d.1, d.2);
    LeapInEra(e, y + 1);
    DayFits(t, m, Leap(y + 1));
    InAnyMonth(m, d.2, Leap(y + 1), Leap(d.0));
  }

  /** Only February looks at the year. */
  lemma InAnyMonth(m: nat, day: int, leap: bool, leap': bool)
    requires m < 12 && InMonth(m, day, leap) && (m == 11 ==> leap == leap')
    ensures InMonth(m, day, leap')
  {
  }

  /** The days of the years 0 to 9999 are those from 60 days before the first March to the last December. */
  lemma YearRange(n: int)
    ensures 0 <= DateOf(n).0 <= 9999 <==> -60 <= n <= 3652364
  {
    hide DateOf, Leap;
    var e, y, t, m := DayParts(n);
    DateFrom(e, y, t, m);
    YearBelow(y, t);
    TenthMonth(t, m);
    hide YearStart, MonthStart;
  }

  lemma YearBelow(y: nat, t: nat)
    requires y < 400 && t <= 365
    ensures y < 399 ==> YearStart(y) + t < 146037
    ensures y == 399 ==> YearStart(y) == 145731
    ensures 0 <= YearStart(y) + t <= 146096 + 1
  {
  }

  lemma TenthMonth(t: nat, m: nat)
    requires t <= 365 && m < 12 && MonthStart(m) <= t && (m < 11 ==> t < MonthStart(m + 1))
    ensures m >= 10 <==> t >= 306
  {
  }

  // ----- times

  lemma SplitTime(days: int, seconds: int)
    requires 0 <= seconds < SECS_PER_DAY
    ensures var time := days * SECS_PER_DAY + seconds;
            var leftover := Mod(time, SECS_PER_DAY);
            && (if leftover < 0 then Div(time, SECS_PER_DAY) - 1 else Div(time, SECS_PER_DAY)) == days
            && (if leftover < 0 then leftover + SECS_PER_DAY else leftover) == seconds
  {
    var time := days * SECS_PER_DAY + seconds;
    if time >= 0 {
      RemainderUnique(time, days, seconds, SECS_PER_DAY);
    } else if seconds == 0 {
      RemainderUnique(-time, -days, 0, SECS_PER_DAY);
    } else {
      RemainderUnique(-time, -days - 1, SECS_PER_DAY - seconds, SECS_PER_DAY);
    }
  }

  lemma SplitSeconds(h: int, m: int, s: int)
    requires 0 <= h <= 23 && 0 <= m <= 59 && 0 <= s <= 59
    ensures var t := h * SECS_PER_HOUR + m * 60 + s;
            Div(t, SECS_PER_HOUR) == h && Div(Mod(t, SECS_PER_HOUR), 60) == m && Mod(Mod(t, SECS_PER_HOUR), 60) == s && t < SECS_PER_DAY
  {
  }

  /** Every valid time of the years 0 to 9999 has a POSIX time in the range, and is what that POSIX time converts to. */
  lemma UtcRoundTrip(t: Utc)
    requires PosixTimeFromUtc(t).Some?
    ensures MIN_POSIX_TIME <= PosixTimeFromUtc(t).value <= MAX_POSIX_TIME
    ensures UtcFromPosixTime(PosixTimeFromUtc(t).value) == Some(t)
  {
    hide PosixDays, DateOf, Div, Mod, IsValidDate;
    DateRoundTrip(t.year, t.month, t.day);
    var days := PosixDays(t.year, t.month, t.day);
    YearOfDate(t.year, t.month, t.day);
    YearRange(days + 719468);
    SplitSeconds(t.hours, t.minutes, t.seconds);
    SplitTime(days, t.hours * SECS_PER_HOUR + t.minutes * 60 + t.seconds);
  }

  lemma YearOfDate(year: int, month: int, day: int)
    requires IsValidDate(year, month, day)
    ensures 0 <= year <= 9999
  {
  }

  lemma FromParts(days: int, seconds: int)
    requires 0 <= seconds < SECS_PER_DAY && MIN_POSIX_TIME <= days * SECS_PER_DAY + seconds <= MAX_POSIX_TIME
    ensures var d := DateOf(days + 719468);
            UtcFromPosixTime(days * SECS_PER_DAY + seconds)
            == Some(Utc(d.0, d.1, d.2, Div(seconds, SECS_PER_HOUR),
                        Div(Mod(seconds, SECS_PER_HOUR), 60), Mod(Mod(seconds, SECS_PER_HOUR), 60)))
  {
    SplitTime(days, seconds);
    hide DateOf, Div, Mod;
  }

  lemma ToParts(t: Utc)
    requires IsValidDate(t.year, t.month, t.day) && IsValidTime(t.hours, t.minutes, t.seconds)
    ensures PosixTimeFromUtc(t)
            == Some(PosixDays(t.year, t.month, t.day) * SECS_PER_DAY + (t.hours * SECS_PER_HOUR + t.minutes * 60 + t.seconds))
  {
    hide PosixDays, IsValidDate;
  }

  /** Every POSIX time in the range converts to a valid time, and is what that time converts to. */
  lemma PosixRoundTrip(time: int)
    ensures UtcFromPosixTime(time).Some? <==> MIN_POSIX_TIME <= time <= MAX_POSIX_TIME
    ensures UtcFromPosixTime(time).Some? ==> PosixTimeFromUtc(UtcFromPosixTime(time).value) == Some(time)
  {
    if MIN_POSIX_TIME <= time <= MAX_POSIX_TIME {
      InRange(time);
    }
  }

  lemma InRange(time: int)
    requires MIN_POSIX_TIME <= time <= MAX_POSIX_TIME
    ensures UtcFromPosixTime(time).Some? && PosixTimeFromUtc(UtcFromPosixTime(time).value) == Some(time)
  {
    hide UtcFromPosixTime, PosixTimeFromUtc, PosixDays, DateOf, Div, Mod, IsValidDate, IsValidTime;
    var days, seconds := DaySplit(time);
    FromParts(days, seconds);
    DayRoundTrip(days + 719468);
    YearRange(days + 719468);
    JoinSeconds(seconds);
    ToParts(UtcFromPosixTime(time).value);
  }

  lemma DaySplit(time: int) returns (days: int, seconds: int)
    requires MIN_POSIX_TIME <= time <= MAX_POSIX_TIME
    ensures time == days * SECS_PER_DAY + seconds && 0 <= seconds < SECS_PER_DAY && -60 <= days + 719468 <= 3652364
  {
    days, seconds := time / SECS_PER_DAY, time % SECS_PER_DAY;
  }

  lemma JoinSeconds(t: int)
    requires 0 <= t < SECS_PER_DAY
    ensures var h, m, s := Div(t, SECS_PER_HOUR), Div(Mod(t, SECS_PER_HOUR), 60), Mod(Mod(t, SECS_PER_HOUR), 60);
            IsValidTime(h, m, s) && t == h * SECS_PER_HOUR + m * 60 + s
  {
  }

  // ----- the order of times

  predicate EarlierDate(y: int, m: int, d: int, y': int, m': int, d': int) {
    y < y' || (y == y' && (m < m' || (m == m' && d < d')))
  }

  lemma NextYear(y: nat)
    requires y < 399
    ensures YearStart(y + 1) == YearStart(y) + if Leap(y + 1) then 366 else 365
  {
    var z := y + 1;
    assert z / 4 - y / 4 == if z % 4 == 0 then 1 else 0;
    assert z / 100 - y / 100 == if z % 100 == 0 then 1 else 0;
    assert z % 100 == 0 ==> z % 4 == 0;
    assert z % 400 != 0;
  }

  lemma {:induction false} YearsGrow(y: nat, z: nat)
    requires y <= z < 400
    ensures YearStart(y) <= YearStart(z)
    decreases z - y
  {
    hide YearStart;
    if y < z {
      NextYear(y);
      YearsGrow(y + 1, z);
    }
  }

  lemma MonthsGrow(m: nat, d: int, m': nat, d': int, leap: bool)
    requires m < 12 && m' < 12 && InMonth(m, d, leap) && InMonth(m', d', leap) && (m < m' || (m == m' && d < d'))
    ensures MonthStart(m) + d < MonthStart(m') + d'
  {
  }

  /** Earlier days of a later era, year or month have larger numbers. */
  lemma PartsGrow(e: int, y: nat, t: nat, e': int, y': nat, t': nat)
    requires y < 400 && y' < 400 && t <= 365 && t' <= 365 && (t == 365 ==> Leap(y + 1)) && (t' == 365 ==> Leap(y' + 1))
    requires e < e' || (e == e' && (y < y' || (y == y' && t < t')))
    ensures 146097 * e + YearStart(y) + t < 146097 * e' + YearStart(y') + t'
  {
    YearOfDay(y, t);
    YearOfDay(y', t');
    hide YearOf, YearStart, Leap;
    if e == e' && y < y' {
      NextYear(y);
      YearsGrow(y + 1, y');
    }
  }

  /** Earlier dates have smaller days. */
  lemma DaysGrow(y: int, m: int, d: int, y': int, m': int, d': int)
    requires IsValidDate(y, m, d) && IsValidDate(y', m', d') && EarlierDate(y, m, d, y', m', d')
    ensures PosixDays(y, m, d) < PosixDays(y', m', d')
  {
    hide IsValidDate, PosixDays, MonthStart, YearStart, Leap, InMonth, MarchYear, FromMarch, EarlierDate;
    var e, a, t := DateParts(y, m, d);
    var e', a', t' := DateParts(y', m', d');
    EarlierMarch(y, m, d, y', m', d');
    SameEra(e, a, e', a');
    PartsGrow(e, a, t, e', a', t');
  }

  /** Era, year and day in the year of a date. */
  lemma DateParts(year: int, month: int, day: int) returns (e: int, y: nat, t: nat)
    requires IsValidDate(year, month, day)
    ensures 1 <= month <= 12 && 0 <= FromMarch(month) < 12
    ensures y < 400 && MarchYear(year, month) == 400 * e + y && t == MonthStart(FromMarch(month)) + day - 1
    ensures t <= 365 && (t == 365 ==> Leap(y + 1)) && PosixDays(year, month, day) == 146097 * e + YearStart(y) + t - 719468
  {
    hide IsValidDate, PosixDays, MonthStart, YearStart, Leap, InMonth, MarchYear, FromMarch;
    ValidDates(year, month, day);
    e, y := EraOf(MarchYear(year, month));
    MarchBack(year, month, e, y);
    DayInYear(FromMarch(month), day, Leap(year));
    t := MonthStart(FromMarch(month)) + day - 1;
    DaysFrom(year, month, day, e, y);
    LeapInEra(e, y + 1);
  }

  lemma EarlierMarch(y: int, m: int, d: int, y': int, m': int, d': int)
    requires IsValidDate(y, m, d) && IsValidDate(y', m', d') && EarlierDate(y, m, d, y', m', d')
    ensures 1 <= m <= 12 && 1 <= m' <= 12 && MarchYear(y, m) <= MarchYear(y', m')
    ensures MarchYear(y, m) == MarchYear(y', m') ==> MonthStart(FromMarch(m)) + d < MonthStart(FromMarch(m')) + d'
  {
    hide IsValidDate, Leap, InMonth, MonthStart;
    ValidDates(y, m, d);
    ValidDates(y', m', d');
    if MarchYear(y, m) == MarchYear(y', m') { SameMarchYear(y, m, d, y', m', d'); }
  }

  lemma SameEra(e: int, a: nat, e': int, a': nat)
    requires a < 400 && a' < 400 && 400 * e + a <= 400 * e' + a'
    ensures e < e' || (e == e' && a <= a')
    ensures 400 * e + a == 400 * e' + a' ==> e == e' && a == a'
  {
  }

  lemma SameMarchYear(y: int, m: int, d: int, y': int, m': int, d': int)
    requires MarchYear(y, m) == MarchYear(y', m') && EarlierDate(y, m, d, y', m', d') && 1 <= m <= 12 && 1 <= m' <= 12
    requires InMonth(FromMarch(m), d, Leap(y)) && InMonth(FromMarch(m'), d', Leap(y'))
    ensures MonthStart(FromMarch(m)) + d < MonthStart(FromMarch(m')) + d'
  {
    hide Leap, MonthStart;
    var leap := Leap(MarchYear(y, m) + 1);
    InAnyMonth(FromMarch(m), d, Leap(y), leap);
    InAnyMonth(FromMarch(m'), d', Leap(y'), leap);
    MonthsGrow(FromMarch(m), d, FromMarch(m'), d', leap);
  }

  predicate Earlier(t: Utc, u: Utc) {
    EarlierDate(t.year, t.month, t.day, u.year, u.month, u.day) ||
    (t.year == u.year && t.month == u.month && t.day == u.day && EarlierDate(t.hours, t.minutes, t.seconds, u.hours, u.minutes, u.seconds))
  }

  /** POSIX times are ordered as the times they stand for. */
  lemma PosixOrder(t: Utc, u: Utc)
    requires PosixTimeFromUtc(t).Some? && PosixTimeFromUtc(u).Some?
    ensures Earlier(t, u) <==> PosixTimeFromUtc(t).value < PosixTimeFromUtc(u).value
  {
    PosixGrows(t, u);
    PosixGrows(u, t);
    hide PosixTimeFromUtc;
  }

  lemma PosixGrows(t: Utc, u: Utc)
    requires PosixTimeFromUtc(t).Some? && PosixTimeFromUtc(u).Some?
    ensures Earlier(t, u) ==> PosixTimeFromUtc(t).value < PosixTimeFromUtc(u).value
    ensures !Earlier(t, u) && !Earlier(u, t) ==> t == u
  {
    hide PosixDays, IsValidDate;
    if EarlierDate(t.year, t.month, t.day, u.year, u.month, u.day) {
      DaysGrow(t.year, t.month, t.day, u.year, u.month, u.day);
    }
  }

  // ----- the times of certificates

  /** Up to the year 9999, a time converts exactly when it is valid: the calendar of the two files is the same. */
  lemma ValidConverts(t: GeneralizedTime)
    ensures GeneralizedTimeToPosixTime(t).Some? <==> Times.Valid(t) && t.year <= 9999
  {
    DivIsFloor(t.year, 4);
    DivIsFloor(t.year, 100);
    DivIsFloor(t.year, 400);
    hide Div, PosixDays;
  }

  /** EncodePosixTimeAsGeneralizedTime. */
  function PosixTimeAsGeneralizedTime(time: int): Option<GeneralizedTime> {
    var t := UtcFromPosixTime(time);
    if t.None? then None
    else
      PosixFields(time);
      Some(GeneralizedTime(t.value.year, t.value.month, t.value.day, t.value.hours, t.value.minutes, t.value.seconds))
  }

  lemma PosixFields(time: int)
    requires UtcFromPosixTime(time).Some?
    ensures var t := UtcFromPosixTime(time).value;
            0 <= t.year <= 9999 && 1 <= t.month <= 12 && 1 <= t.day <= 31 && IsValidTime(t.hours, t.minutes, t.seconds)
  {
    PosixRoundTrip(time);
    hide UtcFromPosixTime, PosixDays;
  }

  /** A valid time below year 10000 comes back from its POSIX time, a leap second as the second before it. */
  lemma GeneralizedRoundTrip(t: GeneralizedTime)
    requires Times.Valid(t) && t.year <= 9999
    ensures GeneralizedTimeToPosixTime(t).Some?
    ensures PosixTimeAsGeneralizedTime(GeneralizedTimeToPosixTime(t).value) == Some(t.(seconds := if t.seconds == 60 then 59 else t.seconds))
  {
    hide Times.Valid, UtcFromPosixTime, PosixTimeFromUtc;
    ValidConverts(t);
    UtcRoundTrip(Utc(t.year, t.month, t.day, t.hours, t.minutes, if t.seconds == 60 then 59 else t.seconds));
  }

  /** Every POSIX time from the year 0 to 9999 is the POSIX time of a valid time, the one it converts to. */
  lemma EverySecondIsATime(time: int)
    ensures PosixTimeAsGeneralizedTime(time).Some? <==> MIN_POSIX_TIME <= time <= MAX_POSIX_TIME
    ensures PosixTimeAsGeneralizedTime(time).Some? ==>
              var t := PosixTimeAsGeneralizedTime(time).value;
              Times.Valid(t) && t.seconds < 60 && t.year <= 9999 && GeneralizedTimeToPosixTime(t) == Some(time)
  {
    PosixRoundTrip(time);
    if PosixTimeAsGeneralizedTime(time).Some? {
      PosixFields(time);
      ValidConverts(PosixTimeAsGeneralizedTime(time).value);
    }
    hide UtcFromPosixTime, PosixTimeFromUtc, Times.Valid;
  }

  /** The order of the times of certificates is the order of their POSIX times, leap seconds aside. */
  lemma GeneralizedOrder(t: GeneralizedTime, u: GeneralizedTime)
    requires Times.Valid(t) && Times.Valid(u) && t.year <= 9999 && u.year <= 9999 && t.seconds < 60 && u.seconds < 60
    ensures GeneralizedTimeToPosixTime(t).Some? && GeneralizedTimeToPosixTime(u).Some?
    ensures Before(t, u) <==> GeneralizedTimeToPosixTime(t).value < GeneralizedTimeToPosixTime(u).value
  {
    ValidConverts(t);
    ValidConverts(u);
    hide PosixTimeFromUtc, Times.Valid;
    PosixOrder(Utc(t.year, t.month, t.day, t.hours, t.minutes, t.seconds), Utc(u.year, u.month, u.day, u.hours, u.minutes, u.seconds));
  }
}
