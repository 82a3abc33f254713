/**
The proleptic Gregorian calendar in the years chrono can hold, and local times at an offset from UTC.
*/
module Calendar {
  import opened Wrappers

  datatype Date = Date(year: int, month: int, day: int)

  /** `nano` is 1_000_000_000 or more within a leap second. */
  datatype Time = Time(hour: int, minute: int, second: int, nano: int)

  datatype DateTime = DateTime(date: Date, time: Time)

  const SECOND := 1_000_000_000

  predicate IsLeapYear(y: int) {
    y % 4 == 0 && (y % 100 != 0 || y % 400 == 0)
  }

  function DaysIn(y: int, m: int): int {
    if m == 2 then (if IsLeapYear(y) then 29 else 28)
    else if m in {4, 6, 9, 11} then 30
    else 31
  }

  predicate IsDate(d: Date) {
    -262143 <= d.year <= 262142 && 1 <= d.month <= 12 && 1 <= d.day <= DaysIn(d.year, d.month)
  }

  predicate IsTime(t: Time) {
    && 0 <= t.hour < 24 && 0 <= t.minute < 60 && 0 <= t.second < 60
    && 0 <= t.nano < (if t.second == 59 then 2 * SECOND else SECOND)
  }

  predicate IsDateTime(x: DateTime) {
    IsDate(x.date) && IsTime(x.time)
  }

  /******* Days *******/

  function NextDay(d: Date): Date {
    if d.day < DaysIn(d.year, d.month) then d.(day := d.day + 1)
    else if d.month < 12 then Date(d.year, d.month + 1, 1)
    else Date(d.year + 1, 1, 1)
  }

  function PreviousDay(d: Date): Date {
    if d.day > 1 then d.(day := d.day - 1)
    else if d.month > 1 then Date(d.year, d.month - 1, DaysIn(d.year, d.month - 1))
    else Date(d.year - 1, 12, 31)
  }

  /** The days before the first of a month in a year that is not a leap year. */
  function DaysBefore(m: int): int {
    if m <= 1 then 0 else if m == 2 then 31 else if m == 3 then 59 else if m == 4 then 90
    else if m == 5 then 120 else if m == 6 then 151 else if m == 7 then 181 else if m == 8 then 212
    else if m == 9 then 243 else if m == 10 then 273 else if m == 11 then 304 else 334
  }

  /** The days before a year: 365 for each, and a leap day every 4, but not every 100, but every 400 years. */
  function YearDays(year: int): int {
    var y := year - 1;
    365 * y + y / 4 - y / 100 + y / 400
  }

  function DayNumber(d: Date): int {
    YearDays(d.year) + DaysBefore(d.month) + (if d.month > 2 && IsLeapYear(d.year) then 1 else 0) + d.day
  }

  predicate IsDay(d: Date) {
    1 <= d.month <= 12 && 1 <= d.day <= DaysIn(d.year, d.month)
  }

  /** Every year has 365 days, and a leap year one more. */
  lemma LeapDays(y: int)
    ensures YearDays(y + 1) == YearDays(y) + 365 + if IsLeapYear(y) then 1 else 0
  {
    StepsAt(y, 4); StepsAt(y, 100); StepsAt(y, 400);
    Multiples(y);
  }

  lemma StepsAt(y: int, n: int)
    requires n > 1
    ensures y / n == (y - 1) / n + if y % n == 0 then 1 else 0
  {
    var q, r := y / n, y % n;
    assert y == q * n + r;
    if r == 0 {
      QuotientIs(y - 1, n, q - 1, n - 1);
    } else {
      QuotientIs(y - 1, n, q, r - 1);
    }
  }

  lemma QuotientIs(y: int, n: int, q: int, r: int)
    requires 0 <= r < n && y == q * n + r
    ensures y / n == q
  {
    var p := y / n - q;
    assert p * n == r - y % n;
    assert p >= 1 ==> p * n >= n;
    assert p <= -1 ==> p * n <= -n;
  }

  lemma Multiples(y: int)
    ensures y % 400 == 0 ==> y % 100 == 0
    ensures y % 100 == 0 ==> y % 4 == 0
  {
  }

  /** For every day: the next one has the next number, and the one before is the one before. */
  lemma NextDayCounts(d: Date)
    requires IsDay(d)
    ensures IsDay(NextDay(d)) && DayNumber(NextDay(d)) == DayNumber(d) + 1 && PreviousDay(NextDay(d)) == d
  {
    LeapDays(d.year);
    hide YearDays, IsLeapYear;
  }

  lemma PreviousDayCounts(d: Date)
    requires IsDay(d)
    ensures IsDay(PreviousDay(d)) && DayNumber(PreviousDay(d)) == DayNumber(d) - 1 && NextDay(PreviousDay(d)) == d
  {
    LeapDays(d.year - 1);
    hide YearDays, IsLeapYear;
  }

  /******* Offsets *******/

  function DaySecond(t: Time): int {
    t.hour * 3600 + t.minute * 60 + t.second
  }

  /** The seconds since the first day of year 1, leap seconds left out. */
  function Seconds(x: DateTime): int {
    DayNumber(x.date) * 86400 + DaySecond(x.time)
  }

  /** `local`, read at an offset of whole minutes under a day, in UTC; `None` past the ends of the calendar. */
  function ToUtc(x: DateTime, offset: int): Option<DateTime> {
    var s := DaySecond(x.time) - offset;
    var date := if s < 0 then PreviousDay(x.date) else if s >= 86400 then NextDay(x.date) else x.date;
    var left := s % 86400;
    var time := Time(left / 3600, left / 60 % 60, left % 60, x.time.nano);
    if IsDate(date) then Some(DateTime(date, time)) else None
  }

  lemma ClockParts(left: int)
    requires 0 <= left < 86400
    ensures 0 <= left / 3600 < 24 && left / 3600 * 3600 + left / 60 % 60 * 60 + left % 60 == left
  {
    assert left / 60 / 60 == left / 3600;
  }

  lemma SameSecond(t: Time, offset: int)
    requires offset % 60 == 0 && 0 <= t.second < 60
    ensures (DaySecond(t) - offset) % 86400 % 60 == t.second
  {
    var s, k := DaySecond(t) - offset, offset / 60;
    var n := s / 86400;
    assert s == (t.hour * 60 + t.minute - k) * 60 + t.second;
    assert s % 86400 == (t.hour * 60 + t.minute - k - n * 1440) * 60 + t.second;
  }

  /** For every local time and offset of whole minutes under a day: in UTC it is that much earlier. */
  lemma ToUtcSubtracts(x: DateTime, offset: int)
    requires IsDateTime(x) && -86400 < offset < 86400 && offset % 60 == 0
    ensures ToUtc(x, offset).Some? ==>
      var u := ToUtc(x, offset).value;
      IsDateTime(u) && Seconds(u) == Seconds(x) - offset && u.time.nano == x.time.nano
    ensures -262143 < x.date.year < 262142 ==> ToUtc(x, offset).Some?
  {
    hide DayNumber, NextDay, PreviousDay, DaysIn;
    var s := DaySecond(x.time) - offset;
    NextDayCounts(x.date);
    PreviousDayCounts(x.date);
    NeighbourYears(x.date);
    ClockParts(s % 86400);
    SameSecond(x.time, offset);
    DayParts(x.time);
    if ToUtc(x, offset).Some? {
      var u := ToUtc(x, offset).value;
      ClockReadsBack(u.time, s % 86400);
    }
  }

  lemma DayParts(t: Time)
    requires IsTime(t)
    ensures 0 <= DaySecond(t) < 86400
  {
  }

  lemma ClockReadsBack(t: Time, left: int)
    requires 0 <= left < 86400 && t.hour == left / 3600 && t.minute == left / 60 % 60 && t.second == left % 60
    ensures DaySecond(t) == left && 0 <= t.hour < 24 && 0 <= t.minute < 60 && 0 <= t.second < 60
  {
    ClockParts(left);
  }

  lemma NeighbourYears(d: Date)
    ensures d.year <= NextDay(d).year <= d.year + 1 && d.year - 1 <= PreviousDay(d).year <= d.year
  {
  }

  lemma ZeroOffset(x: DateTime)
    requires IsDateTime(x)
    ensures ToUtc(x, 0) == Some(x)
  {
    hide IsDate;
    HandsAre(x.time.hour, x.time.minute, x.time.second);
  }

  lemma HandsAre(h: int, m: int, s: int)
    requires 0 <= h < 24 && 0 <= m < 60 && 0 <= s < 60
    ensures var n := h * 3600 + m * 60 + s;
            0 <= n < 86400 && n % 86400 == n && n / 3600 == h && n / 60 % 60 == m && n % 60 == s
  {
    var n := h * 3600 + m * 60 + s;
    QuotientIs(n, 3600, h, m * 60 + s);
    QuotientIs(n, 60, h * 60 + m, s);
    RemainderIs(n, 60, h * 60 + m, s);
    RemainderIs(h * 60 + m, 60, h, m);
  }

  lemma RemainderIs(y: int, n: int, q: int, r: int)
    requires 0 <= r < n && y == q * n + r
    ensures y % n == r
  {
    QuotientIs(y, n, q, r);
  }

  /** The calendar ends with whole years. */
  lemma CalendarEnds()
    ensures IsDate(Date(-262143, 1, 1)) && !IsDate(PreviousDay(Date(-262143, 1, 1)))
    ensures IsDate(Date(262142, 12, 31)) && !IsDate(NextDay(Date(262142, 12, 31)))
  {
  }
}
