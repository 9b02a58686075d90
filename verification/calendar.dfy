/**
 * Proleptic Gregorian calendar on day numbers: day 0 is 1970-01-01, a Thursday.
 * Months are addressed by a month index `12 * year + month0` with `month0` in 0..11,
 * which is how JavaScript's `new Date(year, month0, day)` normalises an out-of-range
 * month or day.
 */
module Calendar {

  /** Python's `strftime("%A")` names, in `datetime.weekday()` order (Monday first). */
  datatype Weekday = Monday | Tuesday | Wednesday | Thursday | Friday | Saturday | Sunday

  function WeekdayIndex(w: Weekday): (r: nat)
    ensures r < 7
  {
    match w
    case Monday => 0
    case Tuesday => 1
    case Wednesday => 2
    case Thursday => 3
    case Friday => 4
    case Saturday => 5
    case Sunday => 6
  }

  function WeekdayFromIndex(i: nat): (w: Weekday)
    requires i < 7
    ensures WeekdayIndex(w) == i
  {
    if i == 0 then Monday else if i == 1 then Tuesday else if i == 2 then Wednesday
    else if i == 3 then Thursday else if i == 4 then Friday else if i == 5 then Saturday
    else Sunday
  }

  predicate IsWeekend(w: Weekday) { w == Saturday || w == Sunday }

  /** The weekday of a day number (Python `date.strftime("%A")`). */
  function WeekdayOf(day: int): (w: Weekday)
    ensures WeekdayIndex(w) == (day + 3) % 7
  {
    WeekdayFromIndex((day + 3) % 7)
  }

  /** JavaScript `Date.getDay()`: 0 for Sunday through 6 for Saturday. */
  function JsDay(day: int): (r: nat)
    ensures r < 7
    ensures r == (WeekdayIndex(WeekdayOf(day)) + 1) % 7
  {
    (day + 4) % 7
  }

  /** Seven consecutive days have seven different weekdays. */
  lemma WeekdaysDistinct(start: int, i: int, j: int)
    requires 0 <= i < j < 7
    ensures WeekdayOf(start + i) != WeekdayOf(start + j)
  {
    assert WeekdayIndex(WeekdayOf(start + i)) != WeekdayIndex(WeekdayOf(start + j));
  }

  /** The offset, within the seven days from `start`, of the day named `w`. */
  function WeekdayOffset(start: int, w: Weekday): (k: nat)
    ensures k < 7 && WeekdayOf(start + k) == w
  {
    var k := (WeekdayIndex(w) - (start + 3) % 7 + 7) % 7;
    assert WeekdayIndex(WeekdayOf(start + k)) == WeekdayIndex(w);
    k
  }

  predicate IsLeap(year: int) {
    year % 4 == 0 && (year % 100 != 0 || year % 400 == 0)
  }

  /** Number of days of a month, `month` in 1..12. */
  function DaysInMonth(year: int, month: int): (r: nat)
    requires 1 <= month <= 12
    ensures 28 <= r <= 31
  {
    if month == 2 then (if IsLeap(year) then 29 else 28)
    else if month == 4 || month == 6 || month == 9 || month == 11 then 30
    else 31
  }

  /** Days of the months of `year` before `month`. */
  function DaysBeforeMonth(year: int, month: int): nat
    requires 1 <= month <= 12
  {
    if month == 1 then 0 else DaysBeforeMonth(year, month - 1) + DaysInMonth(year, month - 1)
  }

  /** Leap years among 1..y (for y >= 0) extended to all integers. */
  function LeapsUpTo(y: int): int {
    y / 4 - y / 100 + y / 400
  }

  function YearLength(year: int): nat {
    if IsLeap(year) then 366 else 365
  }

  /** Day number of January 1st of `year`. */
  function YearStart(year: int): int {
    365 * (year - 1970) + LeapsUpTo(year - 1) - LeapsUpTo(1969)
  }

  lemma Div4Step(y: int)
    ensures y / 4 - (y - 1) / 4 == if y % 4 == 0 then 1 else 0
  {
  }

  lemma Div100Step(y: int)
    ensures y / 100 - (y - 1) / 100 == if y % 100 == 0 then 1 else 0
  {
  }

  lemma Div400Step(y: int)
    ensures y / 400 - (y - 1) / 400 == if y % 400 == 0 then 1 else 0
  {
  }

  lemma LeapDivisors(y: int)
    ensures y % 400 == 0 ==> y % 100 == 0
    ensures y % 100 == 0 ==> y % 4 == 0
  {
  }

  lemma YearStartNext(year: int)
    ensures YearStart(year + 1) == YearStart(year) + YearLength(year)
  {
    Div4Step(year);
    Div100Step(year);
    Div400Step(year);
    LeapDivisors(year);
  }

  lemma DaysInYear(year: int)
    ensures DaysBeforeMonth(year, 12) + DaysInMonth(year, 12) == YearLength(year)
  {
    var feb := DaysInMonth(year, 2);
    assert DaysBeforeMonth(year, 2) == 31;
    assert DaysBeforeMonth(year, 3) == 31 + feb;
    assert DaysBeforeMonth(year, 4) == 62 + feb;
    assert DaysBeforeMonth(year, 5) == 92 + feb;
    assert DaysBeforeMonth(year, 6) == 123 + feb;
    assert DaysBeforeMonth(year, 7) == 153 + feb;
    assert DaysBeforeMonth(year, 8) == 184 + feb;
    assert DaysBeforeMonth(year, 9) == 215 + feb;
    assert DaysBeforeMonth(year, 10) == 245 + feb;
    assert DaysBeforeMonth(year, 11) == 276 + feb;
    assert DaysBeforeMonth(year, 12) == 306 + feb;
  }

  /** Day number of a valid civil date. */
  function DayNumber(year: int, month: int, dayOfMonth: int): int
    requires 1 <= month <= 12
  {
    YearStart(year) + DaysBeforeMonth(year, month) + dayOfMonth - 1
  }

  function YearOfMonthIndex(k: int): int { k / 12 }
  function MonthOfMonthIndex(k: int): (m: int)
    ensures 1 <= m <= 12
  {
    k % 12 + 1
  }

  function MonthLength(k: int): (r: nat)
    ensures 28 <= r <= 31
  {
    DaysInMonth(YearOfMonthIndex(k), MonthOfMonthIndex(k))
  }

  /** Day number of the first day of the month with index `k`. */
  function FirstOfMonth(k: int): int {
    DayNumber(YearOfMonthIndex(k), MonthOfMonthIndex(k), 1)
  }

  /** JavaScript `new Date(year, month0, dayOfMonth)` with out-of-range parts carried over. */
  function JsDate(year: int, month0: int, dayOfMonth: int): int {
    FirstOfMonth(12 * year + month0) + dayOfMonth - 1
  }

  /** Consecutive months are laid end to end: the calendar has no gaps or overlaps. */
  lemma {:induction false} FirstOfNextMonth(k: int)
    ensures FirstOfMonth(k + 1) == FirstOfMonth(k) + MonthLength(k)
  {
    var y := YearOfMonthIndex(k);
    if k % 12 == 11 {
      assert YearOfMonthIndex(k + 1) == y + 1;
      assert MonthOfMonthIndex(k + 1) == 1;
      YearStartNext(y);
      DaysInYear(y);
    } else {
      assert YearOfMonthIndex(k + 1) == y;
      assert MonthOfMonthIndex(k + 1) == MonthOfMonthIndex(k) + 1;
    }
  }

  /** A valid civil date inside the month it names. */
  lemma DayWithinMonth(year: int, month: int, dayOfMonth: int)
    requires 1 <= month <= 12 && 1 <= dayOfMonth <= DaysInMonth(year, month)
    ensures var k := 12 * year + month - 1;
      FirstOfMonth(k) <= DayNumber(year, month, dayOfMonth) < FirstOfMonth(k + 1)
  {
    var k := 12 * year + month - 1;
    assert YearOfMonthIndex(k) == year;
    assert MonthOfMonthIndex(k) == month;
    FirstOfNextMonth(k);
  }

  lemma EpochIsThursday()
    ensures DayNumber(1970, 1, 1) == 0 && WeekdayOf(0) == Thursday
  {
  }
}
