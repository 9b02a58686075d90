/**
 * The month calendar beside the schedule: a displayed month moved by the arrows, a
 * Sunday-first grid of week rows covering the whole month, and cells that mark the selected
 * day and today. Days are day numbers; the displayed month is a month index
 * `12 * year + month0`.
 */
module CalendarPanel {
  import opened Calendar
  import opened Numeric

  /** `startOfWeek(d)`: the Sunday on or before `d`. */
  function StartOfWeek(d: int): (r: int)
    ensures JsDay(r) == 0 && d - 7 < r <= d
  {
    d - JsDay(d)
  }

  /** `endOfWeek(d)`: the Saturday on or after `d`. */
  function EndOfWeek(d: int): (r: int)
    ensures JsDay(r) == 6 && d <= r < d + 7
  {
    d + 6 - JsDay(d)
  }

  /** The `<` arrow: `new Date(year, month - 1)`. */
  function PrevMonth(k: int): (r: int)
    ensures r == k - 1
    ensures MonthOfMonthIndex(k) == 1 ==> YearOfMonthIndex(r) == YearOfMonthIndex(k) - 1 && MonthOfMonthIndex(r) == 12
    ensures MonthOfMonthIndex(k) > 1 ==> YearOfMonthIndex(r) == YearOfMonthIndex(k) && MonthOfMonthIndex(r) == MonthOfMonthIndex(k) - 1
  {
    12 * YearOfMonthIndex(k) + (MonthOfMonthIndex(k) - 1) - 1
  }

  /** The `>` arrow: `new Date(year, month + 1)`. */
  function NextMonth(k: int): (r: int)
    ensures r == k + 1
    ensures MonthOfMonthIndex(k) == 12 ==> YearOfMonthIndex(r) == YearOfMonthIndex(k) + 1 && MonthOfMonthIndex(r) == 1
    ensures MonthOfMonthIndex(k) < 12 ==> YearOfMonthIndex(r) == YearOfMonthIndex(k) && MonthOfMonthIndex(r) == MonthOfMonthIndex(k) + 1
  {
    12 * YearOfMonthIndex(k) + (MonthOfMonthIndex(k) - 1) + 1
  }

  /** The two arrows undo each other. */
  lemma PrevNext(k: int)
    ensures NextMonth(PrevMonth(k)) == k && PrevMonth(NextMonth(k)) == k
  {
  }

  /**
   * The week row starting at `start`: seven consecutive days, each weekday once; a row that
   * starts on a Sunday puts every day under its own header, Sunday to Saturday.
   */
  function Week(start: int): (r: seq<int>)
    ensures |r| == 7 && forall i :: 0 <= i < 7 ==> r[i] == start + i
    ensures forall i, j :: 0 <= i < j < 7 ==> WeekdayOf(r[i]) != WeekdayOf(r[j])
    ensures JsDay(start) == 0 ==> forall i :: 0 <= i < 7 ==> JsDay(r[i]) == i
  {
    var r := seq(7, i => start + i);
    forall i, j | 0 <= i < j < 7 ensures WeekdayOf(r[i]) != WeekdayOf(r[j]) {
      WeekdaysDistinct(start, i, j);
    }
    assert JsDay(start) == 0 ==> forall i :: 0 <= i < 7 ==> JsDay(r[i]) == i by {
      if JsDay(start) == 0 {
        forall i | 0 <= i < 7 ensures JsDay(r[i]) == i {
          ShiftSeven(start + 4, i);
        }
      }
    }
    r
  }

  /** A multiple of seven shifted by `i` below seven leaves remainder `i`. */
  lemma ShiftSeven(a: int, i: int)
    requires a % 7 == 0 && 0 <= i < 7
    ensures (a + i) % 7 == i
  {
    assert a == 7 * (a / 7);
  }

  /** The first displayed day: the Sunday on or before the 1st. */
  function GridStart(k: int): int {
    StartOfWeek(FirstOfMonth(k))
  }

  /** The last displayed day: the Saturday on or after the month's last day. */
  function GridEnd(k: int): int {
    EndOfWeek(FirstOfMonth(k + 1) - 1)
  }

  /** A span of 28 to 31 days, padded out to whole Sunday-to-Saturday weeks, is four to six weeks. */
  lemma WholeWeeksSpan(a: int, n: int, last: int, s: int, e: int)
    requires 28 <= n <= 31 && last == a + n - 1
    requires s == StartOfWeek(a) && e == EndOfWeek(last)
    ensures s < e && (e - s + 1) % 7 == 0 && e - s + 1 <= 42
  {
    var q, q' := (a + 4) / 7, (a + n + 3) / 7;
    assert s == 7 * q - 4;
    assert e == 7 * q' + 2;
    DivModUnique(e - s + 1, 7, 1 + q' - q, 0);
  }

  lemma WholeWeeks(k: int)
    ensures GridStart(k) < GridEnd(k)
    ensures (GridEnd(k) - GridStart(k) + 1) % 7 == 0
    ensures GridEnd(k) - GridStart(k) + 1 <= 42
  {
    FirstOfNextMonth(k);
    WholeWeeksSpan(FirstOfMonth(k), MonthLength(k), FirstOfMonth(k + 1) - 1, GridStart(k), GridEnd(k));
  }

  /** Rows of seven consecutive days from `start` while the row's first day is not past `end`. */
  method WeekRows(start: int, end: int) returns (rows: seq<seq<int>>)
    requires start < end && (end + 1 - start) % 7 == 0
    ensures |rows| == (end + 1 - start) / 7
    ensures forall r :: 0 <= r < |rows| ==> rows[r] == Week(start + 7 * r)
  {
    var total := (end + 1 - start) / 7;
    rows := [];
    var day := start;
    while day <= end
      invariant day == start + 7 * |rows|
      invariant |rows| <= total
      invariant forall r :: 0 <= r < |rows| ==> rows[r] == Week(start + 7 * r)
      decreases end - day
    {
      rows := rows + [Week(day)];
      day := day + 7;
    }
  }

  /**
   * `renderCells`: the week rows from `startOfWeek(monthStart)` to `endOfWeek(monthEnd)`,
   * four to six of them.
   */
  method RenderCells(k: int) returns (rows: seq<seq<int>>)
    ensures 0 < |rows| <= 6
    ensures forall r :: 0 <= r < |rows| ==> |rows[r]| == 7
    ensures forall r :: 0 <= r < |rows| ==> rows[r] == Week(GridStart(k) + 7 * r)
    ensures rows[0][0] == StartOfWeek(FirstOfMonth(k))
    ensures rows[|rows| - 1][6] == EndOfWeek(FirstOfMonth(k + 1) - 1)
  {
    var start, end := GridStart(k), GridEnd(k);
    WholeWeeks(k);
    rows := WeekRows(start, end);
    LastRowStart(start, end, |rows|);
    RowEnds(rows, start, end);
  }

  /** Rows of whole weeks from `start` whose last row starts six days before `end` run from `start` to `end`. */
  lemma RowEnds(rows: seq<seq<int>>, start: int, end: int)
    requires |rows| >= 1 && start + 7 * (|rows| - 1) == end - 6
    requires forall r :: 0 <= r < |rows| ==> rows[r] == Week(start + 7 * r)
    ensures |rows[0]| == 7 && rows[0][0] == start
    ensures |rows[|rows| - 1]| == 7 && rows[|rows| - 1][6] == end
  {
    assert rows[0] == Week(start);
    assert rows[|rows| - 1] == Week(end - 6);
  }

  /** Whole weeks from `start` to `end`: the last of them starts six days before `end`. */
  lemma LastRowStart(start: int, end: int, n: int)
    requires start < end && end + 1 - start <= 42
    requires (end + 1 - start) % 7 == 0 && n == (end + 1 - start) / 7
    ensures 1 <= n <= 6 && start + 7 * (n - 1) == end - 6
  {
  }

  /** Every day of the displayed month appears in exactly one cell. */
  lemma MonthCovered(k: int, rows: seq<seq<int>>, d: int)
    requires 0 < |rows|
    requires forall r :: 0 <= r < |rows| ==> |rows[r]| == 7
    requires forall r :: 0 <= r < |rows| ==> rows[r] == Week(GridStart(k) + 7 * r)
    requires rows[|rows| - 1][6] == GridEnd(k)
    requires FirstOfMonth(k) <= d < FirstOfMonth(k + 1)
    ensures exists r, i :: 0 <= r < |rows| && 0 <= i < 7 && rows[r][i] == d
    ensures forall r, i, r', i' ::
      (0 <= r < |rows| && 0 <= i < 7 && 0 <= r' < |rows| && 0 <= i' < 7 && rows[r][i] == d && rows[r'][i'] == d) ==>
      (r == r' && i == i')
  {
    var off := d - GridStart(k);
    var r, i := off / 7, off % 7;
    assert rows[|rows| - 1] == Week(GridStart(k) + 7 * (|rows| - 1));
    assert rows[r][i] == d;
  }

  /** How a cell is drawn. */
  datatype Style = Style(inMonth: bool, selected: bool, todayRing: bool)

  /** A cell is highlighted iff it is the selected day; the today ring only when it is not. */
  function CellStyle(day: int, k: int, today: int, selected: int): (r: Style)
    ensures r.selected <==> day == selected
    ensures r.todayRing <==> day == today && day != selected
    ensures r.inMonth <==> FirstOfMonth(k) <= day < FirstOfMonth(k + 1)
  {
    var isSelected := day == selected;
    Style(FirstOfMonth(k) <= day < FirstOfMonth(k + 1), isSelected, day == today && !isSelected)
  }

  /** The panel's state: the displayed month and the selected day (owned by the page). */
  datatype Panel = Panel(month: int, selected: int)

  /** Clicking a cell selects that cell's day. */
  function Click(p: Panel, day: int): (r: Panel)
    ensures r.month == p.month
  {
    p.(selected := day)
  }

  /** After a click the clicked cell, and no other, is drawn selected, and it has no today ring. */
  lemma ClickSelects(p: Panel, day: int, today: int, other: int)
    ensures CellStyle(day, p.month, today, Click(p, day).selected).selected
    ensures !CellStyle(day, p.month, today, Click(p, day).selected).todayRing
    ensures other != day ==> !CellStyle(other, p.month, today, Click(p, day).selected).selected
  {
  }
}
