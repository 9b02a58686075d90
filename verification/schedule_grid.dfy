/**
 * The weekly schedule grid: seven Monday-first columns of thirteen hour rows from 08:00,
 * and a red "now" line drawn in today's column when the displayed week contains today.
 * Dates are day numbers at local midnight; the clock reading is an hour and a minute.
 */
module ScheduleGrid {
  import opened Calendar
  import opened Wrappers
  import opened Numeric

  const StartHour := 8
  const EndHour := 21
  const HourHeight := 60

  /** `getTodayColumnIndex`: `getDay()` 0 (Sunday) goes last, Monday..Saturday to 0..5. */
  function ColumnIndex(jsDay: nat): (r: nat)
    requires jsDay < 7
    ensures r < 7
    ensures r == (jsDay + 6) % 7
  {
    if jsDay == 0 then 6 else jsDay - 1
  }

  /** The column of a day is its Monday-first weekday index, so the columns follow the header. */
  lemma ColumnIsWeekday(day: int)
    ensures ColumnIndex(JsDay(day)) == WeekdayIndex(WeekdayOf(day))
  {
  }

  /** Different week days land in different columns: the mapping is a bijection onto 0..6. */
  lemma ColumnBijective(a: nat, b: nat, c: nat)
    requires a < 7 && b < 7 && a != b && c < 7
    ensures ColumnIndex(a) != ColumnIndex(b)
    ensures exists d :: 0 <= d < 7 && ColumnIndex(d) == c
  {
    assert ColumnIndex((c + 1) % 7) == c;
  }

  /** The Monday starting the week of `selected`, as `isTodayInSameWeek` computes it. */
  function WeekStart(selected: int): (r: int)
    ensures WeekdayOf(r) == Monday
    ensures selected - 7 < r <= selected
  {
    var r := selected - ColumnIndex(JsDay(selected));
    assert WeekdayIndex(WeekdayOf(r)) == 0;
    r
  }

  /** `isTodayInSameWeek(selected)`: today lies between that Monday and the Sunday after it. */
  predicate SameWeek(selected: int, today: int) {
    WeekStart(selected) <= today <= WeekStart(selected) + 6
  }

  /** `WeekStart(d)` is the Monday of week number `(d + 3) / 7`. */
  lemma WeekStartWeek(d: int)
    ensures WeekStart(d) == 7 * ((d + 3) / 7) - 3
  {
  }

  /** Today is in the selected week exactly when both days have the same Monday. */
  lemma SameWeekIff(selected: int, today: int)
    ensures SameWeek(selected, today) <==> WeekStart(today) == WeekStart(selected)
  {
    WeekStartWeek(selected);
    WeekStartWeek(today);
    var q := (selected + 3) / 7;
    if SameWeek(selected, today) {
      DivModUnique(today + 3, 7, q, today + 3 - 7 * q);
    }
  }

  /** The "now" line's offset in pixels, when the hour lies in 8..21 (21 included). */
  function TimeOffset(hour: int, minute: int): (r: Option<real>)
    ensures r.Some? <==> StartHour <= hour <= EndHour
    ensures r.Some? ==> r.value == ((hour - StartHour) * 60 + minute + 48) as real
  {
    if StartHour <= hour <= EndHour then
      var totalMinutes := (hour - StartHour) * 60 + minute;
      var t := totalMinutes as real;
      assert t / 60.0 * 60.0 == t;
      Some(t / 60.0 * HourHeight as real + HourHeight as real - 12.0)
    else None
  }

  /** Later clock readings inside the window draw the line strictly lower. */
  lemma OffsetIncreasing(h1: int, m1: int, h2: int, m2: int)
    requires StartHour <= h1 <= EndHour && StartHour <= h2 <= EndHour
    requires 0 <= m1 < 60 && 0 <= m2 < 60
    requires h1 < h2 || (h1 == h2 && m1 < m2)
    ensures TimeOffset(h1, m1).value < TimeOffset(h2, m2).value
  {
  }

  /** Where the line is drawn, if at all: only with an offset and only in the week containing today. */
  datatype NowLine = NowLine(top: real, column: nat)

  function Line(hour: int, minute: int, selected: int, today: int): (r: Option<NowLine>)
    ensures r.Some? <==> StartHour <= hour <= EndHour && WeekStart(today) == WeekStart(selected)
    ensures r.Some? ==> r.value.column == WeekdayIndex(WeekdayOf(today)) && r.value.top == TimeOffset(hour, minute).value
  {
    SameWeekIff(selected, today);
    ColumnIsWeekday(today);
    match TimeOffset(hour, minute)
    case None => None
    case Some(top) => if SameWeek(selected, today) then Some(NowLine(top, ColumnIndex(JsDay(today)))) else None
  }

  /**
   * The fourteen hour labels `8:00` .. `21:00`: in increasing order, and an hour is labelled
   * exactly when the "now" line can be drawn at that hour.
   */
  function HourLabels(): (r: seq<int>)
    ensures |r| == EndHour - StartHour + 1
    ensures forall i :: 0 <= i < |r| ==> r[i] == StartHour + i
    ensures forall i, j :: 0 <= i < j < |r| ==> r[i] < r[j]
    ensures r[0] == StartHour && r[|r| - 1] == EndHour
    ensures forall hour :: hour in r <==> TimeOffset(hour, 0).Some?
  {
    var r := seq(14, i => 8 + i);
    assert forall hour :: hour in r <==> TimeOffset(hour, 0).Some? by {
      forall hour | StartHour <= hour <= EndHour ensures hour in r {
        assert r[hour - StartHour] == hour;
      }
    }
    r
  }

  /**
   * The grid's cells: seven day columns of thirteen hour rows, each (column, row) pair present
   * once and only in its own column, and every column the "now" line picks exists.
   */
  function Cells(): (r: seq<seq<(nat, nat)>>)
    ensures |r| == 7 && forall d :: 0 <= d < 7 ==> |r[d]| == EndHour - StartHour
    ensures forall d, h :: 0 <= d < 7 && 0 <= h < |r[d]| ==> r[d][h] == (d, h)
    ensures forall d, h :: 0 <= d < 7 && 0 <= h < EndHour - StartHour ==> (d, h) in r[d]
    ensures forall d, c :: 0 <= d < 7 && c in r[d] ==> c.0 == d && c.1 < EndHour - StartHour
    ensures forall d, i, j :: 0 <= d < 7 && 0 <= i < j < |r[d]| ==> r[d][i] != r[d][j]
    ensures forall hour, minute, selected, today ::
      Line(hour, minute, selected, today).Some? ==> Line(hour, minute, selected, today).value.column < |r|
  {
    var r := seq(7, d requires 0 <= d < 7 => seq(13, h requires 0 <= h < 13 => (d, h)));
    assert forall d, h :: 0 <= d < 7 && 0 <= h < 13 ==> r[d][h] == (d, h);
    r
  }
}
