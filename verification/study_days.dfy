/**
 * The seven study-day flags the goal forms edit (`isMonday` .. `isSunday`), and the one
 * operation every form applies to them: flipping a single day.
 */
module StudyDays {
  import opened Calendar

  /** `{ isMonday, isTuesday, ..., isSunday }` */
  datatype Days = Days(monday: bool, tuesday: bool, wednesday: bool, thursday: bool,
                       friday: bool, saturday: bool, sunday: bool)

  /** All seven flags off, as the setup form starts. */
  function NoDays(): (r: Days)
    ensures forall w :: !Get(r, w)
  {
    Days(false, false, false, false, false, false, false)
  }

  /** `days[key]` for the key of weekday `w`. */
  function Get(d: Days, w: Weekday): bool {
    match w
    case Monday => d.monday
    case Tuesday => d.tuesday
    case Wednesday => d.wednesday
    case Thursday => d.thursday
    case Friday => d.friday
    case Saturday => d.saturday
    case Sunday => d.sunday
  }

  /** `{ ...days, [key]: v }` */
  function Set(d: Days, w: Weekday, v: bool): (r: Days)
    ensures Get(r, w) == v
    ensures forall u :: u != w ==> Get(r, u) == Get(d, u)
  {
    match w
    case Monday => d.(monday := v)
    case Tuesday => d.(tuesday := v)
    case Wednesday => d.(wednesday := v)
    case Thursday => d.(thursday := v)
    case Friday => d.(friday := v)
    case Saturday => d.(saturday := v)
    case Sunday => d.(sunday := v)
  }

  /** Two flag records are equal exactly when they agree on every weekday. */
  lemma DaysExtensional(a: Days, b: Days)
    requires forall w :: Get(a, w) == Get(b, w)
    ensures a == b
  {
    assert Get(a, Monday) == Get(b, Monday) && Get(a, Tuesday) == Get(b, Tuesday);
    assert Get(a, Wednesday) == Get(b, Wednesday) && Get(a, Thursday) == Get(b, Thursday);
    assert Get(a, Friday) == Get(b, Friday) && Get(a, Saturday) == Get(b, Saturday);
    assert Get(a, Sunday) == Get(b, Sunday);
  }

  /** `{ ...days, [key]: !days[key] }`: one flag flipped, the other six kept. */
  function Toggle(d: Days, w: Weekday): (r: Days)
    ensures Get(r, w) == !Get(d, w)
    ensures forall u :: u != w ==> Get(r, u) == Get(d, u)
  {
    Set(d, w, !Get(d, w))
  }

  /** Toggling the same day twice gives back the original flags. */
  lemma ToggleTwice(d: Days, w: Weekday)
    ensures Toggle(Toggle(d, w), w) == d
  {
    DaysExtensional(Toggle(Toggle(d, w), w), d);
  }

  /** `Object.values(days).some(Boolean)` */
  predicate AnyDay(d: Days) {
    d.monday || d.tuesday || d.wednesday || d.thursday || d.friday || d.saturday || d.sunday
  }

  /** Some day is selected exactly when some weekday's flag is on. */
  lemma AnyDayIff(d: Days)
    ensures AnyDay(d) <==> exists w :: Get(d, w)
  {
    if AnyDay(d) {
      if d.monday { assert Get(d, Monday); }
      else if d.tuesday { assert Get(d, Tuesday); }
      else if d.wednesday { assert Get(d, Wednesday); }
      else if d.thursday { assert Get(d, Thursday); }
      else if d.friday { assert Get(d, Friday); }
      else if d.saturday { assert Get(d, Saturday); }
      else { assert Get(d, Sunday); }
    }
  }

  /** Switching a day on always leaves some day selected. */
  lemma ToggleOnSelects(d: Days, w: Weekday)
    requires !Get(d, w)
    ensures AnyDay(Toggle(d, w))
  {
    AnyDayIff(Toggle(d, w));
  }

  /** The flags Monday first, as the backend stores them. */
  function AsList(d: Days): (r: seq<bool>)
    ensures |r| == 7 && forall w :: r[WeekdayIndex(w)] == Get(d, w)
  {
    [d.monday, d.tuesday, d.wednesday, d.thursday, d.friday, d.saturday, d.sunday]
  }
}
