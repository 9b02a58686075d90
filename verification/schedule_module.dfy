/**
 * `schedule_module` and `schedule_all_modules`: turning modules of skills into dated
 * study tasks. Each week the module's remaining hours (at most the weekly budget) are
 * spread over the learning days; every learning day with hours gets the solver's
 * sessions for that many hours, and each session goes to the first course in the pool
 * that still has half an hour of material and has not been studied that day.
 *
 * Dates are day numbers, times minutes after midnight, hours `real`.
 */
module ModuleScheduling {
  import opened Wrappers
  import opened Calendar
  import Numeric
  import PyDict
  import StableSort
  import HoursDistribution
  import LearningBlocks
  import CourseSelection

  type Course = CourseSelection.Course
  type Session = LearningBlocks.Session

  /** A module of `generate_modules`: its number, skills and the hours of each skill. */
  datatype ModuleSpec = ModuleSpec(id: int, skills: seq<string>, durations: seq<real>)

  /** A course of the module with the hours still to be studied. */
  datatype PoolEntry = PoolEntry(course: Course, skill: string, remaining: real)

  /** A scheduled session of one course. */
  datatype Task = Task(
    userId: int, moduleId: int, skill: string, title: string, link: string,
    date: int, start: nat, end: nat)

  /** The day a run of tasks is being placed on. */
  datatype Slot = Slot(userId: int, moduleId: int, date: int)

  /**
   * The fifteen-minute plan the solver picks for a number of half hours. The solve is
   * deterministic for a given load, so `block_cache` changes nothing that is modelled.
   */
  type Solver = nat -> LearningBlocks.BlockPlan

  // ---------------------------------------------------------------------------
  // The course pool
  // ---------------------------------------------------------------------------

  function EntriesFor(skill: string, courses: seq<Course>): (r: seq<PoolEntry>)
    ensures |r| == |courses|
    ensures forall i :: 0 <= i < |r| ==> r[i] == PoolEntry(courses[i], skill, courses[i].duration)
  {
    if courses == [] then []
    else [PoolEntry(courses[0], skill, courses[0].duration)] + EntriesFor(skill, courses[1..])
  }

  /** The pool before sorting: every suggested course of every skill, skill by skill. */
  function PoolOf(skills: seq<string>, suggestions: CourseSelection.Suggestions): seq<PoolEntry> {
    if skills == [] then []
    else EntriesFor(skills[0], PyDict.GetOr(suggestions, skills[0], [])) + PoolOf(skills[1..], suggestions)
  }

  /** The pool holds exactly the suggested courses of the module's skills, with full hours left. */
  lemma {:induction false} PoolOfMembers(skills: seq<string>, suggestions: CourseSelection.Suggestions, e: PoolEntry)
    ensures e in PoolOf(skills, suggestions) <==>
      e.skill in skills && e.course in PyDict.GetOr(suggestions, e.skill, []) && e.remaining == e.course.duration
  {
    if skills != [] {
      PoolOfMembers(skills[1..], suggestions, e);
      var here := EntriesFor(skills[0], PyDict.GetOr(suggestions, skills[0], []));
      assert e in here <==> (e.skill == skills[0] && e.course in PyDict.GetOr(suggestions, skills[0], [])
        && e.remaining == e.course.duration) by {
        if e in here {
          var i :| 0 <= i < |here| && here[i] == e;
        }
        if e.skill == skills[0] && e.course in PyDict.GetOr(suggestions, skills[0], []) && e.remaining == e.course.duration {
          var i :| 0 <= i < |PyDict.GetOr(suggestions, skills[0], [])| && PyDict.GetOr(suggestions, skills[0], [])[i] == e.course;
          assert here[i] == e;
        }
      }
    }
  }

  function Duration(e: PoolEntry): real { e.course.duration }

  /** `course_pool.sort(key=lambda x: -x['duration'])`: longest first, ties in pool order. */
  function CoursePool(skills: seq<string>, suggestions: CourseSelection.Suggestions): (r: seq<PoolEntry>)
    ensures multiset(r) == multiset(PoolOf(skills, suggestions))
    ensures StableSort.SortedDesc(r, Duration)
    ensures forall v :: StableSort.WithKey(r, Duration, v) == StableSort.WithKey(PoolOf(skills, suggestions), Duration, v)
  {
    var pool := PoolOf(skills, suggestions);
    forall v ensures StableSort.WithKey(StableSort.SortDesc(pool, Duration), Duration, v) == StableSort.WithKey(pool, Duration, v) {
      StableSort.SortDescStable(pool, Duration, v);
    }
    StableSort.SortDesc(pool, Duration)
  }

  // ---------------------------------------------------------------------------
  // One day: giving each session to a course
  // ---------------------------------------------------------------------------

  /** A course may take the session: half an hour left, and not yet studied today unless it is the only one. */
  predicate Eligible(e: PoolEntry, single: bool, used: set<string>) {
    e.remaining >= 0.5 && (single || e.course.title !in used)
  }

  /** The first eligible course from position `i` on. */
  function FirstEligible(pool: seq<PoolEntry>, single: bool, used: set<string>, i: nat): (r: Option<nat>)
    requires i <= |pool|
    ensures r.Some? ==> i <= r.value < |pool| && Eligible(pool[r.value], single, used)
    ensures forall j :: i <= j < |pool| && (r.None? || j < r.value) ==> !Eligible(pool[j], single, used)
    decreases |pool| - i
  {
    if i == |pool| then None
    else if Eligible(pool[i], single, used) then Some(i)
    else FirstEligible(pool, single, used, i + 1)
  }

  /** How many courses have at least half an hour left. */
  function CountOpen(pool: seq<PoolEntry>): nat {
    if pool == [] then 0 else (if pool[0].remaining >= 0.5 then 1 else 0) + CountOpen(pool[1..])
  }

  /** The length of a session in hours. */
  function SessionHours(s: Session): real {
    (s.end - s.start) as real / 60.0
  }

  /** Minutes `allocated_time` hours last, cut to whole minutes by `%H:%M`. */
  function AllocatedMinutes(alloc: real): int {
    (alloc * 60.0).Floor
  }

  /** `min(course['remaining'], block_duration)` fills at least a minute and at most the session. */
  lemma AllocationFits(e: PoolEntry, s: Session)
    requires e.remaining >= 0.5 && s.start < s.end
    ensures var alloc := Numeric.MinR(e.remaining, SessionHours(s));
      0.0 < alloc <= e.remaining && 1 <= AllocatedMinutes(alloc) <= s.end - s.start
  {
    var alloc := Numeric.MinR(e.remaining, SessionHours(s));
    var len := (s.end - s.start) as real;
    assert SessionHours(s) * 60.0 == len;
    assert alloc * 60.0 <= len;
    assert alloc * 60.0 >= 1.0;
  }

  function PlacedTask(e: PoolEntry, s: Session, slot: Slot): (t: Task)
    requires e.remaining >= 0.5 && s.start < s.end
    ensures t.start == s.start && t.start < t.end <= s.end
  {
    AllocationFits(e, s);
    Task(slot.userId, slot.moduleId, e.skill, e.course.title, e.course.link, slot.date,
         s.start, s.start + AllocatedMinutes(Numeric.MinR(e.remaining, SessionHours(s))))
  }

  predicate ProperSessions(blocks: seq<Session>) {
    forall k :: 0 <= k < |blocks| ==> blocks[k].start < blocks[k].end
  }

  /**
   * The loop over the day's sessions: each takes the first eligible course for as long
   * as the session lasts or the course has hours left; the course's hours go down and
   * its title is marked as studied today.
   */
  function FillSessions(pool: seq<PoolEntry>, blocks: seq<Session>, single: bool,
                        used: set<string>, slot: Slot): (r: (seq<PoolEntry>, seq<Task>))
    requires ProperSessions(blocks)
    ensures |r.0| == |pool| && |r.1| <= |blocks|
    decreases |blocks|
  {
    if blocks == [] then (pool, [])
    else
      var s := blocks[0];
      match FirstEligible(pool, single, used, 0)
      case None => FillSessions(pool, blocks[1..], single, used, slot)
      case Some(k) =>
        var rest := FillSessions(Consume(pool, k, s), blocks[1..], single, used + {pool[k].course.title}, slot);
        (rest.0, [PlacedTask(pool[k], s, slot)] + rest.1)
  }

  /** `course['remaining'] -= allocated_time` for the course at position `k`. */
  function Consume(pool: seq<PoolEntry>, k: nat, s: Session): (r: seq<PoolEntry>)
    requires k < |pool|
    ensures |r| == |pool|
  {
    pool[k := pool[k].(remaining := pool[k].remaining - Numeric.MinR(pool[k].remaining, SessionHours(s)))]
  }

  /** Task `a` is over before task `b` starts. */
  predicate Before(a: Task, b: Task) {
    a.date < b.date || (a.date == b.date && a.end < b.start)
  }

  predicate Chronological(ts: seq<Task>) {
    forall i :: 0 <= i < |ts| - 1 ==> Before(ts[i], ts[i + 1])
  }

  /** Sessions that follow one another without touching. */
  predicate Separated(blocks: seq<Session>) {
    forall k, m :: 0 <= k < m < |blocks| ==> blocks[k].end < blocks[m].start
  }

  lemma {:induction false} OrderedSeparated(blocks: seq<Session>)
    requires LearningBlocks.Ordered(blocks)
    ensures Separated(blocks) && ProperSessions(blocks)
  {
    if blocks != [] {
      OrderedSeparated(blocks[1..]);
      forall m | 1 <= m < |blocks| ensures blocks[0].end < blocks[m].start {
        assert blocks[1..][m - 1] == blocks[m];
        if m > 1 {
          assert blocks[1..][0] == blocks[1];
        }
      }
    }
  }

  /** Task `t` starts with one of the sessions and ends inside it. */
  predicate InSomeSession(t: Task, blocks: seq<Session>) {
    exists k :: 0 <= k < |blocks| && t.start == blocks[k].start && t.end <= blocks[k].end
  }

  lemma InLaterSession(t: Task, blocks: seq<Session>)
    requires blocks != [] && InSomeSession(t, blocks[1..])
    ensures InSomeSession(t, blocks)
  {
    var k :| 0 <= k < |blocks[1..]| && t.start == blocks[1..][k].start && t.end <= blocks[1..][k].end;
    assert blocks[k + 1] == blocks[1..][k];
  }

  /** Nothing eligible: the session stays empty. */
  lemma Skipped(pool: seq<PoolEntry>, blocks: seq<Session>, single: bool, used: set<string>, slot: Slot)
    requires ProperSessions(blocks) && blocks != []
    requires FirstEligible(pool, single, used, 0).None?
    ensures FillSessions(pool, blocks, single, used, slot) == FillSessions(pool, blocks[1..], single, used, slot)
  {
  }

  /** The tasks a day's sessions get, with the pool after them. */
  function Placed(pool: seq<PoolEntry>, blocks: seq<Session>, single: bool, used: set<string>,
                  slot: Slot, k0: nat): (r: (seq<PoolEntry>, seq<Task>))
    requires ProperSessions(blocks) && blocks != []
    requires FirstEligible(pool, single, used, 0) == Some(k0)
    ensures r == FillSessions(pool, blocks, single, used, slot)
    ensures r.1 == [PlacedTask(pool[k0], blocks[0], slot)] + FillSessions(
      Consume(pool, k0, blocks[0]), blocks[1..], single, used + {pool[k0].course.title}, slot).1
    ensures r.0 == FillSessions(Consume(pool, k0, blocks[0]), blocks[1..], single, used + {pool[k0].course.title}, slot).0
  {
    FillSessions(pool, blocks, single, used, slot)
  }

  /** The task belongs to the slot, has positive length and lies in one of the sessions. */
  predicate InSlot(t: Task, blocks: seq<Session>, slot: Slot) {
    && t.date == slot.date && t.userId == slot.userId && t.moduleId == slot.moduleId
    && t.start < t.end
    && InSomeSession(t, blocks)
  }

  predicate AllInSessions(ts: seq<Task>, blocks: seq<Session>, slot: Slot) {
    forall i :: 0 <= i < |ts| ==> InSlot(ts[i], blocks, slot)
  }

  /** Every task starts a session of the day and ends inside it, and belongs to the slot. */
  lemma {:induction false} FillSessionsInSessions(pool: seq<PoolEntry>, blocks: seq<Session>, single: bool,
                                                  used: set<string>, slot: Slot)
    requires ProperSessions(blocks)
    ensures AllInSessions(FillSessions(pool, blocks, single, used, slot).1, blocks, slot)
    decreases |blocks|
  {
    if blocks != [] {
      var rest := blocks[1..];
      match FirstEligible(pool, single, used, 0)
      case None =>
        Skipped(pool, blocks, single, used, slot);
        FillSessionsInSessions(pool, rest, single, used, slot);
        var ts := FillSessions(pool, rest, single, used, slot).1;
        forall i | 0 <= i < |ts| ensures InSomeSession(ts[i], blocks) {
          InLaterSession(ts[i], blocks);
        }
      case Some(k0) =>
        var e := pool[k0];
        var pool' := Consume(pool, k0, blocks[0]);
        var used' := used + {e.course.title};
        var r := Placed(pool, blocks, single, used, slot, k0);
        FillSessionsInSessions(pool', rest, single, used', slot);
        var tail := FillSessions(pool', rest, single, used', slot).1;
        assert InSomeSession(r.1[0], blocks) by {
          assert r.1[0].start == blocks[0].start && r.1[0].end <= blocks[0].end;
        }
        forall i | 1 <= i < |r.1| ensures r.1[i] == tail[i - 1] && InSomeSession(r.1[i], blocks) {
          InLaterSession(tail[i - 1], blocks);
        }
    }
  }

  /** Sessions that follow one another give tasks that follow one another. */
  lemma {:induction false} FillSessionsChronological(pool: seq<PoolEntry>, blocks: seq<Session>, single: bool,
                                                     used: set<string>, slot: Slot)
    requires ProperSessions(blocks) && Separated(blocks)
    ensures Chronological(FillSessions(pool, blocks, single, used, slot).1)
    decreases |blocks|
  {
    if blocks != [] {
      var rest := blocks[1..];
      assert Separated(rest);
      match FirstEligible(pool, single, used, 0)
      case None =>
        Skipped(pool, blocks, single, used, slot);
        FillSessionsChronological(pool, rest, single, used, slot);
      case Some(k0) =>
        var e := pool[k0];
        var pool' := Consume(pool, k0, blocks[0]);
        var used' := used + {e.course.title};
        var r := Placed(pool, blocks, single, used, slot, k0);
        FillSessionsChronological(pool', rest, single, used', slot);
        FillSessionsInSessions(pool', rest, single, used', slot);
        var tail := FillSessions(pool', rest, single, used', slot).1;
        if tail != [] {
          assert InSomeSession(tail[0], rest);
          var k :| 0 <= k < |rest| && tail[0].start == rest[k].start && tail[0].end <= rest[k].end;
          assert blocks[k + 1] == rest[k];
          assert r.1[0].end <= blocks[0].end < blocks[k + 1].start;
          assert r.1[1] == tail[0];
          assert Before(r.1[0], r.1[1]);
        }
        forall i | 0 <= i < |r.1| - 1 ensures Before(r.1[i], r.1[i + 1]) {
          if i > 0 {
            assert r.1[i] == tail[i - 1] && r.1[i + 1] == tail[i];
          }
        }
    }
  }

  /** No title twice, and none from `used`. */
  predicate FreshTitles(ts: seq<Task>, used: set<string>) {
    && (forall i :: 0 <= i < |ts| ==> ts[i].title !in used)
    && (forall i, j :: 0 <= i < j < |ts| ==> ts[i].title != ts[j].title)
  }

  /**
   * Unless only one course is left to study, no title is studied twice on one day, nor
   * one already in `used`.
   */
  lemma {:induction false} FillSessionsDistinctTitles(pool: seq<PoolEntry>, blocks: seq<Session>,
                                                      used: set<string>, slot: Slot)
    requires ProperSessions(blocks)
    ensures FreshTitles(FillSessions(pool, blocks, false, used, slot).1, used)
    decreases |blocks|
  {
    if blocks != [] {
      match FirstEligible(pool, false, used, 0)
      case None =>
        Skipped(pool, blocks, false, used, slot);
        FillSessionsDistinctTitles(pool, blocks[1..], used, slot);
      case Some(k0) =>
        var e := pool[k0];
        var pool' := Consume(pool, k0, blocks[0]);
        var used' := used + {e.course.title};
        var r := Placed(pool, blocks, false, used, slot, k0);
        FillSessionsDistinctTitles(pool', blocks[1..], used', slot);
        var tail := FillSessions(pool', blocks[1..], false, used', slot).1;
        assert FreshTitles(tail, used');
        assert r.1[0].title == e.course.title && e.course.title !in used;
        assert forall i :: 1 <= i < |r.1| ==> r.1[i] == tail[i - 1];
    }
  }

  /** The same courses in the same order; hours only go down, and never below zero. */
  predicate PoolShrinks(before: seq<PoolEntry>, after: seq<PoolEntry>) {
    && |after| == |before|
    && (forall i :: 0 <= i < |before| ==> after[i].course == before[i].course && after[i].skill == before[i].skill)
    && (forall i :: 0 <= i < |before| ==> after[i].remaining <= before[i].remaining)
    && (forall i :: 0 <= i < |before| ==> after[i].remaining >= Numeric.MinR(before[i].remaining, 0.0))
  }

  /** Hours left in the pool, all courses together. */
  function PoolHours(pool: seq<PoolEntry>): real {
    if pool == [] then 0.0 else pool[0].remaining + PoolHours(pool[1..])
  }

  /** Hours the pool can still give: the positive remainders. */
  function OpenHours(pool: seq<PoolEntry>): real {
    if pool == [] then 0.0 else Numeric.MaxR(pool[0].remaining, 0.0) + OpenHours(pool[1..])
  }

  /** A shrinking pool loses at most the hours it could give. */
  lemma {:induction false} PoolLossBounded(before: seq<PoolEntry>, after: seq<PoolEntry>)
    requires PoolShrinks(before, after)
    ensures PoolHours(before) - PoolHours(after) <= OpenHours(before)
  {
    if before != [] {
      PoolLossBounded(before[1..], after[1..]);
    }
  }

  lemma {:induction false} PoolHoursUpdate(pool: seq<PoolEntry>, k: nat, v: real)
    requires k < |pool|
    ensures PoolHours(pool[k := pool[k].(remaining := v)]) == PoolHours(pool) - pool[k].remaining + v
  {
    if k > 0 {
      PoolHoursUpdate(pool[1..], k - 1, v);
      assert pool[k := pool[k].(remaining := v)][1..] == pool[1..][k - 1 := pool[k].(remaining := v)];
    }
  }

  function TaskMinutes(ts: seq<Task>): int {
    if ts == [] then 0 else ts[0].end - ts[0].start + TaskMinutes(ts[1..])
  }

  /** Placing one task takes its minutes, and no more, off the chosen course. */
  lemma PlaceOne(pool: seq<PoolEntry>, k0: nat, s: Session, slot: Slot)
    requires k0 < |pool| && pool[k0].remaining >= 0.5 && s.start < s.end
    ensures var pool' := Consume(pool, k0, s);
      var t := PlacedTask(pool[k0], s, slot);
      && (t.end - t.start) as real <= 60.0 * (PoolHours(pool) - PoolHours(pool'))
      && t.end - t.start <= s.end - s.start
  {
    var alloc := Numeric.MinR(pool[k0].remaining, SessionHours(s));
    AllocationFits(pool[k0], s);
    var v := pool[k0].remaining - alloc;
    PoolHoursUpdate(pool, k0, v);
    assert Consume(pool, k0, s) == pool[k0 := pool[k0].(remaining := v)];
    var t := PlacedTask(pool[k0], s, slot);
    assert t.end - t.start == AllocatedMinutes(alloc);
    assert AllocatedMinutes(alloc) as real <= alloc * 60.0;
  }

  lemma ConsumeShrinks(pool: seq<PoolEntry>, k0: nat, s: Session)
    requires k0 < |pool| && pool[k0].remaining >= 0.5 && s.start < s.end
    ensures PoolShrinks(pool, Consume(pool, k0, s))
  {
    var alloc := Numeric.MinR(pool[k0].remaining, SessionHours(s));
    AllocationFits(pool[k0], s);
    var pool' := Consume(pool, k0, s);
    forall i | 0 <= i < |pool| ensures pool'[i].remaining >= Numeric.MinR(pool[i].remaining, 0.0) {
      if i == k0 {
        assert pool'[i].remaining == pool[k0].remaining - alloc >= 0.0;
      } else {
        assert pool'[i] == pool[i];
      }
    }
  }

  lemma PoolShrinksTrans(a: seq<PoolEntry>, b: seq<PoolEntry>, c: seq<PoolEntry>)
    requires PoolShrinks(a, b) && PoolShrinks(b, c)
    ensures PoolShrinks(a, c)
  {
  }

  /**
   * A day's sessions only use up course time: the pool keeps its courses and loses
   * hours, and the minutes placed never exceed the hours taken off the pool nor the
   * sessions' own length.
   */
  lemma {:induction false} FillSessionsPool(pool: seq<PoolEntry>, blocks: seq<Session>, single: bool,
                                            used: set<string>, slot: Slot)
    requires ProperSessions(blocks)
    ensures var r := FillSessions(pool, blocks, single, used, slot);
      && PoolShrinks(pool, r.0)
      && TaskMinutes(r.1) as real <= 60.0 * (PoolHours(pool) - PoolHours(r.0))
      && TaskMinutes(r.1) <= LearningBlocks.TotalMinutes(blocks)
    decreases |blocks|
  {
    if blocks != [] {
      match FirstEligible(pool, single, used, 0)
      case None =>
        Skipped(pool, blocks, single, used, slot);
        FillSessionsPool(pool, blocks[1..], single, used, slot);
        assert LearningBlocks.TotalMinutes(blocks) == blocks[0].end - blocks[0].start + LearningBlocks.TotalMinutes(blocks[1..]);
      case Some(k0) =>
        var e := pool[k0];
        var pool' := Consume(pool, k0, blocks[0]);
        var used' := used + {e.course.title};
        var r := Placed(pool, blocks, single, used, slot, k0);
        FillSessionsPool(pool', blocks[1..], single, used', slot);
        PlaceOne(pool, k0, blocks[0], slot);
        ConsumeShrinks(pool, k0, blocks[0]);
        PoolShrinksTrans(pool, pool', r.0);
        var tail := FillSessions(pool', blocks[1..], single, used', slot).1;
        assert r.1[1..] == tail;
        assert TaskMinutes(r.1) == r.1[0].end - r.1[0].start + TaskMinutes(tail);
    }
  }

  // ---------------------------------------------------------------------------
  // Days and weeks
  // ---------------------------------------------------------------------------

  /** The week's `distribute_weekly_hours(min(weekly_hours, hours_remaining), learning_days)`. */
  type Planner = real -> Result<HoursDistribution.Allocation, HoursDistribution.DistributeError>

  /**
   * What stays fixed while one module is scheduled; `plan` is the week's hour
   * distribution, `Distribute` over the learning days in `ScheduleModule`.
   */
  datatype Setup = Setup(userId: int, moduleId: int, weeklyHours: real,
                         ld: HoursDistribution.LearningDays, solve: Solver, plan: Planner)

  /** Where the loops stand: the current date, the module's hours still to hand out, the pool and the tasks so far. */
  datatype State = State(date: int, remaining: real, pool: seq<PoolEntry>, tasks: seq<Task>)

  /** `dist.get(day_name, 0)`, in half hours. */
  function DayHalves(dist: HoursDistribution.Allocation, day: Weekday): nat {
    if day in dist then dist[day] else 0
  }

  /** The day is a learning day and the week's distribution gives it time. */
  predicate StudyDay(cfg: Setup, dist: HoursDistribution.Allocation, date: int) {
    HoursDistribution.IsLearningDay(cfg.ld, WeekdayOf(date)) && DayHalves(dist, WeekdayOf(date)) > 0
  }

  lemma StudyDayOn(cfg: Setup, dist: HoursDistribution.Allocation, date: int, d: Weekday)
    requires WeekdayOf(date) == d
    requires HoursDistribution.IsLearningDay(cfg.ld, d) && DayHalves(dist, d) > 0
    ensures StudyDay(cfg, dist, date)
  {
  }

  /** The sessions for a day of `h` half hours, with the tasks they get. */
  function StudyOn(st: State, h: nat, cfg: Setup): (r: State)
    requires h > 0
    ensures r.date == st.date + 1 && r.remaining == st.remaining - 0.5 * h as real
  {
    var filled := DayFill(st, h, cfg);
    State(st.date + 1, st.remaining - 0.5 * h as real, filled.0, st.tasks + filled.1)
  }

  /**
   * The solver's sessions for `h` half hours, given out to the pool; several sessions
   * may go to one course only when it is the one course left to study.
   */
  function DayFill(st: State, h: nat, cfg: Setup): (r: (seq<PoolEntry>, seq<Task>))
    requires h > 0
  {
    var blocks := LearningBlocks.Sessions(cfg.solve(h));
    OrderedSeparated(blocks);
    FillSessions(st.pool, blocks, CountOpen(st.pool) == 1, {}, Slot(cfg.userId, cfg.moduleId, st.date))
  }

  /** One turn of the seven-day loop: a day without time only moves the date on. */
  function DayStep(st: State, dist: HoursDistribution.Allocation, cfg: Setup): (r: State)
    ensures r.date == st.date + 1
    ensures StudyDay(cfg, dist, st.date) ==> r.remaining <= st.remaining - 0.5
    ensures !StudyDay(cfg, dist, st.date) ==> r == st.(date := st.date + 1)
  {
    if StudyDay(cfg, dist, st.date) then StudyOn(st, DayHalves(dist, WeekdayOf(st.date)), cfg)
    else st.(date := st.date + 1)
  }

  /** `for i in range(7)` with `left` turns to go; it stops early once a study day uses up the hours. */
  function WeekPass(st: State, dist: HoursDistribution.Allocation, cfg: Setup, left: nat): (r: State)
    ensures r.remaining <= st.remaining
    decreases left
  {
    if left == 0 then st
    else
      var next := DayStep(st, dist, cfg);
      if StudyDay(cfg, dist, st.date) && next.remaining <= 0.0 then next
      else WeekPass(next, dist, cfg, left - 1)
  }

  lemma {:induction false} WeekPassDate(st: State, dist: HoursDistribution.Allocation, cfg: Setup, left: nat)
    ensures st.date <= WeekPass(st, dist, cfg, left).date <= st.date + left
    decreases left
  {
    if left > 0 {
      WeekPassDate(DayStep(st, dist, cfg), dist, cfg, left - 1);
    }
  }

  /** A day with time within the pass's reach takes at least half an hour off, unless the hours run out. */
  lemma {:induction false} WeekPassProgress(st: State, dist: HoursDistribution.Allocation, cfg: Setup,
                                            left: nat, j: nat)
    requires j < left && StudyDay(cfg, dist, st.date + j)
    ensures var r := WeekPass(st, dist, cfg, left); r.remaining <= 0.0 || r.remaining <= st.remaining - 0.5
    decreases left
  {
    var next := DayStep(st, dist, cfg);
    if !(StudyDay(cfg, dist, st.date) && next.remaining <= 0.0) && j > 0 {
      WeekPassProgress(next, dist, cfg, left - 1, j - 1);
    }
  }

  /** With no time on any day, a pass changes nothing but the date. */
  lemma {:induction false} WeekPassIdle(st: State, dist: HoursDistribution.Allocation, cfg: Setup, left: nat)
    requires forall d :: d in dist ==> dist[d] == 0
    ensures var r := WeekPass(st, dist, cfg, left);
      r.remaining == st.remaining && r.pool == st.pool && r.tasks == st.tasks
    decreases left
  {
    if left > 0 {
      WeekPassIdle(DayStep(st, dist, cfg), dist, cfg, left - 1);
    }
  }

  lemma {:induction false} PositiveDay(a: HoursDistribution.Allocation, days: seq<Weekday>)
    requires forall d :: d in days ==> d in a
    requires HoursDistribution.Total(a, days) > 0
    ensures exists d :: d in days && a[d] > 0
  {
    if a[days[0]] == 0 {
      PositiveDay(a, days[1..]);
      var d :| d in days[1..] && a[d] > 0;
      assert d in days;
    }
  }

  lemma {:induction false} ZeroTotal(a: HoursDistribution.Allocation, days: seq<Weekday>)
    requires forall d :: d in days ==> d in a
    requires HoursDistribution.Total(a, days) == 0
    ensures forall d :: d in days ==> a[d] == 0
  {
    if days != [] {
      ZeroTotal(a, days[1..]);
    }
  }

  /** `Halves` of the loop's hours drops when at least half an hour is taken off, or all of it. */
  lemma HalvesDrop(r: real, r': real)
    requires r >= 0.5 && (r' <= 0.0 || r' <= r - 0.5)
    ensures HoursDistribution.Halves(r') < HoursDistribution.Halves(r)
  {
    var f := (2.0 * r).Floor;
    assert f as real <= 2.0 * r;
    if r' >= 0.5 {
      var g := (2.0 * r').Floor;
      assert g as real <= 2.0 * r' <= 2.0 * r - 1.0 < f as real;
    }
  }

  /**
   * When a week has at least half an hour to hand out and some learning day, its pass
   * takes at least half an hour off the module or finishes it.
   */
  lemma WeekProgress(st: State, cfg: Setup, dist: HoursDistribution.Allocation)
    requires st.remaining >= 0.5
    requires exists d :: HoursDistribution.IsLearningDay(cfg.ld, d) && DayHalves(dist, d) > 0
    ensures HoursDistribution.Halves(WeekPass(st, dist, cfg, 7).remaining) < HoursDistribution.Halves(st.remaining)
  {
    var d :| HoursDistribution.IsLearningDay(cfg.ld, d) && DayHalves(dist, d) > 0;
    var j := WeekdayOffset(st.date, d);
    StudyDayOn(cfg, dist, st.date + j, d);
    WeekPassProgress(st, dist, cfg, 7, j);
    HalvesDrop(st.remaining, WeekPass(st, dist, cfg, 7).remaining);
  }

  /**
   * What the loop relies on from a week's distribution of `budget` hours: nothing to hand
   * out below half an hour, and some learning day with time otherwise.
   */
  predicate WeekShape(plan: Result<HoursDistribution.Allocation, HoursDistribution.DistributeError>,
                      budget: real, ld: HoursDistribution.LearningDays) {
    && (plan.Err? <==> budget >= 0.5 && HoursDistribution.ActiveDays(ld) == [])
    && (budget < 0.5 ==> plan.Ok? && forall d :: d in plan.value ==> plan.value[d] == 0)
    && (budget >= 0.5 && plan.Ok? ==>
          exists d :: HoursDistribution.IsLearningDay(ld, d) && DayHalves(plan.value, d) > 0)
  }

  ghost predicate Planned(cfg: Setup) {
    forall b :: WeekShape(cfg.plan(b), b, cfg.ld)
  }

  /** `Distribute` has the shape the loop relies on. */
  lemma DistributeShape(budget: real, ld: HoursDistribution.LearningDays)
    ensures WeekShape(HoursDistribution.Distribute(budget, ld), budget, ld)
  {
    var r := HoursDistribution.Distribute(budget, ld);
    var active := HoursDistribution.ActiveDays(ld);
    var n := HoursDistribution.Halves(budget);
    if r.Ok? {
      var dist := r.value;
      assert forall d :: d in active ==> d in dist;
      assert HoursDistribution.Total(dist, active) == Numeric.Min(n, HoursDistribution.Cap * |active|);
      if budget < 0.5 {
        assert n == 0;
        ZeroTotal(dist, active);
        forall d | d in dist ensures dist[d] == 0 {
          assert d in active;
        }
      } else {
        assert n > 0 && active != [];
        PositiveDay(dist, active);
        var d :| d in active && dist[d] > 0;
        assert HoursDistribution.IsLearningDay(ld, d) && DayHalves(dist, d) > 0;
      }
    }
  }

  /** The planner of `ScheduleModule`. */
  lemma DistributePlanned(cfg: Setup)
    requires forall b :: cfg.plan(b) == HoursDistribution.Distribute(b, cfg.ld)
    ensures Planned(cfg)
  {
    forall b ensures WeekShape(cfg.plan(b), b, cfg.ld) {
      DistributeShape(b, cfg.ld);
    }
  }

  /**
   * `while hours_remaining > 0` as corrected: weeks go on while at least half an hour of
   * the weekly budget and of the module is left, so that every week hands out time.
   */
  function Weeks(st: State, cfg: Setup): (r: Result<State, HoursDistribution.DistributeError>)
    requires Planned(cfg)
    decreases HoursDistribution.Halves(st.remaining)
  {
    var budget := Numeric.MinR(cfg.weeklyHours, st.remaining);
    if budget < 0.5 then Ok(st)
    else
      match cfg.plan(budget)
      case Err(e) => Err(e)
      case Ok(dist) =>
        assert WeekShape(cfg.plan(budget), budget, cfg.ld);
        WeekProgress(st, cfg, dist);
        Weeks(WeekPass(st, dist, cfg, 7), cfg)
  }

  /**
   * The corrected loop fails exactly when its first week has hours to hand out and no
   * day to give them to; otherwise it ends with less than half an hour to hand out.
   */
  lemma {:induction false} WeeksOutcome(st: State, cfg: Setup)
    requires Planned(cfg)
    ensures var r := Weeks(st, cfg);
      && (r.Err? <==> Numeric.MinR(cfg.weeklyHours, st.remaining) >= 0.5 && HoursDistribution.ActiveDays(cfg.ld) == [])
      && (r.Ok? ==> Numeric.MinR(cfg.weeklyHours, r.value.remaining) < 0.5 && r.value.date >= st.date)
    decreases HoursDistribution.Halves(st.remaining)
  {
    var budget := Numeric.MinR(cfg.weeklyHours, st.remaining);
    if budget >= 0.5 {
      assert WeekShape(cfg.plan(budget), budget, cfg.ld);
      if cfg.plan(budget).Ok? {
        var dist := cfg.plan(budget).value;
        var next := WeekPass(st, dist, cfg, 7);
        WeekProgress(st, cfg, dist);
        WeekPassDate(st, dist, cfg, 7);
        WeeksOutcome(next, cfg);
      }
    }
  }

  // ---------------------------------------------------------------------------
  // What the tasks of a module look like
  // ---------------------------------------------------------------------------

  /**
   * A task as `schedule_module` makes it: the user's and the module's, on a learning day
   * from `from` on, of positive length between 08:00 and 21:00.
   */
  predicate ModuleTask(t: Task, userId: int, moduleId: int, ld: HoursDistribution.LearningDays, from: int) {
    && t.userId == userId && t.moduleId == moduleId
    && from <= t.date && HoursDistribution.IsLearningDay(ld, WeekdayOf(t.date))
    && LearningBlocks.DayStart <= t.start < t.end <= LearningBlocks.DayEnd
  }

  /**
   * The loops' invariant: the tasks so far are in order, are the module's and lie before
   * the current date, and their minutes come out of the hours the pool has lost since `pool0`.
   */
  predicate Progress(st: State, cfg: Setup, from: int, pool0: seq<PoolEntry>) {
    && from <= st.date
    && Chronological(st.tasks)
    && (forall i :: 0 <= i < |st.tasks| ==> ModuleTask(st.tasks[i], cfg.userId, cfg.moduleId, cfg.ld, from) && st.tasks[i].date < st.date)
    && PoolShrinks(pool0, st.pool)
    && TaskMinutes(st.tasks) as real <= 60.0 * (PoolHours(pool0) - PoolHours(st.pool))
  }

  lemma {:induction false} TaskMinutesAppend(a: seq<Task>, b: seq<Task>)
    ensures TaskMinutes(a + b) == TaskMinutes(a) + TaskMinutes(b)
  {
    if a != [] {
      TaskMinutesAppend(a[1..], b);
      assert (a + b)[1..] == a[1..] + b;
    } else {
      assert a + b == b;
    }
  }

  lemma ChronologicalAppend(a: seq<Task>, b: seq<Task>)
    requires Chronological(a) && Chronological(b)
    requires a != [] && b != [] ==> Before(a[|a| - 1], b[0])
    ensures Chronological(a + b)
  {
    forall i | 0 <= i < |a + b| - 1 ensures Before((a + b)[i], (a + b)[i + 1]) {
      if i >= |a| {
        assert (a + b)[i] == b[i - |a|] && (a + b)[i + 1] == b[i - |a| + 1];
      }
    }
  }

  /** Every task is a task of the module on `date`. */
  predicate OnDay(ts: seq<Task>, cfg: Setup, from: int, date: int) {
    forall i :: 0 <= i < |ts| ==> ModuleTask(ts[i], cfg.userId, cfg.moduleId, cfg.ld, from) && ts[i].date == date
  }

  /** A learning day's tasks are in order, are the module's, fit the day and come out of the pool. */
  lemma DayFillFacts(st: State, h: nat, cfg: Setup, from: int)
    requires h > 0 && HoursDistribution.IsLearningDay(cfg.ld, WeekdayOf(st.date)) && from <= st.date
    ensures var f := DayFill(st, h, cfg);
      && Chronological(f.1) && OnDay(f.1, cfg, from, st.date)
      && PoolShrinks(st.pool, f.0)
      && TaskMinutes(f.1) as real <= 60.0 * (PoolHours(st.pool) - PoolHours(f.0))
  {
    var blocks := LearningBlocks.Sessions(cfg.solve(h));
    OrderedSeparated(blocks);
    var single := CountOpen(st.pool) == 1;
    var slot := Slot(cfg.userId, cfg.moduleId, st.date);
    var filled := FillSessions(st.pool, blocks, single, {}, slot);
    assert filled == DayFill(st, h, cfg);
    FillSessionsInSessions(st.pool, blocks, single, {}, slot);
    FillSessionsChronological(st.pool, blocks, single, {}, slot);
    FillSessionsPool(st.pool, blocks, single, {}, slot);
    forall i | 0 <= i < |filled.1| ensures ModuleTask(filled.1[i], cfg.userId, cfg.moduleId, cfg.ld, from) && filled.1[i].date == st.date {
      assert InSlot(filled.1[i], blocks, slot);
      var k :| 0 <= k < |blocks| && filled.1[i].start == blocks[k].start && filled.1[i].end <= blocks[k].end;
    }
  }

  /** A day of study keeps the invariant: its tasks come after the earlier ones. */
  lemma StudyOnKeeps(st: State, h: nat, cfg: Setup, from: int, pool0: seq<PoolEntry>)
    requires h > 0 && HoursDistribution.IsLearningDay(cfg.ld, WeekdayOf(st.date))
    requires Progress(st, cfg, from, pool0)
    ensures Progress(StudyOn(st, h, cfg), cfg, from, pool0)
  {
    var filled := DayFill(st, h, cfg);
    var r := StudyOn(st, h, cfg);
    DayFillFacts(st, h, cfg, from);
    PoolShrinksTrans(pool0, st.pool, filled.0);
    TaskMinutesAppend(st.tasks, filled.1);
    if st.tasks != [] && filled.1 != [] {
      assert st.tasks[|st.tasks| - 1].date < st.date == filled.1[0].date;
    }
    ChronologicalAppend(st.tasks, filled.1);
    ModuleTasksAppend(st.tasks, filled.1, cfg, from, st.date);
  }

  /** The module's tasks before `date` followed by its tasks on `date` are its tasks before the next day. */
  lemma ModuleTasksAppend(a: seq<Task>, b: seq<Task>, cfg: Setup, from: int, date: int)
    requires forall i :: 0 <= i < |a| ==> ModuleTask(a[i], cfg.userId, cfg.moduleId, cfg.ld, from) && a[i].date < date
    requires OnDay(b, cfg, from, date)
    ensures forall i :: 0 <= i < |a + b| ==>
      ModuleTask((a + b)[i], cfg.userId, cfg.moduleId, cfg.ld, from) && (a + b)[i].date < date + 1
  {
    forall i | 0 <= i < |a + b| ensures ModuleTask((a + b)[i], cfg.userId, cfg.moduleId, cfg.ld, from) && (a + b)[i].date < date + 1 {
      if i >= |a| {
        assert (a + b)[i] == b[i - |a|];
      }
    }
  }

  lemma DayStepKeeps(st: State, dist: HoursDistribution.Allocation, cfg: Setup, from: int, pool0: seq<PoolEntry>)
    requires Progress(st, cfg, from, pool0)
    ensures Progress(DayStep(st, dist, cfg), cfg, from, pool0)
  {
    if StudyDay(cfg, dist, st.date) {
      StudyOnKeeps(st, DayHalves(dist, WeekdayOf(st.date)), cfg, from, pool0);
    }
  }

  lemma {:induction false} WeekPassKeeps(st: State, dist: HoursDistribution.Allocation, cfg: Setup, left: nat,
                                         from: int, pool0: seq<PoolEntry>)
    requires Progress(st, cfg, from, pool0)
    ensures Progress(WeekPass(st, dist, cfg, left), cfg, from, pool0)
    decreases left
  {
    if left > 0 {
      DayStepKeeps(st, dist, cfg, from, pool0);
      WeekPassKeeps(DayStep(st, dist, cfg), dist, cfg, left - 1, from, pool0);
    }
  }

  lemma {:induction false} WeeksKeeps(st: State, cfg: Setup, from: int, pool0: seq<PoolEntry>)
    requires Planned(cfg) && Progress(st, cfg, from, pool0)
    ensures Weeks(st, cfg).Ok? ==> Progress(Weeks(st, cfg).value, cfg, from, pool0)
    decreases HoursDistribution.Halves(st.remaining)
  {
    var budget := Numeric.MinR(cfg.weeklyHours, st.remaining);
    if budget >= 0.5 && cfg.plan(budget).Ok? {
      assert WeekShape(cfg.plan(budget), budget, cfg.ld);
      var dist := cfg.plan(budget).value;
      WeekProgress(st, cfg, dist);
      WeekPassKeeps(st, dist, cfg, 7, from, pool0);
      WeeksKeeps(WeekPass(st, dist, cfg, 7), cfg, from, pool0);
    }
  }

  /** The weeks left to the loop as written after one more. */
  function Fewer(fuel: nat): nat
    requires fuel > 0
  {
    fuel - 1
  }

  /**
   * `while hours_remaining > 0` as written, given `fuel` weeks: `None` when the fuel runs
   * out before the loop ends.
   */
  function WeeksAsWritten(fuel: nat, st: State, cfg: Setup): (r: Option<Result<State, HoursDistribution.DistributeError>>)
    ensures r.Some? && r.value.Ok? ==> r.value.value.remaining <= 0.0
    decreases fuel
  {
    if st.remaining <= 0.0 then Some(Ok(st))
    else if fuel == 0 then None
    else
      match cfg.plan(Numeric.MinR(cfg.weeklyHours, st.remaining))
      case Err(e) => Some(Err(e))
      case Ok(dist) => WeeksAsWritten(Fewer(fuel), WeekPass(st, dist, cfg, 7), cfg)
  }

  /**
   * Less than half an hour left of the module, or of the weekly budget, but more than
   * nothing: every week distributes zero hours, no day is studied, and the loop as
   * written never ends, however many weeks it is given.
   */
  lemma {:induction false} AsWrittenNeverEnds(fuel: nat, st: State, cfg: Setup)
    requires Planned(cfg)
    requires 0.0 < st.remaining && Numeric.MinR(cfg.weeklyHours, st.remaining) < 0.5
    ensures WeeksAsWritten(fuel, st, cfg) == None
    decreases fuel
  {
    if fuel > 0 {
      var budget := Numeric.MinR(cfg.weeklyHours, st.remaining);
      assert WeekShape(cfg.plan(budget), budget, cfg.ld);
      var dist := cfg.plan(budget).value;
      WeekPassIdle(st, dist, cfg, 7);
      AsWrittenNeverEnds(Fewer(fuel), WeekPass(st, dist, cfg, 7), cfg);
    }
  }

  /** One week of both loops: with half an hour or more to hand out, each moves on to the next week. */
  lemma WeekOfBoth(fuel: nat, st: State, cfg: Setup)
    requires Planned(cfg) && fuel > 0
    requires Numeric.MinR(cfg.weeklyHours, st.remaining) >= 0.5
    requires cfg.plan(Numeric.MinR(cfg.weeklyHours, st.remaining)).Ok?
    ensures var next := WeekPass(st, cfg.plan(Numeric.MinR(cfg.weeklyHours, st.remaining)).value, cfg, 7);
      && WeeksAsWritten(fuel, st, cfg) == WeeksAsWritten(Fewer(fuel), next, cfg)
      && Weeks(st, cfg) == Weeks(next, cfg)
  {
  }

  /** The week both loops move on to, named without unfolding it. */
  lemma NextWeekOfBoth(fuel: nat, st: State, cfg: Setup) returns (next: State)
    requires Planned(cfg) && fuel > 0
    requires Numeric.MinR(cfg.weeklyHours, st.remaining) >= 0.5
    requires cfg.plan(Numeric.MinR(cfg.weeklyHours, st.remaining)).Ok?
    ensures WeeksAsWritten(fuel, st, cfg) == WeeksAsWritten(Fewer(fuel), next, cfg)
    ensures Weeks(st, cfg) == Weeks(next, cfg)
  {
    WeekOfBoth(fuel, st, cfg);
    next := WeekPass(st, cfg.plan(Numeric.MinR(cfg.weeklyHours, st.remaining)).value, cfg, 7);
  }

  /** A failed plan ends both loops with the plan's error. */
  lemma PlanErrOfBoth(fuel: nat, st: State, cfg: Setup)
    requires Planned(cfg) && fuel > 0
    requires Numeric.MinR(cfg.weeklyHours, st.remaining) >= 0.5
    requires cfg.plan(Numeric.MinR(cfg.weeklyHours, st.remaining)).Err?
    ensures var e := cfg.plan(Numeric.MinR(cfg.weeklyHours, st.remaining)).error;
      WeeksAsWritten(fuel, st, cfg) == Some(Err(e)) && Weeks(st, cfg) == Err(e)
  {
  }

  /** Nothing left of the module ends both loops at once. */
  lemma NothingLeftOfBoth(fuel: nat, st: State, cfg: Setup)
    requires Planned(cfg) && st.remaining <= 0.0
    ensures WeeksAsWritten(fuel, st, cfg) == Some(Ok(st)) && Weeks(st, cfg) == Ok(st)
  {
  }

  /** A week in which the corrected loop hands out hours and the loop as written goes on. */
  predicate HandsOut(fuel: nat, st: State, cfg: Setup) {
    && fuel > 0 && st.remaining > 0.0
    && Numeric.MinR(cfg.weeklyHours, st.remaining) >= 0.5
    && cfg.plan(Numeric.MinR(cfg.weeklyHours, st.remaining)).Ok?
  }

  /** Whenever the loop as written ends, the corrected loop ends the same way. */
  lemma AsWrittenAgrees(fuel: nat, st: State, cfg: Setup)
    requires Planned(cfg)
    requires WeeksAsWritten(fuel, st, cfg).Some?
    ensures WeeksAsWritten(fuel, st, cfg).value == Weeks(st, cfg)
  {
    AgreeFrom(fuel, st, cfg, WeeksAsWritten(fuel, st, cfg), Weeks(st, cfg));
  }

  /** Following both loops week by week from where they end up `asWritten` and `corrected`. */
  lemma AgreeFrom(fuel: nat, st: State, cfg: Setup, asWritten: Option<Result<State, HoursDistribution.DistributeError>>,
                  corrected: Result<State, HoursDistribution.DistributeError>)
    requires Planned(cfg)
    requires WeeksAsWritten(fuel, st, cfg) == asWritten && asWritten.Some?
    requires Weeks(st, cfg) == corrected
    ensures asWritten.value == corrected
  {
    var k, cur := fuel, st;
    while HandsOut(k, cur, cfg)
      invariant WeeksAsWritten(k, cur, cfg) == asWritten
      invariant Weeks(cur, cfg) == corrected
      decreases k
    {
      var next := NextWeekOfBoth(k, cur, cfg);
      k, cur := Fewer(k), next;
    }
    WeekEnds(k, cur, cfg);
  }

  /** Where the corrected loop hands out nothing more, both loops end alike, if the one as written ends. */
  lemma WeekEnds(fuel: nat, st: State, cfg: Setup)
    requires Planned(cfg) && !HandsOut(fuel, st, cfg)
    requires WeeksAsWritten(fuel, st, cfg).Some?
    ensures WeeksAsWritten(fuel, st, cfg).value == Weeks(st, cfg)
  {
    var budget := Numeric.MinR(cfg.weeklyHours, st.remaining);
    if st.remaining <= 0.0 {
      NothingLeftOfBoth(fuel, st, cfg);
    } else if budget < 0.5 {
      AsWrittenNeverEnds(fuel, st, cfg);
    } else if fuel > 0 {
      PlanErrOfBoth(fuel, st, cfg);
    }
  }

  // ---------------------------------------------------------------------------
  // schedule_module and schedule_all_modules
  // ---------------------------------------------------------------------------

  /** What `schedule_module` fixes for one module, the week's hours spread by `Distribute`. */
  function ModuleSetup(m: ModuleSpec, weeklyHours: real, ld: HoursDistribution.LearningDays,
                       userId: int, solve: Solver): (cfg: Setup)
    ensures Planned(cfg) && cfg.ld == ld && cfg.userId == userId && cfg.moduleId == m.id
    ensures cfg.weeklyHours == weeklyHours
  {
    var cfg := Setup(userId, m.id, weeklyHours, ld, solve, b => HoursDistribution.Distribute(b, ld));
    DistributePlanned(cfg);
    cfg
  }

  /** Where the loops start: the start date, the module's total hours, the sorted pool and no tasks. */
  function Start(m: ModuleSpec, startDate: int, suggestions: CourseSelection.Suggestions): State {
    State(startDate, Numeric.Sum(m.durations), CoursePool(m.skills, suggestions), [])
  }

  /**
   * `schedule_module` with the corrected loop. It fails (`distribute_weekly_hours`
   * dividing by zero) exactly when the first week has half an hour to hand out and there
   * are no learning days; otherwise its tasks are in order, are the user's and the
   * module's, lie on learning days from the start date on between 08:00 and 21:00, and
   * take no more minutes than the pool's courses have hours.
   */
  function ScheduleModule(m: ModuleSpec, startDate: int, weeklyHours: real, ld: HoursDistribution.LearningDays,
                          suggestions: CourseSelection.Suggestions, userId: int, solve: Solver)
    : (r: Result<seq<Task>, HoursDistribution.DistributeError>)
    ensures r.Err? <==>
      Numeric.MinR(weeklyHours, Numeric.Sum(m.durations)) >= 0.5 && HoursDistribution.ActiveDays(ld) == []
    ensures r.Ok? ==> Chronological(r.value)
    ensures r.Ok? ==> forall i :: 0 <= i < |r.value| ==> ModuleTask(r.value[i], userId, m.id, ld, startDate)
    ensures r.Ok? ==> TaskMinutes(r.value) as real <= 60.0 * OpenHours(CoursePool(m.skills, suggestions))
  {
    var cfg := ModuleSetup(m, weeklyHours, ld, userId, solve);
    var st := Start(m, startDate, suggestions);
    WeeksOutcome(st, cfg);
    WeeksKeeps(st, cfg, startDate, st.pool);
    match Weeks(st, cfg)
    case Err(e) => Err(e)
    case Ok(fin) =>
      PoolLossBounded(st.pool, fin.pool);
      Ok(fin.tasks)
  }

  /** `schedule_module` as written, given `fuel` weeks; `None` when they are not enough. */
  function ScheduleModuleAsWritten(fuel: nat, m: ModuleSpec, startDate: int, weeklyHours: real,
                                   ld: HoursDistribution.LearningDays, suggestions: CourseSelection.Suggestions,
                                   userId: int, solve: Solver): Option<Result<seq<Task>, HoursDistribution.DistributeError>>
  {
    match WeeksAsWritten(fuel, Start(m, startDate, suggestions), ModuleSetup(m, weeklyHours, ld, userId, solve))
    case None => None
    case Some(Err(e)) => Some(Err(e))
    case Some(Ok(fin)) => Some(Ok(fin.tasks))
  }

  /** When `schedule_module` as written returns, it returns what the corrected one does. */
  lemma ScheduleModuleAgrees(fuel: nat, m: ModuleSpec, startDate: int, weeklyHours: real,
                             ld: HoursDistribution.LearningDays, suggestions: CourseSelection.Suggestions,
                             userId: int, solve: Solver)
    requires ScheduleModuleAsWritten(fuel, m, startDate, weeklyHours, ld, suggestions, userId, solve).Some?
    ensures ScheduleModuleAsWritten(fuel, m, startDate, weeklyHours, ld, suggestions, userId, solve).value
      == ScheduleModule(m, startDate, weeklyHours, ld, suggestions, userId, solve)
  {
    AsWrittenAgrees(fuel, Start(m, startDate, suggestions), ModuleSetup(m, weeklyHours, ld, userId, solve));
  }

  /**
   * A module with some but less than half an hour in all, or a weekly budget under half
   * an hour: `schedule_module` as written never returns, while the corrected one returns
   * no tasks.
   */
  lemma ScheduleModuleHangs(fuel: nat, m: ModuleSpec, startDate: int, weeklyHours: real,
                            ld: HoursDistribution.LearningDays, suggestions: CourseSelection.Suggestions,
                            userId: int, solve: Solver)
    requires 0.0 < Numeric.Sum(m.durations) && Numeric.MinR(weeklyHours, Numeric.Sum(m.durations)) < 0.5
    ensures ScheduleModuleAsWritten(fuel, m, startDate, weeklyHours, ld, suggestions, userId, solve).None?
    ensures ScheduleModule(m, startDate, weeklyHours, ld, suggestions, userId, solve) == Ok([])
  {
    var cfg := ModuleSetup(m, weeklyHours, ld, userId, solve);
    AsWrittenNeverEnds(fuel, Start(m, startDate, suggestions), cfg);
  }

  /** A one-skill module of 0.2 hours, as `assign_module_durations` rounds a small share. */
  lemma SmallModuleHangs(fuel: nat, ld: HoursDistribution.LearningDays, suggestions: CourseSelection.Suggestions, solve: Solver)
    ensures ScheduleModuleAsWritten(fuel, ModuleSpec(1, ["python"], [0.2]), 0, 10.0, ld, suggestions, 1, solve).None?
  {
    var m := ModuleSpec(1, ["python"], [0.2]);
    assert Numeric.Sum(m.durations) == 0.2;
    ScheduleModuleHangs(fuel, m, 0, 10.0, ld, suggestions, 1, solve);
  }

  /** Tasks of the user, on learning days from `from` on, between 08:00 and 21:00, each of one of the modules. */
  predicate PlanTasks(ts: seq<Task>, modules: seq<ModuleSpec>, userId: int, ld: HoursDistribution.LearningDays, from: int) {
    forall i :: 0 <= i < |ts| ==> OfSomeModule(ts[i], modules, userId, ld, from)
  }

  predicate OfSomeModule(t: Task, modules: seq<ModuleSpec>, userId: int, ld: HoursDistribution.LearningDays, from: int) {
    exists k :: 0 <= k < |modules| && ModuleTask(t, userId, modules[k].id, ld, from)
  }

  /** Some module would make `distribute_weekly_hours` divide by zero. */
  predicate SomeModuleFails(modules: seq<ModuleSpec>, weeklyHours: real, ld: HoursDistribution.LearningDays) {
    exists k :: 0 <= k < |modules| &&
      Numeric.MinR(weeklyHours, Numeric.Sum(modules[k].durations)) >= 0.5 && HoursDistribution.ActiveDays(ld) == []
  }

  lemma FailsSplit(modules: seq<ModuleSpec>, weeklyHours: real, ld: HoursDistribution.LearningDays)
    requires modules != []
    ensures SomeModuleFails(modules, weeklyHours, ld) <==>
      (Numeric.MinR(weeklyHours, Numeric.Sum(modules[0].durations)) >= 0.5 && HoursDistribution.ActiveDays(ld) == [])
      || SomeModuleFails(modules[1..], weeklyHours, ld)
  {
    if SomeModuleFails(modules[1..], weeklyHours, ld) {
      var k :| 0 <= k < |modules[1..]| && Numeric.MinR(weeklyHours, Numeric.Sum(modules[1..][k].durations)) >= 0.5
        && HoursDistribution.ActiveDays(ld) == [];
      assert modules[k + 1] == modules[1..][k];
    }
    if SomeModuleFails(modules, weeklyHours, ld) {
      var k :| 0 <= k < |modules| && Numeric.MinR(weeklyHours, Numeric.Sum(modules[k].durations)) >= 0.5
        && HoursDistribution.ActiveDays(ld) == [];
      if k > 0 {
        assert modules[1..][k - 1] == modules[k];
      }
    }
  }

  /** The first module's tasks, then the later modules' tasks from the day after its last one. */
  lemma AllAfter(ts: seq<Task>, rest: seq<Task>, modules: seq<ModuleSpec>, userId: int,
                 ld: HoursDistribution.LearningDays, from: int, next: int)
    requires modules != []
    requires Chronological(ts) && forall i :: 0 <= i < |ts| ==> ModuleTask(ts[i], userId, modules[0].id, ld, from)
    requires next == NextStart(ts, from)
    requires Chronological(rest) && PlanTasks(rest, modules[1..], userId, ld, next)
    ensures Chronological(ts + rest) && PlanTasks(ts + rest, modules, userId, ld, from)
  {
    if ts != [] && rest != [] {
      assert OfSomeModule(rest[0], modules[1..], userId, ld, next);
      var k :| 0 <= k < |modules[1..]| && ModuleTask(rest[0], userId, modules[1..][k].id, ld, next);
      assert Before(ts[|ts| - 1], rest[0]);
    }
    ChronologicalAppend(ts, rest);
    var all := ts + rest;
    forall i | 0 <= i < |all| ensures OfSomeModule(all[i], modules, userId, ld, from) {
      if i < |ts| {
        assert all[i] == ts[i];
        assert ModuleTask(all[i], userId, modules[0].id, ld, from);
      } else {
        var t := rest[i - |ts|];
        assert all[i] == t;
        assert OfSomeModule(t, modules[1..], userId, ld, next);
        var k :| 0 <= k < |modules[1..]| && ModuleTask(t, userId, modules[1..][k].id, ld, next);
        assert ModuleTask(t, userId, modules[k + 1].id, ld, from);
      }
    }
    assert PlanTasks(all, modules, userId, ld, from);
  }

  /** Chronological tasks never go back in date. */
  lemma {:induction false} ChronologicalDates(ts: seq<Task>)
    requires Chronological(ts)
    ensures forall i, j :: 0 <= i <= j < |ts| ==> ts[i].date <= ts[j].date
  {
    if |ts| > 1 {
      ChronologicalDates(ts[1..]);
      forall i, j | 0 <= i <= j < |ts| ensures ts[i].date <= ts[j].date {
        if i > 0 {
          assert ts[i] == ts[1..][i - 1] && ts[j] == ts[1..][j - 1];
        } else if j > 0 {
          assert ts[1] == ts[1..][0] && ts[j] == ts[1..][j - 1];
          assert Before(ts[0], ts[1]);
        }
      }
    }
  }

  /**
   * `current_date` after a module: the day after its last task, or unchanged when it got
   * none. Every task of the module lies before it.
   */
  function NextStart(ts: seq<Task>, from: int): (r: int)
    requires Chronological(ts)
    ensures ts == [] ==> r == from
    ensures forall i :: 0 <= i < |ts| ==> ts[i].date < r
  {
    if ts == [] then from
    else
      ChronologicalDates(ts);
      ts[|ts| - 1].date + 1
  }

  /**
   * `schedule_all_modules`: the modules one after another, each starting the day after
   * the last task of the one before (or where that one started, if it got no tasks).
   * The error of any module is the error of the whole; otherwise the tasks are in order.
   */
  function ScheduleAll(modules: seq<ModuleSpec>, startDate: int, weeklyHours: real, ld: HoursDistribution.LearningDays,
                       suggestions: CourseSelection.Suggestions, userId: int, solve: Solver)
    : (r: Result<seq<Task>, HoursDistribution.DistributeError>)
    ensures r.Err? <==> SomeModuleFails(modules, weeklyHours, ld)
    ensures r.Ok? ==> Chronological(r.value) && PlanTasks(r.value, modules, userId, ld, startDate)
    decreases |modules|
  {
    if modules == [] then Ok([])
    else
      FailsSplit(modules, weeklyHours, ld);
      match ScheduleModule(modules[0], startDate, weeklyHours, ld, suggestions, userId, solve)
      case Err(e) => Err(e)
      case Ok(ts) =>
        var next := NextStart(ts, startDate);
        match ScheduleAll(modules[1..], next, weeklyHours, ld, suggestions, userId, solve)
        case Err(e) => Err(e)
        case Ok(rest) =>
          AllAfter(ts, rest, modules, userId, ld, startDate, next);
          Ok(ts + rest)
  }
}
