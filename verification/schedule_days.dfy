/**
 * What the days of `schedule_module` look like, read off its tasks: each task starts a
 * session of the solver's plan for its day and ends inside it, no two tasks overlap, a
 * course is studied twice on one day only when it is the one course left, and no course
 * gets more minutes than it has hours. And how `schedule_all_modules` keeps modules apart.
 */
module ScheduleDays {
  import opened Wrappers
  import opened ModuleScheduling
  import opened Calendar
  import Numeric
  import HoursDistribution
  import LearningBlocks
  import CourseSelection

  // ---------------------------------------------------------------------------
  // Course titles on one day
  // ---------------------------------------------------------------------------

  /** Every task is of the course titled `x`. */
  predicate OneTitle(ts: seq<Task>, x: string) {
    forall i :: 0 <= i < |ts| ==> ts[i].title == x
  }

  /** No course twice. */
  predicate DistinctTitles(ts: seq<Task>) {
    forall i, j :: 0 <= i < j < |ts| ==> ts[i].title != ts[j].title
  }

  /** The course at `k` is the only one that may still have half an hour of material. */
  predicate OnlyOpen(pool: seq<PoolEntry>, k: nat) {
    k < |pool| && forall j :: 0 <= j < |pool| && j != k ==> pool[j].remaining < 0.5
  }

  lemma {:induction false} NoneOpen(pool: seq<PoolEntry>)
    requires CountOpen(pool) == 0
    ensures forall j :: 0 <= j < |pool| ==> pool[j].remaining < 0.5
  {
    if pool != [] {
      NoneOpen(pool[1..]);
      forall j | 1 <= j < |pool| ensures pool[j].remaining < 0.5 {
        assert pool[j] == pool[1..][j - 1];
      }
    }
  }

  /** `len(single_course_remaining) == 1` names the one course left. */
  lemma {:induction false} OneOpen(pool: seq<PoolEntry>) returns (k: nat)
    requires CountOpen(pool) == 1
    ensures OnlyOpen(pool, k) && pool[k].remaining >= 0.5
  {
    if pool[0].remaining >= 0.5 {
      NoneOpen(pool[1..]);
      k := 0;
      forall j | 1 <= j < |pool| ensures pool[j].remaining < 0.5 {
        assert pool[j] == pool[1..][j - 1];
      }
    } else {
      var k' := OneOpen(pool[1..]);
      k := k' + 1;
      assert pool[k] == pool[1..][k'];
      forall j | 0 <= j < |pool| && j != k ensures pool[j].remaining < 0.5 {
        if j > 0 {
          assert pool[j] == pool[1..][j - 1];
        }
      }
    }
  }

  /** Studying the one course left leaves it the one course left. */
  lemma ConsumeOnly(pool: seq<PoolEntry>, k: nat, s: Session)
    requires OnlyOpen(pool, k)
    ensures OnlyOpen(Consume(pool, k, s), k) && Consume(pool, k, s)[k].course == pool[k].course
  {
    var pool' := Consume(pool, k, s);
    forall j | 0 <= j < |pool'| && j != k ensures pool'[j].remaining < 0.5 {
      assert pool'[j] == pool[j];
    }
  }

  /** With one course left to study, every session of the day goes to that course. */
  lemma {:induction false} FillSessionsSingle(pool: seq<PoolEntry>, blocks: seq<Session>, used: set<string>,
                                              slot: Slot, k: nat)
    requires ProperSessions(blocks) && OnlyOpen(pool, k)
    ensures OneTitle(FillSessions(pool, blocks, true, used, slot).1, pool[k].course.title)
    decreases |blocks|
  {
    if blocks != [] {
      match FirstEligible(pool, true, used, 0)
      case None =>
        Skipped(pool, blocks, true, used, slot);
        FillSessionsSingle(pool, blocks[1..], used, slot, k);
      case Some(k0) =>
        assert k0 == k;
        var pool' := Consume(pool, k, blocks[0]);
        var used' := used + {pool[k].course.title};
        var r := Placed(pool, blocks, true, used, slot, k);
        ConsumeOnly(pool, k, blocks[0]);
        FillSessionsSingle(pool', blocks[1..], used', slot, k);
        var tail := FillSessions(pool', blocks[1..], true, used', slot).1;
        assert r.1[0].title == pool[k].course.title;
        assert forall i :: 1 <= i < |r.1| ==> r.1[i] == tail[i - 1];
    }
  }

  /**
   * A day's courses (`used_today` and `single_course_allowed`): with more or fewer than
   * one course left with half an hour of material, no title comes twice; with exactly
   * one, every session of the day is of that course.
   */
  lemma DayTitles(pool: seq<PoolEntry>, blocks: seq<Session>, slot: Slot)
    requires ProperSessions(blocks)
    ensures var ts := FillSessions(pool, blocks, CountOpen(pool) == 1, {}, slot).1;
      && (CountOpen(pool) != 1 ==> DistinctTitles(ts))
      && (CountOpen(pool) == 1 ==> exists k: nat :: OnlyOpen(pool, k) && OneTitle(ts, pool[k].course.title))
  {
    if CountOpen(pool) == 1 {
      var k := OneOpen(pool);
      FillSessionsSingle(pool, blocks, {}, slot, k);
    } else {
      FillSessionsDistinctTitles(pool, blocks, {}, slot);
    }
  }

  /** A day's tasks: all of different courses, or all of one. */
  predicate SameDayTitles(ts: seq<Task>) {
    DistinctTitles(ts) || (|ts| > 0 && OneTitle(ts, ts[0].title))
  }

  /** The tasks on `date` are all of the course titled `x`. */
  predicate OneTitleOn(ts: seq<Task>, date: int, x: string) {
    forall k :: 0 <= k < |ts| && ts[k].date == date ==> ts[k].title == x
  }

  /** If tasks `i` and `j` are of one course on one day, every task of that day is of that course. */
  predicate TitlePair(ts: seq<Task>, i: int, j: int) {
    0 <= i < j < |ts| && ts[i].date == ts[j].date && ts[i].title == ts[j].title ==>
      OneTitleOn(ts, ts[i].date, ts[i].title)
  }

  /** A course comes twice on a day only when every task of that day is of that course. */
  predicate DailyTitles(ts: seq<Task>) {
    forall i, j :: 0 <= i < j < |ts| ==> TitlePair(ts, i, j)
  }

  /** The tasks before `date` followed by a day of tasks on `date`. */
  lemma DailyTitlesAppend(a: seq<Task>, b: seq<Task>, date: int)
    requires DailyTitles(a) && SameDayTitles(b)
    requires forall i :: 0 <= i < |a| ==> a[i].date < date
    requires forall j :: 0 <= j < |b| ==> b[j].date == date
    ensures DailyTitles(a + b)
  {
    var ab := a + b;
    forall i, j ensures TitlePair(ab, i, j) {
      if 0 <= i < j < |ab| && ab[i].date == ab[j].date && ab[i].title == ab[j].title {
        if j < |a| {
          assert ab[i] == a[i] && ab[j] == a[j];
          assert TitlePair(a, i, j);
          forall k | 0 <= k < |ab| && ab[k].date == ab[i].date ensures ab[k].title == ab[i].title {
            if k < |a| {
              assert ab[k] == a[k];
            }
          }
        } else if i >= |a| {
          assert ab[i] == b[i - |a|] && ab[j] == b[j - |a|];
          assert !DistinctTitles(b);
          forall k | 0 <= k < |ab| && ab[k].date == ab[i].date ensures ab[k].title == ab[i].title {
            if k >= |a| {
              assert ab[k] == b[k - |a|];
            }
          }
        }
      }
    }
  }

  // ---------------------------------------------------------------------------
  // Sessions of the day
  // ---------------------------------------------------------------------------

  /** The tasks on `date` each start one of `blocks` and end inside it. */
  predicate DayIn(ts: seq<Task>, date: int, blocks: seq<Session>) {
    forall j :: 0 <= j < |ts| && ts[j].date == date ==> InSomeSession(ts[j], blocks)
  }

  /** The tasks on the day of task `i` lie in the sessions the solver plans for some number of half hours. */
  ghost predicate DayPlanned(ts: seq<Task>, i: int, solve: Solver) {
    0 <= i < |ts| ==> exists h: nat :: h > 0 && DayIn(ts, ts[i].date, LearningBlocks.Sessions(solve(h)))
  }

  /** Each day's tasks lie in the sessions of one of the solver's plans. */
  ghost predicate InSolverBlocks(ts: seq<Task>, solve: Solver) {
    forall i :: DayPlanned(ts, i, solve)
  }

  /** A day of tasks in the solver's sessions for `h` half hours, after the tasks before it. */
  lemma SolverBlocksAppend(a: seq<Task>, b: seq<Task>, date: int, solve: Solver, h: nat)
    requires h > 0 && InSolverBlocks(a, solve)
    requires forall i :: 0 <= i < |a| ==> a[i].date < date
    requires forall j :: 0 <= j < |b| ==> b[j].date == date && InSomeSession(b[j], LearningBlocks.Sessions(solve(h)))
    ensures InSolverBlocks(a + b, solve)
  {
    var ab := a + b;
    var blocks := LearningBlocks.Sessions(solve(h));
    forall i ensures DayPlanned(ab, i, solve) {
      if 0 <= i < |a| {
        assert ab[i] == a[i];
        assert DayPlanned(a, i, solve);
        var g: nat :| g > 0 && DayIn(a, a[i].date, LearningBlocks.Sessions(solve(g)));
        forall k | 0 <= k < |ab| && ab[k].date == a[i].date
          ensures InSomeSession(ab[k], LearningBlocks.Sessions(solve(g)))
        {
          if k < |a| {
            assert ab[k] == a[k];
          }
        }
        assert DayIn(ab, ab[i].date, LearningBlocks.Sessions(solve(g)));
      } else if |a| <= i < |ab| {
        assert ab[i] == b[i - |a|];
        forall k | 0 <= k < |ab| && ab[k].date == date ensures InSomeSession(ab[k], blocks) {
          if k >= |a| {
            assert ab[k] == b[k - |a|];
          }
        }
        assert DayIn(ab, ab[i].date, blocks);
      }
    }
  }

  /** Task `b` never starts before `a` is over, given that `b` has positive length. */
  lemma BeforeTrans(a: Task, b: Task, c: Task)
    requires Before(a, b) && Before(b, c) && b.start < b.end
    ensures Before(a, c)
  {
  }

  /** In chronological tasks of positive length, every task is over before any later one starts. */
  lemma {:induction false} ChronologicalOrdered(ts: seq<Task>)
    requires Chronological(ts)
    requires forall i :: 0 <= i < |ts| ==> ts[i].start < ts[i].end
    ensures forall i, j :: 0 <= i < j < |ts| ==> Before(ts[i], ts[j])
  {
    if |ts| > 1 {
      ChronologicalOrdered(ts[1..]);
      forall i, j | 0 <= i < j < |ts| ensures Before(ts[i], ts[j]) {
        if i > 0 {
          assert ts[i] == ts[1..][i - 1] && ts[j] == ts[1..][j - 1];
        } else if j > 1 {
          assert ts[1] == ts[1..][0] && ts[j] == ts[1..][j - 1];
          BeforeTrans(ts[0], ts[1], ts[j]);
        }
      }
    }
  }

  // ---------------------------------------------------------------------------
  // Hours of each course
  // ---------------------------------------------------------------------------

  /** Minutes of the tasks of the course titled `x`. */
  function TitleMinutes(ts: seq<Task>, x: string): int {
    if ts == [] then 0 else (if ts[0].title == x then ts[0].end - ts[0].start else 0) + TitleMinutes(ts[1..], x)
  }

  /** Hours left in the pool's entries of the course titled `x`. */
  function TitleHours(pool: seq<PoolEntry>, x: string): real {
    if pool == [] then 0.0 else (if pool[0].course.title == x then pool[0].remaining else 0.0) + TitleHours(pool[1..], x)
  }

  /** Hours the pool's entries of the course titled `x` can still give. */
  function TitleOpen(pool: seq<PoolEntry>, x: string): real {
    if pool == [] then 0.0
    else (if pool[0].course.title == x then Numeric.MaxR(pool[0].remaining, 0.0) else 0.0) + TitleOpen(pool[1..], x)
  }

  lemma {:induction false} TitleMinutesAppend(a: seq<Task>, b: seq<Task>, x: string)
    ensures TitleMinutes(a + b, x) == TitleMinutes(a, x) + TitleMinutes(b, x)
  {
    if a != [] {
      TitleMinutesAppend(a[1..], b, x);
      assert (a + b)[1..] == a[1..] + b;
    } else {
      assert a + b == b;
    }
  }

  lemma {:induction false} TitleHoursUpdate(pool: seq<PoolEntry>, k: nat, v: real, x: string)
    requires k < |pool|
    ensures TitleHours(pool[k := pool[k].(remaining := v)], x)
      == TitleHours(pool, x) - (if pool[k].course.title == x then pool[k].remaining - v else 0.0)
  {
    if k > 0 {
      TitleHoursUpdate(pool[1..], k - 1, v, x);
      assert pool[k := pool[k].(remaining := v)][1..] == pool[1..][k - 1 := pool[k].(remaining := v)];
    }
  }

  /** A shrinking pool loses at most the hours its entries of `x` could give. */
  lemma {:induction false} TitleLossBounded(before: seq<PoolEntry>, after: seq<PoolEntry>, x: string)
    requires PoolShrinks(before, after)
    ensures TitleHours(before, x) - TitleHours(after, x) <= TitleOpen(before, x)
  {
    if before != [] {
      TitleLossBounded(before[1..], after[1..], x);
    }
  }

  /** Placing one task takes its minutes, and no more, off the hours of its course. */
  lemma PlaceOneTitle(pool: seq<PoolEntry>, k0: nat, s: Session, slot: Slot, x: string)
    requires k0 < |pool| && pool[k0].remaining >= 0.5 && s.start < s.end
    ensures var t := PlacedTask(pool[k0], s, slot);
      (if t.title == x then (t.end - t.start) as real else 0.0)
        <= 60.0 * (TitleHours(pool, x) - TitleHours(Consume(pool, k0, s), x))
  {
    var alloc := Numeric.MinR(pool[k0].remaining, SessionHours(s));
    AllocationFits(pool[k0], s);
    var v := pool[k0].remaining - alloc;
    TitleHoursUpdate(pool, k0, v, x);
    assert Consume(pool, k0, s) == pool[k0 := pool[k0].(remaining := v)];
    var t := PlacedTask(pool[k0], s, slot);
    assert t.title == pool[k0].course.title;
    assert t.end - t.start == AllocatedMinutes(alloc);
    assert AllocatedMinutes(alloc) as real <= alloc * 60.0;
  }

  /** A day's sessions give each course no more minutes than the hours taken off it. */
  lemma {:induction false} FillSessionsTitle(pool: seq<PoolEntry>, blocks: seq<Session>, single: bool,
                                             used: set<string>, slot: Slot, x: string)
    requires ProperSessions(blocks)
    ensures var r := FillSessions(pool, blocks, single, used, slot);
      TitleMinutes(r.1, x) as real <= 60.0 * (TitleHours(pool, x) - TitleHours(r.0, x))
    decreases |blocks|
  {
    if blocks != [] {
      match FirstEligible(pool, single, used, 0)
      case None =>
        Skipped(pool, blocks, single, used, slot);
        FillSessionsTitle(pool, blocks[1..], single, used, slot, x);
      case Some(k0) =>
        var pool' := Consume(pool, k0, blocks[0]);
        var used' := used + {pool[k0].course.title};
        var r := Placed(pool, blocks, single, used, slot, k0);
        FillSessionsTitle(pool', blocks[1..], single, used', slot, x);
        PlaceOneTitle(pool, k0, blocks[0], slot, x);
        var tail := FillSessions(pool', blocks[1..], single, used', slot).1;
        assert r.1[1..] == tail;
        assert r.1[0] == PlacedTask(pool[k0], blocks[0], slot);
    }
  }

  // ---------------------------------------------------------------------------
  // Through the weeks
  // ---------------------------------------------------------------------------

  /**
   * What the loops keep: the tasks lie before the current date, titles per day, the
   * solver's sessions, and the minutes of course `x` out of the hours it has lost since `pool0`.
   */
  ghost predicate DaysKept(st: State, cfg: Setup, pool0: seq<PoolEntry>, x: string) {
    && (forall i :: 0 <= i < |st.tasks| ==> st.tasks[i].date < st.date)
    && DailyTitles(st.tasks)
    && InSolverBlocks(st.tasks, cfg.solve)
    && TitleMinutes(st.tasks, x) as real <= 60.0 * (TitleHours(pool0, x) - TitleHours(st.pool, x))
  }

  /** A day's tasks: all on the day, in the solver's sessions, titled as the day allows, and out of the pool. */
  lemma DayFillDays(st: State, h: nat, cfg: Setup, x: string)
    requires h > 0
    ensures var f := DayFill(st, h, cfg);
      && (forall j :: 0 <= j < |f.1| ==>
            f.1[j].date == st.date && InSomeSession(f.1[j], LearningBlocks.Sessions(cfg.solve(h))))
      && SameDayTitles(f.1)
      && TitleMinutes(f.1, x) as real <= 60.0 * (TitleHours(st.pool, x) - TitleHours(f.0, x))
  {
    var blocks := LearningBlocks.Sessions(cfg.solve(h));
    OrderedSeparated(blocks);
    var single := CountOpen(st.pool) == 1;
    var slot := Slot(cfg.userId, cfg.moduleId, st.date);
    var f := FillSessions(st.pool, blocks, single, {}, slot);
    assert f == DayFill(st, h, cfg);
    FillSessionsInSessions(st.pool, blocks, single, {}, slot);
    DayTitles(st.pool, blocks, slot);
    if single && f.1 != [] {
      var k: nat :| OnlyOpen(st.pool, k) && OneTitle(f.1, st.pool[k].course.title);
      assert f.1[0].title == st.pool[k].course.title;
    }
    FillSessionsTitle(st.pool, blocks, single, {}, slot, x);
  }

  lemma StudyOnDays(st: State, h: nat, cfg: Setup, pool0: seq<PoolEntry>, x: string)
    requires h > 0 && DaysKept(st, cfg, pool0, x)
    ensures DaysKept(StudyOn(st, h, cfg), cfg, pool0, x)
  {
    var f := DayFill(st, h, cfg);
    DayFillDays(st, h, cfg, x);
    var r := StudyOn(st, h, cfg);
    assert r.tasks == st.tasks + f.1 && r.pool == f.0;
    TitleMinutesAppend(st.tasks, f.1, x);
    DailyTitlesAppend(st.tasks, f.1, st.date);
    SolverBlocksAppend(st.tasks, f.1, st.date, cfg.solve, h);
    forall i | 0 <= i < |r.tasks| ensures r.tasks[i].date < r.date {
      if i >= |st.tasks| {
        assert r.tasks[i] == f.1[i - |st.tasks|];
      }
    }
  }

  lemma DayStepDays(st: State, dist: HoursDistribution.Allocation, cfg: Setup, pool0: seq<PoolEntry>, x: string)
    requires DaysKept(st, cfg, pool0, x)
    ensures DaysKept(DayStep(st, dist, cfg), cfg, pool0, x)
  {
    if StudyDay(cfg, dist, st.date) {
      StudyOnDays(st, DayHalves(dist, WeekdayOf(st.date)), cfg, pool0, x);
    }
  }

  lemma {:induction false} WeekPassDays(st: State, dist: HoursDistribution.Allocation, cfg: Setup, left: nat,
                                        pool0: seq<PoolEntry>, x: string)
    requires DaysKept(st, cfg, pool0, x)
    ensures DaysKept(WeekPass(st, dist, cfg, left), cfg, pool0, x)
    decreases left
  {
    if left > 0 {
      var next := DayStep(st, dist, cfg);
      DayStepDays(st, dist, cfg, pool0, x);
      WeekPassDays(next, dist, cfg, left - 1, pool0, x);
      WeekPassDaysStep(st, dist, cfg, left, pool0, x, next, WeekPass(next, dist, cfg, left - 1));
    }
  }

  /** A pass ends on the next day or where the rest of the pass ends. */
  lemma WeekPassDaysStep(st: State, dist: HoursDistribution.Allocation, cfg: Setup, left: nat,
                         pool0: seq<PoolEntry>, x: string, next: State, rest: State)
    requires left > 0 && next == DayStep(st, dist, cfg) && rest == WeekPass(next, dist, cfg, left - 1)
    requires DaysKept(next, cfg, pool0, x) && DaysKept(rest, cfg, pool0, x)
    ensures DaysKept(WeekPass(st, dist, cfg, left), cfg, pool0, x)
  {
  }

  lemma {:induction false} WeeksDays(st: State, cfg: Setup, pool0: seq<PoolEntry>, x: string)
    requires Planned(cfg) && DaysKept(st, cfg, pool0, x)
    ensures Weeks(st, cfg).Ok? ==> DaysKept(Weeks(st, cfg).value, cfg, pool0, x)
    decreases HoursDistribution.Halves(st.remaining)
  {
    var budget := Numeric.MinR(cfg.weeklyHours, st.remaining);
    if budget >= 0.5 && cfg.plan(budget).Ok? {
      assert WeekShape(cfg.plan(budget), budget, cfg.ld);
      var dist := cfg.plan(budget).value;
      WeekProgress(st, cfg, dist);
      WeekPassDays(st, dist, cfg, 7, pool0, x);
      WeeksDays(WeekPass(st, dist, cfg, 7), cfg, pool0, x);
    }
  }

  /** The state `schedule_module` ends in, with what the loops kept. */
  lemma ModuleEnd(m: ModuleSpec, startDate: int, weeklyHours: real, ld: HoursDistribution.LearningDays,
                  suggestions: CourseSelection.Suggestions, userId: int, solve: Solver, x: string)
    returns (fin: State)
    ensures var r := ScheduleModule(m, startDate, weeklyHours, ld, suggestions, userId, solve);
      var cfg := ModuleSetup(m, weeklyHours, ld, userId, solve);
      var pool0 := CoursePool(m.skills, suggestions);
      r.Ok? ==> r.value == fin.tasks && Progress(fin, cfg, startDate, pool0) && DaysKept(fin, cfg, pool0, x)
  {
    var cfg := ModuleSetup(m, weeklyHours, ld, userId, solve);
    var st := Start(m, startDate, suggestions);
    WeeksKeeps(st, cfg, startDate, st.pool);
    WeeksDays(st, cfg, st.pool, x);
    fin := if Weeks(st, cfg).Ok? then Weeks(st, cfg).value else st;
  }

  // ---------------------------------------------------------------------------
  // schedule_module and schedule_all_modules
  // ---------------------------------------------------------------------------

  /** `schedule_module` studies a course twice on one day only when every task of that day is of that course. */
  lemma ScheduleModuleTitles(m: ModuleSpec, startDate: int, weeklyHours: real, ld: HoursDistribution.LearningDays,
                             suggestions: CourseSelection.Suggestions, userId: int, solve: Solver)
    ensures var r := ScheduleModule(m, startDate, weeklyHours, ld, suggestions, userId, solve);
      r.Ok? ==> DailyTitles(r.value)
  {
    var fin := ModuleEnd(m, startDate, weeklyHours, ld, suggestions, userId, solve, "");
  }

  /**
   * Every task of `schedule_module` starts one of the sessions the solver plans for its
   * day and ends inside it, and no two tasks overlap: one course per session.
   */
  lemma ScheduleModuleBlocks(m: ModuleSpec, startDate: int, weeklyHours: real, ld: HoursDistribution.LearningDays,
                             suggestions: CourseSelection.Suggestions, userId: int, solve: Solver)
    ensures var r := ScheduleModule(m, startDate, weeklyHours, ld, suggestions, userId, solve);
      && (r.Ok? ==> InSolverBlocks(r.value, solve))
      && (r.Ok? ==> forall i, j :: 0 <= i < j < |r.value| ==> Before(r.value[i], r.value[j]))
  {
    var fin := ModuleEnd(m, startDate, weeklyHours, ld, suggestions, userId, solve, "");
    var r := ScheduleModule(m, startDate, weeklyHours, ld, suggestions, userId, solve);
    if r.Ok? {
      ChronologicalOrdered(r.value);
    }
  }

  /** `schedule_module` gives no course more minutes than the pool's entries of it have hours. */
  lemma ScheduleModuleCourseHours(m: ModuleSpec, startDate: int, weeklyHours: real, ld: HoursDistribution.LearningDays,
                                  suggestions: CourseSelection.Suggestions, userId: int, solve: Solver, x: string)
    ensures var r := ScheduleModule(m, startDate, weeklyHours, ld, suggestions, userId, solve);
      r.Ok? ==> TitleMinutes(r.value, x) as real <= 60.0 * TitleOpen(CoursePool(m.skills, suggestions), x)
  {
    var fin := ModuleEnd(m, startDate, weeklyHours, ld, suggestions, userId, solve, x);
    var r := ScheduleModule(m, startDate, weeklyHours, ld, suggestions, userId, solve);
    if r.Ok? {
      TitleLossBounded(CoursePool(m.skills, suggestions), fin.pool, x);
    }
  }

  /** Tasks of different modules are on different days, the earlier module's first. */
  predicate ModulesApart(ts: seq<Task>) {
    forall i, j :: 0 <= i < j < |ts| && ts[i].moduleId != ts[j].moduleId ==> ts[i].date < ts[j].date
  }

  lemma ModulesApartAppend(a: seq<Task>, b: seq<Task>, next: int)
    requires forall i, j :: 0 <= i < j < |a| ==> a[i].moduleId == a[j].moduleId
    requires forall i :: 0 <= i < |a| ==> a[i].date < next
    requires forall j :: 0 <= j < |b| ==> next <= b[j].date
    requires ModulesApart(b)
    ensures ModulesApart(a + b)
  {
    var ab := a + b;
    forall i, j | 0 <= i < j < |ab| && ab[i].moduleId != ab[j].moduleId ensures ab[i].date < ab[j].date {
      if i >= |a| {
        assert ab[i] == b[i - |a|] && ab[j] == b[j - |a|];
      } else if j >= |a| {
        assert ab[i] == a[i] && ab[j] == b[j - |a|];
      }
    }
  }

  lemma PlanTasksFrom(ts: seq<Task>, modules: seq<ModuleSpec>, userId: int, ld: HoursDistribution.LearningDays, from: int)
    requires PlanTasks(ts, modules, userId, ld, from)
    ensures forall j :: 0 <= j < |ts| ==> from <= ts[j].date
  {
    forall j | 0 <= j < |ts| ensures from <= ts[j].date {
      assert OfSomeModule(ts[j], modules, userId, ld, from);
    }
  }

  /**
   * `schedule_all_modules` starts each module the day after the last task of the one
   * before: tasks of different modules never share a day, and come in module order.
   */
  lemma {:induction false} ScheduleAllApart(modules: seq<ModuleSpec>, startDate: int, weeklyHours: real,
                                            ld: HoursDistribution.LearningDays, suggestions: CourseSelection.Suggestions,
                                            userId: int, solve: Solver)
    ensures var r := ScheduleAll(modules, startDate, weeklyHours, ld, suggestions, userId, solve);
      r.Ok? ==> ModulesApart(r.value)
    decreases |modules|
  {
    if modules != [] {
      var first := ScheduleModule(modules[0], startDate, weeklyHours, ld, suggestions, userId, solve);
      if first.Ok? {
        var ts := first.value;
        var next := NextStart(ts, startDate);
        var rest := ScheduleAll(modules[1..], next, weeklyHours, ld, suggestions, userId, solve);
        if rest.Ok? {
          ScheduleAllApart(modules[1..], next, weeklyHours, ld, suggestions, userId, solve);
          PlanTasksFrom(rest.value, modules[1..], userId, ld, next);
          ModulesApartAppend(ts, rest.value, next);
          assert ScheduleAll(modules, startDate, weeklyHours, ld, suggestions, userId, solve) == Ok(ts + rest.value);
        }
      }
    }
  }

  /**
   * One unfolding of `schedule_all_modules` for callers that reason a module at a time: the
   * first module's tasks from the start date, then the later modules' from the day after the
   * first one's last task. It adds no fact beyond the definition of `ScheduleAll`; the
   * ordering and day-separation facts are `ScheduleAllApart`.
   */
  lemma ScheduleAllNext(modules: seq<ModuleSpec>, startDate: int, weeklyHours: real,
                        ld: HoursDistribution.LearningDays, suggestions: CourseSelection.Suggestions,
                        userId: int, solve: Solver)
    requires modules != []
    requires ScheduleAll(modules, startDate, weeklyHours, ld, suggestions, userId, solve).Ok?
    ensures var first := ScheduleModule(modules[0], startDate, weeklyHours, ld, suggestions, userId, solve);
      && first.Ok?
      && var rest := ScheduleAll(modules[1..], NextStart(first.value, startDate), weeklyHours, ld, suggestions, userId, solve);
      && rest.Ok?
      && ScheduleAll(modules, startDate, weeklyHours, ld, suggestions, userId, solve).value == first.value + rest.value
  {
  }
}
