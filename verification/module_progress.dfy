/**
 * The module views over a user's scheduled tasks: the dashboard's module-progress cards,
 * the schedule page's mini module panel, and the module overview shown after generating a
 * schedule. All three group the tasks by module in first-appearance order.
 */
module ModuleProgress {
  import opened Wrappers
  import opened Numeric
  import opened Text
  import opened Calendar
  import opened Partition

  /** A `ScheduledTask` as the frontend receives it. */
  datatype ViewTask = ViewTask(moduleNumber: int, skill: string, date: string, start: string, end: string, status: string)

  function ModuleOf(t: ViewTask): int { t.moduleNumber }
  function SkillOf(t: ViewTask): string { t.skill }
  function StatusOf(t: ViewTask): string { t.status }

  /** The tasks of module `m`, in list order. */
  function Group(tasks: seq<ViewTask>, m: int): seq<ViewTask> {
    Filter(tasks, ModuleOf, m)
  }

  /** `modTasks.filter(t => t.status === "completed").length` */
  function CompletedCount(group: seq<ViewTask>): (r: nat)
    ensures r <= |group|
  {
    |Filter(group, StatusOf, "completed")|
  }

  /** `Math.round((completed / total) * 100)` on exact reals. */
  function Percent(completed: nat, total: nat): (r: int)
    requires 0 < total && completed <= total
    ensures 0 <= r <= 100
    ensures completed == 0 ==> r == 0
    ensures completed == total ==> r == 100
    ensures (r as real) - 0.5 <= completed as real / total as real * 100.0 < (r as real) + 0.5
  {
    var t := total as real;
    var x := completed as real / t * 100.0;
    assert 0.0 <= x <= 100.0 by {
      assert completed as real / t <= t / t;
    }
    assert completed == total ==> x == 100.0 by {
      assert t / t == 1.0;
    }
    JsRound(x)
  }

  lemma DivMonotone(a: real, b: real, t: real)
    requires 0.0 < t && a <= b
    ensures a / t <= b / t
  {
    assert a / t * t == a && b / t * t == b;
  }

  /** More completed tasks never show a smaller percentage. */
  lemma PercentMonotone(c1: nat, c2: nat, total: nat)
    requires 0 < total && c1 <= c2 <= total
    ensures Percent(c1, total) <= Percent(c2, total)
  {
    var t := total as real;
    DivMonotone(c1 as real, c2 as real, t);
  }

  /** One skill line of a card: the skill and how many of the module's tasks teach it. */
  datatype SkillCount = SkillCount(skill: string, count: nat)

  function SkillLines(group: seq<ViewTask>, skills: seq<string>): (r: seq<SkillCount>)
    ensures |r| == |skills|
    ensures forall i :: 0 <= i < |r| ==> r[i] == SkillCount(skills[i], |Filter(group, SkillOf, skills[i])|)
  {
    if skills == [] then []
    else SkillLines(group, skills[..|skills| - 1]) + [SkillCount(skills[|skills| - 1], |Filter(group, SkillOf, skills[|skills| - 1])|)]
  }

  function CountTotal(lines: seq<SkillCount>): nat {
    if lines == [] then 0 else CountTotal(lines[..|lines| - 1]) + lines[|lines| - 1].count
  }

  lemma {:induction false} CountTotalGroups(group: seq<ViewTask>, skills: seq<string>)
    ensures CountTotal(SkillLines(group, skills)) == GroupSizes(group, SkillOf, skills)
  {
    if skills != [] {
      var lines := SkillLines(group, skills);
      assert lines[..|lines| - 1] == SkillLines(group, skills[..|skills| - 1]);
      CountTotalGroups(group, skills[..|skills| - 1]);
    }
  }

  /** `skills.map(skill => modTasks.filter(t => t.skill === skill).length)` over the distinct skills. */
  function SkillCounts(group: seq<ViewTask>): (r: seq<SkillCount>) {
    SkillLines(group, Distinct(group, SkillOf))
  }

  /**
   * The skill lines name each skill of the module once and their counts add up to the
   * module's size; every count is positive.
   */
  lemma SkillCountsPartition(group: seq<ViewTask>)
    ensures var r := SkillCounts(group);
      && |r| == |Distinct(group, SkillOf)|
      && CountTotal(r) == |group|
      && (forall i, j :: 0 <= i < j < |r| ==> r[i].skill != r[j].skill)
      && (forall i :: 0 <= i < |r| ==> r[i].count > 0)
      && (forall k :: 0 <= k < |group| ==> exists i :: 0 <= i < |r| && r[i].skill == group[k].skill)
  {
    var ks := Distinct(group, SkillOf);
    var r := SkillLines(group, ks);
    CountTotalGroups(group, ks);
    GroupsPartition(group, SkillOf);
    forall i | 0 <= i < |r| ensures r[i].count > 0 {
      DistinctKeys(group, SkillOf, ks[i]);
      var j :| 0 <= j < |group| && SkillOf(group[j]) == ks[i];
      GroupsNonEmpty(group, SkillOf, ks[i], j);
    }
    forall k | 0 <= k < |group| ensures exists i :: 0 <= i < |r| && r[i].skill == group[k].skill {
      GroupsNonEmpty(group, SkillOf, group[k].skill, k);
      var i :| 0 <= i < |ks| && ks[i] == group[k].skill;
      assert r[i].skill == group[k].skill;
    }
  }

  /** One module card of the dashboard panel. */
  datatype Card = Card(moduleNumber: int, total: nat, completed: nat, percent: int, skills: seq<SkillCount>)

  function CardOf(tasks: seq<ViewTask>, m: int): (r: Card)
    requires |Group(tasks, m)| > 0
    ensures r.total == |Group(tasks, m)| && r.completed <= r.total
  {
    var group := Group(tasks, m);
    Card(m, |group|, CompletedCount(group), Percent(CompletedCount(group), |group|), SkillCounts(group))
  }

  function CardsFor(tasks: seq<ViewTask>, ms: seq<int>): (r: seq<Card>)
    requires forall i :: 0 <= i < |ms| ==> |Group(tasks, ms[i])| > 0
    ensures |r| == |ms| && forall i :: 0 <= i < |r| ==> r[i] == CardOf(tasks, ms[i])
  {
    seq(|ms|, i requires 0 <= i < |ms| => CardOf(tasks, ms[i]))
  }

  function TotalOf(cards: seq<Card>): nat {
    if cards == [] then 0 else TotalOf(cards[..|cards| - 1]) + cards[|cards| - 1].total
  }

  lemma {:induction false} TotalOfGroups(tasks: seq<ViewTask>, ms: seq<int>)
    requires forall i :: 0 <= i < |ms| ==> |Group(tasks, ms[i])| > 0
    ensures TotalOf(CardsFor(tasks, ms)) == GroupSizes(tasks, ModuleOf, ms)
  {
    if ms != [] {
      var cards := CardsFor(tasks, ms);
      assert cards[..|cards| - 1] == CardsFor(tasks, ms[..|ms| - 1]);
      TotalOfGroups(tasks, ms[..|ms| - 1]);
    }
  }

  /** Every module listed has tasks. */
  lemma ModulesNonEmpty(tasks: seq<ViewTask>)
    ensures forall i :: 0 <= i < |Distinct(tasks, ModuleOf)| ==> |Group(tasks, Distinct(tasks, ModuleOf)[i])| > 0
  {
    var ms := Distinct(tasks, ModuleOf);
    forall i | 0 <= i < |ms| ensures |Group(tasks, ms[i])| > 0 {
      DistinctKeys(tasks, ModuleOf, ms[i]);
      var j :| 0 <= j < |tasks| && ModuleOf(tasks[j]) == ms[i];
      GroupsNonEmpty(tasks, ModuleOf, ms[i], j);
    }
  }

  /** The cards, one per distinct module in first-appearance order. */
  function Cards(tasks: seq<ViewTask>): (r: seq<Card>)
    ensures |r| == |Distinct(tasks, ModuleOf)|
    ensures forall i :: 0 <= i < |r| ==> r[i].moduleNumber == Distinct(tasks, ModuleOf)[i]
    ensures forall i :: 0 <= i < |r| ==> 0 < r[i].total && 0 <= r[i].percent <= 100
  {
    var ms := Distinct(tasks, ModuleOf);
    ModulesNonEmpty(tasks);
    CardsFor(tasks, ms)
  }

  /**
   * The cards partition the tasks: one card per module, no module twice, every task counted
   * in its module's card, and the card sizes add up to the number of tasks.
   */
  lemma CardsPartition(tasks: seq<ViewTask>)
    ensures var r := Cards(tasks);
      && TotalOf(r) == |tasks|
      && (forall i, j :: 0 <= i < j < |r| ==> r[i].moduleNumber != r[j].moduleNumber)
      && (forall k :: 0 <= k < |tasks| ==> exists i :: 0 <= i < |r| && r[i].moduleNumber == tasks[k].moduleNumber)
  {
    var ms := Distinct(tasks, ModuleOf);
    var r := Cards(tasks);
    ModulesNonEmpty(tasks);
    TotalOfGroups(tasks, ms);
    GroupsPartition(tasks, ModuleOf);
    forall k | 0 <= k < |tasks| ensures exists i :: 0 <= i < |r| && r[i].moduleNumber == tasks[k].moduleNumber {
      GroupsNonEmpty(tasks, ModuleOf, tasks[k].moduleNumber, k);
      var i :| 0 <= i < |ms| && ms[i] == tasks[k].moduleNumber;
      assert r[i].moduleNumber == tasks[k].moduleNumber;
    }
  }

  /** A module whose tasks are all completed shows 100%; one with none completed shows 0%. */
  lemma CardPercentEnds(tasks: seq<ViewTask>, m: int)
    requires |Group(tasks, m)| > 0
    ensures var g := Group(tasks, m);
      (forall i :: 0 <= i < |g| ==> g[i].status == "completed") ==> CardOf(tasks, m).percent == 100
    ensures var g := Group(tasks, m);
      (forall i :: 0 <= i < |g| ==> g[i].status != "completed") ==> CardOf(tasks, m).percent == 0
  {
    var group := Group(tasks, m);
    if forall i :: 0 <= i < |group| ==> group[i].status == "completed" {
      FilterAll(group, StatusOf, "completed");
    }
    if forall i :: 0 <= i < |group| ==> group[i].status != "completed" {
      FilterAbsent(group, StatusOf, "completed");
    }
  }

  // ---------------------------------------------------------------------------
  // The dashboard panel's states
  // ---------------------------------------------------------------------------

  /** The task fetch: still running, failed, or answered (`null` as `None`). */
  datatype Fetch = Pending | Failed | Fetched(data: Option<seq<ViewTask>>)

  datatype ProgressView = Loading | ErrorMessage | NoModules | CardsView(cards: seq<Card>)

  /** `ModuleProgressPanel`: loading, then the error, the placeholder, or the cards. */
  function ProgressPanel(f: Fetch): (r: ProgressView)
    ensures r.Loading? <==> f.Pending?
    ensures r.ErrorMessage? <==> f.Failed?
    ensures r.NoModules? <==> f.Fetched? && (f.data.None? || f.data.value == [])
    ensures r.CardsView? ==> f.Fetched? && f.data.Some? && r.cards == Cards(f.data.value) && |r.cards| > 0
  {
    match f
    case Pending => Loading
    case Failed => ErrorMessage
    case Fetched(data) =>
      if data.None? || data.value == [] then NoModules
      else
        GroupsNonEmpty(data.value, ModuleOf, data.value[0].moduleNumber, 0);
        DistinctKeys(data.value, ModuleOf, data.value[0].moduleNumber);
        CardsView(Cards(data.value))
  }

  // ---------------------------------------------------------------------------
  // The mini module panel
  // ---------------------------------------------------------------------------

  /** An integral `Number(part)`, or `None` for `NaN` and fractions. */
  function IntegerPart(part: string): (r: Option<int>)
    ensures r.Some? ==> ToNumber(part) == Some(r.value as real)
  {
    match ToNumber(part)
    case None => None
    case Some(x) => if x.Floor as real == x then Some(x.Floor) else None
  }

  /**
   * `const [y, m, d] = date.split("-").map(Number); new Date(y, m - 1, d)`: a local date with
   * the month and day carried over as JavaScript does; `None` for an invalid date.
   */
  function ParseDate(date: string): (r: Option<int>)
    ensures r.Some? ==> |Split(date, '-')| >= 3
  {
    var parts := Split(date, '-');
    if |parts| < 3 then None
    else match (IntegerPart(parts[0]), IntegerPart(parts[1]), IntegerPart(parts[2]))
      case (Some(y), Some(m), Some(d)) => Some(JsDate(y, m - 1, d))
      case _ => None
  }

  /** The earliest of some dates any of which may be invalid; `None` if one is. */
  function EarliestDefined(ds: seq<Option<int>>): (r: Option<int>)
    requires |ds| > 0
    ensures r.Some? <==> forall i :: 0 <= i < |ds| ==> ds[i].Some?
    ensures r.Some? ==> r in ds && forall i :: 0 <= i < |ds| ==> r.value <= ds[i].value
  {
    var last := ds[|ds| - 1];
    if |ds| == 1 then last
    else
      var init := ds[..|ds| - 1];
      assert forall i :: 0 <= i < |init| ==> init[i] == ds[i];
      match (EarliestDefined(init), last)
      case (Some(a), Some(b)) => Some(Min(a, b))
      case _ => None
  }

  /** The tasks' dates, parsed. */
  function Dates(group: seq<ViewTask>): (r: seq<Option<int>>)
    ensures |r| == |group| && forall i :: 0 <= i < |r| ==> r[i] == ParseDate(group[i].date)
  {
    seq(|group|, i requires 0 <= i < |group| => ParseDate(group[i].date))
  }

  /**
   * The first date of a module: the head of the parsed dates sorted ascending, that is the
   * earliest of them; `None` if a date is invalid.
   */
  function FirstDate(group: seq<ViewTask>): (r: Option<int>)
    requires |group| > 0
  {
    EarliestDefined(Dates(group))
  }

  /** One mini card: the module, its percentage, and the date a click jumps to. */
  datatype MiniCard = MiniCard(moduleNumber: int, percent: int, firstDate: Option<int>)

  function MiniCardOf(tasks: seq<ViewTask>, m: int): (r: MiniCard)
    requires |Group(tasks, m)| > 0
    ensures r.moduleNumber == m && 0 <= r.percent <= 100
    ensures r.percent == CardOf(tasks, m).percent && r.firstDate == FirstDate(Group(tasks, m))
  {
    MiniCard(m, CardOf(tasks, m).percent, FirstDate(Group(tasks, m)))
  }

  function MiniCardsFor(tasks: seq<ViewTask>, ms: seq<int>): (r: seq<MiniCard>)
    requires forall i :: 0 <= i < |ms| ==> |Group(tasks, ms[i])| > 0
    ensures |r| == |ms| && forall i :: 0 <= i < |r| ==> r[i] == MiniCardOf(tasks, ms[i])
  {
    seq(|ms|, i requires 0 <= i < |ms| => MiniCardOf(tasks, ms[i]))
  }

  /** `MiniModulePanel`: nothing for an absent or empty list, else one card per module. */
  function MiniPanel(tasks: Option<seq<ViewTask>>): (r: Option<seq<MiniCard>>)
    ensures r.None? <==> tasks.None? || tasks.value == []
    ensures r.Some? ==> |r.value| == |Distinct(tasks.value, ModuleOf)| > 0
  {
    match tasks
    case None => None
    case Some(ts) =>
      if ts == [] then None
      else
        GroupsNonEmpty(ts, ModuleOf, ts[0].moduleNumber, 0);
        ModulesNonEmpty(ts);
        Some(MiniCardsFor(ts, Distinct(ts, ModuleOf)))
  }

  /**
   * Clicking a mini card passes the earliest date of that module's tasks: a date one of them
   * is on, and no later than any of them.
   */
  lemma MiniClickDate(tasks: seq<ViewTask>, i: nat, k: nat)
    requires MiniPanel(Some(tasks)).Some? && i < |MiniPanel(Some(tasks)).value|
    requires var c := MiniPanel(Some(tasks)).value[i]; c.firstDate.Some? && k < |tasks| && tasks[k].moduleNumber == c.moduleNumber
    ensures var c := MiniPanel(Some(tasks)).value[i];
      ParseDate(tasks[k].date).Some? && c.firstDate.value <= ParseDate(tasks[k].date).value
    ensures var c := MiniPanel(Some(tasks)).value[i];
      exists j :: 0 <= j < |tasks| && tasks[j].moduleNumber == c.moduleNumber && ParseDate(tasks[j].date) == c.firstDate
  {
    var c := MiniPanel(Some(tasks)).value[i];
    var group := Group(tasks, c.moduleNumber);
    FilterMembers(tasks, ModuleOf, c.moduleNumber, tasks[k]);
    var j :| 0 <= j < |group| && group[j] == tasks[k];
    var ds := Dates(group);
    assert ds[j] == ParseDate(tasks[k].date);
    var e :| 0 <= e < |ds| && ds[e] == c.firstDate;
    FilterMembers(tasks, ModuleOf, c.moduleNumber, group[e]);
    var x :| 0 <= x < |tasks| && tasks[x] == group[e];
  }

  // ---------------------------------------------------------------------------
  // The module overview after generating a schedule
  // ---------------------------------------------------------------------------

  /** A two-digit field of a clock string. */
  function TwoDigits(s: string, at: nat): (r: Option<nat>)
    requires at + 2 <= |s|
    ensures r.Some? ==> r.value < 100
  {
    if IsDigit(s[at]) && IsDigit(s[at + 1]) then Some(DigitValue(s[at]) * 10 + DigitValue(s[at + 1])) else None
  }

  /** `parse(s, "HH:mm:ss", ...)` as seconds after midnight; `None` for an invalid date. */
  function ClockSeconds(s: string): (r: Option<nat>)
    ensures r.Some? ==> r.value < 24 * 3600
  {
    if |s| != 8 || s[2] != ':' || s[5] != ':' then None
    else match (TwoDigits(s, 0), TwoDigits(s, 3), TwoDigits(s, 6))
      case (Some(h), Some(m), Some(sec)) =>
        if h < 24 && m < 60 && sec < 60 then Some(h * 3600 + m * 60 + sec) else None
      case _ => None
  }

  /** `differenceInMinutes(end, start)`: whole minutes, truncated toward zero. */
  function MinutesBetween(start: nat, end: nat): (r: int)
    ensures end >= start ==> r == (end - start) / 60
    ensures end < start ==> r == -((start - end) / 60)
  {
    if end >= start then (end - start) / 60 else -((start - end) / 60)
  }

  function Duration(t: ViewTask): Option<int> {
    match (ClockSeconds(t.start), ClockSeconds(t.end))
    case (Some(s), Some(e)) => Some(MinutesBetween(s, e))
    case _ => None
  }

  /** A sum of numbers any of which may be `NaN`. */
  function SumDefined(ds: seq<Option<int>>): (r: Option<int>)
    ensures r.Some? <==> forall i :: 0 <= i < |ds| ==> ds[i].Some?
  {
    if ds == [] then Some(0)
    else
      var init := ds[..|ds| - 1];
      assert forall i :: 0 <= i < |init| ==> init[i] == ds[i];
      match (SumDefined(init), ds[|ds| - 1])
      case (Some(a), Some(b)) => Some(a + b)
      case _ => None
  }

  lemma {:induction false} SumDefinedAppend(a: seq<Option<int>>, b: seq<Option<int>>)
    requires SumDefined(a).Some? && SumDefined(b).Some?
    ensures SumDefined(a + b) == Some(SumDefined(a).value + SumDefined(b).value)
  {
    if b != [] {
      var init := b[..|b| - 1];
      assert (a + b)[..|a + b| - 1] == a + init;
      assert forall i :: 0 <= i < |init| ==> init[i] == b[i];
      SumDefinedAppend(a, init);
    } else {
      assert a + b == a;
    }
  }

  function Durations(group: seq<ViewTask>): (r: seq<Option<int>>)
    ensures |r| == |group| && forall i :: 0 <= i < |r| ==> r[i] == Duration(group[i])
  {
    Map(group, Duration)
  }

  /** The `reduce` summing the durations; one invalid time makes the whole sum `NaN`. */
  function TotalMinutes(group: seq<ViewTask>): (r: Option<int>)
  {
    SumDefined(Durations(group))
  }

  /** The total is defined exactly when every task's times parse, and then it adds up the durations. */
  lemma {:induction false} TotalMinutesDefined(group: seq<ViewTask>)
    ensures TotalMinutes(group).Some? <==> forall i :: 0 <= i < |group| ==> Duration(group[i]).Some?
    ensures group != [] && TotalMinutes(group).Some? ==>
      TotalMinutes(group).value == TotalMinutes(group[..|group| - 1]).value + Duration(group[|group| - 1]).value
  {
    var ds := Durations(group);
    if group != [] {
      assert Durations(group[..|group| - 1]) == ds[..|ds| - 1];
    }
  }

  /** Minutes add up over concatenated lists. */
  lemma TotalMinutesAppend(a: seq<ViewTask>, b: seq<ViewTask>)
    requires TotalMinutes(a).Some? && TotalMinutes(b).Some?
    ensures TotalMinutes(a + b) == Some(TotalMinutes(a).value + TotalMinutes(b).value)
  {
    MapAppend(a, b, Duration);
    SumDefinedAppend(Map(a, Duration), Map(b, Duration));
  }

  /** `(totalMinutes / 60).toFixed(1)` as a number. */
  function HoursShown(minutes: int): (r: real)
    ensures minutes as real / 60.0 - 0.05 <= r <= minutes as real / 60.0 + 0.05
  {
    ToFixed(minutes as real / 60.0, 1)
  }

  datatype OverviewCard = OverviewCard(moduleNumber: int, skills: seq<SkillCount>, minutes: Option<int>, hours: Option<real>)

  /** One overview card: the module's skill lines, its minutes and the hours shown. */
  function OverviewCardOf(tasks: seq<ViewTask>, m: int): (r: OverviewCard)
    ensures r.moduleNumber == m && r.skills == SkillCounts(Group(tasks, m))
    ensures r.minutes == TotalMinutes(Group(tasks, m))
    ensures r.hours.Some? <==> r.minutes.Some?
    ensures r.hours.Some? ==> r.hours.value == HoursShown(r.minutes.value)
  {
    var group := Group(tasks, m);
    var minutes := TotalMinutes(group);
    OverviewCard(m, SkillCounts(group), minutes, if minutes.Some? then Some(HoursShown(minutes.value)) else None)
  }

  function OverviewCardsFor(tasks: seq<ViewTask>, ms: seq<int>): (r: seq<OverviewCard>)
    ensures |r| == |ms| && forall i :: 0 <= i < |r| ==> r[i] == OverviewCardOf(tasks, ms[i])
  {
    seq(|ms|, i requires 0 <= i < |ms| => OverviewCardOf(tasks, ms[i]))
  }

  // ---------------------------------------------------------------------------
  // The schedule step's states
  // ---------------------------------------------------------------------------

  /** `StepSchedule`'s state; `tasks` is the parent's list it writes through `setTasks`. */
  datatype ScheduleStep = ScheduleStep(loading: bool, generating: bool, tasks: seq<ViewTask>,
                                       modules: seq<int>, previewReady: bool)

  function InitialStep(tasks: seq<ViewTask>): ScheduleStep {
    ScheduleStep(true, false, tasks, [], false)
  }

  /** The initial fetch settles: on success the tasks are replaced; loading ends either way. */
  function FetchSettled(s: ScheduleStep, data: Option<seq<ViewTask>>): (r: ScheduleStep)
    ensures !r.loading
    ensures r.tasks == (if data.Some? then data.value else s.tasks)
    ensures r.previewReady == s.previewReady && r.generating == s.generating
  {
    s.(loading := false, tasks := if data.Some? then data.value else s.tasks)
  }

  /** A generate response: the `tasks` and `modules` fields, each possibly missing. */
  datatype Generated = Generated(tasks: Option<seq<ViewTask>>, modules: Option<seq<int>>)

  /**
   * `handleGenerate`: on success the tasks and modules are replaced (missing ones by `[]`),
   * the preview is marked ready and `onChange` fires; on failure only `generating` is reset.
   * The second result says whether `onChange` fired.
   */
  function HandleGenerate(s: ScheduleStep, response: Option<Generated>): (r: (ScheduleStep, bool))
    ensures !r.0.generating && r.0.loading == s.loading
    ensures r.1 <==> response.Some?
    ensures response.None? ==> r.0 == s.(generating := false)
    ensures response.Some? ==>
      (r.0.previewReady && r.0.tasks == response.value.tasks.GetOr([]) && r.0.modules == response.value.modules.GetOr([]))
  {
    match response
    case None => (s.(generating := false), false)
    case Some(g) =>
      (s.(tasks := g.tasks.GetOr([]), modules := g.modules.GetOr([]), previewReady := true, generating := false), true)
  }

  datatype StepView = LoadingTasks | Generating | CallToGenerate | TaskList(overview: Option<seq<OverviewCard>>)

  /** What the step shows; the overview only once a preview is ready and there are tasks. */
  function ScheduleView(s: ScheduleStep): (r: StepView)
    ensures r.LoadingTasks? <==> s.loading
    ensures r.Generating? <==> !s.loading && s.generating
    ensures r.CallToGenerate? <==> !s.loading && !s.generating && s.tasks == []
    ensures r.TaskList? && r.overview.Some? <==> !s.loading && !s.generating && s.previewReady && s.tasks != []
    ensures r.TaskList? && r.overview.Some? ==> r.overview.value == OverviewCardsFor(s.tasks, Distinct(s.tasks, ModuleOf))
  {
    if s.loading then LoadingTasks
    else if s.generating then Generating
    else if s.tasks == [] then CallToGenerate
    else if s.previewReady then TaskList(Some(OverviewCardsFor(s.tasks, Distinct(s.tasks, ModuleOf))))
    else TaskList(None)
  }

  /** After a successful generate that returned tasks, the overview is shown. */
  lemma GenerateShowsOverview(s: ScheduleStep, g: Generated)
    requires !s.loading && g.tasks.Some? && g.tasks.value != []
    ensures var r := HandleGenerate(s, Some(g));
      r.1 && ScheduleView(r.0).TaskList? && ScheduleView(r.0).overview.Some?
  {
  }
}
