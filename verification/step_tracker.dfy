/**
 * The four-step setup tracker on the schedule page: resume, skills, schedule, and then the
 * calendar with the weekly grid. On mounting it asks the backend which steps are already
 * done and opens the first one that is not; the arrows move one step at a time, and the
 * forward arrow stays disabled until the current step is done.
 */
module StepTracker {
  import opened Wrappers
  import opened Numeric
  import opened ModuleProgress

  /** The tracker's state. */
  datatype Tracker = Tracker(step: int, loading: bool, hasResume: bool, hasSkills: bool,
                             hasTasks: bool, tasks: seq<ViewTask>)

  /**
   * The state before the initial requests settle: the checking text, on the first step with
   * nothing done, so the forward arrow is disabled and Back does nothing. Whatever the
   * requests answer, loading ends, and a failed request leaves the tracker on step 1.
   */
  function Initial(): (r: Tracker)
    ensures View(r) == Checking && InRange(r) && NextDisabled(r) && Back(r) == r
    ensures forall a :: !Initialize(r, a).loading
    ensures forall a :: !Answered(a) ==> Initialize(r, a).step == 1
  {
    Tracker(1, true, false, false, false, [])
  }

  /** The first step that is not done yet; 4 when all three are. */
  function FirstOpenStep(resume: bool, skills: bool, tasks: bool): (r: int)
    ensures 1 <= r <= 4
    ensures r == 1 <==> !resume
    ensures r == 2 <==> resume && !skills
    ensures r == 3 <==> resume && skills && !tasks
    ensures r == 4 <==> resume && skills && tasks
  {
    if !resume then 1 else if !skills then 2 else if !tasks then 3 else 4
  }

  /**
   * The answers of the three initial requests, in the order they are made. `None` is a
   * request that threw; for the two lists, `Some(None)` is a `null` body, on which reading
   * `.length` throws as well.
   */
  datatype InitAnswers = InitAnswers(resume: Option<bool>, skills: Option<Option<nat>>,
                                     tasks: Option<Option<seq<ViewTask>>>)

  /** All three requests answered with something `.length` can be read from. */
  predicate Answered(a: InitAnswers) {
    a.resume.Some? && a.skills.Some? && a.skills.value.Some? && a.tasks.Some? && a.tasks.value.Some?
  }

  /**
   * `initializeStep`: each answer sets its flag as it arrives; the step is chosen only after
   * the last one, so a failure part way keeps the flags set so far and the step as it was.
   * Loading ends in every case.
   */
  function Initialize(t: Tracker, a: InitAnswers): (r: Tracker)
    ensures !r.loading
    ensures Answered(a) ==> r.step == FirstOpenStep(a.resume.value, a.skills.value.value > 0, |a.tasks.value.value| > 0)
    ensures Answered(a) ==> r.hasResume == a.resume.value && r.hasSkills == (a.skills.value.value > 0)
    ensures Answered(a) ==> r.hasTasks == (|a.tasks.value.value| > 0) && r.tasks == a.tasks.value.value
    ensures !Answered(a) ==> r.step == t.step && r.hasTasks == t.hasTasks && r.tasks == t.tasks
    ensures a.resume.None? ==> r == t.(loading := false)
  {
    match a.resume
    case None => t.(loading := false)
    case Some(hasUrl) =>
      var t1 := t.(hasResume := hasUrl);
      match a.skills
      case None => t1.(loading := false)
      case Some(None) => t1.(loading := false)
      case Some(Some(n)) =>
        var t2 := t1.(hasSkills := n > 0);
        match a.tasks
        case None => t2.(loading := false)
        case Some(None) => t2.(loading := false)
        case Some(Some(ts)) =>
          t2.(hasTasks := |ts| > 0, tasks := ts, step := FirstOpenStep(hasUrl, n > 0, |ts| > 0), loading := false)
  }

  /** The forward arrow's `disabled`: the current step is not done. */
  predicate NextDisabled(t: Tracker) {
    (t.step == 1 && !t.hasResume) || (t.step == 2 && !t.hasSkills) || (t.step == 3 && !t.hasTasks)
  }

  /** When initialisation fails, the tracker stays on the first step. */
  lemma InitFailureStaysAtOne(a: InitAnswers)
    requires !Answered(a)
    ensures Initialize(Initial(), a).step == 1
  {
  }

  /**
   * After a successful initialisation every earlier step is done and, unless all are, the
   * forward arrow is disabled on the step opened: the user lands on the first open step.
   */
  lemma InitOpensFirstUndone(a: InitAnswers)
    requires Answered(a)
    ensures var r := Initialize(Initial(), a);
      (r.step < 4 ==> NextDisabled(r))
      && (r.step > 1 ==> r.hasResume) && (r.step > 2 ==> r.hasSkills) && (r.step > 3 ==> r.hasTasks)
  {
  }

  /** `handleNext`: `Math.min(prev + 1, 4)`. */
  function Next(t: Tracker): Tracker {
    t.(step := Min(t.step + 1, 4))
  }

  /** `handleBack`: `Math.max(prev - 1, 1)`. */
  function Back(t: Tracker): Tracker {
    t.(step := Max(t.step - 1, 1))
  }

  predicate InRange(t: Tracker) { 1 <= t.step <= 4 }

  /**
   * The arrows keep the step within 1..4 and undo each other away from the ends; the
   * forward arrow moves only from an enabled step.
   */
  lemma ArrowsStayInRange(t: Tracker)
    requires InRange(t)
    ensures InRange(Next(t)) && InRange(Back(t))
    ensures t.step < 4 ==> Back(Next(t)) == t && Next(t).step == t.step + 1
    ensures t.step > 1 ==> Next(Back(t)) == t && Back(t).step == t.step - 1
    ensures t.step == 4 ==> Next(t) == t
    ensures t.step == 1 ==> Back(t) == t
  {
  }

  /** The step component that can report a change. */
  datatype Child = ResumeChild | SkillChild | ScheduleChild

  /** The child shown on a wizard step. */
  function ChildAt(step: int): (r: Option<Child>)
    ensures r.Some? <==> 1 <= step <= 3
  {
    if step == 1 then Some(ResumeChild)
    else if step == 2 then Some(SkillChild)
    else if step == 3 then Some(ScheduleChild)
    else None
  }

  /** A child's `onChange`: it sets its own flag, and only that. */
  function OnChange(t: Tracker, c: Child): (r: Tracker)
    ensures r.step == t.step && r.loading == t.loading && r.tasks == t.tasks
    ensures r.hasResume == (t.hasResume || c == ResumeChild)
    ensures r.hasSkills == (t.hasSkills || c == SkillChild)
    ensures r.hasTasks == (t.hasTasks || c == ScheduleChild)
  {
    match c
    case ResumeChild => t.(hasResume := true)
    case SkillChild => t.(hasSkills := true)
    case ScheduleChild => t.(hasTasks := true)
  }

  /** A change reported by the child on screen enables the forward arrow. */
  lemma ChangeEnablesNext(t: Tracker)
    requires 1 <= t.step <= 3
    ensures !NextDisabled(OnChange(t, ChildAt(t.step).value))
  {
  }

  /** What the tracker shows. */
  datatype TrackerView =
    | Checking
    | CalendarAndGrid(tasks: seq<ViewTask>)
    | Wizard(step: int, backShown: bool, nextDisabled: bool, child: Option<Child>)

  function View(t: Tracker): (r: TrackerView)
    ensures r.Checking? <==> t.loading
    ensures r.CalendarAndGrid? <==> !t.loading && t.step == 4
    ensures r.CalendarAndGrid? ==> r.tasks == t.tasks
    ensures r.Wizard? ==> r.step == t.step && (r.backShown <==> t.step > 1) && (r.nextDisabled <==> NextDisabled(t))
    ensures r.Wizard? ==> r.child == ChildAt(t.step)
  {
    if t.loading then Checking
    else if t.step == 4 then CalendarAndGrid(t.tasks)
    else Wizard(t.step, t.step > 1, NextDisabled(t), ChildAt(t.step))
  }

  /** Clicking the forward arrow: nothing while it is disabled. */
  function ClickNext(t: Tracker): (r: Tracker)
    ensures InRange(t) ==> InRange(r)
    ensures InRange(t) ==> (r.step == t.step + 1 <==> !NextDisabled(t) && t.step < 4)
    ensures InRange(t) ==> (r.step == t.step <==> NextDisabled(t) || t.step == 4)
    ensures r.hasResume == t.hasResume && r.hasSkills == t.hasSkills && r.hasTasks == t.hasTasks
  {
    if NextDisabled(t) then t else Next(t)
  }

  /** With all three steps done, initialisation shows the calendar with the fetched tasks. */
  lemma AllDoneShowsCalendar(a: InitAnswers)
    requires Answered(a) && a.resume.value && a.skills.value.value > 0 && |a.tasks.value.value| > 0
    ensures View(Initialize(Initial(), a)) == CalendarAndGrid(a.tasks.value.value)
  {
  }
}
