/**
 * The three-step tracker on the skills page: resume, skills, and then the learning-skill
 * cards. It opens the first step not yet done, and a finished step jumps straight to the
 * next one.
 */
module MiniStepTracker {
  import opened Wrappers
  import opened Numeric

  datatype MiniTracker = MiniTracker(step: int, loading: bool, hasResume: bool, hasSkills: bool)

  /**
   * The state before the requests settle: the checking text on the first step, where Back
   * does nothing; whatever the requests answer, loading ends, and a failure stays on step 1.
   */
  function Initial(): (r: MiniTracker)
    ensures View(r) == Checking && InRange(r) && Back(r) == r
    ensures forall resume: Option<bool>, skills: Option<Option<nat>> ::
      !View(Initialize(r, resume, skills)).Checking?
    ensures forall resume: Option<bool>, skills: Option<Option<nat>> ::
      resume.None? || skills.None? ==> Initialize(r, resume, skills).step == 1
  {
    MiniTracker(1, true, false, false)
  }

  /**
   * `initializeStep`: the resume answer (`None` when the request threw), then the skills
   * answer (`None` when it threw, `Some(None)` for a `null` body, which counts as no skills).
   * The step is set from the local answers, 1, 2 or 3; a failure keeps the step.
   */
  function Initialize(t: MiniTracker, resume: Option<bool>, skills: Option<Option<nat>>): (r: MiniTracker)
    ensures !r.loading
    ensures resume.None? || skills.None? ==> r.step == t.step && r.hasSkills == t.hasSkills
    ensures resume.Some? ==> r.hasResume == resume.value
    ensures resume.Some? && skills.Some? ==>
      var learned := skills.value.Some? && skills.value.value > 0;
      r.hasSkills == learned
      && (r.step == 1 <==> !resume.value)
      && (r.step == 2 <==> resume.value && !learned)
      && (r.step == 3 <==> resume.value && learned)
  {
    match resume
    case None => t.(loading := false)
    case Some(found) =>
      var t1 := t.(hasResume := found);
      match skills
      case None => t1.(loading := false)
      case Some(s) =>
        var learned := s.Some? && s.value > 0;
        t1.(hasSkills := learned, step := if !found then 1 else if !learned then 2 else 3, loading := false)
  }

  /** `handleNext`: `Math.min(prev + 1, 3)`. */
  function Next(t: MiniTracker): MiniTracker {
    t.(step := Min(t.step + 1, 3))
  }

  /** `handleBack`: `Math.max(prev - 1, 1)`. */
  function Back(t: MiniTracker): MiniTracker {
    t.(step := Max(t.step - 1, 1))
  }

  predicate InRange(t: MiniTracker) { 1 <= t.step <= 3 }

  /** The arrows keep the step within 1..3 and undo each other away from the ends. */
  lemma ArrowsStayInRange(t: MiniTracker)
    requires InRange(t)
    ensures InRange(Next(t)) && InRange(Back(t))
    ensures t.step < 3 ==> Back(Next(t)) == t && Next(t).step == t.step + 1
    ensures t.step > 1 ==> Next(Back(t)) == t && Back(t).step == t.step - 1
    ensures t.step == 3 ==> Next(t) == t
    ensures t.step == 1 ==> Back(t) == t
  {
  }

  /** The resume step reports an upload: the flag is set and the tracker moves to step 2. */
  function OnResumeChange(t: MiniTracker): (r: MiniTracker)
    ensures InRange(r) && r.hasResume && r.hasSkills == t.hasSkills
    ensures !t.loading ==> View(r) == Wizard(2, true, !t.hasSkills, Some(SkillChild))
    ensures t.loading ==> View(r) == Checking
  {
    t.(hasResume := true, step := 2)
  }

  /** The skills step reports new skills: the flag is set and the tracker moves to step 3. */
  function OnSkillChange(t: MiniTracker): (r: MiniTracker)
    ensures InRange(r) && r.hasSkills && r.hasResume == t.hasResume
    ensures !t.loading ==> View(r) == LearnSkills
    ensures t.loading ==> View(r) == Checking
    ensures Next(r) == r
  {
    t.(hasSkills := true, step := 3)
  }

  /**
   * The forward arrow's `disabled`, evaluated left to right as JavaScript does. Its last
   * term reads `hasTasks`, which this component never declares: reaching it throws, shown
   * as `None`. It is reached exactly on step 3.
   */
  function NextDisabledEval(t: MiniTracker): (r: Option<bool>)
    ensures r.None? <==> t.step == 3
    ensures r.Some? ==> (r.value <==> (t.step == 1 && !t.hasResume) || (t.step == 2 && !t.hasSkills))
  {
    if t.step == 1 && !t.hasResume then Some(true)
    else if t.step == 2 && !t.hasSkills then Some(true)
    else if t.step == 3 then None
    else Some(false)
  }

  datatype MiniChild = ResumeChild | SkillChild

  datatype MiniView =
    | Checking
    | LearnSkills
    | Wizard(step: int, backShown: bool, nextDisabled: bool, child: Option<MiniChild>)

  /**
   * What the tracker shows. Step 3 returns the learning-skill cards before the navigation
   * is built, so the undeclared name is never read.
   */
  function View(t: MiniTracker): (r: MiniView)
    ensures r.Checking? <==> t.loading
    ensures r.LearnSkills? <==> !t.loading && t.step == 3
    ensures r.Wizard? ==> r.step == t.step && r.step != 3 && (r.backShown <==> t.step > 1)
    ensures r.Wizard? ==> (r.nextDisabled <==> (t.step == 1 && !t.hasResume) || (t.step == 2 && !t.hasSkills))
    ensures r.Wizard? ==> (r.child.Some? <==> t.step == 1 || t.step == 2)
  {
    if t.loading then Checking
    else if t.step == 3 then LearnSkills
    else
      var child := if t.step == 1 then Some(ResumeChild) else if t.step == 2 then Some(SkillChild) else None;
      Wizard(t.step, t.step > 1, NextDisabledEval(t).value, child)
  }

  /** Finishing both steps in order lands on the learning-skill cards. */
  lemma FinishingStepsShowsSkills(t: MiniTracker)
    requires !t.loading && t.step == 1
    ensures View(OnSkillChange(OnResumeChange(t))) == LearnSkills
    ensures NextDisabledEval(OnResumeChange(t)) == Some(!t.hasSkills)
  {
  }
}
