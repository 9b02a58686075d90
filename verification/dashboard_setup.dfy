/**
 * The first-visit setup wizard on the dashboard page: four steps (career goal, learning
 * duration, weekly hours and study days, resume), a Back button and a forward button that is
 * "Next" on steps 1-3 and "Confirm" on step 4. Confirming sends the goal, then the resume
 * file if one was chosen, and marks the setup complete.
 *
 * The page and the navigation component each decide whether the forward step is allowed:
 * the component disables the button, the page's handler re-checks with its own guard.
 */
module DashboardSetup {
  import opened Wrappers
  import opened Numeric
  import opened Calendar
  import opened StudyDays
  import Text

  /** The duration unit select; it offers exactly these three options. */
  datatype Unit = Weeks | Months | Years

  /** The weekly-hours field: `""` until the input is first edited, then a number. */
  datatype HoursField = Unset | Hours(n: int)

  /** The form state the page keeps. The resume file is represented by its name. */
  datatype Form = Form(step: int, jobTitle: string, industry: string, expLevel: string,
                       responsibility: string, duration: string, unit: Unit, hours: HoursField,
                       days: Days, resumeFile: Option<string>, resumeText: string, notReady: bool)

  /**
   * The form as the page first renders it: step 1 with the forward button disabled and no
   * Back button, neither resume choice made, and the hours and days still to be filled in.
   */
  function InitialForm(): (r: Form)
    ensures InRange(r) && !BackShown(r) && NextDisabled(r) && ButtonAction(r) == Nothing
    ensures Exclusive(r) && r.resumeFile.None? && !r.notReady
    ensures HoursBlocked(r.hours) && !AnyDay(r.days)
    ensures WeeklyHoursNumber(r.hours) == 0.0
  {
    Form(1, "", "", "", "", "", Weeks, Unset, NoDays(), None, "", false)
  }

  /** Step 3's hours are missing (`String(h).trim() === ""`) or over the limit (`Number(h) > 105`). */
  predicate HoursBlocked(h: HoursField) {
    h.Unset? || h.n > 105
  }

  /** The navigation component's `isNextDisabled`. */
  predicate NextDisabled(f: Form) {
    (f.step == 1 && (Text.IsBlank(f.jobTitle) || Text.IsBlank(f.industry) || Text.IsBlank(f.expLevel)))
    || (f.step == 2 && Text.IsBlank(f.duration))
    || (f.step == 3 && (HoursBlocked(f.hours) || !AnyDay(f.days)))
    || (f.step == 4 && f.resumeFile.None? && !f.notReady)
  }

  /** The page's own guard in `handleNextStep`: on step 1 it blocks only when all three fields are blank. */
  predicate PageBlocks(f: Form) {
    (f.step == 1 && Text.IsBlank(f.jobTitle) && Text.IsBlank(f.industry) && Text.IsBlank(f.expLevel))
    || (f.step == 2 && Text.IsBlank(f.duration))
    || (f.step == 3 && (HoursBlocked(f.hours) || !AnyDay(f.days)))
    || (f.step == 4 && f.resumeFile.None? && !f.notReady)
  }

  /**
   * `handleNextStep`: one step forward unless the page's guard blocks; nothing else changes,
   * so the goal later sent is the same. A click on the enabled button always advances, and
   * from a step below 4 stays within 1..4.
   */
  function HandleNextStep(f: Form): (r: Form)
    ensures r.step == f.step + 1 <==> !PageBlocks(f)
    ensures r.step == f.step || r.step == f.step + 1
    ensures r.(step := f.step) == f && PayloadOf(r) == PayloadOf(f)
    ensures ButtonAction(f) == NextStep ==> r.step == f.step + 1
    ensures InRange(f) && ButtonAction(f) == NextStep ==> InRange(r)
    ensures Exclusive(f) ==> Exclusive(r)
  {
    if PageBlocks(f) then f else f.(step := f.step + 1)
  }

  /**
   * The page's guard is the component's guard on steps 2-4 and weaker on step 1: whatever the
   * page blocks, the button is already disabled for.
   */
  lemma PageGuardWeaker(f: Form)
    ensures PageBlocks(f) ==> NextDisabled(f)
    ensures f.step != 1 ==> (PageBlocks(f) <==> NextDisabled(f))
  {
  }

  /**
   * A step-1 form with only a job title passes the page's guard although the button is
   * disabled for it: only the disabled button keeps such a form on step 1.
   */
  lemma TitleOnlyPassesPageGuard()
    ensures var f := InitialForm().(jobTitle := "x");
      NextDisabled(f) && !PageBlocks(f) && HandleNextStep(f).step == 2
  {
    var f := InitialForm().(jobTitle := "x");
    assert !Text.IsSpace(f.jobTitle[0]);
    assert Text.IsBlank(f.industry);
  }

  /** What a click on the forward button does. */
  datatype Action = Nothing | NextStep | ConfirmSetup

  /** `disabled={isNextDisabled}` and `onClick={step < 4 ? handleNextStep : handleConfirmSetup}`. */
  function ButtonAction(f: Form): (r: Action)
    ensures r == Nothing <==> NextDisabled(f)
    ensures r == NextStep <==> !NextDisabled(f) && f.step < 4
    ensures r == ConfirmSetup <==> !NextDisabled(f) && f.step >= 4
  {
    if NextDisabled(f) then Nothing else if f.step < 4 then NextStep else ConfirmSetup
  }

  /** A click that reaches `handleNextStep` always advances: the page's guard never blocks it. */
  lemma ClickedNextAdvances(f: Form)
    requires ButtonAction(f) == NextStep
    ensures HandleNextStep(f) == f.(step := f.step + 1)
  {
    PageGuardWeaker(f);
  }

  /** The Back button, shown from step 2 on. */
  predicate BackShown(f: Form) { f.step > 1 }

  /**
   * `handlePrevStep`: one step back, and the chosen resume file and its text are dropped, so
   * coming back to step 4 the user must choose again; every other field is kept.
   */
  function HandlePrevStep(f: Form): (r: Form)
    ensures r.step == f.step - 1 && r.resumeFile.None? && r.resumeText == ""
    ensures r.(step := f.step, resumeFile := f.resumeFile, resumeText := f.resumeText) == f
    ensures BackShown(f) && InRange(f) ==> InRange(r)
    ensures Exclusive(r)
    ensures NextDisabled(r.(step := 4)) <==> !f.notReady
  {
    f.(step := f.step - 1, resumeFile := None, resumeText := "")
  }

  predicate InRange(f: Form) { 1 <= f.step <= 4 }

  /** The buttons keep the step within 1..4: Next is offered below 4, Back above 1. */
  lemma ButtonsStayInRange(f: Form)
    requires InRange(f)
    ensures ButtonAction(f) == NextStep ==> InRange(HandleNextStep(f))
    ensures BackShown(f) ==> InRange(HandlePrevStep(f))
  {
  }

  /**
   * `handleFileUpload`: a chosen file is kept and "not ready" is cleared, so on step 4 the
   * Confirm button is enabled and the goal carries resume text; no file changes nothing.
   */
  function FileUpload(f: Form, file: Option<string>): (r: Form)
    ensures file.None? ==> r == f
    ensures file.Some? ==> r.resumeFile == file && Exclusive(r) && PayloadOf(r).resumeText.Some?
    ensures file.Some? && r.step == 4 ==> ButtonAction(r) == ConfirmSetup
    ensures Exclusive(f) ==> Exclusive(r)
    ensures r.(resumeFile := f.resumeFile, notReady := f.notReady) == f
  {
    match file
    case None => f
    case Some(_) => f.(resumeFile := file, notReady := false)
  }

  /** `handleNotReadyChange`: flips "not ready"; checking it drops the file, unchecking keeps it. */
  function NotReadyChange(f: Form): (r: Form)
    ensures r.notReady == !f.notReady && Exclusive(r)
    ensures r.notReady ==> r.resumeFile.None? && PayloadOf(r).resumeText.None?
    ensures r.notReady && r.step == 4 ==> ButtonAction(r) == ConfirmSetup
    ensures !r.notReady ==> r.resumeFile == f.resumeFile
    ensures r.(notReady := f.notReady, resumeFile := f.resumeFile) == f
  {
    var checked := !f.notReady;
    if checked then f.(notReady := true, resumeFile := None) else f.(notReady := false)
  }

  /** Never both a resume file and "not ready". */
  predicate Exclusive(f: Form) {
    !(f.resumeFile.Some? && f.notReady)
  }

  /**
   * The two resume handlers leave at most one of "file chosen" and "not ready" set, whatever
   * the state before; the step buttons keep it.
   */
  lemma HandlersKeepExclusive(f: Form, file: Option<string>)
    ensures file.Some? ==> Exclusive(FileUpload(f, file))
    ensures Exclusive(NotReadyChange(f))
    ensures Exclusive(f) ==> Exclusive(FileUpload(f, file))
    ensures Exclusive(f) ==> Exclusive(HandleNextStep(f)) && Exclusive(HandlePrevStep(f))
  {
  }

  /** Step 4 allows confirming exactly when one of the two resume choices is made, never both. */
  lemma ResumeStepChoice(f: Form)
    requires f.step == 4 && Exclusive(f)
    ensures !NextDisabled(f) <==> (f.resumeFile.Some? != f.notReady)
  {
  }

  /**
   * `setWeeklyHours(Math.min(105, isNaN(parseInt(v)) ? 0 : parseInt(v)))`: an edited value
   * never exceeds the limit step 3 checks, unreadable text counts as 0, and a typed numeral
   * is kept up to 105.
   */
  function HoursFromInput(v: string): (r: int)
    ensures r <= 105 && !HoursBlocked(Hours(r))
    ensures ParseInt(v).None? ==> r == 0
    ensures ParseInt(v).Some? ==> r == Min(105, ParseInt(v).value)
    ensures ParseInt(v).Some? && ParseInt(v).value <= 105 ==> r == ParseInt(v).value
    ensures v != [] && DigitString(v) ==> r == Min(105, DecimalValue(v))
  {
    assert v != [] && DigitString(v) ==> ParseInt(v) == Some(DecimalValue(v)) by {
      if v != [] && DigitString(v) {
        ParseIntDigits(v);
      }
    }
    var parsed := ParseInt(v);
    Min(105, if parsed.None? then 0 else parsed.value)
  }

  /**
   * A typed whole number of hours is kept up to 105 and capped above it; there is no lower
   * bound, so a typed negative number is stored as it is.
   */
  lemma HoursFromNumber(n: nat)
    ensures HoursFromInput(NatString(n)) == Min(105, n)
    ensures n > 0 ==> HoursFromInput("-" + NatString(n)) == -(n as int)
  {
    ParseNatString(n);
    if n > 0 {
      NegativeDigits(NatString(n));
      NatStringValue(n);
    }
  }

  /** `parseInt` of `-digits` is minus their value. */
  lemma NegativeDigits(ds: string)
    requires ds != [] && DigitString(ds)
    ensures ParseInt("-" + ds) == Some(-(DecimalValue(ds) as int))
  {
    var s := "-" + ds;
    assert s[0] == '-' && s[1..] == ds;
    Text.TrimStartNoSpace(s);
    DecimalIntDigits(ds);
  }

  /**
   * Editing the hours input: after it the hours never hold step 3 back, only a missing study
   * day does, and the goal sends the edited number; nothing else in the form changes.
   */
  function SetHours(f: Form, v: string): (r: Form)
    ensures !HoursBlocked(r.hours)
    ensures f.step == 3 ==> (NextDisabled(r) <==> !AnyDay(r.days))
    ensures WeeklyHoursNumber(r.hours) == HoursFromInput(v) as real
    ensures r.(hours := f.hours) == f
  {
    var h := Hours(HoursFromInput(v));
    HoursUnblocked(f, h);
    f.(hours := h)
  }

  /** Hours that pass step 3's check leave only the study days to decide it. */
  lemma HoursUnblocked(f: Form, h: HoursField)
    requires !HoursBlocked(h)
    ensures f.step == 3 ==> (NextDisabled(f.(hours := h)) <==> !AnyDay(f.days))
  {
  }

  /** Once the hours input has been edited, step 3 is held back only by a missing study day. */
  lemma EditedHoursNeverBlock(f: Form, v: string)
    requires f.step == 3
    ensures NextDisabled(SetHours(f, v)) <==> !AnyDay(f.days)
  {
  }

  /** `handleDayToggle`: flips one study day; nothing else in the form changes. */
  function ToggleDay(f: Form, w: Weekday): (r: Form)
    ensures Get(r.days, w) == !Get(f.days, w)
    ensures forall u :: u != w ==> Get(r.days, u) == Get(f.days, u)
    ensures r == f.(days := r.days)
  {
    f.(days := Toggle(f.days, w))
  }

  /** Toggling the same day twice gives back the form. */
  lemma ToggleDayTwice(f: Form, w: Weekday)
    ensures ToggleDay(ToggleDay(f, w), w) == f
  {
    ToggleTwice(f.days, w);
  }

  /** The multiplier the duration preview applies per unit. */
  function WeeksPer(u: Unit): (r: nat)
    ensures r >= 1
  {
    match u
    case Weeks => 1
    case Months => 4
    case Years => 52
  }

  /** `parseInt(value) || 0`: `NaN` (and 0) become 0. */
  function OrZero(n: Option<int>): (r: int)
    ensures n.None? ==> r == 0
    ensures n.Some? ==> r == n.value
  {
    if n.None? then 0 else n.value
  }

  /** `convertToWeeks`: the duration preview. */
  function ConvertToWeeks(value: string, u: Unit): (r: int)
    ensures ParseInt(value).None? ==> r == 0
    ensures ParseInt(value).Some? ==> r == ParseInt(value).value * WeeksPer(u)
  {
    OrZero(ParseInt(value)) * WeeksPer(u)
  }

  /** For a fixed unit the preview grows with the number read from the field. */
  lemma ConvertMonotone(v1: string, v2: string, u: Unit)
    requires OrZero(ParseInt(v1)) <= OrZero(ParseInt(v2))
    ensures ConvertToWeeks(v1, u) <= ConvertToWeeks(v2, u)
  {
    var a, b, k := OrZero(ParseInt(v1)), OrZero(ParseInt(v2)), WeeksPer(u);
    assert a * k <= b * k by {
      assert (b - a) * k >= 0;
    }
  }

  /** `duration_weeks`: `Number(duration)` times 1 for weeks, 4 for months and 52 otherwise. */
  function DurationWeeks(duration: string, u: Unit): (r: JsNumber)
    ensures r.None? <==> ToNumber(duration).None?
    ensures r.Some? ==> r.value == InWeeks(ToNumber(duration).value, u)
  {
    match ToNumber(duration)
    case None => None
    case Some(x) => Some(InWeeks(x, u))
  }

  /** A duration in the given unit, in weeks. */
  function InWeeks(x: real, u: Unit): real {
    match u
    case Weeks => x
    case Months => x * 4.0
    case Years => x * 52.0
  }

  /** Scaling before or after the conversion to a real number gives the same weeks. */
  lemma InWeeksWhole(n: int, u: Unit)
    ensures InWeeks(n as real, u) == (n * WeeksPer(u)) as real
  {
  }

  /** Text that `parseInt` and `Number` both read as the whole number `n` previews what is saved. */
  lemma PreviewAgreesWithPayload(s: string, n: nat, u: Unit)
    requires ParseInt(s) == Some(n) && ToNumber(s) == Some(n as real)
    ensures DurationWeeks(s, u) == Some(ConvertToWeeks(s, u) as real)
  {
    InWeeksWhole(n, u);
  }

  /** In particular a whole number typed in decimal previews exactly the saved duration. */
  lemma PreviewAgreesOnNumeral(n: nat, u: Unit, s: string)
    requires s == NatString(n)
    ensures DurationWeeks(s, u) == Some(ConvertToWeeks(s, u) as real)
  {
    ParseNatString(n);
    PreviewAgreesWithPayload(s, n, u);
  }

  /**
   * `weekly_hours: Number(weeklyHours)`; the untouched field `""` reads as 0. The number sent
   * is a whole number, at most 105 whenever step 3 lets the form through.
   */
  function WeeklyHoursNumber(h: HoursField): (r: real)
    ensures r == r.Floor as real
    ensures h.Hours? ==> r.Floor == h.n
    ensures h.Unset? ==> r == 0.0
    ensures !HoursBlocked(h) ==> r <= 105.0
  {
    match h
    case Unset => 0.0
    case Hours(n) => n as real
  }

  /** The goal record `handleConfirmSetup` sends. */
  datatype GoalPayload = GoalPayload(targetPosition: string, industry: string, expLevel: string,
                                     responsibility: Option<string>, durationWeeks: JsNumber,
                                     weeklyHours: real, resumeText: Option<string>, days: Days)

  function PayloadOf(f: Form): (r: GoalPayload)
    ensures r.targetPosition == f.jobTitle && r.industry == f.industry && r.expLevel == f.expLevel
    ensures r.responsibility.None? <==> f.responsibility == ""
    ensures r.responsibility.Some? ==> r.responsibility.value == f.responsibility
    ensures r.durationWeeks == DurationWeeks(f.duration, f.unit)
    ensures r.weeklyHours == WeeklyHoursNumber(f.hours)
    ensures r.resumeText.None? <==> f.notReady
    ensures r.resumeText.Some? ==> r.resumeText.value == f.resumeText
    ensures r.days == f.days
  {
    GoalPayload(f.jobTitle, f.industry, f.expLevel,
                if f.responsibility == "" then None else Some(f.responsibility),
                DurationWeeks(f.duration, f.unit), WeeklyHoursNumber(f.hours),
                if f.notReady then None else Some(f.resumeText), f.days)
  }

  /** The page: the login check, the loading flag, the setup-complete flag and the form. */
  datatype Page = Page(authenticated: bool, loading: bool, complete: bool, form: Form)

  /** A request the page makes to the backend. */
  datatype Call = FetchGoal | UpdateGoal(payload: GoalPayload) | SaveResume(file: string)

  /** A missing or empty stored value is falsy. */
  predicate Present(v: Option<string>) { v.Some? && v.value != "" }

  /**
   * The mount effect: without a token and a user id the page redirects to sign-in and stays on
   * "Loading..."; otherwise it is authenticated and fetches the goal.
   */
  function Mount(token: Option<string>, userId: Option<string>): (r: (Page, seq<Call>))
    ensures r.0.loading && !r.0.complete && r.0.form == InitialForm()
    ensures r.0.authenticated <==> Present(token) && Present(userId)
    ensures r.1 == (if r.0.authenticated then [FetchGoal] else [])
  {
    var p := Page(false, true, false, InitialForm());
    if !Present(token) || !Present(userId) then (p, []) else (p.(authenticated := true), [FetchGoal])
  }

  /**
   * The goal fetch settles: an existing goal (a truthy answer) skips the wizard; a failure or
   * an empty answer keeps it. Loading ends in every case.
   */
  function GoalFetched(p: Page, answer: Option<bool>): (r: Page)
    ensures !r.loading && r.form == p.form && r.authenticated == p.authenticated
    ensures r.complete <==> p.complete || (answer.Some? && answer.value)
  {
    var q := if answer.Some? && answer.value then p.(complete := true) else p;
    q.(loading := false)
  }

  /**
   * `handleConfirmSetup`: the goal is sent first; the resume file, if any, only after the goal
   * succeeded; the setup is complete only when every request made succeeded.
   */
  function Confirm(p: Page, goalOk: bool, saveOk: bool): (r: (Page, seq<Call>))
    ensures |r.1| >= 1 && r.1[0] == UpdateGoal(PayloadOf(p.form))
    ensures r.1 == if goalOk && p.form.resumeFile.Some? then [UpdateGoal(PayloadOf(p.form)), SaveResume(p.form.resumeFile.value)]
                   else [UpdateGoal(PayloadOf(p.form))]
    ensures r.0.complete <==> p.complete || (goalOk && (p.form.resumeFile.None? || saveOk))
    ensures r.0.(complete := p.complete) == p
  {
    var update := UpdateGoal(PayloadOf(p.form));
    if !goalOk then (p, [update])
    else match p.form.resumeFile
      case None => (p.(complete := true), [update])
      case Some(file) =>
        if saveOk then (p.(complete := true), [update, SaveResume(file)])
        else (p, [update, SaveResume(file)])
  }

  /** What the page shows. */
  datatype View = LoadingScreen | Wizard(step: int, backShown: bool, nextDisabled: bool) | DashboardHeading

  function PageView(p: Page): (r: View)
    ensures r == LoadingScreen <==> p.loading
    ensures r == DashboardHeading <==> !p.loading && p.complete
    ensures r.Wizard? ==> r.step == p.form.step && r.backShown == BackShown(p.form) && r.nextDisabled == NextDisabled(p.form)
  {
    if p.loading then LoadingScreen
    else if p.complete then DashboardHeading
    else Wizard(p.form.step, BackShown(p.form), NextDisabled(p.form))
  }

  /** Without stored credentials the page never leaves the loading screen and requests nothing. */
  lemma RedirectShowsLoading(token: Option<string>, userId: Option<string>)
    requires !Present(token) || !Present(userId)
    ensures PageView(Mount(token, userId).0) == LoadingScreen && Mount(token, userId).1 == []
  {
  }

  /** Nothing on the page ever sets the resume text, so the payload's text is `null` or empty. */
  lemma ResumeTextStaysEmpty(f: Form, file: Option<string>, w: Weekday, v: string)
    requires f.resumeText == ""
    ensures HandleNextStep(f).resumeText == "" && HandlePrevStep(f).resumeText == ""
    ensures FileUpload(f, file).resumeText == "" && NotReadyChange(f).resumeText == ""
    ensures SetHours(f, v).resumeText == "" && ToggleDay(f, w).resumeText == ""
    ensures PayloadOf(f).resumeText == None || PayloadOf(f).resumeText == Some("")
  {
  }
}
