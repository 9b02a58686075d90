/**
 * The two goal editors: the goal page's panel, which warns before a change that will wipe
 * generated skills or a schedule and then clears them, and the plain panel that only saves.
 * Both show the stored goal read-only until "Edit" is pressed, edit a copy, and either save
 * the copy or drop it on "Cancel".
 */
module GoalEditor {
  import opened Wrappers
  import opened Numeric
  import opened Calendar
  import opened StudyDays

  /** The goal as the editor holds it: the backend's JSON record. */
  datatype GoalForm = GoalForm(targetPosition: string, industry: string, expLevel: string,
                               weeklyHours: JsNumber, durationWeeks: JsNumber,
                               responsibility: Option<string>, days: Days)

  /**
   * An input's `onChange`: the text fields store the typed text, the two number fields store
   * `Number(text)`.
   */
  datatype Change =
    | TargetPosition(text: string)
    | Industry(text: string)
    | ExpLevel(text: string)
    | WeeklyHours(text: string)
    | DurationWeeks(text: string)
    | Responsibility(text: string)

  /** `handleChange(field, value)`: `{ ...prev, [field]: value }`. */
  function HandleChange(g: GoalForm, c: Change): (r: GoalForm)
    ensures r.targetPosition == if c.TargetPosition? then c.text else g.targetPosition
    ensures r.industry == if c.Industry? then c.text else g.industry
    ensures r.expLevel == if c.ExpLevel? then c.text else g.expLevel
    ensures r.weeklyHours == if c.WeeklyHours? then ToNumber(c.text) else g.weeklyHours
    ensures r.durationWeeks == if c.DurationWeeks? then ToNumber(c.text) else g.durationWeeks
    ensures r.responsibility == if c.Responsibility? then Some(c.text) else g.responsibility
    ensures r.days == g.days
  {
    match c
    case TargetPosition(t) => g.(targetPosition := t)
    case Industry(t) => g.(industry := t)
    case ExpLevel(t) => g.(expLevel := t)
    case WeeklyHours(t) => g.(weeklyHours := ToNumber(t))
    case DurationWeeks(t) => g.(durationWeeks := ToNumber(t))
    case Responsibility(t) => g.(responsibility := Some(t))
  }

  /** Whether two changes write the same field. */
  predicate SameField(a: Change, b: Change) {
    (a.TargetPosition? && b.TargetPosition?) || (a.Industry? && b.Industry?) || (a.ExpLevel? && b.ExpLevel?)
    || (a.WeeklyHours? && b.WeeklyHours?) || (a.DurationWeeks? && b.DurationWeeks?)
    || (a.Responsibility? && b.Responsibility?)
  }

  /**
   * A later change to the same field overrides an earlier one, and changes to different
   * fields can be made in either order.
   */
  lemma ChangesCompose(g: GoalForm, a: Change, b: Change)
    ensures SameField(a, b) ==> HandleChange(HandleChange(g, a), b) == HandleChange(g, b)
    ensures !SameField(a, b) ==> HandleChange(HandleChange(g, a), b) == HandleChange(HandleChange(g, b), a)
  {
  }

  /** `toggleDay(day)`: `{ ...prev, [day]: !prev[day] }`. */
  function ToggleDay(g: GoalForm, w: Weekday): (r: GoalForm)
    ensures Get(r.days, w) == !Get(g.days, w)
    ensures forall u :: u != w ==> Get(r.days, u) == Get(g.days, u)
    ensures r == g.(days := r.days)
  {
    g.(days := Toggle(g.days, w))
  }

  /** The warning shown before a goal change wipes generated data. */
  datatype Warning = SkillsAndSchedule | SkillsOnly | ScheduleOnly

  /** The warning `handleSave` picks, if any. */
  function WarningFor(hasSkills: bool, hasSchedule: bool): (r: Option<Warning>)
    ensures r.None? <==> !hasSkills && !hasSchedule
    ensures r == Some(SkillsAndSchedule) <==> hasSkills && hasSchedule
    ensures r == Some(SkillsOnly) <==> hasSkills && !hasSchedule
    ensures r == Some(ScheduleOnly) <==> !hasSkills && hasSchedule
  {
    if !hasSkills && !hasSchedule then None
    else if hasSkills && hasSchedule then Some(SkillsAndSchedule)
    else if hasSkills then Some(SkillsOnly)
    else Some(ScheduleOnly)
  }

  /** Whether a warning's message says the skills will be deleted. */
  predicate MentionsSkills(w: Warning) { w != ScheduleOnly }

  /** Whether a warning's message says the schedule and progress will be deleted. */
  predicate MentionsSchedule(w: Warning) { w != SkillsOnly }

  /** The warning names exactly the generated data the user would lose. */
  lemma WarningNamesWhatIsLost(hasSkills: bool, hasSchedule: bool, w: Warning)
    requires WarningFor(hasSkills, hasSchedule) == Some(w)
    ensures MentionsSkills(w) <==> hasSkills
    ensures MentionsSchedule(w) <==> hasSchedule
  {
  }

  /**
   * The panel's state. `goal` is the saved goal and `edited` the copy being edited; both are
   * `None` until the goal arrives (or when the user has none).
   */
  datatype Editor = Editor(goal: Option<GoalForm>, edited: Option<GoalForm>, editing: bool, loading: bool,
                           warning: Option<Warning>, hasSkills: bool, hasSchedule: bool)

  /**
   * The panel before its requests settle: it shows the loading text, is not editing, and
   * has nothing a save would warn about.
   */
  function InitialEditor(): (r: Editor)
    ensures EditorView(r) == LoadingText && !r.editing && r.warning.None?
    ensures WarningFor(r.hasSkills, r.hasSchedule).None?
    ensures Cancel(r) == r
  {
    Editor(None, None, false, true, None, false, false)
  }

  /** A backend request the panel makes. */
  datatype Call = FetchGoal | FetchSkills | FetchSchedule | UpdateGoal(goal: GoalForm) | ClearSkills | ClearSchedule

  /** The mount effect: with a stored user id, the goal, the skills and the schedule are fetched. */
  function MountCalls(userId: Option<string>): (r: seq<Call>)
    ensures FetchGoal in r <==> userId.Some? && userId.value != ""
    ensures FetchSkills in r <==> FetchGoal in r
    ensures FetchSchedule in r <==> FetchGoal in r
    ensures r != [] ==> r[0] == FetchGoal
    ensures forall c :: c in r ==> c.FetchGoal? || c.FetchSkills? || c.FetchSchedule?
  {
    if userId.None? || userId.value == "" then [] else [FetchGoal, FetchSkills, FetchSchedule]
  }

  /**
   * The goal fetch settles: `None` is a failed request; `Some(g)` the answer, which is `null`
   * for a user without a goal. Loading ends either way.
   */
  function GoalArrived(e: Editor, answer: Option<Option<GoalForm>>): (r: Editor)
    ensures !r.loading && r.editing == e.editing && r.warning == e.warning
    ensures answer.Some? && answer.value.Some? ==> EditorView(r) == Details(answer.value.value, e.editing, e.warning)
    ensures answer.Some? ==> Cancel(r).edited == answer.value
    ensures answer.None? ==> EditorView(r) == EditorView(e.(loading := false))
    ensures answer == Some(None) ==> EditorView(r) == LoadingText
    ensures r.hasSkills == e.hasSkills && r.hasSchedule == e.hasSchedule
  {
    match answer
    case None => e.(loading := false)
    case Some(g) => e.(goal := g, edited := g, loading := false)
  }

  /** The skill and schedule fetches: each sets its flag to "the list is non-empty". */
  function SkillsArrived(e: Editor, count: nat): (r: Editor)
    ensures EditorView(r) == EditorView(e)
    ensures var w := WarningFor(r.hasSkills, r.hasSchedule); (w.Some? && MentionsSkills(w.value)) <==> count > 0
    ensures r.hasSchedule == e.hasSchedule && r.goal == e.goal && r.edited == e.edited
  {
    e.(hasSkills := count > 0)
  }

  function ScheduleArrived(e: Editor, count: nat): (r: Editor)
    ensures EditorView(r) == EditorView(e)
    ensures var w := WarningFor(r.hasSkills, r.hasSchedule); (w.Some? && MentionsSchedule(w.value)) <==> count > 0
    ensures r.hasSkills == e.hasSkills && r.goal == e.goal && r.edited == e.edited
  {
    e.(hasSchedule := count > 0)
  }

  /** What the panel shows. */
  datatype View = LoadingText | NoGoalText | Details(goal: GoalForm, editing: bool, warning: Option<Warning>)

  function EditorView(e: Editor): (r: View)
    ensures r == LoadingText <==> e.loading || e.edited.None?
    ensures r == NoGoalText <==> !e.loading && e.edited.Some? && e.goal.None?
    ensures r.Details? ==> r.goal == e.edited.value && r.editing == e.editing && r.warning == e.warning
  {
    if e.loading || e.edited.None? then LoadingText
    else if e.goal.None? then NoGoalText
    else Details(e.edited.value, e.editing, e.warning)
  }

  /** The inputs are read-only and the day buttons inert until "Edit" is pressed. */
  function Input(e: Editor, c: Change): (r: Editor)
    requires e.edited.Some?
    ensures !e.editing ==> r == e
    ensures e.editing ==> r.edited == Some(HandleChange(e.edited.value, c))
    ensures r.goal == e.goal && r.editing == e.editing && Cancel(r) == Cancel(e)
  {
    if e.editing then e.(edited := Some(HandleChange(e.edited.value, c))) else e
  }

  /** `onClick={() => isEditing && toggleDay(day)}` */
  function ClickDay(e: Editor, w: Weekday): (r: Editor)
    requires e.edited.Some?
    ensures !e.editing ==> r == e
    ensures e.editing ==> r.edited.Some? && Get(r.edited.value.days, w) != Get(e.edited.value.days, w)
    ensures e.editing ==> r.edited.value.(days := e.edited.value.days) == e.edited.value
    ensures r.goal == e.goal && r.editing == e.editing && Cancel(r) == Cancel(e)
  {
    if e.editing then e.(edited := Some(ToggleDay(e.edited.value, w))) else e
  }

  /** The "Edit" button. */
  function StartEditing(e: Editor): (r: Editor)
    ensures r.editing && r.goal == e.goal && r.edited == e.edited
    ensures EditorView(e).Details? ==> EditorView(r) == EditorView(e).(editing := true)
    ensures Cancel(r) == Cancel(e)
  {
    e.(editing := true)
  }

  /** `handleCancel`: the copy is reset to the saved goal and editing ends. */
  function Cancel(e: Editor): (r: Editor)
    ensures r.edited == r.goal == e.goal && !r.editing
    ensures !e.loading && e.goal.Some? ==> EditorView(r) == Details(e.goal.value, false, e.warning)
    ensures r.(edited := e.edited, editing := e.editing) == e
  {
    e.(edited := e.goal, editing := false)
  }

  /** Whatever was edited, "Cancel" shows the saved goal again. */
  lemma CancelDiscardsEdits(e: Editor, c: Change, w: Weekday)
    requires e.edited.Some? && e.goal.Some?
    ensures Cancel(Input(e, c)).edited == e.goal && Cancel(ClickDay(e, w)).edited == e.goal
    ensures EditorView(Cancel(Input(e, c))) == EditorView(Cancel(e))
  {
  }

  /** The outcome of a save: the new state and the requests made, in order. */
  datatype Saved = Saved(editor: Editor, calls: seq<Call>)

  /**
   * `confirmAndSave`: send the edited goal, then clear the skills and the schedule the user
   * has; a failing request stops the rest. Only when every request succeeded is the copy the
   * saved goal and editing over. The warning is closed in every case.
   */
  function ConfirmAndSave(e: Editor, goalOk: bool, skillsOk: bool, scheduleOk: bool): (r: Saved)
    requires e.edited.Some?
    ensures |r.calls| >= 1 && r.calls[0] == UpdateGoal(e.edited.value)
    ensures ClearSkills in r.calls <==> goalOk && e.hasSkills
    ensures ClearSchedule in r.calls <==> goalOk && (!e.hasSkills || skillsOk) && e.hasSchedule
    ensures r.editor.warning.None?
    ensures SaveSucceeds(e, goalOk, skillsOk, scheduleOk) ==> r.editor.goal == e.edited && !r.editor.editing
    ensures !SaveSucceeds(e, goalOk, skillsOk, scheduleOk) ==> r.editor == e.(warning := None)
    ensures r.editor.edited == e.edited
  {
    var update := UpdateGoal(e.edited.value);
    var closed := e.(warning := None);
    if !goalOk then Saved(closed, [update])
    else
      var skillCalls := if e.hasSkills then [ClearSkills] else [];
      if e.hasSkills && !skillsOk then Saved(closed, [update] + skillCalls)
      else
        var scheduleCalls := if e.hasSchedule then [ClearSchedule] else [];
        if e.hasSchedule && !scheduleOk then Saved(closed, [update] + skillCalls + scheduleCalls)
        else Saved(closed.(goal := e.edited, editing := false), [update] + skillCalls + scheduleCalls)
  }

  /** Every request `confirmAndSave` makes succeeds. */
  predicate SaveSucceeds(e: Editor, goalOk: bool, skillsOk: bool, scheduleOk: bool) {
    goalOk && (!e.hasSkills || skillsOk) && (!e.hasSchedule || scheduleOk)
  }

  /**
   * A clearing request that fails after the goal was sent leaves the new goal on the server
   * while the panel keeps showing the edited copy in edit mode.
   */
  lemma ClearFailureKeepsEditing(e: Editor, scheduleOk: bool)
    requires e.edited.Some? && e.hasSkills && e.editing
    ensures var r := ConfirmAndSave(e, true, false, scheduleOk);
      UpdateGoal(e.edited.value) in r.calls && r.editor.goal == e.goal && r.editor.editing
  {
  }

  /**
   * `handleSave` on the goal page: with skills or a schedule it only opens the warning that
   * names them; otherwise it saves at once.
   */
  function HandleSave(e: Editor, goalOk: bool, skillsOk: bool, scheduleOk: bool): (r: Saved)
    requires e.edited.Some?
    ensures r.calls == [] <==> e.hasSkills || e.hasSchedule
    ensures r.calls != [] ==> r.calls == [UpdateGoal(e.edited.value)]
    ensures ClearSkills !in r.calls && ClearSchedule !in r.calls
    ensures r.editor.warning.Some? ==>
      (MentionsSkills(r.editor.warning.value) <==> e.hasSkills) && (MentionsSchedule(r.editor.warning.value) <==> e.hasSchedule)
    ensures r.editor.edited == e.edited
    ensures r.editor.goal == e.goal || (r.editor.goal == e.edited && !r.editor.editing)
  {
    var w := WarningFor(e.hasSkills, e.hasSchedule);
    if w.Some? then Saved(e.(warning := w), []) else ConfirmAndSave(e, goalOk, skillsOk, scheduleOk)
  }

  /** The warning's "Cancel" closes it and changes nothing else. */
  function DismissWarning(e: Editor): (r: Editor)
    ensures r.warning.None? && r.goal == e.goal && r.edited == e.edited && r.editing == e.editing
    ensures EditorView(e).Details? ==> EditorView(r) == EditorView(e).(warning := None)
    ensures e.edited.Some? ==> forall a, b, c :: ConfirmAndSave(r, a, b, c) == ConfirmAndSave(e, a, b, c)
  {
    e.(warning := None)
  }

  /**
   * Saving, then confirming the warning, clears exactly the generated data the user has, and
   * with neither present one "Save" sends only the goal.
   */
  lemma SaveClearsWhatExists(e: Editor)
    requires e.edited.Some?
    ensures var r := ConfirmAndSave(HandleSave(e, true, true, true).editor, true, true, true);
      (ClearSkills in r.calls <==> e.hasSkills) && (ClearSchedule in r.calls <==> e.hasSchedule)
      && r.editor.goal == e.edited && !r.editor.editing && r.editor.warning.None?
    ensures !e.hasSkills && !e.hasSchedule ==> HandleSave(e, true, true, true).calls == [UpdateGoal(e.edited.value)]
  {
  }

  /**
   * The plain panel's `handleSave`: only the goal is sent; on success the copy becomes the
   * saved goal and editing ends, on failure nothing changes.
   */
  function PlainSave(e: Editor, ok: bool): (r: Saved)
    requires e.edited.Some?
    ensures r.calls == [UpdateGoal(e.edited.value)]
    ensures ok ==> r.editor.goal == e.edited && !r.editor.editing && Cancel(r.editor) == r.editor.(editing := false)
    ensures ok && !e.loading ==> EditorView(r.editor) == Details(e.edited.value, false, e.warning)
    ensures !ok ==> r.editor == e
    ensures !e.hasSkills && !e.hasSchedule && e.warning.None? ==> r == HandleSave(e, ok, true, true)
  {
    var calls := [UpdateGoal(e.edited.value)];
    if ok then Saved(e.(goal := e.edited, editing := false), calls) else Saved(e, calls)
  }

  /** For a user with no skills and no schedule, both panels save the same way. */
  lemma PanelsAgreeWithoutHistory(e: Editor, ok: bool)
    requires e.edited.Some? && !e.hasSkills && !e.hasSchedule && e.warning.None?
    ensures HandleSave(e, ok, true, true) == PlainSave(e, ok)
  {
  }
}
