/**
 * The two learn-skill editors. The card panel edits focus and confidence scores in place,
 * deletes cards, and on save rescales the focus scores into shares of their total (four
 * decimals). The skill step keeps the scores as two-decimal edit strings, parses them back
 * on save, and rescales both scores the way the skill-generation endpoint does, with
 * `toFixed(2)` in place of Python's `round`.
 *
 * A JavaScript number is a `JsNumber`: `None` is `NaN`, and arithmetic involving `NaN`
 * gives `NaN`.
 */
module SkillEditor {
  import opened Wrappers
  import opened Numeric
  import opened NumberText
  import GenerateSkills

  /** `{ skill_name, focus_score, confidence_score }` as the editors hold it. */
  datatype Skill = Skill(name: string, focus: JsNumber, confidence: JsNumber)

  /** `isNaN(x) ? 0 : x` */
  function Clean(x: JsNumber): real {
    if x.Some? then x.value else 0.0
  }

  /** Every score of the list is a number. */
  predicate AllNumbers(s: seq<Skill>) {
    forall i :: 0 <= i < |s| ==> s[i].focus.Some? && s[i].confidence.Some?
  }

  // ----- Per-index edits and deletion (both editors) -----

  /** `handleFocusChange(index, value)`: only that card's focus changes. */
  function SetFocus(s: seq<Skill>, index: int, v: JsNumber): (r: seq<Skill>)
    ensures |r| == |s|
    ensures forall j :: 0 <= j < |s| && j != index ==> r[j] == s[j]
    ensures 0 <= index < |s| ==>
              r[index].focus == v && r[index].name == s[index].name && r[index].confidence == s[index].confidence
  {
    seq(|s|, j requires 0 <= j < |s| => if j == index then s[j].(focus := v) else s[j])
  }

  /** `handleConfidenceChange(index, value)`: only that card's confidence changes. */
  function SetConfidence(s: seq<Skill>, index: int, v: JsNumber): (r: seq<Skill>)
    ensures |r| == |s|
    ensures forall j :: 0 <= j < |s| && j != index ==> r[j] == s[j]
    ensures 0 <= index < |s| ==>
              r[index].confidence == v && r[index].name == s[index].name && r[index].focus == s[index].focus
  {
    seq(|s|, j requires 0 <= j < |s| => if j == index then s[j].(confidence := v) else s[j])
  }

  /**
   * A second edit of the same card's focus replaces the first, and writing back the value a
   * card already has changes nothing.
   */
  lemma SetFocusLastWins(s: seq<Skill>, index: int, v: JsNumber, w: JsNumber)
    ensures SetFocus(SetFocus(s, index, v), index, w) == SetFocus(s, index, w)
    ensures 0 <= index < |s| ==> SetFocus(s, index, s[index].focus) == s
  {
  }

  /** `skills.filter((_, i) => i !== index)` */
  function Delete(s: seq<Skill>, index: int): (r: seq<Skill>)
    ensures 0 <= index < |s| ==> |r| == |s| - 1
    ensures !(0 <= index < |s|) ==> r == s
    ensures 0 <= index < |s| ==> forall j :: 0 <= j < |r| ==> r[j] == (if j < index then s[j] else s[j + 1])
  {
    if 0 <= index < |s| then s[..index] + s[index + 1..] else s
  }

  /** Deleting removes exactly the one card: together with it, the cards are those of before. */
  lemma DeleteRemovesOne(s: seq<Skill>, index: int)
    requires 0 <= index < |s|
    ensures multiset(Delete(s, index)) + multiset{s[index]} == multiset(s)
  {
    assert s == s[..index] + [s[index]] + s[index + 1..];
  }

  // ----- Scores: totals and maxima -----

  /** `skills.reduce((sum, s) => sum + s.focus_score, 0)`: `NaN` as soon as one focus is. */
  function FocusTotal(s: seq<Skill>): (r: JsNumber)
    ensures r.Some? <==> forall i :: 0 <= i < |s| ==> s[i].focus.Some?
    ensures r.Some? ==> r.value == Sum(CleanFoci(s))
  {
    if s == [] then Some(0.0)
    else
      var rest := FocusTotal(s[1..]);
      assert CleanFoci(s)[1..] == CleanFoci(s[1..]);
      assert forall i :: 1 <= i < |s| ==> s[1..][i - 1] == s[i];
      if s[0].focus.Some? && rest.Some? then Some(s[0].focus.value + rest.value) else None
  }

  /** The focus scores with `NaN` read as 0. */
  function CleanFoci(s: seq<Skill>): (r: seq<real>)
    ensures |r| == |s| && forall i :: 0 <= i < |s| ==> r[i] == Clean(s[i].focus)
  {
    seq(|s|, i requires 0 <= i < |s| => Clean(s[i].focus))
  }

  /** `Math.max(...confidences with NaN read as 0, 0)` */
  function MaxConfidence(s: seq<Skill>): (r: real)
    ensures r >= 0.0
    ensures forall i :: 0 <= i < |s| ==> Clean(s[i].confidence) <= r
    ensures r == 0.0 || exists i :: 0 <= i < |s| && Clean(s[i].confidence) == r
  {
    if s == [] then 0.0
    else
      var rest := MaxConfidence(s[1..]);
      assert forall i :: 1 <= i < |s| ==> s[1..][i - 1] == s[i];
      if rest == 0.0 || Clean(s[0].confidence) >= rest then MaxR(Clean(s[0].confidence), rest)
      else
        var k :| 0 <= k < |s[1..]| && Clean(s[1..][k].confidence) == rest;
        assert Clean(s[k + 1].confidence) == rest;
        rest
  }

  // ----- The card panel -----

  /** One focus as a share of the total, kept to four decimals. */
  function LearnShare(f: JsNumber, total: JsNumber): (r: JsNumber)
    requires total != Some(0.0)
    ensures r.Some? <==> f.Some? && total.Some?
    ensures r.Some? ==> f.value / total.value - 0.00005 <= r.value <= f.value / total.value + 0.00005
  {
    assert 0.5 / Pow10(4) as real == 0.00005;
    if f.Some? && total.Some? then Some(ToFixed(f.value / total.value, 4)) else None
  }

  /**
   * `normalizeFocusScores` of the card panel: a zero total leaves the list alone; otherwise
   * every focus becomes its share of the total to four decimals, and a `NaN` anywhere makes
   * every focus `NaN`. Names and confidences are kept.
   */
  function NormalizeLearn(s: seq<Skill>): (r: seq<Skill>)
    ensures |r| == |s|
    ensures forall i :: 0 <= i < |s| ==> r[i].name == s[i].name && r[i].confidence == s[i].confidence
    ensures FocusTotal(s) == Some(0.0) ==> r == s
    ensures FocusTotal(s).None? ==> forall i :: 0 <= i < |s| ==> r[i].focus.None?
    ensures FocusTotal(s).Some? && FocusTotal(s).value != 0.0 ==>
              forall i :: 0 <= i < |s| ==> r[i].focus == LearnShare(s[i].focus, FocusTotal(s)) && r[i].focus.Some?
  {
    var total := FocusTotal(s);
    if total == Some(0.0) then s
    else seq(|s|, i requires 0 <= i < |s| => s[i].(focus := LearnShare(s[i].focus, total)))
  }

  /** With a positive total, the rescaled focus scores sum to one, within 0.00005 per card. */
  lemma LearnFocusSumNearOne(s: seq<Skill>)
    requires FocusTotal(s).Some? && FocusTotal(s).value > 0.0
    ensures FocusTotal(NormalizeLearn(s)) == Some(Sum(CleanFoci(NormalizeLearn(s))))
    ensures GenerateSkills.SumNearOne(CleanFoci(NormalizeLearn(s)), |s| as real, 0.00005)
  {
    LearnRounded(s);
    ScaledNearOne(CleanFoci(s), CleanFoci(NormalizeLearn(s)), FocusTotal(s).value, |s| as real);
  }

  /** Values each within 0.00005 of their share of a positive total sum to one within 0.00005 apiece. */
  lemma ScaledNearOne(xs: seq<real>, ys: seq<real>, t: real, n: real)
    requires t > 0.0 && Sum(xs) == t && n == |xs| as real
    requires GenerateSkills.Close(Quotients(xs, t), ys, 0.00005)
    ensures GenerateSkills.SumNearOne(ys, n, 0.00005)
  {
    GenerateSkills.SumScaled(xs, Quotients(xs, t), t);
    DivSelf(t);
    GenerateSkills.CloseToOne(Quotients(xs, t), ys, 0.00005, n);
  }

  /** Every element divided by `t`. */
  function Quotients(xs: seq<real>, t: real): (r: seq<real>)
    requires t != 0.0
    ensures |r| == |xs| && forall i :: 0 <= i < |xs| ==> r[i] == xs[i] / t
  {
    seq(|xs|, i requires 0 <= i < |xs| => xs[i] / t)
  }

  /** The rescaled focus scores, each within 0.00005 of its exact share. */
  lemma LearnRounded(s: seq<Skill>)
    requires FocusTotal(s).Some? && FocusTotal(s).value > 0.0
    ensures FocusTotal(NormalizeLearn(s)) == Some(Sum(CleanFoci(NormalizeLearn(s))))
    ensures GenerateSkills.Close(Quotients(CleanFoci(s), FocusTotal(s).value), CleanFoci(NormalizeLearn(s)), 0.00005)
  {
  }

  lemma DivSelf(t: real)
    requires t > 0.0
    ensures t / t == 1.0
  {
  }

  /** A backend request the editors make. */
  datatype Call = FetchSkills | Generate | UpdateSkills(skills: seq<Skill>)

  /** The card panel's state; `originals` is what "Cancel" returns to. */
  datatype LearnPanel = LearnPanel(skills: seq<Skill>, originals: seq<Skill>, loading: bool, editing: bool)

  /** The card panel before its fetch settles: the loading text on any step, nothing to restore. */
  function InitialLearn(): (r: LearnPanel)
    ensures forall step :: LearnPanelView(r, step) == LoadingSkills
    ensures r.skills == [] && !r.editing && LearnCancel(r) == r
  {
    LearnPanel([], [], true, false)
  }

  /** The mount effect: the skills are fetched only on step 3. */
  function LearnMountCalls(step: int): (r: seq<Call>)
    ensures FetchSkills in r <==> step == 3
    ensures forall c :: c in r ==> c == FetchSkills
    ensures |r| <= 1
    ensures r == [] ==> LearnPanelView(InitialLearn(), step) == LoadingSkills
  {
    if step == 3 then [FetchSkills] else []
  }

  /** The fetch settles: an answer becomes both the list and the backup; loading ends. */
  function LearnFetched(p: LearnPanel, answer: Option<seq<Skill>>): (r: LearnPanel)
    ensures !r.loading && r.editing == p.editing
    ensures forall step :: step >= 3 ==> LearnPanelView(r, step) == Cards(r.skills, p.editing)
    ensures answer.Some? ==> r.skills == answer.value && LearnCancel(r).skills == answer.value
    ensures answer.None? ==> r.skills == p.skills && r.originals == p.originals
  {
    match answer
    case None => p.(loading := false)
    case Some(data) => p.(skills := data, originals := data, loading := false)
  }

  /** What the card panel shows. */
  datatype LearnView = LoadingSkills | Nothing | Cards(skills: seq<Skill>, editing: bool)

  function LearnPanelView(p: LearnPanel, step: int): (r: LearnView)
    ensures r == LoadingSkills <==> p.loading
    ensures r == Nothing <==> !p.loading && step < 3
    ensures r.Cards? ==> r.skills == p.skills && r.editing == p.editing
  {
    if p.loading then LoadingSkills
    else if step < 3 then Nothing
    else Cards(p.skills, p.editing)
  }

  /**
   * Loading is checked before the step, and loading only ends after a fetch, which happens
   * only on step 3: mounted on another step the panel shows the loading text, never nothing.
   */
  lemma LearnOffStepKeepsLoading(step: int)
    requires step != 3 && LearnMountCalls(step) == []
    ensures LearnPanelView(InitialLearn(), step) == LoadingSkills
  {
  }

  /** The number inputs are read-only and the delete buttons hidden until "Edit". */
  function LearnFocusInput(p: LearnPanel, index: int, text: string): (r: LearnPanel)
    ensures !p.editing ==> r == p
    ensures |r.skills| == |p.skills| && forall j :: 0 <= j < |r.skills| ==> r.skills[j].name == p.skills[j].name
    ensures p.editing && 0 <= index < |p.skills| ==> r.skills[index].focus == ParseFloat(text)
    ensures r.originals == p.originals && LearnCancel(r) == LearnCancel(p)
  {
    if p.editing then p.(skills := SetFocus(p.skills, index, ParseFloat(text))) else p
  }

  function LearnConfidenceInput(p: LearnPanel, index: int, text: string): (r: LearnPanel)
    ensures !p.editing ==> r == p
    ensures |r.skills| == |p.skills| && forall j :: 0 <= j < |r.skills| ==> r.skills[j].name == p.skills[j].name
    ensures p.editing && 0 <= index < |p.skills| ==> r.skills[index].confidence == ParseFloat(text)
    ensures r.originals == p.originals && LearnCancel(r) == LearnCancel(p)
  {
    if p.editing then p.(skills := SetConfidence(p.skills, index, ParseFloat(text))) else p
  }

  function LearnDelete(p: LearnPanel, index: int): (r: LearnPanel)
    ensures !p.editing || !(0 <= index < |p.skills|) ==> r == p
    ensures p.editing && 0 <= index < |p.skills| ==>
      |r.skills| == |p.skills| - 1 && multiset(r.skills) + multiset{p.skills[index]} == multiset(p.skills)
    ensures r.originals == p.originals && LearnCancel(r) == LearnCancel(p)
  {
    if p.editing then
      assert 0 <= index < |p.skills| ==> multiset(Delete(p.skills, index)) + multiset{p.skills[index]} == multiset(p.skills) by {
        if 0 <= index < |p.skills| {
          DeleteRemovesOne(p.skills, index);
        }
      }
      p.(skills := Delete(p.skills, index))
    else p
  }

  /** `handleCancel`: the backup comes back and editing ends. */
  function LearnCancel(p: LearnPanel): (r: LearnPanel)
    ensures r.skills == r.originals == p.originals && !r.editing && r.loading == p.loading
    ensures forall step :: step >= 3 && !p.loading ==> LearnPanelView(r, step) == Cards(p.originals, false)
  {
    p.(skills := p.originals, editing := false)
  }

  /** The outcome of a save: the new state and the request made. */
  datatype LearnSaved = LearnSaved(panel: LearnPanel, calls: seq<Call>)

  /**
   * `handleSave`: the normalised list is sent; on success it becomes both the list and the
   * backup and editing ends, on failure nothing changes.
   */
  function LearnSave(p: LearnPanel, ok: bool): (r: LearnSaved)
    ensures |r.calls| == 1 && r.calls[0] == UpdateSkills(NormalizeLearn(p.skills))
    ensures |r.calls[0].skills| == |p.skills|
    ensures forall i :: 0 <= i < |p.skills| ==> r.calls[0].skills[i].name == p.skills[i].name
    ensures ok ==> r.panel.skills == r.calls[0].skills && !r.panel.editing && LearnCancel(r.panel) == r.panel
    ensures !ok ==> r.panel == p
  {
    var n := NormalizeLearn(p.skills);
    if ok then LearnSaved(p.(skills := n, originals := n, editing := false), [UpdateSkills(n)])
    else LearnSaved(p, [UpdateSkills(n)])
  }

  /**
   * Whatever was edited or deleted, "Cancel" brings back the backup; after a successful
   * save the backup is the saved list, so "Cancel" then changes nothing.
   */
  lemma LearnCancelRestores(p: LearnPanel, index: int, text: string)
    ensures LearnCancel(LearnFocusInput(p, index, text)) == LearnCancel(p)
    ensures LearnCancel(LearnConfidenceInput(p, index, text)) == LearnCancel(p)
    ensures LearnCancel(LearnDelete(p, index)) == LearnCancel(p)
    ensures var saved := LearnSave(p, true).panel; LearnCancel(saved) == saved
  {
  }

  // ----- The skill step -----

  /** `toFixed(2)` of a score; `NaN` prints as "NaN". */
  function FixedText(x: JsNumber): (r: string)
    ensures |r| >= 3
  {
    if x.Some? then FixedString2(x.value) else "NaN"
  }

  /** The two edit strings of one card. */
  datatype EditPair = EditPair(focus: string, confidence: string)

  /** The step's state; `editValues` maps a card index to its edit strings. */
  datatype StepPanel = StepPanel(skills: seq<Skill>, originals: seq<Skill>, loading: bool, generating: bool,
                                 editing: bool, editValues: map<int, EditPair>)

  /** The skill step before its fetch settles: the loading text, and nothing to restore. */
  function InitialStep(): (r: StepPanel)
    ensures StepPanelView(r) == StepLoading && !r.editing && r.editValues == map[]
    ensures r.skills == [] && StepCancel(r) == r
  {
    StepPanel([], [], true, false, false, map[])
  }

  /** The mount effect: the skills are always fetched. */
  function StepMountCalls(): (r: seq<Call>)
    ensures r == [FetchSkills]
    ensures forall a :: StepPanelView(StepFetched(InitialStep(), a)) != StepLoading
  {
    [FetchSkills]
  }

  function StepFetched(p: StepPanel, answer: Option<seq<Skill>>): (r: StepPanel)
    ensures !r.loading && StepPanelView(r) != StepLoading
    ensures answer.Some? ==> r.skills == answer.value && StepCancel(r).skills == answer.value
    ensures answer.Some? && !p.generating ==> (StepPanelView(r) == GeneratePrompt <==> answer.value == [])
    ensures answer.None? ==> r.skills == p.skills && r.originals == p.originals
    ensures r.generating == p.generating && r.editing == p.editing && r.editValues == p.editValues
  {
    match answer
    case None => p.(loading := false)
    case Some(data) => p.(skills := data, originals := data, loading := false)
  }

  /** The outcome of a handler: the new state, the requests made and whether `onChange` fired. */
  datatype StepResult = StepResult(panel: StepPanel, calls: seq<Call>, changed: bool)

  /**
   * `handleGenerate`: a successful request replaces the list and reports the change; the
   * backup is left alone. Generating is over in every case.
   */
  function StepGenerate(p: StepPanel, answer: Option<seq<Skill>>): (r: StepResult)
    ensures r.calls == [Generate] && !r.panel.generating
    ensures r.changed <==> answer.Some?
    ensures answer.Some? ==> r.panel.skills == answer.value
    ensures answer.None? ==> r.panel.skills == p.skills
    ensures r.panel.originals == p.originals && StepCancel(r.panel).skills == p.originals
    ensures !p.loading ==> StepPanelView(r.panel) != Analyzing && StepPanelView(r.panel) != StepLoading
  {
    match answer
    case None => StepResult(p.(generating := false), [Generate], false)
    case Some(data) => StepResult(p.(skills := data, generating := false), [Generate], true)
  }

  /*
   * The skill step defines `handleEdit`, `handleSave`, `handleCancel` and `handleDelete`,
   * but its view binds none of them: the only handler on an element is `handleGenerate`
   * (stepSkill.tsx:154), and the list itself is the card panel (stepSkill.tsx:167). The
   * four are modelled as they are written; no user action of this step reaches them.
   */

  /** `handleEdit` (bound to no element): one pair of two-decimal strings per card, and editing starts. */
  function StepEdit(p: StepPanel): (r: StepPanel)
    ensures r.editing
    ensures forall i :: i in r.editValues <==> 0 <= i < |p.skills|
    ensures forall i :: 0 <= i < |p.skills| ==>
      r.editValues[i] == EditPair(FixedText(p.skills[i].focus), FixedText(p.skills[i].confidence))
    ensures r == p.(editValues := r.editValues, editing := true)
  {
    var values := map i | 0 <= i < |p.skills| :: EditPair(FixedText(p.skills[i].focus), FixedText(p.skills[i].confidence));
    p.(editValues := values, editing := true)
  }

  /** `text || "0"` */
  function OrZeroText(text: string): (r: string)
    ensures r != []
  {
    if text == "" then "0" else text
  }

  /** `parseFloat(text || "0")` with `NaN` read as 0; a missing entry reads as `undefined`. */
  function ParseScore(text: string): real {
    Clean(ParseFloat(OrZeroText(text)))
  }

  /** The cards with the edit strings read back, before normalisation. */
  function StepParsed(p: StepPanel): (r: seq<Skill>)
    ensures |r| == |p.skills| && AllNumbers(r)
    ensures forall i :: 0 <= i < |r| ==> r[i].name == p.skills[i].name
  {
    seq(|p.skills|, i requires 0 <= i < |p.skills| =>
      var e := if i in p.editValues then p.editValues[i] else EditPair("", "");
      p.skills[i].(focus := Some(ParseScore(e.focus)), confidence := Some(ParseScore(e.confidence))))
  }

  /** A card without an edit entry, or with blank or unreadable strings, saves zeros. */
  lemma MissingEditReadsZero(p: StepPanel, i: int)
    requires 0 <= i < |p.skills| && i !in p.editValues
    ensures StepParsed(p)[i].focus == Some(0.0) && StepParsed(p)[i].confidence == Some(0.0)
  {
    ScanDigitZero();
  }

  /** "0" reads as zero. */
  lemma ScanDigitZero()
    ensures ParseFloat("0") == Some(0.0)
  {
    ScanPlainZero();
    assert DecimalValue("0") == 0;
  }

  /** `parseFloat("0")` scans the single digit. */
  lemma ScanPlainZero()
    ensures Scan("0") == Some(Lexeme(false, "0", []))
  {
    Text.TrimStartNoSpace("0");
    ScanUnsigned("0");
    assert Digits("0") == "0";
  }

  /** `parseFloat("NaN")` reads no digit. */
  lemma ScanNaN()
    ensures ParseFloat("NaN") == None
  {
    Text.TrimStartNoSpace("NaN");
    assert SignFree("NaN") == "NaN";
    assert Digits("NaN") == [];
  }

  /** A score rounded as `toFixed(2)` and read back; `NaN` reads back as 0. */
  function Rounded(x: JsNumber): real {
    if x.Some? then ToFixed(x.value, 2) else 0.0
  }

  /** One edit string, written by `handleEdit` and read back by `handleSave`. */
  lemma FixedTextReadsBack(x: JsNumber)
    ensures ParseScore(FixedText(x)) == Rounded(x)
  {
    if x.Some? {
      ParseFixedString2(x.value);
    } else {
      ScanNaN();
    }
  }

  /**
   * Saving straight after "Edit" reads back every score rounded to two decimals (`NaN` as 0):
   * the edit strings lose nothing beyond that rounding.
   */
  lemma EditThenParseRounds(p: StepPanel)
    ensures var r := StepParsed(StepEdit(p));
      |r| == |p.skills|
      && forall i :: 0 <= i < |r| ==>
        r[i] == p.skills[i].(focus := Some(Rounded(p.skills[i].focus)), confidence := Some(Rounded(p.skills[i].confidence)))
  {
    var q := StepEdit(p);
    var r := StepParsed(q);
    forall i | 0 <= i < |r|
      ensures r[i] == p.skills[i].(focus := Some(Rounded(p.skills[i].focus)), confidence := Some(Rounded(p.skills[i].confidence)))
    {
      FixedTextReadsBack(p.skills[i].focus);
      FixedTextReadsBack(p.skills[i].confidence);
    }
  }

  /** One normalised score: its share of `total` to two decimals, 0 when `total` is not positive. */
  function StepShare(x: real, total: real): real {
    if total > 0.0 then ToFixed(x / total, 2) else 0.0
  }

  /**
   * `normalizeFocusScores` of the skill step: with `NaN` read as 0, each focus becomes its
   * share of the focus total and each confidence its fraction of the largest confidence (at
   * least 0), both to two decimals and 0 when the divisor is not positive.
   */
  function NormalizeStep(s: seq<Skill>): (r: seq<Skill>)
    ensures |r| == |s| && AllNumbers(r)
    ensures forall i :: 0 <= i < |s| ==> r[i].name == s[i].name
    ensures Sum(CleanFoci(s)) <= 0.0 ==> forall i :: 0 <= i < |s| ==> r[i].focus == Some(0.0)
    ensures MaxConfidence(s) <= 0.0 ==> forall i :: 0 <= i < |s| ==> r[i].confidence == Some(0.0)
  {
    var total := Sum(CleanFoci(s));
    var max := MaxConfidence(s);
    seq(|s|, i requires 0 <= i < |s| =>
      s[i].(focus := Some(StepShare(Clean(s[i].focus), total)), confidence := Some(StepShare(Clean(s[i].confidence), max))))
  }

  /** `toFixed(2)` keeps a value of [0, 1] inside [0, 1] and leaves 1 alone. */
  lemma FixedUnit(x: real)
    requires 0.0 <= x <= 1.0
    ensures 0.0 <= ToFixed(x, 2) <= 1.0
    ensures x == 1.0 ==> ToFixed(x, 2) == 1.0
  {
    FixedUnitsHundredths(x);
    var n := FixedUnits(x, 2);
    assert Pow10(2) == 100;
    assert 0 <= n <= 100;
  }

  /** A non-negative share of a positive divisor at least as large lands in [0, 1]. */
  lemma ShareUnit(x: real, total: real)
    requires 0.0 <= x <= total
    ensures 0.0 <= StepShare(x, total) <= 1.0
    ensures x == total && total > 0.0 ==> StepShare(x, total) == 1.0
  {
    if total > 0.0 {
      assert x / total * total == x;
      assert x == total ==> x / total == 1.0;
      FixedUnit(x / total);
    }
  }

  /**
   * With non-negative confidences, every normalised confidence lies in [0, 1], and when some
   * confidence is positive the most confident card gets exactly 1.
   */
  lemma StepConfidenceUnit(s: seq<Skill>)
    requires forall i :: 0 <= i < |s| ==> Clean(s[i].confidence) >= 0.0
    ensures forall i :: 0 <= i < |s| ==> 0.0 <= NormalizeStep(s)[i].confidence.value <= 1.0
    ensures MaxConfidence(s) > 0.0 ==> exists i :: 0 <= i < |s| && NormalizeStep(s)[i].confidence == Some(1.0)
  {
    var max := MaxConfidence(s);
    var r := NormalizeStep(s);
    forall i | 0 <= i < |s|
      ensures 0.0 <= r[i].confidence.value <= 1.0
      && (Clean(s[i].confidence) == max && max > 0.0 ==> r[i].confidence == Some(1.0))
    {
      ShareUnit(Clean(s[i].confidence), max);
    }
  }

  /** The scores as the skill-generation endpoint holds them, `NaN` read as 0. */
  function ToScored(s: seq<Skill>): (r: seq<GenerateSkills.ScoredSkill>)
    ensures |r| == |s|
    ensures forall i :: 0 <= i < |s| ==>
      r[i] == GenerateSkills.ScoredSkill(s[i].name, Clean(s[i].focus), Clean(s[i].confidence))
  {
    seq(|s|, i requires 0 <= i < |s| => GenerateSkills.ScoredSkill(s[i].name, Clean(s[i].focus), Clean(s[i].confidence)))
  }

  /** Where some confidence is positive, both editors divide by the same maximum. */
  lemma SameMaximum(s: seq<Skill>)
    requires MaxConfidence(s) > 0.0
    ensures GenerateSkills.MaxConfidence(ToScored(s)) == MaxConfidence(s)
  {
    var m := MaxConfidence(s);
    var k :| 0 <= k < |s| && Clean(s[k].confidence) == m;
    var b := GenerateSkills.MaxConfidence(ToScored(s));
    assert ToScored(s)[k].confidence == m;
    var j :| 0 <= j < |s| && ToScored(s)[j].confidence == b;
    assert Clean(s[j].confidence) == b;
  }

  /** Where no confidence is positive, both editors give every card confidence 0. */
  lemma NoPositiveMaximum(s: seq<Skill>)
    requires s != [] && MaxConfidence(s) <= 0.0
    ensures GenerateSkills.MaxConfidence(ToScored(s)) <= 0.0
  {
    var b := GenerateSkills.MaxConfidence(ToScored(s));
    var j :| 0 <= j < |s| && ToScored(s)[j].confidence == b;
    assert Clean(s[j].confidence) == b;
  }

  /**
   * The skill step normalises as the skill-generation endpoint does: every score it saves is
   * within 0.01 of the endpoint's for the same list, the two differing only in how a half
   * hundredth is rounded.
   */
  lemma StepMatchesEndpoint(s: seq<Skill>, i: int)
    requires 0 <= i < |s|
    ensures var front := NormalizeStep(s)[i];
      var back := GenerateSkills.Normalize(ToScored(s))[i];
      front.name == back.name
      && back.focus - 0.01 <= front.focus.value <= back.focus + 0.01
      && back.confidence - 0.01 <= front.confidence.value <= back.confidence + 0.01
  {
    var scored := ToScored(s);
    assert GenerateSkills.Focuses(scored) == CleanFoci(s);
    assert 0.5 / Pow10(2) as real == 0.005;
    var max := MaxConfidence(s);
    if max > 0.0 {
      SameMaximum(s);
    } else {
      NoPositiveMaximum(s);
    }
  }

  /**
   * `handleSave` of the skill step (bound to no element): the read-back cards are normalised and sent; on success
   * they become both the list and the backup, editing ends, the edit strings are dropped and
   * the change is reported. On failure nothing changes.
   */
  function StepSave(p: StepPanel, ok: bool): (r: StepResult)
    ensures |r.calls| == 1 && r.calls[0] == UpdateSkills(NormalizeStep(StepParsed(p)))
    ensures |r.calls[0].skills| == |p.skills| && AllNumbers(r.calls[0].skills)
    ensures forall i :: 0 <= i < |p.skills| ==> r.calls[0].skills[i].name == p.skills[i].name
    ensures r.changed <==> ok
    ensures ok ==> r.panel.skills == r.calls[0].skills && !r.panel.editing && r.panel.editValues == map[]
    ensures ok ==> StepCancel(r.panel) == r.panel
    ensures !ok ==> r.panel == p
  {
    var n := NormalizeStep(StepParsed(p));
    if ok then StepResult(p.(skills := n, originals := n, editing := false, editValues := map[]), [UpdateSkills(n)], true)
    else StepResult(p, [UpdateSkills(n)], false)
  }

  /** `handleDelete` of the skill step (bound to no element): the card at `index` goes. */
  function StepDelete(p: StepPanel, index: int): (r: StepPanel)
    ensures !(0 <= index < |p.skills|) ==> r == p
    ensures 0 <= index < |p.skills| ==>
      |r.skills| == |p.skills| - 1 && multiset(r.skills) + multiset{p.skills[index]} == multiset(p.skills)
    ensures r.originals == p.originals && StepCancel(r) == StepCancel(p)
  {
    assert 0 <= index < |p.skills| ==> multiset(Delete(p.skills, index)) + multiset{p.skills[index]} == multiset(p.skills) by {
      if 0 <= index < |p.skills| {
        DeleteRemovesOne(p.skills, index);
      }
    }
    p.(skills := Delete(p.skills, index))
  }

  /** `handleCancel` of the skill step (bound to no element): the backup comes back and editing ends. */
  function StepCancel(p: StepPanel): (r: StepPanel)
    ensures r.skills == r.originals == p.originals && !r.editing && r.editValues == p.editValues
    ensures !p.loading && !p.generating ==> (StepPanelView(r) == GeneratePrompt <==> p.originals == [])
  {
    p.(skills := p.originals, editing := false)
  }

  /**
   * Generated skills are not copied to the backup, so "Cancel" after a generate brings back
   * the list as fetched; after a successful save it changes nothing.
   */
  lemma StepCancelAfterGenerateAndSave(p: StepPanel, data: seq<Skill>)
    ensures StepCancel(StepGenerate(p, Some(data)).panel).skills == p.originals
    ensures var saved := StepSave(p, true).panel; StepCancel(saved) == saved
  {
  }

  /** What the skill step shows; the card list itself is the card panel on step 3. */
  datatype StepView = StepLoading | Analyzing | GeneratePrompt | CardPanel

  function StepPanelView(p: StepPanel): (r: StepView)
    ensures r == StepLoading <==> p.loading
    ensures r == Analyzing <==> !p.loading && p.generating
    ensures r == GeneratePrompt <==> !p.loading && !p.generating && p.skills == []
  {
    if p.loading then StepLoading
    else if p.generating then Analyzing
    else if p.skills == [] then GeneratePrompt
    else CardPanel
  }
}
