/**
 * `course_selection.py`: picking, for every skill, courses from the catalogue whose
 * durations add up to roughly the hours the skill deserves.
 */
module CourseSelection {
  import opened Wrappers
  import Text
  import Numeric
  import StableSort
  import PyDict

  /** A catalogue row (the columns the selection reads). */
  datatype Course = Course(
    skill: string, title: string, link: string,
    duration: real, difficulty: real, wilson: real, price: real)

  /** A skill entry `[name, focus, confidence]`. */
  datatype SkillEntry = SkillEntry(name: string, focus: real, confidence: real)

  function FocusSum(skills: seq<SkillEntry>): real {
    if skills == [] then 0.0 else skills[0].focus + FocusSum(skills[1..])
  }

  /** `standardize_focus_scores`: focus scores divided by their total when it is positive. */
  function StandardizeFocus(skills: seq<SkillEntry>): (r: seq<SkillEntry>)
    ensures |r| == |skills|
    ensures forall i :: 0 <= i < |r| ==> r[i].name == skills[i].name && r[i].confidence == skills[i].confidence
    ensures FocusSum(skills) > 0.0 ==> forall i :: 0 <= i < |r| ==> r[i].focus == skills[i].focus / FocusSum(skills)
    ensures FocusSum(skills) <= 0.0 ==> r == skills
  {
    var total := FocusSum(skills);
    if total > 0.0 then Scale(skills, total) else skills
  }

  function Scale(skills: seq<SkillEntry>, total: real): (r: seq<SkillEntry>)
    requires total > 0.0
    ensures |r| == |skills|
    ensures forall i :: 0 <= i < |r| ==> r[i] == skills[i].(focus := skills[i].focus / total)
  {
    if skills == [] then [] else [skills[0].(focus := skills[0].focus / total)] + Scale(skills[1..], total)
  }

  lemma {:induction false} ScaleSum(skills: seq<SkillEntry>, total: real)
    requires total > 0.0
    ensures FocusSum(Scale(skills, total)) == FocusSum(skills) / total
  {
    if skills != [] {
      ScaleSum(skills[1..], total);
      assert Scale(skills, total)[1..] == Scale(skills[1..], total);
      var a, b := skills[0].focus, FocusSum(skills[1..]);
      assert a / total + b / total == (a + b) / total;
    }
  }

  /** After standardising, positive focus scores add up to one. */
  lemma StandardizedSumsToOne(skills: seq<SkillEntry>)
    requires FocusSum(skills) > 0.0
    ensures FocusSum(StandardizeFocus(skills)) == 1.0
  {
    var t := FocusSum(skills);
    ScaleSum(skills, t);
    assert t / t == 1.0;
  }

  /** Standardising twice changes nothing more. */
  lemma StandardizeIdempotent(skills: seq<SkillEntry>)
    ensures StandardizeFocus(StandardizeFocus(skills)) == StandardizeFocus(skills)
  {
    if FocusSum(skills) > 0.0 {
      var once := StandardizeFocus(skills);
      StandardizedSumsToOne(skills);
      assert forall i :: 0 <= i < |once| ==> once[i].focus / 1.0 == once[i].focus;
    }
  }

  /** `difficulty_score * 1.0 + wilson_score * 0.5 - price * 0.1` */
  function GreedyScore(c: Course): real {
    c.difficulty * 1.0 + c.wilson * 0.5 - c.price * 0.1
  }

  function TotalDuration(cs: seq<Course>): real {
    if cs == [] then 0.0 else TotalDuration(cs[..|cs| - 1]) + cs[|cs| - 1].duration
  }

  /** The selection loop over the courses in score order. */
  function GreedyPass(rows: seq<Course>, selected: seq<Course>, total: real,
                      target: real, minCourses: nat, maxCourses: nat): (r: seq<Course>)
    ensures |selected| <= |r| && r[..|selected|] == selected
    ensures forall i :: |selected| <= i < |r| ==> r[i] in rows
    decreases |rows|
  {
    if rows == [] || |selected| >= maxCourses then selected
    else
      var proposed := total + rows[0].duration;
      if proposed > 1.1 * target then GreedyPass(rows[1..], selected, total, target, minCourses, maxCourses)
      else
        var selected' := selected + [rows[0]];
        if proposed >= 0.9 * target && |selected'| >= minCourses then selected'
        else
          var r := GreedyPass(rows[1..], selected', proposed, target, minCourses, maxCourses);
          assert r[..|selected|] == r[..|selected'|][..|selected|];
          r
  }

  /**
   * The pass never grows the selection past `max_courses` and never lets the running
   * duration exceed 110% of the target.
   */
  lemma {:induction false} GreedyPassBounds(rows: seq<Course>, selected: seq<Course>, total: real,
                                            target: real, minCourses: nat, maxCourses: nat)
    requires total == TotalDuration(selected)
    ensures var r := GreedyPass(rows, selected, total, target, minCourses, maxCourses);
      |r| <= Numeric.Max(|selected|, maxCourses) &&
      ((total <= 1.1 * target || |r| > |selected|) ==> TotalDuration(r) <= 1.1 * target)
    decreases |rows|
  {
    if rows != [] && |selected| < maxCourses {
      var proposed := total + rows[0].duration;
      if proposed > 1.1 * target {
        GreedyPassBounds(rows[1..], selected, total, target, minCourses, maxCourses);
      } else {
        var selected' := selected + [rows[0]];
        assert selected'[..|selected'| - 1] == selected;
        if !(proposed >= 0.9 * target && |selected'| >= minCourses) {
          GreedyPassBounds(rows[1..], selected', proposed, target, minCourses, maxCourses);
        }
      }
    }
  }

  /** Starting empty, the pass picks nothing exactly when no course fits the upper bound alone. */
  lemma {:induction false} GreedyPassEmpty(rows: seq<Course>, target: real, minCourses: nat, maxCourses: nat)
    requires maxCourses >= 1
    ensures GreedyPass(rows, [], 0.0, target, minCourses, maxCourses) == []
      <==> forall i :: 0 <= i < |rows| ==> rows[i].duration > 1.1 * target
    decreases |rows|
  {
    if rows != [] {
      if 0.0 + rows[0].duration > 1.1 * target {
        GreedyPassEmpty(rows[1..], target, minCourses, maxCourses);
        assert forall i :: 1 <= i < |rows| ==> rows[1..][i - 1] == rows[i];
      } else {
        var r := GreedyPass(rows, [], 0.0, target, minCourses, maxCourses);
        assert |r| >= 1;
      }
    }
  }

  /** The first course of minimal duration: `sort_values("duration").iloc[0]`. */
  function Shortest(cs: seq<Course>): (c: Course)
    requires cs != []
    ensures c in cs && forall i :: 0 <= i < |cs| ==> c.duration <= cs[i].duration
  {
    if |cs| == 1 then cs[0]
    else
      var rest := Shortest(cs[1..]);
      if cs[0].duration <= rest.duration then cs[0] else rest
  }

  /** `greedy_course_selection(course_df, skill, D_ideal)` with the defaults 1 and 5. */
  function GreedySelect(courses: seq<Course>, target: real): (r: seq<Course>)
    ensures courses == [] <==> r == []
    ensures forall c :: c in r ==> c in courses
  {
    if courses == [] then []
    else
      var ranked := StableSort.SortDesc(courses, GreedyScore);
      var picked := GreedyPass(ranked, [], 0.0, target, 1, 5);
      assert forall c :: c in ranked ==> c in multiset(courses);
      if picked == [] then [Shortest(courses)] else picked
  }

  lemma SameMembers(a: seq<Course>, b: seq<Course>)
    requires multiset(a) == multiset(b)
    ensures forall c :: c in a <==> c in b
  {
    forall c ensures c in a <==> c in b {
      assert c in a <==> c in multiset(a);
      assert c in b <==> c in multiset(b);
    }
  }

  /**
   * The selection obeys the duration window: either it stays within 110% of the target
   * with at most five courses, or no single course fits and the shortest course is the
   * sole pick.
   */
  lemma GreedySelectBounds(courses: seq<Course>, target: real)
    requires courses != []
    ensures var r := GreedySelect(courses, target);
      if forall i :: 0 <= i < |courses| ==> courses[i].duration > 1.1 * target
      then r == [Shortest(courses)]
      else 1 <= |r| <= 5 && TotalDuration(r) <= 1.1 * target
  {
    var ranked := StableSort.SortDesc(courses, GreedyScore);
    GreedyPassEmpty(ranked, target, 1, 5);
    GreedyPassBounds(ranked, [], 0.0, target, 1, 5);
    SameMembers(ranked, courses);
    if exists i :: 0 <= i < |courses| && courses[i].duration <= 1.1 * target {
      var i :| 0 <= i < |courses| && courses[i].duration <= 1.1 * target;
      assert courses[i] in ranked;
    } else {
      forall j | 0 <= j < |ranked| ensures ranked[j].duration > 1.1 * target {
        assert ranked[j] in courses;
      }
    }
  }

  /** `total_duration >= duration_min and len(selected) >= min_courses`: the loop's early stop. */
  predicate GoalMet(cs: seq<Course>, target: real, minCourses: nat) {
    TotalDuration(cs) >= 0.9 * target && |cs| >= minCourses
  }

  /** No prefix of `r` longer than `n` meets the goal. */
  predicate StopsFirst(r: seq<Course>, n: nat, target: real, minCourses: nat) {
    forall k :: n < k < |r| ==> !GoalMet(r[..k], target, minCourses)
  }

  /**
   * The pass stops at the first pick that brings the running duration to 90% of the
   * target with at least `min_courses` courses: no shorter selection it went through
   * met both.
   */
  lemma {:induction false} GreedyPassStopsFirst(rows: seq<Course>, selected: seq<Course>, total: real,
                                                target: real, minCourses: nat, maxCourses: nat)
    requires total == TotalDuration(selected)
    ensures StopsFirst(GreedyPass(rows, selected, total, target, minCourses, maxCourses), |selected|, target, minCourses)
    decreases |rows|
  {
    if rows != [] && |selected| < maxCourses {
      var proposed := total + rows[0].duration;
      if proposed > 1.1 * target {
        GreedyPassStopsFirst(rows[1..], selected, total, target, minCourses, maxCourses);
        assert GreedyPass(rows, selected, total, target, minCourses, maxCourses)
          == GreedyPass(rows[1..], selected, total, target, minCourses, maxCourses);
      } else {
        var selected' := selected + [rows[0]];
        assert selected'[..|selected'| - 1] == selected;
        assert proposed == TotalDuration(selected');
        if !GoalMet(selected', target, minCourses) {
          GreedyPassStopsFirst(rows[1..], selected', proposed, target, minCourses, maxCourses);
          var r := GreedyPass(rows[1..], selected', proposed, target, minCourses, maxCourses);
          assert GreedyPass(rows, selected, total, target, minCourses, maxCourses) == r;
          assert r[..|selected'|] == selected';
        }
      }
    }
  }

  /**
   * `greedy_course_selection` stops as soon as the selection reaches 90% of the target
   * (with one course, the default minimum, already picked): every shorter run of its
   * picks stays below 90%.
   */
  lemma GreedySelectStops(courses: seq<Course>, target: real)
    ensures var r := GreedySelect(courses, target);
      forall k :: 0 < k < |r| ==> TotalDuration(r[..k]) < 0.9 * target
  {
    if courses != [] {
      var ranked := StableSort.SortDesc(courses, GreedyScore);
      GreedyPassStopsFirst(ranked, [], 0.0, target, 1, 5);
      var picked := GreedyPass(ranked, [], 0.0, target, 1, 5);
      assert GreedySelect(courses, target) == if picked == [] then [Shortest(courses)] else picked;
      forall k | 0 < k < |picked| ensures TotalDuration(picked[..k]) < 0.9 * target {
        assert !GoalMet(picked[..k], target, 1);
      }
    }
  }

  /** Every course of `a` scores at least as high as every course of `b`. */
  predicate ScoresAbove(a: seq<Course>, b: seq<Course>) {
    forall i, j :: 0 <= i < |a| && 0 <= j < |b| ==> GreedyScore(a[i]) >= GreedyScore(b[j])
  }

  /** Taking the head of the ranking onto a selection that outranks it keeps both orders. */
  lemma TakeHead(rows: seq<Course>, selected: seq<Course>)
    requires rows != []
    requires StableSort.SortedDesc(rows, GreedyScore) && StableSort.SortedDesc(selected, GreedyScore)
    requires ScoresAbove(selected, rows)
    ensures StableSort.SortedDesc(rows[1..], GreedyScore)
    ensures ScoresAbove(selected, rows[1..])
    ensures StableSort.SortedDesc(selected + [rows[0]], GreedyScore)
    ensures ScoresAbove(selected + [rows[0]], rows[1..])
  {
    var s' := selected + [rows[0]];
    forall i, j | 0 <= i < j < |s'| ensures GreedyScore(s'[i]) >= GreedyScore(s'[j]) {
      if j == |selected| { assert GreedyScore(selected[i]) >= GreedyScore(rows[0]); }
      else { assert s'[i] == selected[i] && s'[j] == selected[j]; }
    }
    forall i, j | 0 <= i < |s'| && 0 <= j < |rows| - 1 ensures GreedyScore(s'[i]) >= GreedyScore(rows[1..][j]) {
      assert rows[1..][j] == rows[j + 1];
      if i == |selected| { assert GreedyScore(rows[0]) >= GreedyScore(rows[j + 1]); }
      else { assert GreedyScore(selected[i]) >= GreedyScore(rows[j + 1]); }
    }
  }

  /** The selection keeps the descending score order of the ranking. */
  lemma {:induction false} GreedyPassOrder(rows: seq<Course>, selected: seq<Course>, total: real,
                                           target: real, minCourses: nat, maxCourses: nat)
    requires StableSort.SortedDesc(rows, GreedyScore)
    requires StableSort.SortedDesc(selected, GreedyScore)
    requires ScoresAbove(selected, rows)
    ensures StableSort.SortedDesc(GreedyPass(rows, selected, total, target, minCourses, maxCourses), GreedyScore)
    decreases |rows|
  {
    if rows != [] && |selected| < maxCourses {
      TakeHead(rows, selected);
      var proposed := total + rows[0].duration;
      if proposed > 1.1 * target {
        GreedyPassOrder(rows[1..], selected, total, target, minCourses, maxCourses);
      } else if !(proposed >= 0.9 * target && |selected| + 1 >= minCourses) {
        GreedyPassOrder(rows[1..], selected + [rows[0]], proposed, target, minCourses, maxCourses);
      }
    }
  }

  /** Catalogue rows for a skill, compared case-insensitively: `extract_courses_for_skill`. */
  function CoursesForSkill(catalogue: seq<Course>, skill: string): (r: seq<Course>)
    ensures forall c :: c in r <==> c in catalogue && Text.Lower(c.skill) == Text.Lower(skill)
  {
    if catalogue == [] then []
    else
      (if Text.Lower(catalogue[0].skill) == Text.Lower(skill) then [catalogue[0]] else [])
      + CoursesForSkill(catalogue[1..], skill)
  }

  /** `D_ideal = int(portion * total_weeks * weekly_hours * focus)` */
  function IdealHours(portion: real, totalWeeks: real, weeklyHours: real, focus: real): int {
    Numeric.Trunc(portion * totalWeeks * weeklyHours * focus)
  }

  /** The suggestion table: lower-cased skill name to the courses picked for it. */
  type Suggestions = PyDict.Dict<string, seq<Course>>

  /** The lower-cased skill names, in order. */
  function LowerNames(skills: seq<SkillEntry>): (r: seq<string>)
    ensures |r| == |skills| && forall i :: 0 <= i < |r| ==> r[i] == Text.Lower(skills[i].name)
  {
    if skills == [] then [] else [Text.Lower(skills[0].name)] + LowerNames(skills[1..])
  }

  /** Every suggested course is a catalogue course of the skill it is filed under. */
  ghost predicate FiledUnderOwnSkill(d: Suggestions, catalogue: seq<Course>) {
    forall k, c :: PyDict.Get(d, k).Some? && c in PyDict.Get(d, k).value ==>
      c in catalogue && Text.Lower(c.skill) == k
  }

  /** The courses picked for one skill: its catalogue rows run through the greedy selection. */
  function PickFor(catalogue: seq<Course>, skill: SkillEntry, totalWeeks: real,
                   weeklyHours: real, portion: real): (r: seq<Course>)
    ensures forall c :: c in r ==> c in catalogue && Text.Lower(c.skill) == Text.Lower(skill.name)
    ensures r == [] <==> forall c :: c in catalogue ==> Text.Lower(c.skill) != Text.Lower(skill.name)
  {
    var key := Text.Lower(skill.name);
    var matches := CoursesForSkill(catalogue, key);
    Text.LowerIdempotent(skill.name);
    if matches == [] then []
    else GreedySelect(matches, IdealHours(portion, totalWeeks, weeklyHours, skill.focus) as real)
  }

  /**
   * With catalogue rows for the skill, its picks are the greedy selection over exactly those
   * rows, aimed at `int(portion * total_weeks * weekly_hours * focus)` hours.
   */
  lemma PickForGreedy(catalogue: seq<Course>, skill: SkillEntry, totalWeeks: real,
                      weeklyHours: real, portion: real, courses: seq<Course>)
    requires courses == CoursesForSkill(catalogue, skill.name) && courses != []
    ensures PickFor(catalogue, skill, totalWeeks, weeklyHours, portion)
      == GreedySelect(courses, IdealHours(portion, totalWeeks, weeklyHours, skill.focus) as real)
  {
    Text.LowerIdempotent(skill.name);
    CoursesForSkillKey(catalogue, skill.name, Text.Lower(skill.name));
  }

  /** Two names that lower-case alike pick out the same catalogue rows, in the same order. */
  lemma {:induction false} CoursesForSkillKey(catalogue: seq<Course>, a: string, b: string)
    requires Text.Lower(a) == Text.Lower(b)
    ensures CoursesForSkill(catalogue, a) == CoursesForSkill(catalogue, b)
    decreases |catalogue|
  {
    if catalogue != [] {
      CoursesForSkillKey(catalogue[1..], a, b);
    }
  }

  /** The position of the last skill whose lower-cased name is `k`. */
  function LastNamed(skills: seq<SkillEntry>, k: string): (r: Option<nat>)
    ensures r.None? <==> forall i :: 0 <= i < |skills| ==> Text.Lower(skills[i].name) != k
    ensures r.Some? ==> r.value < |skills| && Text.Lower(skills[r.value].name) == k
    ensures r.Some? ==> forall i :: r.value < i < |skills| ==> Text.Lower(skills[i].name) != k
    decreases |skills|
  {
    if skills == [] then None
    else
      var tail := LastNamed(skills[1..], k);
      LastNamedShift(skills, k, tail);
      if tail.Some? then Some(tail.value + 1)
      else if Text.Lower(skills[0].name) == k then Some(0) else None
  }

  /** What the tail's answer says about the whole list, shifted by one. */
  lemma LastNamedShift(skills: seq<SkillEntry>, k: string, tail: Option<nat>)
    requires skills != []
    requires tail.None? <==> forall i :: 0 <= i < |skills| - 1 ==> Text.Lower(skills[1..][i].name) != k
    requires tail.Some? ==> tail.value < |skills| - 1 && Text.Lower(skills[1..][tail.value].name) == k
    requires tail.Some? ==> forall i :: tail.value < i < |skills| - 1 ==> Text.Lower(skills[1..][i].name) != k
    ensures tail.None? <==> forall i :: 1 <= i < |skills| ==> Text.Lower(skills[i].name) != k
    ensures tail.Some? ==> Text.Lower(skills[tail.value + 1].name) == k
    ensures tail.Some? ==> forall i :: tail.value + 1 < i < |skills| ==> Text.Lower(skills[i].name) != k
  {
  }

  /** Only the names matter to which entry is last. */
  lemma LastNamedSameNames(a: seq<SkillEntry>, b: seq<SkillEntry>, k: string)
    requires |a| == |b| && forall i :: 0 <= i < |a| ==> a[i].name == b[i].name
    ensures LastNamed(a, k) == LastNamed(b, k)
  {
  }

  function SuggestFrom(catalogue: seq<Course>, skills: seq<SkillEntry>, totalWeeks: real,
                       weeklyHours: real, portion: real, acc: Suggestions): Suggestions
    decreases |skills|
  {
    if skills == [] then acc
    else
      var acc' := PyDict.Put(acc, Text.Lower(skills[0].name), PickFor(catalogue, skills[0], totalWeeks, weeklyHours, portion));
      SuggestFrom(catalogue, skills[1..], totalWeeks, weeklyHours, portion, acc')
  }

  lemma {:induction false} SuggestFromKeys(catalogue: seq<Course>, skills: seq<SkillEntry>, totalWeeks: real,
                                           weeklyHours: real, portion: real, acc: Suggestions, k: string)
    ensures PyDict.Get(SuggestFrom(catalogue, skills, totalWeeks, weeklyHours, portion, acc), k).Some?
      <==> PyDict.Get(acc, k).Some? || k in LowerNames(skills)
    decreases |skills|
  {
    if skills != [] {
      var key := Text.Lower(skills[0].name);
      var acc' := PyDict.Put(acc, key, PickFor(catalogue, skills[0], totalWeeks, weeklyHours, portion));
      PyDict.GetPut(acc, key, PickFor(catalogue, skills[0], totalWeeks, weeklyHours, portion), k);
      SuggestFromKeys(catalogue, skills[1..], totalWeeks, weeklyHours, portion, acc', k);
      assert LowerNames(skills) == [key] + LowerNames(skills[1..]);
    }
  }

  lemma {:induction false} SuggestFromFiled(catalogue: seq<Course>, skills: seq<SkillEntry>, totalWeeks: real,
                                            weeklyHours: real, portion: real, acc: Suggestions)
    requires FiledUnderOwnSkill(acc, catalogue)
    ensures FiledUnderOwnSkill(SuggestFrom(catalogue, skills, totalWeeks, weeklyHours, portion, acc), catalogue)
    decreases |skills|
  {
    if skills != [] {
      var key := Text.Lower(skills[0].name);
      var picked := PickFor(catalogue, skills[0], totalWeeks, weeklyHours, portion);
      var acc' := PyDict.Put(acc, key, picked);
      forall k, c | PyDict.Get(acc', k).Some? && c in PyDict.Get(acc', k).value
        ensures c in catalogue && Text.Lower(c.skill) == k
      {
        PyDict.GetPut(acc, key, picked, k);
      }
      SuggestFromFiled(catalogue, skills[1..], totalWeeks, weeklyHours, portion, acc');
    }
  }

  /**
   * The loop's value for key `k` is the picks of the last skill named `k`; keys no skill
   * names keep what they had.
   */
  lemma {:induction false} SuggestFromValue(catalogue: seq<Course>, skills: seq<SkillEntry>, totalWeeks: real,
                                            weeklyHours: real, portion: real, acc: Suggestions, k: string)
    ensures var r := SuggestFrom(catalogue, skills, totalWeeks, weeklyHours, portion, acc);
      var last := LastNamed(skills, k);
      && (last.None? ==> PyDict.Get(r, k) == PyDict.Get(acc, k))
      && (last.Some? ==> PyDict.Get(r, k) == Some(PickFor(catalogue, skills[last.value], totalWeeks, weeklyHours, portion)))
    decreases |skills|
  {
    if skills != [] {
      var key := Text.Lower(skills[0].name);
      var picked := PickFor(catalogue, skills[0], totalWeeks, weeklyHours, portion);
      var acc' := PyDict.Put(acc, key, picked);
      var r := SuggestFrom(catalogue, skills[1..], totalWeeks, weeklyHours, portion, acc');
      assert SuggestFrom(catalogue, skills, totalWeeks, weeklyHours, portion, acc) == r;
      PyDict.GetPut(acc, key, picked, k);
      SuggestFromValue(catalogue, skills[1..], totalWeeks, weeklyHours, portion, acc', k);
      var tail := LastNamed(skills[1..], k);
      if tail.Some? {
        assert LastNamed(skills, k) == Some(tail.value + 1);
        assert skills[1..][tail.value] == skills[tail.value + 1];
      } else if key == k {
        assert LastNamed(skills, k) == Some(0);
      } else {
        assert LastNamed(skills, k) == None;
      }
    }
  }

  /**
   * `suggest_courses`: one entry per skill, keyed by its lower-cased name, holding only
   * catalogue courses of that skill.
   */
  function SuggestCourses(catalogue: seq<Course>, skills: seq<SkillEntry>, totalWeeks: real,
                          weeklyHours: real, portion: real): (r: Suggestions)
    ensures forall k :: PyDict.Get(r, k).Some? <==> k in LowerNames(skills)
    ensures FiledUnderOwnSkill(r, catalogue)
  {
    var standard := StandardizeFocus(skills);
    assert LowerNames(standard) == LowerNames(skills);
    var r := SuggestFrom(catalogue, standard, totalWeeks, weeklyHours, portion, []);
    SuggestFromFiled(catalogue, standard, totalWeeks, weeklyHours, portion, []);
    forall k ensures PyDict.Get(r, k).Some? <==> k in LowerNames(skills) {
      SuggestFromKeys(catalogue, standard, totalWeeks, weeklyHours, portion, [], k);
    }
    r
  }

  /**
   * Each key of `suggest_courses` holds the picks of the last skill with that lower-cased
   * name: nothing when the catalogue has no course for it, otherwise the greedy selection
   * over its rows aimed at `int(portion * total_weeks * weekly_hours * focus)` hours, with
   * the focus standardised over the whole list.
   */
  lemma SuggestCoursesValues(catalogue: seq<Course>, skills: seq<SkillEntry>, totalWeeks: real,
                             weeklyHours: real, portion: real, k: string)
    ensures var r := SuggestCourses(catalogue, skills, totalWeeks, weeklyHours, portion);
      match LastNamed(skills, k)
      case None => PyDict.Get(r, k).None?
      case Some(j) =>
        var focus := if FocusSum(skills) > 0.0 then skills[j].focus / FocusSum(skills) else skills[j].focus;
        var courses := CoursesForSkill(catalogue, k);
        PyDict.Get(r, k) == Some(if courses == [] then [] else GreedySelect(courses, IdealHours(portion, totalWeeks, weeklyHours, focus) as real))
  {
    var standard := StandardizeFocus(skills);
    LastNamedSameNames(standard, skills, k);
    SuggestFromValue(catalogue, standard, totalWeeks, weeklyHours, portion, [], k);
    match LastNamed(skills, k)
    case None =>
    case Some(j) =>
      CoursesForSkillKey(catalogue, k, standard[j].name);
      if CoursesForSkill(catalogue, k) != [] {
        PickForGreedy(catalogue, standard[j], totalWeeks, weeklyHours, portion, CoursesForSkill(catalogue, k));
      } else {
        assert forall c :: c in catalogue ==> Text.Lower(c.skill) != Text.Lower(standard[j].name);
      }
  }
}
