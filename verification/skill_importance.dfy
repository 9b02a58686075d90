/**
 * Skill importance (`calculate_skill_importance.py`): the line-oriented parser of a
 * job's skill list, the tally of a skill's connections in a skill graph, and the
 * multipliers and caps of the importance score.
 *
 * The fuzzy name matching and the logarithmic frequency and connection terms are not
 * modelled: the fuzzy match arrives as a parameter and the sum of the logarithmic terms
 * as a number.
 */
module SkillImportance {
  import opened Wrappers
  import Text
  import Numeric

  // ---------------------------------------------------------------------------
  // extract_skills_from_text
  // ---------------------------------------------------------------------------

  /** One parsed skill entry. */
  datatype Skill = Skill(name: string, application: string, kind: string, isRequired: bool)

  const NiceToHave: string := "(nice-to-have)"
  const AssociationTag: string := "(association)"
  const PrerequisiteTag: string := "(prerequisite)"
  const ApplicationLabel: string := "Skill application:"
  const TypeLabel: string := "Technical skill type:"

  /** A line that opens a skill entry. */
  predicate IsSkillLine(line: string) {
    |line| >= 2 && line[0] == '-' && line[1] == ' '
  }

  /** The text after `tag` on line `j`, when that line exists and carries the tag; `""` otherwise. */
  function LabelValue(lines: seq<string>, j: nat, tag: string): (r: string)
    requires tag != []
    ensures !(j < |lines| && Text.Contains(lines[j], tag)) ==> r == ""
  {
    if j < |lines| && Text.Contains(lines[j], tag) then Text.Strip(Text.RemoveAll(lines[j], tag)) else ""
  }

  /** The entry opened by skill line `i`, with the two lines after it read for its application and type. */
  function ReadSkill(lines: seq<string>, i: nat): Skill
    requires i < |lines| && IsSkillLine(lines[i])
  {
    var line := Text.Strip(lines[i][2..]);
    var required := !Text.Contains(line, NiceToHave);
    var name0 := if required then line else Text.Strip(Text.RemoveAll(line, NiceToHave));
    var name1 := if Text.Contains(line, AssociationTag) then Text.Strip(Text.RemoveAll(line, AssociationTag)) else name0;
    var name := if Text.Contains(line, PrerequisiteTag) then Text.Strip(Text.RemoveAll(line, PrerequisiteTag)) else name1;
    Skill(name, LabelValue(lines, i + 1, ApplicationLabel), LabelValue(lines, i + 2, TypeLabel), required)
  }

  /**
   * An entry is required exactly when its line lacks the nice-to-have tag; a line without
   * any tag is the name itself; a missing label line leaves its field empty.
   */
  lemma ReadSkillFields(lines: seq<string>, i: nat)
    requires i < |lines| && IsSkillLine(lines[i])
    ensures var r := ReadSkill(lines, i);
      var line := Text.Strip(lines[i][2..]);
      && (r.isRequired <==> !Text.Contains(line, NiceToHave))
      && (!Text.Contains(line, NiceToHave) && !Text.Contains(line, AssociationTag) && !Text.Contains(line, PrerequisiteTag)
          ==> r.name == line)
      && (!(i + 1 < |lines| && Text.Contains(lines[i + 1], ApplicationLabel)) ==> r.application == "")
      && (!(i + 2 < |lines| && Text.Contains(lines[i + 2], TypeLabel)) ==> r.kind == "")
  {
  }

  /** The three tags a skill line may carry. */
  datatype Tag = Optional | Association | Prerequisite

  function TagText(t: Tag): string {
    match t
    case Optional => NiceToHave
    case Association => AssociationTag
    case Prerequisite => PrerequisiteTag
  }

  /** A tag is bracketed, and its opening `(` does not recur in it. */
  predicate TagShaped(t: string) {
    |t| >= 2 && t[0] == '(' && t[|t| - 1] == ')' && forall k :: 1 <= k < |t| ==> t[k] != '('
  }

  /** Each tag is bracketed, and they differ in the letter after the `(`. */
  lemma TagShapes()
    ensures TagShaped(NiceToHave) && TagShaped(AssociationTag) && TagShaped(PrerequisiteTag)
    ensures NiceToHave[1] == 'n' && AssociationTag[1] == 'a' && PrerequisiteTag[1] == 'p'
  {
  }

  /** No tag occurs inside another. */
  lemma TagsApart(t: Tag, u: Tag)
    requires t != u
    ensures !Text.Contains(TagText(t), TagText(u))
  {
    TagShapes();
    Text.NotInsideSibling(TagText(t), TagText(u));
  }

  /**
   * A skill line `- <name> <tag>` whose name is stripped and holds no `(` reads as that name,
   * required exactly unless the tag is the nice-to-have one.
   */
  lemma TaggedName(lines: seq<string>, i: nat, name: string, t: Tag)
    requires i < |lines|
    requires name != [] && !Text.IsSpace(name[0]) && !Text.IsSpace(name[|name| - 1])
    requires forall k :: 0 <= k < |name| ==> name[k] != '('
    requires lines[i] == "- " + name + " " + TagText(t)
    ensures IsSkillLine(lines[i])
    ensures ReadSkill(lines, i).name == name
    ensures ReadSkill(lines, i).isRequired <==> t != Optional
  {
    match t
    case Optional => OptionalName(lines, i, name);
    case Association => AssociationName(lines, i, name);
    case Prerequisite => PrerequisiteName(lines, i, name);
  }

  /** The nice-to-have case of `TaggedName`. */
  lemma OptionalName(lines: seq<string>, i: nat, name: string)
    requires i < |lines|
    requires name != [] && !Text.IsSpace(name[0]) && !Text.IsSpace(name[|name| - 1])
    requires forall k :: 0 <= k < |name| ==> name[k] != '('
    requires lines[i] == "- " + name + " " + NiceToHave
    ensures IsSkillLine(lines[i]) && ReadSkill(lines, i).name == name && !ReadSkill(lines, i).isRequired
  {
    var line := name + " " + NiceToHave;
    assert IsSkillLine(lines[i]) && lines[i][2..] == line by {
      assert lines[i] == "- " + line;
    }
    TagShapes();
    TaggedLine(name, NiceToHave, AssociationTag, PrerequisiteTag);
    SkillOfLine(lines, i, line);
  }

  /** The association case of `TaggedName`. */
  lemma AssociationName(lines: seq<string>, i: nat, name: string)
    requires i < |lines|
    requires name != [] && !Text.IsSpace(name[0]) && !Text.IsSpace(name[|name| - 1])
    requires forall k :: 0 <= k < |name| ==> name[k] != '('
    requires lines[i] == "- " + name + " " + AssociationTag
    ensures IsSkillLine(lines[i]) && ReadSkill(lines, i).name == name && ReadSkill(lines, i).isRequired
  {
    var line := name + " " + AssociationTag;
    assert IsSkillLine(lines[i]) && lines[i][2..] == line by {
      assert lines[i] == "- " + line;
    }
    TagShapes();
    TaggedLine(name, AssociationTag, NiceToHave, PrerequisiteTag);
    SkillOfLine(lines, i, line);
  }

  /** The prerequisite case of `TaggedName`. */
  lemma PrerequisiteName(lines: seq<string>, i: nat, name: string)
    requires i < |lines|
    requires name != [] && !Text.IsSpace(name[0]) && !Text.IsSpace(name[|name| - 1])
    requires forall k :: 0 <= k < |name| ==> name[k] != '('
    requires lines[i] == "- " + name + " " + PrerequisiteTag
    ensures IsSkillLine(lines[i]) && ReadSkill(lines, i).name == name && ReadSkill(lines, i).isRequired
  {
    var line := name + " " + PrerequisiteTag;
    assert IsSkillLine(lines[i]) && lines[i][2..] == line by {
      assert lines[i] == "- " + line;
    }
    TagShapes();
    TaggedLine(name, PrerequisiteTag, NiceToHave, AssociationTag);
    SkillOfLine(lines, i, line);
  }

  /** The name and requirement `ReadSkill` derives from the stripped text of the skill line. */
  lemma SkillOfLine(lines: seq<string>, i: nat, line: string)
    requires i < |lines| && IsSkillLine(lines[i]) && lines[i][2..] == line && Text.Strip(line) == line
    ensures ReadSkill(lines, i).isRequired == !Text.Contains(line, NiceToHave)
    ensures ReadSkill(lines, i).name ==
      if Text.Contains(line, PrerequisiteTag) then Text.Strip(Text.RemoveAll(line, PrerequisiteTag))
      else if Text.Contains(line, AssociationTag) then Text.Strip(Text.RemoveAll(line, AssociationTag))
      else if Text.Contains(line, NiceToHave) then Text.Strip(Text.RemoveAll(line, NiceToHave))
      else line
  {
  }

  /**
   * `<name> <t>` is already stripped, holds `t` and neither of two tags that differ from it
   * after the `(`, and strips back to the name once `t` is removed.
   */
  lemma TaggedLine(name: string, t: string, o1: string, o2: string)
    requires name != [] && !Text.IsSpace(name[0]) && !Text.IsSpace(name[|name| - 1])
    requires forall k :: 0 <= k < |name| ==> name[k] != '('
    requires TagShaped(t) && TagShaped(o1) && TagShaped(o2) && t[1] != o1[1] && t[1] != o2[1]
    ensures Text.Strip(name + " " + t) == name + " " + t
    ensures Text.Contains(name + " " + t, t)
    ensures !Text.Contains(name + " " + t, o1) && !Text.Contains(name + " " + t, o2)
    ensures Text.Strip(Text.RemoveAll(name + " " + t, t)) == name
  {
    var a := name + " ";
    Text.StripStripped(a + t);
    OwnTag(a, t);
    OtherTag(a, t, o1);
    OtherTag(a, t, o2);
    TagRemoved(name, t);
  }

  /** A tag after text without `(` is found. */
  lemma OwnTag(a: string, t: string)
    requires TagShaped(t) && forall k :: 0 <= k < |a| ==> a[k] != '('
    ensures Text.Contains(a + t, t)
  {
    Text.ContainsAfter(a, t, t);
    assert t[..|t|] == t;
  }

  /** A tag after text without `(` hides no other tag. */
  lemma OtherTag(a: string, t: string, u: string)
    requires TagShaped(t) && TagShaped(u) && t[1] != u[1]
    requires forall k :: 0 <= k < |a| ==> a[k] != '('
    ensures !Text.Contains(a + t, u)
  {
    Text.ContainsAfter(a, t, u);
    Text.NotInsideSibling(t, u);
  }

  /** Removing the tag and stripping leaves the name. */
  lemma TagRemoved(name: string, t: string)
    requires name != [] && !Text.IsSpace(name[0]) && !Text.IsSpace(name[|name| - 1])
    requires forall k :: 0 <= k < |name| ==> name[k] != '('
    requires TagShaped(t)
    ensures Text.Strip(Text.RemoveAll(name + " " + t, t)) == name
  {
    var a := name + " ";
    Text.RemoveAllOnce(a, t, []);
    assert a + t + [] == a + t && a + [] == a;
    Text.StripTrailingBlank(name);
  }

  /** The `while i < len(lines)` loop from index `i`: a skill line is read and skips three lines, any other line one. */
  function ExtractFrom(lines: seq<string>, i: nat): seq<Skill>
    decreases |lines| - i
  {
    if i >= |lines| then []
    else if IsSkillLine(lines[i]) then [ReadSkill(lines, i)] + ExtractFrom(lines, i + 3)
    else ExtractFrom(lines, i + 1)
  }

  /** `extract_skills_from_text(text)` */
  function ExtractSkills(text: string): seq<Skill> {
    ExtractFrom(Text.Split(Text.Strip(text), '\n'), 0)
  }

  /** Line `j` lies on one of the entries opened at `ps`: the opening line or one of the two after it. */
  predicate Covered(ps: seq<nat>, j: nat) {
    exists k :: 0 <= k < |ps| && ps[k] <= j < ps[k] + 3
  }

  /**
   * `ps` are the lines from `from` on that open entries: each is a skill line, each entry
   * covers its opening line and the two after it, entries do not overlap, and every skill
   * line from `from` on is covered by some entry.
   */
  predicate Scan(lines: seq<string>, from: nat, ps: seq<nat>) {
    && (forall k :: 0 <= k < |ps| ==> from <= ps[k] < |lines| && IsSkillLine(lines[ps[k]]))
    && (forall k, m :: 0 <= k < m < |ps| ==> ps[k] + 3 <= ps[m])
    && (forall j {:trigger Covered(ps, j)} :: from <= j < |lines| && IsSkillLine(lines[j]) ==> Covered(ps, j))
  }

  /** The lines at which the loop reads an entry. */
  function EntryLines(lines: seq<string>, i: nat): (r: seq<nat>)
    ensures forall k :: 0 <= k < |r| ==> r[k] >= i
    decreases |lines| - i
  {
    if i >= |lines| then []
    else if IsSkillLine(lines[i]) then [i] + EntryLines(lines, i + 3)
    else EntryLines(lines, i + 1)
  }

  /**
   * Only skill lines produce entries, an entry swallows the two lines after it, and every
   * other skill line produces one: the lines the loop reads entries at form a scan.
   */
  lemma {:induction false} EntryLinesScan(lines: seq<string>, i: nat)
    ensures Scan(lines, i, EntryLines(lines, i))
    decreases |lines| - i
  {
    if i < |lines| {
      if IsSkillLine(lines[i]) {
        EntryLinesScan(lines, i + 3);
        ScanEntry(lines, i, EntryLines(lines, i + 3));
      } else {
        EntryLinesScan(lines, i + 1);
        ScanSkip(lines, i, EntryLines(lines, i + 1));
      }
    }
  }

  /** A skill line followed by a scan from three lines on is a scan. */
  lemma ScanEntry(lines: seq<string>, i: nat, rest: seq<nat>)
    requires i < |lines| && IsSkillLine(lines[i])
    requires Scan(lines, i + 3, rest)
    ensures Scan(lines, i, [i] + rest)
  {
    var ps := [i] + rest;
    forall j {:trigger Covered(ps, j)} | i <= j < |lines| && IsSkillLine(lines[j]) ensures Covered(ps, j) {
      if j < i + 3 {
        assert ps[0] <= j < ps[0] + 3;
      } else {
        assert Covered(rest, j);
        var k :| 0 <= k < |rest| && rest[k] <= j < rest[k] + 3;
        assert ps[k + 1] == rest[k];
      }
    }
  }

  /** A line that opens no entry can be skipped. */
  lemma ScanSkip(lines: seq<string>, i: nat, ps: seq<nat>)
    requires i < |lines| && !IsSkillLine(lines[i])
    requires Scan(lines, i + 1, ps)
    ensures Scan(lines, i, ps)
  {
    forall j {:trigger Covered(ps, j)} | i <= j < |lines| && IsSkillLine(lines[j]) ensures Covered(ps, j) {
      assert j != i;
      assert Covered(ps, j);
    }
  }

  /** `r` holds the entries read at the skill lines `ps`, in order. */
  predicate ReadsAt(lines: seq<string>, ps: seq<nat>, r: seq<Skill>)
    decreases |ps|
  {
    && |r| == |ps|
    && (ps != [] ==>
          && ps[0] < |lines| && IsSkillLine(lines[ps[0]]) && r[0] == ReadSkill(lines, ps[0])
          && ReadsAt(lines, ps[1..], r[1..]))
  }

  /** An entry read at line `i` in front of the entries read at `ps`. */
  lemma ReadsCons(lines: seq<string>, i: nat, ps: seq<nat>, r: seq<Skill>)
    requires i < |lines| && IsSkillLine(lines[i])
    requires ReadsAt(lines, ps, r)
    ensures ReadsAt(lines, [i] + ps, [ReadSkill(lines, i)] + r)
  {
    assert ([i] + ps)[1..] == ps;
    assert ([ReadSkill(lines, i)] + r)[1..] == r;
  }

  /** The parsed skills are the entries read at the lines of the scan, in order. */
  lemma {:induction false} ExtractScan(lines: seq<string>, i: nat)
    ensures Scan(lines, i, EntryLines(lines, i))
    ensures ReadsAt(lines, EntryLines(lines, i), ExtractFrom(lines, i))
    decreases |lines| - i
  {
    EntryLinesScan(lines, i);
    if i < |lines| {
      if IsSkillLine(lines[i]) {
        ExtractScan(lines, i + 3);
        ReadsCons(lines, i, EntryLines(lines, i + 3), ExtractFrom(lines, i + 3));
      } else {
        ExtractScan(lines, i + 1);
      }
    }
  }

  /** A scan from a skill line opens its first entry there and scans on from three lines later. */
  lemma ScanHead(lines: seq<string>, i: nat, ps: seq<nat>)
    requires Scan(lines, i, ps) && i < |lines| && IsSkillLine(lines[i])
    ensures ps != [] && ps[0] == i && Scan(lines, i + 3, ps[1..])
  {
    assert Covered(ps, i);
    var k :| 0 <= k < |ps| && ps[k] <= i < ps[k] + 3;
    assert ps[0] <= ps[k];
    var rest := ps[1..];
    forall m | 0 <= m < |rest| ensures i + 3 <= rest[m] {
      assert ps[0] + 3 <= ps[m + 1];
    }
    forall j {:trigger Covered(rest, j)} | i + 3 <= j < |lines| && IsSkillLine(lines[j]) ensures Covered(rest, j) {
      assert Covered(ps, j);
      var m :| 0 <= m < |ps| && ps[m] <= j < ps[m] + 3;
      assert m != 0;
      assert rest[m - 1] == ps[m];
    }
  }

  /** A scan from a line that opens no entry is a scan from the next line. */
  lemma ScanPastPlain(lines: seq<string>, i: nat, ps: seq<nat>)
    requires Scan(lines, i, ps) && i < |lines| && !IsSkillLine(lines[i])
    ensures Scan(lines, i + 1, ps)
  {
    forall m | 0 <= m < |ps| ensures i + 1 <= ps[m] {
      assert ps[m] != i;
    }
  }

  /** Line numbers bounded below by `lo` and above by `hi` exist only when `lo < hi`. */
  lemma BoundedEmpty(ps: seq<nat>, lo: nat, hi: nat)
    requires forall k :: 0 <= k < |ps| ==> lo <= ps[k] < hi
    ensures ps == [] || lo < hi
  {
    if ps != [] {
      assert lo <= ps[0] < hi;
    }
  }

  /** A scan from `i` is unique: it is the one the loop performs. */
  lemma {:induction false} ScanUnique(lines: seq<string>, i: nat, ps: seq<nat>)
    requires Scan(lines, i, ps)
    ensures ps == EntryLines(lines, i)
    decreases |lines| - i
  {
    if i >= |lines| {
      BoundedEmpty(ps, i, |lines|);
    } else if IsSkillLine(lines[i]) {
      ScanHead(lines, i, ps);
      ScanUnique(lines, i + 3, ps[1..]);
      assert ps == [i] + ps[1..];
    } else {
      ScanPastPlain(lines, i, ps);
      ScanUnique(lines, i + 1, ps);
    }
  }

  // ---------------------------------------------------------------------------
  // get_skill_metrics: the exact match and the connection tally
  // ---------------------------------------------------------------------------

  /** A skill of a skill graph; a missing `id` reads as `""` and a missing frequency as 0. */
  datatype GraphSkill = GraphSkill(id: string, name: string, frequency: real, kind: string)

  /** A relationship of a skill graph with its optional fields. */
  datatype Relation = Relation(source: string, target: string, relationship: Option<string>,
                               confidence: Option<real>, lift: Option<real>, weight: Option<real>)

  datatype SkillGraph = SkillGraph(skills: seq<GraphSkill>, relationships: seq<Relation>)

  datatype Connections = Connections(count: nat, strength: real, prerequisites: nat, dependents: nat)

  datatype Metrics = Metrics(data: Option<GraphSkill>, frequency: real, kind: string, connections: Connections)

  /** The first graph skill whose lower-cased name is `key`. */
  function ExactMatch(skills: seq<GraphSkill>, key: string): (r: Option<GraphSkill>)
    ensures r.Some? <==> exists k :: 0 <= k < |skills| && Text.Lower(skills[k].name) == key
    ensures r.Some? ==> exists k :: 0 <= k < |skills| && r.value == skills[k] && Text.Lower(skills[k].name) == key
                          && forall m :: 0 <= m < k ==> Text.Lower(skills[m].name) != key
  {
    if skills == [] then None
    else if Text.Lower(skills[0].name) == key then Some(skills[0])
    else
      var r := ExactMatch(skills[1..], key);
      assert forall m :: 1 <= m < |skills| ==> skills[1..][m - 1] == skills[m];
      if r.Some? then
        var k :| 0 <= k < |skills[1..]| && r.value == skills[1..][k] && Text.Lower(skills[1..][k].name) == key
                 && forall m :: 0 <= m < k ==> Text.Lower(skills[1..][m].name) != key;
        assert r.value == skills[k + 1];
        r
      else r
  }

  /** The relationship touches the skill with lower-cased id `id` or lower-cased name `name`. */
  predicate Touches(rel: Relation, id: string, name: string) {
    var s := Text.Lower(rel.source);
    var t := Text.Lower(rel.target);
    s == id || s == name || t == id || t == name
  }

  /** The strength of one relationship: its confidence, else its lift, else its weight, else 0.5. */
  function Strength(rel: Relation): real {
    if rel.confidence.Some? then rel.confidence.value
    else if rel.lift.Some? then rel.lift.value
    else if rel.weight.Some? then rel.weight.value
    else 0.5
  }

  predicate IsPrerequisite(rel: Relation) {
    rel.relationship == Some("prerequisite")
  }

  /** The loop over `relationships` for a matched skill. */
  function Tally(rels: seq<Relation>, id: string, name: string): (r: Connections)
    ensures r.prerequisites <= r.count && r.dependents <= r.count
  {
    if rels == [] then Connections(0, 0.0, 0, 0)
    else
      var rest := Tally(rels[1..], id, name);
      var rel := rels[0];
      if !Touches(rel, id, name) then rest
      else
        var s := Text.Lower(rel.source);
        var t := Text.Lower(rel.target);
        var pre := if IsPrerequisite(rel) && (t == id || t == name) then 1 else 0;
        var dep := if IsPrerequisite(rel) && (s == id || s == name) then 1 else 0;
        Connections(rest.count + 1, Strength(rel) + rest.strength, rest.prerequisites + pre, rest.dependents + dep)
  }

  /** The relationships that touch the skill, in order. */
  function Touching(rels: seq<Relation>, id: string, name: string): (r: seq<Relation>)
    ensures forall k :: 0 <= k < |r| ==> Touches(r[k], id, name) && r[k] in rels
  {
    if rels == [] then []
    else (if Touches(rels[0], id, name) then [rels[0]] else []) + Touching(rels[1..], id, name)
  }

  function Strengths(rels: seq<Relation>): (r: seq<real>)
    ensures |r| == |rels| && forall k :: 0 <= k < |rels| ==> r[k] == Strength(rels[k])
  {
    if rels == [] then [] else [Strength(rels[0])] + Strengths(rels[1..])
  }

  /** The tally counts the touching relationships and adds up their strengths. */
  lemma {:induction false} TallyCounts(rels: seq<Relation>, id: string, name: string)
    ensures var c := Tally(rels, id, name);
      var touching := Touching(rels, id, name);
      c.count == |touching| && c.strength == Numeric.Sum(Strengths(touching))
  {
    if rels != [] {
      TallyCounts(rels[1..], id, name);
      var rest := Touching(rels[1..], id, name);
      if Touches(rels[0], id, name) {
        assert Touching(rels, id, name) == [rels[0]] + rest;
        assert Strengths([rels[0]] + rest) == [Strength(rels[0])] + Strengths(rest);
      } else {
        assert Touching(rels, id, name) == rest;
      }
    }
  }

  /**
   * `get_skill_metrics(skill_name, skill_graph)` with the result of the fuzzy stages
   * (used only when no exact match exists) given as `fuzzy`.
   */
  function SkillMetrics(skillName: string, graph: SkillGraph, fuzzy: Option<GraphSkill>): (r: Metrics)
    ensures r.data.None? ==> r.connections == Connections(0, 0.0, 0, 0) && r.frequency == 0.0
    ensures r.connections.prerequisites <= r.connections.count && r.connections.dependents <= r.connections.count
    ensures ExactMatch(graph.skills, Text.Strip(Text.Lower(skillName))).Some? ==>
      r.data == ExactMatch(graph.skills, Text.Strip(Text.Lower(skillName)))
  {
    var key := Text.Strip(Text.Lower(skillName));
    var data := match ExactMatch(graph.skills, key)
      case Some(s) => Some(s)
      case None => fuzzy;
    match data
    case None => Metrics(None, 0.0, "", Connections(0, 0.0, 0, 0))
    case Some(s) => Metrics(data, s.frequency, s.kind, Tally(graph.relationships, Text.Lower(s.id), Text.Lower(s.name)))
  }

  // ---------------------------------------------------------------------------
  // calculate_importance_score: multipliers and caps
  // ---------------------------------------------------------------------------

  /** `type_weights.get(skill_type, 1.0)` */
  function TypeWeight(kind: string): (r: real)
    ensures 0.95 <= r <= 1.2
  {
    if kind == "language" then 1.2
    else if kind == "platform" then 1.1
    else if kind == "methodology" then 0.95
    else 1.0
  }

  /** `seniority_weights.get(seniority_level, 1.0)` */
  function SeniorityWeight(level: string): (r: real)
    ensures 0.7 <= r <= 1.4
  {
    if level == "Internship" then 0.7
    else if level == "Entry level" then 0.9
    else if level == "Mid-Senior level" then 1.2
    else if level == "Director" then 1.3
    else if level == "Executive" then 1.4
    else 1.0
  }

  /** The expertise multiplier read from the lower-cased application text. */
  function ExpertiseFactor(text: string): (r: real)
    ensures 0.85 <= r <= 1.3
  {
    if Text.Contains(text, "expert") || Text.Contains(text, "expertise") || Text.Contains(text, "advanced") then 1.3
    else if Text.Contains(text, "strong") || Text.Contains(text, "proficient") then 1.15
    else if Text.Contains(text, "familiar") || Text.Contains(text, "basic") || Text.Contains(text, "exposure") then 0.85
    else 1.0
  }

  /** The end of the run of decimal digits starting at `q`. */
  function DigitsEnd(s: string, q: nat): (r: nat)
    requires q <= |s|
    ensures q <= r <= |s|
    ensures forall k :: q <= k < r ==> Numeric.IsDigit(s[k])
    decreases |s| - q
  {
    if q < |s| && Numeric.IsDigit(s[q]) then DigitsEnd(s, q + 1) else q
  }

  /** The end of the run of whitespace starting at `q`. */
  function SpacesEnd(s: string, q: nat): (r: nat)
    requires q <= |s|
    ensures q <= r <= |s|
    decreases |s| - q
  {
    if q < |s| && Text.IsSpace(s[q]) then SpacesEnd(s, q + 1) else q
  }

  /** After the digits ending at `e`: an optional `+`, whitespace, then `year` (the `s` being optional). */
  predicate YearsTail(s: string, e: nat)
    requires e <= |s|
  {
    var e1 := if e < |s| && s[e] == '+' then e + 1 else e;
    var e2 := SpacesEnd(s, e1);
    e2 + 4 <= |s| && s[e2..e2 + 4] == "year"
  }

  /** The pattern `(\d+)\+?\s*years?` matches at position `q`. */
  predicate MatchAt(s: string, q: nat) {
    q < |s| && Numeric.IsDigit(s[q]) && YearsTail(s, DigitsEnd(s, q))
  }

  /** The number the match at `q` captures. */
  function Captured(s: string, q: nat): nat
    requires q < |s|
  {
    Numeric.DecimalValue(s[q..DigitsEnd(s, q)])
  }

  /** `re.search(r'(\d+)\+?\s*years?', text)` from position `p` on: the number of the leftmost match. */
  function YearsFrom(s: string, p: nat): Option<nat>
    decreases |s| - p
  {
    if p >= |s| then None
    else if MatchAt(s, p) then Some(Captured(s, p))
    else YearsFrom(s, p + 1)
  }

  /** The years read are those of the leftmost match, and there are none exactly when nothing matches. */
  lemma {:induction false} YearsFromLeftmost(s: string, p: nat)
    ensures var r := YearsFrom(s, p);
      && (r.Some? ==> exists q :: p <= q < |s| && MatchAt(s, q) && r.value == Captured(s, q)
                        && forall q' :: p <= q' < q ==> !MatchAt(s, q'))
      && (r.None? ==> forall q :: p <= q < |s| ==> !MatchAt(s, q))
    decreases |s| - p
  {
    if p < |s| && !MatchAt(s, p) {
      YearsFromLeftmost(s, p + 1);
    }
  }

  /** `min(1 + years / 10, 1.5)` */
  function YearsFactor(years: nat): (r: real)
    ensures 1.0 <= r <= 1.5
    ensures years >= 5 ==> r == 1.5
  {
    Numeric.MinR(1.0 + years as real / 10.0, 1.5)
  }

  /** The multiplier for a relationship count `n` with per-relationship rate `rate`: `1 + rate * n` when `n > 0`. */
  function CountFactor(n: nat, rate: real): real {
    if n > 0 then 1.0 + rate * n as real else 1.0
  }

  /** Every multiplier the score goes through after the additive terms, for a skill with the given application text and type. */
  function Multiplier(applicationText: string, kind: string, c: Connections, seniority: string): real {
    var application := Text.Lower(applicationText);
    var years := match YearsFrom(application, 0) case Some(y) => YearsFactor(y) case None => 1.0;
    CountFactor(c.dependents, 0.05) * CountFactor(c.prerequisites, 0.03)
      * TypeWeight(Text.Lower(kind)) * SeniorityWeight(seniority) * ExpertiseFactor(application) * years
  }

  /** `min(round(base_score * 4, 1), 100)` for a base scaled by `k`. */
  function Capped(base: real, k: real): real {
    Numeric.MinR(Numeric.PyRound(base * k * 4.0, 1), 100.0)
  }

  /**
   * `calculate_importance_score`, with `logTerms` the sum of the logarithmic frequency,
   * connection and strength terms the source adds to the base.
   */
  function ImportanceScore(skill: Skill, m: Metrics, seniority: string, logTerms: real): (r: real)
    ensures r <= 100.0
  {
    var base := (if skill.isRequired then 10.0 else 5.0) + logTerms;
    Capped(base, Multiplier(skill.application, skill.kind, m.connections, seniority))
  }

  lemma MultiplierPositive(applicationText: string, kind: string, c: Connections, seniority: string)
    ensures Multiplier(applicationText, kind, c, seniority) > 0.0
  {
    var application := Text.Lower(applicationText);
    var years := match YearsFrom(application, 0) case Some(y) => YearsFactor(y) case None => 1.0;
    var a := CountFactor(c.dependents, 0.05);
    var b := CountFactor(c.prerequisites, 0.03);
    var t := TypeWeight(Text.Lower(kind));
    var s := SeniorityWeight(seniority);
    var e := ExpertiseFactor(application);
    PositiveProduct(a, b);
    PositiveProduct(a * b, t);
    PositiveProduct(a * b * t, s);
    PositiveProduct(a * b * t * s, e);
    PositiveProduct(a * b * t * s * e, years);
  }

  lemma PositiveProduct(x: real, y: real)
    requires x > 0.0 && y > 0.0
    ensures x * y > 0.0
  {
  }

  /** Python's `round(x, 1)` never decreases when `x` grows. */
  lemma RoundMonotone(x: real, y: real)
    requires x <= y
    ensures Numeric.PyRound(x, 1) <= Numeric.PyRound(y, 1)
  {
    assert Numeric.Pow10(1) == 10;
    var a := Numeric.RoundHalfEven(x * 10.0);
    var b := Numeric.RoundHalfEven(y * 10.0);
    assert x * 10.0 <= y * 10.0;
    HalfEvenMonotone(x * 10.0, y * 10.0);
  }

  lemma HalfEvenMonotone(x: real, y: real)
    requires x <= y
    ensures Numeric.RoundHalfEven(x) <= Numeric.RoundHalfEven(y)
  {
  }

  /** Non-negative additive terms give a score between 0 and 100. */
  lemma ScoreBounds(skill: Skill, m: Metrics, seniority: string, logTerms: real)
    requires logTerms >= 0.0
    ensures 0.0 <= ImportanceScore(skill, m, seniority, logTerms) <= 100.0
  {
    MultiplierPositive(skill.application, skill.kind, m.connections, seniority);
    CappedBounds((if skill.isRequired then 10.0 else 5.0) + logTerms, Multiplier(skill.application, skill.kind, m.connections, seniority));
  }

  lemma CappedBounds(base: real, k: real)
    requires base >= 0.0 && k > 0.0
    ensures 0.0 <= Capped(base, k) <= 100.0
  {
    assert base * k >= 0.0;
    assert base * k * 4.0 >= 0.0;
    RoundMonotone(0.0, base * k * 4.0);
    assert Numeric.PyRound(0.0, 1) == 0.0 by {
      assert Numeric.Pow10(1) == 10;
      assert Numeric.RoundHalfEven(0.0) == 0;
    }
  }

  /** A required skill scores at least as high as the same skill marked nice-to-have. */
  lemma RequiredOutranks(skill: Skill, m: Metrics, seniority: string, logTerms: real)
    ensures ImportanceScore(skill.(isRequired := false), m, seniority, logTerms)
         <= ImportanceScore(skill.(isRequired := true), m, seniority, logTerms)
  {
    var k := Multiplier(skill.application, skill.kind, m.connections, seniority);
    MultiplierPositive(skill.application, skill.kind, m.connections, seniority);
    CappedMonotone(5.0 + logTerms, 10.0 + logTerms, k);
  }

  lemma CappedMonotone(lo: real, hi: real, k: real)
    requires lo <= hi && k > 0.0
    ensures Capped(lo, k) <= Capped(hi, k)
  {
    assert lo * k <= hi * k;
    RoundMonotone(lo * k * 4.0, hi * k * 4.0);
  }
}
