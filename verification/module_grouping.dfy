/**
 * `module_generator.py`: reading the prerequisite and association relationships of a
 * knowledge graph for a set of skills, grouping skills taken in prerequisite order into
 * modules of at most three associated skills, and giving every module its hours.
 * Cycle breaking and the topological sort are not modelled: the order and the edges of
 * the prerequisite graph that remain are inputs.
 */
module ModuleGrouping {
  import opened Wrappers
  import Text
  import Numeric
  import PyDict
  import ModuleScheduling

  /** An entry of the graph's `relationships` list; `weight` may be missing. */
  datatype Relationship = Relationship(source: string, target: string, kind: string, weight: Option<real>)

  /** A kept prerequisite edge `(src, tgt, weight)`, names lowercased. */
  datatype Edge = Edge(source: string, target: string, weight: real)

  /** `rel["weight"]` on a prerequisite relationship without a weight raises `KeyError`. */
  datatype GraphError = MissingWeight

  /** The relationship has the kind and both of its (lowercased) ends are input skills. */
  predicate Keeps(rel: Relationship, skills: set<string>, kind: string) {
    rel.kind == kind && Text.Lower(rel.source) in skills && Text.Lower(rel.target) in skills
  }

  /** The edge read from a relationship. */
  predicate EdgeOf(rel: Relationship, e: Edge) {
    e.source == Text.Lower(rel.source) && e.target == Text.Lower(rel.target) && rel.weight == Some(e.weight)
  }

  // ---------------------------------------------------------------------------
  // parse_prerequisite_edges
  // ---------------------------------------------------------------------------

  /** `parse_prerequisite_edges`: the prerequisite edges between input skills, in graph order. */
  function PrerequisiteEdges(rels: seq<Relationship>, skills: set<string>): (r: Result<seq<Edge>, GraphError>)
    ensures r.Ok? ==> |r.value| <= |rels|
  {
    if rels == [] then Ok([])
    else
      var rel := rels[0];
      if Keeps(rel, skills, "prerequisite") then
        if rel.weight.None? then Err(MissingWeight)
        else match PrerequisiteEdges(rels[1..], skills)
          case Err(e) => Err(e)
          case Ok(rest) => Ok([Edge(Text.Lower(rel.source), Text.Lower(rel.target), rel.weight.value)] + rest)
      else PrerequisiteEdges(rels[1..], skills)
  }

  /** Some kept prerequisite relationship has no weight. */
  predicate UnweightedPrerequisite(rels: seq<Relationship>, skills: set<string>) {
    exists i :: 0 <= i < |rels| && Keeps(rels[i], skills, "prerequisite") && rels[i].weight.None?
  }

  /** Some kept prerequisite relationship gives the edge. */
  predicate PrerequisiteFor(rels: seq<Relationship>, skills: set<string>, e: Edge) {
    exists i :: 0 <= i < |rels| && Keeps(rels[i], skills, "prerequisite") && EdgeOf(rels[i], e)
  }

  /** A kept unweighted prerequisite is the first relationship or one of the rest. */
  lemma UnweightedShift(rels: seq<Relationship>, skills: set<string>)
    requires rels != []
    ensures UnweightedPrerequisite(rels, skills) <==>
      (Keeps(rels[0], skills, "prerequisite") && rels[0].weight.None?) || UnweightedPrerequisite(rels[1..], skills)
  {
    if UnweightedPrerequisite(rels[1..], skills) {
      var i :| 0 <= i < |rels[1..]| && Keeps(rels[1..][i], skills, "prerequisite") && rels[1..][i].weight.None?;
      assert rels[i + 1] == rels[1..][i];
    }
    if UnweightedPrerequisite(rels, skills) && !(Keeps(rels[0], skills, "prerequisite") && rels[0].weight.None?) {
      var i :| 0 <= i < |rels| && Keeps(rels[i], skills, "prerequisite") && rels[i].weight.None?;
      assert i > 0 && rels[1..][i - 1] == rels[i];
    }
  }

  /** A kept prerequisite giving the edge is the first relationship or one of the rest. */
  lemma PrerequisiteForShift(rels: seq<Relationship>, skills: set<string>, e: Edge)
    requires rels != []
    ensures PrerequisiteFor(rels, skills, e) <==>
      (Keeps(rels[0], skills, "prerequisite") && EdgeOf(rels[0], e)) || PrerequisiteFor(rels[1..], skills, e)
  {
    if PrerequisiteFor(rels[1..], skills, e) {
      var i :| 0 <= i < |rels[1..]| && Keeps(rels[1..][i], skills, "prerequisite") && EdgeOf(rels[1..][i], e);
      assert rels[i + 1] == rels[1..][i];
    }
    if PrerequisiteFor(rels, skills, e) && !(Keeps(rels[0], skills, "prerequisite") && EdgeOf(rels[0], e)) {
      var i :| 0 <= i < |rels| && Keeps(rels[i], skills, "prerequisite") && EdgeOf(rels[i], e);
      assert i > 0 && rels[1..][i - 1] == rels[i];
    }
  }

  /** Reading fails exactly when a kept prerequisite has no weight. */
  lemma {:induction false} PrerequisiteEdgesFail(rels: seq<Relationship>, skills: set<string>)
    ensures PrerequisiteEdges(rels, skills).Err? <==> UnweightedPrerequisite(rels, skills)
  {
    if rels != [] {
      PrerequisiteEdgesFail(rels[1..], skills);
      UnweightedShift(rels, skills);
    }
  }

  /**
   * When reading succeeds, the edges are exactly those of the prerequisite relationships
   * between input skills.
   */
  lemma {:induction false} PrerequisiteEdgesExact(rels: seq<Relationship>, skills: set<string>, e: Edge)
    ensures PrerequisiteEdges(rels, skills).Ok? ==>
      (e in PrerequisiteEdges(rels, skills).value <==> PrerequisiteFor(rels, skills, e))
  {
    if rels != [] {
      PrerequisiteEdgesExact(rels[1..], skills, e);
      PrerequisiteForShift(rels, skills, e);
    }
  }

  // ---------------------------------------------------------------------------
  // parse_association_weights
  // ---------------------------------------------------------------------------

  type Scores = map<(string, string), real>

  /**
   * `parse_association_weights`: every association between input skills writes its
   * weight (0 when missing) under both orders of its ends; a later one overwrites.
   */
  function AssociationWeights(rels: seq<Relationship>, skills: set<string>): Scores
    decreases |rels|
  {
    if rels == [] then map[]
    else
      var m := AssociationWeights(rels[..|rels| - 1], skills);
      var rel := rels[|rels| - 1];
      if Keeps(rel, skills, "association") then
        WriteBoth(m, Text.Lower(rel.source), Text.Lower(rel.target), rel.weight.GetOr(0.0))
      else m
  }

  /** `association_scores[(a, b)] = w; association_scores[(b, a)] = w` */
  function WriteBoth(m: Scores, a: string, b: string, w: real): (r: Scores)
    ensures forall p :: p in r <==> p in m || p == (a, b) || p == (b, a)
    ensures r[(a, b)] == w && r[(b, a)] == w
    ensures forall p :: p in m && p != (a, b) && p != (b, a) ==> r[p] == m[p]
  {
    m[(a, b) := w][(b, a) := w]
  }

  /** The relationship joins `a` and `b`, in either direction. */
  predicate Joins(rel: Relationship, a: string, b: string) {
    (Text.Lower(rel.source) == a && Text.Lower(rel.target) == b)
    || (Text.Lower(rel.source) == b && Text.Lower(rel.target) == a)
  }

  predicate Associated(rels: seq<Relationship>, skills: set<string>, a: string, b: string) {
    exists i :: 0 <= i < |rels| && Keeps(rels[i], skills, "association") && Joins(rels[i], a, b)
  }

  /**
   * The scores are symmetric, and a pair has one exactly when some association between
   * input skills joins its two skills; both are then input skills.
   */
  lemma {:induction false} AssociationWeightsShape(rels: seq<Relationship>, skills: set<string>, a: string, b: string)
    ensures var m := AssociationWeights(rels, skills);
      && ((a, b) in m <==> Associated(rels, skills, a, b))
      && ((a, b) in m ==> (b, a) in m && m[(a, b)] == m[(b, a)] && a in skills && b in skills)
    decreases |rels|
  {
    if rels != [] {
      var init := rels[..|rels| - 1];
      var rel := rels[|rels| - 1];
      AssociationWeightsShape(init, skills, a, b);
      AssociatedSplit(rels, skills, a, b);
    }
  }

  lemma AssociatedSplit(rels: seq<Relationship>, skills: set<string>, a: string, b: string)
    requires rels != []
    ensures Associated(rels, skills, a, b) <==>
      Associated(rels[..|rels| - 1], skills, a, b)
      || (Keeps(rels[|rels| - 1], skills, "association") && Joins(rels[|rels| - 1], a, b))
  {
    var init := rels[..|rels| - 1];
    if Associated(init, skills, a, b) {
      var i :| 0 <= i < |init| && Keeps(init[i], skills, "association") && Joins(init[i], a, b);
      assert rels[i] == init[i];
    }
    if Associated(rels, skills, a, b) {
      var i :| 0 <= i < |rels| && Keeps(rels[i], skills, "association") && Joins(rels[i], a, b);
      if i < |init| {
        assert init[i] == rels[i];
      }
    }
  }

  /** The last association joining a pair decides its score. */
  lemma {:induction false} AssociationLastWins(rels: seq<Relationship>, skills: set<string>, i: nat, a: string, b: string)
    requires i < |rels| && Keeps(rels[i], skills, "association") && Joins(rels[i], a, b)
    requires forall j :: i < j < |rels| ==> !(Keeps(rels[j], skills, "association") && Joins(rels[j], a, b))
    ensures var m := AssociationWeights(rels, skills); (a, b) in m && m[(a, b)] == rels[i].weight.GetOr(0.0)
    decreases |rels|
  {
    var init := rels[..|rels| - 1];
    if i < |rels| - 1 {
      assert init[i] == rels[i];
      forall j | i < j < |init| ensures !(Keeps(init[j], skills, "association") && Joins(init[j], a, b)) {
        assert init[j] == rels[j];
      }
      AssociationLastWins(init, skills, i, a, b);
    }
  }

  // ---------------------------------------------------------------------------
  // group_skills_by_association
  // ---------------------------------------------------------------------------

  /** The groups so far and `skill_to_module`. */
  datatype Grouping = Grouping(groups: seq<seq<string>>, moduleOf: map<string, nat>)

  /** `max(skill_to_module[pre] for placed prerequisites pre of skill, default=-1)`; `edges` are `(src, tgt)` pairs. */
  function MaxPrereqModule(skill: string, edges: seq<(string, string)>, moduleOf: map<string, nat>): (r: int)
    ensures r >= -1
    ensures forall k :: 0 <= k < |edges| && edges[k].1 == skill && edges[k].0 in moduleOf ==> moduleOf[edges[k].0] <= r
    ensures r >= 0 ==> exists k :: 0 <= k < |edges| && edges[k].1 == skill && edges[k].0 in moduleOf && moduleOf[edges[k].0] == r
  {
    if edges == [] then -1
    else
      var rest := MaxPrereqModule(skill, edges[1..], moduleOf);
      assert forall k :: 1 <= k < |edges| ==> edges[k] == edges[1..][k - 1];
      if edges[0].1 == skill && edges[0].0 in moduleOf then Numeric.Max(moduleOf[edges[0].0], rest) else rest
  }

  /** `sum(association_scores.get((skill, other), 0) for other in group)` */
  function ScoreSum(skill: string, group: seq<string>, scores: Scores): real {
    if group == [] then 0.0
    else (if (skill, group[0]) in scores then scores[(skill, group[0])] else 0.0) + ScoreSum(skill, group[1..], scores)
  }

  /** The average association of `skill` with the group's members. */
  function AverageScore(skill: string, group: seq<string>, scores: Scores): real {
    if group == [] then 0.0 else ScoreSum(skill, group, scores) / |group| as real
  }

  /** The group has room and its average association reaches the threshold. */
  predicate Fits(skill: string, group: seq<string>, scores: Scores, threshold: real) {
    |group| < 3 && AverageScore(skill, group, scores) >= threshold
  }

  /** The `for idx in range(...)` scan: the first group from `idx` on that fits. */
  function FirstFit(skill: string, groups: seq<seq<string>>, scores: Scores, threshold: real, idx: nat): (r: Option<nat>)
    ensures r.Some? ==> idx <= r.value < |groups| && Fits(skill, groups[r.value], scores, threshold)
    ensures forall j :: idx <= j < |groups| && (r.None? || j < r.value) ==> !Fits(skill, groups[j], scores, threshold)
    decreases |groups| - idx
  {
    if idx >= |groups| then None
    else if Fits(skill, groups[idx], scores, threshold) then Some(idx)
    else FirstFit(skill, groups, scores, threshold, idx + 1)
  }

  /** One turn of `for skill in topo_order`: the first fitting group past the prerequisites, or a new one. */
  function Place(st: Grouping, skill: string, edges: seq<(string, string)>, scores: Scores, threshold: real): (r: Grouping)
  {
    var lo := MaxPrereqModule(skill, edges, st.moduleOf) + 1;
    match FirstFit(skill, st.groups, scores, threshold, lo)
    case Some(i) => Grouping(st.groups[i := st.groups[i] + [skill]], st.moduleOf[skill := i])
    case None => Grouping(st.groups + [[skill]], st.moduleOf[skill := |st.groups|])
  }

  function GroupFrom(order: seq<string>, st: Grouping, edges: seq<(string, string)>, scores: Scores, threshold: real): Grouping
    decreases |order|
  {
    if order == [] then st else GroupFrom(order[1..], Place(st, order[0], edges, scores, threshold), edges, scores, threshold)
  }

  /** `group_skills_by_association(topo_order, association_scores, _, prereq_graph, threshold)` */
  function GroupSkills(order: seq<string>, scores: Scores, edges: seq<(string, string)>, threshold: real): seq<seq<string>> {
    GroupFrom(order, Grouping([], map[]), edges, scores, threshold).groups
  }

  /** A skill is placed in the first group past its placed prerequisites that fits, or in a new group at the end. */
  lemma PlaceFirstFit(st: Grouping, skill: string, edges: seq<(string, string)>, scores: Scores, threshold: real)
    ensures var r := Place(st, skill, edges, scores, threshold);
      var lo := MaxPrereqModule(skill, edges, st.moduleOf) + 1;
      var i := r.moduleOf[skill];
      && (i < |st.groups| ==>
            && lo <= i && Fits(skill, st.groups[i], scores, threshold)
            && r.groups == st.groups[i := st.groups[i] + [skill]]
            && forall j :: lo <= j < i ==> !Fits(skill, st.groups[j], scores, threshold))
      && (i >= |st.groups| ==>
            && i == |st.groups| && r.groups == st.groups + [[skill]]
            && forall j :: lo <= j < |st.groups| ==> !Fits(skill, st.groups[j], scores, threshold))
  {
  }

  function Flatten(groups: seq<seq<string>>): seq<string> {
    if groups == [] then [] else groups[0] + Flatten(groups[1..])
  }

  lemma {:induction false} FlattenAppend(groups: seq<seq<string>>, g: seq<string>)
    ensures Flatten(groups + [g]) == Flatten(groups) + g
  {
    if groups == [] {
      assert Flatten([g]) == g + Flatten([]);
    } else {
      assert (groups + [g])[1..] == groups[1..] + [g];
      FlattenAppend(groups[1..], g);
    }
  }

  lemma {:induction false} FlattenExtend(groups: seq<seq<string>>, i: nat, s: string)
    requires i < |groups|
    ensures multiset(Flatten(groups[i := groups[i] + [s]])) == multiset(Flatten(groups)) + multiset{s}
  {
    var u := groups[i := groups[i] + [s]];
    if i == 0 {
      assert u[1..] == groups[1..];
    } else {
      assert u[1..] == groups[1..][i - 1 := groups[i] + [s]];
      FlattenExtend(groups[1..], i - 1, s);
    }
  }

  /** Every placed skill sits in the group `skill_to_module` names, and in no other. */
  predicate Tracked(st: Grouping) {
    && (forall s :: s in st.moduleOf ==> st.moduleOf[s] < |st.groups| && s in st.groups[st.moduleOf[s]])
    && (forall k, x :: 0 <= k < |st.groups| && x in st.groups[k] ==> x in st.moduleOf && st.moduleOf[x] == k)
  }

  /** Every group holds one to three skills. */
  predicate Sized(groups: seq<seq<string>>) {
    forall k :: 0 <= k < |groups| ==> 1 <= |groups[k]| <= 3
  }

  /** A skill comes after every prerequisite placed before it. */
  predicate AfterPrerequisites(st: Grouping, placed: seq<string>, edges: seq<(string, string)>) {
    forall i, j ::
      (0 <= i < j < |placed| && placed[i] in st.moduleOf && placed[j] in st.moduleOf
       && (placed[i], placed[j]) in edges) ==> st.moduleOf[placed[i]] < st.moduleOf[placed[j]]
  }

  /** The loop's invariant after placing the skills of `placed`. */
  ghost predicate Grouped(st: Grouping, placed: seq<string>, edges: seq<(string, string)>) {
    && Tracked(st) && Sized(st.groups)
    && (forall s :: s in st.moduleOf <==> s in placed)
    && multiset(Flatten(st.groups)) == multiset(placed)
    && AfterPrerequisites(st, placed, edges)
  }

  /** The effect of `Place` on the groups, the map and the skills placed. */
  predicate PlaceEffect(st: Grouping, r: Grouping, skill: string) {
    && Tracked(r) && Sized(r.groups) && r.moduleOf.Keys == st.moduleOf.Keys + {skill}
    && multiset(Flatten(r.groups)) == multiset(Flatten(st.groups)) + multiset{skill}
    && (forall s :: s in st.moduleOf ==> r.moduleOf[s] == st.moduleOf[s])
  }

  lemma JoinGroup(st: Grouping, skill: string, i: nat)
    requires Tracked(st) && Sized(st.groups) && skill !in st.moduleOf
    requires i < |st.groups| && |st.groups[i]| < 3
    ensures PlaceEffect(st, Grouping(st.groups[i := st.groups[i] + [skill]], st.moduleOf[skill := i]), skill)
  {
    var r := Grouping(st.groups[i := st.groups[i] + [skill]], st.moduleOf[skill := i]);
    FlattenExtend(st.groups, i, skill);
    forall k, x | 0 <= k < |r.groups| && x in r.groups[k] ensures x in r.moduleOf && r.moduleOf[x] == k {
      if k != i || x != skill {
        assert x in st.groups[k] by {
          if k == i {
            assert x in st.groups[i] + [skill];
          }
        }
      }
    }
    forall s | s in r.moduleOf ensures r.moduleOf[s] < |r.groups| && s in r.groups[r.moduleOf[s]] {
      if s != skill {
        var k := st.moduleOf[s];
        assert s in st.groups[k];
        assert s in r.groups[k];
      }
    }
  }

  lemma NewGroup(st: Grouping, skill: string)
    requires Tracked(st) && Sized(st.groups) && skill !in st.moduleOf
    ensures PlaceEffect(st, Grouping(st.groups + [[skill]], st.moduleOf[skill := |st.groups|]), skill)
  {
    var r := Grouping(st.groups + [[skill]], st.moduleOf[skill := |st.groups|]);
    FlattenAppend(st.groups, [skill]);
    forall k, x | 0 <= k < |r.groups| && x in r.groups[k] ensures x in r.moduleOf && r.moduleOf[x] == k {
      if k < |st.groups| {
        assert r.groups[k] == st.groups[k];
      }
    }
    forall s | s in r.moduleOf ensures r.moduleOf[s] < |r.groups| && s in r.groups[r.moduleOf[s]] {
      if s != skill {
        assert r.groups[st.moduleOf[s]] == st.groups[st.moduleOf[s]];
      }
    }
  }

  lemma PlaceTracked(st: Grouping, skill: string, edges: seq<(string, string)>, scores: Scores, threshold: real)
    requires Tracked(st) && Sized(st.groups) && skill !in st.moduleOf
    ensures PlaceEffect(st, Place(st, skill, edges, scores, threshold), skill)
  {
    var lo := MaxPrereqModule(skill, edges, st.moduleOf) + 1;
    match FirstFit(skill, st.groups, scores, threshold, lo)
    case Some(i) => JoinGroup(st, skill, i);
    case None => NewGroup(st, skill);
  }

  lemma PlaceAfterPrerequisites(st: Grouping, placed: seq<string>, skill: string, edges: seq<(string, string)>,
                                scores: Scores, threshold: real)
    requires Grouped(st, placed, edges) && skill !in placed
    ensures Grouped(Place(st, skill, edges, scores, threshold), placed + [skill], edges)
  {
    var r := Place(st, skill, edges, scores, threshold);
    var all := placed + [skill];
    PlaceTracked(st, skill, edges, scores, threshold);
    PlaceFirstFit(st, skill, edges, scores, threshold);

    forall i, j | 0 <= i < j < |all| && all[i] in r.moduleOf && all[j] in r.moduleOf && (all[i], all[j]) in edges
      ensures r.moduleOf[all[i]] < r.moduleOf[all[j]]
    {
      if j < |placed| {
        assert all[i] == placed[i] && all[j] == placed[j];
      } else {
        assert all[i] == placed[i] && all[j] == skill;
        var k :| 0 <= k < |edges| && edges[k] == (all[i], skill);
        assert all[i] in st.moduleOf;
      }
    }
  }

  lemma {:induction false} GroupFromGrouped(order: seq<string>, st: Grouping, placed: seq<string>,
                                            edges: seq<(string, string)>, scores: Scores, threshold: real)
    requires Grouped(st, placed, edges)
    requires forall i, j :: 0 <= i < j < |placed + order| ==> (placed + order)[i] != (placed + order)[j]
    ensures Grouped(GroupFrom(order, st, edges, scores, threshold), placed + order, edges)
    decreases |order|
  {
    if order == [] {
      assert placed + order == placed;
    } else {
      assert (placed + order)[|placed|] == order[0];
      assert order[0] !in placed by {
        forall i | 0 <= i < |placed| ensures placed[i] != order[0] {
          assert (placed + order)[i] == placed[i];
        }
      }
      PlaceAfterPrerequisites(st, placed, order[0], edges, scores, threshold);
      assert placed + [order[0]] + order[1..] == placed + order;
      GroupFromGrouped(order[1..], Place(st, order[0], edges, scores, threshold), placed + [order[0]],
                       edges, scores, threshold);
    }
  }

  /** The grouping state at the end of the loop over an order without repeats satisfies the invariant. */
  lemma GroupAllGrouped(order: seq<string>, scores: Scores, edges: seq<(string, string)>, threshold: real)
    requires forall i, j :: 0 <= i < j < |order| ==> order[i] != order[j]
    ensures Grouped(GroupFrom(order, Grouping([], map[]), edges, scores, threshold), order, edges)
  {
    assert [] + order == order;
    GroupFromGrouped(order, Grouping([], map[]), [], edges, scores, threshold);
  }

  /**
   * For an order without repeats, the groups hold exactly the skills of the order, each
   * skill in one group only, and every group has one to three skills.
   */
  lemma GroupSkillsPartition(order: seq<string>, scores: Scores, edges: seq<(string, string)>, threshold: real)
    requires forall i, j :: 0 <= i < j < |order| ==> order[i] != order[j]
    ensures var g := GroupSkills(order, scores, edges, threshold);
      && multiset(Flatten(g)) == multiset(order)
      && Sized(g)
      && (forall k, k', x :: 0 <= k < |g| && 0 <= k' < |g| && x in g[k] && x in g[k'] ==> k == k')
  {
    GroupAllGrouped(order, scores, edges, threshold);
    var st := GroupFrom(order, Grouping([], map[]), edges, scores, threshold);
    var g := st.groups;
    forall k, k', x | 0 <= k < |g| && 0 <= k' < |g| && x in g[k] && x in g[k'] ensures k == k' {
      assert st.moduleOf[x] == k && st.moduleOf[x] == k';
    }
  }

  /** For an order without repeats, a skill's group comes after the group of every prerequisite before it. */
  lemma GroupSkillsAfterPrerequisites(order: seq<string>, scores: Scores, edges: seq<(string, string)>, threshold: real,
                                      i: nat, j: nat, k: nat, k': nat)
    requires forall i, j :: 0 <= i < j < |order| ==> order[i] != order[j]
    requires i < j < |order| && (order[i], order[j]) in edges
    requires var g := GroupSkills(order, scores, edges, threshold);
      k < |g| && k' < |g| && order[i] in g[k] && order[j] in g[k']
    ensures k < k'
  {
    GroupAllGrouped(order, scores, edges, threshold);
    var st := GroupFrom(order, Grouping([], map[]), edges, scores, threshold);
    assert st.moduleOf[order[i]] == k && st.moduleOf[order[j]] == k';
  }

  // ---------------------------------------------------------------------------
  // assign_module_durations
  // ---------------------------------------------------------------------------

  /** The focus of the last input skill named `name` (any case), 0 when there is none. */
  function FocusOf(inputSkills: seq<(string, real)>, name: string): real
    decreases |inputSkills|
  {
    if inputSkills == [] then 0.0
    else if Text.Lower(inputSkills[|inputSkills| - 1].0) == name then inputSkills[|inputSkills| - 1].1
    else FocusOf(inputSkills[..|inputSkills| - 1], name)
  }

  /** `{s[0].lower(): s[1] for s in input_skills}` */
  function FocusMap(inputSkills: seq<(string, real)>): PyDict.Dict<string, real> {
    PyDict.FromPairs(seq(|inputSkills|, i requires 0 <= i < |inputSkills| => (Text.Lower(inputSkills[i].0), inputSkills[i].1)))
  }

  /** `skill_focus_map.get(skill, 0)` is the focus of the last input skill of that name. */
  lemma {:induction false} FocusMapLookup(inputSkills: seq<(string, real)>, name: string)
    ensures PyDict.GetOr(FocusMap(inputSkills), name, 0.0) == FocusOf(inputSkills, name)
    decreases |inputSkills|
  {
    var pairs := seq(|inputSkills|, i requires 0 <= i < |inputSkills| => (Text.Lower(inputSkills[i].0), inputSkills[i].1));
    assert forall i :: 0 <= i < |pairs| ==> pairs[i].0 == Text.Lower(inputSkills[i].0) && pairs[i].1 == inputSkills[i].1;
    if exists i :: 0 <= i < |pairs| && pairs[i].0 == name {
      var i :| 0 <= i < |pairs| && pairs[i].0 == name && forall j :: i < j < |pairs| ==> pairs[j].0 != name by {
        LastWith(pairs, name);
      }
      PyDict.FromPairsLastWins(pairs, i);
      FocusOfLast(inputSkills, name, i);
    } else {
      FocusOfAbsent(inputSkills, name);
    }
  }

  lemma {:induction false} LastWith(pairs: seq<(string, real)>, name: string)
    requires exists i :: 0 <= i < |pairs| && pairs[i].0 == name
    ensures exists i :: 0 <= i < |pairs| && pairs[i].0 == name && forall j :: i < j < |pairs| ==> pairs[j].0 != name
    decreases |pairs|
  {
    var last := |pairs| - 1;
    if pairs[last].0 != name {
      var init := pairs[..last];
      var i :| 0 <= i < |pairs| && pairs[i].0 == name;
      assert init[i] == pairs[i];
      LastWith(init, name);
      var k :| 0 <= k < |init| && init[k].0 == name && forall j :: k < j < |init| ==> init[j].0 != name;
      assert pairs[k] == init[k];
      assert forall j :: k < j < |pairs| ==> pairs[j].0 != name by {
        forall j | k < j < |pairs| ensures pairs[j].0 != name {
          if j < last {
            assert init[j] == pairs[j];
          }
        }
      }
    }
  }

  lemma {:induction false} FocusOfLast(inputSkills: seq<(string, real)>, name: string, i: nat)
    requires i < |inputSkills| && Text.Lower(inputSkills[i].0) == name
    requires forall j :: i < j < |inputSkills| ==> Text.Lower(inputSkills[j].0) != name
    ensures FocusOf(inputSkills, name) == inputSkills[i].1
    decreases |inputSkills|
  {
    if i < |inputSkills| - 1 {
      var init := inputSkills[..|inputSkills| - 1];
      assert init[i] == inputSkills[i];
      forall j | i < j < |init| ensures Text.Lower(init[j].0) != name {
        assert init[j] == inputSkills[j];
      }
      FocusOfLast(init, name, i);
    }
  }

  lemma {:induction false} FocusOfAbsent(inputSkills: seq<(string, real)>, name: string)
    requires forall j :: 0 <= j < |inputSkills| ==> Text.Lower(inputSkills[j].0) != name
    ensures FocusOf(inputSkills, name) == 0.0
    decreases |inputSkills|
  {
    if inputSkills != [] {
      var init := inputSkills[..|inputSkills| - 1];
      forall j | 0 <= j < |init| ensures Text.Lower(init[j].0) != name {
        assert init[j] == inputSkills[j];
      }
      FocusOfAbsent(init, name);
    }
  }

  /** `round(focus * total_hours, 1)` */
  function HoursFor(focus: real, totalHours: real): real {
    Numeric.PyRound(focus * totalHours, 1)
  }

  /** The hours of one skill: `round(skill_focus_map.get(skill, 0) * total_hours, 1)`. */
  function Hours(focus: PyDict.Dict<string, real>, skill: string, totalHours: real): real {
    HoursFor(PyDict.GetOr(focus, skill, 0.0), totalHours)
  }

  /** The hours of each skill of a group. */
  function SkillHours(group: seq<string>, focus: PyDict.Dict<string, real>, totalHours: real): (r: seq<real>)
    ensures |r| == |group|
    ensures forall j :: 0 <= j < |group| ==> r[j] == Hours(focus, group[j], totalHours)
  {
    if group == [] then []
    else [Hours(focus, group[0], totalHours)] + SkillHours(group[1..], focus, totalHours)
  }

  /**
   * `assign_module_durations`: module `i + 1` holds the skills of group `i`, each with
   * its share of the total hours rounded to a tenth; a skill of no input gets none.
   */
  function AssignModuleDurations(groups: seq<seq<string>>, inputSkills: seq<(string, real)>, totalHours: real)
    : (r: seq<ModuleScheduling.ModuleSpec>)
    ensures |r| == |groups|
    ensures forall i :: 0 <= i < |r| ==> r[i].id == i + 1 && r[i].skills == groups[i] && |r[i].durations| == |groups[i]|
  {
    var focus := FocusMap(inputSkills);
    seq(|groups|, i requires 0 <= i < |groups| => ModuleScheduling.ModuleSpec(i + 1, groups[i], SkillHours(groups[i], focus, totalHours)))
  }

  /** Every skill's hours are its input focus times the total, to within a twentieth of an hour. */
  lemma ModuleHours(groups: seq<seq<string>>, inputSkills: seq<(string, real)>, totalHours: real, i: nat, j: nat)
    requires i < |groups| && j < |groups[i]|
    ensures var d := AssignModuleDurations(groups, inputSkills, totalHours)[i].durations[j];
      var exact := FocusOf(inputSkills, groups[i][j]) * totalHours;
      exact - 0.05 <= d <= exact + 0.05
  {
    DurationOfFocus(groups, inputSkills, totalHours, i, j);
    HoursNearEqual(AssignModuleDurations(groups, inputSkills, totalHours)[i].durations[j],
                   FocusOf(inputSkills, groups[i][j]), totalHours);
  }

  lemma HoursNearEqual(d: real, focus: real, totalHours: real)
    requires d == HoursFor(focus, totalHours)
    ensures focus * totalHours - 0.05 <= d <= focus * totalHours + 0.05
  {
    HoursNear(focus, totalHours);
  }

  lemma DurationOfFocus(groups: seq<seq<string>>, inputSkills: seq<(string, real)>, totalHours: real, i: nat, j: nat)
    requires i < |groups| && j < |groups[i]|
    ensures AssignModuleDurations(groups, inputSkills, totalHours)[i].durations[j]
      == HoursFor(FocusOf(inputSkills, groups[i][j]), totalHours)
  {
    DurationOfMap(groups, inputSkills, totalHours, i, j);
    FocusMapLookup(inputSkills, groups[i][j]);
  }

  /** A skill that no input names gets no hours. */
  lemma UnknownSkillHours(groups: seq<seq<string>>, inputSkills: seq<(string, real)>, totalHours: real, i: nat, j: nat)
    requires i < |groups| && j < |groups[i]|
    requires forall k :: 0 <= k < |inputSkills| ==> Text.Lower(inputSkills[k].0) != groups[i][j]
    ensures AssignModuleDurations(groups, inputSkills, totalHours)[i].durations[j] == 0.0
  {
    var name := groups[i][j];
    DurationOfMap(groups, inputSkills, totalHours, i, j);
    FocusMapLookup(inputSkills, name);
    FocusOfAbsent(inputSkills, name);
    HoursNear(0.0, totalHours);
  }

  lemma DurationOfMap(groups: seq<seq<string>>, inputSkills: seq<(string, real)>, totalHours: real, i: nat, j: nat)
    requires i < |groups| && j < |groups[i]|
    ensures AssignModuleDurations(groups, inputSkills, totalHours)[i].durations[j]
      == Hours(FocusMap(inputSkills), groups[i][j], totalHours)
  {
  }

  /** Rounding to a tenth moves a value by at most a twentieth, and keeps 0 at 0. */
  lemma HoursNear(focus: real, totalHours: real)
    ensures focus * totalHours - 0.05 <= HoursFor(focus, totalHours) <= focus * totalHours + 0.05
    ensures focus == 0.0 ==> HoursFor(focus, totalHours) == 0.0
  {
    assert Numeric.Pow10(1) == 10;
    if focus == 0.0 {
      assert focus * totalHours == 0.0;
      assert Numeric.RoundHalfEven(0.0) == 0;
    }
  }


}
