/**
 * The learning-skill table behind the skill endpoints, with its per-user cache: GET reads
 * through the cache, POST replaces a user's skills with the request list verbatim, and
 * skill generation replaces them with the normalised generated list.
 */
module SkillStore {
  import opened Wrappers
  import opened ReadThrough
  import opened UserTable
  import opened GenerateSkills
  import opened Numeric

  /** One `Learn_Skill` row. */
  datatype SkillRow = SkillRow(userId: int, name: string, focus: real, confidence: real)

  datatype Store = Store(rows: seq<SkillRow>, cache: Cache<SkillRow>)

  function Owner(r: SkillRow): int {
    r.userId
  }

  function UserSkills(rows: seq<SkillRow>, u: int): seq<SkillRow> {
    Owned(rows, Owner, u)
  }

  /** Every cache entry holds exactly the user's rows. */
  predicate Coherent(s: Store) {
    forall u :: u in s.cache ==> s.cache[u] == UserSkills(s.rows, u)
  }

  datatype Answer = Answer(skills: seq<SkillRow>, store: Store)

  /** `get_learn_skill(u)` */
  function GetSkills(s: Store, u: int): (r: Answer)
    ensures r.store.rows == s.rows
  {
    var read := ReadList(s.cache, u, UserSkills(s.rows, u));
    Answer(read.value, s.(cache := read.cache))
  }

  /** With a coherent cache, GET answers exactly the user's rows and keeps the cache coherent. */
  lemma GetReadsTable(s: Store, u: int)
    requires Coherent(s)
    ensures GetSkills(s, u).skills == UserSkills(s.rows, u)
    ensures Coherent(GetSkills(s, u).store)
  {
    ReadFresh(s.cache, u, UserSkills(s.rows, u));
  }

  /** A request item: `skill_name`, `focus_score`, `confidence_score`. */
  datatype SkillRequest = SkillRequest(name: string, focus: real, confidence: real)

  /**
   * `Learn_Skill(user_id=u, **item)`: the rows are all and only user `u`'s, and each gives its
   * request item back unchanged.
   */
  function Tagged(reqs: seq<SkillRequest>, u: int): (r: seq<SkillRow>)
    ensures |r| == |reqs|
    ensures forall i :: 0 <= i < |r| ==> r[i] == SkillRow(u, reqs[i].name, reqs[i].focus, reqs[i].confidence)
    ensures forall i :: 0 <= i < |r| ==> SkillRequest(r[i].name, r[i].focus, r[i].confidence) == reqs[i]
    ensures forall v :: UserSkills(r, v) == if v == u then r else []
  {
    var r := seq(|reqs|, i requires 0 <= i < |reqs| => SkillRow(u, reqs[i].name, reqs[i].focus, reqs[i].confidence));
    AllOwnedBy(r, u);
    r
  }

  /** Rows all tagged with `u` are exactly `u`'s skills and nobody else's. */
  lemma AllOwnedBy(rows: seq<SkillRow>, u: int)
    requires forall i :: 0 <= i < |rows| ==> rows[i].userId == u
    ensures forall v :: UserSkills(rows, v) == if v == u then rows else []
  {
    forall v ensures UserSkills(rows, v) == if v == u then rows else [] {
      OwnedAll(rows, Owner, u, v);
    }
  }

  /** The table with user `u`'s rows replaced. */
  function ReplaceRows(rows: seq<SkillRow>, u: int, added: seq<SkillRow>): seq<SkillRow> {
    Without(rows, Owner, u) + added
  }

  /** `update_learn_skill(u, request)`: replace, then drop the user's cache entry. */
  function PostSkills(s: Store, u: int, reqs: seq<SkillRequest>): (r: Store)
    ensures u !in r.cache
    ensures forall v :: v != u ==> (v in r.cache <==> v in s.cache)
  {
    Store(ReplaceRows(s.rows, u, Tagged(reqs, u)), s.cache - {u})
  }

  /**
   * After POST the user's skills are exactly the request, in order and with the scores as
   * sent (nothing is normalised); everyone else's are untouched; the cache stays coherent.
   */
  lemma PostReplaces(s: Store, u: int, reqs: seq<SkillRequest>, v: int)
    ensures UserSkills(PostSkills(s, u, reqs).rows, v) == if v == u then Tagged(reqs, u) else UserSkills(s.rows, v)
    ensures Coherent(s) ==> Coherent(PostSkills(s, u, reqs))
  {
    Replace(s.rows, Tagged(reqs, u), Owner, u, v);
    var t := PostSkills(s, u, reqs);
    if Coherent(s) {
      forall w | w in t.cache ensures t.cache[w] == UserSkills(t.rows, w) {
        Replace(s.rows, Tagged(reqs, u), Owner, u, w);
      }
    }
  }

  /**
   * The normalised generated skills as rows: all and only user `u`'s, each giving its
   * generated skill back unchanged.
   */
  function GeneratedRows(skills: seq<ScoredSkill>, u: int): (r: seq<SkillRow>)
    ensures |r| == |skills|
    ensures forall i :: 0 <= i < |r| ==> r[i] == SkillRow(u, skills[i].name, skills[i].focus, skills[i].confidence)
    ensures forall i :: 0 <= i < |r| ==> ScoredSkill(r[i].name, r[i].focus, r[i].confidence) == skills[i]
    ensures forall v :: UserSkills(r, v) == if v == u then r else []
  {
    var r := seq(|skills|, i requires 0 <= i < |skills| => SkillRow(u, skills[i].name, skills[i].focus, skills[i].confidence));
    AllOwnedBy(r, u);
    r
  }

  datatype Generated = Generated(skills: seq<ScoredSkill>, store: Store)

  /** The list the generation endpoint stores: confidences drawn, then both scores normalised. */
  function GeneratedList(scores: seq<(string, real)>, draws: seq<real>): (r: seq<ScoredSkill>)
    requires |draws| == |scores|
    requires forall i :: 0 <= i < |draws| ==> 3.0 <= draws[i] <= 5.0
    ensures |r| == |scores| && forall i :: 0 <= i < |r| ==> r[i].name == scores[i].0
  {
    Normalize(AddConfidence(scores, draws))
  }

  /**
   * The generation endpoint as written. The 404 for a missing goal is raised inside the
   * `try`, so the closing `except Exception` catches it, rolls back and answers 500 instead.
   * Otherwise the user's rows are replaced by the generated list and the skill cache is left
   * as it was. `scores` stands for the importance scores computed from the goal.
   */
  function GenerateAsWritten(s: Store, u: int, hasGoal: bool, scores: seq<(string, real)>, draws: seq<real>)
    : (r: Result<Generated, HttpError>)
    requires |draws| == |scores|
    requires forall i :: 0 <= i < |draws| ==> 3.0 <= draws[i] <= 5.0
    ensures r.Err? <==> !hasGoal
    ensures r.Err? ==> r.error == InternalError
    ensures r.Ok? ==> r.value.store.cache == s.cache
  {
    if !hasGoal then Err(InternalError)
    else
      var list := GeneratedList(scores, draws);
      Ok(Generated(list, Store(ReplaceRows(s.rows, u, GeneratedRows(list, u)), s.cache)))
  }

  /**
   * The generation endpoint as intended: 404 without a goal, and the user's skill cache
   * entry dropped after the write.
   */
  function Generate(s: Store, u: int, hasGoal: bool, scores: seq<(string, real)>, draws: seq<real>)
    : (r: Result<Generated, HttpError>)
    requires |draws| == |scores|
    requires forall i :: 0 <= i < |draws| ==> 3.0 <= draws[i] <= 5.0
    ensures r.Err? <==> !hasGoal
    ensures r.Err? ==> r.error == NotFound
    ensures r.Ok? ==> u !in r.value.store.cache
  {
    if !hasGoal then Err(NotFound)
    else
      var list := GeneratedList(scores, draws);
      Ok(Generated(list, Store(ReplaceRows(s.rows, u, GeneratedRows(list, u)), s.cache - {u})))
  }

  /**
   * The two endpoints fail on the same requests, but as written the missing goal reaches the
   * client as a 500 rather than the 404 the handler raises; on success they write the same rows.
   */
  lemma GenerateAsWrittenAnswers500(s: Store, u: int, hasGoal: bool, scores: seq<(string, real)>, draws: seq<real>)
    requires |draws| == |scores|
    requires forall i :: 0 <= i < |draws| ==> 3.0 <= draws[i] <= 5.0
    ensures GenerateAsWritten(s, u, hasGoal, scores, draws).Err? <==> Generate(s, u, hasGoal, scores, draws).Err?
    ensures !hasGoal ==> GenerateAsWritten(s, u, hasGoal, scores, draws) == Err(InternalError)
    ensures !hasGoal ==> Generate(s, u, hasGoal, scores, draws) == Err(NotFound)
    ensures hasGoal ==> (var w, g := GenerateAsWritten(s, u, hasGoal, scores, draws), Generate(s, u, hasGoal, scores, draws);
      w.value.skills == g.value.skills && w.value.store.rows == g.value.store.rows)
  {
  }

  /** Generation stores exactly the list it returns and keeps the cache coherent. */
  lemma GenerateStores(s: Store, u: int, hasGoal: bool, scores: seq<(string, real)>, draws: seq<real>, v: int)
    requires |draws| == |scores|
    requires forall i :: 0 <= i < |draws| ==> 3.0 <= draws[i] <= 5.0
    requires Generate(s, u, hasGoal, scores, draws).Ok?
    ensures var g := Generate(s, u, hasGoal, scores, draws).value;
      UserSkills(g.store.rows, v) == if v == u then GeneratedRows(g.skills, u) else UserSkills(s.rows, v)
    ensures Coherent(s) ==> Coherent(Generate(s, u, hasGoal, scores, draws).value.store)
  {
    var g := Generate(s, u, hasGoal, scores, draws).value;
    var added := GeneratedRows(g.skills, u);
    assert g.store.rows == Without(s.rows, Owner, u) + added;
    Replace(s.rows, added, Owner, u, v);
    if Coherent(s) {
      forall w | w in g.store.cache ensures g.store.cache[w] == UserSkills(g.store.rows, w) {
        Replace(s.rows, added, Owner, u, w);
      }
    }
  }

  /** As written, a user whose skills were cached keeps reading the old list after generation. */
  lemma GenerateAsWrittenGoesStale()
    ensures var before := SkillRow(7, "Java", 1.0, 1.0);
      var s := Store([before], map[7 := [before]]);
      && Coherent(s)
      && var g := GenerateAsWritten(s, 7, true, [("Python", 2.0)], [4.0]).value;
      && GetSkills(g.store, 7).skills == [before]
      && UserSkills(g.store.rows, 7) == [SkillRow(7, "Python", 1.0, 1.0)]
  {
    var before := SkillRow(7, "Java", 1.0, 1.0);
    var s := Store([before], map[7 := [before]]);
    assert UserSkills(s.rows, 7) == [before];
    var list := GeneratedList([("Python", 2.0)], [4.0]);
    assert AddConfidence([("Python", 2.0)], [4.0]) == [ScoredSkill("Python", 2.0, 4.0)] by {
      assert RoundHalfEven(8.0) == 8;
    }
    assert list == [ScoredSkill("Python", 1.0, 1.0)] by {
      var xs := [ScoredSkill("Python", 2.0, 4.0)];
      assert Sum(Focuses(xs)) == 2.0;
      assert MaxConfidence(xs) == 4.0;
      assert Pow10(2) == 100;
      assert RoundHalfEven(100.0) == 100;
    }
    var rows := ReplaceRows(s.rows, 7, GeneratedRows(list, 7));
    assert Without(s.rows, Owner, 7) == [];
    Replace(s.rows, GeneratedRows(list, 7), Owner, 7, 7);
  }
}
