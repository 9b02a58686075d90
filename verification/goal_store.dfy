/**
 * The goal endpoints: a user's goal behind a write-through cache, and the single resume
 * file kept per user as `resume.pdf`, `resume.docx` or `resume.txt`.
 */
module GoalStore {
  import opened Wrappers
  import opened Text
  import opened Numeric

  /** The fields of a goal request; the seven flags are Monday first. */
  datatype Goal = Goal(
    targetPosition: string, industry: string, expLevel: string,
    durationWeeks: int, weeklyHours: int, days: seq<bool>, responsibility: Option<string>)

  /** The goal table (one goal per user) and the goal cache. */
  datatype Goals = Goals(table: map<int, Goal>, cache: map<int, Goal>)

  /** Every cached goal is the stored one. */
  predicate Coherent(g: Goals) {
    forall u :: u in g.cache ==> u in g.table && g.cache[u] == g.table[u]
  }

  datatype GoalAnswer = GoalAnswer(goal: Option<Goal>, goals: Goals)

  /** `get_user_goal(u)`: the cached goal, else the stored one (then cached), else `None`. */
  function GetGoal(g: Goals, u: int): (r: GoalAnswer)
    ensures r.goals.table == g.table
    ensures u !in g.cache && u !in g.table ==> r == GoalAnswer(None, g)
    ensures forall v :: v != u ==> (v in r.goals.cache <==> v in g.cache) && (v in g.cache ==> r.goals.cache[v] == g.cache[v])
  {
    if u in g.cache then GoalAnswer(Some(g.cache[u]), g)
    else if u !in g.table then GoalAnswer(None, g)
    else GoalAnswer(Some(g.table[u]), g.(cache := g.cache[u := g.table[u]]))
  }

  /** With a coherent cache, GET answers the stored goal, if any, and the cache stays coherent. */
  lemma GetReadsTable(g: Goals, u: int)
    requires Coherent(g)
    ensures GetGoal(g, u).goal == if u in g.table then Some(g.table[u]) else None
    ensures Coherent(GetGoal(g, u).goals)
  {
  }

  /** `update_user_goal(u, request)`: overwrite or create the goal, then cache it. */
  function UpsertGoal(g: Goals, u: int, req: Goal): (r: Goals)
    ensures r.table.Keys == g.table.Keys + {u}
    ensures forall v :: v in g.table && v != u ==> r.table[v] == g.table[v]
  {
    Goals(g.table[u := req], g.cache[u := req])
  }

  /** After an upsert the next GET answers the request, from the cache, and coherence is kept. */
  lemma UpsertThenGet(g: Goals, u: int, req: Goal)
    ensures GetGoal(UpsertGoal(g, u, req), u).goal == Some(req)
    ensures GetGoal(UpsertGoal(g, u, req), u).goals == UpsertGoal(g, u, req)
    ensures Coherent(g) ==> Coherent(UpsertGoal(g, u, req))
  {
  }

  // ---------------------------------------------------------------------------
  // Resume files
  // ---------------------------------------------------------------------------

  /** `ALLOWED_EXTENSIONS`, in the order the lookup tries them. */
  function AllowedExtensions(): seq<string> {
    [".pdf", ".docx", ".txt"]
  }

  /** The part of a path after its last '/'. */
  function BaseName(path: string): (r: string)
    ensures |r| <= |path| && forall i :: 0 <= i < |r| ==> r[i] != '/'
    ensures r == path[|path| - |r|..]
  {
    if path == [] then []
    else if path[|path| - 1] == '/' then []
    else BaseName(path[..|path| - 1]) + [path[|path| - 1]]
  }

  /** The position of the last '.' in `s`, if any. */
  function LastDot(s: string): (r: Option<nat>)
    ensures r.None? <==> forall i :: 0 <= i < |s| ==> s[i] != '.'
    ensures r.Some? ==> r.value < |s| && s[r.value] == '.' && forall i :: r.value < i < |s| ==> s[i] != '.'
  {
    if s == [] then None
    else if s[|s| - 1] == '.' then Some(|s| - 1)
    else LastDot(s[..|s| - 1])
  }

  /** Every character before position `k` is a dot. */
  predicate LeadingDots(s: string, k: nat)
    requires k <= |s|
  {
    forall i :: 0 <= i < k ==> s[i] == '.'
  }

  /**
   * `os.path.splitext(filename)[1]`: from the last dot of the base name to its end, unless
   * that dot is only preceded by dots (`.txt` has no extension).
   */
  function Extension(filename: string): (r: string)
    ensures r == [] || r[0] == '.'
    ensures forall i :: 1 <= i < |r| ==> r[i] != '.' && r[i] != '/'
  {
    var base := BaseName(filename);
    match LastDot(base)
    case None => []
    case Some(k) => if LeadingDots(base, k) then [] else base[k..]
  }

  /** The lower-cased extension of an upload, if the endpoint accepts it. */
  function AcceptedExtension(filename: string): (r: Option<string>)
    ensures r.Some? <==> Lower(Extension(filename)) in AllowedExtensions()
    ensures r.Some? ==> r.value == Lower(Extension(filename))
  {
    var ext := Lower(Extension(filename));
    if ext in AllowedExtensions() then Some(ext) else None
  }

  /** The resume files present: pairs of user id and extension. */
  type Files = set<(int, string)>

  /** Extensions of the user's resume files. */
  function ResumesOf(files: Files, u: int): set<string> {
    set f | f in files && f.0 == u && f.1 in AllowedExtensions() :: f.1
  }

  /** The user's resume files removed and `ext` written in their place. */
  function Replace(files: Files, u: int, ext: string): Files {
    (set f | f in files && !(f.0 == u && f.1 in AllowedExtensions())) + {(u, ext)}
  }

  /** Replacing one user's resume leaves every other user's resumes as they were. */
  lemma ReplaceKeepsOthers(files: Files, u: int, ext: string, v: int)
    requires v != u
    ensures ResumesOf(Replace(files, u, ext), v) == ResumesOf(files, v)
  {
    var r := Replace(files, u, ext);
    forall e | e in ResumesOf(files, v) ensures e in ResumesOf(r, v) {
      assert (v, e) in r;
    }
    forall e | e in ResumesOf(r, v) ensures e in ResumesOf(files, v) {
      assert (v, e) in files;
    }
  }

  /** After the replacement the user's only resume is the new one. */
  lemma ReplaceLeavesOne(files: Files, u: int, ext: string)
    requires ext in AllowedExtensions()
    ensures ResumesOf(Replace(files, u, ext), u) == {ext}
  {
    var r := Replace(files, u, ext);
    assert (u, ext) in r;
    forall e | e in ResumesOf(r, u) ensures e == ext {
      assert (u, e) in r;
    }
  }

  /** `save_resume(u, file)`: 400 for another extension; else the old resumes removed and the new one written. */
  function SaveResume(files: Files, u: int, filename: string): (r: Result<Files, HttpError>)
    ensures r.Err? <==> AcceptedExtension(filename).None?
    ensures r.Err? ==> r.error == BadRequest
    ensures r.Ok? ==> ResumesOf(r.value, u) == {AcceptedExtension(filename).value}
    ensures r.Ok? ==> forall v :: v != u ==> ResumesOf(r.value, v) == ResumesOf(files, v)
  {
    match AcceptedExtension(filename)
    case None => Err(BadRequest)
    case Some(ext) =>
      ReplaceLeavesOne(files, u, ext);
      forall v | v != u ensures ResumesOf(Replace(files, u, ext), v) == ResumesOf(files, v) {
        ReplaceKeepsOthers(files, u, ext, v);
      }
      Ok(Replace(files, u, ext))
  }

  /** Decimal text of a user id, as `str(user_id)`. */
  function IntString(n: int): string {
    if n < 0 then "-" + NatString(-n) else NatString(n)
  }

  function ResumeUrl(u: int, ext: string): string {
    "/resumes/" + IntString(u) + "/resume" + ext
  }

  /** `exts[i]` is the first extension in `exts` with a file of user `u`. */
  predicate FirstAt(files: Files, u: int, exts: seq<string>, i: int)
    requires 0 <= i < |exts|
  {
    (u, exts[i]) in files && forall j :: 0 <= j < i ==> (u, exts[j]) !in files
  }

  /** The first allowed extension, in order, with a file present. */
  function FirstPresent(files: Files, u: int, exts: seq<string>): (r: Option<string>)
    ensures r.None? <==> forall i :: 0 <= i < |exts| ==> (u, exts[i]) !in files
    ensures r.Some? ==> exists i :: 0 <= i < |exts| && exts[i] == r.value && FirstAt(files, u, exts, i)
  {
    if exts == [] then None
    else if (u, exts[0]) in files then
      assert FirstAt(files, u, exts, 0);
      Some(exts[0])
    else
      var r := FirstPresent(files, u, exts[1..]);
      if r.Some? then
        var i :| 0 <= i < |exts[1..]| && exts[1..][i] == r.value && FirstAt(files, u, exts[1..], i);
        assert FirstAt(files, u, exts, i + 1);
        r
      else r
  }

  /** `get_resume_url(u)` */
  function GetResumeUrl(files: Files, u: int): (r: Result<string, HttpError>)
    ensures r.Err? <==> forall e :: e in AllowedExtensions() ==> (u, e) !in files
    ensures r.Err? ==> r.error == NotFound
  {
    match FirstPresent(files, u, AllowedExtensions())
    case None => Err(NotFound)
    case Some(ext) => Ok(ResumeUrl(u, ext))
  }

  /** When exactly one of the extensions has a file, the lookup finds it. */
  lemma {:induction false} FirstPresentOnly(files: Files, u: int, exts: seq<string>, ext: string)
    requires ext in exts && (u, ext) in files
    requires forall e :: e in exts && e != ext ==> (u, e) !in files
    ensures FirstPresent(files, u, exts) == Some(ext)
  {
    if exts[0] != ext {
      FirstPresentOnly(files, u, exts[1..], ext);
    }
  }

  /** A user whose only resume extension is `ext` has that file and no other allowed one. */
  lemma ResumesOfSingle(files: Files, u: int, ext: string)
    requires ResumesOf(files, u) == {ext}
    ensures (u, ext) in files
    ensures forall e :: e in AllowedExtensions() && e != ext ==> (u, e) !in files
  {
    assert ext in ResumesOf(files, u);
    forall e | e in AllowedExtensions() && e != ext ensures (u, e) !in files {
      assert (u, e) in files ==> e in ResumesOf(files, u);
    }
  }

  /** After a successful save the URL names the file just saved. */
  lemma SaveThenUrl(files: Files, u: int, filename: string, r: Result<Files, HttpError>)
    requires r == SaveResume(files, u, filename) && r.Ok?
    ensures GetResumeUrl(r.value, u) == Ok(ResumeUrl(u, AcceptedExtension(filename).value))
  {
    var ext := AcceptedExtension(filename).value;
    ResumesOfSingle(r.value, u, ext);
    FirstPresentOnly(r.value, u, AllowedExtensions(), ext);
  }

  /** `remove_resume(u)`: every variant deleted; reports whether any existed. */
  function RemoveResume(files: Files, u: int): (r: (Files, bool))
    ensures r.1 <==> exists e :: e in AllowedExtensions() && (u, e) in files
    ensures forall e :: e in AllowedExtensions() ==> (u, e) !in r.0
    ensures forall f :: f in files && !(f.0 == u && f.1 in AllowedExtensions()) ==> f in r.0
    ensures r.0 <= files
  {
    var kept := set f | f in files && !(f.0 == u && f.1 in AllowedExtensions());
    (kept, exists e :: e in AllowedExtensions() && (u, e) in files)
  }
}
