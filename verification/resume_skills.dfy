/**
 * What the two resume skill extractors do with the language model's answer: keep the
 * most confident record per lower-cased skill name and sort by confidence, list the
 * (name, confidence) pairs of first occurrences, render the text report, pick the text
 * extractor from the file type, and skip the model entirely when no text was extracted.
 *
 * The model call, its JSON parsing and the PDF, DOCX and UTF-8 decoders are parameters.
 */
module ResumeSkills {
  import opened Wrappers
  import opened Text
  import opened Numeric
  import opened PyDict
  import opened StableSort

  /** One skill object of the model's JSON answer; each field may be missing. */
  datatype SkillRecord = SkillRecord(skill: Option<string>, confidence: Option<real>, domain: Option<string>)

  /** `skill.get('skill', '').lower()`: the de-duplication key. */
  function Key(rec: SkillRecord): string {
    Lower(rec.skill.GetOr(""))
  }

  /** `skill.get('confidence', 0)` */
  function Conf(rec: SkillRecord): real {
    rec.confidence.GetOr(0.0)
  }

  // ---------------------------------------------------------------------------
  // De-duplication
  // ---------------------------------------------------------------------------

  /** One pass of the de-duplication loop: a new key, or a strictly more confident record, is stored. */
  function Keep(d: Dict<string, SkillRecord>, rec: SkillRecord): Dict<string, SkillRecord> {
    match Get(d, Key(rec))
    case None => Put(d, Key(rec), rec)
    case Some(kept) => if Conf(rec) > Conf(kept) then Put(d, Key(rec), rec) else d
  }

  /** `skill_dict` after the loop over `skills`. */
  function Best(skills: seq<SkillRecord>): (r: Dict<string, SkillRecord>)
    ensures forall i :: 0 <= i < |r| ==> r[i].0 == Key(r[i].1) && r[i].1 in skills
    decreases |skills|
  {
    if skills == [] then []
    else
      var n := |skills| - 1;
      var d := Best(skills[..n]);
      assert forall x :: x in skills[..n] ==> x in skills;
      PutEntries(d, Key(skills[n]), skills[n]);
      Keep(d, skills[n])
  }

  /**
   * The position of the record de-duplication keeps for key `k`: the most confident
   * record with that key, the earliest one among equally confident records.
   */
  function BestIndex(skills: seq<SkillRecord>, k: string): (r: Option<nat>)
    ensures r.None? <==> forall j :: 0 <= j < |skills| ==> Key(skills[j]) != k
    ensures r.Some? ==> r.value < |skills| && Key(skills[r.value]) == k
    ensures r.Some? ==> forall j :: 0 <= j < |skills| && Key(skills[j]) == k ==> Conf(skills[j]) <= Conf(skills[r.value])
    ensures r.Some? ==> forall j :: 0 <= j < r.value && Key(skills[j]) == k ==> Conf(skills[j]) < Conf(skills[r.value])
    decreases |skills|
  {
    if skills == [] then None
    else
      var n := |skills| - 1;
      var p := BestIndex(skills[..n], k);
      assert forall j :: 0 <= j < n ==> skills[..n][j] == skills[j];
      if Key(skills[n]) != k then p
      else match p
        case None => Some(n)
        case Some(i) => if Conf(skills[n]) > Conf(skills[i]) then Some(n) else Some(i)
  }

  /** One loop pass changes only the entry of the record's own key. */
  lemma GetKeep(d: Dict<string, SkillRecord>, rec: SkillRecord, k: string)
    ensures Get(Keep(d, rec), k) ==
      if Key(rec) != k then Get(d, k)
      else match Get(d, k)
        case None => Some(rec)
        case Some(kept) => if Conf(rec) > Conf(kept) then Some(rec) else Some(kept)
  {
    GetPut(d, Key(rec), rec, k);
  }

  /** The record `BestIndex` designates, if any. */
  function Designated(skills: seq<SkillRecord>, k: string): Option<SkillRecord> {
    match BestIndex(skills, k)
    case Some(i) => Some(skills[i])
    case None => None
  }

  /** The dictionary built by the loop holds, for each key, the record `BestIndex` designates. */
  lemma {:induction false} BestLookup(skills: seq<SkillRecord>, k: string)
    ensures Get(Best(skills), k) == Designated(skills, k)
    decreases |skills|
  {
    if skills != [] {
      var n := |skills| - 1;
      var init := skills[..n];
      BestLookup(init, k);
      GetKeep(Best(init), skills[n], k);
      assert Best(skills) == Keep(Best(init), skills[n]);
      match BestIndex(init, k)
      case Some(i) =>
        assert init[i] == skills[i];
      case None =>
    }
  }

  function Values(d: Dict<string, SkillRecord>): (r: seq<SkillRecord>)
    ensures |r| == |d| && forall i :: 0 <= i < |d| ==> r[i] == d[i].1
  {
    seq(|d|, i requires 0 <= i < |d| => d[i].1)
  }

  predicate UniqueKeys(s: seq<SkillRecord>) {
    forall i, j :: 0 <= i < j < |s| ==> Key(s[i]) != Key(s[j])
  }

  /** `remove_duplicates`: the kept records, most confident first, ties in dictionary order. */
  function RemoveDuplicates(skills: seq<SkillRecord>): (r: seq<SkillRecord>)
    ensures SortedDesc(r, Conf)
    ensures forall x :: x in r ==> x in skills
  {
    var v := Values(Best(skills));
    var r := SortDesc(v, Conf);
    assert forall x :: x in r ==> x in multiset(v);
    r
  }

  lemma {:induction false} UniqueKeysCount(s: seq<SkillRecord>, x: SkillRecord)
    requires UniqueKeys(s)
    ensures multiset(s)[x] <= 1
  {
    if s != [] {
      assert s == [s[0]] + s[1..];
      UniqueKeysCount(s[1..], x);
      if s[0] == x {
        assert x !in s[1..];
      }
    }
  }

  /** Rearranging records with distinct keys keeps the keys distinct. */
  lemma UniqueKeysPermutation(a: seq<SkillRecord>, b: seq<SkillRecord>)
    requires UniqueKeys(a) && multiset(a) == multiset(b)
    ensures UniqueKeys(b)
  {
    forall i, j | 0 <= i < j < |b| ensures Key(b[i]) != Key(b[j]) {
      if b[i] == b[j] {
        assert b == b[..j] + [b[j]] + b[j + 1..];
        assert b[i] in b[..j];
        assert multiset(b)[b[j]] >= 2;
        UniqueKeysCount(a, b[j]);
      } else {
        assert b[i] in multiset(a) && b[j] in multiset(a);
        var p :| 0 <= p < |a| && a[p] == b[i];
        var q :| 0 <= q < |a| && a[q] == b[j];
        assert p != q;
      }
    }
  }

  /** No two de-duplicated records share a lower-cased name. */
  lemma DedupUnique(skills: seq<SkillRecord>)
    ensures UniqueKeys(RemoveDuplicates(skills))
  {
    var d := Best(skills);
    var v := Values(d);
    assert UniqueKeys(v) by {
      forall i, j | 0 <= i < j < |v| ensures Key(v[i]) != Key(v[j]) {
        assert d[i].0 != d[j].0;
      }
    }
    UniqueKeysPermutation(v, RemoveDuplicates(skills));
  }

  /**
   * Every kept record is the one `BestIndex` designates for its name: at least as confident
   * as every input record with that name, and the earliest among equally confident ones.
   */
  lemma DedupKeepsBest(skills: seq<SkillRecord>, x: SkillRecord)
    requires x in RemoveDuplicates(skills)
    ensures BestIndex(skills, Key(x)).Some? && skills[BestIndex(skills, Key(x)).value] == x
  {
    var d := Best(skills);
    var v := Values(d);
    assert x in multiset(v);
    var i :| 0 <= i < |v| && v[i] == x;
    assert d[i].0 == Key(x);
    BestLookup(skills, Key(x));
  }

  /** A kept record is at least as confident as any input record with the same name. */
  lemma DedupMaximal(skills: seq<SkillRecord>, x: SkillRecord, rec: SkillRecord)
    requires x in RemoveDuplicates(skills) && rec in skills && Key(rec) == Key(x)
    ensures Conf(rec) <= Conf(x)
  {
    DedupKeepsBest(skills, x);
  }

  /** Every lower-cased name of the input survives de-duplication. */
  lemma DedupCoversNames(skills: seq<SkillRecord>, rec: SkillRecord)
    requires rec in skills
    ensures exists x :: x in RemoveDuplicates(skills) && Key(x) == Key(rec)
  {
    var d := Best(skills);
    var v := Values(d);
    BestLookup(skills, Key(rec));
    var i :| 0 <= i < |d| && d[i].0 == Key(rec);
    assert v[i] in multiset(RemoveDuplicates(skills));
  }

  /** Each record under its own key. */
  function Entries(s: seq<SkillRecord>): (r: seq<(string, SkillRecord)>)
    ensures |r| == |s| && forall i :: 0 <= i < |s| ==> r[i] == (Key(s[i]), s[i])
  {
    seq(|s|, i requires 0 <= i < |s| => (Key(s[i]), s[i]))
  }

  /** Entries of a sequence with one more record: the old entries and one more. */
  lemma EntriesSnoc(s: seq<SkillRecord>)
    requires s != []
    ensures Entries(s) == Entries(s[..|s| - 1]) + [(Key(s[|s| - 1]), s[|s| - 1])]
  {
    var n := |s| - 1;
    assert forall i :: 0 <= i < n ==> s[..n][i] == s[i];
  }

  /** A key that no record of `s` has is absent from `Entries(s)`. */
  lemma EntriesMissing(s: seq<SkillRecord>, k: string)
    requires UniqueKeys(s)
    requires forall i :: 0 <= i < |s| ==> Key(s[i]) != k
    ensures DistinctKeys(Entries(s)) && Get(Entries(s), k).None?
  {
    var e := Entries(s);
    assert forall i :: 0 <= i < |e| ==> e[i].0 == Key(s[i]);
  }

  /** Records with distinct names are all stored, in order. */
  lemma {:induction false} BestOfUnique(s: seq<SkillRecord>)
    requires UniqueKeys(s)
    ensures Best(s) == Entries(s)
    decreases |s|
  {
    if s != [] {
      var n := |s| - 1;
      var init := s[..n];
      assert UniqueKeys(init) by {
        assert forall i :: 0 <= i < n ==> init[i] == s[i];
      }
      BestOfUnique(init);
      assert forall i :: 0 <= i < n ==> Key(init[i]) != Key(s[n]) by {
        assert forall i :: 0 <= i < n ==> init[i] == s[i];
      }
      EntriesMissing(init, Key(s[n]));
      assert Best(s) == Entries(init) + [(Key(s[n]), s[n])];
      EntriesSnoc(s);
    }
  }

  /** De-duplicating twice is the same as de-duplicating once. */
  lemma DedupIdempotent(skills: seq<SkillRecord>)
    ensures RemoveDuplicates(RemoveDuplicates(skills)) == RemoveDuplicates(skills)
  {
    var r := RemoveDuplicates(skills);
    DedupUnique(skills);
    BestOfUnique(r);
    assert Values(Best(r)) == r;
    SortDescSorted(r, Conf);
  }

  // ---------------------------------------------------------------------------
  // (name, confidence) pairs
  // ---------------------------------------------------------------------------

  /** `skill.get('skill', 'Unknown')` */
  function TupleName(rec: SkillRecord): string {
    rec.skill.GetOr("Unknown")
  }

  function TupleKey(rec: SkillRecord): string {
    Lower(TupleName(rec))
  }

  /** No earlier record has the same lower-cased name as record `i`. */
  predicate FirstOfKey(skills: seq<SkillRecord>, i: int)
    requires 0 <= i < |skills|
  {
    forall j :: 0 <= j < i ==> TupleKey(skills[j]) != TupleKey(skills[i])
  }

  /** Being a first occurrence only depends on the records up to it. */
  lemma FirstOfKeyPrefix(skills: seq<SkillRecord>, n: nat, i: nat)
    requires i < n <= |skills|
    ensures FirstOfKey(skills[..n], i) <==> FirstOfKey(skills, i)
  {
    assert forall j :: 0 <= j <= i ==> skills[..n][j] == skills[j];
  }

  /** The positions of first occurrences of each lower-cased name, in increasing order. */
  function FirstIndices(skills: seq<SkillRecord>): (ids: seq<nat>)
    ensures forall k :: 0 <= k < |ids| ==> ids[k] < |skills| && FirstOfKey(skills, ids[k])
    ensures forall k, m :: 0 <= k < m < |ids| ==> ids[k] < ids[m]
    ensures forall i :: 0 <= i < |skills| && FirstOfKey(skills, i) ==> i in ids
    decreases |skills|
  {
    if skills == [] then []
    else
      var n := |skills| - 1;
      var ids := FirstIndices(skills[..n]);
      forall i | 0 <= i < n ensures FirstOfKey(skills[..n], i) <==> FirstOfKey(skills, i) {
        FirstOfKeyPrefix(skills, n, i);
      }
      ids + (if FirstOfKey(skills, n) then [n] else [])
  }

  /** `(skill_name, confidence)` */
  function AsTuple(rec: SkillRecord): (string, real) {
    (TupleName(rec), Conf(rec))
  }

  /**
   * The pairs of the first occurrences, in input order: no two pairs share a lower-cased name,
   * and every lower-cased name of the input has its pair.
   */
  function FirstOccurrences(skills: seq<SkillRecord>): (r: seq<(string, real)>)
    ensures |r| == |FirstIndices(skills)|
    ensures forall k :: 0 <= k < |r| ==> r[k] == AsTuple(skills[FirstIndices(skills)[k]])
    ensures DistinctNames(r)
    ensures forall i :: 0 <= i < |skills| ==> HasName(r, TupleKey(skills[i]))
  {
    PairsAtFirstIndices(skills);
    PairsAt(skills, FirstIndices(skills))
  }

  /** The pairs of the records at positions `ids`. */
  function PairsAt(skills: seq<SkillRecord>, ids: seq<nat>): seq<(string, real)>
    requires forall k :: 0 <= k < |ids| ==> ids[k] < |skills|
  {
    seq(|ids|, k requires 0 <= k < |ids| => AsTuple(skills[ids[k]]))
  }

  /** The first-occurrence pairs have distinct names and cover every name of the input. */
  lemma PairsAtFirstIndices(skills: seq<SkillRecord>)
    ensures var r := PairsAt(skills, FirstIndices(skills));
      && DistinctNames(r)
      && forall i :: 0 <= i < |skills| ==> HasName(r, TupleKey(skills[i]))
  {
    var ids := FirstIndices(skills);
    var r := PairsAt(skills, ids);
    assert forall k :: 0 <= k < |r| ==> Lower(r[k].0) == TupleKey(skills[ids[k]]);
    FirstIndicesUnique(skills);
    forall i | 0 <= i < |skills| ensures HasName(r, TupleKey(skills[i])) {
      var k := FirstIndicesCover(skills, i);
      assert Lower(r[k].0) == TupleKey(skills[i]);
    }
  }

  /** No two pairs share a lower-cased name. */
  predicate DistinctNames(pairs: seq<(string, real)>) {
    forall k, m :: 0 <= k < m < |pairs| ==> Lower(pairs[k].0) != Lower(pairs[m].0)
  }

  /** Some pair has the lower-cased name `key`. */
  predicate HasName(pairs: seq<(string, real)>, key: string) {
    exists k :: 0 <= k < |pairs| && Lower(pairs[k].0) == key
  }

  /** One more record adds its pair exactly when it is the first with its name. */
  lemma FirstOccurrencesSnoc(skills: seq<SkillRecord>)
    requires skills != []
    ensures var n := |skills| - 1;
      FirstOccurrences(skills) ==
        FirstOccurrences(skills[..n]) + (if FirstOfKey(skills, n) then [AsTuple(skills[n])] else [])
  {
    var n := |skills| - 1;
    var ids := FirstIndices(skills[..n]);
    assert FirstIndices(skills) == ids + (if FirstOfKey(skills, n) then [n] else []);
    PairsAtSnoc(skills, ids, FirstOfKey(skills, n));
  }

  /** Extending the positions by the last record appends its pair; positions before it read the same in the prefix. */
  lemma PairsAtSnoc(skills: seq<SkillRecord>, ids: seq<nat>, first: bool)
    requires skills != []
    requires forall k :: 0 <= k < |ids| ==> ids[k] < |skills| - 1
    ensures var n := |skills| - 1;
      PairsAt(skills, ids + (if first then [n] else [])) ==
        PairsAt(skills[..n], ids) + (if first then [AsTuple(skills[n])] else [])
  {
    var n := |skills| - 1;
    assert forall k :: 0 <= k < |ids| ==> skills[..n][ids[k]] == skills[ids[k]];
  }

  /** The lower-cased names of the first `i` records. */
  function Seen(skills: seq<SkillRecord>, i: nat): set<string>
    requires i <= |skills|
  {
    set j | 0 <= j < i :: TupleKey(skills[j])
  }

  lemma SeenGrows(skills: seq<SkillRecord>, i: nat)
    requires i < |skills|
    ensures Seen(skills, i + 1) == Seen(skills, i) + {TupleKey(skills[i])}
  {
  }

  /** The name of record `i` was seen before exactly when it is not the first with that name. */
  lemma SeenBefore(skills: seq<SkillRecord>, i: nat)
    requires i < |skills|
    ensures TupleKey(skills[i]) in Seen(skills, i) <==> !FirstOfKey(skills[..i + 1], i)
  {
    FirstOfKeyPrefix(skills, i + 1, i);
    if TupleKey(skills[i]) in Seen(skills, i) {
      var j :| 0 <= j < i && TupleKey(skills[j]) == TupleKey(skills[i]);
    }
  }

  /** One pass of the loop: the record's pair is added exactly when its name is new. */
  lemma TuplesStep(skills: seq<SkillRecord>, i: nat)
    requires i < |skills|
    ensures FirstOccurrences(skills[..i + 1]) ==
      FirstOccurrences(skills[..i]) + (if TupleKey(skills[i]) in Seen(skills, i) then [] else [AsTuple(skills[i])])
    ensures Seen(skills, i + 1) == Seen(skills, i) + {TupleKey(skills[i])}
  {
    var prefix := skills[..i + 1];
    assert prefix[..i] == skills[..i];
    assert prefix[i] == skills[i];
    FirstOccurrencesSnoc(prefix);
    SeenBefore(skills, i);
    SeenGrows(skills, i);
  }

  /** `get_skills_as_tuples`: skip any record whose lower-cased name was already seen. */
  method SkillsAsTuples(skills: seq<SkillRecord>) returns (r: seq<(string, real)>)
    ensures r == FirstOccurrences(skills)
  {
    r := [];
    var seen: set<string> := {};
    for i := 0 to |skills|
      invariant seen == Seen(skills, i)
      invariant r == FirstOccurrences(skills[..i])
    {
      var name := TupleName(skills[i]);
      TuplesStep(skills, i);
      if Lower(name) !in seen {
        seen := seen + {Lower(name)};
        r := r + [(name, Conf(skills[i]))];
      }
    }
    assert skills[..|skills|] == skills;
  }

  /** The first occurrences have distinct lower-cased names. */
  lemma FirstIndicesUnique(skills: seq<SkillRecord>)
    ensures var ids := FirstIndices(skills);
      forall k, m :: 0 <= k < m < |ids| ==> TupleKey(skills[ids[k]]) != TupleKey(skills[ids[m]])
  {
    var ids := FirstIndices(skills);
    forall k, m | 0 <= k < m < |ids| ensures TupleKey(skills[ids[k]]) != TupleKey(skills[ids[m]]) {
      assert FirstOfKey(skills, ids[m]);
    }
  }

  /** The first record with the lower-cased name of record `i`. */
  lemma {:induction false} FirstWithKey(skills: seq<SkillRecord>, i: nat) returns (f: nat)
    requires i < |skills|
    ensures f <= i && FirstOfKey(skills, f) && TupleKey(skills[f]) == TupleKey(skills[i])
    decreases i
  {
    if FirstOfKey(skills, i) {
      f := i;
    } else {
      var j :| 0 <= j < i && TupleKey(skills[j]) == TupleKey(skills[i]);
      f := FirstWithKey(skills, j);
    }
  }

  /** Every lower-cased name of the input is the name of some first occurrence. */
  lemma FirstIndicesCover(skills: seq<SkillRecord>, i: nat) returns (k: nat)
    requires i < |skills|
    ensures k < |FirstIndices(skills)| && TupleKey(skills[FirstIndices(skills)[k]]) == TupleKey(skills[i])
  {
    var f := FirstWithKey(skills, i);
    var ids := FirstIndices(skills);
    k :| 0 <= k < |ids| && ids[k] == f;
  }

  // ---------------------------------------------------------------------------
  // Text report
  // ---------------------------------------------------------------------------

  const NoSkills := "No skills detected."

  /** `f"{x:.1f}"`: the exact value rounded to one decimal, ties to even; a negative value keeps its sign. */
  function Fixed1(x: real): string {
    var t := RoundHalfEven(x * 10.0);
    var m: nat := if t < 0 then -t else t;
    (if x < 0.0 then "-" else "") + NatString(m / 10) + "." + [DigitChar(m % 10)]
  }

  /** Reading back the rendering of a non-negative value gives it to within 0.05. */
  lemma Fixed1Value(x: real)
    requires x >= 0.0
    ensures var s := Fixed1(x);
      && |s| >= 3 && s[|s| - 2] == '.' && IsDigit(s[|s| - 1])
      && (forall i :: 0 <= i < |s| - 2 ==> IsDigit(s[i]))
      && x - 0.05 <= (DecimalValue(s[..|s| - 2]) * 10 + DigitValue(s[|s| - 1])) as real / 10.0 <= x + 0.05
  {
    var t := RoundHalfEven(x * 10.0);
    var m: nat := t;
    var q := NatString(m / 10);
    var s := Fixed1(x);
    assert s == q + "." + [DigitChar(m % 10)];
    assert s[..|s| - 2] == q;
    NatStringValue(m / 10);
    assert DecimalValue(q) * 10 + DigitValue(s[|s| - 1]) == m;
  }

  /** One report line, with the domain in parentheses when asked for. */
  function Line(rec: SkillRecord, includeDomain: bool): string {
    TupleName(rec)
    + (if includeDomain then " (" + rec.domain.GetOr("Unknown") + ")" else "")
    + " | Confidence: " + Fixed1(Conf(rec))
  }

  /**
   * The report lines are exactly the pairs `get_skills_as_tuples` returns, in the same order,
   * each rendered as "name | Confidence: c"; asking for domains only inserts " (domain)" after
   * the name.
   */
  function ReportLines(skills: seq<SkillRecord>, includeDomain: bool): (r: seq<string>)
    ensures |r| == |FirstOccurrences(skills)|
    ensures forall k :: 0 <= k < |r| ==>
      var t := FirstOccurrences(skills)[k];
      r[k] == t.0 + (if includeDomain then " (" + skills[FirstIndices(skills)[k]].domain.GetOr("Unknown") + ")" else "")
        + " | Confidence: " + Fixed1(t.1)
  {
    var ids := FirstIndices(skills);
    seq(|ids|, k requires 0 <= k < |ids| => Line(skills[ids[k]], includeDomain))
  }

  /** `format_output(skills, include_domain)` without `as_tuples`. */
  function FormatOutput(skills: seq<SkillRecord>, includeDomain: bool): (r: string)
    ensures skills == [] ==> r == NoSkills
    ensures skills != [] ==> |ReportLines(skills, includeDomain)| >= 1
  {
    if skills == [] then NoSkills
    else
      assert FirstOfKey(skills, 0);
      Join(ReportLines(skills, includeDomain), "\n")
  }

  // ---------------------------------------------------------------------------
  // Text extraction and the two entry points
  // ---------------------------------------------------------------------------

  newtype byte = x: int | 0 <= x < 256

  /** The decoders: PDF and DOCX text extraction (empty on failure) and strict UTF-8 decoding. */
  datatype Decoders = Decoders(pdf: seq<byte> -> string, docx: seq<byte> -> string, utf8: seq<byte> -> Option<string>)

  datatype FileKind = Pdf | Docx | PlainText

  /** `file_type.lower()` compared with "pdf", then "docx"; anything else is plain text. */
  function KindOf(fileType: string): (r: FileKind)
    ensures r == Pdf <==> Lower(fileType) == "pdf"
    ensures r == Docx <==> Lower(fileType) == "docx"
  {
    if Lower(fileType) == "pdf" then Pdf else if Lower(fileType) == "docx" then Docx else PlainText
  }

  /** `extract_text_from_file`: undecodable plain text becomes "". */
  function ExtractText(bytes: seq<byte>, fileType: string, dec: Decoders): (r: string)
    ensures KindOf(fileType) == PlainText && dec.utf8(bytes).None? ==> r == ""
    ensures KindOf(fileType) == PlainText && dec.utf8(bytes).Some? ==> r == dec.utf8(bytes).value
  {
    match KindOf(fileType)
    case Pdf => dec.pdf(bytes)
    case Docx => dec.docx(bytes)
    case PlainText => dec.utf8(bytes).GetOr("")
  }

  /** The file type is matched without regard to case. */
  lemma ExtractTextIgnoresCase(bytes: seq<byte>, fileType: string, dec: Decoders)
    ensures ExtractText(bytes, Lower(fileType), dec) == ExtractText(bytes, fileType, dec)
  {
    LowerIdempotent(fileType);
  }

  /**
   * `analyze_resume`: no text gives no skills (and no model call); otherwise the model's
   * records de-duplicated. `model` stands for `extract_skills_with_llm`.
   */
  function AnalyzeResume(bytes: seq<byte>, fileType: string, dec: Decoders, model: string -> seq<SkillRecord>)
    : (r: seq<SkillRecord>)
    ensures ExtractText(bytes, fileType, dec) == "" ==> r == []
    ensures UniqueKeys(r) && SortedDesc(r, Conf)
  {
    var text := ExtractText(bytes, fileType, dec);
    if text == "" then []
    else
      DedupUnique(model(text));
      RemoveDuplicates(model(text))
  }

  /**
   * `analyze_resume_file` of the second extractor: no text gives `[]` without consulting the
   * model; otherwise the first-occurrence pairs of the de-duplicated records. `model` stands
   * for the model call followed by JSON parsing.
   */
  function AnalyzeResumeFile(bytes: seq<byte>, fileType: string, dec: Decoders, model: string -> seq<SkillRecord>)
    : (r: seq<(string, real)>)
    ensures ExtractText(bytes, fileType, dec) == "" ==> r == []
    ensures DistinctNames(r)
  {
    var text := ExtractText(bytes, fileType, dec);
    if text == "" then []
    else
      var skills := RemoveDuplicates(model(text));
      FirstOccurrences(skills)
  }
}
