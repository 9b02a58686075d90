/**
 * The job-title classifier without an embedding model: keyword extraction from titles,
 * the lower-cased title index, per-cluster frequency totals and profiles, exact-match
 * classification with the fallback to the first cluster, and the mapping from cluster id
 * to domain and from domain to a skill-graph file.
 *
 * The clusters are taken as already parsed (cluster id to its list of job titles with
 * their frequencies, in the order the cluster text lists them).
 */
module JobDomain {
  import opened Wrappers
  import opened Text
  import opened Numeric
  import opened PyDict
  import opened StableSort

  datatype Job = Job(title: string, frequency: nat)

  /** Parsed clusters by cluster id, in the order the cluster text lists them. */
  type Clusters = Dict<string, seq<Job>>

  // ---------------------------------------------------------------------------
  // Keyword extraction
  // ---------------------------------------------------------------------------

  /** The stopwords dropped from titles (the source lists "not" twice; a set keeps it once). */
  function Stopwords(): set<string> { {
    "the", "and", "for", "with", "not", "this", "that", "are", "from", "was",
    "were", "have", "has", "had", "been", "will", "shall", "may", "can", "could",
    "would", "should", "must", "ought", "also", "then", "than", "when", "where",
    "why", "how", "all", "any", "both", "each", "few", "more", "most", "some",
    "such", "nor", "only", "own", "same", "too", "very", "just", "even",
    "but", "again", "further", "however", "hence", "still", "yet", "here", "there"
  }
  }

  predicate IsStopword(w: string) {
    w in Stopwords()
  }

  /**
   * The regular-expression class `\w`: ASCII letters, digits and the underscore; every
   * non-ASCII character is counted as a word character.
   */
  predicate IsWordChar(c: char) {
    'a' <= c <= 'z' || 'A' <= c <= 'Z' || '0' <= c <= '9' || c == '_' || c as int >= 128
  }

  /** A character that can survive keyword extraction. */
  predicate IsKeywordChar(c: char) {
    IsWordChar(c) && !IsUpper(c)
  }

  /** A word made only of characters that can survive keyword extraction. */
  predicate KeywordChars(w: string) {
    forall i :: 0 <= i < |w| ==> IsKeywordChar(w[i])
  }

  /** A text made only of whitespace and characters that can survive keyword extraction. */
  predicate SpacedKeywordChars(s: string) {
    forall i :: 0 <= i < |s| ==> IsSpace(s[i]) || IsKeywordChar(s[i])
  }

  /** What keyword extraction can produce: long enough, not a stopword, lower-case word characters. */
  predicate IsKeyword(w: string) {
    |w| > 2 && !IsStopword(w) && KeywordChars(w)
  }

  /** Every character that is neither a word character nor whitespace becomes a space. */
  function Blank(s: string): (r: string)
    ensures |r| == |s|
    ensures forall i :: 0 <= i < |s| ==> r[i] == if IsWordChar(s[i]) || IsSpace(s[i]) then s[i] else ' '
  {
    if s == [] then [] else [if IsWordChar(s[0]) || IsSpace(s[0]) then s[0] else ' '] + Blank(s[1..])
  }

  /** The tokens longer than two characters that are not stopwords, in order. */
  function KeepKeywords(ws: seq<string>): (r: seq<string>)
    ensures forall k :: 0 <= k < |r| ==> r[k] in ws && |r[k]| > 2 && !IsStopword(r[k])
  {
    if ws == [] then []
    else (if |ws[0]| > 2 && !IsStopword(ws[0]) then [ws[0]] else []) + KeepKeywords(ws[1..])
  }

  /** A suffix of a text of spaces and keyword characters is one too. */
  lemma SuffixSpaced(s: string, k: nat)
    requires SpacedKeywordChars(s) && k <= |s|
    ensures SpacedKeywordChars(s[k..])
  {
    forall i | 0 <= i < |s| - k ensures IsSpace(s[k..][i]) || IsKeywordChar(s[k..][i]) {
      assert s[k..][i] == s[k + i];
    }
  }

  /** The leading word of such a text is made of keyword characters. */
  lemma WordKeywordChars(t: string)
    requires SpacedKeywordChars(t)
    ensures KeywordChars(Word(t))
  {
    var w := Word(t);
    forall i | 0 <= i < |w| ensures IsKeywordChar(w[i]) {
      assert w[i] == t[i];
    }
  }

  /** The first token of such a text, and what follows it, keep to keyword characters. */
  lemma TokenHead(s: string)
    requires SpacedKeywordChars(s) && TrimStart(s) != []
    ensures KeywordChars(Word(TrimStart(s)))
    ensures SpacedKeywordChars(TrimStart(s)[|Word(TrimStart(s))|..])
  {
    var t := TrimStart(s);
    SuffixSpaced(s, |s| - |t|);
    WordKeywordChars(t);
    SuffixSpaced(t, |Word(t)|);
  }

  /** Every token of a text made of spaces and keyword characters is made of keyword characters. */
  lemma {:induction false} TokenChars(s: string)
    requires SpacedKeywordChars(s)
    ensures forall k :: 0 <= k < |SplitWhitespace(s)| ==> KeywordChars(SplitWhitespace(s)[k])
    decreases |s|
  {
    var t := TrimStart(s);
    if t != [] {
      var w := Word(t);
      var rest := t[|w|..];
      TokenHead(s);
      TokenChars(rest);
      var r := SplitWhitespace(s);
      assert r == [w] + SplitWhitespace(rest);
      forall k | 0 <= k < |r| ensures KeywordChars(r[k]) {
        if k > 0 {
          assert r[k] == SplitWhitespace(rest)[k - 1];
        }
      }
    }
  }

  /** `_extract_keywords`: lower-case, punctuation to spaces, split, drop short words and stopwords. */
  function Keywords(text: string): (r: seq<string>)
    ensures forall k :: 0 <= k < |r| ==> IsKeyword(r[k])
  {
    var s := Blank(Lower(text));
    TokenChars(s);
    KeepKeywords(SplitWhitespace(s))
  }

  /** The leading word of a word followed by whitespace or nothing is that word. */
  lemma {:induction false} WordOf(w: string, rest: string)
    requires IsWord(w)
    requires rest == [] || IsSpace(rest[0])
    ensures Word(w + rest) == w
    decreases |w|
  {
    if |w| == 1 {
      assert (w + rest)[1..] == rest;
    } else {
      WordOf(w[1..], rest);
      assert (w + rest)[1..] == w[1..] + rest;
    }
  }

  /** A word followed by whitespace or nothing splits off as the first token. */
  lemma SplitLead(w: string, rest: string)
    requires IsWord(w)
    requires rest == [] || IsSpace(rest[0])
    ensures SplitWhitespace(w + rest) == [w] + SplitWhitespace(rest)
  {
    WordOf(w, rest);
    var s := w + rest;
    assert TrimStart(s) == s;
    assert s[|w|..] == rest;
  }

  lemma SpaceSplit(rest: string)
    ensures SplitWhitespace(" " + rest) == SplitWhitespace(rest)
  {
    assert (" " + rest)[1..] == rest;
  }

  lemma SplitJoinOne(w: string)
    requires IsWord(w)
    ensures SplitWhitespace(Join([w], " ")) == [w]
  {
    SplitLead(w, []);
    assert w + [] == w;
  }

  lemma SplitJoinStep(ws: seq<string>)
    requires |ws| > 1 && IsWord(ws[0])
    requires SplitWhitespace(Join(ws[1..], " ")) == ws[1..]
    ensures SplitWhitespace(Join(ws, " ")) == ws
  {
    var j := Join(ws[1..], " ");
    var rest := " " + j;
    assert rest[0] == ' ';
    assert Join(ws, " ") == ws[0] + rest by {
      assert Join(ws, " ") == ws[0] + " " + j;
    }
    SplitLead(ws[0], rest);
    SpaceSplit(j);
    assert SplitWhitespace(ws[0] + rest) == [ws[0]] + ws[1..];
    assert ws == [ws[0]] + ws[1..];
  }

  /** Splitting words joined by single spaces gives back the words. */
  lemma {:induction false} SplitJoinWords(ws: seq<string>)
    requires forall k :: 0 <= k < |ws| ==> IsWord(ws[k])
    ensures SplitWhitespace(Join(ws, " ")) == ws
  {
    if |ws| == 0 {
      assert SplitWhitespace([]) == [];
    } else if |ws| == 1 {
      SplitJoinOne(ws[0]);
      assert ws == [ws[0]];
    } else {
      SplitJoinWords(ws[1..]);
      SplitJoinStep(ws);
    }
  }

  /** Keywords joined by spaces consist of spaces and keyword characters. */
  lemma {:induction false} JoinChars(ws: seq<string>)
    requires forall k :: 0 <= k < |ws| ==> KeywordChars(ws[k])
    ensures SpacedKeywordChars(Join(ws, " "))
  {
    if |ws| == 1 {
      assert KeywordChars(ws[0]);
    } else if |ws| > 1 {
      JoinChars(ws[1..]);
      var rest := Join(ws[1..], " ");
      var s := Join(ws, " ");
      assert s == ws[0] + " " + rest;
      assert KeywordChars(ws[0]);
      forall i | 0 <= i < |s| ensures IsSpace(s[i]) || IsKeywordChar(s[i]) {
        if i < |ws[0]| {
          assert s[i] == ws[0][i];
        } else if i > |ws[0]| {
          assert s[i] == rest[i - |ws[0]| - 1];
        }
      }
    }
  }

  /** Lower-casing and blanking leave a text of spaces and keyword characters alone. */
  lemma NormalFixed(s: string)
    requires SpacedKeywordChars(s)
    ensures Blank(Lower(s)) == s
  {
    assert Lower(s) == s;
  }

  /** Keywords survive their own filter. */
  lemma {:induction false} KeepAllKeywords(ws: seq<string>)
    requires forall k :: 0 <= k < |ws| ==> IsKeyword(ws[k])
    ensures KeepKeywords(ws) == ws
  {
    if ws != [] {
      KeepAllKeywords(ws[1..]);
    }
  }

  lemma KeywordsAreWords(ws: seq<string>)
    requires forall k :: 0 <= k < |ws| ==> IsKeyword(ws[k])
    ensures forall k :: 0 <= k < |ws| ==> IsWord(ws[k])
  {
    forall k | 0 <= k < |ws| ensures IsWord(ws[k]) {
      assert KeywordChars(ws[k]);
    }
  }

  /**
   * Round trip: keywords joined by spaces extract to themselves; in particular extraction
   * is idempotent.
   */
  lemma KeywordsRoundTrip(ws: seq<string>)
    requires forall k :: 0 <= k < |ws| ==> IsKeyword(ws[k])
    ensures Keywords(Join(ws, " ")) == ws
  {
    var s := Join(ws, " ");
    JoinChars(ws);
    NormalFixed(s);
    KeywordsAreWords(ws);
    SplitJoinWords(ws);
    KeepAllKeywords(ws);
  }

  lemma KeywordsIdempotent(text: string)
    ensures Keywords(Join(Keywords(text), " ")) == Keywords(text)
  {
    KeywordsRoundTrip(Keywords(text));
  }

  /** Extraction ignores letter case. */
  lemma KeywordsIgnoreCase(text: string)
    ensures Keywords(Lower(text)) == Keywords(text)
  {
    LowerIdempotent(text);
  }

  // ---------------------------------------------------------------------------
  // Title index and cluster totals
  // ---------------------------------------------------------------------------

  datatype IndexEntry = IndexEntry(clusterId: string, frequency: nat)

  type TitleIndex = Dict<string, IndexEntry>

  /** One cluster's jobs written into the index in order, each under its lower-cased title. */
  function IndexJobs(d: TitleIndex, id: string, jobs: seq<Job>): TitleIndex
    decreases |jobs|
  {
    if jobs == [] then d
    else
      var last := jobs[|jobs| - 1];
      Put(IndexJobs(d, id, jobs[..|jobs| - 1]), Lower(last.title), IndexEntry(id, last.frequency))
  }

  /** The title index over clusters `cs`, clusters in order. */
  function IndexClusters(cs: seq<(string, seq<Job>)>): TitleIndex
    decreases |cs|
  {
    if cs == [] then []
    else IndexJobs(IndexClusters(cs[..|cs| - 1]), cs[|cs| - 1].0, cs[|cs| - 1].1)
  }

  /** Job `j` of cluster `c` has lower-cased title `key`. */
  predicate Titled(cs: seq<(string, seq<Job>)>, c: int, j: int, key: string) {
    0 <= c < |cs| && 0 <= j < |cs[c].1| && Lower(cs[c].1[j].title) == key
  }

  /** The last job of `jobs` whose lower-cased title is `key`. */
  function LastJob(jobs: seq<Job>, key: string): (r: Option<nat>)
    ensures r.Some? ==> r.value < |jobs| && Lower(jobs[r.value].title) == key
    ensures r.Some? ==> forall j :: r.value < j < |jobs| ==> Lower(jobs[j].title) != key
    ensures r.None? ==> forall j :: 0 <= j < |jobs| ==> Lower(jobs[j].title) != key
    decreases |jobs|
  {
    if jobs == [] then None
    else if Lower(jobs[|jobs| - 1].title) == key then Some(|jobs| - 1)
    else
      var r := LastJob(jobs[..|jobs| - 1], key);
      assert forall j :: 0 <= j < |jobs| - 1 ==> jobs[..|jobs| - 1][j] == jobs[j];
      r
  }

  /** The last (cluster, job) position, in iteration order, whose lower-cased title is `key`. */
  function LastMatch(cs: seq<(string, seq<Job>)>, key: string): (r: Option<(nat, nat)>)
    ensures r.Some? ==> Titled(cs, r.value.0, r.value.1, key)
    ensures r.Some? ==> forall j :: r.value.1 < j ==> !Titled(cs, r.value.0, j, key)
    ensures r.Some? ==> forall c, j :: r.value.0 < c ==> !Titled(cs, c, j, key)
    ensures r.None? ==> forall c, j :: !Titled(cs, c, j, key)
    decreases |cs|
  {
    if cs == [] then None
    else
      var n := |cs| - 1;
      match LastJob(cs[n].1, key)
      case Some(j) => Some((n, j))
      case None =>
        var r := LastMatch(cs[..n], key);
        assert forall c, j :: c < n ==> (Titled(cs[..n], c, j, key) <==> Titled(cs, c, j, key));
        r
  }

  /** Writing one cluster's jobs leaves the last of them with the key, or the earlier entry. */
  lemma {:induction false} IndexJobsLookup(d: TitleIndex, id: string, jobs: seq<Job>, key: string)
    ensures Get(IndexJobs(d, id, jobs), key) ==
      match LastJob(jobs, key)
      case Some(j) => Some(IndexEntry(id, jobs[j].frequency))
      case None => Get(d, key)
    decreases |jobs|
  {
    if jobs != [] {
      var last := jobs[|jobs| - 1];
      var prefix := jobs[..|jobs| - 1];
      GetPut(IndexJobs(d, id, prefix), Lower(last.title), IndexEntry(id, last.frequency), key);
      if Lower(last.title) != key {
        IndexJobsLookup(d, id, prefix, key);
        match LastJob(prefix, key)
        case Some(j) => assert prefix[j] == jobs[j];
        case None =>
      }
    }
  }

  /**
   * The index entry of a lower-cased title is that of the LAST job carrying it: a later
   * duplicate, in the same or a later cluster, overwrites an earlier one.
   */
  lemma {:induction false} TitleIndexLastWins(cs: seq<(string, seq<Job>)>, key: string)
    ensures Get(IndexClusters(cs), key) ==
      match LastMatch(cs, key)
      case Some(p) => Some(IndexEntry(cs[p.0].0, cs[p.0].1[p.1].frequency))
      case None => None
    decreases |cs|
  {
    if cs != [] {
      var n := |cs| - 1;
      IndexJobsLookup(IndexClusters(cs[..n]), cs[n].0, cs[n].1, key);
      if LastJob(cs[n].1, key).None? {
        TitleIndexLastWins(cs[..n], key);
        match LastMatch(cs[..n], key)
        case Some(p) => assert cs[..n][p.0] == cs[p.0];
        case None =>
      }
    }
  }

  /** `sum(job["frequency"] for job in jobs)` */
  function JobCount(jobs: seq<Job>): nat {
    if jobs == [] then 0 else jobs[0].frequency + JobCount(jobs[1..])
  }

  lemma {:induction false} JobCountAppend(a: seq<Job>, b: seq<Job>)
    ensures JobCount(a + b) == JobCount(a) + JobCount(b)
  {
    if a == [] {
      assert a + b == b;
    } else {
      JobCountAppend(a[1..], b);
      assert (a + b)[1..] == a[1..] + b;
    }
  }

  /** Removing the element at `p` removes one copy of it from the multiset. */
  lemma RemoveAt<T>(b: seq<T>, p: nat)
    requires p < |b|
    ensures multiset(b[..p] + b[p + 1..]) == multiset(b) - multiset{b[p]}
  {
    assert b == b[..p] + [b[p]] + b[p + 1..];
  }

  lemma RemoveFirst<T>(a: seq<T>)
    requires a != []
    ensures multiset(a[1..]) == multiset(a) - multiset{a[0]}
  {
    assert a == [a[0]] + a[1..];
  }

  /** The total is the removed job's frequency plus the total of the rest. */
  lemma JobCountRemove(b: seq<Job>, p: nat)
    requires p < |b|
    ensures JobCount(b) == b[p].frequency + JobCount(b[..p] + b[p + 1..])
  {
    var left, right := b[..p], b[p + 1..];
    assert b == left + ([b[p]] + right);
    JobCountAppend(left, [b[p]] + right);
    JobCountAppend(left, right);
    assert ([b[p]] + right)[1..] == right;
  }

  /** A position of a member of a sequence. */
  lemma {:induction false} FindIndex<T>(b: seq<T>, x: T) returns (p: nat)
    requires x in b
    ensures p < |b| && b[p] == x
  {
    if b[0] == x {
      p := 0;
    } else {
      assert b == [b[0]] + b[1..];
      var q := FindIndex(b[1..], x);
      p := q + 1;
    }
  }

  /** A position in `b` holding `a`'s first element, such that the rests are rearrangements. */
  lemma PickMatch<T>(a: seq<T>, b: seq<T>) returns (p: nat)
    requires a != [] && multiset(a) == multiset(b)
    ensures p < |b| && b[p] == a[0]
    ensures multiset(a[1..]) == multiset(b[..p] + b[p + 1..])
  {
    assert a[0] in multiset(b) by {
      assert a[0] in a;
    }
    p := FindIndex(b, a[0]);
    RemoveFirst(a);
    RemoveAt(b, p);
    calc {
      multiset(a[1..]);
      multiset(a) - multiset{a[0]};
      multiset(b) - multiset{b[p]};
      multiset(b[..p] + b[p + 1..]);
    }
  }

  /** The frequency total does not depend on the order of the jobs. */
  lemma {:induction false} JobCountPermutation(a: seq<Job>, b: seq<Job>)
    requires multiset(a) == multiset(b)
    ensures JobCount(a) == JobCount(b)
    decreases |a|
  {
    if a == [] {
      assert |b| == |multiset(b)| == 0;
    } else {
      var p := PickMatch(a, b);
      JobCountPermutation(a[1..], b[..p] + b[p + 1..]);
      JobCountRemove(b, p);
    }
  }

  /** Each job's frequency is part of its cluster's total. */
  lemma {:induction false} JobCountBound(jobs: seq<Job>, j: nat)
    requires j < |jobs|
    ensures jobs[j].frequency <= JobCount(jobs)
  {
    if j > 0 {
      JobCountBound(jobs[1..], j - 1);
    }
  }

  /** `cluster_totals`: each cluster id with the sum of its jobs' frequencies. */
  function Totals(cs: Clusters): (r: Dict<string, nat>)
    ensures forall id :: Get(r, id).Some? <==> Get(cs, id).Some?
    ensures forall i :: 0 <= i < |cs| ==> Get(r, cs[i].0) == Some(JobCount(cs[i].1))
  {
    var r := seq(|cs|, i requires 0 <= i < |cs| => (cs[i].0, JobCount(cs[i].1)));
    assert forall i :: 0 <= i < |r| ==> r[i].0 == cs[i].0;
    r
  }

  // ---------------------------------------------------------------------------
  // Cluster profiles
  // ---------------------------------------------------------------------------

  predicate NoDup<T(==)>(s: seq<T>) {
    forall i, j :: 0 <= i < j < |s| ==> s[i] != s[j]
  }

  /** How often `w` occurs in `ws`. */
  function Count(ws: seq<string>, w: string): (r: nat)
    ensures r > 0 <==> w in ws
  {
    if ws == [] then 0 else (if ws[0] == w then 1 else 0) + Count(ws[1..], w)
  }

  /** The distinct words of `ws` in order of first occurrence: the keys of `Counter(ws)`. */
  function Distinct(ws: seq<string>): (r: seq<string>)
    ensures NoDup(r)
    ensures forall w :: w in r <==> w in ws
    decreases |ws|
  {
    if ws == [] then []
    else
      var d := Distinct(ws[..|ws| - 1]);
      assert forall w :: w in ws <==> w in ws[..|ws| - 1] || w == ws[|ws| - 1];
      if ws[|ws| - 1] in d then d else d + [ws[|ws| - 1]]
  }

  lemma {:induction false} NoDupCount<T>(s: seq<T>, x: T)
    requires NoDup(s)
    ensures multiset(s)[x] <= 1
  {
    if s != [] {
      assert s == [s[0]] + s[1..];
      NoDupCount(s[1..], x);
      if s[0] == x {
        assert x !in s[1..];
      }
    }
  }

  /** A rearrangement of a sequence without duplicates has none either. */
  lemma NoDupPermutation<T>(a: seq<T>, b: seq<T>)
    requires NoDup(a) && multiset(a) == multiset(b)
    ensures NoDup(b)
  {
    forall i, j | 0 <= i < j < |b| ensures b[i] != b[j] {
      if b[i] == b[j] {
        assert b == b[..j] + [b[j]] + b[j + 1..];
        assert b[i] in b[..j];
        assert multiset(b)[b[j]] >= 2;
        NoDupCount(a, b[j]);
      }
    }
  }

  /** Each distinct word of `ws` paired with its count: the items of `Counter(ws)`. */
  function Counted(ws: seq<string>): (r: seq<(string, nat)>)
    ensures NoDup(r)
    ensures forall p :: p in r ==> p.0 in ws && p.1 == Count(ws, p.0)
    ensures forall w :: w in ws ==> (w, Count(ws, w)) in r
  {
    var d := Distinct(ws);
    var r := seq(|d|, i requires 0 <= i < |d| => (d[i], Count(ws, d[i])));
    assert forall i :: 0 <= i < |d| ==> r[i].0 == d[i];
    forall w | w in ws ensures (w, Count(ws, w)) in r {
      var i :| 0 <= i < |d| && d[i] == w;
      assert r[i] == (w, Count(ws, w));
    }
    r
  }

  function Tally(p: (string, nat)): real { p.1 as real }

  function Words(ps: seq<(string, nat)>): (r: seq<string>)
    ensures |r| == |ps| && forall k :: 0 <= k < |ps| ==> r[k] == ps[k].0
  {
    seq(|ps|, k requires 0 <= k < |ps| => ps[k].0)
  }

  /** The counter items sorted by count: still one entry per distinct word, with its count. */
  lemma SortedCounted(ws: seq<string>, c: seq<(string, nat)>, s: seq<(string, nat)>)
    requires c == Counted(ws) && multiset(s) == multiset(c)
    ensures NoDup(s)
    ensures forall k :: 0 <= k < |s| ==> s[k].0 in ws && s[k].1 == Count(ws, s[k].0)
    ensures forall w :: w in ws ==> (w, Count(ws, w)) in s
  {
    NoDupPermutation(c, s);
    forall k | 0 <= k < |s| ensures s[k].0 in ws && s[k].1 == Count(ws, s[k].0) {
      assert s[k] in multiset(c);
    }
    forall w | w in ws ensures (w, Count(ws, w)) in s {
      assert (w, Count(ws, w)) in multiset(c);
    }
  }

  /**
   * `[w for w, _ in Counter(ws).most_common(10)]`: the ten most frequent words, most frequent
   * first, equal counts in order of first occurrence.
   */
  function TopKeywords(ws: seq<string>): (r: seq<string>)
    ensures |r| <= 10 && NoDup(r)
    ensures forall k :: 0 <= k < |r| ==> r[k] in ws
    ensures forall i, j :: 0 <= i < j < |r| ==> Count(ws, r[i]) >= Count(ws, r[j])
    ensures forall w :: w in ws && w !in r ==> |r| == 10 && Count(ws, w) <= Count(ws, r[9])
  {
    var c := Counted(ws);
    var s := SortDesc(c, Tally);
    SortedCounted(ws, c, s);
    var r := Words(s[..Min(10, |s|)]);
    TopWordsIn(ws, s, r);
    TopWordsRanked(ws, s, r);
    TopWordsRest(ws, s, r);
    r
  }

  /** The first ten sorted counter items name distinct words of `ws`. */
  lemma TopWordsIn(ws: seq<string>, s: seq<(string, nat)>, r: seq<string>)
    requires NoDup(s)
    requires forall k :: 0 <= k < |s| ==> s[k].0 in ws && s[k].1 == Count(ws, s[k].0)
    requires r == Words(s[..Min(10, |s|)])
    ensures |r| <= 10 && NoDup(r)
    ensures forall k :: 0 <= k < |r| ==> r[k] in ws
  {
    forall k | 0 <= k < |r| ensures r[k] in ws {
      assert r[k] == s[k].0;
    }
    forall i, j | 0 <= i < j < |r| ensures r[i] != r[j] {
      assert r[i] == s[i].0 && r[j] == s[j].0;
      assert s[i] != s[j];
    }
  }

  /** The first ten words come most frequent first. */
  lemma TopWordsRanked(ws: seq<string>, s: seq<(string, nat)>, r: seq<string>)
    requires SortedDesc(s, Tally)
    requires forall k :: 0 <= k < |s| ==> s[k].1 == Count(ws, s[k].0)
    requires r == Words(s[..Min(10, |s|)])
    ensures forall i, j :: 0 <= i < j < |r| ==> Count(ws, r[i]) >= Count(ws, r[j])
  {
    forall i, j | 0 <= i < j < |r| ensures Count(ws, r[i]) >= Count(ws, r[j]) {
      assert r[i] == s[i].0 && r[j] == s[j].0;
      assert Tally(s[i]) >= Tally(s[j]);
    }
  }

  /** A word left out of the first ten is no more frequent than the tenth. */
  lemma TopWordsRest(ws: seq<string>, s: seq<(string, nat)>, r: seq<string>)
    requires SortedDesc(s, Tally)
    requires forall k :: 0 <= k < |s| ==> s[k].1 == Count(ws, s[k].0)
    requires forall w :: w in ws ==> (w, Count(ws, w)) in s
    requires r == Words(s[..Min(10, |s|)])
    ensures forall w :: w in ws && w !in r ==> |r| == 10 && Count(ws, w) <= Count(ws, r[9])
  {
    forall w | w in ws && w !in r ensures |r| == 10 && Count(ws, w) <= Count(ws, r[9]) {
      var p :| 0 <= p < |s| && s[p] == (w, Count(ws, w));
      assert forall k :: 0 <= k < |r| ==> r[k] == s[k].0;
      assert p >= |r|;
      assert r[9] == s[9].0;
      assert Tally(s[9]) >= Tally(s[p]);
    }
  }

  function Freq(j: Job): real { j.frequency as real }

  /**
   * `sorted(jobs, key=frequency, reverse=True)[:5]`: the five most frequent jobs, most frequent
   * first, equal frequencies in listed order.
   */
  function TopJobRecords(jobs: seq<Job>): (r: seq<Job>)
    ensures |r| == Min(5, |jobs|)
    ensures SortedDesc(r, Freq)
    ensures multiset(r) <= multiset(jobs)
    ensures |jobs| <= 5 ==> multiset(r) == multiset(jobs)
    ensures |jobs| > 5 ==> forall j :: j in multiset(jobs) - multiset(r) ==> j.frequency <= r[4].frequency
  {
    var s := SortDesc(jobs, Freq);
    var r := s[..Min(5, |jobs|)];
    TopJobs(jobs, s, r);
    r
  }

  /** The ranking facts about the first five jobs in descending frequency order. */
  lemma TopJobs(jobs: seq<Job>, s: seq<Job>, r: seq<Job>)
    requires multiset(s) == multiset(jobs) && SortedDesc(s, Freq)
    requires r == s[..Min(5, |jobs|)]
    ensures |r| == Min(5, |jobs|)
    ensures SortedDesc(r, Freq)
    ensures multiset(r) <= multiset(jobs)
    ensures |jobs| <= 5 ==> multiset(r) == multiset(jobs)
    ensures |jobs| > 5 ==> forall j :: j in multiset(jobs) - multiset(r) ==> j.frequency <= r[4].frequency
  {
    assert |s| == |multiset(jobs)| == |jobs|;
    var n := Min(5, |jobs|);
    assert s == r + s[n..];
    assert multiset(s) == multiset(r) + multiset(s[n..]);
    if |jobs| > 5 {
      TopJobsRest(s, n);
    }
  }

  /** Past the first five of a descending sequence, no frequency exceeds the fifth. */
  lemma TopJobsRest(s: seq<Job>, n: nat)
    requires SortedDesc(s, Freq) && n == 5 < |s|
    ensures forall j :: j in multiset(s[n..]) ==> j.frequency <= s[4].frequency
  {
    forall j | j in multiset(s[n..]) ensures j.frequency <= s[4].frequency {
      var p :| 0 <= p < |s[n..]| && s[n..][p] == j;
      assert s[n + p] == j;
      assert Freq(s[4]) >= Freq(s[n + p]);
    }
  }

  function Titles(jobs: seq<Job>): (r: seq<string>)
    ensures |r| == |jobs| && forall k :: 0 <= k < |jobs| ==> r[k] == jobs[k].title
  {
    seq(|jobs|, k requires 0 <= k < |jobs| => jobs[k].title)
  }

  /** A property of every element of `a` and of `b` holds of every element of `a + b`. */
  lemma AppendAll<T>(a: seq<T>, b: seq<T>, P: T -> bool)
    requires forall k :: 0 <= k < |a| ==> P(a[k])
    requires forall k :: 0 <= k < |b| ==> P(b[k])
    ensures forall k :: 0 <= k < |a + b| ==> P((a + b)[k])
  {
    forall k | 0 <= k < |a + b| ensures P((a + b)[k]) {
      if k < |a| { assert (a + b)[k] == a[k]; } else { assert (a + b)[k] == b[k - |a|]; }
    }
  }

  /** A property of every element of `ws` holds of each member. */
  lemma MemberHolds<T>(ws: seq<T>, P: T -> bool, w: T)
    requires forall k :: 0 <= k < |ws| ==> P(ws[k])
    requires w in ws
    ensures P(w)
  {
    var i :| 0 <= i < |ws| && ws[i] == w;
  }

  /** The keywords of every title of the cluster, concatenated in order. */
  function TitleWords(jobs: seq<Job>): (r: seq<string>)
    ensures forall k :: 0 <= k < |r| ==> IsKeyword(r[k])
  {
    if jobs == [] then []
    else
      var a, b := Keywords(jobs[0].title), TitleWords(jobs[1..]);
      AppendAll(a, b, IsKeyword);
      a + b
  }

  datatype Profile = Profile(keywords: seq<string>, jobCount: nat, topJobs: seq<string>)

  /** Words drawn from a list of keywords are keywords. */
  lemma DrawnKeywords(ws: seq<string>, top: seq<string>)
    requires forall k :: 0 <= k < |ws| ==> IsKeyword(ws[k])
    requires forall k :: 0 <= k < |top| ==> top[k] in ws
    ensures forall k :: 0 <= k < |top| ==> IsKeyword(top[k])
  {
    forall k | 0 <= k < |top| ensures IsKeyword(top[k]) {
      MemberHolds(ws, IsKeyword, top[k]);
    }
  }

  /** One entry of `generate_cluster_profiles`. */
  function ClusterProfile(jobs: seq<Job>): (r: Profile)
    ensures |r.keywords| <= 10 && NoDup(r.keywords)
    ensures forall k :: 0 <= k < |r.keywords| ==> IsKeyword(r.keywords[k]) && r.keywords[k] in TitleWords(jobs)
    ensures |r.topJobs| == Min(5, |jobs|)
  {
    var ws := TitleWords(jobs);
    var top := TopKeywords(ws);
    DrawnKeywords(ws, top);
    Profile(top, JobCount(jobs), Titles(TopJobRecords(jobs)))
  }

  /** `generate_cluster_profiles`: one profile per cluster, under the cluster's id. */
  function Profiles(cs: Clusters): (r: Dict<string, Profile>)
    ensures forall id :: Get(r, id).Some? <==> Get(cs, id).Some?
    ensures forall i :: 0 <= i < |cs| ==> Get(r, cs[i].0) == Some(ClusterProfile(cs[i].1))
  {
    var r := seq(|cs|, i requires 0 <= i < |cs| => (cs[i].0, ClusterProfile(cs[i].1)));
    GetAligned(cs, r);
    r
  }

  /** A profile's job count is its cluster's total, whatever order the jobs are listed in. */
  lemma ProfileCountIsTotal(cs: Clusters, i: nat, reordered: seq<Job>)
    requires i < |cs|
    requires multiset(reordered) == multiset(cs[i].1)
    ensures Get(Totals(cs), cs[i].0) == Some(ClusterProfile(reordered).jobCount)
  {
    JobCountPermutation(reordered, cs[i].1);
  }

  // ---------------------------------------------------------------------------
  // Classification
  // ---------------------------------------------------------------------------

  const UnknownDomain := "Unknown"
  const GeneralSkillGraph := "general_skillgraph.json"

  /** Cluster id to domain; cluster "4" has no domain. */
  function ClusterDomains(): map<string, string> {
    map[
    "0" := "Site Reliability Engineering",
    "1" := "Machine Learning Engineering",
    "2" := "Business Analysis",
    "3" := "Architecture & Cloud Engineering",
    "5" := "Data Science & Analysis",
    "6" := "Software Testing & QA",
    "7" := "Software Development Engineering",
    "8" := "Web & Frontend Development",
    "9" := "Project & Systems Management",
    "10" := "Java Development",
    "11" := "DevOps & Infrastructure Engineering"
    ]
  }

  /** Domain to the skill-graph file recommended for it. */
  function DomainGraphs(): map<string, string> {
    map[
    "Data Science & Analysis" := "data scientist.json",
    "Site Reliability Engineering" := "site reliability engineer.json",
    "Software Testing & QA" := "software development engineer.json",
    "Software Development Engineering" := "software engineer.json",
    "Machine Learning Engineering" := "machine learning engineer.json",
    "Web & Frontend Development" := "web developer.json",
    "DevOps & Infrastructure Engineering" := "devops engineer.json",
    "Java Development" := "java developer.json",
    "Business Analysis" := "business analyst.json",
    "Architecture & Cloud Engineering" := "data architect.json",
    "Project & Systems Management" := "project manager.json"
    ]
  }

  /** `CLUSTER_DOMAIN_MAP.get(id, "Unknown")` */
  function DomainOf(id: string): string {
    if id in ClusterDomains() then ClusterDomains()[id] else UnknownDomain
  }

  /** A cluster id is mapped to "Unknown" exactly when it has no domain; every domain has a graph. */
  lemma DomainOfKnown(id: string)
    ensures DomainOf(id) == UnknownDomain <==> id !in ClusterDomains()
    ensures DomainOf(id) != UnknownDomain ==> DomainOf(id) in DomainGraphs()
  {
  }

  /** `DOMAIN_TO_SKILL_GRAPH.get(domain, "general_skillgraph.json")` */
  function SkillGraphOf(domain: string): (r: string)
    ensures r == GeneralSkillGraph <==> domain !in DomainGraphs()
  {
    if domain in DomainGraphs() then DomainGraphs()[domain] else GeneralSkillGraph
  }

  /** The classifier as constructed from parsed clusters, with no embedding model. */
  datatype Classifier = Classifier(
    clusters: Clusters,
    profiles: Dict<string, Profile>,
    totals: Dict<string, nat>,
    titleIndex: TitleIndex)

  function NewClassifier(cs: Clusters): Classifier {
    Classifier(cs, Profiles(cs), Totals(cs), IndexClusters(cs))
  }

  datatype MatchType = Exact | Fallback

  datatype Match = Match(clusterId: string, confidence: real, matchType: MatchType, frequency: nat)

  /** `classify_job_by_exact_match`: look up the lower-cased, stripped title. */
  function ExactMatch(c: Classifier, title: string): (r: Option<Match>)
    ensures r.Some? ==> r.value.confidence == 1.0 && r.value.matchType == Exact
  {
    match Get(c.titleIndex, Strip(Lower(title)))
    case None => None
    case Some(e) => Some(Match(e.clusterId, 1.0, Exact, e.frequency))
  }

  /**
   * Exact matching finds a title iff some listed job has that lower-cased title after
   * stripping, and then reports the cluster and frequency of the last such job.
   */
  lemma ExactMatchFindsLastTitle(cs: Clusters, title: string)
    ensures ExactMatch(NewClassifier(cs), title) ==
      match LastMatch(cs, Strip(Lower(title)))
      case Some(p) => Some(Match(cs[p.0].0, 1.0, Exact, cs[p.0].1[p.1].frequency))
      case None => None
  {
    TitleIndexLastWins(cs, Strip(Lower(title)));
  }

  datatype Classification = Classification(domain: string, clusterId: string, confidence: real, matchType: MatchType)

  /** Taking the first cluster of an empty cluster list raises IndexError. */
  datatype ClassifyError = NoClusters

  /**
   * `classify_job_to_domain` without an embedding model: an exact match, else the first
   * cluster with confidence 0.01; the domain is looked up from the cluster id.
   */
  function ClassifyToDomain(c: Classifier, title: string): (r: Result<Classification, ClassifyError>)
    ensures r.Err? <==> ExactMatch(c, title).None? && c.clusters == []
    ensures r.Ok? ==> r.value.domain == DomainOf(r.value.clusterId)
    ensures r.Ok? && r.value.matchType == Exact ==> r.value.confidence == 1.0
    ensures r.Ok? && r.value.matchType == Fallback ==> c.clusters != [] && r.value.confidence == 0.01 && r.value.clusterId == c.clusters[0].0
  {
    match ExactMatch(c, title)
    case Some(m) => Ok(Classification(DomainOf(m.clusterId), m.clusterId, 1.0, Exact))
    case None =>
      if c.clusters == [] then Err(NoClusters)
      else
        var id := c.clusters[0].0;
        Ok(Classification(DomainOf(id), id, 0.01, Fallback))
  }

  /** Classification fails only when there are no clusters at all. */
  lemma ClassifyFailsIffNoClusters(cs: Clusters, title: string)
    ensures ClassifyToDomain(NewClassifier(cs), title).Err? <==> cs == []
  {
    if cs == [] {
      ExactMatchFindsLastTitle(cs, title);
      assert ExactMatch(NewClassifier(cs), title).None?;
    }
  }

  /** Some job of the clusters has lower-cased title `key` exactly when a last such job exists. */
  lemma LastMatchIffTitled(cs: Clusters, key: string)
    ensures LastMatch(cs, key).Some? <==> exists c, j :: Titled(cs, c, j, key)
  {
    match LastMatch(cs, key)
    case Some(p) => assert Titled(cs, p.0, p.1, key);
    case None =>
  }

  /** For any classifier, the classification is exact exactly when the exact lookup finds the title. */
  lemma ClassifyExactIffFound(c: Classifier, title: string)
    ensures (var r := ClassifyToDomain(c, title);
             r.Ok? && r.value.matchType == Exact) <==> ExactMatch(c, title).Some?
  {
    match ExactMatch(c, title)
    case Some(m) =>
      assert ClassifyToDomain(c, title) == Ok(Classification(DomainOf(m.clusterId), m.clusterId, 1.0, Exact));
    case None =>
  }

  /** A classification is exact iff some listed job has the normalised title. */
  lemma ClassifyExactIffListed(cs: Clusters, title: string)
    ensures (var r := ClassifyToDomain(NewClassifier(cs), title);
             r.Ok? && r.value.matchType == Exact) <==> exists c, j :: Titled(cs, c, j, Strip(Lower(title)))
  {
    ClassifyExactIffFound(NewClassifier(cs), title);
    ExactMatchFindsLastTitle(cs, title);
    LastMatchIffTitled(cs, Strip(Lower(title)));
  }

  datatype Recommendation = Recommendation(skillGraph: string, confidence: real, domain: string, matchType: MatchType)

  /** `find_best_skill_graph_for_job` */
  function BestSkillGraph(c: Classifier, title: string): (r: Result<Recommendation, ClassifyError>)
    ensures r.Err? <==> ClassifyToDomain(c, title).Err?
    ensures r.Ok? ==> r.value.skillGraph == SkillGraphOf(r.value.domain)
    ensures r.Ok? ==> r.value.domain == ClassifyToDomain(c, title).value.domain
  {
    match ClassifyToDomain(c, title)
    case Err(e) => Err(e)
    case Ok(k) => Ok(Recommendation(SkillGraphOf(k.domain), k.confidence, k.domain, k.matchType))
  }

  /**
   * The general skill graph is recommended exactly when the classified cluster has no
   * domain (such as cluster "4"); every cluster with a domain gets a domain-specific file.
   */
  lemma GeneralGraphIffUnknownCluster(c: Classifier, title: string)
    requires ClassifyToDomain(c, title).Ok?
    ensures BestSkillGraph(c, title).Ok?
    ensures BestSkillGraph(c, title).value.skillGraph == GeneralSkillGraph <==>
      ClassifyToDomain(c, title).value.clusterId !in ClusterDomains()
  {
    var k := ClassifyToDomain(c, title).value;
    DomainOfKnown(k.clusterId);
    if k.clusterId !in ClusterDomains() {
      UnknownHasNoGraph();
    }
  }

  lemma UnknownHasNoGraph()
    ensures UnknownDomain !in DomainGraphs()
  {
  }
}
