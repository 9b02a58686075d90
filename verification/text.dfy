/**
 * String helpers with Python's semantics on ASCII text: `str.lower`, `str.strip`,
 * `str.startswith`, `in`, `str.replace(p, "")`, `str.split(sep)` and `str.split()`.
 * Only ASCII letters change case and only ASCII whitespace is stripped; Unicode
 * case folding and Unicode whitespace are outside the model.
 */
module Text {
  import opened Wrappers

  predicate IsUpper(c: char) { 'A' <= c <= 'Z' }

  function LowerChar(c: char): (r: char)
    ensures !IsUpper(r)
    ensures IsUpper(c) ==> r as int == c as int + 32
    ensures !IsUpper(c) ==> r == c
  {
    if IsUpper(c) then (c as int + 32) as char else c
  }

  /** `s.lower()` */
  function Lower(s: string): (r: string)
    ensures |r| == |s|
    ensures forall i :: 0 <= i < |s| ==> r[i] == LowerChar(s[i])
  {
    if s == [] then [] else [LowerChar(s[0])] + Lower(s[1..])
  }

  lemma LowerIdempotent(s: string)
    ensures Lower(Lower(s)) == Lower(s)
  {
  }

  /** The characters Python's `str.strip()` / `str.split()` treat as whitespace (ASCII part). */
  predicate IsSpace(c: char) {
    c == ' ' || c == '\t' || c == '\n' || c == '\r' || c == '\U{0B}' || c == '\U{0C}'
  }

  function TrimStart(s: string): (r: string)
    ensures |r| <= |s| && r == s[|s| - |r|..]
    ensures r == [] || !IsSpace(r[0])
    ensures forall i :: 0 <= i < |s| - |r| ==> IsSpace(s[i])
  {
    if s != [] && IsSpace(s[0]) then TrimStart(s[1..]) else s
  }

  /** Text that does not start with whitespace is left as it is. */
  lemma TrimStartNoSpace(s: string)
    requires s != [] && !IsSpace(s[0])
    ensures TrimStart(s) == s
  {
  }

  function TrimEnd(s: string): (r: string)
    ensures |r| <= |s| && r == s[..|r|]
    ensures r == [] || !IsSpace(r[|r| - 1])
    ensures forall i :: |r| <= i < |s| ==> IsSpace(s[i])
  {
    if s != [] && IsSpace(s[|s| - 1]) then TrimEnd(s[..|s| - 1]) else s
  }

  /** `s.strip()` */
  function Strip(s: string): (r: string)
    ensures r == [] || (!IsSpace(r[0]) && !IsSpace(r[|r| - 1]))
    ensures exists i, j :: 0 <= i <= j <= |s| && r == s[i..j]
  {
    var t := TrimStart(s);
    var r := TrimEnd(t);
    assert r == s[|s| - |t|..|s| - |t| + |r|];
    r
  }
  /** Text that neither starts nor ends with whitespace is its own `strip()`. */
  lemma StripStripped(s: string)
    requires s != [] && !IsSpace(s[0]) && !IsSpace(s[|s| - 1])
    ensures Strip(s) == s
  {
    TrimStartNoSpace(s);
  }

  /** `strip()` drops one trailing blank after stripped text. */
  lemma StripTrailingBlank(s: string)
    requires s != [] && !IsSpace(s[0]) && !IsSpace(s[|s| - 1])
    ensures Strip(s + " ") == s
  {
    TrimStartNoSpace(s + " ");
    assert (s + " ")[..|s + " "| - 1] == s;
  }


  /** True iff the string is empty after `strip()`: JavaScript's `x.trim() === ""` on ASCII text. */
  predicate IsBlank(s: string) {
    forall i :: 0 <= i < |s| ==> IsSpace(s[i])
  }

  predicate StartsWith(s: string, p: string) {
    |p| <= |s| && s[..|p|] == p
  }

  /** `p in s` */
  predicate Contains(s: string, p: string)
    decreases |s|
  {
    StartsWith(s, p) || (s != [] && Contains(s[1..], p))
  }

  /** `s.replace(p, "")` for a non-empty pattern: removes every non-overlapping occurrence, left to right. */
  function RemoveAll(s: string, p: string): (r: string)
    requires p != []
    ensures |r| <= |s|
    ensures !Contains(s, p) ==> r == s
    decreases |s|
  {
    if |s| < |p| then s
    else if s[..|p|] == p then RemoveAll(s[|p|..], p)
    else [s[0]] + RemoveAll(s[1..], p)
  }

  /** `s.split(p)` for a non-empty pattern: the pieces between leftmost non-overlapping occurrences. */
  function SplitOn(s: string, p: string): (r: seq<string>)
    requires p != []
    ensures |r| >= 1
    decreases |s|
  {
    if |s| < |p| then [s]
    else if s[..|p|] == p then [[]] + SplitOn(s[|p|..], p)
    else PrependFirst(s[0], SplitOn(s[1..], p))
  }

  /** A character that starts no occurrence joins the first piece. */
  function PrependFirst(c: char, parts: seq<string>): (r: seq<string>)
    requires |parts| >= 1
    ensures |r| == |parts| && r[0] == [c] + parts[0] && r[1..] == parts[1..]
  {
    [[c] + parts[0]] + parts[1..]
  }

  /** Joining after prepending to the first piece prepends to the joined text. */
  lemma JoinPrependFirst(c: char, parts: seq<string>, sep: string)
    requires |parts| >= 1
    ensures Join(PrependFirst(c, parts), sep) == [c] + Join(parts, sep)
  {
    var r := PrependFirst(c, parts);
    if |parts| > 1 {
      assert Join(r, sep) == r[0] + sep + Join(r[1..], sep);
      assert Join(parts, sep) == parts[0] + sep + Join(parts[1..], sep);
    }
  }

  /** Joining the pieces of `s.split(p)` with `p` gives back the text. */
  lemma {:induction false} SplitOnJoin(s: string, p: string)
    requires p != []
    ensures Join(SplitOn(s, p), p) == s
    decreases |s|
  {
    if |s| < |p| {
    } else if s[..|p|] == p {
      var tail := SplitOn(s[|p|..], p);
      SplitOnJoin(s[|p|..], p);
      var r := [[]] + tail;
      assert r[1..] == tail;
      assert Join(r, p) == [] + p + s[|p|..];
      assert s == s[..|p|] + s[|p|..];
    } else {
      SplitOnJoin(s[1..], p);
      JoinPrependFirst(s[0], SplitOn(s[1..], p), p);
      assert s == [s[0]] + s[1..];
    }
  }

  /**
   * Python's identity `s.replace(p, "") == "".join(s.split(p))`: removing every occurrence is
   * joining the pieces between them with nothing.
   */
  lemma {:induction false} RemoveAllIsJoinedSplit(s: string, p: string)
    requires p != []
    ensures RemoveAll(s, p) == Join(SplitOn(s, p), "")
    decreases |s|
  {
    if |s| < |p| {
    } else if s[..|p|] == p {
      var tail := SplitOn(s[|p|..], p);
      RemoveAllIsJoinedSplit(s[|p|..], p);
      var r := [[]] + tail;
      assert r[1..] == tail;
      assert Join(r, "") == [] + "" + Join(tail, "");
    } else {
      RemoveAllIsJoinedSplit(s[1..], p);
      JoinPrependFirst(s[0], SplitOn(s[1..], p), "");
    }
  }

  /** A prefix without the pattern's first character cannot hold the start of an occurrence. */
  lemma {:induction false} ContainsAfter(a: string, rest: string, p: string)
    requires p != []
    requires forall i :: 0 <= i < |a| ==> a[i] != p[0]
    ensures Contains(a + rest, p) <==> Contains(rest, p)
    decreases |a|
  {
    if a == [] {
      assert a + rest == rest;
    } else {
      assert !StartsWith(a + rest, p) by {
        if |p| <= |a + rest| { assert (a + rest)[..|p|][0] == a[0]; }
      }
      assert (a + rest)[1..] == a[1..] + rest;
      ContainsAfter(a[1..], rest, p);
    }
  }

  /**
   * Two patterns that share their first character but not their second, where the first
   * character does not recur in `t`, cannot occur one inside the other.
   */
  lemma NotInsideSibling(t: string, u: string)
    requires |t| >= 2 && |u| >= 2 && t[1] != u[1]
    requires forall k :: 1 <= k < |t| ==> t[k] != u[0]
    ensures !Contains(t, u)
  {
    assert !StartsWith(t, u) by {
      if |u| <= |t| { assert t[..|u|][1] == t[1]; }
    }
    ContainsAfter(t[1..], [], u);
    assert t[1..] + [] == t[1..];
  }

  /**
   * A text holding the pattern once, with nothing before it that could start an occurrence,
   * loses exactly that occurrence.
   */
  lemma {:induction false} RemoveAllOnce(a: string, p: string, b: string)
    requires p != [] && !Contains(b, p)
    requires forall i :: 0 <= i < |a| ==> a[i] != p[0]
    ensures RemoveAll(a + p + b, p) == a + b
    decreases |a|
  {
    var s := a + p + b;
    if a == [] {
      assert s == p + b && s[..|p|] == p && s[|p|..] == b;
    } else {
      assert s[0] == a[0] && s[0] != p[0];
      assert s[..|p|] != p;
      RemoveAllOnce(a[1..], p, b);
      assert s[1..] == a[1..] + p + b;
      assert [a[0]] + (a[1..] + b) == a + b;
    }
  }

  /** Index of the first occurrence of `c` in `s`, if any. */
  function IndexOf(s: string, c: char): (r: Option<nat>)
    ensures r.Some? ==> r.value < |s| && s[r.value] == c && forall k :: 0 <= k < r.value ==> s[k] != c
    ensures r.None? ==> forall k :: 0 <= k < |s| ==> s[k] != c
  {
    if s == [] then None
    else if s[0] == c then Some(0)
    else match IndexOf(s[1..], c)
      case None => None
      case Some(k) => Some(k + 1)
  }

  /** `s.split(sep)` for a one-character separator: always at least one piece. */
  function Split(s: string, sep: char): (r: seq<string>)
    ensures |r| >= 1
    ensures forall k, i :: 0 <= k < |r| && 0 <= i < |r[k]| ==> r[k][i] != sep
    decreases |s|
  {
    match IndexOf(s, sep)
    case None => [s]
    case Some(k) => [s[..k]] + Split(s[k + 1..], sep)
  }

  /** `sep.join(parts)` */
  function Join(parts: seq<string>, sep: string): string {
    if parts == [] then []
    else if |parts| == 1 then parts[0]
    else parts[0] + sep + Join(parts[1..], sep)
  }

  /** Splitting and re-joining with the same separator gives back the text. */
  lemma {:induction false} SplitJoin(s: string, sep: char)
    ensures Join(Split(s, sep), [sep]) == s
    decreases |s|
  {
    match IndexOf(s, sep)
    case None =>
    case Some(k) =>
      var tail := Split(s[k + 1..], sep);
      SplitJoin(s[k + 1..], sep);
      var r := [s[..k]] + tail;
      assert Split(s, sep) == r;
      assert r[1..] == tail;
      assert Join(r, [sep]) == s[..k] + [sep] + s[k + 1..];
      assert s == s[..k] + [sep] + s[k + 1..];
  }

  /** `s.split()` with no argument: the maximal runs of non-whitespace characters. */
  function SplitWhitespace(s: string): (r: seq<string>)
    ensures forall k :: 0 <= k < |r| ==> IsWord(r[k])
    decreases |s|
  {
    var t := TrimStart(s);
    if t == [] then []
    else
      var w := Word(t);
      [w] + SplitWhitespace(t[|w|..])
  }

  /** A non-empty run of non-whitespace characters. */
  predicate IsWord(w: string) {
    w != [] && forall i :: 0 <= i < |w| ==> !IsSpace(w[i])
  }

  /** The leading run of non-whitespace characters. */
  function Word(s: string): (r: string)
    ensures |r| <= |s| && r == s[..|r|]
    ensures forall i :: 0 <= i < |r| ==> !IsSpace(r[i])
    ensures s != [] && !IsSpace(s[0]) ==> r != []
    ensures |r| < |s| ==> IsSpace(s[|r|])
  {
    if s == [] || IsSpace(s[0]) then [] else [s[0]] + Word(s[1..])
  }
}
