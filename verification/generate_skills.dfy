/**
 * The score post-processing of the skill-generation endpoint: a random confidence in
 * half-point steps is appended to each (name, focus) pair, then focus scores are turned
 * into shares of their total and confidences into fractions of their maximum, both
 * rounded to two decimals.
 *
 * The random draws are a parameter; Python's float arithmetic is modelled with exact reals.
 */
module GenerateSkills {
  import opened Numeric

  /** `[skill_name, focus_score, confidence_score]` */
  datatype ScoredSkill = ScoredSkill(name: string, focus: real, confidence: real)

  /** `x` is a whole multiple of one half. */
  predicate HalfMultiple(x: real) {
    (x * 2.0).Floor as real == x * 2.0
  }

  /** `round(u * 2) / 2`: the nearest half-point step, ties to an even number of halves. */
  function HalfStep(u: real): (r: real)
    ensures HalfMultiple(r)
    ensures u - 0.25 <= r <= u + 0.25
  {
    var n := RoundHalfEven(u * 2.0);
    assert (n as real / 2.0) * 2.0 == n as real;
    n as real / 2.0
  }

  /** A draw from [3, 5] gives a half-point step inside [3, 5]. */
  lemma HalfStepRange(u: real)
    requires 3.0 <= u <= 5.0
    ensures 3.0 <= HalfStep(u) <= 5.0
  {
    var n := RoundHalfEven(u * 2.0);
    assert 5.5 < n as real + 0.5 && n as real - 0.5 < 10.5;
  }

  /**
   * `add_confidence_scores`: `draws[i]` stands for the i-th `random.uniform(3, 5)`.
   * Names and focus scores are kept; each confidence is a half-point step in [3, 5].
   */
  function AddConfidence(skills: seq<(string, real)>, draws: seq<real>): (r: seq<ScoredSkill>)
    requires |draws| == |skills|
    requires forall i :: 0 <= i < |draws| ==> 3.0 <= draws[i] <= 5.0
    ensures |r| == |skills|
    ensures forall i :: 0 <= i < |r| ==> r[i].name == skills[i].0 && r[i].focus == skills[i].1
    ensures forall i :: 0 <= i < |r| ==>
      HalfMultiple(r[i].confidence) && 3.0 <= r[i].confidence <= 5.0
      && draws[i] - 0.25 <= r[i].confidence <= draws[i] + 0.25
  {
    if skills == [] then []
    else
      var n := |skills| - 1;
      HalfStepRange(draws[n]);
      AddConfidence(skills[..n], draws[..n]) + [ScoredSkill(skills[n].0, skills[n].1, HalfStep(draws[n]))]
  }

  function Focuses(skills: seq<ScoredSkill>): (r: seq<real>)
    ensures |r| == |skills| && forall i :: 0 <= i < |r| ==> r[i] == skills[i].focus
  {
    seq(|skills|, i requires 0 <= i < |skills| => skills[i].focus)
  }

  /** `max(s[2] for s in skills)`, 1 for the empty list. */
  function MaxConfidence(skills: seq<ScoredSkill>): (m: real)
    ensures forall i :: 0 <= i < |skills| ==> skills[i].confidence <= m
    ensures skills != [] ==> exists i :: 0 <= i < |skills| && skills[i].confidence == m
    ensures skills == [] ==> m == 1.0
  {
    if |skills| <= 1 then (if skills == [] then 1.0 else skills[0].confidence)
    else
      var n := |skills| - 1;
      var m := MaxConfidence(skills[..n]);
      assert forall i :: 0 <= i < n ==> skills[..n][i] == skills[i];
      MaxR(m, skills[n].confidence)
  }

  /** Shares and fractions before rounding. */
  function FocusShare(f: real, total: real): real {
    if total > 0.0 then f / total else 0.0
  }

  function ConfidenceShare(c: real, max: real): real {
    if max > 0.0 then c / max else 0.0
  }

  /** One normalised entry, given the focus total and the confidence maximum. */
  function NormalizeOne(s: ScoredSkill, total: real, max: real): ScoredSkill {
    ScoredSkill(
      s.name,
      if total > 0.0 then PyRound(FocusShare(s.focus, total), 2) else 0.0,
      if max > 0.0 then PyRound(ConfidenceShare(s.confidence, max), 2) else 0.0)
  }

  /** `normalize_skills` */
  function Normalize(skills: seq<ScoredSkill>): (r: seq<ScoredSkill>)
    ensures |r| == |skills|
    ensures forall i :: 0 <= i < |r| ==> r[i].name == skills[i].name
    ensures Sum(Focuses(skills)) <= 0.0 ==> forall i :: 0 <= i < |r| ==> r[i].focus == 0.0
    ensures MaxConfidence(skills) <= 0.0 ==> forall i :: 0 <= i < |r| ==> r[i].confidence == 0.0
  {
    var total := Sum(Focuses(skills));
    var max := MaxConfidence(skills);
    seq(|skills|, i requires 0 <= i < |skills| => NormalizeOne(skills[i], total, max))
  }

  /** Each normalised focus lies within 0.005 of the skill's exact share of the total. */
  lemma NormalizeFocusShare(skills: seq<ScoredSkill>, i: nat)
    requires i < |skills| && Sum(Focuses(skills)) > 0.0
    ensures var t := Sum(Focuses(skills));
      skills[i].focus / t - 0.005 <= Normalize(skills)[i].focus <= skills[i].focus / t + 0.005
  {
    assert 0.5 / Pow10(2) as real == 0.005;
  }

  /** Dividing every element by `t` divides the sum by `t`. */
  lemma {:induction false} SumScaled(xs: seq<real>, ys: seq<real>, t: real)
    requires t > 0.0 && |ys| == |xs|
    requires forall i :: 0 <= i < |xs| ==> ys[i] == xs[i] / t
    ensures Sum(ys) == Sum(xs) / t
  {
    if xs != [] {
      SumScaled(xs[1..], ys[1..], t);
      assert Sum(xs) == xs[0] + Sum(xs[1..]);
      assert Sum(ys) == ys[0] + Sum(ys[1..]);
      assert (xs[0] + Sum(xs[1..])) / t == xs[0] / t + Sum(xs[1..]) / t;
    }
  }

  /** The exact shares of the focus total. */
  function Shares(skills: seq<ScoredSkill>): (r: seq<real>)
    ensures |r| == |skills|
    ensures forall i :: 0 <= i < |r| ==> r[i] == FocusShare(skills[i].focus, Sum(Focuses(skills)))
  {
    var t := Sum(Focuses(skills));
    seq(|skills|, i requires 0 <= i < |skills| => FocusShare(skills[i].focus, t))
  }

  /** With a positive total, the exact shares sum to one. */
  lemma SharesSumToOne(skills: seq<ScoredSkill>)
    requires Sum(Focuses(skills)) > 0.0
    ensures Sum(Shares(skills)) == 1.0
  {
    var t := Sum(Focuses(skills));
    SumScaled(Focuses(skills), Shares(skills), t);
    assert t / t == 1.0;
  }

  /** Python `round(x, 2)` keeps a value of [0, 1] inside [0, 1] and leaves 1 alone. */
  lemma RoundUnit(x: real)
    requires 0.0 <= x <= 1.0
    ensures 0.0 <= PyRound(x, 2) <= 1.0
    ensures x == 1.0 ==> PyRound(x, 2) == 1.0
  {
    var n := RoundHalfEven(x * 100.0);
    assert Pow10(2) == 100;
    assert -0.5 < n as real < 100.5;
    assert 0 <= n <= 100;
  }

  /**
   * With non-negative confidences and a positive maximum, every normalised confidence
   * lies in [0, 1] and the most confident skill gets exactly 1.
   */
  lemma NormalizeConfidenceUnit(skills: seq<ScoredSkill>)
    requires forall i :: 0 <= i < |skills| ==> skills[i].confidence >= 0.0
    requires MaxConfidence(skills) > 0.0
    ensures forall i :: 0 <= i < |skills| ==> 0.0 <= Normalize(skills)[i].confidence <= 1.0
    ensures forall i :: 0 <= i < |skills| && skills[i].confidence == MaxConfidence(skills) ==>
      Normalize(skills)[i].confidence == 1.0
    ensures skills != [] ==> exists i :: 0 <= i < |skills| && Normalize(skills)[i].confidence == 1.0
  {
    var max := MaxConfidence(skills);
    var r := Normalize(skills);
    forall i | 0 <= i < |skills| ensures 0.0 <= r[i].confidence <= 1.0
      && (skills[i].confidence == max ==> r[i].confidence == 1.0)
    {
      FractionUnit(skills[i].confidence, max);
      RoundUnit(ConfidenceShare(skills[i].confidence, max));
    }
  }

  lemma FractionUnit(c: real, max: real)
    requires 0.0 <= c <= max && max > 0.0
    ensures 0.0 <= ConfidenceShare(c, max) <= 1.0
    ensures c == max ==> ConfidenceShare(c, max) == 1.0
  {
    assert c / max * max == c;
  }

  /** The two sequences have equal length and are pairwise within `e`. */
  predicate Close(xs: seq<real>, ys: seq<real>, e: real) {
    |ys| == |xs| && forall i :: 0 <= i < |xs| ==> xs[i] - e <= ys[i] <= xs[i] + e
  }

  /** Sums of two sequences whose elements are pairwise within `e` are within `|xs| * e`. */
  lemma {:induction false} SumClose(xs: seq<real>, ys: seq<real>, e: real)
    requires Close(xs, ys, e)
    ensures Sum(xs) - |xs| as real * e <= Sum(ys) <= Sum(xs) + |xs| as real * e
  {
    if xs != [] {
      assert Close(xs[1..], ys[1..], e) by {
        assert forall i :: 0 <= i < |xs| - 1 ==> xs[1..][i] == xs[i + 1] && ys[1..][i] == ys[i + 1];
      }
      SumClose(xs[1..], ys[1..], e);
      assert Sum(xs) == xs[0] + Sum(xs[1..]);
      assert Sum(ys) == ys[0] + Sum(ys[1..]);
      assert |xs| as real * e == e + |xs[1..]| as real * e;
    }
  }

  /** The sum of `ys` is one, give or take `n * e`. */
  predicate SumNearOne(ys: seq<real>, n: real, e: real) {
    1.0 - n * e <= Sum(ys) <= 1.0 + n * e
  }

  /** Values pairwise within `e` of terms that sum to one sum to one within `e` apiece. */
  lemma CloseToOne(exact: seq<real>, rounded: seq<real>, e: real, n: real)
    requires Sum(exact) == 1.0 && Close(exact, rounded, e) && n == |exact| as real
    ensures SumNearOne(rounded, n, e)
  {
    SumClose(exact, rounded, e);
    Shift(Sum(exact), Sum(rounded), |exact| as real * e);
  }

  lemma Shift(a: real, y: real, d: real)
    requires a == 1.0 && a - d <= y <= a + d
    ensures 1.0 - d <= y <= 1.0 + d
  {
  }

  /** With a positive focus total, the rounded focus scores sum to one within 0.005 per skill. */
  lemma NormalizeFocusSum(skills: seq<ScoredSkill>)
    requires Sum(Focuses(skills)) > 0.0
    ensures SumNearOne(Focuses(Normalize(skills)), |skills| as real, 0.005)
  {
    SharesSumToOne(skills);
    RoundedShares(skills);
    CloseToOne(Shares(skills), Focuses(Normalize(skills)), 0.005, |skills| as real);
  }

  /** Each rounded focus lies within 0.005 of its exact share. */
  lemma RoundedShares(skills: seq<ScoredSkill>)
    requires Sum(Focuses(skills)) > 0.0
    ensures Close(Shares(skills), Focuses(Normalize(skills)), 0.005)
  {
    forall i | 0 <= i < |skills|
      ensures Shares(skills)[i] - 0.005 <= Focuses(Normalize(skills))[i] <= Shares(skills)[i] + 0.005
    {
      NormalizeFocusShare(skills, i);
    }
  }
}
