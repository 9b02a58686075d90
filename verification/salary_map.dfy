/**
 * The salary map endpoint: keep the jobs whose salary lies in the requested range,
 * optionally keep only those whose title is similar to a query, then group them by city
 * or state into points carrying the mean salary and the mean coordinates.
 *
 * Loading the job table from CSV and the embedding similarity are not modelled: the
 * table is an input and the similarity test is a parameter.
 */
module SalaryMap {
  import opened Wrappers
  import opened PyDict

  /** One row of the job table. */
  datatype Job = Job(city: string, state: string, salary: real,
                     cityLat: real, cityLng: real, stateLat: real, stateLng: real)

  /** The `mode` query parameter, restricted to `^(CITY|STATE)$`. */
  datatype Mode = City | State

  function ParseMode(text: string): (r: Option<Mode>)
    ensures r == Some(City) <==> text == "CITY"
    ensures r == Some(State) <==> text == "STATE"
  {
    if text == "CITY" then Some(City) else if text == "STATE" then Some(State) else None
  }

  /** `job[mode]` */
  function KeyOf(job: Job, mode: Mode): string {
    match mode
    case City => job.city
    case State => job.state
  }

  function LatOf(job: Job, mode: Mode): real {
    if mode == City then job.cityLat else job.stateLat
  }

  function LngOf(job: Job, mode: Mode): real {
    if mode == City then job.cityLng else job.stateLng
  }

  // ---------------------------------------------------------------------------
  // Filters
  // ---------------------------------------------------------------------------

  /** `minSalary <= salary <= maxSalary`; an absent maximum is +infinity. */
  predicate InRange(job: Job, lo: real, hi: Option<real>) {
    lo <= job.salary && (hi.None? || job.salary <= hi.value)
  }

  /** The salary filter: the jobs in range, in table order. */
  function SalaryFilter(jobs: seq<Job>, lo: real, hi: Option<real>): (r: seq<Job>)
    ensures forall x :: multiset(r)[x] == if InRange(x, lo, hi) then multiset(jobs)[x] else 0
    ensures forall i :: 0 <= i < |r| ==> InRange(r[i], lo, hi)
    decreases |jobs|
  {
    if jobs == [] then []
    else
      var n := |jobs| - 1;
      assert jobs == jobs[..n] + [jobs[n]];
      SalaryFilter(jobs[..n], lo, hi) + (if InRange(jobs[n], lo, hi) then [jobs[n]] else [])
  }

  /** The semantic filter: keeps the jobs `similar` accepts; it never adds one. */
  function SimilarFilter(jobs: seq<Job>, q: string, similar: (string, Job) -> bool): (r: seq<Job>)
    ensures forall x :: multiset(r)[x] <= multiset(jobs)[x]
    ensures forall i :: 0 <= i < |r| ==> similar(q, r[i])
    decreases |jobs|
  {
    if jobs == [] then []
    else
      var n := |jobs| - 1;
      assert jobs == jobs[..n] + [jobs[n]];
      SimilarFilter(jobs[..n], q, similar) + (if similar(q, jobs[n]) then [jobs[n]] else [])
  }

  // ---------------------------------------------------------------------------
  // Buckets
  // ---------------------------------------------------------------------------

  /** Running sums of one bucket. */
  datatype Bucket = Bucket(total: real, count: nat, lat: real, lng: real)

  const Empty := Bucket(0.0, 0, 0.0, 0.0)

  /** The four `+=` of one job. */
  function Add(b: Bucket, job: Job, mode: Mode): Bucket {
    Bucket(b.total + job.salary, b.count + 1, b.lat + LatOf(job, mode), b.lng + LngOf(job, mode))
  }

  /** `buckets.setdefault(key, …)` followed by the additions. */
  function Accumulate(d: Dict<string, Bucket>, job: Job, mode: Mode): Dict<string, Bucket> {
    Put(d, KeyOf(job, mode), Add(GetOr(d, KeyOf(job, mode), Empty), job, mode))
  }

  /** `buckets` after the aggregation loop. */
  function Buckets(jobs: seq<Job>, mode: Mode): Dict<string, Bucket>
    decreases |jobs|
  {
    if jobs == [] then [] else Accumulate(Buckets(jobs[..|jobs| - 1], mode), jobs[|jobs| - 1], mode)
  }

  /** The jobs with key `k`, in order. */
  function Select(jobs: seq<Job>, mode: Mode, k: string): (r: seq<Job>)
    ensures r == [] <==> forall i :: 0 <= i < |jobs| ==> KeyOf(jobs[i], mode) != k
    ensures forall i :: 0 <= i < |r| ==> r[i] in jobs && KeyOf(r[i], mode) == k
    decreases |jobs|
  {
    if jobs == [] then []
    else
      var n := |jobs| - 1;
      assert forall i :: 0 <= i < n ==> jobs[..n][i] == jobs[i];
      Select(jobs[..n], mode, k) + (if KeyOf(jobs[n], mode) == k then [jobs[n]] else [])
  }

  /** The sums over a list of jobs, computed on their own. */
  function Summarize(jobs: seq<Job>, mode: Mode): (b: Bucket)
    ensures b.count == |jobs|
    decreases |jobs|
  {
    if jobs == [] then Empty else Add(Summarize(jobs[..|jobs| - 1], mode), jobs[|jobs| - 1], mode)
  }

  lemma SummarizeSnoc(jobs: seq<Job>, x: Job, mode: Mode)
    ensures Summarize(jobs + [x], mode) == Add(Summarize(jobs, mode), x, mode)
  {
    assert (jobs + [x])[..|jobs|] == jobs;
  }

  /** Each key's bucket holds the sums over exactly the jobs with that key. */
  lemma {:induction false} BucketsLookup(jobs: seq<Job>, mode: Mode, k: string)
    ensures Get(Buckets(jobs, mode), k) ==
      if Select(jobs, mode, k) == [] then None else Some(Summarize(Select(jobs, mode, k), mode))
    decreases |jobs|
  {
    if jobs != [] {
      var n := |jobs| - 1;
      var init := jobs[..n];
      var x := jobs[n];
      var d := Buckets(init, mode);
      var key := KeyOf(x, mode);
      var sel := Select(init, mode, k);
      BucketsLookup(init, mode, k);
      GetPut(d, key, Add(GetOr(d, key, Empty), x, mode), k);
      if key == k {
        assert Select(jobs, mode, k) == sel + [x];
        assert GetOr(d, key, Empty) == Summarize(sel, mode);
        SummarizeSnoc(sel, x, mode);
      } else {
        assert Select(jobs, mode, k) == sel;
      }
    }
  }

  /** Every bucket has count at least one. */
  lemma BucketsNonEmpty(jobs: seq<Job>, mode: Mode)
    ensures forall i :: 0 <= i < |Buckets(jobs, mode)| ==> Buckets(jobs, mode)[i].1.count >= 1
  {
    var d := Buckets(jobs, mode);
    forall i | 0 <= i < |d| ensures d[i].1.count >= 1 {
      BucketsLookup(jobs, mode, d[i].0);
    }
  }

  function CountSum(d: seq<(string, Bucket)>): nat {
    if d == [] then 0 else d[0].1.count + CountSum(d[1..])
  }

  lemma {:induction false} CountSumUpdate(d: seq<(string, Bucket)>, i: nat, e: (string, Bucket))
    requires i < |d|
    ensures CountSum(d[i := e]) == CountSum(d) - d[i].1.count + e.1.count
  {
    if i > 0 {
      assert d[i := e][1..] == d[1..][i - 1 := e];
      CountSumUpdate(d[1..], i - 1, e);
    }
  }

  lemma {:induction false} CountSumSnoc(d: seq<(string, Bucket)>, e: (string, Bucket))
    ensures CountSum(d + [e]) == CountSum(d) + e.1.count
  {
    if d != [] {
      assert (d + [e])[1..] == d[1..] + [e];
      CountSumSnoc(d[1..], e);
    }
  }

  /** The bucket counts add up to the number of jobs aggregated. */
  lemma {:induction false} BucketsCountAll(jobs: seq<Job>, mode: Mode)
    ensures CountSum(Buckets(jobs, mode)) == |jobs|
    decreases |jobs|
  {
    if jobs != [] {
      var n := |jobs| - 1;
      var d := Buckets(jobs[..n], mode);
      var key := KeyOf(jobs[n], mode);
      var b := Add(GetOr(d, key, Empty), jobs[n], mode);
      BucketsCountAll(jobs[..n], mode);
      match IndexOfKey(d, key)
      case Some(i) =>
        CountSumUpdate(d, i, (key, b));
      case None =>
        CountSumSnoc(d, (key, b));
    }
  }

  // ---------------------------------------------------------------------------
  // Points
  // ---------------------------------------------------------------------------

  datatype MapPoint = MapPoint(name: string, avgSalary: real, lat: real, lng: real)

  /** The mean of one bucket. */
  function PointOf(name: string, b: Bucket): MapPoint
    requires b.count >= 1
  {
    var c := b.count as real;
    MapPoint(name, b.total / c, b.lat / c, b.lng / c)
  }

  /** The point's fields are the bucket's sums divided by its count. */
  predicate MeansOf(p: MapPoint, b: Bucket) {
    var c := b.count as real;
    p.avgSalary * c == b.total && p.lat * c == b.lat && p.lng * c == b.lng
  }

  /** Multiplying a point's means back by the bucket's count gives the bucket's sums. */
  lemma PointMeans(name: string, b: Bucket)
    requires b.count >= 1
    ensures PointOf(name, b).name == name && MeansOf(PointOf(name, b), b)
  {
    var c := b.count as real;
    assert b.total / c * c == b.total;
    assert b.lat / c * c == b.lat;
    assert b.lng / c * c == b.lng;
  }

  /**
   * The response: one point per bucket, in the order keys were first seen, named by the key
   * and carrying the bucket's sums divided by its count; the names are distinct.
   */
  function Points(d: Dict<string, Bucket>): (r: seq<MapPoint>)
    requires forall i :: 0 <= i < |d| ==> d[i].1.count >= 1
    ensures |r| == |d|
    ensures forall i :: 0 <= i < |d| ==> r[i] == PointOf(d[i].0, d[i].1)
    ensures forall i :: 0 <= i < |d| ==> r[i].name == d[i].0 && MeansOf(r[i], d[i].1)
    ensures forall p, q :: 0 <= p < q < |r| ==> r[p].name != r[q].name
  {
    var r := seq(|d|, i requires 0 <= i < |d| && d[i].1.count >= 1 => PointOf(d[i].0, d[i].1));
    assert forall i :: 0 <= i < |d| ==> MeansOf(r[i], d[i].1) by {
      forall i | 0 <= i < |d| ensures MeansOf(r[i], d[i].1) {
        PointMeans(d[i].0, d[i].1);
      }
    }
    r
  }

  /** `get_map`: the 422 validation of the query, then the filters and the aggregation. */
  function GetMap(jobs: seq<Job>, modeText: string, lo: real, hi: Option<real>, q: Option<string>,
                  similar: (string, Job) -> bool): (r: Result<seq<MapPoint>, HttpError>)
    ensures r.Err? <==> ParseMode(modeText).None? || lo < 0.0 || (hi.Some? && hi.value < 0.0)
    ensures r.Err? ==> r.error == Unprocessable
  {
    match ParseMode(modeText)
    case None => Err(Unprocessable)
    case Some(mode) =>
      if lo < 0.0 || (hi.Some? && hi.value < 0.0) then Err(Unprocessable)
      else
        var filtered := Filtered(jobs, lo, hi, q, similar);
        BucketsNonEmpty(filtered, mode);
        Ok(Points(Buckets(filtered, mode)))
  }

  /** Steps 1 and 2: the salary filter, then the similarity filter when `q` is non-empty. */
  function Filtered(jobs: seq<Job>, lo: real, hi: Option<real>, q: Option<string>,
                    similar: (string, Job) -> bool): (r: seq<Job>)
    ensures forall i :: 0 <= i < |r| ==> InRange(r[i], lo, hi)
    ensures forall x :: multiset(r)[x] <= multiset(jobs)[x]
    ensures q.None? || q.value == "" ==> r == SalaryFilter(jobs, lo, hi)
  {
    var s := SalaryFilter(jobs, lo, hi);
    if q.Some? && q.value != "" then
      var t := SimilarFilter(s, q.value, similar);
      forall i | 0 <= i < |t| ensures InRange(t[i], lo, hi) {
        assert multiset(t)[t[i]] > 0;
        assert t[i] in multiset(s);
      }
      t
    else s
  }

  // ---------------------------------------------------------------------------
  // Properties of the response
  // ---------------------------------------------------------------------------

  /** `total` lies between `n` times the lower bound and `n` times the upper bound, when there is one. */
  predicate Bounded(total: real, n: nat, lo: real, hi: Option<real>) {
    lo * n as real <= total && (hi.Some? ==> total <= hi.value * n as real)
  }

  /** The sums over jobs whose salaries lie in a range bound the total by count times the bounds. */
  lemma {:induction false} SummarizeBounds(jobs: seq<Job>, mode: Mode, lo: real, hi: Option<real>)
    requires forall i :: 0 <= i < |jobs| ==> InRange(jobs[i], lo, hi)
    ensures Bounded(Summarize(jobs, mode).total, |jobs|, lo, hi)
    decreases |jobs|
  {
    if jobs != [] {
      var pre, last := jobs[..|jobs| - 1], jobs[|jobs| - 1];
      PrefixInRange(jobs, |jobs| - 1, lo, hi);
      SummarizeBounds(pre, mode, lo, hi);
      SummarizeLast(jobs, mode);
      BoundsStep(Summarize(pre, mode).total, |pre|, |jobs|, last.salary, Summarize(jobs, mode).total, lo, hi);
    }
  }

  lemma SummarizeLast(jobs: seq<Job>, mode: Mode)
    requires jobs != []
    ensures Summarize(jobs, mode).total == Summarize(jobs[..|jobs| - 1], mode).total + jobs[|jobs| - 1].salary
  {
  }

  lemma PrefixInRange(jobs: seq<Job>, n: nat, lo: real, hi: Option<real>)
    requires n <= |jobs| && forall i :: 0 <= i < |jobs| ==> InRange(jobs[i], lo, hi)
    ensures forall i :: 0 <= i < n ==> InRange(jobs[..n][i], lo, hi)
  {
    assert forall i :: 0 <= i < n ==> jobs[..n][i] == jobs[i];
  }

  /** Adding one salary from the range to a total over `n` salaries from it. */
  lemma BoundsStep(total: real, n: nat, m: nat, s: real, sum: real, lo: real, hi: Option<real>)
    requires m == n + 1 && sum == total + s
    requires Bounded(total, n, lo, hi)
    requires lo <= s && (hi.None? || s <= hi.value)
    ensures Bounded(sum, m, lo, hi)
  {
    assert lo * m as real == lo * n as real + lo;
    if hi.Some? {
      assert hi.value * m as real == hi.value * n as real + hi.value;
    }
  }

  /** Selecting by key keeps jobs from the salary range. */
  lemma {:induction false} SelectInRange(jobs: seq<Job>, mode: Mode, k: string, lo: real, hi: Option<real>)
    requires forall i :: 0 <= i < |jobs| ==> InRange(jobs[i], lo, hi)
    ensures forall i :: 0 <= i < |Select(jobs, mode, k)| ==> InRange(Select(jobs, mode, k)[i], lo, hi)
    decreases |jobs|
  {
    if jobs != [] {
      var n := |jobs| - 1;
      assert forall i :: 0 <= i < n ==> jobs[..n][i] == jobs[i];
      SelectInRange(jobs[..n], mode, k, lo, hi);
    }
  }

  lemma MeanBounds(total: real, c: real, lo: real, hi: Option<real>)
    requires c >= 1.0 && lo * c <= total && (hi.Some? ==> total <= hi.value * c)
    ensures lo <= total / c && (hi.Some? ==> total / c <= hi.value)
  {
    assert total / c * c == total;
  }

  /** The points name exactly the keys present, each carrying the means over its jobs. */
  lemma PointsLookup(filtered: seq<Job>, mode: Mode, k: string, ps: seq<MapPoint>)
    requires forall i :: 0 <= i < |Buckets(filtered, mode)| ==> Buckets(filtered, mode)[i].1.count >= 1
    requires ps == Points(Buckets(filtered, mode))
    ensures var sel := Select(filtered, mode, k);
      && (sel == [] <==> forall p :: 0 <= p < |ps| ==> ps[p].name != k)
      && forall p :: 0 <= p < |ps| && ps[p].name == k ==> sel != [] && ps[p] == PointOf(k, Summarize(sel, mode))
  {
    var d := Buckets(filtered, mode);
    var sel := Select(filtered, mode, k);
    BucketsLookup(filtered, mode, k);
    if sel != [] {
      var i :| 0 <= i < |d| && d[i].0 == k;
      assert ps[i].name == k;
      forall p | 0 <= p < |ps| && ps[p].name == k ensures ps[p] == PointOf(k, Summarize(sel, mode)) {
        assert d[p].0 == k;
      }
    } else {
      forall p | 0 <= p < |ps| ensures ps[p].name != k {
        assert d[p].0 != k;
      }
    }
  }

  /** The mean salary over jobs from the salary range lies in that range. */
  lemma MeanInRange(sel: seq<Job>, mode: Mode, k: string, lo: real, hi: Option<real>)
    requires forall i :: 0 <= i < |sel| ==> InRange(sel[i], lo, hi)
    requires sel != []
    ensures var m := PointOf(k, Summarize(sel, mode)).avgSalary;
      lo <= m && (hi.Some? ==> m <= hi.value)
  {
    var b := Summarize(sel, mode);
    SummarizeBounds(sel, mode, lo, hi);
    assert b.count as real == |sel| as real;
    MeanBounds(b.total, b.count as real, lo, hi);
  }

  /**
   * The response of a valid request: one point per distinct key among the filtered jobs,
   * whose fields are the means over exactly the filtered jobs with that key, so the mean
   * salary lies in the requested range.
   */
  lemma GetMapPoints(jobs: seq<Job>, modeText: string, lo: real, hi: Option<real>, q: Option<string>,
                     similar: (string, Job) -> bool, k: string, r: Result<seq<MapPoint>, HttpError>)
    requires r == GetMap(jobs, modeText, lo, hi, q, similar) && r.Ok?
    ensures var mode := ParseMode(modeText).value;
      var sel := Select(Filtered(jobs, lo, hi, q, similar), mode, k);
      && (sel == [] <==> forall p :: 0 <= p < |r.value| ==> r.value[p].name != k)
      && forall p :: 0 <= p < |r.value| && r.value[p].name == k ==>
           && sel != []
           && r.value[p] == PointOf(k, Summarize(sel, mode))
           && lo <= r.value[p].avgSalary
           && (hi.Some? ==> r.value[p].avgSalary <= hi.value)
  {
    var mode := ParseMode(modeText).value;
    var filtered := Filtered(jobs, lo, hi, q, similar);
    BucketsNonEmpty(filtered, mode);
    assert r.value == Points(Buckets(filtered, mode));
    PointsLookup(filtered, mode, k, r.value);
    SelectInRange(filtered, mode, k, lo, hi);
    PointsInRange(r.value, Select(filtered, mode, k), mode, k, lo, hi);
  }

  /** Points that carry the means over jobs from the salary range have their mean salary in it. */
  lemma PointsInRange(ps: seq<MapPoint>, sel: seq<Job>, mode: Mode, k: string, lo: real, hi: Option<real>)
    requires forall i :: 0 <= i < |sel| ==> InRange(sel[i], lo, hi)
    requires forall p :: 0 <= p < |ps| && ps[p].name == k ==> sel != [] && ps[p] == PointOf(k, Summarize(sel, mode))
    ensures forall p :: 0 <= p < |ps| && ps[p].name == k ==>
      lo <= ps[p].avgSalary && (hi.Some? ==> ps[p].avgSalary <= hi.value)
  {
    if sel != [] {
      MeanInRange(sel, mode, k, lo, hi);
    }
  }

  /** Point names are distinct. */
  lemma GetMapNamesDistinct(jobs: seq<Job>, modeText: string, lo: real, hi: Option<real>, q: Option<string>,
                            similar: (string, Job) -> bool)
    requires GetMap(jobs, modeText, lo, hi, q, similar).Ok?
    ensures var ps := GetMap(jobs, modeText, lo, hi, q, similar).value;
      forall p, p' :: 0 <= p < p' < |ps| ==> ps[p].name != ps[p'].name
  {
  }
}
