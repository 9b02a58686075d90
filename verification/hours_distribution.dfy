/**
 * `distribute_weekly_hours` and `split_hours_round_robin`: spreading a week's study
 * hours over the learning days in half-hour steps, moving an hour off each weekend day
 * that has more than 1.5 h onto weekdays, and capping every day at 10 h.
 *
 * Hours are counted in half hours (`nat`); an allocation maps each active day to its
 * half-hour count.
 */
module HoursDistribution {
  import opened Wrappers
  import opened Calendar
  import Numeric

  /** A Python dict `{day_name: is_active}`: distinct keys in insertion order. */
  type LearningDays = ld: seq<(Weekday, bool)> | DistinctKeys(ld) witness []

  predicate DistinctKeys(ld: seq<(Weekday, bool)>) {
    forall i, j :: 0 <= i < j < |ld| ==> ld[i].0 != ld[j].0
  }

  predicate Distinct<T(==)>(s: seq<T>) {
    forall i, j :: 0 <= i < j < |s| ==> s[i] != s[j]
  }

  /** `learning_days.get(day)` is truthy. */
  predicate IsLearningDay(ld: LearningDays, day: Weekday) {
    (day, true) in ld
  }

  /** `[day for day, active in learning_days.items() if active]` */
  function ActiveDays(ld: LearningDays): (r: seq<Weekday>)
    ensures forall d :: d in r <==> IsLearningDay(ld, d)
    ensures Distinct(r)
  {
    if ld == [] then []
    else
      var rest := ActiveDays(ld[1..]);
      assert ld[0].0 !in rest;
      if ld[0].1 then [ld[0].0] + rest else rest
  }

  /** Half hours per active day. */
  type Allocation = map<Weekday, nat>

  /** The daily cap of 10 hours, in half hours. */
  const Cap: nat := 20

  /** How often `while remaining >= 0.5: remaining -= 0.5` runs, starting from `hours`. */
  function Halves(hours: real): (n: nat)
    ensures hours < 0.5 ==> n == 0
    ensures hours >= 0.5 ==> n as real * 0.5 <= hours < (n + 1) as real * 0.5
  {
    if hours < 0.5 then 0 else (2.0 * hours).Floor
  }

  /** The number of half hours key `k` of `len` round-robin keys receives out of `t`. */
  function Share(t: nat, len: nat, k: nat): nat
    requires len > 0
  {
    t / len + (if k < t % len then 1 else 0)
  }

  lemma ModStep(t: nat, len: nat)
    requires len > 0
    ensures (t + 1) % len == (t % len + 1) % len
    ensures t % len + 1 < len ==> (t + 1) % len == t % len + 1
    ensures t % len + 1 == len ==> (t + 1) % len == 0
  {
    var q, r := t / len, t % len;
    if r + 1 < len {
      Numeric.DivModUnique(t + 1, len, q, r + 1);
      Numeric.DivModUnique(r + 1, len, 0, r + 1);
    } else {
      Numeric.DivModUnique(t + 1, len, q + 1, 0);
      Numeric.DivModUnique(r + 1, len, 1, 0);
    }
  }

  lemma ShareStep(t: nat, len: nat, k: nat)
    requires len > 0 && k < len
    ensures Share(t + 1, len, k) == Share(t, len, k) + (if t % len == k then 1 else 0)
  {
    var q, r := t / len, t % len;
    if r + 1 < len {
      Numeric.DivModUnique(t + 1, len, q, r + 1);
    } else {
      Numeric.DivModUnique(t + 1, len, q + 1, 0);
    }
  }

  /**
   * The allocation after handing out `t` half hours one at a time to `keys[0]`,
   * `keys[1]`, ... cyclically, on top of `a`.
   */
  function Fill<K(==)>(a: map<K, nat>, keys: seq<K>, t: nat): (r: map<K, nat>)
    requires |keys| > 0 && forall k :: k in keys ==> k in a
    ensures r.Keys == a.Keys
    ensures forall k :: k in a && k !in keys ==> r[k] == a[k]
  {
    if t == 0 then a
    else
      var b := Fill(a, keys, t - 1);
      var k := keys[(t - 1) % |keys|];
      b[k := b[k] + 1]
  }

  /** Round robin gives every key its share: the first `t % len` keys one more than the rest. */
  lemma {:induction false} FillShare<K>(a: map<K, nat>, keys: seq<K>, t: nat, i: nat)
    requires |keys| > 0 && forall k :: k in keys ==> k in a
    requires Distinct(keys) && i < |keys|
    ensures Fill(a, keys, t)[keys[i]] == a[keys[i]] + Share(t, |keys|, i)
  {
    if t > 0 {
      FillShare(a, keys, t - 1, i);
      ShareStep(t - 1, |keys|, i);
      var j := (t - 1) % |keys|;
      var b := Fill(a, keys, t - 1);
      assert Fill(a, keys, t) == b[keys[j] := b[keys[j]] + 1];
      assert keys[j] == keys[i] <==> j == i;
    }
  }

  /** Sum of the allocation over `days`. */
  function Total<K(==)>(a: map<K, nat>, days: seq<K>): nat
    requires forall d :: d in days ==> d in a
  {
    if days == [] then 0 else a[days[0]] + Total(a, days[1..])
  }

  lemma {:induction false} TotalUpdate<K>(a: map<K, nat>, days: seq<K>, k: K, v: nat)
    requires forall d :: d in days ==> d in a
    requires Distinct(days) && k in a
    ensures k in days ==> Total(a[k := v], days) == Total(a, days) - a[k] + v
    ensures k !in days ==> Total(a[k := v], days) == Total(a, days)
  {
    if days != [] {
      TotalUpdate(a, days[1..], k, v);
    }
  }

  lemma {:induction false} FillTotal<K>(a: map<K, nat>, keys: seq<K>, t: nat, days: seq<K>)
    requires |keys| > 0 && forall k :: k in keys ==> k in days
    requires forall d :: d in days ==> d in a
    requires Distinct(days)
    ensures Total(Fill(a, keys, t), days) == Total(a, days) + t
  {
    if t > 0 {
      FillTotal(a, keys, t - 1, days);
      FillOneMore(a, keys, t, days);
    }
  }

  /** The `t`-th half hour of round robin raises the total by one. */
  lemma FillOneMore<K>(a: map<K, nat>, keys: seq<K>, t: nat, days: seq<K>)
    requires |keys| > 0 && forall k :: k in keys ==> k in days
    requires forall d :: d in days ==> d in a
    requires Distinct(days) && t > 0
    requires Total(Fill(a, keys, t - 1), days) == Total(a, days) + (t - 1)
    ensures Total(Fill(a, keys, t), days) == Total(a, days) + t
  {
    var b := Fill(a, keys, t - 1);
    var k := keys[(t - 1) % |keys|];
    assert Fill(a, keys, t) == b[k := b[k] + 1];
    TotalIncrement(b, days, k);
  }

  /** One more half hour on a counted day adds one to the total. */
  lemma TotalIncrement<K>(a: map<K, nat>, days: seq<K>, k: K)
    requires forall d :: d in days ==> d in a
    requires Distinct(days) && k in days
    ensures Total(a[k := a[k] + 1], days) == Total(a, days) + 1
  {
    TotalUpdate(a, days, k, a[k] + 1);
  }

  lemma {:induction false} TotalAtMost<K>(a: map<K, nat>, days: seq<K>, bound: nat)
    requires forall d :: d in days ==> d in a && a[d] <= bound
    ensures Total(a, days) <= bound * |days|
  {
    if days != [] {
      TotalAtMost(a, days[1..], bound);
    }
  }

  lemma {:induction false} TotalAtLeast<K>(a: map<K, nat>, days: seq<K>, bound: nat)
    requires forall d :: d in days ==> d in a && a[d] >= bound
    ensures Total(a, days) >= bound * |days|
  {
    if days != [] {
      TotalAtLeast(a, days[1..], bound);
    }
  }

  function Zero(days: seq<Weekday>): (r: Allocation)
    ensures forall d :: d in r <==> d in days
  {
    map d | d in days :: 0
  }

  /** Step 1: every active day starts at 0 and receives half hours round robin. */
  function Step1(n: nat, active: seq<Weekday>): (r: Allocation)
    requires active != [] || n == 0
    ensures forall d :: d in r <==> d in active
  {
    if active == [] then Zero(active) else Fill(Zero(active), active, n)
  }

  /** Step 2 for one weekend day: take an hour away when the day has more than 1.5 h. */
  function TrimDay(a: Allocation, day: Weekday, t: nat): (Allocation, nat) {
    if day in a && a[day] > 3 then (a[day := a[day] - 2], t + 2) else (a, t)
  }

  /** Step 2: Saturday first, then Sunday; returns the allocation and the half hours freed. */
  function Step2(a: Allocation): (r: (Allocation, nat))
    ensures r.0.Keys == a.Keys
  {
    var (b, t) := TrimDay(a, Saturday, 0);
    TrimDay(b, Sunday, t)
  }

  /** `[d for d in active_days if d not in ["Saturday", "Sunday"]]` */
  function Weekdays(active: seq<Weekday>): (r: seq<Weekday>)
    ensures forall d :: d in r <==> d in active && !IsWeekend(d)
  {
    if active == [] then []
    else (if IsWeekend(active[0]) then [] else [active[0]]) + Weekdays(active[1..])
  }

  /**
   * Step 3: offer the freed half hours to the weekdays round robin; a weekday at the cap
   * counts a failure, and the pass stops once the failures reach the number of weekdays.
   */
  function Transfer(a: Allocation, wd: seq<Weekday>, t: nat, j: nat, failed: nat): (r: (Allocation, nat))
    requires forall d :: d in wd ==> d in a
    requires wd == [] || failed < |wd|
    ensures r.0.Keys == a.Keys && r.1 <= t
    decreases t + |wd| - failed
  {
    if t >= 1 && wd != [] then
      var d := wd[j % |wd|];
      var placed := a[d] + 1 <= Cap;
      var a' := if placed then a[d := a[d] + 1] else a;
      var t' := if placed then t - 1 else t;
      var failed' := if placed then failed else failed + 1;
      if failed' >= |wd| then (a', t') else Transfer(a', wd, t', j + 1, failed')
    else (a, t)
  }

  /**
   * `r` only raises the days in `wd`, never above the cap unless they started above it, and
   * leaves every other day of `a` alone.
   */
  predicate RaisedWithin(a: Allocation, r: Allocation, wd: seq<Weekday>)
    requires forall d :: d in wd ==> d in a
    requires r.Keys == a.Keys
  {
    && (forall d :: d in a && d !in wd ==> r[d] == a[d])
    && (forall d :: d in wd ==> a[d] <= r[d] <= Numeric.Max(a[d], Cap))
  }

  /** Adding a half hour to a weekday under the cap before raising it keeps the bounds. */
  lemma RaisedWithinPlaced(a: Allocation, d: Weekday, r: Allocation, wd: seq<Weekday>)
    requires forall e :: e in wd ==> e in a
    requires r.Keys == a.Keys && d in wd && a[d] + 1 <= Cap
    requires RaisedWithin(a[d := a[d] + 1], r, wd)
    ensures RaisedWithin(a, r, wd)
  {
  }

  /** Step 3 raises only weekdays and keeps them within the bounds `RaisedWithin` sets. */
  lemma {:induction false} TransferBounds(a: Allocation, wd: seq<Weekday>, t: nat, j: nat, failed: nat)
    requires forall d :: d in wd ==> d in a
    requires wd == [] || failed < |wd|
    ensures RaisedWithin(a, Transfer(a, wd, t, j, failed).0, wd)
    decreases t + |wd| - failed
  {
    if t >= 1 && wd != [] {
      var d := wd[j % |wd|];
      if a[d] + 1 <= Cap {
        var a' := a[d := a[d] + 1];
        TransferBounds(a', wd, t - 1, j + 1, failed);
        assert Transfer(a, wd, t, j, failed) == Transfer(a', wd, t - 1, j + 1, failed);
        RaisedWithinPlaced(a, d, Transfer(a', wd, t - 1, j + 1, failed).0, wd);
      } else if failed + 1 < |wd| {
        TransferBounds(a, wd, t, j + 1, failed + 1);
        assert Transfer(a, wd, t, j, failed) == Transfer(a, wd, t, j + 1, failed + 1);
      } else {
        assert Transfer(a, wd, t, j, failed) == (a, t);
      }
    }
  }

  /** Step 3 moves nothing when every weekday is already at the cap. */
  lemma {:induction false} TransferAllFull(a: Allocation, wd: seq<Weekday>, t: nat, j: nat, failed: nat)
    requires forall d :: d in wd ==> d in a && a[d] >= Cap
    requires wd == [] || failed < |wd|
    ensures Transfer(a, wd, t, j, failed) == (a, t)
    decreases |wd| - failed
  {
    if t >= 1 && wd != [] && failed + 1 < |wd| {
      TransferAllFull(a, wd, t, j + 1, failed + 1);
    }
  }

  lemma {:induction false} TransferTotal(a: Allocation, wd: seq<Weekday>, t: nat, j: nat, failed: nat, days: seq<Weekday>)
    requires forall d :: d in wd ==> d in days
    requires forall d :: d in days ==> d in a
    requires Distinct(days)
    requires wd == [] || failed < |wd|
    ensures var r := Transfer(a, wd, t, j, failed); Total(r.0, days) + r.1 == Total(a, days) + t
    decreases t + |wd| - failed
  {
    if t >= 1 && wd != [] {
      var d := wd[j % |wd|];
      if a[d] + 1 <= Cap {
        var a' := a[d := a[d] + 1];
        TotalUpdate(a, days, d, a[d] + 1);
        assert Total(a', days) + (t - 1) == Total(a, days) + t;
        if failed < |wd| {
          TransferTotal(a', wd, t - 1, j + 1, failed, days);
          assert Transfer(a, wd, t, j, failed) == Transfer(a', wd, t - 1, j + 1, failed);
        }
      } else if failed + 1 < |wd| {
        TransferTotal(a, wd, t, j + 1, failed + 1, days);
        assert Transfer(a, wd, t, j, failed) == Transfer(a, wd, t, j + 1, failed + 1);
      }
    }
  }

  /** `[d for d in ["Saturday", "Sunday"] if d in active_days]` */
  function WeekendDays(active: seq<Weekday>): (r: seq<Weekday>)
    ensures Distinct(r) && |r| <= 2
    ensures forall d :: d in r <==> d in active && IsWeekend(d)
  {
    (if Saturday in active then [Saturday] else []) + (if Sunday in active then [Sunday] else [])
  }

  /** Step 4: half hours no weekday could take go back to the weekend days round robin. */
  function Step4(a: Allocation, active: seq<Weekday>, t: nat): (r: Allocation)
    requires forall d :: d in active ==> d in a
    ensures r.Keys == a.Keys
  {
    var wk := WeekendDays(active);
    if t >= 1 && wk != [] then Fill(a, wk, t) else a
  }

  /** Step 5: every day is cut down to the cap. */
  function CapAll(a: Allocation): (r: Allocation)
    ensures r.Keys == a.Keys
    ensures forall d :: d in r ==> r[d] == Numeric.Min(a[d], Cap)
  {
    map d | d in a :: Numeric.Min(a[d], Cap)
  }

  /** The half hours step 5 cuts off. */
  function Overflow(a: Allocation, days: seq<Weekday>): nat
    requires forall d :: d in days ==> d in a
  {
    if days == [] then 0 else Numeric.Max(a[days[0]] - Cap, 0) + Overflow(a, days[1..])
  }

  /** Steps 2 to 4 applied to the outcome of step 1. */
  function Rebalance(a1: Allocation, active: seq<Weekday>): (r: Allocation)
    requires forall d :: d in a1 <==> d in active
    ensures r.Keys == a1.Keys
  {
    var (a2, t2) := Step2(a1);
    var (a3, t3) := Transfer(a2, Weekdays(active), t2, 0, 0);
    Step4(a3, active, t3)
  }

  /** Steps 1 to 4: the allocation before the cap. */
  function BeforeCap(n: nat, active: seq<Weekday>): (r: Allocation)
    requires Distinct(active) && (active != [] || n == 0)
    ensures forall d :: d in r <==> d in active
  {
    Rebalance(Step1(n, active), active)
  }

  datatype DistributeError = DivisionByZero

  /**
   * `distribute_weekly_hours(weekly_hours, learning_days)`: half hours per active day.
   * Fails like the source's `i % len(active_days)` when there is time to hand out but no
   * active day. The refill of cut-off hours (task_generator.py:62-70) is absent because it can never
   * place anything: see `NothingUnderCapAfterOverflow`.
   */
  function Distribute(weeklyHours: real, ld: LearningDays): (r: Result<Allocation, DistributeError>)
    ensures r.Err? <==> Halves(weeklyHours) > 0 && ActiveDays(ld) == []
    ensures r.Ok? ==> forall d :: d in r.value <==> IsLearningDay(ld, d)
    ensures r.Ok? ==> forall d :: d in r.value ==> r.value[d] <= Cap
    ensures r.Ok? ==> Total(r.value, ActiveDays(ld)) == Numeric.Min(Halves(weeklyHours), Cap * |ActiveDays(ld)|)
  {
    var n := Halves(weeklyHours);
    var active := ActiveDays(ld);
    if n > 0 && active == [] then Err(DivisionByZero)
    else
      var a4 := BeforeCap(n, active);
      CappedTotal(n, active);
      Ok(CapAll(a4))
  }

  /** Every day after step 1 holds `n / m` or `n / m + 1` half hours. */
  lemma Step1Balanced(n: nat, active: seq<Weekday>, d: Weekday)
    requires Distinct(active) && d in active
    ensures n / |active| <= Step1(n, active)[d] <= n / |active| + 1
  {
    var i :| 0 <= i < |active| && active[i] == d;
    FillShare(Zero(active), active, n, i);
  }

  lemma Step1Total(n: nat, active: seq<Weekday>)
    requires Distinct(active) && (active != [] || n == 0)
    ensures Total(Step1(n, active), active) == n
  {
    if active != [] {
      FillTotal(Zero(active), active, n, active);
      TotalZero(active);
    }
  }

  lemma {:induction false} TotalZero(days: seq<Weekday>)
    ensures Total(Zero(days), days) == 0
  {
    if days != [] {
      TotalSubset(Zero(days), days[1..]);
    }
  }

  lemma {:induction false} TotalSubset(a: Allocation, days: seq<Weekday>)
    requires forall d :: d in days ==> d in a && a[d] == 0
    ensures Total(a, days) == 0
  {
    if days != [] {
      TotalSubset(a, days[1..]);
    }
  }

  lemma TrimDayTotal(a: Allocation, day: Weekday, t: nat, active: seq<Weekday>)
    requires forall d :: d in a <==> d in active
    requires Distinct(active)
    ensures var (b, u) := TrimDay(a, day, t); Total(b, active) + u == Total(a, active) + t
  {
    if day in a && a[day] > 3 {
      TotalUpdate(a, active, day, a[day] - 2);
    }
  }

  /** Step 2 only sets hours aside: what it takes off the weekend it returns as freed time. */
  lemma Step2Total(a: Allocation, active: seq<Weekday>)
    requires forall d :: d in a <==> d in active
    requires Distinct(active)
    ensures var (a2, t2) := Step2(a); Total(a2, active) + t2 == Total(a, active)
  {
    TrimDayTotal(a, Saturday, 0, active);
    var (b, t) := TrimDay(a, Saturday, 0);
    TrimDayTotal(b, Sunday, t, active);
  }

  /** Steps 2 to 4 only move half hours between days. */
  lemma RebalanceTotal(a1: Allocation, active: seq<Weekday>)
    requires forall d :: d in a1 <==> d in active
    requires Distinct(active)
    ensures Total(Rebalance(a1, active), active) == Total(a1, active)
  {
    var (a2, t2) := Step2(a1);
    Step2Total(a1, active);
    Step2Effect(a1, active);
    var wd := Weekdays(active);
    TransferTotal(a2, wd, t2, 0, 0, active);
    var (a3, t3) := Transfer(a2, wd, t2, 0, 0);
    var wk := WeekendDays(active);
    if t3 >= 1 && wk != [] {
      FillTotal(a3, wk, t3, active);
    }
    assert Rebalance(a1, active) == Step4(a3, active, t3);
  }

  lemma BeforeCapTotal(n: nat, active: seq<Weekday>)
    requires Distinct(active) && (active != [] || n == 0)
    ensures Total(BeforeCap(n, active), active) == n
  {
    Step1Total(n, active);
    RebalanceTotal(Step1(n, active), active);
  }

  /** What step 2 does to each day, and how much it frees. */
  lemma Step2Effect(a: Allocation, active: seq<Weekday>)
    requires forall d :: d in a <==> d in active
    ensures var (a2, t2) := Step2(a);
      && (forall d :: d in a && !IsWeekend(d) ==> a2[d] == a[d])
      && (forall d :: d in a && IsWeekend(d) ==> a2[d] == if a[d] > 3 then a[d] - 2 else a[d])
      && t2 <= 2 * |WeekendDays(active)|
      && ((forall d :: d in a && IsWeekend(d) ==> a[d] > 3) ==> t2 == 2 * |WeekendDays(active)|)
  {
  }

  /** Steps 2 and 3: the allocation and the half hours left for step 4. */
  function Moved(a1: Allocation, active: seq<Weekday>): (r: (Allocation, nat))
    requires forall d :: d in a1 <==> d in active
    ensures r.0.Keys == a1.Keys
  {
    var (a2, t2) := Step2(a1);
    Transfer(a2, Weekdays(active), t2, 0, 0)
  }

  lemma RebalanceMoved(a1: Allocation, active: seq<Weekday>)
    requires forall d :: d in a1 <==> d in active
    ensures Rebalance(a1, active) == Step4(Moved(a1, active).0, active, Moved(a1, active).1)
  {
  }

  /** Step 4 completes every weekend day that misses at most two half hours when two per weekend day are left. */
  lemma Step4Full(a: Allocation, active: seq<Weekday>, t: nat)
    requires forall d :: d in active ==> d in a
    requires forall d :: d in a && d !in WeekendDays(active) ==> a[d] >= Cap
    requires forall d :: d in WeekendDays(active) ==> a[d] + 2 >= Cap
    requires t == 2 * |WeekendDays(active)|
    ensures forall d :: d in a ==> Step4(a, active, t)[d] >= Cap
  {
    var wk := WeekendDays(active);
    if wk != [] {
      forall d | d in wk ensures Fill(a, wk, t)[d] >= Cap {
        var i :| 0 <= i < |wk| && wk[i] == d;
        FillShare(a, wk, t, i);
        Numeric.DivModUnique(2 * |wk|, |wk|, 2, 0);
      }
    }
  }

  /** With every day at 10 h or more, steps 2 and 3 take two half hours off each weekend day and place none. */
  lemma MovedFull(a1: Allocation, active: seq<Weekday>)
    requires forall d :: d in a1 <==> d in active
    requires forall d :: d in a1 ==> a1[d] >= Cap
    ensures var m := Moved(a1, active);
      && m.1 == 2 * |WeekendDays(active)|
      && (forall d :: d in m.0 && d !in WeekendDays(active) ==> m.0[d] >= Cap)
      && (forall d :: d in WeekendDays(active) ==> m.0[d] + 2 >= Cap)
  {
    var s := Step2(a1);
    Step2Full(a1, active);
    TransferAllFull(s.0, Weekdays(active), s.1, 0, 0);
    assert Moved(a1, active) == Transfer(s.0, Weekdays(active), s.1, 0, 0);
  }

  /** With every day at 10 h or more, step 2 frees two half hours on each weekend day. */
  lemma Step2Full(a1: Allocation, active: seq<Weekday>)
    requires forall d :: d in a1 <==> d in active
    requires forall d :: d in a1 ==> a1[d] >= Cap
    ensures var s := Step2(a1);
      && s.1 == 2 * |WeekendDays(active)|
      && (forall d :: d in s.0 && !IsWeekend(d) ==> s.0[d] >= Cap)
      && (forall d :: d in WeekendDays(active) ==> s.0[d] + 2 >= Cap)
  {
    Step2Effect(a1, active);
  }

  /** When step 1 gave every day at least 10 h, steps 2 to 4 leave every day at least there. */
  lemma RebalanceFull(a1: Allocation, active: seq<Weekday>)
    requires forall d :: d in a1 <==> d in active
    requires forall d :: d in a1 ==> a1[d] >= Cap
    ensures forall d :: d in a1 ==> Rebalance(a1, active)[d] >= Cap
  {
    MovedFull(a1, active);
    var m := Moved(a1, active);
    Step4Full(m.0, active, m.1);
    RebalanceMoved(a1, active);
  }

  /** Returning at most two half hours per weekend day. */
  lemma ShareAtMostTwo(t: nat, len: nat, i: nat)
    requires 1 <= len <= 2 && t <= 2 * len && i < len
    ensures Share(t, len, i) <= 2
  {
    if len == 2 {
      assert t / 2 <= 2;
    }
  }

  /** Step 4 keeps every day within 10 h when each weekend day has room for two more half hours. */
  lemma Step4WithinCap(a: Allocation, active: seq<Weekday>, t: nat)
    requires forall d :: d in active ==> d in a
    requires forall d :: d in a ==> a[d] <= Cap
    requires forall d :: d in WeekendDays(active) ==> a[d] + 2 <= Cap
    requires t <= 2 * |WeekendDays(active)|
    ensures forall d :: d in a ==> Step4(a, active, t)[d] <= Cap
  {
    var wk := WeekendDays(active);
    if t >= 1 && wk != [] {
      forall d | d in wk ensures Fill(a, wk, t)[d] <= Cap {
        var i :| 0 <= i < |wk| && wk[i] == d;
        FillShare(a, wk, t, i);
        ShareAtMostTwo(t, |wk|, i);
      }
    }
  }

  /**
   * With every day at 10 h or less, steps 2 and 3 keep every day there, leave each weekend
   * day two half hours of room, and hold back at most two half hours per weekend day.
   */
  lemma MovedWithinCap(a1: Allocation, active: seq<Weekday>)
    requires forall d :: d in a1 <==> d in active
    requires forall d :: d in a1 ==> a1[d] <= Cap
    ensures var m := Moved(a1, active);
      && m.1 <= 2 * |WeekendDays(active)|
      && (forall d :: d in m.0 ==> m.0[d] <= Cap)
      && (forall d :: d in WeekendDays(active) ==> m.0[d] + 2 <= Cap)
  {
    var s := Step2(a1);
    var wd := Weekdays(active);
    var r := Transfer(s.0, wd, s.1, 0, 0);
    Step2WithinCap(a1, active);
    TransferBounds(s.0, wd, s.1, 0, 0);
    forall d | d in r.0 ensures r.0[d] <= Cap && (IsWeekend(d) ==> r.0[d] == s.0[d]) {
      if d in wd {
        assert r.0[d] <= Numeric.Max(s.0[d], Cap);
      }
    }
    assert Moved(a1, active) == r;
  }

  /** With every day at 10 h or less, step 2 leaves each weekend day two half hours of room. */
  lemma Step2WithinCap(a1: Allocation, active: seq<Weekday>)
    requires forall d :: d in a1 <==> d in active
    requires forall d :: d in a1 ==> a1[d] <= Cap
    ensures var s := Step2(a1);
      && s.1 <= 2 * |WeekendDays(active)|
      && (forall d :: d in s.0 ==> s.0[d] <= Cap)
      && (forall d :: d in WeekendDays(active) ==> s.0[d] + 2 <= Cap)
  {
    Step2Effect(a1, active);
  }

  /** When step 1 gave every day at most 10 h, steps 2 to 4 keep every day within 10 h. */
  lemma RebalanceWithinCap(a1: Allocation, active: seq<Weekday>)
    requires forall d :: d in a1 <==> d in active
    requires forall d :: d in a1 ==> a1[d] <= Cap
    ensures forall d :: d in a1 ==> Rebalance(a1, active)[d] <= Cap
  {
    MovedWithinCap(a1, active);
    var m := Moved(a1, active);
    Step4WithinCap(m.0, active, m.1);
    RebalanceMoved(a1, active);
  }

  /**
   * After step 4 either no day is above the cap or no day is below it: step 1 hands out
   * `n / m` or `n / m + 1` half hours per day, so either every day is within 10 h or every
   * day has at least 10 h.
   */
  lemma CapDichotomy(n: nat, active: seq<Weekday>)
    requires Distinct(active) && (active != [] || n == 0)
    ensures var a4 := BeforeCap(n, active);
      (forall d :: d in a4 ==> a4[d] <= Cap) || (forall d :: d in a4 ==> a4[d] >= Cap)
  {
    if active != [] {
      var q := n / |active|;
      var a1 := Step1(n, active);
      forall d | d in active ensures q <= a1[d] <= q + 1 {
        Step1Balanced(n, active, d);
      }
      if q >= Cap {
        RebalanceFull(a1, active);
      } else {
        RebalanceWithinCap(a1, active);
      }
    }
  }

  /** Capping an allocation that is entirely within or entirely above the cap. */
  lemma CapTotal(a: Allocation, active: seq<Weekday>)
    requires forall d :: d in a <==> d in active
    requires (forall d :: d in a ==> a[d] <= Cap) || (forall d :: d in a ==> a[d] >= Cap)
    ensures Total(CapAll(a), active) == Numeric.Min(Total(a, active), Cap * |active|)
  {
    var c := CapAll(a);
    if forall d :: d in a ==> a[d] <= Cap {
      assert c == a;
      TotalAtMost(a, active, Cap);
    } else {
      TotalAtMost(c, active, Cap);
      TotalAtLeast(c, active, Cap);
      TotalAtLeast(a, active, Cap);
    }
  }

  lemma CappedTotal(n: nat, active: seq<Weekday>)
    requires Distinct(active) && (active != [] || n == 0)
    ensures Total(CapAll(BeforeCap(n, active)), active) == Numeric.Min(n, Cap * |active|)
  {
    BeforeCapTotal(n, active);
    CapDichotomy(n, active);
    CapTotal(BeforeCap(n, active), active);
  }

  /**
   * Whenever step 5 cuts anything off, no day is left under the cap, so the list of
   * under-cap days the refill loop walks is empty and the loop places nothing.
   */
  lemma NothingUnderCapAfterOverflow(n: nat, active: seq<Weekday>)
    requires Distinct(active) && (active != [] || n == 0)
    ensures var a4 := BeforeCap(n, active);
      Overflow(a4, active) > 0 ==> forall d :: d in active ==> CapAll(a4)[d] == Cap
  {
    var a4 := BeforeCap(n, active);
    CapDichotomy(n, active);
    if forall d :: d in a4 ==> a4[d] <= Cap {
      NoOverflow(a4, active);
    }
  }

  lemma {:induction false} NoOverflow(a: Allocation, days: seq<Weekday>)
    requires forall d :: d in days ==> d in a && a[d] <= Cap
    ensures Overflow(a, days) == 0
  {
    if days != [] {
      NoOverflow(a, days[1..]);
    }
  }

  /** Once the remaining hours drop below half an hour, the loop has run `Halves` times. */
  lemma HalvesAtExit(hours: real, remaining: real, i: nat)
    requires remaining == hours - 0.5 * i as real && remaining < 0.5
    requires i == 0 || remaining >= 0.0
    ensures i == Halves(hours)
  {
    if i > 0 {
      assert i as real <= 2.0 * hours < i as real + 1.0;
    }
  }

  /** Taking half an hour off lowers the loop measure by one. */
  lemma HalfHourStep(remaining: real)
    requires remaining >= 0.5
    ensures (2.0 * (remaining - 0.5)).Floor == (2.0 * remaining).Floor - 1 >= 0
  {
    assert 2.0 * (remaining - 0.5) == 2.0 * remaining - 1.0;
  }

  /**
   * Step 1 as the source writes it: a loop on the remaining hours that hands half hours
   * out round robin, failing when there is no active day to hand them to.
   */
  method RoundRobinStep(weeklyHours: real, active: seq<Weekday>) returns (r: Result<Allocation, DistributeError>)
    ensures r.Err? <==> Halves(weeklyHours) > 0 && active == []
    ensures r.Ok? ==> r.value == Step1(Halves(weeklyHours), active)
  {
    var a := Zero(active);
    var remaining := weeklyHours;
    var i: nat := 0;
    while remaining >= 0.5
      invariant remaining == weeklyHours - 0.5 * i as real
      invariant i == 0 || remaining >= 0.0
      invariant i > 0 ==> active != []
      invariant a == Step1(i, active)
      decreases (2.0 * remaining).Floor
    {
      if active == [] {
        return Err(DivisionByZero);
      }
      var day := active[i % |active|];
      a := a[day := a[day] + 1];
      HalfHourStep(remaining);
      remaining := remaining - 0.5;
      i := i + 1;
    }
    HalvesAtExit(weeklyHours, remaining, i);
    return Ok(a);
  }

  /**
   * `split_hours_round_robin(total_hours, num_blocks)`: half hours per block, the first
   * blocks one more than the rest; with no block to fill, the source's `blocks[0]` fails.
   */
  method SplitHoursRoundRobin(totalHours: real, numBlocks: nat) returns (r: Option<seq<nat>>)
    ensures r.None? <==> numBlocks == 0 && Halves(totalHours) > 0
    ensures r.Some? ==> |r.value| == numBlocks
    ensures r.Some? ==> forall k :: 0 <= k < numBlocks ==> r.value[k] == Share(Halves(totalHours), numBlocks, k)
  {
    var blocks := seq(numBlocks, _ => 0);
    var remaining := totalHours;
    var i := 0;
    ghost var handed: nat := 0;
    while remaining >= 0.5
      invariant remaining == totalHours - 0.5 * handed as real
      invariant handed == 0 || remaining >= 0.0
      invariant |blocks| == numBlocks
      invariant handed > 0 ==> numBlocks > 0
      invariant numBlocks > 0 ==> i == handed % numBlocks
      invariant numBlocks > 0 ==> forall k :: 0 <= k < numBlocks ==> blocks[k] == Share(handed, numBlocks, k)
      decreases (2.0 * remaining).Floor
    {
      if numBlocks == 0 {
        return None;
      }
      blocks := blocks[i := blocks[i] + 1];
      forall k | 0 <= k < numBlocks
        ensures blocks[k] == Share(handed + 1, numBlocks, k)
      {
        ShareStep(handed, numBlocks, k);
      }
      HalfHourStep(remaining);
      remaining := remaining - 0.5;
      ModStep(handed, numBlocks);
      ModStep(i, numBlocks);
      i := (i + 1) % numBlocks;
      handed := handed + 1;
    }
    HalvesAtExit(totalHours, remaining, handed);
    return Some(blocks);
  }
}
