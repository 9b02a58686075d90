/**
 * The second half of `generate_learning_blocks`: turning the solver's choice of
 * fifteen-minute learning blocks between 08:00 and 21:00 into merged study sessions.
 * The linear program that chooses the blocks is not modelled; its answer is the input.
 * Times are minutes after midnight.
 */
module LearningBlocks {
  import opened Wrappers

  /** Thirteen hours of fifteen-minute blocks. */
  const BlockCount: nat := 52
  const BlockMinutes: nat := 15
  /** 08:00 and 21:00 */
  const DayStart: nat := 480
  const DayEnd: nat := 1260

  /** The lunch (11:00-11:45) and dinner (17:00-17:45) blocks. */
  predicate IsFixedBreak(i: nat) {
    12 <= i <= 15 || 36 <= i <= 39
  }

  function BlockStart(i: nat): nat {
    DayStart + BlockMinutes * i
  }

  /** One learning flag per block: the solver's value of `x[i] == 1`. */
  type BlockPlan = p: seq<bool> | |p| == BlockCount witness seq(52, _ => false)

  /** The solver never schedules learning in a break (the `x[i] == 0` constraints). */
  predicate RespectsBreaks(plan: BlockPlan) {
    forall i :: 0 <= i < BlockCount && IsFixedBreak(i) ==> !plan[i]
  }

  /** A merged session `{'start': ..., 'end': ...}` in minutes after midnight. */
  datatype Session = Session(start: nat, end: nat)

  predicate Ordered(ss: seq<Session>) {
    && (forall k :: 0 <= k < |ss| ==> ss[k].start < ss[k].end)
    && (forall k :: 0 <= k < |ss| - 1 ==> ss[k].end < ss[k + 1].start)
  }

  /** The session list covers the minute at which block `i` starts. */
  predicate Covers(ss: seq<Session>, i: nat) {
    exists k :: 0 <= k < |ss| && ss[k].start <= BlockStart(i) < ss[k].end
  }

  /**
   * The merge loop from block `i` on, with `open` the block where the session in
   * progress started: a learning block opens a session when none is open; a block that
   * is not learning, or is a break, closes the open one; one still open at the end
   * closes at 21:00.
   */
  function Merge(plan: BlockPlan, i: nat, open: Option<nat>): (r: seq<Session>)
    requires i <= BlockCount
    requires open.Some? ==> open.value < i
    ensures Ordered(r)
    ensures forall k :: 0 <= k < |r| ==> DayStart <= r[k].start && r[k].end <= DayEnd
    ensures forall k :: 0 <= k < |r| ==> r[k].start >= BlockStart(if open.Some? then open.value else i)
    decreases BlockCount - i
  {
    if i == BlockCount then
      (if open.Some? then [Session(BlockStart(open.value), DayEnd)] else [])
    else if plan[i] && open.None? then
      Merge(plan, i + 1, Some(i))
    else if (!plan[i] || IsFixedBreak(i)) && open.Some? then
      [Session(BlockStart(open.value), BlockStart(i))] + Merge(plan, i + 1, None)
    else
      Merge(plan, i + 1, open)
  }

  /** The sessions of a whole day. */
  function Sessions(plan: BlockPlan): (r: seq<Session>)
    ensures Ordered(r)
    ensures forall k :: 0 <= k < |r| ==> DayStart <= r[k].start && r[k].end <= DayEnd
  {
    Merge(plan, 0, None)
  }

  function CountLearning(plan: BlockPlan, i: nat): nat
    requires i <= BlockCount
    decreases BlockCount - i
  {
    if i == BlockCount then 0 else (if plan[i] then 1 else 0) + CountLearning(plan, i + 1)
  }

  function TotalMinutes(ss: seq<Session>): int {
    if ss == [] then 0 else ss[0].end - ss[0].start + TotalMinutes(ss[1..])
  }

  predicate LearningRun(plan: BlockPlan, lo: nat, hi: nat)
    requires lo <= hi <= BlockCount
  {
    forall j :: lo <= j < hi ==> plan[j]
  }

  /** Covering a block of the current run or a later learning block. */
  predicate Expected(plan: BlockPlan, i: nat, open: Option<nat>, j: nat)
    requires i <= BlockCount && j < BlockCount
  {
    (i <= j && plan[j]) || (open.Some? && open.value <= j < i)
  }

  /** A session that covers a block covers it in front of any others. */
  lemma CoversHead(head: Session, rest: seq<Session>, j: nat)
    requires head.start <= BlockStart(j) < head.end
    ensures Covers([head] + rest, j)
  {
    assert ([head] + rest)[0] == head;
  }

  /** A block covered by some sessions stays covered with one more in front. */
  lemma CoversTail(head: Session, rest: seq<Session>, j: nat)
    requires Covers(rest, j)
    ensures Covers([head] + rest, j)
  {
    var k :| 0 <= k < |rest| && rest[k].start <= BlockStart(j) < rest[k].end;
    assert ([head] + rest)[k + 1] == rest[k];
  }

  /** Every learning block from block `i` on, and every block of the open run, is covered. */
  lemma {:induction false} MergeCoversLearning(plan: BlockPlan, i: nat, open: Option<nat>, j: nat)
    requires RespectsBreaks(plan)
    requires i <= BlockCount && j < BlockCount
    requires open.Some? ==> open.value < i && LearningRun(plan, open.value, i)
    requires Expected(plan, i, open, j)
    ensures Covers(Merge(plan, i, open), j)
    decreases BlockCount - i
  {
    var r := Merge(plan, i, open);
    if i == BlockCount {
      assert r[0].start <= BlockStart(j) < r[0].end;
    } else if plan[i] && open.None? {
      MergeCoversLearning(plan, i + 1, Some(i), j);
    } else if (!plan[i] || IsFixedBreak(i)) && open.Some? {
      var head := Session(BlockStart(open.value), BlockStart(i));
      var rest := Merge(plan, i + 1, None);
      assert r == [head] + rest;
      if j < i {
        CoversHead(head, rest, j);
      } else {
        MergeCoversLearning(plan, i + 1, None, j);
        CoversTail(head, rest, j);
      }
    } else {
      MergeCoversLearning(plan, i + 1, open, j);
    }
  }

  /** Only learning blocks from block `i` on, and blocks of the open run, are covered. */
  lemma {:induction false} MergeCoversOnlyLearning(plan: BlockPlan, i: nat, open: Option<nat>, j: nat)
    requires RespectsBreaks(plan)
    requires i <= BlockCount && j < BlockCount
    requires open.Some? ==> open.value < i && LearningRun(plan, open.value, i)
    requires Covers(Merge(plan, i, open), j)
    ensures Expected(plan, i, open, j)
    decreases BlockCount - i
  {
    var r := Merge(plan, i, open);
    if i == BlockCount {
    } else if plan[i] && open.None? {
      MergeCoversOnlyLearning(plan, i + 1, Some(i), j);
    } else if (!plan[i] || IsFixedBreak(i)) && open.Some? {
      if Covers(Merge(plan, i + 1, None), j) {
        MergeCoversOnlyLearning(plan, i + 1, None, j);
      }
      ClosedSessionCovers(plan, i, open.value, j);
    } else {
      MergeCoversOnlyLearning(plan, i + 1, open, j);
    }
  }

  /** A block covered after the open session closes at block `i` is in it or covered later. */
  lemma ClosedSessionCovers(plan: BlockPlan, i: nat, o: nat, j: nat)
    requires o < i < BlockCount && j < BlockCount
    requires !plan[i] || IsFixedBreak(i)
    requires Covers(Merge(plan, i, Some(o)), j)
    requires Covers(Merge(plan, i + 1, None), j) ==> Expected(plan, i + 1, None, j)
    ensures Expected(plan, i, Some(o), j)
  {
    var r := Merge(plan, i, Some(o));
    var rest := Merge(plan, i + 1, None);
    assert r == [Session(BlockStart(o), BlockStart(i))] + rest;
    var k :| 0 <= k < |r| && r[k].start <= BlockStart(j) < r[k].end;
    if k > 0 {
      assert rest[k - 1] == r[k];
    }
  }

  /** A day's sessions cover a block exactly when the solver made it a learning block. */
  lemma SessionsCoverLearningBlocks(plan: BlockPlan, j: nat)
    requires RespectsBreaks(plan) && j < BlockCount
    ensures Covers(Sessions(plan), j) <==> plan[j]
  {
    if plan[j] {
      MergeCoversLearning(plan, 0, None, j);
    }
    if Covers(Sessions(plan), j) {
      MergeCoversOnlyLearning(plan, 0, None, j);
    }
  }

  /** Minutes in the merged sessions: fifteen per learning block. */
  lemma {:induction false} MergeMinutes(plan: BlockPlan, i: nat, open: Option<nat>)
    requires RespectsBreaks(plan)
    requires i <= BlockCount
    requires open.Some? ==> open.value < i && LearningRun(plan, open.value, i)
    ensures TotalMinutes(Merge(plan, i, open))
      == BlockMinutes * (CountLearning(plan, i) + if open.Some? then i - open.value else 0)
    decreases BlockCount - i
  {
    if i == BlockCount {
    } else if plan[i] && open.None? {
      MergeMinutes(plan, i + 1, Some(i));
    } else if (!plan[i] || IsFixedBreak(i)) && open.Some? {
      MergeMinutes(plan, i + 1, None);
    } else {
      MergeMinutes(plan, i + 1, open);
    }
  }

  /** The day's sessions last as long as its learning blocks together. */
  lemma SessionsMinutes(plan: BlockPlan)
    requires RespectsBreaks(plan)
    ensures TotalMinutes(Sessions(plan)) == BlockMinutes * CountLearning(plan, 0)
  {
    MergeMinutes(plan, 0, None);
  }

  /** Whatever the plan, no session runs on into a break once it has started. */
  lemma {:induction false} MergeSkipsBreaks(plan: BlockPlan, i: nat, open: Option<nat>, j: nat)
    requires i <= BlockCount && j < BlockCount && IsFixedBreak(j)
    requires open.Some? ==> open.value < i && forall b :: open.value < b < i ==> !IsFixedBreak(b)
    ensures forall k :: 0 <= k < |Merge(plan, i, open)| ==>
      var s := Merge(plan, i, open)[k]; !(s.start < BlockStart(j) < s.end)
    decreases BlockCount - i
  {
    var r := Merge(plan, i, open);
    if i == BlockCount {
    } else if plan[i] && open.None? {
      MergeSkipsBreaks(plan, i + 1, Some(i), j);
    } else if (!plan[i] || IsFixedBreak(i)) && open.Some? {
      MergeSkipsBreaks(plan, i + 1, None, j);
      var rest := Merge(plan, i + 1, None);
      assert r == [Session(BlockStart(open.value), BlockStart(i))] + rest;
      forall k | 0 <= k < |r| ensures !(r[k].start < BlockStart(j) < r[k].end) {
        if k > 0 {
          assert r[k] == rest[k - 1];
        }
      }
    } else {
      MergeSkipsBreaks(plan, i + 1, open, j);
    }
  }
}
