/** Bounded overtaking among the threads of one task. */
module SchedulerThreads {
  import opened Scheduler
  import opened SchedulerSafety
  import opened SchedulerRuns
  import opened SchedulerFairness

  /** Thread `i` would be preferred to thread `a` if both waited. */
  predicate ThreadPrecedes(threads: seq<Thread>, i: nat, a: nat)
    requires i < |threads| && a < |threads|
  {
    i != a && (threads[i].idle > threads[a].idle || (threads[i].idle == threads[a].idle && i < a))
  }

  function ThreadsAhead(threads: seq<Thread>, a: nat): set<nat>
    requires a < |threads|
  {
    set i: nat | i < |threads| && ThreadPrecedes(threads, i, a)
  }

  /** Thread `a` of task `k` waits. */
  predicate ThreadWaits(s: State, k: nat, a: nat) {
    k < |s.tasks| && a < |s.tasks[k].threads| && s.tasks[k].threads[a].status == Waiting
  }

  /** Thread `x` after a step that selected another thread or another task: `age` older, waiting if it waited. */
  predicate ThreadStays(before: Thread, after: Thread, age: nat) {
    after.idle == before.idle + age && (before.status == Waiting ==> after.status == Waiting)
  }

  /** All threads but `t` stay, and the list is as long as before. */
  predicate ThreadsStay(before: seq<Thread>, after: seq<Thread>, age: nat, t: int) {
    |after| == |before| && forall x :: 0 <= x < |before| && x != t ==> ThreadStays(before[x], after[x], age)
  }

  lemma SaveStays(s: State, c: nat, regs: Registers, i: nat)
    requires c < |s.cpus| && i < |s.tasks|
    ensures var r := Save(s, c, regs); |r.tasks| == |s.tasks| && ThreadsStay(s.tasks[i].threads, r.tasks[i].threads, 0, -1)
  {
  }

  lemma DispatchStays(s: State, c: nat, k: nat, t: nat, i: nat)
    requires c < |s.cpus| && k < |s.tasks| && t < |s.tasks[k].threads| && i < |s.tasks|
    ensures var r := Dispatch(s, c, k, t);
      && |r.tasks| == |s.tasks| && ThreadsStay(s.tasks[i].threads, r.tasks[i].threads, 0, if i == k then t else -1)
      && r.tasks[k].threads[t].idle == 0
  {
  }

  lemma StaysTwice(a: seq<Thread>, b: seq<Thread>, c: seq<Thread>, m: nat, n: nat, t: int)
    requires ThreadsStay(a, b, m, -1) && ThreadsStay(b, c, n, t)
    ensures ThreadsStay(a, c, m + n, t)
  {
    forall x | 0 <= x < |a| && x != t
      ensures ThreadStays(a[x], c[x], m + n)
    {
      assert ThreadStays(a[x], b[x], m) && ThreadStays(b[x], c[x], n);
    }
  }

  /** A tick that selects task `k`: all its threads age by one, and the one switched to starts again at 0. */
  lemma SelectedAges(s: State, c: nat, regs: Registers)
    requires c < |s.cpus| && Switches(s, c)
    ensures var k, r := NextTask(s, c), Reschedule(s, c, regs);
      var t := NextThread(s, k);
      && |r.tasks| == |s.tasks| && ThreadsStay(s.tasks[k].threads, r.tasks[k].threads, 1, t)
      && r.tasks[k].threads[t].idle == 0
  {
    var k := NextTask(s, c);
    var t, aged := NextThread(s, k), Aged(s, k);
    var v := Save(aged, c, regs);
    SaveKeepsShape(aged, c, regs);
    SaveStays(aged, c, regs, k);
    hide Save, NextTask;
    DispatchStays(v, c, k, t, k);
    hide Dispatch;
    assert ThreadsStay(s.tasks[k].threads, aged.tasks[k].threads, 1, -1);
    StaysTwice(s.tasks[k].threads, aged.tasks[k].threads, v.tasks[k].threads, 1, 0, -1);
    StaysTwice(s.tasks[k].threads, v.tasks[k].threads, Dispatch(v, c, k, t).tasks[k].threads, 1, 0, t);
  }

  /** A tick that selects another task, or none, leaves the ages of the threads of task `i`. */
  lemma OthersStay(s: State, c: nat, regs: Registers, i: nat)
    requires c < |s.cpus| && i < |s.tasks| && NextTask(s, c) != i
    ensures var r := Reschedule(s, c, regs);
      |r.tasks| == |s.tasks| && ThreadsStay(s.tasks[i].threads, r.tasks[i].threads, 0, -1)
  {
    var k := NextTask(s, c);
    if 0 <= k < |s.tasks| && NextThread(s, k) != -1 {
      var t, aged := NextThread(s, k), Aged(s, k);
      var v := Save(aged, c, regs);
      SaveKeepsShape(aged, c, regs);
      SaveStays(aged, c, regs, i);
      DispatchStays(v, c, k, t, i);
      StaysTwice(s.tasks[i].threads, v.tasks[i].threads, Dispatch(v, c, k, t).tasks[i].threads, 0, 0, -1);
    }
  }

  /** The selected thread of a task with a waiting thread `a` is `a` or comes before it. */
  lemma SelectedPrecedes(s: State, k: nat, a: nat)
    requires ThreadWaits(s, k, a)
    ensures var t := NextThread(s, k);
      0 <= t < |s.tasks[k].threads| && (t == a || t in ThreadsAhead(s.tasks[k].threads, a))
  {
    var candidates := ThreadCandidates(AgeThreads(s.tasks[k].threads));
    BestIsOldest(candidates);
    assert candidates[a].waiting;
    assert candidates[NextThread(s, k)].waiting;
  }

  lemma AheadAfterSelection(before: seq<Thread>, after: seq<Thread>, a: nat, t: nat)
    requires a < |before| && t < |before| && t in ThreadsAhead(before, a)
    requires ThreadsStay(before, after, 1, t) && after[t].idle == 0
    ensures ThreadsAhead(after, a) == ThreadsAhead(before, a) - {t}
  {
    assert ThreadStays(before[a], after[a], 1);
    forall i: nat | i < |before|
      ensures i in ThreadsAhead(after, a) <==> i in ThreadsAhead(before, a) && i != t
    {
      assert i != t ==> ThreadStays(before[i], after[i], 1);
    }
  }

  lemma AheadUnchanged(before: seq<Thread>, after: seq<Thread>, a: nat)
    requires a < |before| && ThreadsStay(before, after, 0, -1)
    ensures ThreadsAhead(after, a) == ThreadsAhead(before, a)
  {
    assert ThreadStays(before[a], after[a], 0);
    forall i: nat | i < |before|
      ensures i in ThreadsAhead(after, a) <==> i in ThreadsAhead(before, a)
    {
      assert ThreadStays(before[i], after[i], 0);
    }
  }

  /** A new thread comes last. */
  lemma AheadAfterAppend(threads: seq<Thread>, t: Thread, a: nat)
    requires a < |threads| && t.idle == 0
    ensures ThreadsAhead(threads + [t], a) == ThreadsAhead(threads, a)
  {
  }

  /** This step switches to a thread of task `k`. */
  predicate Selects(s: State, step: Step, k: nat)
    requires Enabled(s, step)
  {
    step.Tick? && Switches(s, step.c) && NextTask(s, step.c) == k
  }

  lemma CreationKeepsThreads(s: State, step: Step, k: nat, a: nat)
    requires Valid(s) && (step.MakeTask? || step.MakeThread?) && ThreadWaits(s, k, a)
    ensures var r := Apply(s, step);
      ThreadWaits(r, k, a) && ThreadsAhead(r.tasks[k].threads, a) == ThreadsAhead(s.tasks[k].threads, a)
  {
    assert TaskValid(s.tasks[k], s.taskCnt, s.threadCnt);
    match step
    case MakeTask(ppid, pageMap) =>
      var tasks := Touch(s.tasks, ppid);
      TouchFinds(tasks, s.taskCnt);
      assert tasks[k].tag != s.taskCnt;
    case MakeThread(pid, regs) =>
      TouchFinds(s.tasks, pid);
      AheadAfterAppend(s.tasks[k].threads, NewThread(s.threadCnt, regs), a);
  }

  lemma TickKeepsThreads(s: State, c: nat, regs: Registers, k: nat, a: nat)
    requires c < |s.cpus| && ThreadWaits(s, k, a) && !(NextTask(s, c) == k && NextThread(s, k) == a)
    ensures var r := Reschedule(s, c, regs);
      && ThreadWaits(r, k, a)
      && if Switches(s, c) && NextTask(s, c) == k then
           && NextThread(s, k) in ThreadsAhead(s.tasks[k].threads, a)
           && ThreadsAhead(r.tasks[k].threads, a) == ThreadsAhead(s.tasks[k].threads, a) - {NextThread(s, k)}
         else ThreadsAhead(r.tasks[k].threads, a) == ThreadsAhead(s.tasks[k].threads, a)
  {
    var r := Reschedule(s, c, regs);
    if NextTask(s, c) == k {
      SelectedPrecedes(s, k, a);
      SelectedAges(s, c, regs);
      hide Reschedule, NextTask, ThreadsAhead;
      assert ThreadStays(s.tasks[k].threads[a], r.tasks[k].threads[a], 1);
      AheadAfterSelection(s.tasks[k].threads, r.tasks[k].threads, a, NextThread(s, k));
    } else {
      OthersStay(s, c, regs, k);
      hide Reschedule, NextTask, ThreadsAhead;
      assert ThreadStays(s.tasks[k].threads[a], r.tasks[k].threads[a], 0);
      AheadUnchanged(s.tasks[k].threads, r.tasks[k].threads, a);
    }
  }

  /** The threads of task `k` that a run switches to, one for each selection of the task. */
  function ThreadPicks(s: State, steps: seq<Step>, k: nat): seq<int>
    requires RunEnabled(s, steps)
    decreases |steps|
  {
    if steps == [] then []
    else
      (if Selects(s, steps[0], k) then [NextThread(s, k)] else []) + ThreadPicks(Apply(s, steps[0]), steps[1..], k)
  }

  lemma StepKeepsThreads(s: State, step: Step, k: nat, a: nat)
    requires Valid(s) && Enabled(s, step) && ThreadWaits(s, k, a) && !(Selects(s, step, k) && NextThread(s, k) == a)
    ensures var r := Apply(s, step);
      && ThreadWaits(r, k, a)
      && if Selects(s, step, k) then
           && NextThread(s, k) in ThreadsAhead(s.tasks[k].threads, a)
           && ThreadsAhead(r.tasks[k].threads, a) == ThreadsAhead(s.tasks[k].threads, a) - {NextThread(s, k)}
         else ThreadsAhead(r.tasks[k].threads, a) == ThreadsAhead(s.tasks[k].threads, a)
  {
    hide Valid, ThreadsAhead, Reschedule, NextTask;
    match step
    case MakeTask(_, _) => CreationKeepsThreads(s, step, k, a);
    case MakeThread(_, _) => CreationKeepsThreads(s, step, k, a);
    case Tick(c, regs) =>
      SelectedPrecedes(s, k, a);
      TickKeepsThreads(s, c, regs, k, a);
    case Execute(_, _, _, _) =>
  }

  /**
   As long as thread `a` of task `k` is not switched to, every selection of the task switches to
   a different thread, each of them ahead of `a` at the start.
   */
  lemma {:induction false} ThreadsBoundedOvertaking(s: State, steps: seq<Step>, k: nat, a: nat)
    requires Valid(s) && RunEnabled(s, steps) && ThreadWaits(s, k, a) && a !in ThreadPicks(s, steps, k)
    ensures |ThreadPicks(s, steps, k)| <= |ThreadsAhead(s.tasks[k].threads, a)| && NoRepeat(ThreadPicks(s, steps, k))
    ensures forall p :: p in ThreadPicks(s, steps, k) ==> p in ThreadsAhead(s.tasks[k].threads, a)
    decreases |steps|
  {
    hide Valid, ThreadsAhead, Apply, Selects;
    if steps != [] {
      var step := steps[0];
      var r, tail := Apply(s, step), ThreadPicks(Apply(s, step), steps[1..], k);
      if Selects(s, step, k) {
        var t := NextThread(s, k);
        assert ThreadPicks(s, steps, k) == [t] + tail;
        assert t in ThreadPicks(s, steps, k);
        assert a !in tail by { assert forall p :: p in tail ==> p in ThreadPicks(s, steps, k); }
        StepKeepsThreads(s, step, k, a);
        ApplyKeepsValid(s, step);
        ThreadsBoundedOvertaking(r, steps[1..], k, a);
        CountPick(t, tail, ThreadsAhead(s.tasks[k].threads, a), ThreadsAhead(r.tasks[k].threads, a));
      } else {
        assert ThreadPicks(s, steps, k) == tail;
        StepKeepsThreads(s, step, k, a);
        ApplyKeepsValid(s, step);
        ThreadsBoundedOvertaking(r, steps[1..], k, a);
      }
    }
  }

  /** A waiting thread is switched to within as many selections of its task as the task has threads. */
  lemma WaitingThreadRuns(s: State, steps: seq<Step>, k: nat, a: nat)
    requires Valid(s) && RunEnabled(s, steps) && ThreadWaits(s, k, a)
    requires |ThreadPicks(s, steps, k)| >= |s.tasks[k].threads|
    ensures a in ThreadPicks(s, steps, k)
  {
    hide Valid, RunEnabled, ThreadPicks;
    if a !in ThreadPicks(s, steps, k) {
      ThreadsBoundedOvertaking(s, steps, k, a);
      var n := |s.tasks[k].threads|;
      BelowSize(n);
      assert ThreadsAhead(s.tasks[k].threads, a) < Below(n) by {
        assert a in Below(n) && a !in ThreadsAhead(s.tasks[k].threads, a);
      }
      SubsetSize(ThreadsAhead(s.tasks[k].threads, a), Below(n));
    }
  }
}
