/** How many ticks a waiting thread waits: the bounds for tasks and for threads together. */
module SchedulerBound {
  import opened Scheduler
  import opened SchedulerSafety
  import opened SchedulerRuns
  import opened SchedulerFairness
  import opened SchedulerStalls
  import opened SchedulerThreads

  /** Every task has a thread; placeholders are no tasks. */
  predicate AllHaveThreads(tasks: seq<Task>) {
    forall i :: 0 <= i < |tasks| && tasks[i].pid != -1 ==> tasks[i].threads != []
  }

  /** A step of a run without new tasks and threads. */
  predicate NoCreation(step: Step) {
    step.Tick? || step.Execute?
  }

  /** A tick that could go to task `k`: the task waits, or the tick is on the CPU that holds it. */
  predicate Relevant(s: State, step: Step, k: nat)
    requires Enabled(s, step) && k < |s.tasks|
  {
    step.Tick? && (s.tasks[k].status == Waiting || s.cpus[step.c].pid == s.tasks[k].pid)
  }

  /** The relevant ticks of a run. */
  function RelevantTicks(s: State, steps: seq<Step>, k: nat): nat
    requires RunEnabled(s, steps)
    decreases |steps|
  {
    if steps == [] || k >= |s.tasks| then 0
    else (if Relevant(s, steps[0], k) then 1 else 0) + RelevantTicks(Apply(s, steps[0]), steps[1..], k)
  }

  /** The ticks until the next selection of task `k`, at most. */
  function TaskWait(s: State, k: nat): nat
    requires k < |s.tasks|
  {
    if s.tasks[k].status == Waiting then |Ahead(s, k)| else |s.tasks|
  }

  lemma TaskWaitBound(s: State, k: nat)
    requires k < |s.tasks|
    ensures TaskWait(s, k) <= |s.tasks|
    ensures s.tasks[k].status == Waiting ==> TaskWait(s, k) < |s.tasks|
  {
    AheadIsSmaller(s, k);
  }

  /** `rounds` selections of a task among `n`, `wait` ticks before the first. */
  function Bound(rounds: nat, n: nat, wait: nat): nat {
    if rounds == 0 then wait else n + 1 + Bound(rounds - 1, n, wait)
  }

  lemma {:induction false} BoundIs(rounds: nat, n: nat, wait: nat)
    ensures Bound(rounds, n, wait) == rounds * (n + 1) + wait
  {
    if rounds > 0 {
      BoundIs(rounds - 1, n, wait);
      assert rounds * (n + 1) == (rounds - 1) * (n + 1) + (n + 1);
    }
  }

  /** The relevant ticks until thread `a` of task `k` is switched to, at most. */
  function ThreadWait(s: State, k: nat, a: nat): nat
    requires ThreadWaits(s, k, a)
  {
    Bound(|ThreadsAhead(s.tasks[k].threads, a)|, |s.tasks|, TaskWait(s, k))
  }

  // ---------------------------------------------------------------------------------------
  // One tick

  /** A tick switches and keeps the threads of all tasks. */
  lemma TickKeepsLists(s: State, c: nat, regs: Registers)
    requires c < |s.cpus| && AllHaveThreads(s.tasks)
    ensures var r := Reschedule(s, c, regs); |r.tasks| == |s.tasks| && AllHaveThreads(r.tasks)
  {
    if Switches(s, c) {
      var k := NextTask(s, c);
      var t, aged := NextThread(s, k), Aged(s, k);
      SaveKeepsShape(aged, c, regs);
      var v := Save(aged, c, regs);
      hide Save, NextTask;
      forall i | 0 <= i < |s.tasks|
        ensures Dispatch(v, c, k, t).tasks[i].pid == s.tasks[i].pid
        ensures |Dispatch(v, c, k, t).tasks[i].threads| == |s.tasks[i].threads|
      {
        assert StillThere(aged.tasks[i], v.tasks[i], aged.tasks[i].idle);
      }
    }
  }

  /** Picking a task ahead takes it out of the set ahead. */
  lemma PickLeaves(s: State, c: nat, regs: Registers, k: nat)
    requires c < |s.cpus| && k < |s.tasks| && Switches(s, c) && NextTask(s, c) != k
    requires Precedes(s.tasks, NextTask(s, c), k) && s.tasks[NextTask(s, c)].pid != -1
    ensures var r := Reschedule(s, c, regs);
      |r.tasks| == |s.tasks| && Ahead(r, k) == Ahead(s, k) - {NextTask(s, c)} && NextTask(s, c) in Ahead(s, k)
  {
    var p, r := NextTask(s, c), Reschedule(s, c, regs);
    SwitchAges(s, c, regs);
    hide Reschedule, NextTask;
    assert StillThere(s.tasks[k], r.tasks[k], s.tasks[k].idle + 1);
    forall i: nat | i < |s.tasks|
      ensures i in Ahead(r, k) <==> i in Ahead(s, k) && i != p
    {
      if i != p {
        assert StillThere(s.tasks[i], r.tasks[i], s.tasks[i].idle + 1);
      }
    }
  }

  /** While task `k` waits, a tick selects it, or a task ahead. */
  lemma WaitingTick(s: State, c: nat, regs: Registers, k: nat)
    requires Valid(s) && AllHaveThreads(s.tasks) && c < |s.cpus| && k < |s.tasks| && s.tasks[k].status == Waiting
    ensures Switches(s, c)
    ensures var r := Reschedule(s, c, regs);
      NextTask(s, c) != k ==> k < |r.tasks| && |r.tasks| == |s.tasks| && TaskWait(r, k) < TaskWait(s, k)
  {
    hide Reschedule, NextThread, NextTask;
    ChosenIsOldest(s, c, k);
    var p := NextTask(s, c);
    assert TaskValid(s.tasks[p], s.taskCnt, s.threadCnt);
    WaitingThreadFound(s, p);
    SwitchesTo(s, c, p);
    if p != k {
      PickLeaves(s, c, regs, k);
      SwitchAges(s, c, regs);
      assert StillThere(s.tasks[k], Reschedule(s, c, regs).tasks[k], s.tasks[k].idle + 1);
    }
  }

  lemma SwitchesTo(s: State, c: nat, p: nat)
    requires c < |s.cpus| && p < |s.tasks| && NextTask(s, c) == p && NextThread(s, p) != -1
    ensures Switches(s, c)
  {
  }

  /** A tick on the CPU that holds task `k` selects the task again, or puts it back to waiting. */
  lemma HoldersTick(s: State, c: nat, regs: Registers, k: nat, a: nat)
    requires Valid(s) && AllHaveThreads(s.tasks) && c < |s.cpus| && ThreadWaits(s, k, a)
    requires s.tasks[k].status != Waiting && s.cpus[c].pid == s.tasks[k].pid
    ensures Switches(s, c)
    ensures var r := Reschedule(s, c, regs);
      NextTask(s, c) != k ==> |r.tasks| == |s.tasks| && r.tasks[k].status == Waiting
  {
    assert TaskValid(s.tasks[k], s.taskCnt, s.threadCnt) && CpuValid(s.tasks, s.cpus[c]);
    TaskIndexIs(s.tasks, k);
    SelectedPrecedes(s, k, a);
    var p := NextTask(s, c);
    if p != k {
      BestIsOldest(TaskCandidates(AgeTasks(s.tasks)));
      assert TaskCandidates(AgeTasks(s.tasks))[p].waiting;
      assert TaskValid(s.tasks[p], s.taskCnt, s.threadCnt);
      WaitingThreadFound(s, p);
      HolderSaved(s, c, regs, k);
    }
  }

  lemma HolderSaved(s: State, c: nat, regs: Registers, k: nat)
    requires Valid(s) && c < |s.cpus| && k < |s.tasks| && Switches(s, c) && NextTask(s, c) != k
    requires s.cpus[c].pid == s.tasks[k].pid != -1
    ensures var r := Reschedule(s, c, regs); |r.tasks| == |s.tasks| && r.tasks[k].status == Waiting
  {
    var p := NextTask(s, c);
    var aged := Aged(s, p);
    AgeKeepsValid(s, p);
    SaveKeepsShape(aged, c, regs);
    assert TaskValid(aged.tasks[k], aged.taskCnt, aged.threadCnt) && CpuValid(aged.tasks, aged.cpus[c]);
    TaskIndexIs(aged.tasks, k);
    hide NextTask, Aged, NextThread;
    assert Save(aged, c, regs).tasks[k].status == Waiting;
  }

  /** A tick elsewhere, while another CPU holds task `k`, does not select it. */
  lemma ElsewhereTick(s: State, c: nat, k: nat)
    requires Valid(s) && c < |s.cpus| && k < |s.tasks| && s.tasks[k].status != Waiting
    requires s.cpus[c].pid != s.tasks[k].pid && s.tasks[k].pid != -1
    ensures NextTask(s, c) != k
  {
    assert TaskValid(s.tasks[k], s.taskCnt, s.threadCnt);
    BestIsOldest(TaskCandidates(AgeTasks(s.tasks)));
    var b := Best(TaskCandidates(AgeTasks(s.tasks)));
    assert b != -1 ==> TaskCandidates(AgeTasks(s.tasks))[b].waiting;
    if b == -1 && s.cpus[c].pid != -1 {
      assert CpuValid(s.tasks, s.cpus[c]);
    }
  }

  /** Every relevant tick that does not switch to thread `a` brings it closer, and no other tick sets it back. */
  lemma TickCloser(s: State, c: nat, regs: Registers, k: nat, a: nat)
    requires Valid(s) && AllHaveThreads(s.tasks) && ThreadWaits(s, k, a) && Enabled(s, Tick(c, regs))
    requires !(Selects(s, Tick(c, regs), k) && NextThread(s, k) == a)
    ensures var r := Reschedule(s, c, regs);
      && ThreadWaits(r, k, a) && |r.tasks| == |s.tasks|
      && ThreadWait(r, k, a) + (if Relevant(s, Tick(c, regs), k) then 1 else 0) <= ThreadWait(s, k, a)
  {
    hide Reschedule, NextTask, NextThread, ThreadsAhead, AllHaveThreads, Ahead, Bound, Valid, ThreadWait;
    var step, r := Tick(c, regs), Reschedule(s, c, regs);
    StepKeepsThreads(s, step, k, a);
    TickKeepsLists(s, c, regs);
    TaskWaitBound(r, k);
    TaskWaitBound(s, k);
    HasPid(s, k, a);
    if s.tasks[k].status == Waiting {
      WaitingTick(s, c, regs, k);
    } else if s.cpus[c].pid == s.tasks[k].pid {
      HoldersTick(s, c, regs, k, a);
    } else {
      ElsewhereTick(s, c, k);
    }
    CompareWaits(s, r, k, a, Selects(s, step, k), Relevant(s, step, k));
  }

  /** The bounds before and after, from what the tick does to the parts. */
  lemma CompareWaits(s: State, r: State, k: nat, a: nat, selects: bool, relevant: bool)
    requires ThreadWaits(s, k, a) && ThreadWaits(r, k, a) && |r.tasks| == |s.tasks| && TaskWait(r, k) <= |s.tasks|
    requires selects ==> |ThreadsAhead(r.tasks[k].threads, a)| + 1 == |ThreadsAhead(s.tasks[k].threads, a)|
    requires !selects ==> |ThreadsAhead(r.tasks[k].threads, a)| == |ThreadsAhead(s.tasks[k].threads, a)|
    requires !selects ==> TaskWait(r, k) + (if relevant then 1 else 0) <= TaskWait(s, k)
    ensures ThreadWait(r, k, a) + (if relevant then 1 else 0) <= ThreadWait(s, k, a)
  {
    hide ThreadsAhead, TaskWait, Bound;
    var before := |ThreadsAhead(s.tasks[k].threads, a)|;
    if selects {
      SmallerBound(before, |s.tasks|, TaskWait(r, k), TaskWait(s, k));
    } else {
      BoundIs(before, |s.tasks|, TaskWait(r, k));
      BoundIs(before, |s.tasks|, TaskWait(s, k));
    }
  }

  /** One selection less outweighs a whole round. */
  lemma SmallerBound(rounds: nat, n: nat, wait: nat, first: nat)
    requires rounds > 0 && wait <= n
    ensures Bound(rounds - 1, n, wait) < Bound(rounds, n, first)
  {
    BoundIs(rounds - 1, n, wait);
    BoundIs(rounds - 1, n, first);
  }

  lemma HasPid(s: State, k: nat, a: nat)
    requires Valid(s) && ThreadWaits(s, k, a)
    ensures s.tasks[k].pid != -1
  {
    assert TaskValid(s.tasks[k], s.taskCnt, s.threadCnt);
  }

  lemma StepCloser(s: State, step: Step, k: nat, a: nat)
    requires Valid(s) && AllHaveThreads(s.tasks) && ThreadWaits(s, k, a) && Enabled(s, step) && NoCreation(step)
    requires !(Selects(s, step, k) && NextThread(s, k) == a)
    ensures var r := Apply(s, step);
      && Valid(r) && AllHaveThreads(r.tasks) && ThreadWaits(r, k, a) && |r.tasks| == |s.tasks| && |r.cpus| == |s.cpus|
      && ThreadWait(r, k, a) + (if Relevant(s, step, k) then 1 else 0) <= ThreadWait(s, k, a)
  {
    ApplyKeepsValid(s, step);
    SameCpus(s, step);
    hide Valid, Reschedule, ThreadWait;
    match step
    case Tick(c, regs) =>
      TickCloser(s, c, regs, k, a);
      TickKeepsLists(s, c, regs);
    case Execute(_, _, _, _) => SameTasks(s, step, k, a);
  }

  lemma SameCpus(s: State, step: Step)
    requires Enabled(s, step)
    ensures |Apply(s, step).cpus| == |s.cpus|
  {
    match step
    case Tick(c, regs) =>
      var k := NextTask(s, c);
      if 0 <= k < |s.tasks| {
        SaveKeepsShape(Aged(s, k), c, regs);
      }
    case _ =>
  }

  lemma SameTasks(s: State, step: Step, k: nat, a: nat)
    requires Enabled(s, step) && step.Execute? && ThreadWaits(s, k, a)
    ensures var r := Apply(s, step); r.tasks == s.tasks && ThreadWait(r, k, a) == ThreadWait(s, k, a)
  {
    assert Ahead(Apply(s, step), k) == Ahead(s, k);
  }

  // ---------------------------------------------------------------------------------------
  // Runs

  /** As long as thread `a` is not switched to, the relevant ticks stay within its bound. */
  lemma {:induction false} WaitBounded(s: State, steps: seq<Step>, k: nat, a: nat)
    requires Valid(s) && AllHaveThreads(s.tasks) && RunEnabled(s, steps) && ThreadWaits(s, k, a)
    requires (forall step :: step in steps ==> NoCreation(step)) && a !in ThreadPicks(s, steps, k)
    ensures RelevantTicks(s, steps, k) <= ThreadWait(s, k, a)
    decreases |steps|
  {
    hide Valid, AllHaveThreads, Apply, ThreadWait, Relevant, Selects, NextThread;
    if steps != [] {
      var step, tail := steps[0], ThreadPicks(Apply(s, steps[0]), steps[1..], k);
      assert step in steps;
      assert ThreadPicks(s, steps, k) == (if Selects(s, step, k) then [NextThread(s, k)] else []) + tail;
      assert Selects(s, step, k) ==> ThreadPicks(s, steps, k)[0] == NextThread(s, k);
      assert forall p :: p in tail ==> p in ThreadPicks(s, steps, k);
      StepCloser(s, step, k, a);
      WaitBounded(Apply(s, step), steps[1..], k, a);
    }
  }

  /**
   When all tasks have threads, a waiting thread of a task with `m` threads among `n` entries is
   switched to within `m * (n + 1)` ticks that could go to its task.
   */
  lemma WaitingThreadRunsWithin(s: State, steps: seq<Step>, k: nat, a: nat)
    requires Valid(s) && AllHaveThreads(s.tasks) && RunEnabled(s, steps) && ThreadWaits(s, k, a)
    requires forall step :: step in steps ==> NoCreation(step)
    requires RelevantTicks(s, steps, k) >= |s.tasks[k].threads| * (|s.tasks| + 1)
    ensures a in ThreadPicks(s, steps, k)
  {
    hide Valid, AllHaveThreads, RunEnabled, ThreadPicks, RelevantTicks, Bound, TaskWait, ThreadsAhead;
    if a !in ThreadPicks(s, steps, k) {
      WaitBounded(s, steps, k, a);
      FewerAhead(s.tasks[k].threads, a);
      TaskWaitBound(s, k);
      BoundBelow(|ThreadsAhead(s.tasks[k].threads, a)|, |s.tasks[k].threads|, |s.tasks|, TaskWait(s, k));
    }
  }

  lemma BoundBelow(rounds: nat, m: nat, n: nat, wait: nat)
    requires rounds < m && wait <= n
    ensures Bound(rounds, n, wait) < m * (n + 1)
  {
    BoundIs(m, n, 0);
    BoundGrows(rounds, m, n, wait);
  }

  lemma {:induction false} BoundGrows(rounds: nat, m: nat, n: nat, wait: nat)
    requires rounds < m && wait <= n
    ensures Bound(rounds, n, wait) < Bound(m, n, 0)
  {
    if rounds > 0 {
      BoundGrows(rounds - 1, m - 1, n, wait);
    }
  }

  lemma FewerAhead(threads: seq<Thread>, a: nat)
    requires a < |threads|
    ensures |ThreadsAhead(threads, a)| < |threads|
  {
    BelowSize(|threads|);
    assert ThreadsAhead(threads, a) < Below(|threads|) by {
      assert a in Below(|threads|) && a !in ThreadsAhead(threads, a);
    }
    SubsetSize(ThreadsAhead(threads, a), Below(|threads|));
  }

  /** On one CPU every tick could go to the task. */
  lemma {:induction false} OneCpuAllRelevant(s: State, steps: seq<Step>, k: nat, a: nat)
    requires Valid(s) && AllHaveThreads(s.tasks) && |s.cpus| == 1 && RunEnabled(s, steps) && ThreadWaits(s, k, a)
    requires (forall step :: step in steps ==> NoCreation(step)) && a !in ThreadPicks(s, steps, k)
    ensures RelevantTicks(s, steps, k) == Ticks(steps)
    decreases |steps|
  {
    hide AllHaveThreads, Apply, ThreadWait, Selects, NextThread, Valid;
    if steps != [] {
      var step, tail := steps[0], ThreadPicks(Apply(s, steps[0]), steps[1..], k);
      assert step in steps;
      assert ThreadPicks(s, steps, k) == (if Selects(s, step, k) then [NextThread(s, k)] else []) + tail;
      assert Selects(s, step, k) ==> ThreadPicks(s, steps, k)[0] == NextThread(s, k);
      assert forall p :: p in tail ==> p in ThreadPicks(s, steps, k);
      HeldOrWaiting(s, k, a);
      StepCloser(s, step, k, a);
      OneCpuAllRelevant(Apply(s, step), steps[1..], k, a);
    }
  }

  lemma HeldOrWaiting(s: State, k: nat, a: nat)
    requires Valid(s) && |s.cpus| == 1 && ThreadWaits(s, k, a)
    ensures s.tasks[k].status == Waiting || s.cpus[0].pid == s.tasks[k].pid
  {
    assert TaskValid(s.tasks[k], s.taskCnt, s.threadCnt);
    if s.tasks[k].status == Running {
      var c :| 0 <= c < |s.cpus| && s.cpus[c].pid == s.tasks[k].tag;
    }
  }

  /** So on one CPU the thread is switched to within that many ticks. */
  lemma OneCpuThreadRuns(s: State, steps: seq<Step>, k: nat, a: nat)
    requires Valid(s) && AllHaveThreads(s.tasks) && |s.cpus| == 1 && RunEnabled(s, steps) && ThreadWaits(s, k, a)
    requires forall step :: step in steps ==> NoCreation(step)
    requires Ticks(steps) >= |s.tasks[k].threads| * (|s.tasks| + 1)
    ensures a in ThreadPicks(s, steps, k)
  {
    hide Valid, AllHaveThreads, RunEnabled, ThreadPicks, RelevantTicks, Ticks;
    if a !in ThreadPicks(s, steps, k) {
      OneCpuAllRelevant(s, steps, k, a);
      WaitingThreadRunsWithin(s, steps, k, a);
    }
  }
}
