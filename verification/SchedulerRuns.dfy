/** Whole runs of the scheduler: reachable states, and the contexts that threads are resumed with. */
module SchedulerRuns {
  import opened Scheduler
  import opened SchedulerSafety

  /**
   One step of a run. `Execute` is the code that runs on a CPU between two interrupts: it may
   change mode and its own FS and GS bases, and keeps the GS convention.
   */
  datatype Step =
    | MakeTask(ppid: int, pageMap: nat)
    | MakeThread(pid: int, regs: Registers)
    | Tick(c: nat, regs: Registers)
    | Execute(c: nat, user: bool, fs: nat, gs: nat)

  predicate Enabled(s: State, step: Step) {
    match step
    case MakeTask(_, _) => true
    case MakeThread(_, _) => true
    case Tick(c, regs) => c < |s.cpus| && regs.User() == s.cpus[c].user
    case Execute(c, _, _, _) => c < |s.cpus|
  }

  function RunCode(cpu: Cpu, user: bool, fs: nat, gs: nat): Cpu {
    cpu.(user := user, fsBase := fs, gsBase := if user then gs else cpu.pointer, kernelGs := if user then cpu.pointer else gs)
  }

  function Apply(s: State, step: Step): State
    requires Enabled(s, step)
  {
    match step
    case MakeTask(ppid, pageMap) => CreateTask(s, ppid, pageMap)
    case MakeThread(pid, regs) => CreateThread(s, pid, regs)
    case Tick(c, regs) => Reschedule(s, c, regs)
    case Execute(c, user, fs, gs) => s.(cpus := s.cpus[c := RunCode(s.cpus[c], user, fs, gs)])
  }

  predicate RunEnabled(s: State, steps: seq<Step>)
    decreases |steps|
  {
    steps == [] || (Enabled(s, steps[0]) && RunEnabled(Apply(s, steps[0]), steps[1..]))
  }

  function Run(s: State, steps: seq<Step>): State
    requires RunEnabled(s, steps)
    decreases |steps|
  {
    if steps == [] then s else Run(Apply(s, steps[0]), steps[1..])
  }

  lemma ApplyKeepsValid(s: State, step: Step)
    requires Valid(s) && Enabled(s, step)
    ensures Valid(Apply(s, step))
  {
    hide Valid;
    match step
    case MakeTask(ppid, pageMap) => CreateTaskKeepsValid(s, ppid, pageMap);
    case MakeThread(pid, regs) => CreateThreadKeepsValid(s, pid, regs);
    case Tick(c, regs) => RescheduleKeepsValid(s, c, regs);
    case Execute(_, _, _, _) => ExecuteKeepsValid(s, step);
  }

  lemma ExecuteKeepsValid(s: State, step: Step)
    requires Valid(s) && step.Execute? && Enabled(s, step)
    ensures Valid(Apply(s, step))
  {
    var r := Apply(s, step);
    forall d | 0 <= d < |s.cpus|
      ensures CpuValid(r.tasks, r.cpus[d])
    {
      assert CpuValid(s.tasks, s.cpus[d]);
    }
    assert forall d :: 0 <= d < |s.cpus| ==> r.cpus[d].pid == s.cpus[d].pid;
    assert forall tag :: HeldBy(s.cpus, tag) ==> HeldBy(r.cpus, tag);
  }

  /** No task yet, and every CPU free in kernel code, as `boot_aps` leaves them. */
  predicate Initial(s: State) {
    s.tasks == [] && s.taskCnt == 0 && s.threadCnt == 0 &&
    forall c :: 0 <= c < |s.cpus| ==> s.cpus[c].pid == -1 && s.cpus[c].tid == -1 && s.cpus[c].GsValid()
  }

  /** Every reachable state is valid. */
  lemma {:induction false} ReachableValid(s: State, steps: seq<Step>)
    requires (Initial(s) || Valid(s)) && RunEnabled(s, steps)
    ensures Valid(Run(s, steps))
    decreases |steps|
  {
    if steps != [] {
      ApplyKeepsValid(s, steps[0]);
      ReachableValid(Apply(s, steps[0]), steps[1..]);
    }
  }

  /** What validity says, task by task: running iff exactly one CPU holds it, and then only that CPU's thread runs. */
  lemma RunningIffHeld(s: State, i: nat)
    requires Valid(s) && i < |s.tasks| && s.tasks[i].pid != -1
    ensures s.tasks[i].status == Running <==> HeldBy(s.cpus, s.tasks[i].pid)
    ensures forall c, d :: 0 <= c < |s.cpus| && 0 <= d < |s.cpus| && s.cpus[c].pid == s.cpus[d].pid == s.tasks[i].pid ==> c == d
    ensures forall c :: 0 <= c < |s.cpus| && s.cpus[c].pid == s.tasks[i].pid ==>
      OnlyRunning(s.tasks[i].threads, s.cpus[c].tid) && s.cpus[c].pageMap == s.tasks[i].pageMap
    ensures s.tasks[i].status == Waiting ==> AllWaiting(s.tasks[i].threads)
  {
    assert TaskValid(s.tasks[i], s.taskCnt, s.threadCnt);
    TaskIndexIs(s.tasks, i);
    forall c | 0 <= c < |s.cpus| && s.cpus[c].pid == s.tasks[i].pid
      ensures CpuValid(s.tasks, s.cpus[c])
    {
    }
  }

  // ---------------------------------------------------------------------------------------
  // Contexts

  datatype Context = Context(regs: Registers, fs: nat, gs: nat)

  datatype Event =
    | Created(tid: int, context: Context)
    | Preempted(tid: int, context: Context)
    | Resumed(tid: int, context: Context)

  function Saved(t: Thread): Context {
    Context(t.regs, t.fs, t.gs)
  }

  /** The thread that an occupied CPU runs. */
  function Current(s: State, c: nat): Thread
    requires c < |s.cpus|
    requires var l := TaskIndex(s.tasks, s.cpus[c].pid);
      l < |s.tasks| && ThreadIndex(s.tasks[l].threads, s.cpus[c].tid) < |s.tasks[l].threads|
  {
    var l := TaskIndex(s.tasks, s.cpus[c].pid);
    s.tasks[l].threads[ThreadIndex(s.tasks[l].threads, s.cpus[c].tid)]
  }

  /** `reschedule` on `c` reaches `switch_task`. */
  predicate Switches(s: State, c: nat)
    requires c < |s.cpus|
  {
    var k := NextTask(s, c);
    0 <= k < |s.tasks| && NextThread(s, k) != -1
  }

  /** The context that code on the CPU has when it is interrupted with `regs`. */
  function Live(cpu: Cpu, regs: Registers): Context {
    Context(regs, cpu.fsBase, cpu.UserGs())
  }

  /** What a step does to threads: the interrupted context before it, the loaded one after it. */
  function Events(s: State, step: Step): seq<Event>
    requires Valid(s) && Enabled(s, step)
  {
    match step
    case MakeThread(pid, regs) =>
      if CreateThread(s, pid, regs).threadCnt > s.threadCnt then [Created(s.threadCnt, Context(regs, 0, 0))] else []
    case Tick(c, regs) =>
      if !Switches(s, c) then []
      else
        var r := Reschedule(s, c, regs);
        SwitchOccupies(s, c, regs);
        (if s.cpus[c].pid == -1 then [] else [Preempted(s.cpus[c].tid, Live(s.cpus[c], regs))]) +
        [Resumed(r.cpus[c].tid, Live(r.cpus[c], Current(r, c).regs))]
    case _ => []
  }

  lemma SwitchOccupies(s: State, c: nat, regs: Registers)
    requires Valid(s) && c < |s.cpus| && Switches(s, c)
    ensures var r := Reschedule(s, c, regs);
      r.cpus[c].pid != -1 && CpuValid(r.tasks, r.cpus[c])
  {
    var k := NextTask(s, c);
    ChosenWaits(s, c, regs);
    RescheduleKeepsValid(s, c, regs);
    SaveKeepsShape(Aged(s, k), c, regs);
    var v := Save(Aged(s, k), c, regs);
    assert TaskValid(v.tasks[k], v.taskCnt, v.threadCnt);
  }

  /** A tick that does not switch returns to the interrupted code with the CPU as it was. */
  lemma NoSwitchNoChange(s: State, c: nat, regs: Registers)
    requires c < |s.cpus| && !Switches(s, c)
    ensures Reschedule(s, c, regs).cpus == s.cpus
  {
  }

  /** The history `h` continued with the events of a run. */
  function History(s: State, steps: seq<Step>, h: seq<Event>): seq<Event>
    requires Valid(s) && RunEnabled(s, steps)
    decreases |steps|
  {
    if steps == [] then h
    else
      ApplyKeepsValid(s, steps[0]);
      History(Apply(s, steps[0]), steps[1..], h + Events(s, steps[0]))
  }

  /** The latest event of each thread. */
  function Last(h: seq<Event>): map<int, Event> {
    if h == [] then map[] else Last(h[..|h| - 1])[h[|h| - 1].tid := h[|h| - 1]]
  }

  /** The thread of `e` was last created or preempted, with the same context. */
  predicate Restores(h: seq<Event>, e: Event) {
    e.tid in Last(h) && !Last(h)[e.tid].Resumed? && Last(h)[e.tid].context == e.context
  }

  /** Each resumption comes after a creation or preemption of that thread, and restores its context. */
  predicate ContextsRestored(h: seq<Event>) {
    forall i :: 0 <= i < |h| && h[i].Resumed? ==> Restores(h[..i], h[i])
  }

  predicate ThreadRecorded(t: Thread, last: map<int, Event>) {
    t.tid in last &&
    if t.status == Running then last[t.tid].Resumed?
    else !last[t.tid].Resumed? && last[t.tid].context == Saved(t)
  }

  predicate Recorded(s: State, h: seq<Event>) {
    forall i, a :: 0 <= i < |s.tasks| && 0 <= a < |s.tasks[i].threads| ==> ThreadRecorded(s.tasks[i].threads[a], Last(h))
  }

  lemma LastAppend(h: seq<Event>, e: Event)
    ensures Last(h + [e]) == Last(h)[e.tid := e]
    ensures (ContextsRestored(h) && (e.Resumed? ==> Restores(h, e))) ==> ContextsRestored(h + [e])
  {
    assert (h + [e])[..|h|] == h;
    assert forall i :: 0 <= i <= |h| ==> (h + [e])[..i] == h[..i];
  }

  lemma AgeKeepsRecorded(s: State, k: int, h: seq<Event>)
    requires Recorded(s, h) && -1 <= k < |s.tasks|
    ensures Recorded(Aged(s, k), h)
  {
    var r := Aged(s, k);
    forall i, a | 0 <= i < |r.tasks| && 0 <= a < |r.tasks[i].threads|
      ensures ThreadRecorded(r.tasks[i].threads[a], Last(h))
    {
      assert ThreadRecorded(s.tasks[i].threads[a], Last(h));
    }
  }

  lemma SaveKeepsRecorded(s: State, c: nat, regs: Registers, h: seq<Event>)
    requires Valid(s) && c < |s.cpus| && s.cpus[c].pid != -1 && Recorded(s, h) && ContextsRestored(h)
    ensures var e := Preempted(s.cpus[c].tid, Live(s.cpus[c], regs));
      Recorded(Save(s, c, regs), h + [e]) && ContextsRestored(h + [e])
  {
    var cpu, r := s.cpus[c], Save(s, c, regs);
    var e := Preempted(cpu.tid, Live(cpu, regs));
    LastAppend(h, e);
    assert CpuValid(s.tasks, cpu);
    var l := TaskIndex(s.tasks, cpu.pid);
    var t := ThreadIndex(s.tasks[l].threads, cpu.tid);
    forall i, a | 0 <= i < |r.tasks| && 0 <= a < |r.tasks[i].threads|
      ensures ThreadRecorded(r.tasks[i].threads[a], Last(h + [e]))
    {
      assert ThreadRecorded(s.tasks[i].threads[a], Last(h));
      if !(i == l && a == t) {
        OtherTid(s, l, t, i, a);
      }
    }
  }

  lemma OtherTid(s: State, i: nat, a: nat, j: nat, b: nat)
    requires TasksValid(s) && i < |s.tasks| && a < |s.tasks[i].threads| && j < |s.tasks| && b < |s.tasks[j].threads|
    requires !(i == j && a == b)
    ensures s.tasks[i].threads[a].tid != s.tasks[j].threads[b].tid
  {
    assert TaskValid(s.tasks[i], s.taskCnt, s.threadCnt);
    if i < j {
      assert Apart(s.tasks[i].threads, s.tasks[j].threads);
    } else if j < i {
      assert Apart(s.tasks[j].threads, s.tasks[i].threads);
    }
  }

  lemma DispatchKeepsRecorded(s: State, c: nat, k: nat, t: nat, h: seq<Event>)
    requires Valid(s) && c < |s.cpus| && k < |s.tasks| && t < |s.tasks[k].threads|
    requires s.cpus[c].pid == -1 && s.tasks[k].status == Waiting && Recorded(s, h) && ContextsRestored(h)
    ensures var thread := s.tasks[k].threads[t];
      var e := Resumed(thread.tid, Saved(thread));
      Recorded(Dispatch(s, c, k, t), h + [e]) && ContextsRestored(h + [e])
  {
    var thread, r := s.tasks[k].threads[t], Dispatch(s, c, k, t);
    var e := Resumed(thread.tid, Saved(thread));
    assert TaskValid(s.tasks[k], s.taskCnt, s.threadCnt);
    assert ThreadRecorded(thread, Last(h));
    LastAppend(h, e);
    forall i, a | 0 <= i < |r.tasks| && 0 <= a < |r.tasks[i].threads|
      ensures ThreadRecorded(r.tasks[i].threads[a], Last(h + [e]))
    {
      assert ThreadRecorded(s.tasks[i].threads[a], Last(h));
      if !(i == k && a == t) {
        OtherTid(s, k, t, i, a);
      }
    }
  }

  /** What the CPU and the loaded registers show after a dispatch is the dispatched thread's saved context. */
  lemma DispatchLoads(s: State, c: nat, k: nat, t: nat)
    requires Valid(s) && c < |s.cpus| && k < |s.tasks| && t < |s.tasks[k].threads|
    requires s.cpus[c].pid == -1 && s.tasks[k].status == Waiting
    ensures var r, thread := Dispatch(s, c, k, t), s.tasks[k].threads[t];
      && r.cpus[c].pid != -1 && CpuValid(r.tasks, r.cpus[c])
      && r.cpus[c].tid == thread.tid && Live(r.cpus[c], Current(r, c).regs) == Saved(thread)
      && r.cpus[c].user == thread.regs.User()
  {
    var r := Dispatch(s, c, k, t);
    DispatchedTask(s, c, k, t);
    assert TaskValid(s.tasks[k], s.taskCnt, s.threadCnt);
    TaskIndexIs(s.tasks, k);
    SameTags(s.tasks, r.tasks, s.tasks[k].tag);
    ThreadIndexIs(s.tasks[k].threads, t);
    SameTids(s.tasks[k].threads, r.tasks[k].threads, r.cpus[c].tid);
  }

  /** The events of a switch: the CPU's thread is preempted, then the chosen thread is resumed. */
  lemma SwitchEvents(s: State, c: nat, regs: Registers)
    requires Valid(s) && Enabled(s, Tick(c, regs)) && Switches(s, c)
    ensures var k, t := NextTask(s, c), NextThread(s, NextTask(s, c));
      var v := Save(Aged(s, k), c, regs);
      && |v.tasks| == |s.tasks| && t < |v.tasks[k].threads|
      && Events(s, Tick(c, regs)) ==
         (if s.cpus[c].pid == -1 then [] else [Preempted(s.cpus[c].tid, Live(s.cpus[c], regs))]) +
         [Resumed(v.tasks[k].threads[t].tid, Saved(v.tasks[k].threads[t]))]
  {
    var k, t := NextTask(s, c), NextThread(s, NextTask(s, c));
    ChosenWaits(s, c, regs);
    SaveKeepsShape(Aged(s, k), c, regs);
    DispatchLoads(Save(Aged(s, k), c, regs), c, k, t);
  }

  lemma SwitchKeepsRecorded(s: State, c: nat, regs: Registers, h: seq<Event>)
    requires Valid(s) && Enabled(s, Tick(c, regs)) && Switches(s, c) && Recorded(s, h) && ContextsRestored(h)
    ensures var h' := h + Events(s, Tick(c, regs));
      Recorded(Reschedule(s, c, regs), h') && ContextsRestored(h')
  {
    hide Valid, Recorded, ContextsRestored, Events;
    var k, t := NextTask(s, c), NextThread(s, NextTask(s, c));
    SwitchEvents(s, c, regs);
    AgeKeepsValid(s, k);
    AgeKeepsRecorded(s, k, h);
    ChosenWaits(s, c, regs);
    SaveThenDispatch(Aged(s, k), c, regs, k, t, h);
  }

  lemma SaveThenDispatch(s: State, c: nat, regs: Registers, k: nat, t: nat, h: seq<Event>)
    requires Valid(s) && c < |s.cpus| && Recorded(s, h) && ContextsRestored(h)
    requires var v := Save(s, c, regs);
      Valid(v) && c < |v.cpus| && v.cpus[c].pid == -1 && k < |v.tasks| && v.tasks[k].status == Waiting && t < |v.tasks[k].threads|
    ensures var v := Save(s, c, regs);
      var h' := h + ((if s.cpus[c].pid == -1 then [] else [Preempted(s.cpus[c].tid, Live(s.cpus[c], regs))]) +
                     [Resumed(v.tasks[k].threads[t].tid, Saved(v.tasks[k].threads[t]))]);
      Recorded(Dispatch(v, c, k, t), h') && ContextsRestored(h')
  {
    var v := Save(s, c, regs);
    var resumed := Resumed(v.tasks[k].threads[t].tid, Saved(v.tasks[k].threads[t]));
    if s.cpus[c].pid == -1 {
      DispatchKeepsRecorded(v, c, k, t, h);
      assert h + ([] + [resumed]) == h + [resumed];
    } else {
      var e := Preempted(s.cpus[c].tid, Live(s.cpus[c], regs));
      SaveKeepsRecorded(s, c, regs, h);
      DispatchKeepsRecorded(v, c, k, t, h + [e]);
      assert h + ([e] + [resumed]) == h + [e] + [resumed];
    }
  }

  lemma TickKeepsRecorded(s: State, c: nat, regs: Registers, h: seq<Event>)
    requires Valid(s) && Enabled(s, Tick(c, regs)) && Recorded(s, h) && ContextsRestored(h)
    ensures var h' := h + Events(s, Tick(c, regs));
      Recorded(Reschedule(s, c, regs), h') && ContextsRestored(h')
  {
    if Switches(s, c) {
      SwitchKeepsRecorded(s, c, regs, h);
    } else {
      var k := NextTask(s, c);
      AgeKeepsRecorded(s, if k == |s.tasks| then -1 else k, h);
      assert h + Events(s, Tick(c, regs)) == h;
    }
  }

  lemma TouchKeepsRecorded(s: State, tag: int, h: seq<Event>)
    requires Recorded(s, h)
    ensures Recorded(s.(tasks := Touch(s.tasks, tag)), h)
  {
  }

  lemma CreateKeepsRecorded(s: State, step: Step, h: seq<Event>)
    requires Valid(s) && (step.MakeTask? || step.MakeThread?) && Recorded(s, h) && ContextsRestored(h)
    ensures var h' := h + Events(s, step);
      Recorded(Apply(s, step), h') && ContextsRestored(h')
  {
    match step
    case MakeTask(ppid, pageMap) =>
      TouchKeepsRecorded(s, ppid, h);
      var s1 := s.(tasks := Touch(s.tasks, ppid));
      TouchKeepsRecorded(s1, s.taskCnt, h);
      TouchFinds(s1.tasks, s.taskCnt);
      var s2, r := s1.(tasks := Touch(s1.tasks, s.taskCnt)), Apply(s, step);
      assert r.tasks == s2.tasks[TaskIndex(s2.tasks, s.taskCnt) := Task(s.taskCnt, s.taskCnt, ppid, 0, Waiting, [], pageMap)];
      forall i, a | 0 <= i < |r.tasks| && 0 <= a < |r.tasks[i].threads|
        ensures ThreadRecorded(r.tasks[i].threads[a], Last(h))
      {
        assert ThreadRecorded(s2.tasks[i].threads[a], Last(h));
      }
      assert h + Events(s, step) == h;
    case MakeThread(pid, regs) =>
      TouchKeepsRecorded(s, pid, h);
      TouchKeepsValid(s, pid);
      TouchFinds(s.tasks, pid);
      var s1 := s.(tasks := Touch(s.tasks, pid));
      if s1.tasks[TaskIndex(s1.tasks, pid)].pid == -1 {
        assert h + Events(s, step) == h;
      } else {
        AppendKeepsRecorded(s1, TaskIndex(s1.tasks, pid), regs, h);
      }
  }

  lemma AppendKeepsRecorded(s: State, i: nat, regs: Registers, h: seq<Event>)
    requires TasksValid(s) && i < |s.tasks| && Recorded(s, h) && ContextsRestored(h)
    ensures var t := s.tasks[i].(threads := s.tasks[i].threads + [NewThread(s.threadCnt, regs)]);
      var h' := h + [Created(s.threadCnt, Context(regs, 0, 0))];
      Recorded(s.(tasks := s.tasks[i := t], threadCnt := s.threadCnt + 1), h') && ContextsRestored(h')
  {
    var t := s.tasks[i].(threads := s.tasks[i].threads + [NewThread(s.threadCnt, regs)]);
    var r := s.(tasks := s.tasks[i := t], threadCnt := s.threadCnt + 1);
    var e := Created(s.threadCnt, Context(regs, 0, 0));
    LastAppend(h, e);
    forall j, a | 0 <= j < |r.tasks| && 0 <= a < |r.tasks[j].threads|
      ensures ThreadRecorded(r.tasks[j].threads[a], Last(h + [e]))
    {
      assert TaskValid(s.tasks[j], s.taskCnt, s.threadCnt);
      if a < |s.tasks[j].threads| {
        assert ThreadRecorded(s.tasks[j].threads[a], Last(h));
      }
    }
  }

  lemma StepKeepsRecorded(s: State, step: Step, h: seq<Event>)
    requires Valid(s) && Enabled(s, step) && Recorded(s, h) && ContextsRestored(h)
    ensures Recorded(Apply(s, step), h + Events(s, step)) && ContextsRestored(h + Events(s, step))
  {
    match step
    case MakeTask(_, _) => CreateKeepsRecorded(s, step, h);
    case MakeThread(_, _) => CreateKeepsRecorded(s, step, h);
    case Tick(c, regs) => TickKeepsRecorded(s, c, regs, h);
    case Execute(_, _, _, _) => assert h + Events(s, step) == h;
  }

  lemma {:induction false} RunKeepsRecorded(s: State, steps: seq<Step>, h: seq<Event>)
    requires Valid(s) && RunEnabled(s, steps) && Recorded(s, h) && ContextsRestored(h)
    ensures ContextsRestored(History(s, steps, h))
    decreases |steps|
  {
    if steps != [] {
      ApplyKeepsValid(s, steps[0]);
      StepKeepsRecorded(s, steps[0], h);
      RunKeepsRecorded(Apply(s, steps[0]), steps[1..], h + Events(s, steps[0]));
    }
  }

  /**
   Context integrity: in every run every resumed thread sees the registers, FS base and GS
   base it had when it was last preempted, or was created with.
   */
  lemma RunRestoresContexts(s: State, steps: seq<Step>)
    requires Initial(s) && RunEnabled(s, steps)
    ensures Valid(s) && ContextsRestored(History(s, steps, []))
  {
    RunKeepsRecorded(s, steps, []);
  }
}
