/** Why the bound of SchedulerFairness needs its hypotheses: tasks without a thread stop everybody behind them. */
module SchedulerStalls {
  import opened Scheduler
  import opened SchedulerSafety
  import opened SchedulerRuns
  import opened SchedulerFairness

  /** Task `i` waits without a thread, and comes before the waiting task `w`. */
  predicate Blocks(s: State, i: nat, w: nat) {
    && i < |s.tasks| && w < |s.tasks| && s.tasks[i].status == Waiting && s.tasks[i].threads == []
    && s.tasks[w].status == Waiting && Precedes(s.tasks, i, w)
  }

  /** A step that gives task `i` no thread. */
  predicate NoThreadFor(step: Step, tag: int) {
    step.MakeThread? ==> step.pid != tag
  }

  /** With somebody waiting, a tick goes on with the oldest waiting task. */
  lemma ChosenIsOldest(s: State, c: nat, w: nat)
    requires c < |s.cpus| && w < |s.tasks| && s.tasks[w].status == Waiting
    ensures var k := NextTask(s, c);
      0 <= k < |s.tasks| && s.tasks[k].status == Waiting && (k == w || Precedes(s.tasks, k, w))
  {
    var candidates := TaskCandidates(AgeTasks(s.tasks));
    BestIsOldest(candidates);
    assert candidates[w].waiting;
    assert candidates[NextTask(s, c)].waiting;
  }

  /** A tick, switching or not: every task but the one switched to is there as before, one older. */
  lemma TickAges(s: State, c: nat, regs: Registers, i: nat)
    requires c < |s.cpus| && i < |s.tasks| && s.tasks[i].status == Waiting && !(Switches(s, c) && NextTask(s, c) == i)
    ensures var r := Reschedule(s, c, regs);
      |r.tasks| == |s.tasks| && StillThere(s.tasks[i], r.tasks[i], s.tasks[i].idle + 1)
  {
    if Switches(s, c) {
      SwitchAges(s, c, regs);
    }
  }

  /** Without threads there is nothing to switch to. */
  lemma NoThreadNoSwitch(s: State, c: nat, i: nat)
    requires c < |s.cpus| && i < |s.tasks| && s.tasks[i].threads == [] && NextTask(s, c) == i
    ensures !Switches(s, c)
  {
  }

  lemma TickKeepsBlocks(s: State, c: nat, regs: Registers, i: nat, w: nat)
    requires c < |s.cpus| && Blocks(s, i, w)
    ensures Blocks(Reschedule(s, c, regs), i, w) && !(Switches(s, c) && NextTask(s, c) == w)
  {
    hide Reschedule, NextTask, Switches;
    ChosenIsOldest(s, c, i);
    if NextTask(s, c) == i {
      NoThreadNoSwitch(s, c, i);
    }
    TickAges(s, c, regs, i);
    TickAges(s, c, regs, w);
  }

  lemma CreationKeepsBlocks(s: State, step: Step, i: nat, w: nat)
    requires Valid(s) && (step.MakeTask? || step.MakeThread?) && Blocks(s, i, w) && NoThreadFor(step, s.tasks[i].tag)
    ensures var r := Apply(s, step); Blocks(r, i, w) && r.tasks[i].tag == s.tasks[i].tag
  {
    CreationKeepsTask(s, step, i);
    CreationKeepsTask(s, step, w);
  }

  /** Creating a task or a thread leaves every waiting task in its place, with its age. */
  lemma CreationKeepsTask(s: State, step: Step, i: nat)
    requires Valid(s) && (step.MakeTask? || step.MakeThread?) && i < |s.tasks| && s.tasks[i].status == Waiting
    ensures var r := Apply(s, step);
      && |s.tasks| <= |r.tasks| && r.tasks[i] == s.tasks[i].(threads := r.tasks[i].threads)
      && (NoThreadFor(step, s.tasks[i].tag) ==> r.tasks[i] == s.tasks[i])
  {
    assert TaskValid(s.tasks[i], s.taskCnt, s.threadCnt);
    match step
    case MakeTask(ppid, pageMap) =>
      var tasks := Touch(s.tasks, ppid);
      TouchFinds(tasks, s.taskCnt);
      assert tasks[i].tag != s.taskCnt;
    case MakeThread(pid, regs) =>
      TouchFinds(s.tasks, pid);
  }

  lemma StepKeepsBlocks(s: State, step: Step, i: nat, w: nat)
    requires Valid(s) && Enabled(s, step) && Blocks(s, i, w) && NoThreadFor(step, s.tasks[i].tag)
    ensures var r := Apply(s, step); Blocks(r, i, w) && r.tasks[i].tag == s.tasks[i].tag
    ensures step.Tick? ==> !(Switches(s, step.c) && NextTask(s, step.c) == w)
  {
    hide Switches, NextTask, Valid;
    match step
    case MakeTask(_, _) => CreationKeepsBlocks(s, step, i, w);
    case MakeThread(_, _) => CreationKeepsBlocks(s, step, i, w);
    case Tick(c, regs) =>
      TickKeepsBlocks(s, c, regs, i, w);
      TickKeepsTag(s, c, regs, i);
    case Execute(_, _, _, _) =>
  }

  lemma TickKeepsTag(s: State, c: nat, regs: Registers, i: nat)
    requires c < |s.cpus| && i < |s.tasks| && s.tasks[i].status == Waiting
    ensures var r := Reschedule(s, c, regs); |r.tasks| == |s.tasks| && r.tasks[i].tag == s.tasks[i].tag
  {
    if Switches(s, c) {
      SwitchAges(s, c, regs);
    }
  }

  /** While a task without a thread is ahead of `w`, no run chooses `w`. */
  lemma {:induction false} ThreadlessBlocks(s: State, steps: seq<Step>, i: nat, w: nat)
    requires Valid(s) && RunEnabled(s, steps) && Blocks(s, i, w)
    requires forall step :: step in steps ==> NoThreadFor(step, s.tasks[i].tag)
    ensures w !in Picks(s, steps)
    decreases |steps|
  {
    hide Valid, Apply, Blocks, NextTask, Switches;
    if steps != [] {
      assert steps[0] in steps;
      assert Blocks(s, i, w) ==> i < |s.tasks| by { BlocksBounds(s, i, w); }
      StepKeepsBlocks(s, steps[0], i, w);
      ApplyKeepsValid(s, steps[0]);
      ThreadlessBlocks(Apply(s, steps[0]), steps[1..], i, w);
    }
  }

  lemma BlocksBounds(s: State, i: nat, w: nat)
    requires Blocks(s, i, w)
    ensures i < |s.tasks| && w < |s.tasks|
  {
  }

  /** A task that runs has a thread. */
  lemma RunningHasThread(s: State, i: nat)
    requires Valid(s) && i < |s.tasks| && s.tasks[i].pid != -1 && s.tasks[i].threads == []
    ensures s.tasks[i].status == Waiting
  {
    assert TaskValid(s.tasks[i], s.taskCnt, s.threadCnt);
    if s.tasks[i].status == Running {
      var c :| 0 <= c < |s.cpus| && s.cpus[c].pid == s.tasks[i].tag;
      assert CpuValid(s.tasks, s.cpus[c]);
      TaskIndexIs(s.tasks, i);
    }
  }

  /**
   In every run without new threads that has as many ticks as there are tasks, a settled
   waiting task with a thread is chosen if and only if every task ahead of it has a thread.
   */
  lemma ChosenIffThreadsAhead(s: State, steps: seq<Step>, w: nat)
    requires Valid(s) && RunEnabled(s, steps) && Ticks(steps) >= |s.tasks|
    requires forall step :: step in steps ==> !step.MakeThread?
    requires w < |s.tasks| && s.tasks[w].status == Waiting && s.tasks[w].threads != [] && Settled(s, w)
    ensures w in Picks(s, steps) <==> forall i :: i in Ahead(s, w) ==> s.tasks[i].threads != []
  {
    hide Valid, RunEnabled, Picks, Ticks;
    if forall i :: i in Ahead(s, w) ==> s.tasks[i].threads != [] {
      WaitingTaskIsChosen(s, steps, w);
    } else {
      var i :| i in Ahead(s, w) && s.tasks[i].threads == [];
      RunningHasThread(s, i);
      ThreadlessBlocks(s, steps, i, w);
    }
  }

  // ---------------------------------------------------------------------------------------
  // Everybody stalls

  /** Task `i` waits without a thread, and no waiting task comes before it. */
  predicate Stalls(s: State, i: nat) {
    && i < |s.tasks| && s.tasks[i].status == Waiting && s.tasks[i].threads == [] && Settled(s, i)
    && forall j :: 0 <= j < |s.tasks| && s.tasks[j].status == Waiting ==> !Precedes(s.tasks, j, i)
  }

  lemma TickKeepsStalls(s: State, c: nat, regs: Registers, i: nat)
    requires c < |s.cpus| && Stalls(s, i)
    ensures !Switches(s, c) && Stalls(Reschedule(s, c, regs), i) && Reschedule(s, c, regs).tasks[i].tag == s.tasks[i].tag
  {
    ChosenIsOldest(s, c, i);
    assert NextTask(s, c) == i;
  }

  lemma TouchKeepsStalls(s: State, tag: int, i: nat)
    requires Stalls(s, i)
    ensures var r := s.(tasks := Touch(s.tasks, tag)); Stalls(r, i) && r.tasks[i] == s.tasks[i]
  {
  }

  lemma FillKeepsStalls(s: State, ppid: int, pageMap: nat, i: nat)
    requires Valid(s) && TaskIndex(s.tasks, s.taskCnt) < |s.tasks| && Stalls(s, i)
    ensures var t := Task(s.taskCnt, s.taskCnt, ppid, 0, Waiting, [], pageMap);
      var r := s.(tasks := s.tasks[TaskIndex(s.tasks, s.taskCnt) := t], taskCnt := s.taskCnt + 1);
      Stalls(r, i) && r.tasks[i] == s.tasks[i]
  {
    var n := TaskIndex(s.tasks, s.taskCnt);
    assert TaskValid(s.tasks[n], s.taskCnt, s.threadCnt) && TaskValid(s.tasks[i], s.taskCnt, s.threadCnt);
    hide Valid, TaskIndex;
  }

  lemma ThreadKeepsStalls(s: State, pid: int, regs: Registers, i: nat)
    requires Stalls(s, i) && TaskIndex(s.tasks, pid) < |s.tasks| && pid != s.tasks[i].tag
    ensures var r := CreateThread(s, pid, regs); Stalls(r, i) && r.tasks[i] == s.tasks[i]
  {
    hide TaskIndex;
  }

  lemma CreationKeepsStalls(s: State, step: Step, i: nat)
    requires Valid(s) && (step.MakeTask? || step.MakeThread?) && Stalls(s, i) && NoThreadFor(step, s.tasks[i].tag)
    ensures var r := Apply(s, step); Stalls(r, i) && r.tasks[i].tag == s.tasks[i].tag
  {
    hide Stalls, Valid, Touch;
    match step
    case MakeTask(ppid, pageMap) =>
      var s1 := s.(tasks := Touch(s.tasks, ppid));
      StallsBound(s, i);
      TouchKeepsStalls(s, ppid, i);
      TouchKeepsValid(s, ppid);
      TouchKeepsStalls(s1, s.taskCnt, i);
      TouchKeepsValid(s1, s.taskCnt);
      TouchFinds(s1.tasks, s.taskCnt);
      FillKeepsStalls(s1.(tasks := Touch(s1.tasks, s.taskCnt)), ppid, pageMap, i);
    case MakeThread(pid, regs) =>
      StallsBound(s, i);
      TouchKeepsStalls(s, pid, i);
      TouchFinds(s.tasks, pid);
      TouchedThread(s, pid, regs);
      ThreadKeepsStalls(s.(tasks := Touch(s.tasks, pid)), pid, regs, i);
  }

  lemma StallsBound(s: State, i: nat)
    requires Stalls(s, i)
    ensures i < |s.tasks|
  {
  }

  /** Looking the task up first makes no difference to `create_thread`. */
  lemma TouchedThread(s: State, pid: int, regs: Registers)
    ensures CreateThread(s.(tasks := Touch(s.tasks, pid)), pid, regs) == CreateThread(s, pid, regs)
  {
    TouchFinds(s.tasks, pid);
  }

  /** As long as it gets no thread, no tick on any CPU switches. */
  lemma {:induction false} ThreadlessStallsAll(s: State, steps: seq<Step>, i: nat)
    requires Valid(s) && RunEnabled(s, steps) && Stalls(s, i)
    requires forall step :: step in steps ==> NoThreadFor(step, s.tasks[i].tag)
    ensures Picks(s, steps) == []
    decreases |steps|
  {
    hide Valid, Settled, NextTask;
    if steps != [] {
      var step := steps[0];
      assert step in steps;
      match step {
        case MakeTask(_, _) => CreationKeepsStalls(s, step, i);
        case MakeThread(_, _) => CreationKeepsStalls(s, step, i);
        case Tick(c, regs) => TickKeepsStalls(s, c, regs, i);
        case Execute(_, _, _, _) => ExecuteKeepsStalls(s, step, i);
      }
      ApplyKeepsValid(s, step);
      ThreadlessStallsAll(Apply(s, step), steps[1..], i);
    }
  }

  lemma ExecuteKeepsStalls(s: State, step: Step, i: nat)
    requires Enabled(s, step) && step.Execute? && Stalls(s, i)
    ensures Stalls(Apply(s, step), i) && Apply(s, step).tasks == s.tasks
  {
  }

  // ---------------------------------------------------------------------------------------
  // A placeholder that fills up

  /**
   Asking for a thread of task 1 before that task exists leaves a placeholder in front. Task 0
   comes next and is not settled; then task 1 is made in the placeholder, and the first tick
   chooses it over task 0, which was there earlier.
   */
  lemma PlaceholderOvertakes(cpu: Cpu, regs: Registers)
    requires cpu.pid == -1 && cpu.tid == -1 && cpu.GsValid()
    ensures var s := State([], [cpu], 0, 0);
      var mid := Apply(Apply(Apply(s, MakeThread(1, regs)), MakeTask(1, 0)), MakeThread(0, regs));
      var r := Apply(Apply(mid, MakeTask(0, 0)), MakeThread(1, regs));
      && Initial(s) && |mid.tasks| == 2 && mid.tasks[1].pid == 0 && mid.tasks[1].status == Waiting && !Settled(mid, 1)
      && |r.tasks| == 2 && r.tasks[0].pid == 1 && r.tasks[1].pid == 0 && |r.cpus| == 1 && NextTask(r, 0) == 0
  {
    hide CreateTask, CreateThread, Best;
    ToMiddle(cpu, regs);
    FromMiddle(cpu, regs);
    assert Middle(cpu, regs).tasks[0] == Placeholder(1);
    var r := End(cpu, regs);
    BestIsOldest(TaskCandidates(AgeTasks(r.tasks)));
    assert TaskCandidates(AgeTasks(r.tasks))[0].waiting;
  }

  function Early(regs: Registers): Task {
    Task(0, 0, 1, 0, Waiting, [NewThread(0, regs)], 0)
  }

  function Middle(cpu: Cpu, regs: Registers): State {
    State([Placeholder(1), Early(regs)], [cpu], 1, 1)
  }

  function End(cpu: Cpu, regs: Registers): State {
    State([Task(1, 1, 0, 0, Waiting, [NewThread(1, regs)], 0), Early(regs)], [cpu], 2, 2)
  }

  lemma ToMiddle(cpu: Cpu, regs: Registers)
    ensures CreateThread(CreateTask(CreateThread(State([], [cpu], 0, 0), 1, regs), 1, 0), 0, regs) == Middle(cpu, regs)
  {
    hide CreateTask, CreateThread;
    var s, s1 := State([], [cpu], 0, 0), State([Placeholder(1)], [cpu], 0, 0);
    MissesThread(s, 1, regs);
    assert s.tasks + [Placeholder(1)] == s1.tasks;
    assert Touch(s1.tasks, 1) == s1.tasks && Touch(s1.tasks, 0) == [Placeholder(1), Placeholder(0)];
    MakesTask(s1, 1, 0, [Placeholder(1), Placeholder(0)], 1);
    var s2 := State([Placeholder(1), Early(regs).(threads := [])], [cpu], 1, 0);
    assert CreateTask(s1, 1, 0) == s2;
    MakesThread(s2, 0, regs, 1);
    assert s2.tasks[1].threads + [NewThread(0, regs)] == Early(regs).threads;
  }

  lemma FromMiddle(cpu: Cpu, regs: Registers)
    ensures CreateThread(CreateTask(Middle(cpu, regs), 0, 0), 1, regs) == End(cpu, regs)
  {
    hide CreateTask, CreateThread;
    var mid := Middle(cpu, regs);
    assert mid.tasks[0].tag == 1 && mid.tasks[1].tag == 0;
    assert Touch(mid.tasks, 0) == mid.tasks && Touch(mid.tasks, 1) == mid.tasks;
    MakesTask(mid, 0, 0, mid.tasks, 0);
    var s4 := State([Task(1, 1, 0, 0, Waiting, [], 0), Early(regs)], [cpu], 2, 1);
    assert CreateTask(mid, 0, 0) == s4;
    MakesThread(s4, 1, regs, 0);
    assert s4.tasks[0].threads + [NewThread(1, regs)] == [NewThread(1, regs)];
  }

  /** `create_thread` for a task that is not there leaves a placeholder. */
  lemma MissesThread(s: State, pid: int, regs: Registers)
    requires TaskIndex(s.tasks, pid) == |s.tasks|
    ensures CreateThread(s, pid, regs) == s.(tasks := s.tasks + [Placeholder(pid)])
  {
    TouchFinds(s.tasks, pid);
    assert TaskIndex(Touch(s.tasks, pid), pid) == |s.tasks|;
  }

  /** `create_task` once both look-ups have given the list `touched`, with the new tag at `n`. */
  lemma MakesTask(s: State, ppid: int, pageMap: nat, touched: seq<Task>, n: nat)
    requires Touch(Touch(s.tasks, ppid), s.taskCnt) == touched && n < |touched| && touched[n].tag == s.taskCnt
    requires forall j :: 0 <= j < n ==> touched[j].tag != s.taskCnt
    ensures CreateTask(s, ppid, pageMap) ==
      s.(tasks := touched[n := Task(s.taskCnt, s.taskCnt, ppid, 0, Waiting, [], pageMap)], taskCnt := s.taskCnt + 1)
  {
    assert TaskIndex(touched, s.taskCnt) == n;
  }

  lemma MakesThread(s: State, pid: int, regs: Registers, n: nat)
    requires n < |s.tasks| && s.tasks[n].tag == pid && s.tasks[n].pid != -1
    requires forall j :: 0 <= j < n ==> s.tasks[j].tag != pid
    ensures CreateThread(s, pid, regs) == s.(threadCnt := s.threadCnt + 1,
      tasks := s.tasks[n := s.tasks[n].(threads := s.tasks[n].threads + [NewThread(s.threadCnt, regs)])])
  {
    assert TaskIndex(s.tasks, pid) == n;
  }
}
