/** `reschedule` in place: the loops, the swapgs sequence and the lock of kernel/sched/scheduler.cpp. */
module SchedulerCore {
  import opened Scheduler
  import opened SchedulerSafety

  class Core {
    var tasks: seq<Task>
    var cpus: seq<Cpu>
    var taskCnt: nat
    var threadCnt: nat
    var locked: bool
    // how often the lock was taken and released
    ghost var taken: nat
    ghost var released: nat

    ghost function Value(): State
      reads this
    {
      State(tasks, cpus, taskCnt, threadCnt)
    }

    constructor (cpus: seq<Cpu>)
      ensures Value() == State([], cpus, 0, 0) && !locked && taken == released == 0
    {
      tasks, this.cpus, taskCnt, threadCnt, locked := [], cpus, 0, 0, false;
      taken, released := 0, 0;
    }

    /** `spin_lock` returns once the lock is free and then holds it. */
    method Lock()
      requires !locked
      modifies this`locked, this`taken
      ensures locked && taken == old(taken) + 1
    {
      locked := true;
      taken := taken + 1;
    }

    method Release()
      requires locked
      modifies this`locked, this`released
      ensures !locked && released == old(released) + 1
    {
      locked := false;
      released := released + 1;
    }

    method SwapGs(c: nat)
      requires c < |cpus|
      modifies this`cpus
      ensures cpus == old(cpus)[c := old(cpus)[c].SwapGs()]
    {
      cpus := cpus[c := cpus[c].SwapGs()];
    }

    /** `task_list[tag]`: a linear search that appends a default task when it finds none. */
    method Lookup(tag: int) returns (i: nat)
      modifies this`tasks
      ensures tasks == Touch(old(tasks), tag) && i == TaskIndex(tasks, tag) < |tasks|
    {
      TouchFinds(tasks, tag);
      i := 0;
      while i < |tasks| && tasks[i].tag != tag
        invariant 0 <= i <= |tasks| && tasks == old(tasks)
        invariant forall j :: 0 <= j < i ==> tasks[j].tag != tag
      {
        i := i + 1;
      }
      if i == |tasks| {
        tasks := tasks + [Placeholder(tag)];
      }
    }

    method CreateTask(ppid: int, pageMap: nat) returns (pid: int)
      modifies this
      ensures Value() == Scheduler.CreateTask(old(Value()), ppid, pageMap) && locked == old(locked) && taken == old(taken) && released == old(released)
      ensures pid == old(taskCnt)
    {
      var parent := Lookup(ppid);
      pid := taskCnt;
      taskCnt := taskCnt + 1;
      var i := Lookup(pid);
      tasks := tasks[i := Task(pid, pid, ppid, 0, Waiting, [], pageMap)];
    }

    method CreateThread(pid: int, regs: Registers) returns (tid: int)
      modifies this
      ensures Value() == Scheduler.CreateThread(old(Value()), pid, regs) && locked == old(locked) && taken == old(taken) && released == old(released)
      ensures tid == if threadCnt > old(threadCnt) then old(threadCnt) else -1
    {
      var i := Lookup(pid);
      if tasks[i].pid == -1 {
        return -1;
      }
      tid := threadCnt;
      threadCnt := threadCnt + 1;
      tasks := tasks[i := tasks[i].(threads := tasks[i].threads + [NewThread(tid, regs)])];
    }

    /** The `next_pid` loop: age every task and remember the pid of the oldest waiting one. */
    method SelectTask() returns (pid: int)
      modifies this`tasks
      ensures tasks == AgeTasks(old(tasks))
      ensures var b := Best(TaskCandidates(tasks)); pid == if b == -1 then -1 else tasks[b].pid
    {
      hide Best, AgeTasks, TaskCandidates;
      BestNone();
      pid := -1;
      var cnt, i := 0, 0;
      ghost var before, aged := tasks, AgeTasks(tasks);
      ghost var candidates, b := TaskCandidates(aged), -1;
      while i < |tasks|
        invariant 0 <= i <= |tasks| == |before|
        invariant forall j :: 0 <= j < |before| ==> tasks[j] == if j < i then aged[j] else before[j]
        invariant b == Best(candidates[..i])
        invariant pid == (if b == -1 then -1 else aged[b].pid) && cnt == (if b == -1 then 0 else aged[b].idle)
      {
        BestStep(candidates, i);
        tasks := tasks[i := tasks[i].(idle := tasks[i].idle + 1)];
        if tasks[i].status == Waiting && cnt < tasks[i].idle {
          cnt := tasks[i].idle;
          pid := tasks[i].pid;
          b := i;
        }
        i := i + 1;
      }
      assert candidates[..i] == candidates;
      assert tasks == aged;
    }

    /** The `next_tid` loop over the threads of task `k`. */
    method SelectThread(k: nat) returns (tid: int)
      requires k < |tasks|
      modifies this`tasks
      ensures tasks == old(tasks)[k := old(tasks)[k].(threads := AgeThreads(old(tasks)[k].threads))]
      ensures var b := Best(ThreadCandidates(tasks[k].threads)); tid == if b == -1 then -1 else tasks[k].threads[b].tid
    {
      hide Best, AgeThreads, ThreadCandidates;
      BestNone();
      tid := -1;
      var cnt, i, threads := 0, 0, tasks[k].threads;
      ghost var before, aged := threads, AgeThreads(threads);
      ghost var candidates, b := ThreadCandidates(aged), -1;
      while i < |threads|
        invariant 0 <= i <= |threads| == |before|
        invariant tasks == old(tasks)[k := old(tasks)[k].(threads := threads)]
        invariant forall j :: 0 <= j < |before| ==> threads[j] == if j < i then aged[j] else before[j]
        invariant b == Best(candidates[..i])
        invariant tid == (if b == -1 then -1 else aged[b].tid) && cnt == (if b == -1 then 0 else aged[b].idle)
      {
        BestStep(candidates, i);
        threads := threads[i := threads[i].(idle := threads[i].idle + 1)];
        tasks := tasks[k := tasks[k].(threads := threads)];
        if threads[i].status == Waiting && cnt < threads[i].idle {
          cnt := threads[i].idle;
          tid := threads[i].tid;
          b := i;
        }
        i := i + 1;
      }
      assert candidates[..i] == candidates;
      assert threads == aged;
    }

    /** Save the CPU's thread, after `swapgs` has put the user GS base into KERNEL_GS_BASE. */
    method SaveCurrent(c: nat, regs: Registers, ghost entered: State)
      requires c < |cpus| == |entered.cpus| && CpuValid(tasks, entered.cpus[c])
      requires entered == Value().(cpus := entered.cpus)
      requires cpus == entered.cpus[c := cpus[c]]
      requires cpus[c] == if entered.cpus[c].user then entered.cpus[c].SwapGs() else entered.cpus[c]
      modifies this`tasks
      ensures tasks == Save(entered, c, regs).tasks
    {
      if cpus[c].tid != -1 && cpus[c].pid != -1 {
        var l := TaskIndex(tasks, cpus[c].pid);
        var t := ThreadIndex(tasks[l].threads, cpus[c].tid);
        var thread := tasks[l].threads[t];
        thread := thread.(status := Waiting);
        tasks := tasks[l := tasks[l].(status := Waiting)];
        thread := thread.(regs := regs, fs := cpus[c].fsBase, gs := cpus[c].kernelGs);
        tasks := tasks[l := tasks[l].(threads := tasks[l].threads[t := thread])];
      }
    }

    /** Put thread `t` of task `k` on the CPU, ending with `swapgs` when it is user code. */
    method LoadNext(c: nat, k: nat, t: nat, ghost saved: State)
      requires c < |cpus| && k < |tasks| && t < |tasks[k].threads| && cpus[c].gsBase == cpus[c].pointer
      requires saved == Value().(cpus := saved.cpus) && |saved.cpus| == |cpus|
      requires cpus == saved.cpus[c := cpus[c]] && cpus[c].pointer == saved.cpus[c].pointer
      modifies this`tasks, this`cpus
      ensures Value() == Dispatch(saved, c, k, t)
    {
      var thread := tasks[k].threads[t];
      cpus := cpus[c := cpus[c].(pid := tasks[k].pid, tid := thread.tid, pageMap := tasks[k].pageMap)];
      thread := thread.(idle := 0, status := Running);
      tasks := tasks[k := tasks[k].(idle := 0, status := Running, threads := tasks[k].threads[t := thread])];
      cpus := cpus[c := cpus[c].(fsBase := thread.fs, kernelGs := thread.gs)];
      if thread.regs.User() {
        SwapGs(c);
      }
      cpus := cpus[c := cpus[c].(user := thread.regs.User())];
    }

    /** Leave without switching: undo the entry `swapgs` and release the lock. */
    method Return(c: nat, user: bool)
      requires locked && c < |cpus|
      modifies this`cpus, this`locked, this`released
      ensures !locked && released == old(released) + 1
      ensures cpus == if user then old(cpus)[c := old(cpus)[c].SwapGs()] else old(cpus)
    {
      if user {
        SwapGs(c);
      }
      Release();
    }

    /** The switch itself: save the outgoing thread, load the incoming one. */
    method SwitchTo(c: nat, regs: Registers, k: nat, t: nat, ghost aged: State)
      requires c < |cpus| == |aged.cpus| && aged == Value().(cpus := aged.cpus)
      requires CpuValid(aged.tasks, aged.cpus[c]) && k < |tasks| && t < |tasks[k].threads|
      requires cpus == aged.cpus[c := cpus[c]]
      requires cpus[c] == if aged.cpus[c].user then aged.cpus[c].SwapGs() else aged.cpus[c]
      modifies this`tasks, this`cpus
      ensures var v := Save(aged, c, regs);
        k < |v.tasks| && t < |v.tasks[k].threads| && c < |v.cpus| && Value() == Dispatch(v, c, k, t)
    {
      SaveKeepsShape(aged, c, regs);
      ghost var v := Save(aged, c, regs);
      assert StillThere(aged.tasks[k], v.tasks[k], aged.tasks[k].idle);
      SaveCurrent(c, regs, aged);
      LoadNext(c, k, t, v);
    }

    /** The second half of `reschedule`, once task `k` is chosen; `s` is the state on entry. */
    method ContinueWith(c: nat, regs: Registers, k: nat, ghost s: State)
      requires locked && c < |cpus| == |s.cpus| && regs.User() == s.cpus[c].user
      requires tasks == AgeTasks(s.tasks) && taskCnt == s.taskCnt && threadCnt == s.threadCnt
      requires cpus == if regs.User() then s.cpus[c := s.cpus[c].SwapGs()] else s.cpus
      requires k == NextTask(s, c) < |s.tasks| && TidsValid(s.tasks[k].threads, s.threadCnt)
      requires CpuValid(Aged(s, k).tasks, s.cpus[c])
      modifies this
      ensures !locked && taken == old(taken) && released == old(released) + 1
      ensures Value() == Scheduler.Reschedule(s, c, regs)
    {
      hide CpuValid, AgeTasks, AgeThreads, Save, Dispatch, Best, ThreadCandidates, TidsValid;
      var nextTid := SelectThread(k);
      SelectedThread(s, k, nextTid);
      assert tasks == Aged(s, k).tasks;
      if nextTid == -1 {
        Return(c, regs.User());
        assert cpus == s.cpus;
      } else {
        var t := ThreadIndex(tasks[k].threads, nextTid);
        SwitchTo(c, regs, k, t, Aged(s, k));
        Release();
      }
    }

    /** The first half: lock, `swapgs`, choose a task, or fall back to the CPU's own. */
    method ChooseTask(c: nat, regs: Registers) returns (nextPid: int)
      requires !locked && c < |cpus|
      modifies this
      ensures locked && taken == old(taken) + 1 && released == old(released)
      ensures taskCnt == old(taskCnt) && threadCnt == old(threadCnt) && tasks == AgeTasks(old(tasks))
      ensures cpus == if regs.User() then old(cpus)[c := old(cpus)[c].SwapGs()] else old(cpus)
      ensures var b := Best(TaskCandidates(tasks));
        nextPid == if b != -1 && tasks[b].pid != -1 then tasks[b].pid else old(cpus)[c].pid
    {
      Lock();
      if regs.User() {
        SwapGs(c);
      }
      nextPid := SelectTask();
      if nextPid == -1 && cpus[c].pid != -1 {
        nextPid := cpus[c].pid;
      }
    }

    /**
     `reschedule`: every path takes and releases the lock once, and the state is the one the
     specification gives, so all that is proved of `Scheduler.Reschedule` holds of it.
     */
    method Reschedule(c: nat, regs: Registers)
      requires !locked && Valid(Value()) && c < |cpus| && regs.User() == cpus[c].user
      modifies this
      ensures !locked && taken == old(taken) + 1 && released == old(released) + 1
      ensures Value() == Scheduler.Reschedule(old(Value()), c, regs)
    {
      ghost var s := Value();
      SelectedTask(s, c);
      var nextPid := ChooseTask(c, regs);
      if nextPid == -1 {
        Return(c, regs.User());
        assert cpus == s.cpus;
      } else {
        ContinueWith(c, regs, TaskIndex(tasks, nextPid), s);
      }
    }
  }

  lemma BestNone()
    ensures Best([]) == -1
  {
  }

  /** One turn of a selection loop. */
  lemma BestStep(c: seq<Candidate>, i: nat)
    requires i < |c|
    ensures Best(c[..i + 1]) ==
      var b := Best(c[..i]);
      if c[i].waiting && (if b == -1 then 0 else c[b].idle) < c[i].idle then i else b
  {
    assert c[..i + 1][..i] == c[..i];
  }

  /** The pid that the first half ends with names the task of the specification. */
  lemma SelectedTask(s: State, c: nat)
    requires Valid(s) && c < |s.cpus|
    ensures var aged := AgeTasks(s.tasks); var b := Best(TaskCandidates(aged)); var k := NextTask(s, c);
      var pid := if b != -1 && aged[b].pid != -1 then aged[b].pid else s.cpus[c].pid;
      if pid == -1 then k == -1
      else
        && k == TaskIndex(aged, pid) < |s.tasks| && TidsValid(s.tasks[k].threads, s.threadCnt)
        && CpuValid(Aged(s, k).tasks, s.cpus[c])
  {
    var aged := AgeTasks(s.tasks);
    var b, k := Best(TaskCandidates(aged)), NextTask(s, c);
    if b != -1 {
      assert TaskValid(s.tasks[b], s.taskCnt, s.threadCnt);
      TaskIndexIs(s.tasks, b);
      SameTags(s.tasks, aged, aged[b].pid);
    } else if s.cpus[c].pid != -1 {
      assert CpuValid(s.tasks, s.cpus[c]);
      SameTags(s.tasks, aged, s.cpus[c].pid);
    }
    if k != -1 {
      assert TaskValid(s.tasks[k], s.taskCnt, s.threadCnt);
      AgeKeepsValid(s, k);
    }
  }

  lemma SelectedThread(s: State, k: nat, tid: int)
    requires k < |s.tasks| && TidsValid(s.tasks[k].threads, s.threadCnt)
    requires var aged := AgeThreads(s.tasks[k].threads); var b := Best(ThreadCandidates(aged));
      tid == if b == -1 then -1 else aged[b].tid
    ensures tid == -1 <==> NextThread(s, k) == -1
    ensures tid != -1 ==> ThreadIndex(AgeThreads(s.tasks[k].threads), tid) == NextThread(s, k)
  {
    var aged := AgeThreads(s.tasks[k].threads);
    var b := Best(ThreadCandidates(aged));
    if b != -1 {
      ThreadIndexIs(aged, b);
    }
  }
}
