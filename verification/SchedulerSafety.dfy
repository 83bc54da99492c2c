/** The invariant of every reachable scheduler state. */
module SchedulerSafety {
  import opened Scheduler

  predicate TagsDistinct(tasks: seq<Task>) {
    forall i, j :: 0 <= i < j < |tasks| ==> tasks[i].tag != tasks[j].tag
  }

  predicate AllWaiting(threads: seq<Thread>) {
    forall j :: 0 <= j < |threads| ==> threads[j].status == Waiting
  }

  /** Thread `tid` is there and running, and every other thread waits. */
  predicate OnlyRunning(threads: seq<Thread>, tid: int) {
    && ThreadIndex(threads, tid) < |threads|
    && forall j :: 0 <= j < |threads| ==> threads[j].status == if threads[j].tid == tid then Running else Waiting
  }

  predicate TidsValid(threads: seq<Thread>, threadCnt: nat) {
    && (forall j :: 0 <= j < |threads| ==> 0 <= threads[j].tid < threadCnt)
    && (forall i, j :: 0 <= i < j < |threads| ==> threads[i].tid != threads[j].tid)
  }

  /** A placeholder, or a task under its own pid whose threads all wait when it waits. */
  predicate TaskValid(t: Task, taskCnt: nat, threadCnt: nat) {
    if t.pid == -1 then t.status == Unset && t.threads == []
    else
      && t.pid == t.tag && 0 <= t.tag < taskCnt && t.status != Unset
      && TidsValid(t.threads, threadCnt)
      && (t.status == Waiting ==> AllWaiting(t.threads))
  }

  /** A free CPU, or one whose task runs exactly the CPU's thread under the CPU's page map. */
  predicate CpuValid(tasks: seq<Task>, cpu: Cpu) {
    && cpu.GsValid()
    && if cpu.pid == -1 then cpu.tid == -1
       else
         var l := TaskIndex(tasks, cpu.pid);
         && cpu.pid >= 0 && cpu.tid >= 0 && l < |tasks|
         && tasks[l].status == Running && OnlyRunning(tasks[l].threads, cpu.tid)
         && cpu.pageMap == tasks[l].pageMap
  }

  predicate Apart(a: seq<Thread>, b: seq<Thread>) {
    forall x, y :: 0 <= x < |a| && 0 <= y < |b| ==> a[x].tid != b[y].tid
  }

  /** No two tasks share a thread id. */
  predicate TidsApart(tasks: seq<Task>) {
    forall i, j :: 0 <= i < j < |tasks| ==> Apart(tasks[i].threads, tasks[j].threads)
  }

  predicate TasksValid(s: State) {
    && TagsDistinct(s.tasks) && TidsApart(s.tasks)
    && forall i :: 0 <= i < |s.tasks| ==> TaskValid(s.tasks[i], s.taskCnt, s.threadCnt)
  }

  predicate CpusValid(s: State) {
    forall c :: 0 <= c < |s.cpus| ==> CpuValid(s.tasks, s.cpus[c])
  }

  /** Distinct CPUs hold distinct tasks. */
  predicate Exclusive(cpus: seq<Cpu>) {
    forall c, d :: 0 <= c < d < |cpus| && cpus[c].pid != -1 ==> cpus[c].pid != cpus[d].pid
  }

  ghost predicate HeldBy(cpus: seq<Cpu>, tag: int) {
    exists c :: 0 <= c < |cpus| && cpus[c].pid == tag
  }

  /** Every running task is held by a CPU. */
  ghost predicate RunningHeld(s: State) {
    forall i :: 0 <= i < |s.tasks| && s.tasks[i].status == Running ==> HeldBy(s.cpus, s.tasks[i].tag)
  }

  ghost predicate Valid(s: State) {
    TasksValid(s) && CpusValid(s) && Exclusive(s.cpus) && RunningHeld(s)
  }

  lemma TaskIndexIs(tasks: seq<Task>, i: nat)
    requires TagsDistinct(tasks) && i < |tasks|
    ensures TaskIndex(tasks, tasks[i].tag) == i
  {
  }

  /** Two lists with the same tags find a tag at the same place. */
  lemma SameTags(a: seq<Task>, b: seq<Task>, tag: int)
    requires |a| == |b| && forall i :: 0 <= i < |a| ==> a[i].tag == b[i].tag
    ensures TaskIndex(a, tag) == TaskIndex(b, tag)
  {
  }

  lemma SameTids(a: seq<Thread>, b: seq<Thread>, tid: int)
    requires |a| == |b| && forall i :: 0 <= i < |a| ==> a[i].tid == b[i].tid
    ensures ThreadIndex(a, tid) == ThreadIndex(b, tid)
  {
  }

  predicate SameIds(a: Task, b: Task) {
    && a.tag == b.tag && a.pid == b.pid && a.pageMap == b.pageMap && |a.threads| == |b.threads|
    && forall j :: 0 <= j < |a.threads| ==> a.threads[j].tid == b.threads[j].tid
  }

  predicate AllSameIds(a: seq<Task>, b: seq<Task>) {
    |a| == |b| && forall i :: 0 <= i < |a| ==> SameIds(a[i], b[i])
  }

  predicate SameStatus(a: Task, b: Task) {
    && a.status == b.status && |a.threads| == |b.threads|
    && forall j :: 0 <= j < |a.threads| ==> a.threads[j].status == b.threads[j].status
  }

  /** A step that keeps all ids keeps them distinct. */
  lemma IdsKept(a: seq<Task>, b: seq<Task>)
    requires AllSameIds(a, b) && TagsDistinct(a) && TidsApart(a)
    ensures TagsDistinct(b) && TidsApart(b)
  {
    forall i, j | 0 <= i < j < |b|
      ensures Apart(b[i].threads, b[j].threads)
    {
      assert SameIds(a[i], b[i]) && SameIds(a[j], b[j]);
      assert Apart(a[i].threads, a[j].threads);
    }
  }

  /** A CPU stays valid when its own task keeps its statuses. */
  lemma CpuKept(a: seq<Task>, b: seq<Task>, cpu: Cpu)
    requires AllSameIds(a, b) && CpuValid(a, cpu)
    requires cpu.pid != -1 ==> SameStatus(a[TaskIndex(a, cpu.pid)], b[TaskIndex(a, cpu.pid)])
    ensures CpuValid(b, cpu)
  {
    if cpu.pid != -1 {
      SameTags(a, b, cpu.pid);
      var l := TaskIndex(a, cpu.pid);
      SameTids(a[l].threads, b[l].threads, cpu.tid);
    }
  }

  lemma AgeKeepsValid(s: State, k: int)
    requires Valid(s) && -1 <= k < |s.tasks|
    ensures Valid(Aged(s, k))
  {
    var r := Aged(s, k);
    forall i | 0 <= i < |s.tasks|
      ensures SameIds(s.tasks[i], r.tasks[i]) && SameStatus(s.tasks[i], r.tasks[i])
      ensures TaskValid(r.tasks[i], s.taskCnt, s.threadCnt)
    {
      assert TaskValid(s.tasks[i], s.taskCnt, s.threadCnt);
    }
    IdsKept(s.tasks, r.tasks);
    forall c | 0 <= c < |s.cpus|
      ensures CpuValid(r.tasks, r.cpus[c])
    {
      CpuKept(s.tasks, r.tasks, s.cpus[c]);
    }
  }

  /** What saving does to the task of an occupied CPU. */
  lemma SavedTask(s: State, c: nat, regs: Registers)
    requires Valid(s) && c < |s.cpus| && s.cpus[c].pid != -1
    ensures var l, r := TaskIndex(s.tasks, s.cpus[c].pid), Save(s, c, regs);
      && l < |s.tasks| && s.tasks[l].status == Running
      && r == s.(tasks := s.tasks[l := r.tasks[l]], cpus := s.cpus[c := s.cpus[c].(pid := -1, tid := -1)])
      && AllSameIds(s.tasks, r.tasks)
      && r.tasks[l].status == Waiting && AllWaiting(r.tasks[l].threads)
      && TaskValid(r.tasks[l], s.taskCnt, s.threadCnt)
  {
    assert CpuValid(s.tasks, s.cpus[c]);
    var l := TaskIndex(s.tasks, s.cpus[c].pid);
    assert TaskValid(s.tasks[l], s.taskCnt, s.threadCnt);
  }

  /** Saving the outgoing thread frees the CPU and keeps everything else valid. */
  lemma SaveKeepsValid(s: State, c: nat, regs: Registers)
    requires Valid(s) && c < |s.cpus|
    ensures Valid(Save(s, c, regs))
    ensures Save(s, c, regs).cpus[c].pid == -1
  {
    if s.cpus[c].pid != -1 {
      var r := Save(s, c, regs);
      SavedTask(s, c, regs);
      IdsKept(s.tasks, r.tasks);
      SaveKeepsCpus(s, c, regs);
      SaveKeepsHeld(s, c, regs);
    }
  }

  lemma SaveKeepsCpus(s: State, c: nat, regs: Registers)
    requires Valid(s) && c < |s.cpus| && s.cpus[c].pid != -1
    ensures CpusValid(Save(s, c, regs))
  {
    var r := Save(s, c, regs);
    SavedTask(s, c, regs);
    forall d | 0 <= d < |s.cpus|
      ensures CpuValid(r.tasks, r.cpus[d])
    {
      assert CpuValid(s.tasks, s.cpus[d]);
      if d != c {
        CpuKept(s.tasks, r.tasks, s.cpus[d]);
      }
    }
  }

  lemma SaveKeepsHeld(s: State, c: nat, regs: Registers)
    requires Valid(s) && c < |s.cpus| && s.cpus[c].pid != -1
    ensures RunningHeld(Save(s, c, regs))
  {
    var r := Save(s, c, regs);
    SavedTask(s, c, regs);
    forall i | 0 <= i < |r.tasks| && r.tasks[i].status == Running
      ensures HeldBy(r.cpus, r.tasks[i].tag)
    {
      assert HeldBy(s.cpus, s.tasks[i].tag);
      var d :| 0 <= d < |s.cpus| && s.cpus[d].pid == s.tasks[i].tag;
      assert d != c;
      assert r.cpus[d].pid == r.tasks[i].tag;
    }
  }

  /** What dispatching does to the chosen task and the CPU. */
  lemma DispatchedTask(s: State, c: nat, k: nat, t: nat)
    requires Valid(s) && c < |s.cpus| && k < |s.tasks| && t < |s.tasks[k].threads|
    requires s.cpus[c].pid == -1 && s.tasks[k].status == Waiting
    ensures var r := Dispatch(s, c, k, t);
      && AllSameIds(s.tasks, r.tasks)
      && TaskValid(r.tasks[k], s.taskCnt, s.threadCnt)
      && CpuValid(r.tasks, r.cpus[c]) && r.cpus[c].pid == s.tasks[k].tag >= 0
  {
    var r := Dispatch(s, c, k, t);
    assert TaskValid(s.tasks[k], s.taskCnt, s.threadCnt);
    assert CpuValid(s.tasks, s.cpus[c]);
    TaskIndexIs(s.tasks, k);
    SameTags(s.tasks, r.tasks, s.tasks[k].tag);
    ThreadIndexIs(s.tasks[k].threads, t);
    SameTids(s.tasks[k].threads, r.tasks[k].threads, r.cpus[c].tid);
  }

  /** Dispatching a thread of a waiting task to a free CPU keeps the state valid. */
  lemma DispatchKeepsValid(s: State, c: nat, k: nat, t: nat)
    requires Valid(s) && c < |s.cpus| && k < |s.tasks| && t < |s.tasks[k].threads|
    requires s.cpus[c].pid == -1 && s.tasks[k].status == Waiting
    ensures Valid(Dispatch(s, c, k, t))
  {
    var r := Dispatch(s, c, k, t);
    DispatchedTask(s, c, k, t);
    IdsKept(s.tasks, r.tasks);
    forall d | 0 <= d < |s.cpus|
      ensures CpuValid(r.tasks, r.cpus[d])
      ensures d != c ==> r.cpus[d].pid != s.tasks[k].tag
    {
      assert CpuValid(s.tasks, s.cpus[d]);
      TaskIndexIs(s.tasks, k);
      if d != c {
        CpuKept(s.tasks, r.tasks, s.cpus[d]);
      }
    }
    DispatchKeepsHeld(s, c, k, t);
  }

  lemma DispatchKeepsHeld(s: State, c: nat, k: nat, t: nat)
    requires Valid(s) && c < |s.cpus| && k < |s.tasks| && t < |s.tasks[k].threads|
    requires s.cpus[c].pid == -1 && s.tasks[k].status == Waiting
    ensures RunningHeld(Dispatch(s, c, k, t))
  {
    var r := Dispatch(s, c, k, t);
    DispatchedTask(s, c, k, t);
    forall i | 0 <= i < |r.tasks| && r.tasks[i].status == Running
      ensures HeldBy(r.cpus, r.tasks[i].tag)
    {
      if i == k {
        assert r.cpus[c].pid == r.tasks[k].tag;
      } else {
        assert HeldBy(s.cpus, s.tasks[i].tag) && TaskValid(s.tasks[i], s.taskCnt, s.threadCnt);
        var d :| 0 <= d < |s.cpus| && s.cpus[d].pid == s.tasks[i].tag;
        assert r.cpus[d].pid == r.tasks[i].tag;
      }
    }
  }

  lemma ThreadIndexIs(threads: seq<Thread>, t: nat)
    requires t < |threads| && forall i, j :: 0 <= i < j < |threads| ==> threads[i].tid != threads[j].tid
    ensures ThreadIndex(threads, threads[t].tid) == t
  {
  }

  /** Saving leaves a waiting task waiting and the CPU's own task waiting. */
  lemma SaveLeavesWaiting(s: State, c: nat, regs: Registers, k: nat)
    requires Valid(s) && c < |s.cpus| && k < |s.tasks|
    requires s.tasks[k].status == Waiting || (s.cpus[c].pid != -1 && k == TaskIndex(s.tasks, s.cpus[c].pid))
    ensures k < |Save(s, c, regs).tasks| && Save(s, c, regs).tasks[k].status == Waiting
  {
    if s.cpus[c].pid != -1 {
      SavedTask(s, c, regs);
    }
  }

  /** The task that `reschedule` dispatches waits once the CPU's own thread is saved. */
  lemma ChosenWaits(s: State, c: nat, regs: Registers)
    requires Valid(s) && c < |s.cpus|
    ensures var k := NextTask(s, c);
      0 <= k < |s.tasks| && NextThread(s, k) != -1 ==>
      && Valid(Save(Aged(s, k), c, regs)) && Save(Aged(s, k), c, regs).cpus[c].pid == -1
      && k < |Save(Aged(s, k), c, regs).tasks| && Save(Aged(s, k), c, regs).tasks[k].status == Waiting
  {
    hide Save, CpusValid, Exclusive, RunningHeld, TidsApart;
    var k := NextTask(s, c);
    if 0 <= k < |s.tasks| && NextThread(s, k) != -1 {
      var aged := Aged(s, k);
      AgeKeepsValid(s, k);
      SaveKeepsValid(aged, c, regs);
      SameTags(s.tasks, aged.tasks, s.cpus[c].pid);
      SaveLeavesWaiting(aged, c, regs, k);
    }
  }

  lemma RescheduleKeepsValid(s: State, c: nat, regs: Registers)
    requires Valid(s) && c < |s.cpus|
    ensures Valid(Reschedule(s, c, regs))
  {
    var k := NextTask(s, c);
    if k == -1 || k == |s.tasks| {
      AgeKeepsValid(s, -1);
    } else {
      AgeKeepsValid(s, k);
      ChosenWaits(s, c, regs);
      var t := NextThread(s, k);
      if t != -1 {
        SaveKeepsShape(Aged(s, k), c, regs);
        DispatchKeepsValid(Save(Aged(s, k), c, regs), c, k, t);
      }
    }
  }

  lemma TaskIndexAppend(tasks: seq<Task>, t: Task, tag: int)
    ensures TaskIndex(tasks + [t], tag) ==
      if TaskIndex(tasks, tag) < |tasks| then TaskIndex(tasks, tag) else if t.tag == tag then |tasks| else |tasks| + 1
  {
    assert forall j :: 0 <= j < |tasks| ==> (tasks + [t])[j] == tasks[j];
    assert (tasks + [t])[|tasks|] == t;
  }

  lemma TouchKeepsValid(s: State, tag: int)
    requires Valid(s)
    ensures Valid(s.(tasks := Touch(s.tasks, tag)))
  {
    if TaskIndex(s.tasks, tag) == |s.tasks| {
      var r := s.(tasks := Touch(s.tasks, tag));
      forall c | 0 <= c < |s.cpus|
        ensures CpuValid(r.tasks, s.cpus[c])
      {
        assert CpuValid(s.tasks, s.cpus[c]);
        TaskIndexAppend(s.tasks, Placeholder(tag), s.cpus[c].pid);
      }
      forall i | 0 <= i < |r.tasks|
        ensures TaskValid(r.tasks[i], s.taskCnt, s.threadCnt)
        ensures r.tasks[i].status == Running ==> HeldBy(s.cpus, r.tasks[i].tag)
      {
        if i < |s.tasks| {
          assert TaskValid(s.tasks[i], s.taskCnt, s.threadCnt);
        }
      }
    }
  }

  lemma CreateTaskKeepsValid(s: State, ppid: int, pageMap: nat)
    requires Valid(s)
    ensures Valid(CreateTask(s, ppid, pageMap))
  {
    TouchKeepsValid(s, ppid);
    var s1 := s.(tasks := Touch(s.tasks, ppid));
    TouchFinds(s1.tasks, s.taskCnt);
    TouchKeepsValid(s1, s.taskCnt);
    FillPlaceholder(s1.(tasks := Touch(s1.tasks, s.taskCnt)), ppid, pageMap);
  }

  /** Storing the new task over the placeholder under the next pid. */
  lemma FillPlaceholder(s: State, ppid: int, pageMap: nat)
    requires Valid(s) && TaskIndex(s.tasks, s.taskCnt) < |s.tasks|
    ensures var t := Task(s.taskCnt, s.taskCnt, ppid, 0, Waiting, [], pageMap);
      Valid(s.(tasks := s.tasks[TaskIndex(s.tasks, s.taskCnt) := t], taskCnt := s.taskCnt + 1))
  {
    var i := TaskIndex(s.tasks, s.taskCnt);
    var t := Task(s.taskCnt, s.taskCnt, ppid, 0, Waiting, [], pageMap);
    var r := s.(tasks := s.tasks[i := t], taskCnt := s.taskCnt + 1);
    assert TaskValid(s.tasks[i], s.taskCnt, s.threadCnt);
    forall j | 0 <= j < |r.tasks|
      ensures TaskValid(r.tasks[j], r.taskCnt, r.threadCnt)
      ensures r.tasks[j].status == Running ==> HeldBy(r.cpus, r.tasks[j].tag)
    {
      assert TaskValid(s.tasks[j], s.taskCnt, s.threadCnt);
    }
    forall c | 0 <= c < |s.cpus|
      ensures CpuValid(r.tasks, r.cpus[c])
    {
      assert CpuValid(s.tasks, s.cpus[c]);
      SameTags(s.tasks, r.tasks, s.cpus[c].pid);
    }
  }

  lemma ThreadIndexAppend(threads: seq<Thread>, t: Thread, tid: int)
    ensures ThreadIndex(threads, tid) < |threads| ==> ThreadIndex(threads + [t], tid) == ThreadIndex(threads, tid)
  {
    assert forall j :: 0 <= j < |threads| ==> (threads + [t])[j] == threads[j];
  }

  lemma CreateThreadKeepsValid(s: State, pid: int, regs: Registers)
    requires Valid(s)
    ensures Valid(CreateThread(s, pid, regs))
  {
    TouchFinds(s.tasks, pid);
    TouchKeepsValid(s, pid);
    var s1 := s.(tasks := Touch(s.tasks, pid));
    var i := TaskIndex(s1.tasks, pid);
    if s1.tasks[i].pid != -1 {
      AppendThread(s1, i, regs);
    }
  }

  lemma AppendThread(s: State, i: nat, regs: Registers)
    requires Valid(s) && i < |s.tasks| && s.tasks[i].pid != -1
    ensures var t := s.tasks[i].(threads := s.tasks[i].threads + [NewThread(s.threadCnt, regs)]);
      Valid(s.(tasks := s.tasks[i := t], threadCnt := s.threadCnt + 1))
  {
    var n := NewThread(s.threadCnt, regs);
    var t := s.tasks[i].(threads := s.tasks[i].threads + [n]);
    var r := s.(tasks := s.tasks[i := t], threadCnt := s.threadCnt + 1);
    forall j | 0 <= j < |s.tasks|
      ensures TaskValid(r.tasks[j], r.taskCnt, r.threadCnt)
    {
      AppendKeepsTask(s.tasks[j], s.taskCnt, s.threadCnt, n);
    }
    AppendKeepsApart(s, i, n);
    forall c | 0 <= c < |s.cpus|
      ensures CpuValid(r.tasks, r.cpus[c])
    {
      AppendKeepsCpu(s, i, n, c);
    }
  }

  lemma AppendKeepsTask(t: Task, taskCnt: nat, threadCnt: nat, n: Thread)
    requires TaskValid(t, taskCnt, threadCnt) && n.tid == threadCnt && n.status == Waiting
    ensures TaskValid(t, taskCnt, threadCnt + 1)
    ensures t.pid != -1 ==> TaskValid(t.(threads := t.threads + [n]), taskCnt, threadCnt + 1)
  {
  }

  lemma AppendKeepsApart(s: State, i: nat, n: Thread)
    requires TasksValid(s) && i < |s.tasks| && n.tid == s.threadCnt
    ensures TidsApart(s.tasks[i := s.tasks[i].(threads := s.tasks[i].threads + [n])])
  {
    var r := s.tasks[i := s.tasks[i].(threads := s.tasks[i].threads + [n])];
    forall x, y | 0 <= x < y < |r|
      ensures Apart(r[x].threads, r[y].threads)
    {
      assert TaskValid(s.tasks[x], s.taskCnt, s.threadCnt) && TaskValid(s.tasks[y], s.taskCnt, s.threadCnt);
      assert Apart(s.tasks[x].threads, s.tasks[y].threads);
    }
  }

  lemma AppendKeepsCpu(s: State, i: nat, n: Thread, c: nat)
    requires Valid(s) && i < |s.tasks| && n.tid == s.threadCnt && n.status == Waiting && c < |s.cpus|
    ensures CpuValid(s.tasks[i := s.tasks[i].(threads := s.tasks[i].threads + [n])], s.cpus[c])
  {
    var r := s.tasks[i := s.tasks[i].(threads := s.tasks[i].threads + [n])];
    var cpu := s.cpus[c];
    assert CpuValid(s.tasks, cpu);
    SameTags(s.tasks, r, cpu.pid);
    if cpu.pid != -1 {
      var l := TaskIndex(s.tasks, cpu.pid);
      assert TaskValid(s.tasks[l], s.taskCnt, s.threadCnt);
      ThreadIndexAppend(s.tasks[l].threads, n, cpu.tid);
    }
  }
}
