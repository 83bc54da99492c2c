/**
 The multicore scheduler of kernel/sched/scheduler.cpp as a state machine: what each step
 does to the task list and to the calling CPU, and the invariant of every reachable state.
 */
module Scheduler {

  datatype Registers = Registers(cs: nat, rip: nat, rsp: nat, rflags: nat, ss: nat, general: seq<nat>) {
    /** `cs & 0x3`: user code was running. */
    predicate User() {
      cs % 4 != 0
    }
  }

  /** `Unset` is the status field of a default-constructed task, which nothing initialises. */
  datatype Status = Waiting | Running | Unset

  datatype Thread = Thread(tid: int, idle: nat, status: Status, fs: nat, gs: nat, regs: Registers)

  /** A task together with the tag under which the task list holds it. */
  datatype Task = Task(tag: int, pid: int, ppid: int, idle: nat, status: Status, threads: seq<Thread>, pageMap: nat)

  /**
   A CPU record with the registers the scheduler touches: FS base, the active GS base, the
   one that `swapgs` exchanges it with, and whether the code between two interrupts is user
   code. `pointer` is the address of the record itself.
   */
  datatype Cpu = Cpu(pid: int, tid: int, pageMap: nat, pointer: nat,
                     fsBase: nat, gsBase: nat, kernelGs: nat, user: bool) {
    function SwapGs(): Cpu {
      this.(gsBase := kernelGs, kernelGs := gsBase)
    }

    /** User code runs with its own GS and the pointer swapped out; kernel code the other way round. */
    predicate GsValid() {
      if user then kernelGs == pointer else gsBase == pointer
    }

    function UserGs(): nat {
      if user then gsBase else kernelGs
    }
  }

  datatype State = State(tasks: seq<Task>, cpus: seq<Cpu>, taskCnt: nat, threadCnt: nat)

  // ---------------------------------------------------------------------------------------
  // Lookup in the insertion-ordered list (kernel/lib/map.hpp)

  /** The linear search of `operator[]`: the first entry from `i` on with this tag, or the end. */
  function TaskFrom(tasks: seq<Task>, tag: int, i: nat): (r: nat)
    requires i <= |tasks|
    ensures i <= r <= |tasks|
    ensures r < |tasks| ==> tasks[r].tag == tag
    ensures forall j :: i <= j < r ==> tasks[j].tag != tag
    decreases |tasks| - i
  {
    if i == |tasks| || tasks[i].tag == tag then i else TaskFrom(tasks, tag, i + 1)
  }

  function TaskIndex(tasks: seq<Task>, tag: int): (r: nat)
    ensures r <= |tasks|
    ensures r < |tasks| ==> tasks[r].tag == tag
    ensures forall j :: 0 <= j < r ==> tasks[j].tag != tag
  {
    TaskFrom(tasks, tag, 0)
  }

  function ThreadFrom(threads: seq<Thread>, tid: int, i: nat): (r: nat)
    requires i <= |threads|
    ensures i <= r <= |threads|
    ensures r < |threads| ==> threads[r].tid == tid
    ensures forall j :: i <= j < r ==> threads[j].tid != tid
    decreases |threads| - i
  {
    if i == |threads| || threads[i].tid == tid then i else ThreadFrom(threads, tid, i + 1)
  }

  function ThreadIndex(threads: seq<Thread>, tid: int): (r: nat)
    ensures r <= |threads|
    ensures r < |threads| ==> threads[r].tid == tid
    ensures forall j :: 0 <= j < r ==> threads[j].tid != tid
  {
    ThreadFrom(threads, tid, 0)
  }

  function Placeholder(tag: int): Task {
    Task(tag, -1, -1, 0, Unset, [], 0)
  }

  /** `task_list[tag]` as a reference: a default task is appended when the tag is new. */
  function Touch(tasks: seq<Task>, tag: int): seq<Task> {
    if TaskIndex(tasks, tag) < |tasks| then tasks else tasks + [Placeholder(tag)]
  }

  // ---------------------------------------------------------------------------------------
  // The selection loops

  datatype Candidate = Candidate(waiting: bool, idle: nat)

  /** The index the selection loop ends with: the first waiting entry of greatest age, or -1. */
  function Best(c: seq<Candidate>): (r: int)
    ensures -1 <= r < |c|
    ensures r >= 0 ==> c[r].waiting
  {
    if c == [] then -1
    else
      var n := |c| - 1;
      var b := Best(c[..n]);
      if c[n].waiting && (if b == -1 then 0 else c[b].idle) < c[n].idle then n else b
  }

  /** What the loop is for: nobody waiting is older, and nobody earlier is as old. */
  lemma {:induction false} BestIsOldest(c: seq<Candidate>)
    requires forall i :: 0 <= i < |c| ==> c[i].idle > 0
    ensures Best(c) == -1 <==> forall i :: 0 <= i < |c| ==> !c[i].waiting
    ensures Best(c) >= 0 ==> forall i :: 0 <= i < |c| && c[i].waiting ==>
      c[i].idle < c[Best(c)].idle || (c[i].idle == c[Best(c)].idle && Best(c) <= i)
  {
    if c != [] {
      var n := |c| - 1;
      BestIsOldest(c[..n]);
      assert forall i :: 0 <= i < n ==> c[..n][i] == c[i];
    }
  }

  function AgeTasks(tasks: seq<Task>): (r: seq<Task>)
    ensures |r| == |tasks|
    ensures forall i :: 0 <= i < |tasks| ==> r[i] == tasks[i].(idle := tasks[i].idle + 1)
  {
    seq(|tasks|, i requires 0 <= i < |tasks| => tasks[i].(idle := tasks[i].idle + 1))
  }

  function AgeThreads(threads: seq<Thread>): (r: seq<Thread>)
    ensures |r| == |threads|
    ensures forall i :: 0 <= i < |threads| ==> r[i] == threads[i].(idle := threads[i].idle + 1)
  {
    seq(|threads|, i requires 0 <= i < |threads| => threads[i].(idle := threads[i].idle + 1))
  }

  function TaskCandidates(tasks: seq<Task>): (r: seq<Candidate>)
    ensures |r| == |tasks|
    ensures forall i :: 0 <= i < |tasks| ==> r[i] == Candidate(tasks[i].status == Waiting, tasks[i].idle)
  {
    seq(|tasks|, i requires 0 <= i < |tasks| => Candidate(tasks[i].status == Waiting, tasks[i].idle))
  }

  function ThreadCandidates(threads: seq<Thread>): (r: seq<Candidate>)
    ensures |r| == |threads|
    ensures forall i :: 0 <= i < |threads| ==> r[i] == Candidate(threads[i].status == Waiting, threads[i].idle)
  {
    seq(|threads|, i requires 0 <= i < |threads| => Candidate(threads[i].status == Waiting, threads[i].idle))
  }

  // ---------------------------------------------------------------------------------------
  // Steps

  function CreateTask(s: State, ppid: int, pageMap: nat): State {
    var tasks := Touch(s.tasks, ppid);
    var t := Task(s.taskCnt, s.taskCnt, ppid, 0, Waiting, [], pageMap);
    var touched := Touch(tasks, s.taskCnt);
    TouchFinds(tasks, s.taskCnt);
    s.(tasks := touched[TaskIndex(touched, s.taskCnt) := t], taskCnt := s.taskCnt + 1)
  }

  function NewThread(tid: int, regs: Registers): Thread {
    Thread(tid, 0, Waiting, 0, 0, regs)
  }

  /** The bookkeeping of `create_thread`; `regs` is the register file it prepares. */
  function CreateThread(s: State, pid: int, regs: Registers): State {
    var tasks := Touch(s.tasks, pid);
    TouchFinds(s.tasks, pid);
    var i := TaskIndex(tasks, pid);
    if tasks[i].pid == -1 then s.(tasks := tasks)
    else
      var t := tasks[i].(threads := tasks[i].threads + [NewThread(s.threadCnt, regs)]);
      s.(tasks := tasks[i := t], threadCnt := s.threadCnt + 1)
  }

  lemma TouchFinds(tasks: seq<Task>, tag: int)
    ensures TaskIndex(Touch(tasks, tag), tag) < |Touch(tasks, tag)|
  {
    var r := Touch(tasks, tag);
    if TaskIndex(tasks, tag) == |tasks| {
      assert r[|tasks|].tag == tag;
    }
  }

  /** The task index that `reschedule` goes on with: the oldest waiting task, else the current one, else -1. */
  function NextTask(s: State, c: nat): (r: int)
    requires c < |s.cpus|
    ensures -1 <= r <= |s.tasks|
  {
    var k := Best(TaskCandidates(AgeTasks(s.tasks)));
    if k != -1 then k
    else if s.cpus[c].pid != -1 then TaskIndex(s.tasks, s.cpus[c].pid)
    else -1
  }

  /** All tasks one reschedule older and, for task `k`, all its threads too. */
  function Aged(s: State, k: int): State
    requires -1 <= k < |s.tasks|
  {
    var tasks := AgeTasks(s.tasks);
    if k == -1 then s.(tasks := tasks)
    else s.(tasks := tasks[k := tasks[k].(threads := AgeThreads(tasks[k].threads))])
  }

  /** The outgoing thread: back to waiting with its registers, FS and GS saved; the CPU is free. */
  function Save(s: State, c: nat, regs: Registers): State
    requires c < |s.cpus|
  {
    var cpu := s.cpus[c];
    var l := TaskIndex(s.tasks, cpu.pid);
    if cpu.pid == -1 || cpu.tid == -1 || l == |s.tasks| then s
    else
      var t := ThreadIndex(s.tasks[l].threads, cpu.tid);
      if t == |s.tasks[l].threads| then s
      else
        var thread := s.tasks[l].threads[t].(status := Waiting, regs := regs, fs := cpu.fsBase, gs := cpu.UserGs());
        var task := s.tasks[l].(status := Waiting, threads := s.tasks[l].threads[t := thread]);
        s.(tasks := s.tasks[l := task], cpus := s.cpus[c := cpu.(pid := -1, tid := -1)])
  }

  /** The incoming thread `t` of task `k`: running, age 0, its FS, GS and registers on the CPU. */
  function Dispatch(s: State, c: nat, k: nat, t: nat): State
    requires c < |s.cpus| && k < |s.tasks| && t < |s.tasks[k].threads|
  {
    var task, thread := s.tasks[k], s.tasks[k].threads[t];
    var thread' := thread.(idle := 0, status := Running);
    var task' := task.(idle := 0, status := Running, threads := task.threads[t := thread']);
    var user := thread.regs.User();
    var cpu := s.cpus[c].(pid := task.pid, tid := thread.tid, pageMap := task.pageMap, fsBase := thread.fs, user := user,
                          gsBase := if user then thread.gs else s.cpus[c].pointer,
                          kernelGs := if user then s.cpus[c].pointer else thread.gs);
    s.(tasks := s.tasks[k := task'], cpus := s.cpus[c := cpu])
  }

  /** The thread index that `reschedule` picks in task `k`, or -1. */
  function NextThread(s: State, k: nat): (r: int)
    requires k < |s.tasks|
    ensures -1 <= r < |s.tasks[k].threads|
  {
    Best(ThreadCandidates(AgeThreads(s.tasks[k].threads)))
  }

  /** `reschedule` on CPU `c`, interrupted with the registers `regs`. */
  function Reschedule(s: State, c: nat, regs: Registers): State
    requires c < |s.cpus|
  {
    var k := NextTask(s, c);
    if k == -1 || k == |s.tasks| then Aged(s, -1)
    else
      var t := NextThread(s, k);
      var aged := Aged(s, k);
      if t == -1 then aged
      else
        SaveKeepsShape(aged, c, regs);
        Dispatch(Save(aged, c, regs), c, k, t)
  }

  /** Same task with the same number of threads, of the given age, and still waiting if it was. */
  predicate StillThere(before: Task, after: Task, idle: nat) {
    && after.tag == before.tag && after.pid == before.pid && after.idle == idle
    && |after.threads| == |before.threads| && (before.status == Waiting ==> after.status == Waiting)
  }

  /** Saving removes, renames and ages nothing. */
  lemma SaveKeepsShape(s: State, c: nat, regs: Registers)
    requires c < |s.cpus|
    ensures var r := Save(s, c, regs);
      && |r.tasks| == |s.tasks| && |r.cpus| == |s.cpus|
      && forall i :: 0 <= i < |s.tasks| ==> StillThere(s.tasks[i], r.tasks[i], s.tasks[i].idle)
  {
  }
}
