/** Bounded overtaking: how long a waiting task can be passed over. */
module SchedulerFairness {
  import opened Scheduler
  import opened SchedulerSafety
  import opened SchedulerRuns

  /** Entry `i` would be preferred to entry `w` if both waited: it is older, or as old and earlier. */
  predicate Precedes(tasks: seq<Task>, i: nat, w: nat)
    requires i < |tasks| && w < |tasks|
  {
    i != w && (tasks[i].idle > tasks[w].idle || (tasks[i].idle == tasks[w].idle && i < w))
  }

  /** The tasks that come before task `w`; placeholders are none. */
  function Ahead(s: State, w: nat): set<nat>
    requires w < |s.tasks|
  {
    set i: nat | i < |s.tasks| && s.tasks[i].pid != -1 && Precedes(s.tasks, i, w)
  }

  /** Task `w` has aged, or no earlier entry is a placeholder that a new task could still fill. */
  predicate Settled(s: State, w: nat)
    requires w < |s.tasks|
  {
    s.tasks[w].idle > 0 || forall i :: 0 <= i < w ==> s.tasks[i].pid != -1 || s.tasks[i].tag < 0
  }

  /** Task `w` waits, and it and every task before it has a thread. */
  predicate Ready(s: State, w: nat) {
    && w < |s.tasks| && s.tasks[w].status == Waiting && s.tasks[w].threads != [] && Settled(s, w)
    && forall i :: i in Ahead(s, w) ==> s.tasks[i].threads != []
  }

  /** A waiting task with a thread has one that can be picked. */
  lemma WaitingThreadFound(s: State, k: nat)
    requires Valid(s) && k < |s.tasks| && s.tasks[k].status == Waiting && s.tasks[k].threads != []
    ensures NextThread(s, k) != -1
  {
    assert TaskValid(s.tasks[k], s.taskCnt, s.threadCnt);
    var candidates := ThreadCandidates(AgeThreads(s.tasks[k].threads));
    BestIsOldest(candidates);
    assert candidates[0].waiting;
  }

  /** The chosen task is `w` or comes before it. */
  lemma ChosenPrecedes(s: State, c: nat, w: nat)
    requires Valid(s) && c < |s.cpus| && Ready(s, w)
    ensures var k := NextTask(s, c);
      0 <= k < |s.tasks| && s.tasks[k].status == Waiting && (k == w || k in Ahead(s, w)) && Switches(s, c)
  {
    var aged := AgeTasks(s.tasks);
    var candidates := TaskCandidates(aged);
    BestIsOldest(candidates);
    assert candidates[w].waiting;
    var k := NextTask(s, c);
    assert candidates[k].waiting && TaskValid(s.tasks[k], s.taskCnt, s.threadCnt);
    assert k == w || Precedes(s.tasks, k, w);
    WaitingThreadFound(s, k);
  }

  /** Ages after a switch: the chosen task starts again at 0, all others are one older. */
  lemma SwitchAges(s: State, c: nat, regs: Registers)
    requires c < |s.cpus| && Switches(s, c)
    ensures var k, r := NextTask(s, c), Reschedule(s, c, regs);
      && |r.tasks| == |s.tasks| && r.cpus[c].pid == s.tasks[k].pid
      && r.tasks[k].tag == s.tasks[k].tag && r.tasks[k].pid == s.tasks[k].pid && r.tasks[k].idle == 0
      && forall i :: 0 <= i < |s.tasks| && i != k ==> StillThere(s.tasks[i], r.tasks[i], s.tasks[i].idle + 1)
  {
    var k := NextTask(s, c);
    var aged := Aged(s, k);
    var v := Save(aged, c, regs);
    SaveKeepsShape(aged, c, regs);
    assert StillThere(aged.tasks[k], v.tasks[k], aged.tasks[k].idle);
    forall i | 0 <= i < |s.tasks| && i != k
      ensures StillThere(s.tasks[i], v.tasks[i], s.tasks[i].idle + 1)
    {
      assert StillThere(aged.tasks[i], v.tasks[i], aged.tasks[i].idle);
    }
  }

  /** One tick, while `w` waits: `w` is chosen, or one task before it is and leaves the set for good. */
  lemma TickOvertakes(s: State, c: nat, regs: Registers, w: nat)
    requires Valid(s) && c < |s.cpus| && Ready(s, w)
    ensures var k, r := NextTask(s, c), Reschedule(s, c, regs);
      && Switches(s, c) && 0 <= k < |s.tasks| && r.cpus[c].pid == s.tasks[k].pid
      && (k != w ==> k in Ahead(s, w) && w < |r.tasks| && Ahead(r, w) == Ahead(s, w) - {k} && Ready(r, w))
  {
    var k, r := NextTask(s, c), Reschedule(s, c, regs);
    ChosenPrecedes(s, c, w);
    SwitchAges(s, c, regs);
    if k != w {
      AheadAfterPick(s, r, k, w);
    }
  }

  lemma AheadAfterPick(s: State, r: State, k: nat, w: nat)
    requires Ready(s, w) && k in Ahead(s, w) && |r.tasks| == |s.tasks|
    requires r.tasks[k].tag == s.tasks[k].tag && r.tasks[k].pid == s.tasks[k].pid && r.tasks[k].idle == 0
    requires forall i :: 0 <= i < |s.tasks| && i != k ==> StillThere(s.tasks[i], r.tasks[i], s.tasks[i].idle + 1)
    ensures Ahead(r, w) == Ahead(s, w) - {k} && Ready(r, w)
  {
    assert StillThere(s.tasks[w], r.tasks[w], s.tasks[w].idle + 1);
    forall i: nat | i < |s.tasks|
      ensures i in Ahead(r, w) <==> i in Ahead(s, w) && i != k
      ensures i in Ahead(r, w) ==> r.tasks[i].threads != []
    {
      if i != k {
        assert StillThere(s.tasks[i], r.tasks[i], s.tasks[i].idle + 1);
      }
    }
  }

  /** A new task or thread never comes before a task that already waits. */
  lemma CreationOvertakesNobody(s: State, step: Step, w: nat)
    requires Valid(s) && (step.MakeTask? || step.MakeThread?) && Ready(s, w)
    ensures var r := Apply(s, step);
      w < |r.tasks| && Ahead(r, w) == Ahead(s, w) && Ready(r, w)
  {
    match step
    case MakeTask(ppid, pageMap) =>
      var s1 := s.(tasks := Touch(s.tasks, ppid));
      TouchOvertakesNobody(s, ppid, w);
      TouchKeepsValid(s, ppid);
      TouchOvertakesNobody(s1, s.taskCnt, w);
      TouchKeepsValid(s1, s.taskCnt);
      TouchFinds(s1.tasks, s.taskCnt);
      FillOvertakesNobody(s1.(tasks := Touch(s1.tasks, s.taskCnt)), ppid, pageMap, w);
    case MakeThread(pid, regs) =>
      TouchOvertakesNobody(s, pid, w);
      TouchFinds(s.tasks, pid);
      ThreadOvertakesNobody(s.(tasks := Touch(s.tasks, pid)), pid, regs, w);
  }

  lemma TouchOvertakesNobody(s: State, tag: int, w: nat)
    requires Ready(s, w)
    ensures var r := s.(tasks := Touch(s.tasks, tag));
      w < |r.tasks| && Ahead(r, w) == Ahead(s, w) && Ready(r, w)
  {
    var r := s.(tasks := Touch(s.tasks, tag));
    forall i: nat
      ensures i in Ahead(r, w) <==> i in Ahead(s, w)
    {
    }
  }

  lemma FillOvertakesNobody(s: State, ppid: int, pageMap: nat, w: nat)
    requires Valid(s) && TaskIndex(s.tasks, s.taskCnt) < |s.tasks| && Ready(s, w)
    ensures var t := Task(s.taskCnt, s.taskCnt, ppid, 0, Waiting, [], pageMap);
      var r := s.(tasks := s.tasks[TaskIndex(s.tasks, s.taskCnt) := t], taskCnt := s.taskCnt + 1);
      w < |r.tasks| && Ahead(r, w) == Ahead(s, w) && Ready(r, w)
  {
    var n := TaskIndex(s.tasks, s.taskCnt);
    var t := Task(s.taskCnt, s.taskCnt, ppid, 0, Waiting, [], pageMap);
    var r := s.(tasks := s.tasks[n := t], taskCnt := s.taskCnt + 1);
    assert TaskValid(s.tasks[n], s.taskCnt, s.threadCnt);
    assert n !in Ahead(s, w) && n != w;
    forall i: nat
      ensures i in Ahead(r, w) <==> i in Ahead(s, w)
    {
    }
  }

  lemma ThreadOvertakesNobody(s: State, pid: int, regs: Registers, w: nat)
    requires Ready(s, w) && TaskIndex(s.tasks, pid) < |s.tasks|
    ensures var r := CreateThread(s, pid, regs);
      w < |r.tasks| && Ahead(r, w) == Ahead(s, w) && Ready(r, w)
  {
    var r := CreateThread(s, pid, regs);
    forall i: nat
      ensures i in Ahead(r, w) <==> i in Ahead(s, w)
    {
    }
  }

  function Ticks(steps: seq<Step>): nat {
    if steps == [] then 0 else (if steps[0].Tick? then 1 else 0) + Ticks(steps[1..])
  }

  /** The tasks chosen in a run, one for each tick that switches. */
  function Picks(s: State, steps: seq<Step>): seq<int>
    requires RunEnabled(s, steps)
    decreases |steps|
  {
    if steps == [] then []
    else
      (if steps[0].Tick? && Switches(s, steps[0].c) then [NextTask(s, steps[0].c)] else []) +
      Picks(Apply(s, steps[0]), steps[1..])
  }

  lemma StepOvertakes(s: State, step: Step, w: nat)
    requires Valid(s) && Enabled(s, step) && Ready(s, w)
    requires step.Tick? ==> NextTask(s, step.c) != w
    ensures var r := Apply(s, step);
      && w < |r.tasks| && Ready(r, w)
      && (if step.Tick? then
            && Switches(s, step.c) && NextTask(s, step.c) in Ahead(s, w)
            && Ahead(r, w) == Ahead(s, w) - {NextTask(s, step.c)}
          else Ahead(r, w) == Ahead(s, w))
  {
    match step
    case MakeTask(_, _) => CreationOvertakesNobody(s, step, w);
    case MakeThread(_, _) => CreationOvertakesNobody(s, step, w);
    case Tick(c, regs) => TickOvertakes(s, c, regs, w);
    case Execute(_, _, _, _) =>
  }

  predicate NoRepeat(p: seq<int>) {
    forall i, j :: 0 <= i < j < |p| ==> p[i] != p[j]
  }

  /**
   Bounded overtaking: as long as task `w` has not been chosen, every tick of the run chose a
   different task, each of them before `w` at the start; so there are at most as many ticks
   as tasks that were before it, and none chose a task made later.
   */
  lemma {:induction false} BoundedOvertaking(s: State, steps: seq<Step>, w: nat)
    requires Valid(s) && RunEnabled(s, steps) && Ready(s, w)
    requires w !in Picks(s, steps)
    ensures |Picks(s, steps)| == Ticks(steps) <= |Ahead(s, w)| && NoRepeat(Picks(s, steps))
    ensures forall p :: p in Picks(s, steps) ==> p in Ahead(s, w)
    decreases |steps|
  {
    hide Valid, Ahead, Apply;
    if steps != [] {
      var step, tail := steps[0], Picks(Apply(s, steps[0]), steps[1..]);
      if step.Tick? {
        ChosenPrecedes(s, step.c, w);
        var k := NextTask(s, step.c);
        assert Picks(s, steps) == [k] + tail;
        assert k in Picks(s, steps);
        assert w !in tail by { assert forall p :: p in tail ==> p in Picks(s, steps); }
        StepOvertakes(s, step, w);
        ApplyKeepsValid(s, step);
        BoundedOvertaking(Apply(s, step), steps[1..], w);
        CountPick(k, tail, Ahead(s, w), Ahead(Apply(s, step), w));
      } else {
        assert Picks(s, steps) == tail;
        StepOvertakes(s, step, w);
        ApplyKeepsValid(s, step);
        BoundedOvertaking(Apply(s, step), steps[1..], w);
      }
    }
  }

  lemma CountPick(k: nat, tail: seq<int>, ahead: set<nat>, left: set<nat>)
    requires k in ahead && left == ahead - {k}
    requires |tail| <= |left| && NoRepeat(tail) && forall p :: p in tail ==> p in left
    ensures |[k] + tail| <= |ahead| && NoRepeat([k] + tail) && forall p :: p in [k] + tail ==> p in ahead
  {
    forall i, j | 0 <= i < j < |[k] + tail|
      ensures ([k] + tail)[i] != ([k] + tail)[j]
    {
      assert ([k] + tail)[j] in tail;
    }
  }

  /** A waiting task is chosen within as many ticks as there are tasks. */
  lemma WaitingTaskIsChosen(s: State, steps: seq<Step>, w: nat)
    requires Valid(s) && RunEnabled(s, steps) && Ready(s, w)
    requires Ticks(steps) >= |s.tasks|
    ensures w in Picks(s, steps)
  {
    if w !in Picks(s, steps) {
      BoundedOvertaking(s, steps, w);
      AheadIsSmaller(s, w);
    }
  }

  lemma AheadIsSmaller(s: State, w: nat)
    requires w < |s.tasks|
    ensures |Ahead(s, w)| < |s.tasks|
  {
    var all := Below(|s.tasks|);
    BelowSize(|s.tasks|);
    assert Ahead(s, w) < all by {
      assert w in all && w !in Ahead(s, w);
    }
    SubsetSize(Ahead(s, w), all);
  }

  function Below(n: nat): (r: set<nat>)
    ensures forall i: nat :: i in r <==> i < n
  {
    if n == 0 then {} else Below(n - 1) + {n - 1}
  }

  lemma {:induction false} BelowSize(n: nat)
    ensures |Below(n)| == n
  {
    if n > 0 {
      BelowSize(n - 1);
    }
  }

  lemma {:induction false} SubsetSize(a: set<nat>, b: set<nat>)
    requires a < b
    ensures |a| < |b|
  {
    var extra := b - a;
    assert b == a + extra && extra != {};
  }
}
