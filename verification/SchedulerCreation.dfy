/** What creating tasks and threads adds to the task list, entry by entry. */
module SchedulerCreation {
  import opened Scheduler
  import opened SchedulerSafety
  import Pow2

  /** The privilege level in the two low bits of the code segment: user code is whatever is not in ring 0. */
  lemma UserIff(r: Registers)
    ensures r.User() <==> Pow2.Bit(r.cs, 0) || Pow2.Bit(r.cs, 1)
  {
    assert Pow2.Bit(r.cs, 1) <==> Pow2.Bit(r.cs / 2, 0);
    assert r.cs % 4 == r.cs / 2 % 2 * 2 + r.cs % 2;
  }

  /** Some entry has this tag. */
  predicate Listed(tasks: seq<Task>, tag: int) {
    exists i :: 0 <= i < |tasks| && tasks[i].tag == tag
  }

  /** The default task that a look-up leaves behind. */
  predicate IsDefault(t: Task, tag: int) {
    t.tag == tag && t.pid == -1 && t.idle == 0 && t.status == Unset && t.threads == []
  }

  lemma ListedIff(tasks: seq<Task>, tag: int)
    ensures TaskIndex(tasks, tag) < |tasks| <==> Listed(tasks, tag)
  {
    if TaskIndex(tasks, tag) < |tasks| {
      assert tasks[TaskIndex(tasks, tag)].tag == tag;
    }
  }

  /** A look-up keeps all entries and adds a default one at the end just when the tag is new. */
  lemma TouchAdds(tasks: seq<Task>, tag: int)
    ensures var r := Touch(tasks, tag);
      && |r| == |tasks| + (if Listed(tasks, tag) then 0 else 1) && Listed(r, tag)
      && (forall i :: 0 <= i < |tasks| ==> r[i] == tasks[i])
      && (forall i :: |tasks| <= i < |r| ==> IsDefault(r[i], tag))
  {
    ListedIff(tasks, tag);
    TouchFinds(tasks, tag);
    ListedIff(Touch(tasks, tag), tag);
  }

  /**
   `create_task`: one entry is the new task, waiting, of age 0, without threads, under the next
   pid, with its parent and page map; the parent's tag is listed; every other old entry is as it
   was and every other new entry is a default one.
   */
  lemma CreateTaskAdds(s: State, ppid: int, pageMap: nat)
    requires Valid(s)
    ensures var r := CreateTask(s, ppid, pageMap);
      && r.taskCnt == s.taskCnt + 1 && r.threadCnt == s.threadCnt && r.cpus == s.cpus
      && |s.tasks| <= |r.tasks| <= |s.tasks| + 2 && Listed(r.tasks, ppid)
      && exists n :: 0 <= n < |r.tasks| && r.tasks[n] == Task(s.taskCnt, s.taskCnt, ppid, 0, Waiting, [], pageMap)
           && (n < |s.tasks| ==> IsPlaceholder(s.tasks[n], s.taskCnt))
           && (forall i :: 0 <= i < |s.tasks| && i != n ==> r.tasks[i] == s.tasks[i])
           && (forall i :: |s.tasks| <= i < |r.tasks| && i != n ==> IsDefault(r.tasks[i], ppid))
  {
    var first := Touch(s.tasks, ppid);
    var second := Touch(first, s.taskCnt);
    TouchAdds(s.tasks, ppid);
    TouchAdds(first, s.taskCnt);
    TouchFinds(first, s.taskCnt);
    var n, r := TaskIndex(second, s.taskCnt), CreateTask(s, ppid, pageMap);
    hide Touch, TaskIndex;
    assert n < |s.tasks| ==> TaskValid(s.tasks[n], s.taskCnt, s.threadCnt);
    var i :| 0 <= i < |first| && first[i].tag == ppid;
    assert r.tasks[i].tag == ppid;
    assert r.tasks[n] == Task(s.taskCnt, s.taskCnt, ppid, 0, Waiting, [], pageMap);
  }

  /** A default entry that is already there, of any age. */
  predicate IsPlaceholder(t: Task, tag: int) {
    t.tag == tag && t.pid == -1 && t.status == Unset && t.threads == []
  }

  /**
   `create_thread`: the task gets one more thread at the end, waiting, of age 0, under the next
   thread number, with the given registers and FS and GS bases 0. For an unknown task nothing
   happens but the look-up.
   */
  lemma CreateThreadAdds(s: State, pid: int, regs: Registers)
    requires Valid(s)
    ensures var r := CreateThread(s, pid, regs);
      && r.taskCnt == s.taskCnt && r.cpus == s.cpus
      && (forall i :: 0 <= i < |s.tasks| && s.tasks[i].tag == pid && s.tasks[i].pid != -1 ==>
           && r.threadCnt == s.threadCnt + 1 && |r.tasks| == |s.tasks|
           && r.tasks[i] == s.tasks[i].(threads := s.tasks[i].threads + [Thread(s.threadCnt, 0, Waiting, 0, 0, regs)])
           && forall j :: 0 <= j < |s.tasks| && j != i ==> r.tasks[j] == s.tasks[j])
      && ((forall i :: 0 <= i < |s.tasks| && s.tasks[i].tag == pid ==> s.tasks[i].pid == -1) ==>
           r == s.(tasks := Touch(s.tasks, pid)))
  {
    TouchFinds(s.tasks, pid);
    ListedIff(s.tasks, pid);
    forall i | 0 <= i < |s.tasks| && s.tasks[i].tag == pid
      ensures TaskIndex(s.tasks, pid) == i
    {
      TaskIndexIs(s.tasks, i);
    }
  }
}
