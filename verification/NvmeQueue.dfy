/**
 An NVMe queue pair: `queue::send_cmd` (kernel/drivers/nvme/nvme.cpp) against a controller
 that follows sections 4.1 and 4.6 of NVM Express 1.4, as interleaved steps.
 */
module NvmeQueue {
  import opened Arithmetic

  /** A command as the driver sends it, with the number of the `send_cmd` call that sent it. */
  datatype Command = Command(serial: nat, payload: nat)

  /** A completion entry. `serial` names the command it completes; the driver reads only phase and status. */
  datatype Completion = Completion(serial: nat, status: nat, phase: bool)

  /** What one `send_cmd` call returned on: the entry it took, and the status it gave back. */
  datatype Return = Return(serial: nat, status: nat)

  datatype Pair = Pair(
    n: nat,
    // memory shared with the controller
    sq: seq<Command>, cq: seq<Completion>, sqDoorbell: nat, cqDoorbell: nat,
    // driver
    sqTail: nat, cqHead: nat, phase: bool, polling: bool,
    // controller
    sqHead: nat, cqTail: nat, controllerPhase: bool, inflight: seq<Command>,
    // records of the run
    sent: seq<nat>, executed: seq<Command>, posted: seq<nat>, results: seq<Return>)

  datatype Step =
    | Submit(payload: nat)              // the driver writes a command and rings the doorbell
    | Poll                              // the driver looks at the entry at cq_head once
    | Fetch                             // the controller takes the next command
    | Post(k: nat, status: nat)         // the controller completes one of the commands it holds

  /** The index after `i` on a ring of `n` entries. */
  function Next(i: nat, n: nat): nat {
    if i + 1 == n then 0 else i + 1
  }

  predicate WellFormed(q: Pair) {
    && q.n >= 2 && |q.sq| == |q.cq| == q.n
    && q.sqTail < q.n && q.cqHead < q.n && q.sqHead < q.n && q.cqTail < q.n
    && q.sqDoorbell < q.n && q.cqDoorbell < q.n
  }

  predicate Enabled(q: Pair, step: Step) {
    WellFormed(q) &&
    match step
    case Submit(_) => !q.polling
    case Poll => q.polling
    case Fetch => q.sqHead != q.sqDoorbell
    case Post(k, _) => k < |q.inflight| && Next(q.cqTail, q.n) != q.cqDoorbell
  }

  function Apply(q: Pair, step: Step): (r: Pair)
    requires Enabled(q, step)
    ensures WellFormed(r) && r.n == q.n
  {
    match step
    case Submit(payload) =>
      var tail := Next(q.sqTail, q.n);
      q.(sq := q.sq[q.sqTail := Command(|q.sent|, payload)], sqTail := tail, sqDoorbell := tail,
         polling := true, sent := q.sent + [payload])
    case Poll =>
      var entry := q.cq[q.cqHead];
      if entry.phase != q.phase then q
      else if entry.status != 0 then
        q.(polling := false, results := q.results + [Return(entry.serial, entry.status)])
      else
        var head := Next(q.cqHead, q.n);
        q.(cqHead := head, phase := if head == 0 then !q.phase else q.phase, cqDoorbell := head,
           polling := false, results := q.results + [Return(entry.serial, 0)])
    case Fetch =>
      q.(inflight := q.inflight + [q.sq[q.sqHead]], sqHead := Next(q.sqHead, q.n))
    case Post(k, status) =>
      var command, tail := q.inflight[k], Next(q.cqTail, q.n);
      q.(cq := q.cq[q.cqTail := Completion(command.serial, status, q.controllerPhase)], cqTail := tail,
         controllerPhase := if tail == 0 then !q.controllerPhase else q.controllerPhase,
         inflight := q.inflight[..k] + q.inflight[k + 1..], executed := q.executed + [command], posted := q.posted + [status])
  }

  predicate RunEnabled(q: Pair, steps: seq<Step>)
    decreases |steps|
  {
    steps == [] || (Enabled(q, steps[0]) && RunEnabled(Apply(q, steps[0]), steps[1..]))
  }

  function Run(q: Pair, steps: seq<Step>): Pair
    requires RunEnabled(q, steps)
    decreases |steps|
  {
    if steps == [] then q else Run(Apply(q, steps[0]), steps[1..])
  }

  /** A fresh queue pair whose completion entries all carry phase 0. */
  predicate Initial(q: Pair) {
    && WellFormed(q) && (forall j :: 0 <= j < q.n ==> !q.cq[j].phase)
    && q.sqTail == q.cqHead == q.sqHead == q.cqTail == q.sqDoorbell == q.cqDoorbell == 0
    && q.phase && q.controllerPhase && !q.polling
    && q.inflight == [] && q.sent == [] && q.executed == [] && q.posted == [] && q.results == []
  }

  // ---------------------------------------------------------------------------------------
  // Positions on the ring: the p-th entry ever used lies at Slot(p), on lap p / n.

  function Slot(p: nat, n: nat): (r: nat)
    requires n > 0
    ensures r < n
  {
    p % n
  }

  /** The phase of lap p / n: true on the first lap, then alternating. */
  predicate Lap(p: nat, n: nat)
    requires n > 0
  {
    p / n % 2 == 0
  }

  lemma NextSlot(p: nat, n: nat)
    requires n >= 2
    ensures Slot(p + 1, n) == Next(Slot(p, n), n)
    ensures Lap(p + 1, n) == if Slot(p + 1, n) == 0 then !Lap(p, n) else Lap(p, n)
  {
    var q, r := p / n, p % n;
    assert p == q * n + r;
    if r + 1 == n {
      assert p + 1 == (q + 1) * n + 0;
      QuotientUnique(p + 1, n, q + 1, 0);
    } else {
      QuotientUnique(p + 1, n, q, r + 1);
    }
  }

  /** Entries less than a lap apart lie in different slots; exactly a lap apart, the phase differs. */
  lemma SlotsApart(p: nat, q: nat, n: nat)
    requires n > 0 && p < q
    ensures q < p + n ==> Slot(p, n) != Slot(q, n)
    ensures q == p + n ==> Slot(p, n) == Slot(q, n) && Lap(p, n) != Lap(q, n)
  {
    var a, b := p / n, p % n;
    assert p == a * n + b;
    if q == p + n {
      assert q == (a + 1) * n + b;
      QuotientUnique(q, n, a + 1, b);
    } else if q < p + n && b + (q - p) < n {
      QuotientUnique(q, n, a, b + (q - p));
    } else if q < p + n {
      assert q == (a + 1) * n + (b + (q - p) - n);
      QuotientUnique(q, n, a + 1, b + (q - p) - n);
    }
  }

  lemma FirstLap(p: nat, n: nat)
    requires p < n
    ensures Slot(p, n) == p && Lap(p, n)
  {
  }

  // ---------------------------------------------------------------------------------------
  // The invariant

  /** The number of returns before the first error status, or all of them. */
  function Good(results: seq<Return>): (r: nat)
    ensures r <= |results|
    ensures forall j :: 0 <= j < r ==> results[j].status == 0
    ensures r < |results| ==> results[r].status != 0
  {
    if results == [] || results[0].status != 0 then 0 else 1 + Good(results[1..])
  }

  /** The completion ring: the last lap of posted entries, and phase 0 where nothing was posted yet. */
  predicate RingHolds(cq: seq<Completion>, n: nat, posted: nat, executed: seq<Command>, statuses: seq<nat>)
    requires n > 0 && |cq| == n && |executed| == |statuses| == posted
  {
    && (forall p :: 0 <= p < posted && posted <= p + n ==>
         cq[Slot(p, n)] == Completion(executed[p].serial, statuses[p], Lap(p, n)))
    && (forall j :: posted <= j < n ==> !cq[j].phase)
  }

  /** Before the first error: one command at a time, all positions counted from the records. */
  ghost predicate InStep(q: Pair) {
    var k, posted := |q.results|, |q.executed|;
    && WellFormed(q)
    && |q.sent| == (if q.polling then k + 1 else k) && k <= posted == |q.posted| && posted + |q.inflight| <= |q.sent|
    && (forall j :: 0 <= j < k ==> q.results[j] == Return(j, 0) && q.posted[j] == 0)
    && q.sqTail == q.sqDoorbell == Slot(|q.sent|, q.n)
    && q.cqHead == q.cqDoorbell == Slot(k, q.n) && q.phase == Lap(k, q.n)
    && q.sqHead == Slot(posted + |q.inflight|, q.n)
    && q.cqTail == Slot(posted, q.n) && q.controllerPhase == Lap(posted, q.n)
    && (forall p :: 0 <= p < posted ==> q.executed[p] == Command(p, q.sent[p]))
    && (forall j :: 0 <= j < |q.inflight| ==> q.inflight[j] == Command(k, q.sent[k]))
    && (q.polling ==> q.sq[Slot(k, q.n)] == Command(k, q.sent[k]))
    && RingHolds(q.cq, q.n, posted, q.executed, q.posted)
  }

  /** After the first error, returned by call `k`: the entry at cq_head is stuck. */
  ghost predicate Stuck(q: Pair) {
    var k, posted := Good(q.results), |q.executed|;
    && WellFormed(q) && k < |q.results|
    && |q.posted| == posted > k && (forall j :: 0 <= j < k ==> q.results[j] == Return(j, 0) && q.posted[j] == 0)
    && q.results[k] == Return(k, q.posted[k])
    && (forall j :: k <= j < |q.results| ==> q.results[j] == q.results[k])
    && q.cqHead == q.cqDoorbell == Slot(k, q.n) && q.phase == Lap(k, q.n)
    && q.cq[q.cqHead] == Completion(k, q.results[k].status, q.phase)
    && k < posted < k + q.n && q.cqTail == Slot(posted, q.n)
    && |q.sent| == (if q.polling then |q.results| + 1 else |q.results|)
  }

  ghost predicate Valid(q: Pair) {
    if Good(q.results) == |q.results| then InStep(q) else Stuck(q)
  }

  lemma {:induction false} GoodAppend(results: seq<Return>, x: Return)
    ensures Good(results + [x]) ==
      if Good(results) == |results| && x.status == 0 then |results| + 1 else Good(results)
  {
    if results != [] {
      assert (results + [x])[1..] == results[1..] + [x];
      GoodAppend(results[1..], x);
    }
  }

  /** The entry at cq_head carries the expected phase exactly when the current command has been completed. */
  lemma PhaseMeansPosted(q: Pair)
    requires InStep(q)
    ensures q.cq[q.cqHead].phase == q.phase <==> |q.executed| == |q.results| + 1
    ensures q.cq[q.cqHead].phase == q.phase ==> q.polling && q.cq[q.cqHead].serial == |q.results|
  {
    var k, posted := |q.results|, |q.executed|;
    if posted == k {
      if k < q.n {
        FirstLap(k, q.n);
      } else {
        SlotsApart(k - q.n, k, q.n);
      }
    }
  }

  lemma SubmitInStep(q: Pair, payload: nat)
    requires InStep(q) && Enabled(q, Submit(payload))
    ensures InStep(Apply(q, Submit(payload)))
  {
    NextSlot(|q.sent|, q.n);
  }

  lemma PollInStep(q: Pair)
    requires InStep(q) && Enabled(q, Poll) && Good(q.results) == |q.results|
    ensures Valid(Apply(q, Poll))
  {
    hide Slot, Lap;
    var entry := q.cq[q.cqHead];
    PhaseMeansPosted(q);
    if entry.phase == q.phase {
      GoodAppend(q.results, Return(entry.serial, entry.status));
      if entry.status == 0 {
        SuccessInStep(q);
      }
    }
  }

  /** A poll that takes a completion without an error. */
  lemma SuccessInStep(q: Pair)
    requires InStep(q) && Enabled(q, Poll) && q.cq[q.cqHead].phase == q.phase && q.cq[q.cqHead].status == 0
    ensures InStep(Apply(q, Poll))
  {
    hide Slot, Lap;
    PhaseMeansPosted(q);
    NextSlot(|q.results|, q.n);
  }

  lemma FetchInStep(q: Pair)
    requires InStep(q) && Enabled(q, Fetch)
    ensures InStep(Apply(q, Fetch))
  {
    NextSlot(|q.executed| + |q.inflight|, q.n);
  }

  lemma PostInStep(q: Pair, j: nat, status: nat)
    requires InStep(q) && Enabled(q, Post(j, status))
    ensures InStep(Apply(q, Post(j, status)))
  {
    var r, posted := Apply(q, Post(j, status)), |q.executed|;
    NextSlot(posted, q.n);
    PostKeepsRing(q.cq, q.n, posted, q.executed, q.posted, q.inflight[j], status);
  }

  /** Posting overwrites the entry of the lap before and no other of the last lap. */
  lemma PostKeepsRing(cq: seq<Completion>, n: nat, posted: nat, executed: seq<Command>, statuses: seq<nat>, command: Command,
      status: nat)
    requires n >= 2 && |cq| == n && |executed| == |statuses| == posted && RingHolds(cq, n, posted, executed, statuses)
    ensures RingHolds(cq[Slot(posted, n) := Completion(command.serial, status, Lap(posted, n))], n, posted + 1,
      executed + [command], statuses + [status])
  {
    var after := cq[Slot(posted, n) := Completion(command.serial, status, Lap(posted, n))];
    forall p | 0 <= p < posted && posted + 1 <= p + n
      ensures after[Slot(p, n)] == cq[Slot(p, n)]
    {
      SlotsApart(p, posted, n);
    }
    if posted < n {
      FirstLap(posted, n);
    }
  }

  lemma StuckStays(q: Pair, step: Step)
    requires Stuck(q) && Enabled(q, step)
    ensures Stuck(Apply(q, step)) && Good(Apply(q, step).results) == Good(q.results) < |Apply(q, step).results|
  {
    var k, posted := Good(q.results), |q.executed|;
    match step
    case Submit(_) =>
    case Poll => GoodAppend(q.results, q.results[k]);
    case Fetch =>
    case Post(_, _) => StuckPost(q, step);
  }

  lemma StuckPost(q: Pair, step: Step)
    requires Stuck(q) && step.Post? && Enabled(q, step)
    ensures Stuck(Apply(q, step)) && Good(Apply(q, step).results) == Good(q.results)
  {
    hide Slot, Lap;
    var k, posted := Good(q.results), |q.executed|;
    NextSlot(posted, q.n);
    SlotsApart(k, posted, q.n);
    SlotsApart(k, posted + 1, q.n);
  }

  lemma StepKeepsValid(q: Pair, step: Step)
    requires Valid(q) && Enabled(q, step)
    ensures Valid(Apply(q, step))
  {
    if Good(q.results) < |q.results| {
      StuckStays(q, step);
    } else {
      match step
      case Submit(payload) => SubmitInStep(q, payload);
      case Poll => PollInStep(q);
      case Fetch => FetchInStep(q);
      case Post(k, status) => PostInStep(q, k, status);
    }
  }

  lemma {:induction false} RunKeepsValid(q: Pair, steps: seq<Step>)
    requires Valid(q) && RunEnabled(q, steps)
    ensures Valid(Run(q, steps))
    decreases |steps|
  {
    if steps != [] {
      StepKeepsValid(q, steps[0]);
      RunKeepsValid(Apply(q, steps[0]), steps[1..]);
    }
  }

  lemma InitialValid(q: Pair)
    requires Initial(q)
    ensures Valid(q)
  {
    FirstLap(0, q.n);
  }

  // ---------------------------------------------------------------------------------------
  // What the steps of a run say was sent and completed

  function PayloadOf(step: Step): seq<nat> {
    if step.Submit? then [step.payload] else []
  }

  function StatusOf(step: Step): seq<nat> {
    if step.Post? then [step.status] else []
  }

  /** The payloads that the driver submits, in order. */
  function Payloads(steps: seq<Step>): seq<nat> {
    if steps == [] then [] else PayloadOf(steps[0]) + Payloads(steps[1..])
  }

  /** The statuses with which the controller completes commands, in order. */
  function Statuses(steps: seq<Step>): seq<nat> {
    if steps == [] then [] else StatusOf(steps[0]) + Statuses(steps[1..])
  }

  lemma StepRecords(q: Pair, step: Step)
    requires Enabled(q, step)
    ensures Apply(q, step).sent == q.sent + PayloadOf(step) && Apply(q, step).posted == q.posted + StatusOf(step)
  {
  }

  /** The records of a run are what its steps say. */
  lemma {:induction false} RunRecords(q: Pair, steps: seq<Step>)
    requires RunEnabled(q, steps)
    ensures Run(q, steps).sent == q.sent + Payloads(steps) && Run(q, steps).posted == q.posted + Statuses(steps)
    decreases |steps|
  {
    hide Apply, PayloadOf, StatusOf;
    if steps != [] {
      StepRecords(q, steps[0]);
      RunRecords(Apply(q, steps[0]), steps[1..]);
    }
  }

  /**
   In every interleaving, call `m` returns on the completion of its own command if and only
   if no earlier call returned an error, and then with the status that the controller gave to
   completion `m`; after the first error every call returns that same entry again.
   */
  lemma OwnCompletionUntilError(q: Pair, steps: seq<Step>, m: nat)
    requires Initial(q) && RunEnabled(q, steps) && m < |Run(q, steps).results|
    ensures var results := Run(q, steps).results;
      && (results[m].serial == m <==> forall j :: 0 <= j < m ==> results[j].status == 0)
      && (results[m].serial == m ==> m < |Statuses(steps)| && results[m].status == Statuses(steps)[m])
      && (results[m].serial != m ==>
           exists e :: 0 <= e < m && results[e].serial == e && results[e].status != 0 && results[m] == results[e])
  {
    InitialValid(q);
    RunKeepsValid(q, steps);
    RunRecords(q, steps);
    var r := Run(q, steps);
    assert r.posted == Statuses(steps);
    var k := Good(r.results);
    if m > k {
      assert r.results[m] == r.results[k];
    }
  }

  /**
   Until an error, commands are executed once each, in the order and with the payloads in which
   they were submitted; and the indices meet between calls.
   */
  lemma ExecutedOnceInOrder(q: Pair, steps: seq<Step>)
    requires Initial(q) && RunEnabled(q, steps)
    requires forall j :: 0 <= j < |Run(q, steps).results| ==> Run(q, steps).results[j].status == 0
    ensures var r, sent := Run(q, steps), Payloads(steps);
      && |r.results| <= |r.executed| <= |sent| <= |r.results| + 1
      && (forall p :: 0 <= p < |r.executed| ==> r.executed[p] == Command(p, sent[p]))
      && (!r.polling ==> r.sqTail == r.cqHead && |r.executed| == |sent| == |r.results|)
  {
    InitialValid(q);
    RunKeepsValid(q, steps);
    RunRecords(q, steps);
    assert Run(q, steps).sent == Payloads(steps);
  }

  /** Until an error the pair never blocks: the poll returns, or the controller has a step to take. */
  lemma NeverBlocks(q: Pair)
    requires InStep(q) && q.polling
    ensures q.cq[q.cqHead].phase == q.phase || Enabled(q, Fetch) || forall status :: Enabled(q, Post(0, status))
  {
    PhaseMeansPosted(q);
    var k := |q.results|;
    SlotsApart(k, k + 1, q.n);
    NextSlot(k, q.n);
  }

  /** What the controller does while the driver polls. */
  datatype DeviceAction = TakeCommand | Complete(k: nat, status: nat)

  /** The queue pair in memory. */
  class QueuePair {
    var state: Pair

    /** `queue::queue`, given completion memory in which every phase bit is 0. */
    constructor (n: nat, sq: seq<Command>, cq: seq<Completion>)
      requires n >= 2 && |sq| == |cq| == n && forall j :: 0 <= j < n ==> !cq[j].phase
      ensures Initial(state) && state.n == n
    {
      state := Pair(n, sq, cq, 0, 0, 0, 0, true, false, 0, 0, true, [], [], [], [], []);
    }

    /** The controller's side of one turn of the polling loop: it acts if it can. */
    method Device(action: DeviceAction) returns (ghost steps: seq<Step>)
      requires WellFormed(state)
      modifies this
      ensures RunEnabled(old(state), steps) && state == Run(old(state), steps)
      ensures WellFormed(state) && state.polling == old(state).polling && state.results == old(state).results
      ensures state.n == old(state).n && state.cqHead == old(state).cqHead && state.phase == old(state).phase
    {
      steps := [];
      match action
      case TakeCommand =>
        if state.sqHead != state.sqDoorbell {
          steps := [Fetch];
          state := state.(inflight := state.inflight + [state.sq[state.sqHead]], sqHead := Next(state.sqHead, state.n));
        }
      case Complete(k, status) =>
        if k < |state.inflight| && Next(state.cqTail, state.n) != state.cqDoorbell {
          steps := [Post(k, status)];
          state := Apply(state, Post(k, status));
        }
    }

    /**
     `queue::send_cmd`, with the controller's actions during the polling loop given as a
     schedule. The call is one run of the protocol that starts with its submission; it returns
     the status word of the entry it took, or nothing while it still polls. Up to the first
     error it returns if and only if the controller has completed its command by the end.
     */
    method SendCmd(payload: nat, schedule: seq<DeviceAction>) returns (r: seq<nat>, ghost steps: seq<Step>)
      requires WellFormed(state) && !state.polling
      modifies this
      ensures RunEnabled(old(state), steps) && state == Run(old(state), steps) && WellFormed(state) && state.n == old(state).n
      ensures steps != [] && steps[0] == Submit(payload) && |r| <= 1
      ensures r == [] ==> state.polling && state.results == old(state).results
      ensures r != [] ==> !state.polling && |state.results| == |old(state).results| + 1
      ensures r != [] ==> old(state).results <= state.results
      ensures var entry := state.cq[old(state).cqHead];
        r != [] ==>
          && entry.phase == old(state).phase && (r[0] == 0 <==> entry.status == 0)
          && (entry.status != 0 ==> r[0] / 2 == entry.status && (r[0] % 2 == 1 <==> entry.phase))
          && state.results[|old(state).results|] == Return(entry.serial, entry.status)
      ensures InStep(old(state)) ==> (r != [] <==> |state.executed| == |old(state).results| + 1)
    {
      hide InStep, Stuck;
      ghost var before := state;
      var tail := Next(state.sqTail, state.n);
      state := state.(sq := state.sq[state.sqTail := Command(|state.sent|, payload)], sent := state.sent + [payload]);
      state := state.(sqTail := tail);
      state := state.(sqDoorbell := tail, polling := true);
      steps := [Submit(payload)];
      var i := 0;
      while state.cq[state.cqHead].phase != state.phase && i < |schedule|
        invariant WellFormed(state) && state.polling && state.results == before.results
        invariant state.n == before.n && state.cqHead == before.cqHead && state.phase == before.phase
        invariant RunEnabled(before, steps) && state == Run(before, steps)
        invariant steps != [] && steps[0] == Submit(payload)
        decreases |schedule| - i
      {
        ghost var more := Device(schedule[i]);
        RunConcat(before, steps, more);
        steps := steps + more;
        i := i + 1;
      }
      var entry := state.cq[state.cqHead];
      PollDecides(before, steps);
      if entry.phase != state.phase {
        return [], steps;
      }
      RunConcat(before, steps, [Poll]);
      steps := steps + [Poll];
      if entry.status != 0 {
        state := state.(polling := false, results := state.results + [Return(entry.serial, entry.status)]);
        return [2 * entry.status + if entry.phase then 1 else 0], steps;
      }
      var head := Next(state.cqHead, state.n);
      state := state.(cqHead := head);
      if head == 0 {
        state := state.(phase := !state.phase);
      }
      state := state.(cqDoorbell := head, polling := false, results := state.results + [Return(entry.serial, 0)]);
      return [0], steps;
    }
  }

  /** After a run without a return, the next poll succeeds if and only if the command was completed. */
  lemma PollDecides(q: Pair, steps: seq<Step>)
    requires RunEnabled(q, steps) && Run(q, steps).results == q.results
    ensures var r := Run(q, steps);
      InStep(q) && WellFormed(r) ==> (r.cq[r.cqHead].phase == r.phase <==> |r.executed| == |q.results| + 1)
  {
    if InStep(q) {
      AllGood(q.results);
      RunKeepsValid(q, steps);
      PhaseMeansPosted(Run(q, steps));
    }
  }

  lemma {:induction false} AllGood(results: seq<Return>)
    ensures (forall j :: 0 <= j < |results| ==> results[j].status == 0) ==> Good(results) == |results|
  {
    if results != [] {
      AllGood(results[1..]);
    }
  }

  lemma {:induction false} RunConcat(q: Pair, a: seq<Step>, b: seq<Step>)
    requires RunEnabled(q, a) && RunEnabled(Run(q, a), b)
    ensures RunEnabled(q, a + b) && Run(q, a + b) == Run(Run(q, a), b)
    decreases |a|
  {
    if a == [] {
      assert a + b == b;
    } else {
      assert (a + b)[1..] == a[1..] + b;
      RunConcat(Apply(q, a[0]), a[1..], b);
    }
  }
}
