/**
 The scheduler of the distributed master: one goroutine per task takes a worker's name from an unbuffered
 channel, calls the worker, and hands the name back whatever the call returned; it stops at its first
 successful call.  A second goroutine forwards each registered worker once.  The model is the step system
 of all of them together with the workers' own counters.
 */
module Schedule {
  datatype Phase = MapPhase | ReducePhase

  datatype Job = Job(mapFiles: seq<string>, nReduce: nat, phase: Phase) {
    function Tasks(): nat {
      if phase.MapPhase? then |mapFiles| else nReduce
    }
  }

  /** How far a call to a worker has come. */
  datatype Stage = Sent | Running | Ended

  datatype Task = Waiting | Calling(worker: string, stage: Stage) | Done

  /** One task's goroutine, with the history of its calls. */
  datatype Slot = Slot(
    task: Task,
    successes: nat,  // calls that returned true
    runs: nat,       // times a worker began the task
    lost: nat        // calls that returned false although the worker had run the task
  )

  datatype State = State(
    workers: seq<string>,         // the master's list of registered workers
    forwarded: nat,               // how many of them were sent to the channel
    sending: multiset<string>,    // names in goroutines blocked on the channel
    slots: seq<Slot>,             // the tasks launched so far
    concurrent: multiset<string>, // each worker's counter of parallel tasks
    fatal: bool,                  // a worker saw two tasks at once
    panicked: bool                // the launching loop indexed past mapFiles
  )

  datatype Step =
    | Register(name: string)
    | Forward
    | Launch
    | Receive(index: nat, name: string)
    | Begin(index: nat)
    | Finish(index: nat)
    | Return(index: nat, ok: bool)
    | Cut(index: nat)  // the call returns false while the worker still runs the task

  function Init(workers: seq<string>): State {
    State(workers, 0, multiset{}, [], multiset{}, false, false)
  }

  predicate AtStage(s: State, i: nat, stage: Stage) {
    i < |s.slots| && s.slots[i].task.Calling? && s.slots[i].task.stage == stage
  }

  predicate Enabled(job: Job, s: State, step: Step) {
    && !s.panicked
    && match step
       case Register(_) => true
       case Forward => s.forwarded < |s.workers|
       case Launch => |s.slots| < job.Tasks()
       case Receive(i, w) => i < |s.slots| && s.slots[i].task.Waiting? && s.sending[w] > 0
       case Begin(i) => AtStage(s, i, Sent)
       case Finish(i) => AtStage(s, i, Running)
       case Return(i, ok) => AtStage(s, i, Ended) || (!ok && AtStage(s, i, Sent))
       case Cut(i) => AtStage(s, i, Running)
  }

  /** The steps of one task's goroutine and of the worker it calls. */
  predicate MovesTask(step: Step) {
    step.Receive? || step.Begin? || step.Finish? || step.Return? || step.Cut?
  }

  function SlotAfter(slot: Slot, step: Step): Slot
    requires MovesTask(step) && (slot.task.Calling? || step.Receive?)
  {
    match step
    case Receive(_, w) => slot.(task := Calling(w, Sent))
    case Begin(_) => slot.(task := Calling(slot.task.worker, Running), runs := slot.runs + 1)
    case Finish(_) => slot.(task := Calling(slot.task.worker, Ended))
    case Return(_, ok) =>
      if ok then slot.(task := Done, successes := slot.successes + 1)
      else slot.(task := Waiting, lost := slot.lost + if slot.task.stage.Ended? then 1 else 0)
    case Cut(_) => slot.(task := Waiting, lost := slot.lost + 1)
  }

  /** The channel: a receiver takes a name, and every call, successful or not, hands it back. */
  function SendingAfter(sending: multiset<string>, slot: Slot, step: Step): multiset<string>
    requires MovesTask(step) && (slot.task.Calling? || step.Receive?)
  {
    match step
    case Receive(_, w) => sending - multiset{w}
    case Return(_, _) => sending + multiset{slot.task.worker}
    case Cut(_) => sending + multiset{slot.task.worker}
    case _ => sending
  }

  /** The worker's counter. */
  function ConcurrentAfter(concurrent: multiset<string>, slot: Slot, step: Step): multiset<string>
    requires MovesTask(step) && (slot.task.Calling? || step.Receive?)
  {
    match step
    case Begin(_) => concurrent + multiset{slot.task.worker}
    case Finish(_) => concurrent - multiset{slot.task.worker}
    case _ => concurrent
  }

  /** The worker finds its counter above one. */
  predicate Overlaps(concurrent: multiset<string>, slot: Slot, step: Step)
    requires MovesTask(step) && (slot.task.Calling? || step.Receive?)
  {
    match step
    case Begin(_) => concurrent[slot.task.worker] + 1 > 1
    case _ => false
  }

  function Apply(job: Job, s: State, step: Step): State
    requires Enabled(job, s, step)
  {
    match step
    case Register(w) => s.(workers := s.workers + [w])
    case Forward => s.(forwarded := s.forwarded + 1, sending := s.sending + multiset{s.workers[s.forwarded]})
    case Launch =>
      if |s.slots| < |job.mapFiles| then s.(slots := s.slots + [Slot(Waiting, 0, 0, 0)]) else s.(panicked := true)
    case _ =>
      var slot := s.slots[step.index];
      State(s.workers, s.forwarded, SendingAfter(s.sending, slot, step),
            s.slots[step.index := SlotAfter(slot, step)], ConcurrentAfter(s.concurrent, slot, step),
            s.fatal || Overlaps(s.concurrent, slot, step), s.panicked)
  }

  /** Which faults may happen: calls that fail while the worker still runs the task, and workers that
      register more than once. */
  datatype Faults = Faults(cuts: bool, twice: bool)

  const NO_FAULTS: Faults := Faults(false, false)

  predicate Permitted(faults: Faults, s: State, step: Step) {
    (step.Cut? ==> faults.cuts) && (step.Register? && step.name in s.workers ==> faults.twice)
  }

  ghost predicate Run(job: Job, faults: Faults, s: State, steps: seq<Step>, end: State)
    decreases |steps|
  {
    if steps == [] then s == end
    else
      Enabled(job, s, steps[0]) && Permitted(faults, s, steps[0]) &&
      Run(job, faults, Apply(job, s, steps[0]), steps[1..], end)
  }

  /** Each worker registers once, and a call that fails leaves nothing running. */
  predicate Clean(s: State, step: Step) {
    Permitted(NO_FAULTS, s, step)
  }

  ghost predicate Path(job: Job, s: State, steps: seq<Step>, end: State) {
    Run(job, NO_FAULTS, s, steps, end)
  }

  /** wg.Wait returns: every task was launched and every goroutine has ended. */
  predicate Returned(job: Job, s: State) {
    !s.panicked && |s.slots| == job.Tasks() && forall i :: 0 <= i < |s.slots| ==> s.slots[i].task.Done?
  }

  // ----- counting -----

  predicate Counts(t: Task, w: string, runningOnly: bool) {
    t.Calling? && t.worker == w && (runningOnly ==> t.stage.Running?)
  }

  function One(b: bool): nat { if b then 1 else 0 }

  /** How many tasks hold worker w, or are running on it. */
  function Held(slots: seq<Slot>, w: string, runningOnly: bool): nat {
    if slots == [] then 0
    else Held(slots[..|slots| - 1], w, runningOnly) + One(Counts(slots[|slots| - 1].task, w, runningOnly))
  }

  lemma {:induction false} HeldPut(slots: seq<Slot>, i: nat, slot: Slot, w: string, runningOnly: bool)
    requires i < |slots|
    ensures Held(slots[i := slot], w, runningOnly) + One(Counts(slots[i].task, w, runningOnly))
         == Held(slots, w, runningOnly) + One(Counts(slot.task, w, runningOnly))
  {
    var n := |slots| - 1;
    if i < n {
      HeldPut(slots[..n], i, slot, w, runningOnly);
      assert slots[i := slot][..n] == slots[..n][i := slot];
    } else {
      assert slots[i := slot][..n] == slots[..n];
    }
  }

  lemma HeldLaunch(slots: seq<Slot>, slot: Slot, w: string, runningOnly: bool)
    requires !slot.task.Calling?
    ensures Held(slots + [slot], w, runningOnly) == Held(slots, w, runningOnly)
  {
    assert (slots + [slot])[..|slots|] == slots;
  }

  lemma {:induction false} HeldAtLeast(slots: seq<Slot>, i: nat, w: string, runningOnly: bool)
    requires i < |slots| && Counts(slots[i].task, w, runningOnly)
    ensures Held(slots, w, runningOnly) >= 1
  {
    var n := |slots| - 1;
    if i < n {
      HeldAtLeast(slots[..n], i, w, runningOnly);
    }
  }

  lemma {:induction false} HeldTwice(slots: seq<Slot>, i: nat, j: nat, w: string, runningOnly: bool)
    requires i < j < |slots| && Counts(slots[i].task, w, runningOnly) && Counts(slots[j].task, w, runningOnly)
    ensures Held(slots, w, runningOnly) >= 2
  {
    var n := |slots| - 1;
    if j < n {
      HeldTwice(slots[..n], i, j, w, runningOnly);
    } else {
      HeldAtLeast(slots[..n], i, w, runningOnly);
    }
  }

  lemma {:induction false} HeldNone(slots: seq<Slot>, w: string, runningOnly: bool)
    requires forall i :: 0 <= i < |slots| ==> !slots[i].task.Calling?
    ensures Held(slots, w, runningOnly) == 0
  {
    if slots != [] {
      HeldNone(slots[..|slots| - 1], w, runningOnly);
    }
  }

  lemma {:induction false} RunningHeld(slots: seq<Slot>, w: string)
    ensures Held(slots, w, true) <= Held(slots, w, false)
  {
    if slots != [] {
      RunningHeld(slots[..|slots| - 1], w);
    }
  }

  // ----- the invariant -----

  predicate Distinct(names: seq<string>) {
    forall i, j :: 0 <= i < j < |names| ==> names[i] != names[j]
  }

  predicate SlotOk(slot: Slot) {
    && slot.successes == One(slot.task.Done?)
    && slot.runs == slot.lost + One(slot.task.Done? || (slot.task.Calling? && !slot.task.stage.Sent?))
  }

  /** One token per forwarded worker: its name is either on its way to the channel or held by one task. */
  ghost predicate TokensOk(s: State) {
    s.forwarded <= |s.workers| &&
    forall w :: s.sending[w] + Held(s.slots, w, false) == One(w in s.workers[..s.forwarded])
  }

  ghost predicate CountersOk(s: State) {
    forall w :: s.concurrent[w] == Held(s.slots, w, true)
  }

  ghost predicate Inv(job: Job, s: State) {
    && Distinct(s.workers)
    && |s.slots| <= job.Tasks() && |s.slots| <= |job.mapFiles|
    && TokensOk(s) && CountersOk(s) && !s.fatal
    && (s.panicked ==> job.Tasks() > |job.mapFiles|)
    && forall i :: 0 <= i < |s.slots| ==> SlotOk(s.slots[i])
  }

  lemma TokenMoves(job: Job, s: State, step: Step, w: string)
    requires Enabled(job, s, step) && MovesTask(step)
    ensures var t := Apply(job, s, step);
      && t.workers == s.workers && t.forwarded == s.forwarded
      && t.sending[w] + Held(t.slots, w, false) == s.sending[w] + Held(s.slots, w, false)
  {
    hide Held, ConcurrentAfter;
    HeldPut(s.slots, step.index, SlotAfter(s.slots[step.index], step), w, false);
  }

  lemma CounterMoves(job: Job, s: State, step: Step, w: string)
    requires Enabled(job, s, step) && MovesTask(step) && !step.Cut? && CountersOk(s)
    ensures Apply(job, s, step).concurrent[w] == Held(Apply(job, s, step).slots, w, true)
  {
    hide Held, SendingAfter;
    assert s.concurrent[w] == Held(s.slots, w, true);
    HeldPut(s.slots, step.index, SlotAfter(s.slots[step.index], step), w, true);
  }

  /** Forwarding makes the one token of a worker. */
  lemma ForwardKeeps(job: Job, s: State)
    requires Distinct(s.workers) && TokensOk(s) && Enabled(job, s, Forward)
    ensures TokensOk(Apply(job, s, Forward))
  {
    hide Held;
    var t := Apply(job, s, Forward);
    assert t.workers[..t.forwarded] == s.workers[..s.forwarded] + [s.workers[s.forwarded]];
    assert s.workers[s.forwarded] !in s.workers[..s.forwarded];
    forall w ensures t.sending[w] + Held(t.slots, w, false) == One(w in t.workers[..t.forwarded]) {
      assert s.sending[w] + Held(s.slots, w, false) == One(w in s.workers[..s.forwarded]);
    }
  }

  lemma TokensKeep(job: Job, s: State, step: Step)
    requires Distinct(s.workers) && TokensOk(s) && Enabled(job, s, step) && Clean(s, step)
    ensures TokensOk(Apply(job, s, step))
  {
    hide Held;
    var t := Apply(job, s, step);
    if step.Forward? {
      ForwardKeeps(job, s);
    } else if MovesTask(step) {
      hide Apply;
      forall w ensures t.sending[w] + Held(t.slots, w, false) == s.sending[w] + Held(s.slots, w, false) {
        TokenMoves(job, s, step, w);
      }
      TokenMoves(job, s, step, "");
    } else {
      assert t.workers[..t.forwarded] == s.workers[..s.forwarded];
      forall w ensures Held(t.slots, w, false) == Held(s.slots, w, false) {
        HeldLaunch(s.slots, Slot(Waiting, 0, 0, 0), w, false);
      }
    }
  }

  lemma CountersKeep(job: Job, s: State, step: Step)
    requires CountersOk(s) && Enabled(job, s, step) && Clean(s, step)
    ensures CountersOk(Apply(job, s, step))
  {
    hide Held;
    var t := Apply(job, s, step);
    forall w ensures t.concurrent[w] == Held(t.slots, w, true) {
      if MovesTask(step) {
        CounterMoves(job, s, step, w);
      } else {
        HeldLaunch(s.slots, Slot(Waiting, 0, 0, 0), w, true);
      }
    }
  }

  lemma SlotsKeep(job: Job, s: State, step: Step)
    requires Enabled(job, s, step) && Clean(s, step)
    requires forall i :: 0 <= i < |s.slots| ==> SlotOk(s.slots[i])
    ensures forall i :: 0 <= i < |Apply(job, s, step).slots| ==> SlotOk(Apply(job, s, step).slots[i])
  {
    hide SendingAfter, ConcurrentAfter;
    var t := Apply(job, s, step);
    if MovesTask(step) {
      var i := step.index;
      assert SlotOk(s.slots[i]) && t.slots == s.slots[i := t.slots[i]];
      assert SlotOk(t.slots[i]);
    }
  }

  /** No worker has two tasks at once. */
  lemma AtMostOne(job: Job, s: State, w: string)
    requires Inv(job, s)
    ensures Held(s.slots, w, false) <= 1 && s.concurrent[w] <= 1
  {
    RunningHeld(s.slots, w);
    assert s.sending[w] + Held(s.slots, w, false) == One(w in s.workers[..s.forwarded]);
  }

  lemma BeginAlone(job: Job, s: State, i: nat)
    requires Inv(job, s) && AtStage(s, i, Sent)
    ensures s.concurrent[s.slots[i].task.worker] == 0
  {
    var w := s.slots[i].task.worker;
    var running := s.slots[i].(task := Calling(w, Running));
    HeldPut(s.slots, i, running, w, false);
    HeldPut(s.slots, i, running, w, true);
    RunningHeld(s.slots[i := running], w);
    AtMostOne(job, s, w);
  }

  lemma InvKeeps(job: Job, s: State, step: Step)
    requires Inv(job, s) && Enabled(job, s, step) && Clean(s, step)
    ensures Inv(job, Apply(job, s, step))
  {
    hide Held, TokensOk, CountersOk, SlotOk, SlotAfter, SendingAfter, ConcurrentAfter;
    SlotsKeep(job, s, step);
    TokensKeep(job, s, step);
    CountersKeep(job, s, step);
    if step.Begin? {
      BeginAlone(job, s, step.index);
    }
  }

  lemma {:induction false} PathKeeps(job: Job, s: State, steps: seq<Step>, end: State)
    requires Inv(job, s) && Path(job, s, steps, end)
    ensures Inv(job, end)
    decreases |steps|
  {
    hide Inv, Enabled, Apply;
    if steps != [] {
      InvKeeps(job, s, steps[0]);
      PathKeeps(job, Apply(job, s, steps[0]), steps[1..], end);
    }
  }

  lemma InitOk(job: Job, workers: seq<string>)
    requires Distinct(workers)
    ensures Inv(job, Init(workers))
  {}

  // ----- what every run guarantees -----

  /** In every run no two tasks hold the same worker, a worker's counter never exceeds one, and nothing
      is lost: every forwarded worker is at the channel or with a task. */
  lemma ScheduleSafe(job: Job, workers: seq<string>, steps: seq<Step>, s: State)
    requires Distinct(workers) && Path(job, Init(workers), steps, s)
    ensures !s.fatal && forall w :: s.concurrent[w] <= 1
    ensures forall i, j :: 0 <= i < j < |s.slots| && s.slots[i].task.Calling? && s.slots[j].task.Calling? ==>
      s.slots[i].task.worker != s.slots[j].task.worker
    ensures s.forwarded <= |s.workers| &&
      forall w :: s.sending[w] + Held(s.slots, w, false) == One(w in s.workers[..s.forwarded])
  {
    hide Held;
    InitOk(job, workers);
    PathKeeps(job, Init(workers), steps, s);
    forall w ensures s.concurrent[w] <= 1 {
      AtMostOne(job, s, w);
    }
    forall i, j | 0 <= i < j < |s.slots| && s.slots[i].task.Calling? && s.slots[j].task.Calling?
      ensures s.slots[i].task.worker != s.slots[j].task.worker
    {
      var w := s.slots[i].task.worker;
      AtMostOne(job, s, w);
      if s.slots[j].task.worker == w {
        HeldTwice(s.slots, i, j, w, false);
        assert false;
      }
    }
  }

  /** When schedule returns, each task has had exactly one successful call and has been run once more than
      replies were lost, no worker is running anything, and every forwarded worker's name is at the channel. */
  lemma ScheduleReturns(job: Job, workers: seq<string>, steps: seq<Step>, s: State)
    requires Distinct(workers) && Path(job, Init(workers), steps, s) && Returned(job, s)
    ensures |s.slots| == job.Tasks()
    ensures forall i :: 0 <= i < |s.slots| ==> s.slots[i].successes == 1 && s.slots[i].runs == 1 + s.slots[i].lost
    ensures s.forwarded <= |s.workers|
    ensures s.concurrent == multiset{} && forall w :: s.sending[w] == One(w in s.workers[..s.forwarded])
  {
    hide Held;
    InitOk(job, workers);
    PathKeeps(job, Init(workers), steps, s);
    forall w ensures s.concurrent[w] == 0 && s.sending[w] == One(w in s.workers[..s.forwarded]) {
      HeldNone(s.slots, w, false);
      HeldNone(s.slots, w, true);
      assert s.sending[w] + Held(s.slots, w, false) == One(w in s.workers[..s.forwarded]);
    }
  }

  // ----- progress -----

  /** How many steps a task is away from its end. */
  function Distance(t: Task): nat {
    match t
    case Waiting => 4
    case Calling(_, Sent) => 3
    case Calling(_, Running) => 2
    case Calling(_, Ended) => 1
    case Done => 0
  }

  function Distances(slots: seq<Slot>): nat {
    if slots == [] then 0 else Distances(slots[..|slots| - 1]) + Distance(slots[|slots| - 1].task)
  }

  lemma {:induction false} DistancesPut(slots: seq<Slot>, i: nat, slot: Slot)
    requires i < |slots|
    ensures Distances(slots[i := slot]) + Distance(slots[i].task) == Distances(slots) + Distance(slot.task)
  {
    var n := |slots| - 1;
    if i < n {
      DistancesPut(slots[..n], i, slot);
      assert slots[i := slot][..n] == slots[..n][i := slot];
    } else {
      assert slots[i := slot][..n] == slots[..n];
    }
  }

  /** What is left to do: forwarding, launching and the way of each task. */
  function Remaining(job: Job, s: State): int {
    |s.workers| - s.forwarded + 5 * (job.Tasks() - |s.slots|) + Distances(s.slots)
  }

  /** A step of a call that goes well. */
  lemma CallMoves(job: Job, s: State, i: nat) returns (step: Step)
    requires !s.panicked && i < |s.slots| && s.slots[i].task.Calling?
    ensures !step.Register? && Enabled(job, s, step) && Clean(s, step)
    ensures Remaining(job, Apply(job, s, step)) < Remaining(job, s)
  {
    match s.slots[i].task.stage {
      case Sent => step := Begin(i);
      case Running => step := Finish(i);
      case Ended => step := Return(i, true);
    }
    DistancesPut(s.slots, i, SlotAfter(s.slots[i], step));
  }

  lemma TaskMoves(job: Job, s: State, i: nat) returns (step: Step)
    requires Inv(job, s) && !s.panicked && i < |s.slots| && !s.slots[i].task.Done?
    requires 0 < |s.workers| == s.forwarded
    ensures !step.Register? && Enabled(job, s, step) && Clean(s, step)
    ensures Remaining(job, Apply(job, s, step)) < Remaining(job, s)
  {
    hide Held, Distances;
    if s.slots[i].task.Calling? {
      step := CallMoves(job, s, i);
    } else {
      var w := s.workers[0];
      assert w in s.workers[..s.forwarded];
      assert s.sending[w] + Held(s.slots, w, false) == 1;
      if s.sending[w] > 0 {
        step := Receive(i, w);
        DistancesPut(s.slots, i, SlotAfter(s.slots[i], step));
      } else {
        var j := Holder(s.slots, w);
        step := CallMoves(job, s, j);
      }
    }
  }

  lemma LaunchMoves(job: Job, s: State)
    requires !s.panicked && |s.slots| < job.Tasks() && |s.slots| < |job.mapFiles|
    ensures Enabled(job, s, Launch) && Remaining(job, Apply(job, s, Launch)) < Remaining(job, s)
  {
    assert (s.slots + [Slot(Waiting, 0, 0, 0)])[..|s.slots|] == s.slots;
  }

  /** Somebody can move; with enough input files, by a step that leaves less to do. */
  lemma SomeoneMoves(job: Job, s: State) returns (step: Step)
    requires Inv(job, s) && |s.workers| > 0 && !s.panicked && !Returned(job, s)
    ensures !step.Register? && Enabled(job, s, step) && Clean(s, step)
    ensures job.Tasks() <= |job.mapFiles| ==> Remaining(job, Apply(job, s, step)) < Remaining(job, s)
  {
    hide Held, Distances;
    if s.forwarded < |s.workers| {
      step := Forward;
    } else if |s.slots| < job.Tasks() {
      step := Launch;
      if |s.slots| < |job.mapFiles| {
        LaunchMoves(job, s);
      }
    } else {
      var i :| 0 <= i < |s.slots| && !s.slots[i].task.Done?;
      step := TaskMoves(job, s, i);
    }
  }

  lemma {:induction false} Onward(job: Job, s: State) returns (steps: seq<Step>, end: State)
    requires Inv(job, s) && |s.workers| > 0 && job.Tasks() <= |job.mapFiles|
    ensures Path(job, s, steps, end) && Returned(job, end)
    decreases Remaining(job, s)
  {
    hide Held, Distances, Run;
    RemainingBound(job, s);
    if Returned(job, s) {
      steps, end := [], s;
      RunSelf(job, NO_FAULTS, s);
    } else {
      var step := SomeoneMoves(job, s);
      InvKeeps(job, s, step);
      var rest;
      rest, end := Onward(job, Apply(job, s, step));
      steps := [step] + rest;
      RunFirst(job, NO_FAULTS, s, step, rest, end);
    }
  }

  lemma RemainingBound(job: Job, s: State)
    requires Inv(job, s)
    ensures Remaining(job, s) >= 0
  {
    hide Held, Distances;
  }

  /** Until schedule returns or panics, and once a worker has registered, somebody can always move. */
  lemma NeverStuck(job: Job, workers: seq<string>, steps: seq<Step>, s: State) returns (step: Step)
    requires Distinct(workers) && Path(job, Init(workers), steps, s)
    requires |s.workers| > 0 && !s.panicked && !Returned(job, s)
    ensures !step.Register? && Enabled(job, s, step) && Clean(s, step)
  {
    hide Path, Inv, Remaining;
    InitOk(job, workers);
    PathKeeps(job, Init(workers), steps, s);
    step := SomeoneMoves(job, s);
  }

  /** From every reachable state with a worker, and with enough input files, some clean continuation returns. */
  lemma CanReturn(job: Job, workers: seq<string>, steps: seq<Step>, s: State) returns (more: seq<Step>, end: State)
    requires Distinct(workers) && Path(job, Init(workers), steps, s) && |s.workers| > 0 && job.Tasks() <= |job.mapFiles|
    ensures Path(job, s, more, end) && Returned(job, end)
  {
    hide Path, Inv;
    InitOk(job, workers);
    PathKeeps(job, Init(workers), steps, s);
    more, end := Onward(job, s);
  }

  lemma {:induction false} Holder(slots: seq<Slot>, w: string) returns (i: nat)
    requires Held(slots, w, false) > 0
    ensures i < |slots| && Counts(slots[i].task, w, false)
  {
    var n := |slots| - 1;
    if Counts(slots[n].task, w, false) {
      i := n;
    } else {
      i := Holder(slots[..n], w);
    }
  }

  // ----- where the guarantees end -----

  /** The launching loop reads mapFiles in both phases: a run can panic exactly when the phase has more
      tasks than there are input files, and then schedule never returns. */
  lemma PanicsExactly(job: Job, workers: seq<string>)
    requires Distinct(workers)
    ensures (exists steps, s :: Path(job, Init(workers), steps, s) && s.panicked) <==> job.Tasks() > |job.mapFiles|
    ensures job.Tasks() > |job.mapFiles| ==>
      forall steps, s :: Path(job, Init(workers), steps, s) ==> !Returned(job, s)
    ensures job.Tasks() > |job.mapFiles| <==> job.phase.ReducePhase? && job.nReduce > |job.mapFiles|
  {
    hide Path;
    InitOk(job, workers);
    forall steps, s | Path(job, Init(workers), steps, s) ensures Inv(job, s) {
      PathKeeps(job, Init(workers), steps, s);
    }
    if job.Tasks() > |job.mapFiles| {
      var steps, s := LaunchAll(job, Init(workers));
      assert Path(job, Init(workers), steps, s) && s.panicked;
    }
  }

  lemma {:induction false} LaunchAll(job: Job, s: State) returns (steps: seq<Step>, end: State)
    requires |s.slots| <= |job.mapFiles| < job.Tasks() && !s.panicked
    ensures Path(job, s, steps, end) && end.panicked
    decreases |job.mapFiles| - |s.slots|
  {
    var next := Apply(job, s, Launch);
    if next.panicked {
      steps, end := [Launch], next;
      assert steps[1..] == [];
    } else {
      var rest;
      rest, end := LaunchAll(job, next);
      steps := [Launch] + rest;
      assert steps[1..] == rest;
    }
  }

  lemma RunSelf(job: Job, faults: Faults, s: State)
    ensures Run(job, faults, s, [], s)
  {}

  lemma RunFirst(job: Job, faults: Faults, s: State, step: Step, rest: seq<Step>, end: State)
    requires Enabled(job, s, step) && Permitted(faults, s, step) && Run(job, faults, Apply(job, s, step), rest, end)
    ensures Run(job, faults, s, [step] + rest, end)
  {
    assert ([step] + rest)[1..] == rest;
  }

  /** Two tasks run on one worker. */
  ghost predicate TwoOn(s: State, w: string) {
    s.fatal && s.concurrent[w] >= 2
  }

  /** From every reachable state in which a call can fail while the worker still runs the task, that failure and
      steps without any fault lead on to two tasks at once: the same goroutine may take the same worker again. */
  lemma CutBreaks(job: Job, workers: seq<string>, steps: seq<Step>, s: State, i: nat) returns (rest: seq<Step>, end: State)
    requires Distinct(workers) && Path(job, Init(workers), steps, s) && Enabled(job, s, Cut(i))
    ensures Path(job, Apply(job, s, Cut(i)), rest, end) && TwoOn(end, s.slots[i].task.worker)
  {
    hide Run, Held;
    InitOk(job, workers);
    PathKeeps(job, Init(workers), steps, s);
    var w := s.slots[i].task.worker;
    HeldAtLeast(s.slots, i, w, true);
    assert s.concurrent[w] == Held(s.slots, w, true);
    rest, end := TakeAndBegin(job, Apply(job, s, Cut(i)), i, w);
  }

  /** A call that never reaches its worker leaves everything as it was, so it can be repeated any number of times. */
  lemma UnreachedCall(job: Job, s: State, i: nat, w: string)
    requires !s.panicked && i < |s.slots| && s.slots[i].task.Waiting? && s.sending[w] > 0
    ensures Path(job, s, [Receive(i, w), Return(i, false)], s)
  {
    var one := Apply(job, s, Receive(i, w));
    var two := Apply(job, one, Return(i, false));
    assert one.sending + multiset{w} == s.sending;
    assert two.slots == s.slots;
    assert two == s;
    assert [Receive(i, w), Return(i, false)][1..] == [Return(i, false)];
    assert [Return(i, false)][1..] == [];
    assert Run(job, NO_FAULTS, two, [], s);
    assert Run(job, NO_FAULTS, one, [Return(i, false)], s);
  }

  /** A waiting task takes a worker that is at the channel and calls it. */
  lemma TakeAndBegin(job: Job, s: State, i: nat, w: string) returns (rest: seq<Step>, end: State)
    requires !s.panicked && i < |s.slots| && s.slots[i].task.Waiting? && s.sending[w] > 0
    ensures Path(job, s, rest, end) && end.concurrent[w] == s.concurrent[w] + 1 && (s.concurrent[w] > 0 ==> end.fatal)
    ensures |end.slots| == |s.slots| && end.slots == s.slots[i := end.slots[i]] && end.slots[i].task == Calling(w, Running)
    ensures end.sending == s.sending - multiset{w} && !end.panicked && end.workers == s.workers
  {
    hide Run;
    var one := Apply(job, s, Receive(i, w));
    end := Apply(job, one, Begin(i));
    RunSelf(job, NO_FAULTS, end);
    RunFirst(job, NO_FAULTS, one, Begin(i), [], end);
    rest := [Receive(i, w)] + ([Begin(i)] + []);
    RunFirst(job, NO_FAULTS, s, Receive(i, w), [Begin(i)] + [], end);
  }

  lemma {:induction false} RunThen(job: Job, faults: Faults, s: State, a: seq<Step>, mid: State, b: seq<Step>, end: State)
    requires Run(job, faults, s, a, mid) && Run(job, faults, mid, b, end)
    ensures Run(job, faults, s, a + b, end)
    decreases |a|
  {
    hide Enabled, Apply, Permitted;
    if a == [] {
      assert a + b == b;
    } else {
      RunThen(job, faults, Apply(job, s, a[0]), a[1..], mid, b, end);
      assert (a + b)[1..] == a[1..] + b;
    }
  }

  /** More faults permit more runs. */
  lemma {:induction false} RunWith(job: Job, faults: Faults, more: Faults, s: State, steps: seq<Step>, end: State)
    requires Run(job, faults, s, steps, end) && (faults.cuts ==> more.cuts) && (faults.twice ==> more.twice)
    ensures Run(job, more, s, steps, end)
    decreases |steps|
  {
    hide Enabled, Apply;
    if steps != [] {
      RunWith(job, faults, more, Apply(job, s, steps[0]), steps[1..], end);
    }
  }

  /** A name that is at the channel twice while two tasks wait leads on to two tasks at once without any fault. */
  lemma TwoTokensBreak(job: Job, s: State, i: nat, j: nat, w: string) returns (steps: seq<Step>, end: State)
    requires !s.panicked && i < |s.slots| && j < |s.slots| && i != j && s.sending[w] >= 2
    requires s.slots[i].task.Waiting? && s.slots[j].task.Waiting?
    ensures Path(job, s, steps, end) && TwoOn(end, w)
    ensures |end.slots| == |s.slots| && end.slots == s.slots[i := end.slots[i]][j := end.slots[j]]
    ensures end.slots[i].task == end.slots[j].task == Calling(w, Running)
  {
    hide Run;
    var a, one := TakeAndBegin(job, s, i, w);
    var b;
    b, end := TakeAndBegin(job, one, j, w);
    steps := a + b;
    RunThen(job, NO_FAULTS, s, a, one, b, end);
  }

  /** A worker that is registered twice and tasks that are launched: the start of the faulty runs. */
  lemma LaunchedWith(job: Job, workers: seq<string>, tasks: nat) returns (steps: seq<Step>, end: State)
    requires 0 < tasks <= 2 && tasks <= job.Tasks() && tasks <= |job.mapFiles| && 0 < |workers| <= 2
    ensures Path(job, Init(workers), steps, end)
    ensures end == State(workers, |workers|, multiset(workers), seq(tasks, _ => Slot(Waiting, 0, 0, 0)), multiset{}, false, false)
  {
    hide Run;
    var a, one := ForwardAll(job, workers);
    var b;
    b, end := LaunchSome(job, one, tasks);
    steps := a + b;
    RunThen(job, NO_FAULTS, Init(workers), a, one, b, end);
  }

  lemma ForwardAll(job: Job, workers: seq<string>) returns (steps: seq<Step>, end: State)
    requires 0 < |workers| <= 2
    ensures Path(job, Init(workers), steps, end)
    ensures end == State(workers, |workers|, multiset(workers), [], multiset{}, false, false)
  {
    hide Run;
    var one := Apply(job, Init(workers), Forward);
    if |workers| == 1 {
      end := one;
      RunSelf(job, NO_FAULTS, end);
      steps := [Forward] + [];
      assert workers == [workers[0]];
    } else {
      end := Apply(job, one, Forward);
      RunSelf(job, NO_FAULTS, end);
      RunFirst(job, NO_FAULTS, one, Forward, [], end);
      steps := [Forward] + ([Forward] + []);
      assert workers == [workers[0], workers[1]];
    }
    RunFirst(job, NO_FAULTS, Init(workers), Forward, steps[1..], end);
    assert steps == [Forward] + steps[1..];
  }

  lemma LaunchSome(job: Job, s: State, tasks: nat) returns (steps: seq<Step>, end: State)
    requires s.slots == [] && !s.panicked && 0 < tasks <= 2 && tasks <= job.Tasks() && tasks <= |job.mapFiles|
    ensures Path(job, s, steps, end) && end == s.(slots := seq(tasks, _ => Slot(Waiting, 0, 0, 0)))
  {
    hide Run;
    var one := Apply(job, s, Launch);
    end := if tasks == 1 then one else Apply(job, one, Launch);
    RunSelf(job, NO_FAULTS, end);
    steps := if tasks == 1 then [Launch] + [] else [Launch] + ([Launch] + []);
    if tasks == 2 {
      RunFirst(job, NO_FAULTS, one, Launch, [], end);
    }
    RunFirst(job, NO_FAULTS, s, Launch, steps[1..], end);
    assert steps == [Launch] + steps[1..];
  }

  /** In every job with two tasks, a worker that registers twice can be given two tasks at once by steps without
      any other fault. */
  lemma DoubleRegistration(job: Job, w: string) returns (steps: seq<Step>, end: State)
    requires job.Tasks() >= 2 && |job.mapFiles| >= 2
    ensures Path(job, Init([w, w]), steps, end) && TwoOn(end, w)
    ensures |end.slots| == 2 && end.slots[0].task == end.slots[1].task == Calling(w, Running)
    ensures Run(job, Faults(false, true), Init([]), [Register(w)] + ([Register(w)] + steps), end)
  {
    hide Run;
    var a, s := LaunchedWith(job, [w, w], 2);
    var b;
    b, end := TwoTokensBreak(job, s, 0, 1, w);
    steps := a + b;
    RunThen(job, NO_FAULTS, Init([w, w]), a, s, b, end);
    RunWith(job, NO_FAULTS, Faults(false, true), Init([w, w]), steps, end);
    var one := Apply(job, Init([]), Register(w));
    assert Apply(job, one, Register(w)) == Init([w, w]);
    RunFirst(job, Faults(false, true), one, Register(w), steps, end);
    RunFirst(job, Faults(false, true), Init([]), Register(w), [Register(w)] + steps, end);
  }

  /** In every job with a task, one call that fails while the worker runs it leads to two tasks at once. */
  lemma CutRun(job: Job, w: string) returns (steps: seq<Step>, end: State)
    requires job.Tasks() >= 1 && |job.mapFiles| >= 1
    ensures Run(job, Faults(true, false), Init([]), steps, end) && end.fatal
  {
    hide Run;
    var faults := Faults(true, false);
    var a, s := LaunchedWith(job, [w], 1);
    var b, running := TakeAndBegin(job, s, 0, w);
    var cut := Apply(job, running, Cut(0));
    var c;
    c, end := TakeAndBegin(job, cut, 0, w);
    RunWith(job, NO_FAULTS, faults, cut, c, end);
    RunFirst(job, faults, running, Cut(0), c, end);
    RunWith(job, NO_FAULTS, faults, s, b, running);
    RunThen(job, faults, s, b, running, [Cut(0)] + c, end);
    RunWith(job, NO_FAULTS, faults, Init([w]), a, s);
    RunThen(job, faults, Init([w]), a, s, b + ([Cut(0)] + c), end);
    assert Apply(job, Init([]), Register(w)) == Init([w]);
    steps := [Register(w)] + (a + (b + ([Cut(0)] + c)));
    RunFirst(job, faults, Init([]), Register(w), a + (b + ([Cut(0)] + c)), end);
  }

  // ----- exactly which faults matter -----

  /** At most one task, and no call cut off: the counters match what runs. */
  ghost predicate OneTask(s: State) {
    |s.slots| <= 1 && CountersOk(s) && !s.fatal
  }

  lemma OneTaskKeeps(job: Job, s: State, step: Step)
    requires OneTask(s) && Enabled(job, s, step) && !step.Cut? && (job.Tasks() <= 1 || |job.mapFiles| <= 1)
    ensures OneTask(Apply(job, s, step))
  {
    hide Held;
    var t := Apply(job, s, step);
    forall w ensures t.concurrent[w] == Held(t.slots, w, true) {
      assert s.concurrent[w] == Held(s.slots, w, true);
      if MovesTask(step) {
        CounterMoves(job, s, step, w);
      } else {
        HeldLaunch(s.slots, Slot(Waiting, 0, 0, 0), w, true);
      }
    }
    if step.Begin? {
      OnlySent(s.slots, s.slots[0].task.worker);
    }
  }

  lemma OnlySent(slots: seq<Slot>, w: string)
    ensures |slots| == 1 && slots[0].task.Calling? && slots[0].task.stage.Sent? ==> Held(slots, w, true) == 0
  {
    if |slots| == 1 {
      assert Held(slots[..0], w, true) == 0;
    }
  }

  lemma {:induction false} OneTaskRun(job: Job, faults: Faults, s: State, steps: seq<Step>, end: State)
    requires OneTask(s) && Run(job, faults, s, steps, end) && !faults.cuts && (job.Tasks() <= 1 || |job.mapFiles| <= 1)
    ensures OneTask(end)
    decreases |steps|
  {
    hide OneTask, Apply, Enabled;
    if steps != [] {
      OneTaskKeeps(job, s, steps[0]);
      OneTaskRun(job, faults, Apply(job, s, steps[0]), steps[1..], end);
    }
  }

  lemma {:induction false} NoTaskRun(job: Job, faults: Faults, s: State, steps: seq<Step>, end: State)
    requires s.slots == [] && !s.fatal && Run(job, faults, s, steps, end) && (job.Tasks() == 0 || job.mapFiles == [])
    ensures end.slots == [] && !end.fatal
    decreases |steps|
  {
    if steps != [] {
      NoTaskRun(job, faults, Apply(job, s, steps[0]), steps[1..], end);
    }
  }

  /** How many tasks can be launched. */
  function Launchable(job: Job): nat {
    if job.Tasks() < |job.mapFiles| then job.Tasks() else |job.mapFiles|
  }

  /** No run sees two tasks at once on a worker if and only if calls are never cut off or no task can be
      launched, and no worker registers twice or at most one task can be launched. */
  lemma SafeExactly(job: Job, faults: Faults)
    ensures (forall steps, s :: Run(job, faults, Init([]), steps, s) ==> !s.fatal) <==>
      !(faults.cuts && Launchable(job) >= 1) && !(faults.twice && Launchable(job) >= 2)
  {
    hide Run;
    if faults.cuts && Launchable(job) >= 1 {
      var steps, end := CutRun(job, "w");
      RunWith(job, Faults(true, false), faults, Init([]), steps, end);
      assert Run(job, faults, Init([]), steps, end) && end.fatal;
    } else if faults.twice && Launchable(job) >= 2 {
      var steps, end := DoubleRegistration(job, "w");
      RunWith(job, Faults(false, true), faults, Init([]), [Register("w")] + ([Register("w")] + steps), end);
    } else {
      forall steps, s | Run(job, faults, Init([]), steps, s) ensures !s.fatal {
        SafeRun(job, faults, steps, s);
      }
    }
  }

  lemma SafeRun(job: Job, faults: Faults, steps: seq<Step>, s: State)
    requires !(faults.cuts && Launchable(job) >= 1) && !(faults.twice && Launchable(job) >= 2)
    requires Run(job, faults, Init([]), steps, s)
    ensures !s.fatal
  {
    hide Run;
    if Launchable(job) == 0 {
      NoTaskRun(job, faults, Init([]), steps, s);
    } else if Launchable(job) == 1 {
      assert OneTask(Init([]));
      OneTaskRun(job, faults, Init([]), steps, s);
    } else {
      assert faults == NO_FAULTS;
      ScheduleSafe(job, [], steps, s);
    }
  }
}
