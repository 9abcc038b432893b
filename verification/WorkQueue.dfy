/** The queue and rendezvous protocol of main_queue.c: a manager pushes three work items a round, three
    workers take one each, and all four meet at an event-group barrier. Tasks interleave in any order;
    queue operations and the barrier are atomic, and no wait times out. */
module WorkQueue {
  import Lfsr

  const QUEUE_SLOTS := 8
  const ITEMS := 3

  /** Where a worker is in its loop. */
  datatype Worker =
    | Receiving              // at xQueueReceive
    | Delaying(ticks: nat)   // in vTaskDelay, with this many ticks to go
    | Marked                 // its counter is incremented; at xEventGroupSync
    | Waiting                // its event bit is set; blocked at the barrier
    | Released               // the barrier has opened; about to loop

  /** Where the manager is in its loop. */
  datatype Manager =
    | Pushing(pushed: nat)   // this many of the round's items are sent
    | AtBarrier              // its event bit is set; blocked
    | Leaving                // the barrier has opened; about to increment ROUNDS

  /** The whole system. `taken` counts the items each worker has received; the code has no such counter. */
  datatype State = State(
    manager: Manager, workers: seq<Worker>, queue: seq<nat>, bits: set<nat>,
    rounds: nat, counts: seq<nat>, taken: seq<nat>, lfsr: bv16)

  /** One atomic step of one task, or one clock tick. */
  datatype Step =
    | Push
    | ManagerSync
    | ManagerResume
    | Receive(w: nat)
    | Tick
    | Mark(w: nat)
    | WorkerSync(w: nat)
    | WorkerResume(w: nat)

  // ---- the delay generator ----

  /** `random_ticks`: a delay of one to six ticks. */
  function RandomTicks(next: bv16): (t: nat)
    ensures 1 <= t <= 6 && next as nat % 6 == t - 1
  {
    1 + next as nat % 6
  }

  // ---- steps ----

  const MANAGER_BIT := 3
  const ALL_BITS: set<nat> := {0, 1, 2, 3}

  ghost predicate Enabled(s: State, step: Step)
    requires |s.workers| == 3
  {
    match step
    case Push => s.manager.Pushing? && s.manager.pushed < ITEMS && |s.queue| < QUEUE_SLOTS
    case ManagerSync => s.manager.Pushing? && s.manager.pushed >= ITEMS
    case ManagerResume => s.manager.Leaving?
    case Receive(w) => w < 3 && s.workers[w].Receiving? && s.queue != []
    case Tick => exists w :: 0 <= w < 3 && Counting(s.workers[w])
    case Mark(w) => w < 3 && s.workers[w].Delaying? && s.workers[w].ticks == 0
    case WorkerSync(w) => w < 3 && s.workers[w].Marked?
    case WorkerResume(w) => w < 3 && s.workers[w].Released?
  }

  predicate Counting(w: Worker) {
    w.Delaying? && w.ticks > 0
  }

  function TickWorker(w: Worker): Worker {
    if Counting(w) then Delaying(w.ticks - 1) else w
  }

  /** Sets a task's event bit. The last arrival clears the bits and releases everybody. */
  function Arrive(s: State, bit: nat): State
    requires |s.workers| == 3 && bit < 4
  {
    var all := s.bits + {bit};
    if ALL_BITS <= all then
      s.(bits := {}, manager := Leaving, workers := [Released, Released, Released])
    else if bit == MANAGER_BIT then
      s.(bits := all, manager := AtBarrier)
    else
      s.(bits := all, workers := s.workers[bit := Waiting])
  }

  function Apply(s: State, step: Step): State
    requires |s.workers| == |s.counts| == |s.taken| == 3 && Enabled(s, step)
  {
    match step
    case Push =>
      var next := Lfsr.Next(s.lfsr);
      s.(lfsr := next, queue := s.queue + [RandomTicks(next)], manager := Pushing(s.manager.pushed + 1))
    case ManagerSync => Arrive(s, MANAGER_BIT)
    case ManagerResume => s.(rounds := s.rounds + 1, manager := Pushing(0))
    case Receive(w) =>
      s.(queue := s.queue[1..], workers := s.workers[w := Delaying(s.queue[0])], taken := s.taken[w := s.taken[w] + 1])
    case Tick => s.(workers := [TickWorker(s.workers[0]), TickWorker(s.workers[1]), TickWorker(s.workers[2])])
    case Mark(w) => s.(workers := s.workers[w := Marked], counts := s.counts[w := s.counts[w] + 1])
    case WorkerSync(w) => Arrive(s, w)
    case WorkerResume(w) => s.(workers := s.workers[w := Receiving])
  }

  function Init(): State {
    State(Pushing(0), [Receiving, Receiving, Receiving], [], {}, 0, [0, 0, 0], [0, 0, 0], Lfsr.SEED)
  }

  // ---- the invariant ----

  /** Has this worker taken its item of the current round? */
  function Busy(w: Worker): nat {
    if w.Delaying? || w.Marked? || w.Waiting? then 1 else 0
  }

  /** Has it recorded completion in the current round? */
  function Done(w: Worker): nat {
    if w.Marked? || w.Waiting? then 1 else 0
  }

  function Taken(s: State): nat
    requires |s.workers| == 3
  {
    Busy(s.workers[0]) + Busy(s.workers[1]) + Busy(s.workers[2])
  }

  ghost predicate WorkerOk(s: State, w: nat)
    requires |s.workers| == |s.counts| == |s.taken| == 3 && w < 3
  {
    && (s.workers[w].Delaying? ==> s.workers[w].ticks <= 6)
    && (w in s.bits <==> s.workers[w].Waiting?)
    && if s.manager.Leaving? then
         (s.workers[w].Released? || s.workers[w].Receiving?) && s.counts[w] == s.taken[w] == s.rounds + 1
       else
         s.counts[w] == s.rounds + Done(s.workers[w]) && s.taken[w] == s.rounds + Busy(s.workers[w])
  }

  /** The items sent this round. */
  function Sent(m: Manager): nat {
    match m
    case Pushing(i) => i
    case AtBarrier => ITEMS
    case Leaving => 0
  }

  ghost predicate Inv(s: State) {
    && |s.workers| == |s.counts| == |s.taken| == 3
    && WorkerOk(s, 0) && WorkerOk(s, 1) && WorkerOk(s, 2)
    && (MANAGER_BIT in s.bits <==> s.manager.AtBarrier?)
    && s.bits <= ALL_BITS
    && Sent(s.manager) <= ITEMS
    && |s.queue| + Taken(s) == Sent(s.manager)
    && (forall i | 0 <= i < |s.queue| :: 1 <= s.queue[i] <= 6)
    && !(s.manager.AtBarrier? && s.workers[0].Waiting? && s.workers[1].Waiting? && s.workers[2].Waiting?)
  }

  lemma {:induction false} InitInv()
    ensures Inv(Init())
  {
  }

  /** Every step of every task keeps the invariant. */
  lemma {:induction false} StepKeepsInv(s: State, step: Step)
    requires Inv(s) && Enabled(s, step)
    ensures Inv(Apply(s, step))
  {
    hide Inv, Arrive;
    match step
    case Push => PushKeepsInv(s);
    case ManagerSync => SyncReady(s, MANAGER_BIT); ArriveKeepsInv(s, MANAGER_BIT);
    case ManagerResume => ResumeKeepsInv(s);
    case Receive(w) => ReceiveKeepsInv(s, w);
    case Tick => TickKeepsInv(s);
    case Mark(w) => WorkerKeepsInv(s, step, w);
    case WorkerSync(w) => ArriveKeepsInv(s, w);
    case WorkerResume(w) => WorkerKeepsInv(s, step, w);
  }

  lemma {:induction false} SyncReady(s: State, bit: nat)
    requires Inv(s) && Enabled(s, ManagerSync)
    ensures s.manager == Pushing(ITEMS)
  {
  }

  lemma {:induction false} PushKeepsInv(s: State)
    requires Inv(s) && Enabled(s, Push)
    ensures Inv(Apply(s, Push))
  {
    hide RandomTicks;
  }

  lemma {:induction false} ResumeKeepsInv(s: State)
    requires Inv(s) && Enabled(s, ManagerResume)
    ensures Inv(Apply(s, ManagerResume))
  {
  }

  lemma {:induction false} ReceiveKeepsInv(s: State, w: nat)
    requires Inv(s) && Enabled(s, Receive(w))
    ensures Inv(Apply(s, Receive(w)))
  {
    assert w == 0 || w == 1 || w == 2;
    assert forall i | 0 <= i < |s.queue[1..]| :: s.queue[1..][i] == s.queue[i + 1];
  }

  lemma {:induction false} TickKeepsInv(s: State)
    requires Inv(s) && Enabled(s, Tick)
    ensures Inv(Apply(s, Tick))
  {
  }

  lemma {:induction false} WorkerKeepsInv(s: State, step: Step, w: nat)
    requires Inv(s) && Enabled(s, step) && (step == Mark(w) || step == WorkerResume(w))
    ensures Inv(Apply(s, step))
  {
    assert w == 0 || w == 1 || w == 2;
  }

  /** A task arrives at the barrier: either it waits with the others, or it is the last and all go on. */
  lemma {:induction false} ArriveKeepsInv(s: State, bit: nat)
    requires Inv(s) && bit < 4
    requires if bit == MANAGER_BIT then s.manager == Pushing(ITEMS) else s.workers[bit].Marked?
    ensures Inv(Arrive(s, bit))
  {
    if ALL_BITS <= s.bits + {bit} {
      LastArrival(s, bit);
    } else {
      assert bit == 0 || bit == 1 || bit == 2 || bit == 3;
      NotLast(s, bit);
    }
  }

  lemma {:induction false} LastArrival(s: State, bit: nat)
    requires Inv(s) && bit < 4 && ALL_BITS <= s.bits + {bit}
    requires if bit == MANAGER_BIT then s.manager == Pushing(ITEMS) else s.workers[bit].Marked?
    ensures Inv(Arrive(s, bit))
  {
    var all := s.bits + {bit};
    assert 0 in all && 1 in all && 2 in all && 3 in all;
  }

  lemma {:induction false} NotLast(s: State, bit: nat)
    requires Inv(s) && bit < 4 && !(ALL_BITS <= s.bits + {bit})
    requires if bit == MANAGER_BIT then s.manager == Pushing(ITEMS) else s.workers[bit].Marked?
    ensures Inv(Arrive(s, bit))
  {
    var all := s.bits + {bit};
    assert !(0 in all && 1 in all && 2 in all && 3 in all);
    var t := Arrive(s, bit);
    assert bit == 0 || bit == 1 || bit == 2 || bit == 3;
    assert WorkerOk(t, 0) && WorkerOk(t, 1) && WorkerOk(t, 2);
  }

  // ---- safety over whole runs ----

  ghost predicate IsRun(s: State, steps: seq<Step>)
    requires |s.workers| == |s.counts| == |s.taken| == 3
    decreases |steps|
  {
    steps == [] || (Enabled(s, steps[0]) && IsRun(Apply(s, steps[0]), steps[1..]))
  }

  ghost function After(s: State, steps: seq<Step>): State
    requires |s.workers| == |s.counts| == |s.taken| == 3 && IsRun(s, steps)
    decreases |steps|
  {
    if steps == [] then s else After(Apply(s, steps[0]), steps[1..])
  }

  lemma {:induction false} RunKeepsInv(s: State, steps: seq<Step>)
    requires Inv(s) && IsRun(s, steps)
    ensures Inv(After(s, steps))
    decreases |steps|
  {
    hide Enabled, Apply;
    if steps != [] {
      StepKeepsInv(s, steps[0]);
      RunKeepsInv(Apply(s, steps[0]), steps[1..]);
    }
  }

  /** In every interleaving: a worker's counter is at ROUNDS or one ahead, so is the number of items it
      has taken, and all are exactly one ahead when the manager leaves the barrier. */
  lemma {:induction false} Lockstep(steps: seq<Step>, w: nat)
    requires IsRun(Init(), steps) && w < 3
    ensures InStep(After(Init(), steps), w)
  {
    hide IsRun, After, Inv, InStep;
    InitInv();
    RunKeepsInv(Init(), steps);
    InvInStep(After(Init(), steps), w);
  }

  ghost predicate InStep(s: State, w: nat)
    requires w < 3
  {
    && |s.counts| == |s.taken| == 3
    && s.rounds <= s.counts[w] <= s.taken[w] <= s.rounds + 1
    && (s.manager.Leaving? ==> s.counts[w] == s.taken[w] == s.rounds + 1)
    && |s.queue| <= ITEMS
  }

  lemma {:induction false} InvInStep(s: State, w: nat)
    requires Inv(s) && w < 3
    ensures InStep(s, w)
  {
    assert w == 0 || w == 1 || w == 2;
  }

  // ---- progress ----

  /** From every reachable state some task can move, or time can pass. */
  lemma {:induction false} NoDeadlock(s: State) returns (step: Step)
    requires Inv(s)
    ensures Enabled(s, step)
  {
    var w0, w1, w2 := s.workers[0], s.workers[1], s.workers[2];
    if s.manager.Leaving? {
      step := ManagerResume;
    } else if s.manager.Pushing? {
      step := if s.manager.pushed < ITEMS then Push else ManagerSync;
    } else {
      var w := if !w0.Waiting? then 0 else if !w1.Waiting? then 1 else 2;
      match s.workers[w]
      case Receiving => step := Receive(w);
      case Delaying(ticks) => step := if ticks == 0 then Mark(w) else Tick;
      case Marked => step := WorkerSync(w);
      case Released => step := WorkerResume(w);
    }
  }

  /** How far a task is from the end of its round. */
  function WorkerRank(w: Worker): nat {
    match w
    case Waiting => 0
    case Marked => 1
    case Delaying(ticks) => 2 + ticks
    case Receiving => 9
    case Released => 10
  }

  function ManagerRank(m: Manager): nat {
    match m
    case Leaving => 0
    case AtBarrier => 100
    case Pushing(i) => if i <= ITEMS then 101 + (ITEMS - i) else 101
  }

  function Rank(s: State): nat
    requires |s.workers| == 3
  {
    ManagerRank(s.manager) + WorkerRank(s.workers[0]) + WorkerRank(s.workers[1]) + WorkerRank(s.workers[2])
  }

  /** Every step but the one that completes a round brings its completion closer. */
  lemma {:induction false} StepLowersRank(s: State, step: Step)
    requires Inv(s) && Enabled(s, step) && !step.ManagerResume?
    ensures Rank(Apply(s, step)) < Rank(s)
  {
    match step
    case Push =>
    case ManagerSync => ArriveLowersRank(s, MANAGER_BIT);
    case Receive(w) =>
    case Tick =>
    case Mark(w) =>
    case WorkerSync(w) => ArriveLowersRank(s, w);
    case WorkerResume(w) =>
  }

  lemma {:induction false} ArriveLowersRank(s: State, bit: nat)
    requires Inv(s) && bit < 4
    requires if bit == MANAGER_BIT then s.manager == Pushing(ITEMS) else s.workers[bit].Marked?
    ensures Rank(Arrive(s, bit)) < Rank(s)
  {
    var all := s.bits + {bit};
    if ALL_BITS <= all {
      assert 0 in all && 1 in all && 2 in all && 3 in all;
    }
  }

  /** A run in which no round completes is short: whatever the schedule, ROUNDS is incremented within
      134 steps of any reachable state. */
  lemma {:induction false} RoundsKeepComing(s: State, steps: seq<Step>)
    requires Inv(s) && IsRun(s, steps)
    requires forall i | 0 <= i < |steps| :: !steps[i].ManagerResume?
    ensures |steps| <= Rank(s) <= 134
    decreases |steps|
  {
    if steps != [] {
      StepLowersRank(s, steps[0]);
      StepKeepsInv(s, steps[0]);
      RoundsKeepComing(Apply(s, steps[0]), steps[1..]);
    }
  }
}
