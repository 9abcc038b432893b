/** What the steps of a run alone tell about main_queue.c: which items are sent, which item a worker takes, and
    for how many clock ticks it then waits. */
module WorkDelays {
  import opened WorkQueue

  // ---- counting steps ----

  function Pushes(steps: seq<Step>): nat {
    if steps == [] then 0 else Pushes(steps[..|steps| - 1]) + if steps[|steps| - 1].Push? then 1 else 0
  }

  function Receives(steps: seq<Step>): nat {
    if steps == [] then 0 else Receives(steps[..|steps| - 1]) + if steps[|steps| - 1].Receive? then 1 else 0
  }

  function Ticks(steps: seq<Step>): nat {
    if steps == [] then 0 else Ticks(steps[..|steps| - 1]) + if steps[|steps| - 1].Tick? then 1 else 0
  }

  /** The `k`-th delay that is drawn, from 0 on: a die thrown with the register's state after `k + 1` steps. */
  function Item(k: nat): nat {
    1 + Lfsr.Jump(Lfsr.SEED, k + 1) as nat % 6
  }

  /** Step `i` is the receive of worker `w`, and it has not finished since. */
  ghost predicate TookAt(steps: seq<Step>, w: nat, i: nat) {
    && i < |steps| && steps[i] == Receive(w)
    && forall k | i < k < |steps| :: steps[k] != Receive(w) && steps[k] != Mark(w)
  }

  /** Receives are numbered in the order in which they happen, whichever worker they are of. */
  function ItemAt(steps: seq<Step>, i: nat): nat
    requires i < |steps|
  {
    Item(Receives(steps[..i]))
  }

  /** The clock ticks after step `i`. */
  function TicksSince(steps: seq<Step>, i: nat): nat
    requires i < |steps|
  {
    Ticks(steps[i + 1..])
  }

  // ---- runs, from their ends ----

  ghost predicate FromInit(steps: seq<Step>) {
    IsRun(Init(), steps)
  }

  ghost function Reached(steps: seq<Step>): State
    requires FromInit(steps)
  {
    After(Init(), steps)
  }

  lemma {:induction false} ReachedInv(steps: seq<Step>)
    requires FromInit(steps)
    ensures Inv(Reached(steps))
  {
    hide Inv, IsRun, After;
    InitInv();
    RunKeepsInv(Init(), steps);
  }

  lemma {:induction false} LastStep(s: State, steps: seq<Step>)
    requires Inv(s) && IsRun(s, steps) && steps != []
    ensures IsRun(s, steps[..|steps| - 1]) && Inv(After(s, steps[..|steps| - 1]))
    ensures var before, step := After(s, steps[..|steps| - 1]), steps[|steps| - 1];
            Enabled(before, step) && After(s, steps) == Apply(before, step)
    decreases |steps|
  {
    hide Enabled, Apply;
    var n, rest := |steps| - 1, steps[1..];
    StepKeepsInv(s, steps[0]);
    if n == 0 {
      assert steps[..0] == [] && rest == [];
    } else {
      assert steps[..n][1..] == rest[..n - 1] && steps[..n][0] == steps[0];
      LastStep(Apply(s, steps[0]), rest);
    }
  }

  lemma {:induction false} FirstSteps(steps: seq<Step>)
    requires FromInit(steps) && steps != []
    ensures FromInit(steps[..|steps| - 1]) && Inv(Reached(steps[..|steps| - 1]))
    ensures var before, step := Reached(steps[..|steps| - 1]), steps[|steps| - 1];
            Enabled(before, step) && Reached(steps) == Apply(before, step)
  {
    hide Inv, IsRun, After, Enabled, Apply;
    InitInv();
    LastStep(Init(), steps);
  }

  lemma {:induction false} Prefix(steps: seq<Step>, k: nat)
    requires FromInit(steps) && k <= |steps|
    ensures FromInit(steps[..k])
    decreases |steps|
  {
    hide FromInit;
    if k < |steps| {
      FirstSteps(steps);
      assert steps[..|steps| - 1][..k] == steps[..k];
      Prefix(steps[..|steps| - 1], k);
    } else {
      assert steps[..k] == steps;
    }
  }

  // ---- the queue ----

  /** The queue holds the items that are sent and not received, in the order of sending. */
  ghost predicate QueueIs(s: State, sent: nat, received: nat) {
    && s.lfsr == Lfsr.Jump(Lfsr.SEED, sent)
    && received + |s.queue| == sent
    && forall i | 0 <= i < |s.queue| :: s.queue[i] == Item(received + i)
  }

  lemma {:induction false} JumpNext(n: nat)
    ensures Lfsr.Jump(Lfsr.SEED, n + 1) == Lfsr.Next(Lfsr.Jump(Lfsr.SEED, n))
  {
    hide Lfsr.Next;
    Lfsr.JumpAdd(Lfsr.SEED, n, 1);
    var s := Lfsr.Jump(Lfsr.SEED, n);
    assert Lfsr.Jump(s, 1) == Lfsr.Jump(Lfsr.Next(s), 0);
  }

  /** In every run the items go in as drawn and come out in that order. */
  lemma {:induction false} QueueKept(steps: seq<Step>)
    requires FromInit(steps)
    ensures QueueIs(Reached(steps), Pushes(steps), Receives(steps))
    decreases |steps|
  {
    hide FromInit, QueueIs, Apply, Inv, Enabled;
    if steps == [] {
      QueueInit();
    } else {
      FirstSteps(steps);
      var before := steps[..|steps| - 1];
      QueueKept(before);
      QueueStep(Reached(before), steps[|steps| - 1], Pushes(before), Receives(before));
    }
  }

  lemma {:induction false} QueueInit()
    ensures FromInit([]) && QueueIs(Reached([]), 0, 0)
  {
  }

  lemma {:induction false} QueueStep(s: State, step: Step, sent: nat, received: nat)
    requires Inv(s) && Enabled(s, step) && QueueIs(s, sent, received)
    ensures QueueIs(Apply(s, step), sent + (if step.Push? then 1 else 0), received + if step.Receive? then 1 else 0)
  {
    hide Inv, QueueIs;
    Lengths(s);
    match step
    case Push => PushQueue(s, sent, received);
    case Receive(w) => ReceiveQueue(s, w, sent, received);
    case _ => OtherQueue(s, step, sent, received);
  }

  lemma {:induction false} PushQueue(s: State, sent: nat, received: nat)
    requires |s.workers| == |s.counts| == |s.taken| == 3 && Enabled(s, Push) && QueueIs(s, sent, received)
    ensures QueueIs(Apply(s, Push), sent + 1, received)
  {
    hide Lfsr.Next, Lfsr.Jump, RandomTicks;
    JumpNext(sent);
  }

  lemma {:induction false} ReceiveQueue(s: State, w: nat, sent: nat, received: nat)
    requires |s.workers| == |s.counts| == |s.taken| == 3 && Enabled(s, Receive(w)) && QueueIs(s, sent, received)
    ensures QueueIs(Apply(s, Receive(w)), sent, received + 1)
  {
    hide Item;
  }

  lemma {:induction false} OtherQueue(s: State, step: Step, sent: nat, received: nat)
    requires |s.workers| == |s.counts| == |s.taken| == 3 && Enabled(s, step) && QueueIs(s, sent, received)
    requires !step.Push? && !step.Receive?
    ensures QueueIs(Apply(s, step), sent, received)
  {
    hide Item, Lfsr.Jump;
  }

  lemma {:induction false} Lengths(s: State)
    requires Inv(s)
    ensures |s.workers| == |s.counts| == |s.taken| == 3
  {
  }

  /** The first item is 3, the second 5. */
  lemma {:induction false} FirstItems()
    ensures Item(0) == 3 && Item(1) == 5
    ensures Apply(Init(), Push).queue == [3] && Apply(Apply(Init(), Push), Push).queue == [3, 5]
  {
    JumpNext(0);
    JumpNext(1);
    assert Lfsr.Jump(Lfsr.SEED, 1) == 0xE270;
    assert Lfsr.Jump(Lfsr.SEED, 2) == 0x7138;
  }

  // ---- the workers ----

  /** A worker that took an item delays for as many ticks as the item says, less those that have passed. */
  lemma {:induction false} DelayLeft(steps: seq<Step>, w: nat, i: nat)
    requires FromInit(steps) && TookAt(steps, w, i) && w < 3
    ensures |Reached(steps).workers| == 3
    ensures Reached(steps).workers[w] ==
            var item, ticks := ItemAt(steps, i), TicksSince(steps, i);
            Delaying(if ticks < item then item - ticks else 0)
    decreases |steps|
  {
    hide FromInit, Apply, Inv, Enabled, Item;
    FirstSteps(steps);
    var n := |steps| - 1;
    var before, step := steps[..n], steps[n];
    Lengths(Reached(before));
    if i == n {
      QueueKept(before);
      ReceiveDelays(Reached(before), w, Pushes(before), Receives(before));
      assert steps[i + 1..] == [];
    } else {
      assert before[..i] == steps[..i] && steps[i + 1..][..n - i - 1] == before[i + 1..];
      DelayLeft(before, w, i);
      DelayStep(Reached(before), w, step);
    }
  }

  lemma {:induction false} ReceiveDelays(s: State, w: nat, sent: nat, received: nat)
    requires Inv(s) && Enabled(s, Receive(w)) && QueueIs(s, sent, received)
    ensures Apply(s, Receive(w)).workers == s.workers[w := Delaying(Item(received))]
  {
    hide Item;
  }

  lemma {:induction false} DelayStep(s: State, w: nat, step: Step)
    requires Inv(s) && Enabled(s, step) && w < 3 && s.workers[w].Delaying? && step != Mark(w)
    ensures |Apply(s, step).workers| == 3
    ensures Apply(s, step).workers[w] ==
            if step.Tick? && s.workers[w].ticks > 0 then Delaying(s.workers[w].ticks - 1) else s.workers[w]
  {
    assert w == 0 || w == 1 || w == 2;
    assert w !in s.bits;
  }

  /** Whoever delays took an item. */
  lemma {:induction false} DelayingTook(steps: seq<Step>, w: nat) returns (i: nat)
    requires FromInit(steps) && w < 3 && |Reached(steps).workers| == 3 && Reached(steps).workers[w].Delaying?
    ensures TookAt(steps, w, i)
    decreases |steps|
  {
    hide FromInit, Apply, Inv, Enabled;
    if steps == [] {
      NoneDelaying(w);
    } else {
      FirstSteps(steps);
      var n := |steps| - 1;
      var before, step := steps[..n], steps[n];
      Lengths(Reached(before));
      if step == Receive(w) {
        i := n;
      } else {
        WasDelaying(Reached(before), w, step);
        i := DelayingTook(before, w);
      }
    }
  }

  lemma {:induction false} NoneDelaying(w: nat)
    requires w < 3
    ensures FromInit([]) && |Reached([]).workers| == 3 && !Reached([]).workers[w].Delaying?
  {
  }

  lemma {:induction false} WasDelaying(s: State, w: nat, step: Step)
    requires Inv(s) && Enabled(s, step) && w < 3 && step != Receive(w)
    requires |Apply(s, step).workers| == 3 && Apply(s, step).workers[w].Delaying?
    ensures s.workers[w].Delaying? && step != Mark(w)
  {
    assert w == 0 || w == 1 || w == 2;
  }

  /** In every interleaving, a worker that took the k-th item can finish exactly when at least as many ticks have
      passed since as the k-th delay says. */
  lemma {:induction false} MarkExactly(steps: seq<Step>, w: nat, i: nat)
    requires FromInit(steps) && TookAt(steps, w, i) && w < 3
    ensures |Reached(steps).workers| == 3
    ensures Enabled(Reached(steps), Mark(w)) <==> TicksSince(steps, i) >= ItemAt(steps, i)
  {
    hide FromInit, Reached, Item;
    DelayLeft(steps, w, i);
  }

  /** Step `k` is a tick although worker `w` could finish. */
  ghost predicate LateTick(steps: seq<Step>, w: nat, k: nat)
    requires FromInit(steps)
  {
    && k < |steps| && steps[k].Tick? && FromInit(steps[..k])
    && |Reached(steps[..k]).workers| == 3 && Enabled(Reached(steps[..k]), Mark(w))
  }

  /** When it finishes, exactly that many have passed if and only if the clock never ticked while it was ready. */
  lemma {:induction false} ExactDelay(steps: seq<Step>, w: nat, i: nat)
    requires FromInit(steps) && TookAt(steps, w, i) && w < 3
    requires TicksSince(steps, i) >= ItemAt(steps, i)
    ensures TicksSince(steps, i) == ItemAt(steps, i) <==> forall k | i < k :: !LateTick(steps, w, k)
  {
    hide FromInit, Item;
    if TicksSince(steps, i) > ItemAt(steps, i) {
      var k := LastTick(steps, i);
      TickIsLate(steps, w, i, k);
    }
    forall k | i < k && LateTick(steps, w, k)
      ensures TicksSince(steps, i) > ItemAt(steps, i)
    {
      TickIsLate(steps, w, i, k);
      TicksMore(steps, i, k);
    }
  }

  lemma {:induction false} TickIsLate(steps: seq<Step>, w: nat, i: nat, k: nat)
    requires FromInit(steps) && TookAt(steps, w, i) && w < 3 && i < k < |steps| && steps[k].Tick?
    ensures LateTick(steps, w, k) <==> Ticks(steps[i + 1..k]) >= ItemAt(steps, i)
  {
    hide FromInit, Reached, Item, Enabled;
    Prefix(steps, k);
    var first := steps[..k];
    assert first[..i] == steps[..i] && first[i + 1..] == steps[i + 1..k];
    assert TookAt(first, w, i);
    MarkExactly(first, w, i);
  }

  /** The last tick after step `i`. */
  lemma {:induction false} LastTick(steps: seq<Step>, i: nat) returns (k: nat)
    requires i < |steps| && TicksSince(steps, i) > 0
    ensures i < k < |steps| && steps[k].Tick? && Ticks(steps[i + 1..k]) == TicksSince(steps, i) - 1
    decreases |steps|
  {
    var n := |steps| - 1;
    assert i < n;
    assert steps[i + 1..][..n - i - 1] == steps[i + 1..n] == steps[..n][i + 1..];
    if steps[n].Tick? {
      k := n;
    } else {
      k := LastTick(steps[..n], i);
      assert steps[..n][i + 1..k] == steps[i + 1..k];
    }
  }

  lemma {:induction false} TicksMore(steps: seq<Step>, i: nat, k: nat)
    requires i < k < |steps| && steps[k].Tick?
    ensures TicksSince(steps, i) > Ticks(steps[i + 1..k])
    decreases |steps|
  {
    var n := |steps| - 1;
    assert steps[i + 1..][..n - i - 1] == steps[i + 1..n] == steps[..n][i + 1..];
    if k < n {
      TicksMore(steps[..n], i, k);
      assert steps[..n][i + 1..k] == steps[i + 1..k];
    }
  }

  // ---- one run in which a tick is late ----

  /** A run that leads to a state. */
  ghost predicate Leads(steps: seq<Step>, s: State) {
    FromInit(steps) && Reached(steps) == s && Inv(s)
  }

  lemma {:induction false} OneMore(s: State, steps: seq<Step>, now: State, step: Step)
    requires Inv(s) && IsRun(s, steps) && After(s, steps) == now && Inv(now) && Enabled(now, step)
    ensures IsRun(s, steps + [step]) && After(s, steps + [step]) == Apply(now, step) && Inv(Apply(now, step))
    decreases |steps|
  {
    hide Inv, Enabled, Apply;
    Lengths(s);
    StepKeepsInv(now, step);
    var longer := steps + [step];
    if steps == [] {
      assert longer[1..] == [];
    } else {
      assert longer[1..] == steps[1..] + [step];
      StepKeepsInv(s, steps[0]);
      OneMore(Apply(s, steps[0]), steps[1..], now, step);
    }
  }

  lemma {:induction false} Go(steps: seq<Step>, now: State, step: Step, next: State)
    requires Leads(steps, now) && |now.workers| == |now.counts| == |now.taken| == 3
    requires Enabled(now, step) && Apply(now, step) == next
    ensures Leads(steps + [step], next)
  {
    hide Inv, Enabled, Apply, IsRun, After;
    InitInv();
    OneMore(Init(), steps, now, step);
  }

  const TWO_TAKEN := [Push, Push, Receive(0), Receive(1)]

  /** Workers 0 and 1 took the items 3 and 5, and then the clock ticked so often. */
  function Waited(ticks: nat): State {
    State(Pushing(2), [Delaying(if ticks < 3 then 3 - ticks else 0), Delaying(if ticks < 5 then 5 - ticks else 0),
                       Receiving], [], {}, 0, [0, 0, 0], [1, 1, 0], 0x7138)
  }

  lemma {:induction false} TwoTaken()
    ensures Leads(TWO_TAKEN, Waited(0))
  {
    hide Inv, IsRun, After, Leads;
    var idle, none := [Receiving, Receiving, Receiving], [0, 0, 0];
    var s1 := State(Pushing(1), idle, [3], {}, 0, none, none, 0xE270);
    var s2 := State(Pushing(2), idle, [3, 5], {}, 0, none, none, 0x7138);
    var s3 := State(Pushing(2), [Delaying(3), Receiving, Receiving], [5], {}, 0, none, [1, 0, 0], 0x7138);
    Empty();
    assert [] + [Push] == [Push] && [Push] + [Push] == [Push, Push];
    assert [Push, Push] + [Receive(0)] == [Push, Push, Receive(0)];
    assert [Push, Push, Receive(0)] + [Receive(1)] == TWO_TAKEN;
    Go([], Init(), Push, s1);
    Go([Push], s1, Push, s2);
    Go([Push, Push], s2, Receive(0), s3);
    Go([Push, Push, Receive(0)], s3, Receive(1), Waited(0));
  }

  lemma {:induction false} Empty()
    ensures Leads([], Init())
  {
    InitInv();
  }

  lemma {:induction false} TicksPass(n: nat)
    requires n <= 5
    ensures Leads(TWO_TAKEN + seq(n, _ => Tick), Waited(n))
    decreases n
  {
    hide Leads;
    if n == 0 {
      TwoTaken();
      assert TWO_TAKEN + seq(0, _ => Tick) == TWO_TAKEN;
    } else {
      TicksPass(n - 1);
      assert Counting(Waited(n - 1).workers[1]);
      Go(TWO_TAKEN + seq(n - 1, _ => Tick), Waited(n - 1), Tick, Waited(n));
      assert TWO_TAKEN + seq(n - 1, _ => Tick) + [Tick] == TWO_TAKEN + seq(n, _ => Tick);
    }
  }

  /** While worker 1 delays for its five ticks, the clock need not stop for worker 0, whose three are over: worker 0
      may then finish after five. */
  lemma {:induction false} LateMark()
    ensures var steps := TWO_TAKEN + seq(5, _ => Tick);
            FromInit(steps + [Mark(0)]) && TookAt(steps, 0, 2) && ItemAt(steps, 2) == 3 && TicksSince(steps, 2) == 5
  {
    hide FromInit, Apply, Enabled, Item, Ticks;
    var steps := TWO_TAKEN + seq(5, _ => Tick);
    TicksPass(5);
    assert Enabled(Waited(5), Mark(0)) by { ReadyAfterFive(); }
    Go(steps, Waited(5), Mark(0), Apply(Waited(5), Mark(0)));
    assert steps[..2] == [Push, Push] && [Push, Push][..1] == [Push] && [Push][..0] == [];
    FirstItems();
    assert steps[3..] == [Receive(1)] + seq(5, _ => Tick);
    SomeTicks(5);
  }

  lemma {:induction false} ReadyAfterFive()
    ensures Enabled(Waited(5), Mark(0))
  {
  }

  lemma {:induction false} SomeTicks(n: nat)
    ensures Ticks([Receive(1)] + seq(n, _ => Tick)) == n
    decreases n
  {
    var steps := [Receive(1)] + seq(n, _ => Tick);
    if n == 0 {
      assert steps[..0] == [];
    } else {
      assert steps[..n] == [Receive(1)] + seq(n - 1, _ => Tick);
      SomeTicks(n - 1);
    }
  }
}
