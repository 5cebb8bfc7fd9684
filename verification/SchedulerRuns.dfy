/** Runs of the scheduler of src/process/mod.rs that reach what it does not keep. */
module SchedulerRuns {
  import opened Basics
  import opened Scheduler

  /** CPU `c` is in no context switch and has handed nothing over. */
  ghost predicate Quiet(m: Machine, n: nat, c: nat) {
    && |m.queues| == |m.current| == |m.leaving| == |m.handoff| == |m.plans| == n
    && c < n && m.plans[c].None? && m.leaving[c].None? && m.handoff[c].None?
  }

  lemma NotOwned(m: Machine, g: View, cpus: nat, a: nat)
    requires Inv(m, g, cpus, None) && forall i | 0 <= i < |m.tasks| :: m.tasks[i].stack != a
    ensures a !in g.owner
  {
  }

  /** A machine whose first task, which is pinned, waits on CPU 0. */
  method Boot(n: nat, init: nat) returns (k: Kernel)
    requires n > 1 && init != 0
    ensures fresh(k) && k.Valid() && k.cpus == n && k.m.nextId == 2 && |k.m.tasks| == 2 && 0 in k.m.retired
    ensures k.m.tasks[0].status.Zombie? && k.m.tasks[0].stack == 0 && k.m.tasks[1].status.Ready?
    ensures k.m.tasks[1].stack == init
    ensures (forall c | 0 <= c < n :: Quiet(k.m, n, c) && k.m.current[c].None?) && |k.m.queues[0]| == 1
    ensures forall c | 1 <= c < n :: k.m.queues[c] == []
  {
    k := new Kernel(n);
    Sizes(k.m, k.g, n, None);
    NotOwned(k.m, k.g, n, init);
    assert |k.m.retired| == RETIRED_SLOTS && k.m.retired[0] == 0;
    hide Inv, Settled;
    var _ := k.AddTask(init, 2);
  }

  /** A new task waits on CPU 1, which idles. */
  method Place(k: Kernel, n: nat, stack: nat)
    requires k.Valid() && k.cpus == n > 1 && stack != 0 && k.m.nextId > 1
    requires (forall i | 0 <= i < |k.m.tasks| :: k.m.tasks[i].stack != stack)
    requires Quiet(k.m, n, 1) && k.m.current[1].None? && k.m.queues[1] == []
    modifies k
    ensures k.Valid() && |k.m.tasks| == |old(k.m).tasks| + 1
    ensures k.m == old(k.m).(tasks := k.m.tasks, queues := old(k.m).queues[1 := [|old(k.m).tasks|]],
                       nextId := old(k.m).nextId + 1)
    ensures forall i | 0 <= i < |old(k.m).tasks| :: k.m.tasks[i] == old(k.m).tasks[i]
    ensures var t := k.m.tasks[|old(k.m).tasks|];
            t.pinned.None? && t.stack == stack && t.affinity == 1 && t.status.Ready?
  {
    NotOwned(k.m, k.g, n, stack);
    hide Inv;
    var _ := k.AddTask(stack, 2);
    assert k.m.tasks[|old(k.m).tasks|].affinity == 1;
    assert [] + [|old(k.m).tasks|] == [|old(k.m).tasks|];
    assert old(k.m).tasks == k.m.tasks[..|old(k.m).tasks|];
  }

  /** The three publications of a context switch away from the idle loop or a blocked task. */
  method Publications(k: Kernel, c: nat)
    requires k.Valid() && c < k.cpus == |k.m.plans| == |k.m.leaving| && k.m.leaving[c].None?
    requires k.m.plans[c].Some? && k.m.plans[c].value.phase.Saving?
    modifies k
    ensures k.Valid() && k.m == old(k.m).(plans := old(k.m).plans[c := None], idle := k.m.idle, retired := k.m.retired)
    ensures var a := old(k.m).plans[c].value.retire;
            if a != 0 && 0 in old(k.m).retired then a in k.m.retired else k.m.retired == old(k.m).retired
  {
    hide Inv;
    k.SaveStack(c);
    k.PublishOut(c);
    k.PublishRetired(c);
  }

  // ---- Three switches ---------------------------------------------------------------------------

  function Run(t: Task, c: nat): Task { t.(status := Running, affinity := c, wakeTick := 0) }

  lemma StartSwitch(m: Machine, n: nat, c: nat, i: nat, m': Machine)
    requires Quiet(m, n, c) && m.current[c].None? && m.queues[c] == [i] && i < |m.tasks| && Switches(m, c, n, m')
    ensures m' == m.(tasks := m.tasks[i := Run(m.tasks[i], c)], queues := m.queues[c := []],
                     current := m.current[c := Some(i)],
                     plans := m.plans[c := Some(Plan(None, 0, Saving))])
  {
    var m1, next :| Picks(Drained(m, c), c, n, m1, next) && m' == Entered(m1, c, next);
    assert Without([i], 0) == [];
  }

  /** The only entry of an idle CPU's queue runs. */
  method Start(k: Kernel, n: nat, c: nat, i: nat)
    requires k.Valid() && k.cpus == n && 0 < c && Quiet(k.m, n, c) && k.m.current[c].None? && k.m.queues[c] == [i]
    requires i < |k.m.tasks|
    modifies k
    ensures k.Valid()
    ensures k.m == old(k.m).(tasks := old(k.m).tasks[i := Run(old(k.m).tasks[i], c)],
                       queues := old(k.m).queues[c := []],
                                          current := old(k.m).current[c := Some(i)], idle := k.m.idle)
  {
    hide Inv, Switches;
    k.SwitchTask(c, 0, n);
    StartSwitch(old(k.m), n, c, i, k.m);
    Publications(k, c);
    assert k.m.plans == old(k.m).plans;
  }

  lemma StopSwitch(m: Machine, n: nat, c: nat, i: nat, m': Machine)
    requires Quiet(m, n, c) && m.current[c] == Some(i) && i < |m.tasks| && Blocked(m.tasks[i].status)
    requires Switches(m, c, n, m')
    requires m.queues[c] == [] && forall d | 0 <= d < n && d != c :: |m.queues[d]| <= 1
    ensures var a := if m.tasks[i].status.Zombie? then m.tasks[i].stack else 0;
            m' == m.(current := m.current[c := None], plans := m.plans[c := Some(Plan(Some(i), a, Saving))])
  {
    var m1, next :| Picks(Drained(m, c), c, n, m1, next) && m' == Entered(m1, c, next);
    forall v: nat
      ensures !Victim(m, c, n, v)
    {
    }
  }

  /** The CPU's blocked task leaves its stack; there is nothing else to run. */
  method Stop(k: Kernel, n: nat, c: nat, i: nat)
    requires k.Valid() && k.cpus == n && 0 < c && Quiet(k.m, n, c) && k.m.current[c] == Some(i) && i < |k.m.tasks|
    requires Blocked(k.m.tasks[i].status) && k.m.queues[c] == []
    requires forall d | 0 <= d < n && d != c :: |k.m.queues[d]| <= 1
    modifies k
    ensures var a := if old(k.m).tasks[i].status.Zombie? then old(k.m).tasks[i].stack else 0;
            && k.Valid()
            && k.m == old(k.m).(current := old(k.m).current[c := None],
                          plans := old(k.m).plans[c := Some(Plan(Some(i), a, Saving))])
  {
    hide Inv, Switches;
    k.SwitchTask(c, 0, n);
    StopSwitch(old(k.m), n, c, i, k.m);
  }

  lemma StealSwitch(m: Machine, n: nat, i: nat, j: nat, m': Machine)
    requires n == 3 && Quiet(m, n, 2) && m.current[2].None? && m.queues[2] == [] && |m.queues[0]| == 1
    requires m.queues[1] == [i, j]
    requires i < |m.tasks| && j < |m.tasks| && m.tasks[j].pinned.None? && Switches(m, 2, n, m')
    ensures m' == m.(tasks := m.tasks[j := Run(m.tasks[j], 2)], queues := m.queues[1 := [i]],
                     current := m.current[2 := Some(j)],
                     plans := m.plans[2 := Some(Plan(None, 0, Saving))])
  {
    var m1, next :| Picks(Drained(m, 2), 2, n, m1, next) && m' == Entered(m1, 2, next);
    assert m.queues[1][1] == j;
    assert Victim(m, 2, n, 1) && Migratable(m, 1, 1);
    assert next.Some?;
    var v: nat, pos: nat :|
      Victim(m, 2, n, v) && Migratable(m, v, pos) && next.value == m.queues[v][pos] && m1 == Taken(m, v, pos, 2);
    assert v == 1 && pos == 1;
    assert Without([i, j], 1) == [i];
  }

  // ---- A stack freed while a CPU is still on it -------------------------------------------------

  /** The task queued on CPU 1 runs there and waits for event `key`; the CPU is on its way off its stack. */
  method Nap(k: Kernel, i: nat, key: nat)
    requires k.Valid() && k.cpus == 3 && Quiet(k.m, 3, 1) && k.m.current[1].None? && k.m.queues[1] == [i]
    requires i < |k.m.tasks|
    requires |k.m.queues[0]| == 1 && k.m.queues[2] == []
    modifies k
    ensures k.Valid() && k.m == old(k.m).(tasks := k.m.tasks, queues := old(k.m).queues[1 := []], idle := k.m.idle,
                                          plans := old(k.m).plans[1 := Some(Plan(Some(i), 0, Saving))])
    ensures k.m.tasks == old(k.m).tasks[i := Run(old(k.m).tasks[i], 1).(status := Waiting, waitingFor := Event(key))]
  {
    hide Inv;
    Start(k, 3, 1, i);
    k.MarkWaiting(1, key, 0);
    Stop(k, 3, 1, i);
    assert k.m.current == old(k.m).current;
  }

  lemma WakesBoth(m: Machine, key: nat)
    requires |m.tasks| == 4 && |m.queues| == |m.current| == 3 && (forall c | 0 <= c < 3 :: m.current[c].None?)
    requires !WaitsFor(m.tasks[0], Event(key)) && !WaitsFor(m.tasks[1], Event(key))
    requires WaitsFor(m.tasks[2], Event(key)) && WaitsFor(m.tasks[3], Event(key))
    requires m.tasks[2].affinity == m.tasks[3].affinity == 1
    ensures forall c | 0 <= c < 3 :: Batch(m.tasks, ToQueue(m, key), c, 4) == if c == 1 then [2, 3] else []
  {
    var who := ToQueue(m, key);
    forall c | 0 <= c < 3
      ensures Batch(m.tasks, who, c, 4) == if c == 1 then [2, 3] else []
    {
      assert Batch(m.tasks, who, c, 1) == [] && Batch(m.tasks, who, c, 2) == [];
      assert Batch(m.tasks, who, c, 3) == if c == 1 then [2] else [];
    }
  }

  /** Tasks 2 and 3 have waited on CPU 1 for the same event and been woken, but CPU 1 is still on its way off task 3. */
  method WokenEarly(init: nat, first: nat, second: nat, key: nat) returns (k: Kernel)
    requires init != 0 && first != 0 && second != 0 && init != first && first != second && init != second
    ensures fresh(k) && k.Valid() && k.cpus == 3 && |k.m.tasks| == 4 && k.m.tasks[3].stack == second
    ensures k.m.tasks[3].pinned.None?
    ensures Quiet(k.m, 3, 2) && (forall c | 0 <= c < 3 :: k.m.current[c].None?) && SavingOn(k.m.plans, 1, 3)
    ensures 0 in k.m.retired
    ensures |k.m.queues[0]| == 1 && k.m.queues[1] == [2, 3] && k.m.queues[2] == []
    ensures forall i | 0 <= i < 3 :: !k.m.tasks[i].status.Waiting?
  {
    hide Inv, Joined, ToQueue;
    k := Boot(3, init);
    assert Quiet(k.m, 3, 1) && Quiet(k.m, 3, 2);
    Place(k, 3, first);
    Nap(k, 2, key);
    Publications(k, 1);
    Place(k, 3, second);
    Nap(k, 3, key);
    ghost var m0 := k.m;
    WakesBoth(m0, key);
    k.WakeEvent(key);
    JoinedBoth(m0, k.m, ToQueue(m0, key));
  }

  lemma JoinedBoth(m0: Machine, m: Machine, who: set<nat>)
    requires |m0.tasks| == 4 && |m0.queues| == 3 && m0.queues[1] == [] && Joined(m0, m, who, 4)
    requires forall c | 0 <= c < 3 :: Batch(m0.tasks, who, c, 4) == if c == 1 then [2, 3] else []
    ensures m.queues == [m0.queues[0], [2, 3], m0.queues[2]]
  {
    assert forall c | 0 <= c < 3 :: m0.queues[c] + [] == m0.queues[c];
    assert [] + [2, 3] == [2, 3];
    assert |m.queues| == 3 && m.queues[0] == m0.queues[0] && m.queues[1] == [2, 3] && m.queues[2] == m0.queues[2];
  }

  /** The reaper can free a stack that a CPU is still on: CPU 2 takes up the task that CPU 1 has yet to leave, the task
      exits there, and CPU 2 acknowledges its stack. */
  method FreedWhileLeft(init: nat, first: nat, second: nat, key: nat) returns (k: Kernel, ghost before: Machine)
    requires init != 0 && first != 0 && second != 0 && init != first && first != second && init != second
    ensures fresh(k) && k.Valid() && k.cpus == 3 && |before.tasks| == |k.m.tasks| == 4
    ensures before.tasks[3].stack == second && Acked(before, 3) && k.m.tasks[3].stack == 0
    ensures SavingOn(k.m.plans, 1, 3) && StackInUse(k.m, 3) && 3 in k.g.early
  {
    hide Inv, Joined, Switches;
    k := WokenEarly(init, first, second, key);
    ghost var m0 := k.m;
    k.SwitchTask(2, 0, 3);
    StealSwitch(m0, 3, 2, 3, k.m);
    Publications(k, 2);
    ExitsThere(k, second);
    before := k.m;
    k.Reap();
    assert SavingFrom(k.m.plans, 3);
  }

  method ExitsThere(k: Kernel, second: nat)
    requires k.Valid() && k.cpus == 3 && |k.m.tasks| == 4 && k.m.tasks[3].stack == second != 0 && Quiet(k.m, 3, 2)
    requires 0 in k.m.retired
    requires k.m.current == [None, None, Some(3)] && |k.m.queues[0]| == 1 && k.m.queues[1] == [2] && k.m.queues[2] == []
    requires SavingOn(k.m.plans, 1, 3) && forall i | 0 <= i < 3 :: !k.m.tasks[i].status.Waiting?
    modifies k
    ensures k.Valid() && |k.m.tasks| == 4 && k.m.tasks[3].stack == second && Acked(k.m, 3) && SavingOn(k.m.plans, 1, 3)
  {
    hide Inv, Joined;
    ghost var m0 := k.m;
    k.Terminate(2, 0);
    NobodyJoined(m0, k.m, WaitingFor(m0.tasks, Exited(m0.tasks[3].id)) - {3});
    Stop(k, 3, 2, 3);
    Publications(k, 2);
  }

  lemma NobodyJoined(m0: Machine, m: Machine, who: set<nat>)
    requires |m0.tasks| == 4 && who == {} && Joined(m0, m, who, 4)
    ensures m.queues == m0.queues
  {
    forall c | 0 <= c < |m.queues|
      ensures m.queues[c] == m0.queues[c]
    {
      BatchNone(m0.tasks, c, 4);
      assert m0.queues[c] + [] == m0.queues[c];
    }
  }

  // ---- A wakeup of a task that is still current -----------------------------------------------------

  /** The task on CPU 1 marks itself sleeping, and CPU 0 enters the scheduler past the deadline before CPU 1 does. The
      run stops there; going on leaves the task both current and queued. */
  method SleeperStillCurrent(init: nat, stack: nat, deadline: nat, now: nat) returns (k: Kernel, ok: bool)
    requires init != 0 && stack != 0 && init != stack && deadline <= now
    ensures fresh(k) && !ok && !exists g :: Inv(k.m, g, 2, None)
  {
    hide Inv, Joined;
    k := Boot(2, init);
    assert Quiet(k.m, 2, 0) && Quiet(k.m, 2, 1);
    Place(k, 2, stack);
    Start(k, 2, 1, 2);
    k.MarkSleeping(1, deadline);
    assert !NoneDue(k.m.current, k.m.tasks, now);
    var n;
    ghost var trace;
    ok, n, trace := k.Run([Switch(0, now, 2)]);
    k.WakeSleepers(now);
  }
}
