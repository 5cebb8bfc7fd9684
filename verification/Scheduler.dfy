/** The SMP scheduler.

    Each method is one section of src/process/mod.rs under SCHEDULER_LOCK, or
    one of the publications context_switch makes later without it, so a run is
    any interleaving of method calls by the CPUs. The ghost `place` says where
    each task is; the invariants tie it to the queues, the published current
    tasks, the switch-out slots and the task's own status.
  */
module Scheduler {
  import opened Basics

  datatype Status = Ready | Claimed | SwitchingOut | Running | Sleeping | Waiting | Zombie

  /** What a Waiting task waits for: a task's exit or an event key. */
  datatype Key = Nobody | Exited(id: nat) | Event(key: nat)

  datatype Task = Task(id: nat, status: Status, affinity: nat, pinned: Option<nat>, wakeTick: nat, waitingFor: Key,
                       stack: nat, exitCode: nat)

  /** Published as current, given up but not yet handed over by context_switch, or handed over. */
  datatype Kind = OnCpu | Leaving | Handoff

  datatype Place = Queue(cpu: nat) | At(kind: Kind, cpu: nat) | Claim | Parked

  type Slots = seq<Option<nat>>

  // ---- Places -----------------------------------------------------------------------------

  predicate Blocked(s: Status) { s.Sleeping? || s.Waiting? || s.Zombie? }

  /** The place a task's status allows, and the CPU a pin allows. */
  predicate Fits(t: Task, p: Place, cpus: nat) {
    && t.affinity < cpus && (t.pinned.Some? ==> t.affinity == t.pinned.value)
    && match p
       case Queue(c) => t.status.Ready? && c < cpus && (t.pinned.Some? ==> c == t.pinned.value)
       case At(OnCpu, c) =>
         (t.status.Running? || Blocked(t.status)) && c < cpus && (t.pinned.Some? ==> c == t.pinned.value)
       case At(_, c) => t.status.SwitchingOut? && c < cpus && (t.pinned.Some? ==> c == t.pinned.value)
       case Claim => t.status.Claimed?
       case Parked => Blocked(t.status)
  }

  ghost predicate Placed(tasks: seq<Task>, place: seq<Place>, cpus: nat) {
    |place| == |tasks| && forall i | 0 <= i < |tasks| :: Fits(tasks[i], place[i], cpus)
  }

  predicate Distinct(q: seq<nat>) {
    forall a, b | 0 <= a < b < |q| :: q[a] != q[b]
  }

  ghost predicate QueueOf(q: seq<nat>, place: seq<Place>, c: nat) {
    Distinct(q) && forall k | 0 <= k < |q| :: q[k] < |place| && place[q[k]] == Queue(c)
  }

  /** A queue holds, once each, exactly the tasks placed on it. */
  ghost predicate Queued(queues: seq<seq<nat>>, place: seq<Place>) {
    && (forall c | 0 <= c < |queues| :: QueueOf(queues[c], place, c))
    && (forall i | 0 <= i < |place| && place[i].Queue? :: place[i].cpu < |queues| && i in queues[place[i].cpu])
  }

  /** A per-CPU slot holds exactly the task placed there. */
  ghost predicate Slotted(slots: Slots, place: seq<Place>, k: Kind) {
    && (forall c | 0 <= c < |slots| && slots[c].Some? :: slots[c].value < |place| && place[slots[c].value] == At(k, c))
    && (forall i | 0 <= i < |place| && place[i].At? && place[i].kind == k ::
           place[i].cpu < |slots| && slots[place[i].cpu] == Some(i))
  }

  ghost predicate Claiming(place: seq<Place>, claim: Option<nat>) {
    forall i | 0 <= i < |place| :: place[i].Claim? <==> claim == Some(i)
  }

  lemma PlaceUpdate(tasks: seq<Task>, place: seq<Place>, cpus: nat, i: nat, t: Task, p: Place)
    requires Placed(tasks, place, cpus) && i < |tasks| && Fits(t, p, cpus)
    ensures Placed(tasks[i := t], place[i := p], cpus)
  {
  }

  lemma Push(queues: seq<seq<nat>>, place: seq<Place>, c: nat, i: nat)
    requires Queued(queues, place) && c < |queues| && i < |place| && !place[i].Queue?
    ensures Queued(queues[c := queues[c] + [i]], place[i := Queue(c)])
  {
    var queues', place' := queues[c := queues[c] + [i]], place[i := Queue(c)];
    assert QueueOf(queues[c], place, c);
    forall d | 0 <= d < |queues'|
      ensures QueueOf(queues'[d], place', d)
    {
      assert QueueOf(queues[d], place, d);
    }
    assert queues'[c][|queues[c]|] == i;
    forall j | 0 <= j < |place'| && place'[j].Queue?
      ensures place'[j].cpu < |queues'| && j in queues'[place'[j].cpu]
    {
    }
  }

  /** A queue without its entry at `pos`. */
  function Without(q: seq<nat>, pos: nat): (r: seq<nat>)
    requires pos < |q|
    ensures |r| == |q| - 1 && forall j | 0 <= j < |r| :: r[j] == if j < pos then q[j] else q[j + 1]
    ensures forall x | x in q && x != q[pos] :: x in r
  {
    assert forall k | 0 <= k < |q| && k != pos :: q[k] == (q[..pos] + q[pos + 1..])[if k < pos then k else k - 1];
    q[..pos] + q[pos + 1..]
  }

  lemma RemoveEntry(q: seq<nat>, place: seq<Place>, c: nat, pos: nat, p: Place)
    requires QueueOf(q, place, c) && pos < |q|
    ensures q[pos] < |place| && QueueOf(Without(q, pos), place[q[pos] := p], c)
  {
  }

  lemma Remove(queues: seq<seq<nat>>, place: seq<Place>, c: nat, pos: nat, p: Place)
    requires Queued(queues, place) && c < |queues| && pos < |queues[c]| && !p.Queue?
    ensures queues[c][pos] < |place| && place[queues[c][pos]] == Queue(c)
    ensures Queued(queues[c := Without(queues[c], pos)], place[queues[c][pos] := p])
  {
    RemoveEntry(queues[c], place, c, pos, p);
    var i := queues[c][pos];
    var queues', place' := queues[c := Without(queues[c], pos)], place[i := p];
    forall d | 0 <= d < |queues'|
      ensures QueueOf(queues'[d], place', d)
    {
      assert QueueOf(queues[d], place, d) && (d != c ==> i !in queues[d]);
    }
    forall j | 0 <= j < |place'| && place'[j].Queue?
      ensures place'[j].cpu < |queues'| && j in queues'[place'[j].cpu]
    {
      assert j != i && place[j] == place'[j];
    }
  }

  lemma QueuesApart(queues: seq<seq<nat>>, place: seq<Place>, i: nat, p: Place)
    requires Queued(queues, place) && i < |place| && !place[i].Queue? && !p.Queue?
    ensures Queued(queues, place[i := p])
  {
    forall d | 0 <= d < |queues|
      ensures QueueOf(queues[d], place[i := p], d)
    {
      assert QueueOf(queues[d], place, d);
    }
  }

  lemma Fill(slots: Slots, place: seq<Place>, k: Kind, c: nat, i: nat)
    requires Slotted(slots, place, k) && c < |slots| && i < |place| && slots[c].None?
    requires !(place[i].At? && place[i].kind == k)
    ensures Slotted(slots[c := Some(i)], place[i := At(k, c)], k)
  {
  }

  lemma Empty(slots: Slots, place: seq<Place>, k: Kind, c: nat, p: Place)
    requires Slotted(slots, place, k) && c < |slots| && slots[c].Some? && !(p.At? && p.kind == k)
    ensures slots[c].value < |place| && place[slots[c].value] == At(k, c)
    ensures Slotted(slots[c := None], place[slots[c].value := p], k)
  {
  }

  lemma SlotsApart(slots: Slots, place: seq<Place>, k: Kind, i: nat, p: Place)
    requires Slotted(slots, place, k) && i < |place| && !(p.At? && p.kind == k) && !(place[i].At? && place[i].kind == k)
    ensures Slotted(slots, place[i := p], k)
  {
  }

  // ---- Machine state and its invariants -----------------------------------------------------

  const RETIRED_SLOTS: nat := 64

  /** How far a context switch has come: the outgoing stack pointer still to be saved, the switched-out task still
      to be published, the zombie's stack still to be published. */
  datatype Phase = Saving | Publishing | Retiring

  datatype Plan = Plan(from: Option<nat>, retire: nat, phase: Phase)

  datatype Machine = Machine(
    tasks: seq<Task>, queues: seq<seq<nat>>, current: Slots, leaving: Slots, handoff: Slots,
    plans: seq<Option<Plan>>, idle: seq<bool>, retired: seq<nat>, nextId: nat)

  /** `saved` are the tasks whose stored stack pointer is the one to resume from, `owner` maps each allocated
      kernel stack to its task, and `early` are the tasks that some CPU took up while another was still on its
      way off their stack, until they next leave a CPU with nobody else on theirs. */
  datatype View = View(place: seq<Place>, saved: set<nat>, early: set<nat>, owner: map<nat, nat>)

  ghost predicate Places(m: Machine, g: View, cpus: nat, claim: Option<nat>) {
    && Placed(m.tasks, g.place, cpus) && Queued(m.queues, g.place) && Claiming(g.place, claim)
    && Slotted(m.current, g.place, OnCpu) && Slotted(m.leaving, g.place, Leaving)
    && Slotted(m.handoff, g.place, Handoff)
  }

  ghost predicate PlanOk(m: Machine, c: nat)
    requires c < |m.plans| == |m.leaving| == |m.handoff| == |m.current| == |m.idle|
  {
    && (m.leaving[c].Some? ==> m.plans[c].Some? && !m.plans[c].value.phase.Retiring?
                               && m.plans[c].value.from == m.leaving[c] && m.handoff[c].None?)
    && (m.plans[c].Some? && m.plans[c].value.from.Some? ==> m.plans[c].value.from.value < |m.tasks|)
    && (m.current[c].Some? ==>
           m.idle[c] || (m.plans[c].Some? && m.plans[c].value.phase.Saving? && m.plans[c].value.from.None?))
  }

  ghost predicate Plans(m: Machine, cpus: nat) {
    && 0 < cpus == |m.queues| == |m.current| == |m.leaving| == |m.handoff| == |m.plans| == |m.idle|
    && (forall c | 0 <= c < cpus :: PlanOk(m, c))
  }

  /** CPU `c` is on its way off task `i`'s stack but has not yet stored the stack pointer. */
  ghost predicate SavingOn(plans: seq<Option<Plan>>, c: int, i: int) {
    && 0 <= c < |plans| && plans[c].Some? && plans[c].value.phase.Saving? && plans[c].value.from.Some?
    && plans[c].value.from.value == i
  }

  ghost predicate SavingFrom(plans: seq<Option<Plan>>, i: int) {
    exists c :: SavingOn(plans, c, i)
  }

  /** A task that was not taken up early is, in mid-save, on no CPU, and only one CPU saves it; those with a stored
      stack pointer are exactly the others that are not running. */
  ghost predicate Saves(m: Machine, g: View) {
    && (forall c, i | SavingOn(m.plans, c, i) && i !in g.early ::
          0 <= i < |g.place| && (g.place[i] == At(Leaving, c) || g.place[i].Parked? || g.place[i].Queue?))
    && (forall c, d, i | SavingOn(m.plans, c, i) && SavingOn(m.plans, d, i) && i !in g.early :: c == d)
    && (forall i | 0 <= i < |g.place| && i !in g.early ::
           i in g.saved <==> !(g.place[i].At? && g.place[i].kind.OnCpu?) && !SavingFrom(m.plans, i))
  }

  ghost predicate Owned(tasks: seq<Task>, owner: map<nat, nat>) {
    && (forall i | 0 <= i < |tasks| && tasks[i].stack != 0 :: tasks[i].stack in owner && owner[tasks[i].stack] == i)
    && (forall a | a in owner :: a != 0 && owner[a] < |tasks| && tasks[owner[a]].stack == a)
  }

  /** The stack belongs to a zombie that no longer runs. */
  ghost predicate Dead(m: Machine, g: View, a: nat) {
    && a in g.owner && g.owner[a] < |m.tasks| == |g.place| && m.tasks[g.owner[a]].status.Zombie?
    && g.place[g.owner[a]].Parked?
  }

  ghost predicate Acks(m: Machine, g: View) {
    && |m.retired| == RETIRED_SLOTS
    && (forall s | 0 <= s < |m.retired| && m.retired[s] != 0 ::
          && Dead(m, g, m.retired[s])
          && (g.owner[m.retired[s]] !in g.early ==> !SavingFrom(m.plans, g.owner[m.retired[s]])))
    && (forall s, t | 0 <= s < t < |m.retired| && m.retired[s] != 0 :: m.retired[s] != m.retired[t])
  }

  ghost predicate Retires(m: Machine, c: int) { 0 <= c < |m.plans| && m.plans[c].Some? && m.plans[c].value.retire != 0 }

  ghost predicate Retirements(m: Machine, g: View) {
    && (forall c | Retires(m, c) ::
          var p := m.plans[c].value;
          && Dead(m, g, p.retire) && p.from == Some(g.owner[p.retire]) && p.retire !in m.retired
          && (g.owner[p.retire] !in g.early ==> forall d | SavingOn(m.plans, d, g.owner[p.retire]) :: d == c))
    && (forall c, d | Retires(m, c) && Retires(m, d) && m.plans[c].value.retire == m.plans[d].value.retire :: c == d)
  }

  /** Identifiers are handed out in order, and nobody waits for the exit of a task that has exited. */
  ghost predicate Ids(tasks: seq<Task>, nextId: nat) {
    && (forall i | 0 <= i < |tasks| :: tasks[i].id < nextId)
    && (forall i, j | 0 <= i < j < |tasks| :: tasks[i].id != tasks[j].id)
  }

  ghost predicate Orphan(tasks: seq<Task>, i: int, j: int) {
    && 0 <= i < |tasks| && 0 <= j < |tasks| && tasks[i].status.Waiting? && tasks[i].waitingFor == Exited(tasks[j].id)
    && tasks[j].status.Zombie?
  }

  ghost predicate NoOrphans(tasks: seq<Task>) {
    forall i, j :: !Orphan(tasks, i, j)
  }

  ghost predicate Core(m: Machine, g: View, cpus: nat, claim: Option<nat>) {
    && Places(m, g, cpus, claim) && Plans(m, cpus) && Saves(m, g) && Owned(m.tasks, g.owner)
    && Acks(m, g) && Retirements(m, g) && Ids(m.tasks, m.nextId)
  }

  ghost predicate Inv(m: Machine, g: View, cpus: nat, claim: Option<nat>) {
    Core(m, g, cpus, claim) && NoOrphans(m.tasks)
  }

  // ---- Steps -----------------------------------------------------------------------------------

  /** A task update that keeps its identity, its stack and whether it has exited. */
  predicate Same(t: Task, t': Task) {
    t'.id == t.id && t'.stack == t.stack && t'.status.Zombie? == t.status.Zombie? && (t'.status.Waiting? ==> t == t')
  }

  lemma SameKeeps(m: Machine, g: View, i: nat, t: Task, p: Place, queues: seq<seq<nat>>, current: Slots,
                  leaving: Slots, handoff: Slots, saved: set<nat>, early: set<nat>)
    requires i < |m.tasks| == |g.place| && Same(m.tasks[i], t) && g.early <= early
    requires Owned(m.tasks, g.owner) && Acks(m, g) && Retirements(m, g) && Ids(m.tasks, m.nextId)
    requires m.tasks[i].status.Zombie? && g.place[i].Parked? ==> p.Parked?
    ensures var m' := m.(tasks := m.tasks[i := t], queues := queues, current := current, leaving := leaving,
                         handoff := handoff);
            var g' := g.(place := g.place[i := p], saved := saved, early := early);
            Owned(m'.tasks, g'.owner) && Acks(m', g') && Retirements(m', g') && Ids(m'.tasks, m'.nextId)
    ensures NoOrphans(m.tasks) ==> NoOrphans(m.tasks[i := t])
  {
    var m' := m.(tasks := m.tasks[i := t], queues := queues, current := current, leaving := leaving,
                 handoff := handoff);
    var g' := g.(place := g.place[i := p], saved := saved, early := early);
    forall a | Dead(m, g, a)
      ensures Dead(m', g', a)
    {
    }
    SameOrphans(m.tasks, m'.tasks, i);
    forall c | Retires(m', c)
      ensures Dead(m', g', m'.plans[c].value.retire)
    {
      assert Retires(m, c);
    }
  }

  lemma SameOrphans(tasks: seq<Task>, tasks': seq<Task>, i: nat)
    requires i < |tasks| == |tasks'| && tasks' == tasks[i := tasks'[i]] && Same(tasks[i], tasks'[i])
    ensures forall a, b :: Orphan(tasks', a, b) ==> Orphan(tasks, a, b)
  {
  }

  /** A blocked task becomes Ready on its own CPU's queue. */
  function Readied(m: Machine, i: nat, t: Task): Machine
    requires i < |m.tasks| && t.affinity < |m.queues|
  {
    m.(tasks := m.tasks[i := t], queues := m.queues[t.affinity := m.queues[t.affinity] + [i]])
  }

  ghost function ReadiedView(m: Machine, g: View, i: nat, t: Task): View
    requires i < |g.place|
  {
    g.(place := g.place[i := Queue(t.affinity)])
  }

  lemma ReadyKeeps(m: Machine, g: View, cpus: nat, claim: Option<nat>, i: nat, t: Task)
    requires Core(m, g, cpus, claim) && i < |m.tasks| && g.place[i].Parked? && !m.tasks[i].status.Zombie?
    requires t.status.Ready? && t == m.tasks[i].(status := Ready, waitingFor := t.waitingFor, wakeTick := t.wakeTick)
    ensures t.affinity < |m.queues| && Core(Readied(m, i, t), ReadiedView(m, g, i, t), cpus, claim)
    ensures var tasks' := Readied(m, i, t).tasks; forall a, b :: Orphan(tasks', a, b) ==> Orphan(m.tasks, a, b)
  {
    hide Owned, Acks, Retirements, Ids, NoOrphans, SavingFrom;
    assert Fits(m.tasks[i], g.place[i], cpus);
    var m', g' := Readied(m, i, t), ReadiedView(m, g, i, t);
    SameOrphans(m.tasks, m'.tasks, i);
    SameKeeps(m, g, i, t, Queue(t.affinity), m'.queues, m.current, m.leaving, m.handoff, g.saved, g'.early);
    PlaceUpdate(m.tasks, g.place, cpus, i, t, Queue(t.affinity));
    Push(m.queues, g.place, t.affinity, i);
    SlotsApart(m.current, g.place, OnCpu, i, Queue(t.affinity));
    SlotsApart(m.leaving, g.place, Leaving, i, Queue(t.affinity));
    SlotsApart(m.handoff, g.place, Handoff, i, Queue(t.affinity));
    assert Plans(m', cpus) by {
      forall c | 0 <= c < cpus
        ensures PlanOk(m', c)
      {
        assert PlanOk(m, c);
      }
    }
    ReadySaves(m, g, i, t);
  }

  lemma ReadySaves(m: Machine, g: View, i: nat, t: Task)
    requires Saves(m, g) && i < |m.tasks| && i < |g.place| && t.affinity < |m.queues| && g.place[i].Parked?
    ensures Saves(Readied(m, i, t), ReadiedView(m, g, i, t))
  {
  }

  /** finish_switched_out_task's effect on a handed-over task. */
  function Finished(m: Machine, c: nat, i: nat): Machine
    requires i < |m.tasks| && c < |m.queues| == |m.handoff|
  {
    m.(tasks := m.tasks[i := m.tasks[i].(status := Ready, affinity := c)], queues := m.queues[c := m.queues[c] + [i]],
       handoff := m.handoff[c := None])
  }

  lemma FinishKeeps(m: Machine, g: View, cpus: nat, claim: Option<nat>, c: nat)
    requires Inv(m, g, cpus, claim) && c < cpus && m.handoff[c].Some?
    ensures var i := m.handoff[c].value;
            && i < |m.tasks| && m.tasks[i].status.SwitchingOut?
            && Inv(Finished(m, c, i), g.(place := g.place[i := Queue(c)]), cpus, claim)
  {
    hide Owned, Acks, Retirements, Ids, NoOrphans, SavingFrom, Saves;
    var i := m.handoff[c].value;
    Empty(m.handoff, g.place, Handoff, c, Queue(c));
    assert Fits(m.tasks[i], g.place[i], cpus);
    var m', g' := Finished(m, c, i), g.(place := g.place[i := Queue(c)]);
    SameKeeps(m, g, i, m'.tasks[i], Queue(c), m'.queues, m.current, m.leaving, m'.handoff, g.saved, g.early);
    PlaceUpdate(m.tasks, g.place, cpus, i, m'.tasks[i], Queue(c));
    Push(m.queues, g.place, c, i);
    SlotsApart(m.current, g.place, OnCpu, i, Queue(c));
    SlotsApart(m.leaving, g.place, Leaving, i, Queue(c));
    assert Plans(m', cpus) by {
      forall d | 0 <= d < cpus
        ensures PlanOk(m', d)
      {
        assert PlanOk(m, d);
      }
    }
    MoveSaves(m, m', g, i, Queue(c));
  }

  /** Moves that neither start a save nor end a run. */
  lemma MoveSaves(m: Machine, m': Machine, g: View, i: nat, p: Place)
    requires Saves(m, g) && m'.plans == m.plans && i < |g.place|
    requires g.place[i].At? && g.place[i].kind.Handoff? && p.Queue?
    ensures Saves(m', g.(place := g.place[i := p]))
  {
  }

  /** Taking a task up while its stack pointer is still to be stored is taking it up early. */
  ghost function TakenView(m: Machine, g: View, i: nat): View
    requires i < |g.place|
  {
    g.(place := g.place[i := Claim], early := if SavingFrom(m.plans, i) then g.early + {i} else g.early)
  }

  /** Who has been taken up early once `next` has been taken up. */
  ghost function TakenEarly(m: Machine, g: View, next: Option<nat>): set<nat> {
    if next.Some? && SavingFrom(m.plans, next.value) then g.early + {next.value} else g.early
  }

  lemma TakeSaves(m: Machine, m': Machine, g: View, i: nat)
    requires Saves(m, g) && m'.plans == m.plans && i < |g.place| && g.place[i].Queue?
    ensures Saves(m', TakenView(m, g, i))
  {
    var g' := TakenView(m, g, i);
    forall c, j | SavingOn(m.plans, c, j) && j !in g'.early
      ensures 0 <= j < |g.place| && j != i
    {
      assert SavingFrom(m.plans, j);
    }
  }

  /** claim_local_ready_task and steal_and_claim_ready_task: the entry at `pos` of queue `v` is reserved. */
  function Taken(m: Machine, v: nat, pos: nat, affinity: nat): Machine
    requires v < |m.queues| && pos < |m.queues[v]| && m.queues[v][pos] < |m.tasks|
  {
    var i := m.queues[v][pos];
    m.(tasks := m.tasks[i := m.tasks[i].(status := Claimed, affinity := affinity)],
       queues := m.queues[v := Without(m.queues[v], pos)])
  }

  /** Every queue entry is a Ready task that may run there. */
  lemma EntryReady(m: Machine, g: View, cpus: nat, v: nat, pos: nat)
    requires Placed(m.tasks, g.place, cpus) && Queued(m.queues, g.place) && v < |m.queues| && pos < |m.queues[v]|
    ensures var i := m.queues[v][pos];
            i < |m.tasks| && m.tasks[i].status.Ready? && g.place[i] == Queue(v)
            && (m.tasks[i].pinned.Some? ==> m.tasks[i].pinned.value == v == m.tasks[i].affinity)
  {
    assert QueueOf(m.queues[v], g.place, v);
    assert Fits(m.tasks[m.queues[v][pos]], g.place[m.queues[v][pos]], cpus);
  }

  lemma TakeKeeps(m: Machine, g: View, cpus: nat, v: nat, pos: nat, affinity: nat)
    requires Inv(m, g, cpus, None) && v < cpus && pos < |m.queues[v]|
    requires var i := m.queues[v][pos];
             i < |m.tasks| && affinity < cpus && (affinity == m.tasks[i].affinity || m.tasks[i].pinned.None?)
    ensures var i := m.queues[v][pos];
            i < |g.place| && Inv(Taken(m, v, pos, affinity), TakenView(m, g, i), cpus, Some(i))
  {
    hide Owned, Acks, Retirements, Ids, NoOrphans, SavingFrom, Saves;
    var i := m.queues[v][pos];
    EntryReady(m, g, cpus, v, pos);
    var m', g' := Taken(m, v, pos, affinity), TakenView(m, g, i);
    SameKeeps(m, g, i, m'.tasks[i], Claim, m'.queues, m.current, m.leaving, m.handoff, g.saved, g'.early);
    assert Fits(m.tasks[i], g.place[i], cpus);
    PlaceUpdate(m.tasks, g.place, cpus, i, m'.tasks[i], Claim);
    Remove(m.queues, g.place, v, pos, Claim);
    SlotsApart(m.current, g.place, OnCpu, i, Claim);
    SlotsApart(m.leaving, g.place, Leaving, i, Claim);
    SlotsApart(m.handoff, g.place, Handoff, i, Claim);
    assert Plans(m', cpus) by {
      forall d | 0 <= d < cpus
        ensures PlanOk(m', d)
      {
        assert PlanOk(m, d);
      }
    }
    TakeSaves(m, m', g, i);
  }

  /** The CPU gives up its current task: a running one is on its way out, a blocked one is parked, a zombie's stack
      will be retired. From here to the end of context_switch the CPU has a plan. */
  function Vacated(m: Machine, c: nat): Machine
    requires c < |m.plans| == |m.current| == |m.leaving|
    requires m.current[c].Some? ==> m.current[c].value < |m.tasks|
  {
    match m.current[c]
    case None => m.(plans := m.plans[c := Some(Plan(None, 0, Saving))])
    case Some(j) =>
      var t := m.tasks[j];
      m.(current := m.current[c := None],
         tasks := if t.status.Running? then m.tasks[j := t.(status := SwitchingOut)] else m.tasks,
         leaving := if t.status.Running? then m.leaving[c := Some(j)] else m.leaving,
         plans := m.plans[c := Some(Plan(Some(j), if t.status.Zombie? then t.stack else 0, Saving))])
  }

  /** Who has been taken up early once CPU `c` has given up its current task: that one no longer, unless a CPU is still
      on its way off its stack. */
  ghost function LeftEarly(m: Machine, g: View, c: nat): set<nat>
    requires c < |m.current|
  {
    if m.current[c].Some? && !SavingFrom(m.plans, m.current[c].value) then g.early - {m.current[c].value} else g.early
  }

  ghost function VacatedView(m: Machine, g: View, c: nat): View
    requires c < |m.current|
    requires m.current[c].Some? ==> m.current[c].value < |m.tasks| == |g.place|
  {
    match m.current[c]
    case None => g
    case Some(j) => g.(place := g.place[j := if m.tasks[j].status.Running? then At(Leaving, c) else Parked],
                       saved := g.saved - {j}, early := LeftEarly(m, g, c))
  }

  lemma CurrentAt(m: Machine, g: View, cpus: nat, claim: Option<nat>, c: nat)
    requires Places(m, g, cpus, claim) && c < |m.current| && m.current[c].Some?
    ensures var j := m.current[c].value;
            && j < |m.tasks| == |g.place| && g.place[j] == At(OnCpu, c)
            && (m.tasks[j].status.Running? || Blocked(m.tasks[j].status))
            && (m.tasks[j].pinned.Some? ==> m.tasks[j].pinned.value == c)
  {
    var j := m.current[c].value;
    assert Fits(m.tasks[j], g.place[j], cpus);
  }

  lemma VacatePlaces(m: Machine, g: View, cpus: nat, claim: Option<nat>, c: nat)
    requires Places(m, g, cpus, claim) && Plans(m, cpus) && c < cpus && m.plans[c].None? && m.handoff[c].None?
    requires m.current[c].Some?
    ensures m.current[c].value < |m.tasks| == |g.place|
    ensures Places(Vacated(m, c), VacatedView(m, g, c), cpus, claim)
  {
    CurrentAt(m, g, cpus, claim, c);
    var j := m.current[c].value;
    var m', g' := Vacated(m, c), VacatedView(m, g, c);
    var p := g'.place[j];
    PlaceUpdate(m.tasks, g.place, cpus, j, m'.tasks[j], p);
    QueuesApart(m.queues, g.place, j, p);
    Empty(m.current, g.place, OnCpu, c, p);
    SlotsApart(m.handoff, g.place, Handoff, j, p);
    assert PlanOk(m, c);
    if p.Parked? {
      SlotsApart(m.leaving, g.place, Leaving, j, p);
      assert m.tasks[j := m.tasks[j]] == m.tasks;
    } else {
      Fill(m.leaving, g.place, Leaving, c, j);
    }
  }

  lemma VacatePlans(m: Machine, g: View, cpus: nat, claim: Option<nat>, c: nat)
    requires Places(m, g, cpus, claim) && Plans(m, cpus) && c < cpus && m.plans[c].None? && m.handoff[c].None?
    ensures m.current[c].Some? ==> m.current[c].value < |m.tasks|
    ensures Plans(Vacated(m, c), cpus)
  {
    if m.current[c].Some? {
      CurrentAt(m, g, cpus, claim, c);
    }
    var m' := Vacated(m, c);
    forall d | 0 <= d < cpus
      ensures PlanOk(m', d)
    {
      assert PlanOk(m, d);
    }
  }

  lemma VacateSaves(m: Machine, g: View, c: nat)
    requires Saves(m, g) && c < |m.plans| == |m.current| == |m.leaving| && m.plans[c].None?
    requires m.current[c].Some? ==>
              m.current[c].value < |m.tasks| == |g.place| && g.place[m.current[c].value] == At(OnCpu, c)
    ensures Saves(Vacated(m, c), VacatedView(m, g, c))
  {
    var m', g' := Vacated(m, c), VacatedView(m, g, c);
    VacatedSaving(m, c);
    if m.current[c].Some? {
      var j := m.current[c].value;
      if SavingFrom(m.plans, j) {
        var d :| SavingOn(m.plans, d, j);
        assert j in g.early;
      } else {
        assert forall d :: !SavingOn(m.plans, d, j);
      }
    }
  }

  /** Who is being saved after a CPU has given up its current task. */
  lemma VacatedSaving(m: Machine, c: nat)
    requires c < |m.plans| == |m.current| == |m.leaving| && m.plans[c].None?
    requires m.current[c].Some? ==> m.current[c].value < |m.tasks|
    ensures forall d, i ::
              SavingOn(Vacated(m, c).plans, d, i) <==> SavingOn(m.plans, d, i) || (d == c && m.current[c] == Some(i))
    ensures forall i :: SavingFrom(Vacated(m, c).plans, i) <==> SavingFrom(m.plans, i) || m.current[c] == Some(i)
  {
    var m' := Vacated(m, c);
    forall i
      ensures SavingFrom(m'.plans, i) <==> SavingFrom(m.plans, i) || m.current[c] == Some(i)
    {
      if SavingFrom(m.plans, i) {
        var d :| SavingOn(m.plans, d, i);
        assert SavingOn(m'.plans, d, i);
      }
      if m.current[c] == Some(i) {
        assert SavingOn(m'.plans, c, i);
      } else if SavingFrom(m'.plans, i) {
        var d :| SavingOn(m'.plans, d, i);
        assert SavingOn(m.plans, d, i);
      }
    }
  }

  lemma VacateStacks(m: Machine, g: View, cpus: nat, c: nat)
    requires Saves(m, g) && Owned(m.tasks, g.owner) && Acks(m, g) && Retirements(m, g) && Ids(m.tasks, m.nextId)
    requires NoOrphans(m.tasks)
    requires c < cpus == |m.plans| == |m.current| == |m.leaving| && m.plans[c].None? && |m.tasks| == |g.place|
    requires m.current[c].Some? ==> m.current[c].value < |m.tasks| && g.place[m.current[c].value] == At(OnCpu, c)
    ensures var m', g' := Vacated(m, c), VacatedView(m, g, c);
            && Owned(m'.tasks, g'.owner) && Acks(m', g') && Retirements(m', g') && Ids(m'.tasks, m'.nextId)
            && NoOrphans(m'.tasks)
  {
    var m', g' := Vacated(m, c), VacatedView(m, g, c);
    VacatedSaving(m, c);
    forall a | Dead(m, g, a)
      ensures Dead(m', g', a) && m.current[c] != Some(g.owner[a])
    {
    }
    forall a, b
      ensures !Orphan(m'.tasks, a, b)
    {
      assert !Orphan(m.tasks, a, b);
    }
    VacateRetires(m, g, c);
  }

  lemma VacateRetires(m: Machine, g: View, c: nat)
    requires Saves(m, g) && Owned(m.tasks, g.owner) && Acks(m, g) && Retirements(m, g)
    requires c < |m.plans| == |m.current| == |m.leaving| && m.plans[c].None? && |m.tasks| == |g.place|
    requires m.current[c].Some? ==> m.current[c].value < |m.tasks| && g.place[m.current[c].value] == At(OnCpu, c)
    ensures Retirements(Vacated(m, c), VacatedView(m, g, c))
  {
    var m', g' := Vacated(m, c), VacatedView(m, g, c);
    VacatedSaving(m, c);
    forall a | Dead(m, g, a)
      ensures Dead(m', g', a) && m.current[c] != Some(g.owner[a])
    {
    }
    forall d | Retires(m', d) && d != c
      ensures Retires(m, d)
    {
    }
    if Retires(m', c) {
      var j := m.current[c].value;
      var a := m.tasks[j].stack;
      assert Dead(m', g', a) && g.owner[a] == j && !Dead(m, g, a);
      assert j !in g'.early ==> forall d :: !SavingOn(m.plans, d, j);
      assert a !in m.retired;
    }
  }

  lemma VacateKeeps(m: Machine, g: View, cpus: nat, claim: Option<nat>, c: nat)
    requires Inv(m, g, cpus, claim) && c < cpus && m.plans[c].None? && m.handoff[c].None?
    ensures m.current[c].Some? ==> m.current[c].value < |m.tasks| == |g.place|
    ensures Inv(Vacated(m, c), VacatedView(m, g, c), cpus, claim)
  {
    if m.current[c].Some? {
      CurrentAt(m, g, cpus, claim, c);
      VacatePlaces(m, g, cpus, claim, c);
    }
    VacatePlans(m, g, cpus, claim, c);
    VacateSaves(m, g, c);
    VacateStacks(m, g, cpus, c);
  }

  /** The claimed task becomes this CPU's current task. */
  function Occupied(m: Machine, c: nat, i: nat): Machine
    requires c < |m.current| && i < |m.tasks|
  {
    m.(tasks := m.tasks[i := m.tasks[i].(status := Running, affinity := c, wakeTick := 0)],
       current := m.current[c := Some(i)])
  }

  lemma OccupyKeeps(m: Machine, g: View, cpus: nat, c: nat, i: nat)
    requires Inv(m, g, cpus, Some(i)) && i < |m.tasks| && c < cpus && m.current[c].None?
    requires m.tasks[i].pinned.Some? ==> m.tasks[i].pinned.value == c
    requires m.idle[c] || (m.plans[c].Some? && m.plans[c].value.phase.Saving? && m.plans[c].value.from.None?)
    ensures m.tasks[i].status.Claimed? && (i !in g.early ==> i in g.saved)
    ensures Inv(Occupied(m, c, i), g.(place := g.place[i := At(OnCpu, c)], saved := g.saved - {i}), cpus, None)
  {
    hide Owned, Acks, Retirements, Ids, NoOrphans;
    assert Fits(m.tasks[i], g.place[i], cpus) && g.place[i].Claim?;
    var p := At(OnCpu, c);
    var m', g' := Occupied(m, c, i), g.(place := g.place[i := p], saved := g.saved - {i});
    SameKeeps(m, g, i, m'.tasks[i], p, m.queues, m'.current, m.leaving, m.handoff, g'.saved, g.early);
    PlaceUpdate(m.tasks, g.place, cpus, i, m'.tasks[i], p);
    QueuesApart(m.queues, g.place, i, p);
    Fill(m.current, g.place, OnCpu, c, i);
    SlotsApart(m.leaving, g.place, Leaving, i, p);
    SlotsApart(m.handoff, g.place, Handoff, i, p);
    assert Plans(m', cpus) by {
      forall d | 0 <= d < cpus
        ensures PlanOk(m', d)
      {
        assert PlanOk(m, d);
      }
    }
    OccupySaves(m, m', g, i, c);
  }

  lemma OccupySaves(m: Machine, m': Machine, g: View, i: nat, c: nat)
    requires Saves(m, g) && m'.plans == m.plans && i < |g.place| && g.place[i].Claim?
    ensures i !in g.early ==> i in g.saved
    ensures Saves(m', g.(place := g.place[i := At(OnCpu, c)], saved := g.saved - {i}))
  {
    assert i !in g.early ==> !SavingFrom(m.plans, i);
  }

  // ---- The publications of context_switch ------------------------------------------------------

  /** The outgoing stack pointer is stored and the incoming stack loaded. */
  function Stored(m: Machine, c: nat): Machine
    requires c < |m.plans| == |m.idle| && m.plans[c].Some?
  {
    var p := m.plans[c].value;
    m.(plans := m.plans[c := Some(p.(phase := Publishing))], idle := if p.from.None? then m.idle[c := true] else m.idle)
  }

  ghost function StoredView(m: Machine, g: View, c: nat): View
    requires c < |m.plans| && m.plans[c].Some?
  {
    g.(saved := if m.plans[c].value.from.Some? then g.saved + {m.plans[c].value.from.value} else g.saved)
  }

  lemma StoreSaves(m: Machine, g: View, c: nat)
    requires Saves(m, g) && c < |m.plans| == |m.idle| && m.plans[c].Some? && m.plans[c].value.phase.Saving?
    ensures Saves(Stored(m, c), StoredView(m, g, c))
  {
    var m', g' := Stored(m, c), StoredView(m, g, c);
    StoredSaving(m, c);
    if m.plans[c].value.from.Some? && m.plans[c].value.from.value !in g.early {
      var i := m.plans[c].value.from.value;
      assert SavingOn(m.plans, c, i);
      forall d
        ensures !SavingOn(m'.plans, d, i)
      {
        assert SavingOn(m'.plans, d, i) ==> SavingOn(m.plans, d, i);
      }
    }
  }

  lemma StoreKeeps(m: Machine, g: View, cpus: nat, c: nat)
    requires Inv(m, g, cpus, None) && c < cpus && m.plans[c].Some? && m.plans[c].value.phase.Saving?
    ensures Inv(Stored(m, c), StoredView(m, g, c), cpus, None)
  {
    hide Ids, NoOrphans, Placed, Queued, Slotted, Owned;
    var m', g' := Stored(m, c), StoredView(m, g, c);
    assert Plans(m', cpus) by {
      forall d | 0 <= d < cpus
        ensures PlanOk(m', d)
      {
        assert PlanOk(m, d);
      }
    }
    StoreSaves(m, g, c);
    hide Saves;
    StoredSaving(m, c);
    forall a | Dead(m, g, a)
      ensures Dead(m', g', a)
    {
    }
    forall d | Retires(m', d)
      ensures Retires(m, d)
    {
    }
  }

  lemma StoredSaving(m: Machine, c: nat)
    requires c < |m.plans| == |m.idle| && m.plans[c].Some? && m.plans[c].value.phase.Saving?
    ensures forall d, i :: SavingOn(Stored(m, c).plans, d, i) ==> SavingOn(m.plans, d, i)
    ensures forall i :: SavingFrom(Stored(m, c).plans, i) ==> SavingFrom(m.plans, i)
    ensures forall i :: SavingFrom(m.plans, i) ==> SavingFrom(Stored(m, c).plans, i) || m.plans[c].value.from == Some(i)
  {
    var m' := Stored(m, c);
    forall i | SavingFrom(m'.plans, i)
      ensures SavingFrom(m.plans, i)
    {
      var d :| SavingOn(m'.plans, d, i);
      assert SavingOn(m.plans, d, i);
    }
    forall i | SavingFrom(m.plans, i) && m.plans[c].value.from != Some(i)
      ensures SavingFrom(m'.plans, i)
    {
      var d :| SavingOn(m.plans, d, i);
      assert SavingOn(m'.plans, d, i);
    }
  }

  /** The switched-out task, if there is one, moves to the CPU's handoff slot. */
  function HandedOver(m: Machine, c: nat): Machine
    requires c < |m.plans| == |m.leaving| == |m.handoff| && m.plans[c].Some?
  {
    var m1 := m.(plans := m.plans[c := Some(m.plans[c].value.(phase := Retiring))]);
    if m.leaving[c].None? then m1 else m1.(leaving := m.leaving[c := None], handoff := m.handoff[c := m.leaving[c]])
  }

  ghost function HandedOverView(m: Machine, g: View, c: nat): View
    requires c < |m.leaving|
    requires m.leaving[c].Some? ==> m.leaving[c].value < |g.place|
  {
    if m.leaving[c].None? then g else g.(place := g.place[m.leaving[c].value := At(Handoff, c)])
  }

  lemma HandOverPlaces(m: Machine, g: View, cpus: nat, c: nat)
    requires Places(m, g, cpus, None) && Plans(m, cpus) && c < cpus && m.plans[c].Some? && m.leaving[c].Some?
    ensures m.leaving[c].value < |g.place| && g.place[m.leaving[c].value] == At(Leaving, c)
    ensures Places(HandedOver(m, c), HandedOverView(m, g, c), cpus, None)
  {
    assert PlanOk(m, c);
    var i, p := m.leaving[c].value, At(Handoff, c);
    Empty(m.leaving, g.place, Leaving, c, p);
    Fill(m.handoff, g.place, Handoff, c, i);
    SlotsApart(m.current, g.place, OnCpu, i, p);
    QueuesApart(m.queues, g.place, i, p);
    assert Fits(m.tasks[i], g.place[i], cpus);
    PlaceUpdate(m.tasks, g.place, cpus, i, m.tasks[i], p);
    assert m.tasks[i := m.tasks[i]] == m.tasks;
  }

  lemma HandOverKeeps(m: Machine, g: View, cpus: nat, c: nat)
    requires Inv(m, g, cpus, None) && c < cpus && m.plans[c].Some? && m.plans[c].value.phase.Publishing?
    ensures m.leaving[c].Some? ==> m.leaving[c].value < |g.place|
    ensures Inv(HandedOver(m, c), HandedOverView(m, g, c), cpus, None)
  {
    var m' := HandedOver(m, c);
    if m.leaving[c].Some? {
      HandOverPlaces(m, g, cpus, c);
    }
    PhaseSaving(m.plans, m'.plans, c);
    HandOverPlans(m, cpus, c);
    HandOverSaves(m, g, c);
    HandOverStacks(m, g, c);
  }

  lemma HandOverPlans(m: Machine, cpus: nat, c: nat)
    requires Plans(m, cpus) && c < cpus && m.plans[c].Some? && m.plans[c].value.phase.Publishing?
    ensures Plans(HandedOver(m, c), cpus)
  {
    var m' := HandedOver(m, c);
    forall d | 0 <= d < cpus
      ensures PlanOk(m', d)
    {
      assert PlanOk(m, d);
    }
  }

  lemma HandOverSaves(m: Machine, g: View, c: nat)
    requires Saves(m, g) && c < |m.plans| == |m.leaving| == |m.handoff| && m.plans[c].Some?
    requires m.plans[c].value.phase.Publishing?
    requires m.leaving[c].Some? ==> m.leaving[c].value < |g.place| && g.place[m.leaving[c].value] == At(Leaving, c)
    ensures Saves(HandedOver(m, c), HandedOverView(m, g, c))
  {
    PhaseSaving(m.plans, HandedOver(m, c).plans, c);
  }

  lemma HandOverStacks(m: Machine, g: View, c: nat)
    requires Acks(m, g) && Retirements(m, g)
    requires c < |m.plans| == |m.leaving| == |m.handoff| && m.plans[c].Some? && m.plans[c].value.phase.Publishing?
    requires m.leaving[c].Some? ==> m.leaving[c].value < |g.place| && g.place[m.leaving[c].value] == At(Leaving, c)
    ensures Acks(HandedOver(m, c), HandedOverView(m, g, c)) && Retirements(HandedOver(m, c), HandedOverView(m, g, c))
  {
    var m', g' := HandedOver(m, c), HandedOverView(m, g, c);
    PhaseSaving(m.plans, m'.plans, c);
    forall a | Dead(m, g, a)
      ensures Dead(m', g', a)
    {
    }
    forall d | Retires(m', d)
      ensures Retires(m, d)
    {
    }
  }

  /** A plan past its save may move on or end without touching who is being saved. */
  lemma PhaseSaving(plans: seq<Option<Plan>>, plans': seq<Option<Plan>>, c: nat)
    requires c < |plans| == |plans'| && plans' == plans[c := plans'[c]]
    requires plans[c].Some? ==> !plans[c].value.phase.Saving?
    requires plans'[c].Some? ==> !plans'[c].value.phase.Saving?
    ensures forall d, i :: SavingOn(plans', d, i) <==> SavingOn(plans, d, i)
    ensures forall i :: SavingFrom(plans', i) <==> SavingFrom(plans, i)
  {
    forall i
      ensures SavingFrom(plans', i) <==> SavingFrom(plans, i)
    {
      if SavingFrom(plans', i) {
        var d :| SavingOn(plans', d, i);
        assert SavingOn(plans, d, i);
      }
      if SavingFrom(plans, i) {
        var d :| SavingOn(plans, d, i);
        assert SavingOn(plans', d, i);
      }
    }
  }

  /** A zombie's stack is acknowledged in a free slot, or not at all when none is free. */
  function Acknowledged(m: Machine, c: nat, slot: nat): Machine
    requires c < |m.plans| && m.plans[c].Some? && slot <= |m.retired|
  {
    m.(plans := m.plans[c := None],
       retired := if m.plans[c].value.retire != 0 && slot < |m.retired|
                  then m.retired[slot := m.plans[c].value.retire] else m.retired)
  }

  lemma AcknowledgeKeeps(m: Machine, g: View, cpus: nat, c: nat, slot: nat)
    requires Inv(m, g, cpus, None) && c < cpus && m.plans[c].Some? && m.plans[c].value.phase.Retiring?
    requires slot <= |m.retired| && (slot < |m.retired| ==> m.retired[slot] == 0)
    ensures Inv(Acknowledged(m, c, slot), g, cpus, None)
  {
    hide Ids, NoOrphans, Placed, Queued, Slotted, Owned;
    var m' := Acknowledged(m, c, slot);
    assert Plans(m', cpus) by {
      forall d | 0 <= d < cpus
        ensures PlanOk(m', d)
      {
        assert PlanOk(m, d);
      }
    }
    PhaseSaving(m.plans, m'.plans, c);
    forall a | Dead(m, g, a)
      ensures Dead(m', g, a)
    {
    }
    forall d | Retires(m', d)
      ensures Retires(m, d) && d != c
    {
    }
    AcknowledgeAcks(m, g, c, slot);
  }

  lemma AcknowledgeAcks(m: Machine, g: View, c: nat, slot: nat)
    requires Acks(m, g) && Retirements(m, g) && c < |m.plans| && m.plans[c].Some? && m.plans[c].value.phase.Retiring?
    requires slot <= |m.retired| && (slot < |m.retired| ==> m.retired[slot] == 0)
    ensures Acks(Acknowledged(m, c, slot), g)
  {
    var m' := Acknowledged(m, c, slot);
    PhaseSaving(m.plans, m'.plans, c);
    forall a | Dead(m, g, a)
      ensures Dead(m', g, a)
    {
    }
    if Retires(m, c) && g.owner[m.plans[c].value.retire] !in g.early {
      RetiredIsOff(m, g, c);
    }
  }

  /** Once a zombie's own switch is past its save, nobody is on its stack. */
  lemma RetiredIsOff(m: Machine, g: View, c: nat)
    requires Retirements(m, g) && Retires(m, c) && m.plans[c].value.retire in g.owner
    requires g.owner[m.plans[c].value.retire] !in g.early && !m.plans[c].value.phase.Saving?
    ensures Dead(m, g, m.plans[c].value.retire) && !SavingFrom(m.plans, g.owner[m.plans[c].value.retire])
  {
    forall d
      ensures !SavingOn(m.plans, d, g.owner[m.plans[c].value.retire])
    {
      assert SavingOn(m.plans, d, g.owner[m.plans[c].value.retire]) ==> d == c;
    }
  }

  // ---- Marks, exits, new tasks and the reaper ------------------------------------------------------

  /** The current task of CPU `c` changes its own status. */
  lemma MarkKeeps(m: Machine, g: View, cpus: nat, j: nat, t: Task)
    requires Core(m, g, cpus, None) && j < |m.tasks| && g.place[j].At? && g.place[j].kind.OnCpu?
    requires t == m.tasks[j].(status := t.status, waitingFor := t.waitingFor, wakeTick := t.wakeTick,
                              exitCode := t.exitCode)
    requires t.status.Running? || Blocked(t.status)
    requires m.tasks[j].status.Zombie? ==> t.status.Zombie?
    ensures Core(m.(tasks := m.tasks[j := t]), g, cpus, None)
  {
    hide Queued, Slotted;
    var m' := m.(tasks := m.tasks[j := t]);
    assert Fits(m.tasks[j], g.place[j], cpus);
    PlaceUpdate(m.tasks, g.place, cpus, j, t, g.place[j]);
    assert g.place[j := g.place[j]] == g.place;
    assert Plans(m', cpus) by {
      forall d | 0 <= d < cpus
        ensures PlanOk(m', d)
      {
        assert PlanOk(m, d);
      }
    }
    forall a | Dead(m, g, a)
      ensures Dead(m', g, a)
    {
    }
    forall d | Retires(m', d)
      ensures Retires(m, d)
    {
    }
  }

  /** The waiters a task's exit has still to wake are those from index `n` on. */
  ghost predicate Waiters(tasks: seq<Task>, j: nat, n: nat) {
    forall a, b | Orphan(tasks, a, b) :: b == j && a >= n
  }

  lemma ExitWaiters(m: Machine, j: nat, t: Task)
    requires NoOrphans(m.tasks) && j < |m.tasks| && t.id == m.tasks[j].id && t.status.Zombie?
    ensures Waiters(m.tasks[j := t], j, 0)
  {
    var tasks' := m.tasks[j := t];
    forall a, b | Orphan(tasks', a, b)
      ensures b == j
    {
      assert !Orphan(m.tasks, a, b);
    }
  }

  /** A new task starts Ready with a stored stack pointer and a stack of its own. */
  function Added(m: Machine, t: Task): Machine
    requires t.affinity < |m.queues|
  {
    m.(tasks := m.tasks + [t], queues := m.queues[t.affinity := m.queues[t.affinity] + [|m.tasks|]],
       nextId := m.nextId + 1)
  }

  ghost function AddedView(m: Machine, g: View, t: Task): View {
    g.(place := g.place + [Queue(t.affinity)], saved := g.saved + {|m.tasks|}, owner := g.owner[t.stack := |m.tasks|])
  }

  lemma AddPlaces(m: Machine, g: View, cpus: nat, t: Task)
    requires Places(m, g, cpus, None) && |m.queues| == cpus && Fits(t, Queue(t.affinity), cpus)
    ensures Places(Added(m, t), AddedView(m, g, t), cpus, None)
  {
    var n, c := |m.tasks|, t.affinity;
    var place' := g.place + [Queue(c)];
    var queues' := m.queues[c := m.queues[c] + [n]];
    forall d | 0 <= d < |queues'|
      ensures QueueOf(queues'[d], place', d)
    {
      assert QueueOf(m.queues[d], g.place, d);
    }
    assert queues'[c][|m.queues[c]|] == n;
    forall i | 0 <= i < |place'| && place'[i].Queue?
      ensures place'[i].cpu < |queues'| && i in queues'[place'[i].cpu]
    {
    }
  }

  lemma AddKeeps(m: Machine, g: View, cpus: nat, t: Task)
    requires Inv(m, g, cpus, None) && Fits(t, Queue(t.affinity), cpus)
    requires t.id == m.nextId && t.stack != 0 && t.stack !in g.owner
    ensures t.affinity < |m.queues| && Inv(Added(m, t), AddedView(m, g, t), cpus, None)
  {
    AddPlaces(m, g, cpus, t);
    AddStacks(m, g, t);
    hide Queued, Slotted, Placed, Acks, Retirements, Owned;
    var m', g' := Added(m, t), AddedView(m, g, t);
    assert Plans(m', cpus) by {
      forall d | 0 <= d < cpus
        ensures PlanOk(m', d)
      {
        assert PlanOk(m, d);
      }
    }
    forall a, b
      ensures !Orphan(m'.tasks, a, b)
    {
      assert !Orphan(m.tasks, a, b);
    }
  }

  lemma AddStacks(m: Machine, g: View, t: Task)
    requires Owned(m.tasks, g.owner) && Acks(m, g) && Retirements(m, g) && |m.tasks| == |g.place|
    requires t.stack != 0 && t.stack !in g.owner && t.affinity < |m.queues|
    ensures var m', g' := Added(m, t), AddedView(m, g, t);
            Owned(m'.tasks, g'.owner) && Acks(m', g') && Retirements(m', g')
  {
    var m', g' := Added(m, t), AddedView(m, g, t);
    forall a | Dead(m, g, a)
      ensures Dead(m', g', a)
    {
    }
    forall d | Retires(m', d)
      ensures Retires(m, d)
    {
    }
  }

  /** The reaper takes the acknowledgement in `slot` and frees the stack it names. */
  function Reaped(m: Machine, i: nat, slot: nat): Machine
    requires i < |m.tasks| && slot < |m.retired|
  {
    m.(tasks := m.tasks[i := m.tasks[i].(stack := 0)], retired := m.retired[slot := 0])
  }

  lemma ReapKeeps(m: Machine, g: View, cpus: nat, claim: Option<nat>, i: nat, slot: nat)
    requires Inv(m, g, cpus, claim) && i < |m.tasks| && slot < |m.retired| && m.tasks[i].stack == m.retired[slot] != 0
    ensures m.tasks[i].status.Zombie? && g.place[i].Parked? && m.tasks[i].stack in g.owner
    ensures g.owner[m.tasks[i].stack] == i
    ensures (i !in g.early ==> !SavingFrom(m.plans, i))
    ensures Inv(Reaped(m, i, slot), g.(owner := g.owner - {m.tasks[i].stack}), cpus, claim)
  {
    hide Queued, Slotted, Owned, Acks, Retirements;
    var a := m.tasks[i].stack;
    ReapStacks(m, g, i, slot);
    var m', g' := Reaped(m, i, slot), g.(owner := g.owner - {a});
    assert Fits(m.tasks[i], g.place[i], cpus);
    PlaceUpdate(m.tasks, g.place, cpus, i, m'.tasks[i], g.place[i]);
    assert g.place[i := g.place[i]] == g.place;
    assert Plans(m', cpus) by {
      forall d | 0 <= d < cpus
        ensures PlanOk(m', d)
      {
        assert PlanOk(m, d);
      }
    }
    forall b, d
      ensures !Orphan(m'.tasks, b, d)
    {
      assert !Orphan(m.tasks, b, d);
    }
  }

  lemma ReapStacks(m: Machine, g: View, i: nat, slot: nat)
    requires Owned(m.tasks, g.owner) && Acks(m, g) && Retirements(m, g) && |m.tasks| == |g.place|
    requires i < |m.tasks| && slot < |m.retired| && m.tasks[i].stack == m.retired[slot] != 0
    ensures m.tasks[i].status.Zombie? && g.place[i].Parked? && m.tasks[i].stack in g.owner
    ensures g.owner[m.tasks[i].stack] == i
    ensures (i !in g.early ==> !SavingFrom(m.plans, i))
    ensures var m', g' := Reaped(m, i, slot), g.(owner := g.owner - {m.tasks[i].stack});
            Owned(m'.tasks, g'.owner) && Acks(m', g') && Retirements(m', g')
  {
    var a := m.tasks[i].stack;
    assert Dead(m, g, a) && g.owner[a] == i;
    var m', g' := Reaped(m, i, slot), g.(owner := g.owner - {a});
    forall b | Dead(m, g, b) && b != a
      ensures Dead(m', g', b) && g.owner[b] != i
    {
    }
    assert Acks(m', g');
    forall d | Retires(m', d)
      ensures Retires(m, d) && m.plans[d].value.retire != a
    {
    }
  }

  // ---- When waking is safe ---------------------------------------------------------------------------

  /** The sleeper and exit wakeups put a task on a queue without asking whether it is still current. Some
      assignment of places fits the result if and only if it is not. */
  lemma WakeSafe(m: Machine, g: View, cpus: nat, i: nat, t: Task)
    requires Inv(m, g, cpus, None) && i < |m.tasks| && (m.tasks[i].status.Sleeping? || m.tasks[i].status.Waiting?)
    requires t == m.tasks[i].(status := Ready, waitingFor := t.waitingFor, wakeTick := t.wakeTick)
    ensures t.affinity < |m.queues|
    ensures (exists g' :: Places(Readied(m, i, t), g', cpus, None))
            <==> forall c | 0 <= c < cpus :: m.current[c] != Some(i)
  {
    assert Fits(m.tasks[i], g.place[i], cpus);
    var m' := Readied(m, i, t);
    if g.place[i].Parked? {
      ReadyKeeps(m, g, cpus, None, i, t);
      assert Places(m', ReadiedView(m, g, i, t), cpus, None);
    } else {
      var c := g.place[i].cpu;
      assert m.current[c] == Some(i);
      forall g'
        ensures !Places(m', g', cpus, None)
      {
        TwoPlaces(m', g', cpus, c, t.affinity, |m.queues[t.affinity]|);
      }
    }
  }

  /** No task is both current and queued. */
  lemma TwoPlaces(m: Machine, g: View, cpus: nat, c: nat, v: nat, pos: nat)
    requires c < |m.current| && v < |m.queues| && pos < |m.queues[v]| && m.current[c] == Some(m.queues[v][pos])
    ensures !Places(m, g, cpus, None)
  {
    if Queued(m.queues, g.place) {
      assert QueueOf(m.queues[v], g.place, v);
    }
  }

  /** A CPU that takes the task up finds its stack pointer stored exactly when none is still on its way off its stack.
      */
  ghost predicate Resumable(m: Machine, g: View, i: nat) {
    i !in g.early ==> (i in g.saved <==> !SavingFrom(m.plans, i))
  }

  lemma ReadyResumes(m: Machine, g: View, cpus: nat, i: nat)
    requires Core(m, g, cpus, None) && i < |m.tasks| && m.tasks[i].status.Ready?
    ensures Resumable(m, g, i)
  {
    assert Fits(m.tasks[i], g.place[i], cpus);
  }

  lemma AllResume(m: Machine, g: View, cpus: nat)
    requires Inv(m, g, cpus, None)
    ensures forall i | 0 <= i < |m.tasks| && m.tasks[i].status.Ready? :: Resumable(m, g, i)
  {
    forall i | 0 <= i < |m.tasks| && m.tasks[i].status.Ready?
      ensures Resumable(m, g, i)
    {
      ReadyResumes(m, g, cpus, i);
    }
  }

  /** An acknowledged stack's own CPU has left it: whoever is still on it gave the task up before it ran for the last
      time. */
  lemma OwnCpuDone(m: Machine, g: View, cpus: nat, i: nat, c: nat)
    requires Inv(m, g, cpus, None) && i < |m.tasks| && Acked(m, i) && c < cpus && SavingOn(m.plans, c, i)
    ensures m.plans[c].value.retire == 0
  {
    assert Retires(m, c) <==> m.plans[c].value.retire != 0;
  }

  /** Some CPU is running on the task's stack, or still on its way off it. */
  ghost predicate StackInUse(m: Machine, i: nat) { OnSomeCpu(m.current, i) || SavingFrom(m.plans, i) }

  /** When a stack is freed. */
  ghost predicate Freed(m: Machine, g: View, i: nat) {
    && (StackInUse(m, i) <==> SavingFrom(m.plans, i)) && (SavingFrom(m.plans, i) ==> i in g.early)
    && (forall c | SavingOn(m.plans, c, i) :: m.plans[c].value.retire == 0)
  }

  lemma AckedFreed(m: Machine, g: View, cpus: nat, i: nat)
    requires Inv(m, g, cpus, None) && i < |m.tasks| && Acked(m, i)
    ensures Freed(m, g, i)
  {
    AckOwners(m, g, cpus);
    var s :| 0 <= s < |m.retired| && m.retired[s] == m.tasks[i].stack;
    assert Dead(m, g, m.retired[s]) && g.owner[m.retired[s]] == i;
    forall c | SavingOn(m.plans, c, i)
      ensures m.plans[c].value.retire == 0
    {
      OwnCpuDone(m, g, cpus, i, c);
    }
  }

  /** A preempted task stays out of every queue until the CPU that preempted it has stored its stack pointer, early
      wakeups or not. */
  lemma PreemptedAreSaved(m: Machine, g: View, cpus: nat, c: nat, v: nat, pos: nat)
    requires Inv(m, g, cpus, None) && c < cpus && v < cpus && pos < |m.queues[v]|
    requires SavingOn(m.plans, c, m.queues[v][pos])
    ensures m.leaving[c].None?
  {
    EntryReady(m, g, cpus, v, pos);
    assert PlanOk(m, c);
  }

  // ---- What happens to the tasks that are current ---------------------------------------------------

  /** The current tasks are the same, and unchanged but for a stack that was freed. */
  ghost predicate KeepsCurrent(m: Machine, m': Machine) {
    && m'.current == m.current && |m'.tasks| == |m.tasks|
    && forall d | 0 <= d < |m.current| && m.current[d].Some? && m.current[d].value < |m.tasks| ::
         m'.tasks[m.current[d].value] == m.tasks[m.current[d].value].(stack := m'.tasks[m.current[d].value].stack)
  }

  lemma KeepsTrans(m: Machine, m1: Machine, m2: Machine)
    requires KeepsCurrent(m, m1) && KeepsCurrent(m1, m2)
    ensures KeepsCurrent(m, m2)
  {
  }

  /** Changing a task that is Ready or on its way out touches no current one. */
  lemma KeepsOther(m: Machine, g: View, cpus: nat, claim: Option<nat>, m': Machine, i: nat)
    requires Inv(m, g, cpus, claim) && i < |m.tasks| == |m'.tasks|
    requires (m.tasks[i].status.Ready? || m.tasks[i].status.SwitchingOut?)
    requires m'.current == m.current && m'.tasks == m.tasks[i := m'.tasks[i]]
    ensures KeepsCurrent(m, m')
  {
    forall d | 0 <= d < |m.current| && m.current[d].Some?
      ensures m.current[d].value != i
    {
      CurrentAt(m, g, cpus, claim, d);
    }
  }

  /** All that a switch on CPU `c` does to the other CPUs. */
  ghost predicate Elsewhere(m: Machine, m': Machine, c: nat) {
    && |m'.current| == |m.current| && |m'.plans| == |m.plans| && |m'.tasks| == |m.tasks|
    && (forall d | 0 <= d < |m.current| && d != c :: m'.current[d] == m.current[d])
    && (forall d | 0 <= d < |m.plans| && d != c :: m'.plans[d] == m.plans[d])
    && (forall d | 0 <= d < |m.current| && d != c && m.current[d].Some? && m.current[d].value < |m.tasks| ::
          m'.tasks[m.current[d].value] == m.tasks[m.current[d].value].(stack := m'.tasks[m.current[d].value].stack))
  }

  lemma ElsewhereTrans(m: Machine, m1: Machine, m2: Machine, c: nat)
    requires KeepsCurrent(m, m1) && m1.plans == m.plans && Elsewhere(m1, m2, c)
    ensures Elsewhere(m, m2, c)
  {
  }

  lemma KeepsSelf(m: Machine)
    ensures KeepsCurrent(m, m)
  {
  }

  lemma KeepsSleepers(m: Machine, m': Machine, now: nat)
    requires NoneDue(m.current, m.tasks, now) && m'.current == m.current && |m'.tasks| == |m.tasks|
    requires forall i | 0 <= i < |m.tasks| ::
              if Due(m.tasks[i], now) then m'.tasks[i].status.Ready? else m'.tasks[i] == m.tasks[i]
    ensures KeepsCurrent(m, m')
  {
  }

  lemma KeepsReaped(m: Machine, m': Machine)
    requires m'.current == m.current && |m'.tasks| == |m.tasks|
    requires forall i | 0 <= i < |m.tasks| :: m'.tasks[i] == if Acked(m, i) then m.tasks[i].(stack := 0) else m.tasks[i]
    ensures KeepsCurrent(m, m')
  {
  }

  /** A CPU that has just switched idles or runs a task that waits for nothing. */
  predicate Fresh(m: Machine, c: nat) {
    && c < |m.current|
    && (m.current[c].Some? ==>
          var t := m.current[c].value; t < |m.tasks| && m.tasks[t].status.Running? && m.tasks[t].wakeTick == 0)
  }

  /** A CPU that has not switched has nothing to do or goes on running its task. */
  predicate StillRuns(m: Machine, m': Machine, c: nat) {
    && c < |m.current| == |m'.current| && m'.current[c] == m.current[c]
    && (m.current[c].Some? ==>
          var j := m.current[c].value;
          && j < |m.tasks| == |m'.tasks| && !Blocked(m.tasks[j].status)
          && m'.tasks[j] == m.tasks[j].(stack := m'.tasks[j].stack))
  }

  lemma StillTrans(m: Machine, m1: Machine, m2: Machine, c: nat)
    requires KeepsCurrent(m, m1) && c < |m.current|
    ensures StillRuns(m1, m2, c) ==> StillRuns(m, m2, c)
  {
  }

  lemma IdleElsewhere(m: Machine, m1: Machine, m2: Machine, c: nat)
    requires KeepsCurrent(m, m1) && m1.plans == m.plans && (m2 == m1 || Elsewhere(m1, m2, c))
    ensures Elsewhere(m, m2, c)
  {
  }

  /** Who has been taken up early after CPU `c` has switched to `next`. */
  ghost function SwitchedEarly(m: Machine, g: View, c: nat, next: Option<nat>): set<nat>
    requires c < |m.current|
  {
    LeftEarly(m, g.(early := TakenEarly(m, g, next)), c)
  }

  lemma EarlyStep(m: Machine, g: View, m1: Machine, g1: View, m2: Machine, g2: View, c: nat, next: Option<nat>)
    requires c < |m.current| && m1.plans == m.plans && g1.early == g.early && m2.plans == m.plans
    requires m2.current == m.current
    requires g2.early == TakenEarly(m1, g1, next)
    ensures LeftEarly(m2, g2, c) == SwitchedEarly(m, g, c, next) && (next.None? ==> g2.early == g.early)
  {
  }

  lemma SameEarly(m: Machine, g: View, m1: Machine, g1: View, c: nat, next: Option<nat>)
    requires c < |m.current| && m1.current == m.current && m1.plans == m.plans && g1.early == g.early
    ensures SwitchedEarly(m1, g1, c, next) == SwitchedEarly(m, g, c, next)
  {
  }

  lemma VacateElsewhere(m: Machine, g: View, cpus: nat, claim: Option<nat>, c: nat)
    requires Inv(m, g, cpus, claim) && c < cpus
    ensures |m.current| == |m.plans| == |m.leaving| == cpus && (m.current[c].Some? ==> m.current[c].value < |m.tasks|)
    ensures Elsewhere(m, Vacated(m, c), c)
  {
    if m.current[c].Some? {
      CurrentAt(m, g, cpus, claim, c);
    }
    forall d | 0 <= d < cpus && d != c && m.current[d].Some?
      ensures m.current[d] != m.current[c]
    {
      CurrentAt(m, g, cpus, claim, d);
    }
  }

  lemma OccupyElsewhere(m: Machine, g: View, cpus: nat, c: nat, i: nat)
    requires Inv(m, g, cpus, Some(i)) && c < cpus && i < |m.tasks|
    ensures |m.current| == |m.plans| == |m.leaving| == cpus && (m.current[c].Some? ==> m.current[c].value < |m.tasks|)
    ensures Elsewhere(m, Occupied(Vacated(m, c), c, i), c)
  {
    VacateElsewhere(m, g, cpus, Some(i), c);
    assert Fits(m.tasks[i], g.place[i], cpus);
    forall d | 0 <= d < cpus && m.current[d].Some?
      ensures m.current[d].value != i
    {
      CurrentAt(m, g, cpus, Some(i), d);
    }
  }

  // ---- What a switch does, in full ---------------------------------------------------------------

  /** The handed-over task, if any, is queued. */
  function Drained(m: Machine, c: nat): Machine {
    if c < |m.queues| == |m.handoff| && m.handoff[c].Some? && m.handoff[c].value < |m.tasks|
    then Finished(m, c, m.handoff[c].value)
    else m
  }

  /** The first of the longest other queues, if that has more than one entry. */
  predicate Victim(m: Machine, c: nat, online: nat, v: nat) {
    && v < online <= |m.queues| && v != c && |m.queues[v]| > 1
    && (forall d | 0 <= d < online && d != c :: |m.queues[d]| <= |m.queues[v]|)
    && (forall d | 0 <= d < v && d != c :: |m.queues[d]| < |m.queues[v]|)
  }

  /** The last entry of a queue that is not pinned. */
  predicate Migratable(m: Machine, v: nat, pos: nat) {
    && v < |m.queues| && pos < |m.queues[v]|
    && (forall k | pos <= k < |m.queues[v]| ::
           m.queues[v][k] < |m.tasks| && (m.tasks[m.queues[v][k]].pinned.None? <==> k == pos))
  }

  ghost predicate Steals(m: Machine, c: nat, online: nat, m': Machine, next: Option<nat>) {
    if next.Some? then
      exists v: nat, pos: nat ::
        Victim(m, c, online, v) && Migratable(m, v, pos) && next.value == m.queues[v][pos] && m' == Taken(m, v, pos, c)
    else m' == m && forall v: nat, pos: nat :: !(Victim(m, c, online, v) && Migratable(m, v, pos))
  }

  /** Local work first, in order; else excess work of another CPU. */
  ghost predicate Picks(m: Machine, c: nat, online: nat, m': Machine, next: Option<nat>) {
    c < |m.queues| &&
    if m.queues[c] == [] then Steals(m, c, online, m', next)
    else
      && m.queues[c][0] < |m.tasks| && next == Some(m.queues[c][0])
      && m' == Taken(m, c, 0, m.tasks[m.queues[c][0]].affinity)
  }

  /** The current task gives way to `next`; without one, a task that can go on does. */
  function Entered(m: Machine, c: nat, next: Option<nat>): Machine {
    if !(c < |m.plans| == |m.current| == |m.leaving| && (m.current[c].Some? ==> m.current[c].value < |m.tasks|)) then m
    else if next.Some? then if next.value < |m.tasks| then Occupied(Vacated(m, c), c, next.value) else m
    else if m.current[c].Some? && Blocked(m.tasks[m.current[c].value].status) then Vacated(m, c) else m
  }

  ghost predicate Switches(m: Machine, c: nat, online: nat, m': Machine) {
    exists m1, next :: Picks(Drained(m, c), c, online, m1, next) && m' == Entered(m1, c, next)
  }

  /** What CPU 0's maintenance leaves: the due tasks woken and queued in order, the acknowledged stacks freed. */
  ghost function Maintained(m: Machine, now: nat): Machine {
    var who := DueTasks(m.tasks, now);
    m.(tasks := seq(|m.tasks|, i requires 0 <= i < |m.tasks| => Tended(m, i, now)),
       queues := seq(|m.queues|, c requires 0 <= c < |m.queues| => m.queues[c] + Batch(m.tasks, who, c, |m.tasks|)),
       retired := seq(|m.retired|, _ => 0))
  }

  function Tended(m: Machine, i: nat, now: nat): Task
    requires i < |m.tasks|
  {
    var t :=
      if Due(m.tasks[i], now) then Roused(m.tasks[i]) else m.tasks[i];
    if Acked(m, i) then t.(stack := 0) else t
  }

  lemma MaintainedExactly(m0: Machine, m1: Machine, m: Machine, now: nat)
    requires m1 == m0.(tasks := m1.tasks, queues := m1.queues) && |m1.tasks| == |m0.tasks|
    requires forall i | 0 <= i < |m0.tasks| ::
               m1.tasks[i] == if Due(m0.tasks[i], now) then Roused(m0.tasks[i])
                              else m0.tasks[i]
    requires Joined(m0, m1, DueTasks(m0.tasks, now), |m0.tasks|)
    requires m == m1.(tasks := m.tasks, retired := m.retired) && |m.tasks| == |m1.tasks| && |m.retired| == |m1.retired|
    requires forall s | 0 <= s < |m.retired| :: m.retired[s] == 0
    requires forall i | 0 <= i < |m.tasks| ::
              m.tasks[i] == if Acked(m1, i) then m1.tasks[i].(stack := 0) else m1.tasks[i]
    ensures m == Maintained(m0, now)
  {
    var r := Maintained(m0, now);
    forall i | 0 <= i < |m.tasks|
      ensures m.tasks[i] == r.tasks[i]
    {
      assert Acked(m1, i) <==> Acked(m0, i);
    }
    assert m.tasks == r.tasks && m.queues == r.queues && m.retired == r.retired;
  }

  lemma AllPinned(m: Machine, c: nat, online: nat, v: nat)
    requires Victim(m, c, online, v)
    requires forall k | 0 <= k < |m.queues[v]| :: m.queues[v][k] < |m.tasks| && m.tasks[m.queues[v][k]].pinned.Some?
    ensures Steals(m, c, online, m, None)
  {
    forall u: nat, pos: nat | Victim(m, c, online, u)
      ensures !Migratable(m, u, pos)
    {
      assert u == v && (pos < |m.queues[v]| ==> m.tasks[m.queues[v][pos]].pinned.Some?);
    }
  }

  lemma InRange(m: Machine, g: View, cpus: nat, claim: Option<nat>)
    requires Inv(m, g, cpus, claim)
    ensures forall d | 0 <= d < |m.current| && m.current[d].Some? :: m.current[d].value < |m.tasks|
  {
  }

  /** A blocked task once it has been woken. */
  function Roused(t: Task): Task { t.(status := Ready, waitingFor := Nobody, wakeTick := 0) }

  predicate Due(t: Task, now: nat) {
    (t.status.Sleeping? || (t.status.Waiting? && t.wakeTick != 0)) && t.wakeTick <= now
  }

  class Kernel {
    const cpus: nat
    var m: Machine
    ghost var g: View

    ghost predicate Valid()
      reads this
    {
      Inv(m, g, cpus, None)
    }

    /** The state enter_bsp_scheduler_idle leaves: every CPU idle, the boot task a zombie. */
    constructor (n: nat)
      requires n > 0
      ensures Valid() && cpus == n && g.early == {} && Settled(m)
      ensures m.tasks == [Task(0, Zombie, 0, Some(0), 0, Nobody, 0, 0)] && m.nextId == 1
      ensures forall c | 0 <= c < n ::
                m.current[c].None? && m.leaving[c].None? && m.handoff[c].None? && m.plans[c].None? && m.queues[c] == []
      ensures forall s | 0 <= s < |m.retired| :: m.retired[s] == 0
    {
      cpus := n;
      var none := seq(n, _ => None);
      m := Machine([Task(0, Zombie, 0, Some(0), 0, Nobody, 0, 0)], seq(n, _ => []), none, none, none,
                   seq(n, _ => None), seq(n, _ => false), seq(RETIRED_SLOTS, _ => 0), 1);
      g := View([Parked], {0}, {}, map[]);
    }

    /** A CPU whose context switch is over, and so may enter the scheduler. */
    predicate Free(c: nat)
      reads this
    {
      c < cpus && c < |m.plans| && m.plans[c].None?
    }

    // ---- Choosing -----------------------------------------------------------------------------

    /** select_target_cpu: an idle processor with nothing queued, or the boot processor. */
    method SelectTarget(online: nat) returns (c: nat)
      requires Valid() && 0 < online <= cpus
      ensures c < cpus && (c != 0 ==> c < online && m.current[c].None? && m.queues[c] == [])
      ensures forall d | 1 <= d < c :: m.current[d].Some? || m.queues[d] != []
      ensures c == 0 ==> forall d | 1 <= d < online :: m.current[d].Some? || m.queues[d] != []
    {
      for d := 1 to online
        invariant forall e | 1 <= e < d && e < online :: m.current[e].Some? || m.queues[e] != []
      {
        if m.current[d].None? && m.queues[d] == [] {
          return d;
        }
      }
      return 0;
    }

    /** add_new_user_task and add_new_task: `stack` is the kernel stack the heap just handed out. */
    method AddTask(stack: nat, online: nat) returns (id: nat)
      requires Valid() && 0 < online <= cpus && stack != 0 && stack !in g.owner
      modifies this
      ensures Valid() && g.early == old(g).early && id == old(m).nextId
      ensures |m.tasks| == |old(m).tasks| + 1 && m.tasks[..|old(m).tasks|] == old(m).tasks
      ensures var t := m.tasks[|old(m).tasks|];
              && t.id == id && t.status.Ready? && t.stack == stack && t.pinned == (if id == 1 then Some(0) else None)
              && t.affinity < cpus
              && m.queues == old(m).queues[t.affinity := old(m).queues[t.affinity] + [|old(m).tasks|]]
              && (t.affinity != 0 ==>
                     t.affinity < online && old(m).current[t.affinity].None? && old(m).queues[t.affinity] == [])
              && (forall d | 1 <= d < t.affinity :: old(m).current[d].Some? || old(m).queues[d] != [])
              && (t.affinity == 0 <==>
                  id == 1 || forall d | 1 <= d < online :: old(m).current[d].Some? || old(m).queues[d] != [])
      ensures m == old(m).(tasks := m.tasks, queues := m.queues, nextId := id + 1)
    {
      Sizes(m, g, cpus, None);
      hide Inv;
      id := m.nextId;
      var c := 0;
      if id != 1 {
        c := SelectTarget(online);
      }
      var t := Task(id, Ready, c, if id == 1 then Some(0) else None, 0, Nobody, stack, 0);
      AddKeeps(m, g, cpus, t);
      ghost var g' := AddedView(m, g, t);
      m := Added(m, t);
      g := g';
    }

    /** finish_switched_out_task: the handed-over task is SwitchingOut, and becomes Ready here. */
    method Finish(c: nat)
      requires Valid() && c < cpus
      modifies this
      ensures |m.tasks| == |old(m).tasks|
      ensures Valid() && g.early == old(g).early && m.handoff[c].None?
      ensures m == Drained(old(m), c) && m == old(m).(tasks := m.tasks, queues := m.queues, handoff := m.handoff)
      ensures old(m).handoff[c].None? ==> m == old(m)
      ensures old(m).handoff[c].Some? ==>
                var i := old(m).handoff[c].value;
                i < |m.tasks| && m.tasks[i].status.Ready? && m.queues[c] == old(m).queues[c] + [i]
      ensures KeepsCurrent(old(m), m)
    {
      if m.handoff[c].Some? {
        FinishKeeps(m, g, cpus, None, c);
        KeepsOther(m, g, cpus, None, Finished(m, c, m.handoff[c].value), m.handoff[c].value);
        hide Inv;
        var i := m.handoff[c].value;
        m := Finished(m, c, i);
        g := g.(place := g.place[i := Queue(c)]);
      }
    }

    /** claim_local_ready_task. The head of the queue is always a valid, Ready task. */
    method ClaimLocal(c: nat) returns (next: Option<nat>)
      requires Valid() && c < cpus
      modifies this
      ensures |m.tasks| == |old(m).tasks|
      ensures Inv(m, g, cpus, next) && g.early == TakenEarly(old(m), old(g), next)
      ensures next == if old(m).queues[c] == [] then None else Some(old(m).queues[c][0])
      ensures m == old(m).(tasks := m.tasks, queues := m.queues)
      ensures next.Some? ==>
                next.value < |m.tasks| && (m.tasks[next.value].pinned.Some? ==> m.tasks[next.value].pinned.value == c)
      ensures next.Some? ==> m.queues == old(m).queues[c := old(m).queues[c][1..]] && Picks(old(m), c, 0, m, next)
      ensures next.None? ==> m == old(m)
      ensures KeepsCurrent(old(m), m)
    {
      if m.queues[c] == [] {
        return None;
      }
      EntryReady(m, g, cpus, c, 0);
      var i := m.queues[c][0];
      TakeKeeps(m, g, cpus, c, 0, m.tasks[i].affinity);
      KeepsOther(m, g, cpus, None, Taken(m, c, 0, m.tasks[i].affinity), i);
      assert Without(m.queues[c], 0) == m.queues[c][1..];
      ghost var g' := TakenView(m, g, i);
      hide Inv;
      m := Taken(m, c, 0, m.tasks[i].affinity);
      g := g';
      return Some(i);
    }

    /** The most loaded other queue with more than one entry. */
    method FindVictim(c: nat, online: nat) returns (v: Option<nat>)
      requires Valid() && online <= cpus
      ensures v.Some? ==> Victim(m, c, online, v.value)
      ensures v.None? ==> forall d | 0 <= d < online && d != c :: |m.queues[d]| <= 1
    {
      v := None;
      var len := 1;
      for d := 0 to online
        invariant v.Some? ==> v.value < d && v.value != c && |m.queues[v.value]| == len > 1
        invariant v.None? ==> len == 1
        invariant forall e | 0 <= e < d && e != c :: |m.queues[e]| <= len
        invariant v.Some? ==> forall e | 0 <= e < v.value && e != c :: |m.queues[e]| < len
      {
        if d != c && |m.queues[d]| > len {
          v, len := Some(d), |m.queues[d]|;
        }
      }
    }

    /** steal_and_claim_ready_task: the last migratable entry of the most loaded queue, never a CPU's only one. */
    method Steal(c: nat, online: nat) returns (next: Option<nat>)
      requires Valid() && c < cpus && online <= cpus
      modifies this
      ensures |m.tasks| == |old(m).tasks|
      ensures Inv(m, g, cpus, next) && g.early == TakenEarly(old(m), old(g), next)
      ensures m == old(m).(tasks := m.tasks, queues := m.queues) && Steals(old(m), c, online, m, next)
      ensures next.Some? ==> next.value < |m.tasks| && m.tasks[next.value].pinned.None?
      ensures forall d | 0 <= d < cpus :: m.queues[d] == [] ==> old(m).queues[d] == []
      ensures next.None? ==> m == old(m)
      ensures KeepsCurrent(old(m), m)
    {
      var v := FindVictim(c, online);
      if v.None? {
        return None;
      }
      var pos := FindMigratable(v.value);
      if pos.None? {
        AllPinned(m, c, online, v.value);
        return None;
      }
      EntryReady(m, g, cpus, v.value, pos.value);
      TakeKeeps(m, g, cpus, v.value, pos.value, c);
      KeepsOther(m, g, cpus, None, Taken(m, v.value, pos.value, c), m.queues[v.value][pos.value]);
      var i := m.queues[v.value][pos.value];
      ghost var g' := TakenView(m, g, i);
      hide Inv;
      m := Taken(m, v.value, pos.value, c);
      g := g';
      return Some(i);
    }

    /** The last entry of a queue that is not pinned. */
    method FindMigratable(v: nat) returns (pos: Option<nat>)
      requires Valid() && v < cpus
      ensures forall k | 0 <= k < |m.queues[v]| :: m.queues[v][k] < |m.tasks|
      ensures pos.Some? ==> pos.value < |m.queues[v]| && m.tasks[m.queues[v][pos.value]].pinned.None?
      ensures forall k | (if pos.Some? then pos.value else -1) < k < |m.queues[v]| ::
                m.tasks[m.queues[v][k]].pinned.Some?
    {
      forall k | 0 <= k < |m.queues[v]|
        ensures m.queues[v][k] < |m.tasks|
      {
        EntryReady(m, g, cpus, v, k);
      }
      var k := |m.queues[v]|;
      while k > 0
        invariant 0 <= k <= |m.queues[v]|
        invariant forall j | k <= j < |m.queues[v]| :: m.tasks[m.queues[v][j]].pinned.Some?
      {
        k := k - 1;
        if m.tasks[m.queues[v][k]].pinned.None? {
          return Some(k);
        }
      }
      return None;
    }

    /** Local work first, else excess work of another CPU. */
    method Pick(c: nat, online: nat) returns (next: Option<nat>)
      requires Valid() && c < cpus && online <= cpus
      modifies this
      ensures |m.tasks| == |old(m).tasks|
      ensures Inv(m, g, cpus, next) && g.early == TakenEarly(old(m), old(g), next) && |m.queues| == cpus
      ensures m == old(m).(tasks := m.tasks, queues := m.queues) && Picks(old(m), c, online, m, next)
      ensures next.Some? ==>
                next.value < |m.tasks| && (m.tasks[next.value].pinned.Some? ==> m.tasks[next.value].pinned.value == c)
      ensures next.None? ==> m == old(m)
      ensures old(m).queues[c] != [] ==> next == Some(old(m).queues[c][0])
      ensures KeepsCurrent(old(m), m)
    {
      Sizes(m, g, cpus, None);
      hide Inv, KeepsCurrent;
      next := ClaimLocal(c);
      if next.None? {
        next := Steal(c, online);
      }
      Sizes(m, g, cpus, next);
    }

    // ---- Switching ------------------------------------------------------------------------------

    /** The end of switch_task when there is something to run. The claimed task is Claimed and may run here, so
        the two defensive returns of the source are unreachable. */
    method SwitchTo(c: nat, i: nat)
      requires Inv(m, g, cpus, Some(i)) && Free(c) && m.handoff[c].None?
      requires i < |m.tasks| && (m.tasks[i].pinned.Some? ==> m.tasks[i].pinned.value == c)
      modifies this
      ensures |m.tasks| == |old(m).tasks|
      ensures old(m).current[c].Some? ==> old(m).current[c].value < |old(m).tasks|
      ensures Valid() && g.early == LeftEarly(old(m), old(g), c) && (i !in old(g).early ==> i in old(g).saved)
      ensures m == Occupied(Vacated(old(m), c), c, i) && Elsewhere(old(m), m, c) && m.tasks[i].wakeTick == 0
      ensures m.current[c] == Some(i) && m.tasks[i].status.Running?
      ensures m.plans[c].Some? && m.plans[c].value.from == old(m).current[c] && m.plans[c].value.phase.Saving?
      ensures m.handoff == old(m).handoff
      ensures old(m).current[c].Some? ==>
                var j := old(m).current[c].value;
                && j < |old(m).tasks|
                && (old(m).tasks[j].status.Running? ==> m.leaving[c] == Some(j) && m.tasks[j].status.SwitchingOut?)
                && m.plans[c].value.retire == if old(m).tasks[j].status.Zombie? then old(m).tasks[j].stack else 0
    {
      SwitchKeeps(m, g, cpus, c, i);
      OccupyElsewhere(m, g, cpus, c, i);
      hide Inv, Vacated, VacatedView, Elsewhere;
      ghost var g' := VacatedView(m, g, c);
      m := Occupied(Vacated(m, c), c, i);
      g := g'.(place := g'.place[i := At(OnCpu, c)], saved := g'.saved - {i});
    }

    /** The end of switch_task when there is nothing to run: a blocked or dead task gives way to the idle loop, whose
        stack has been saved before. */
    method SwitchToIdle(c: nat)
      requires Valid() && Free(c) && m.handoff[c].None?
      modifies this
      ensures |m.tasks| == |old(m).tasks|
      ensures Valid()
      ensures old(m).current[c].Some? ==> old(m).current[c].value < |old(m).tasks|
      ensures if old(m).current[c].Some? && Blocked(old(m).tasks[old(m).current[c].value].status)
              then m == Vacated(old(m), c) && g.early == LeftEarly(old(m), old(g), c) && Elsewhere(old(m), m, c)
                   && m.idle[c] && m.current[c].None? && m.plans[c].Some? && m.plans[c].value.from == old(m).current[c]
                   && m.plans[c].value.phase.Saving? && m.handoff == old(m).handoff
              else m == old(m) && g == old(g)
    {
      assert PlanOk(m, c);
      if m.current[c].Some? {
        CurrentAt(m, g, cpus, None, c);
        if Blocked(m.tasks[m.current[c].value].status) {
          VacateKeeps(m, g, cpus, None, c);
          VacateElsewhere(m, g, cpus, None, c);
          hide Inv, Elsewhere;
          ghost var g' := VacatedView(m, g, c);
          m := Vacated(m, c);
          g := g';
        }
      }
    }

    /** switch_task up to the release of the lock. */
    method SwitchTask(c: nat, now: nat, online: nat)
      requires Valid() && Free(c) && online <= cpus
      requires c == 0 ==> NoneDue(m.current, m.tasks, now)
      modifies this
      ensures |m.tasks| == |old(m).tasks| && |m.current| == |old(m).current| == |m.plans| == |m.handoff| == cpus
      ensures Valid() && m.handoff[c].None? && Elsewhere(old(m), m, c)
      ensures m.plans[c].Some? ==>
                m.plans[c].value.from == old(m).current[c] && m.plans[c].value.phase.Saving? && Fresh(m, c)
      ensures m.plans[c].None? ==> m.current[c] == old(m).current[c] && StillRuns(old(m), m, c)
      ensures old(m).handoff[c].Some? || old(m).queues[c] != [] ==> m.plans[c].Some? && m.current[c].Some?
      ensures g.early == if m.plans[c].Some? then SwitchedEarly(old(m), old(g), c, m.current[c]) else old(g).early
      ensures Switches(if c == 0 then Maintained(old(m), now) else old(m), c, online, m)
    {
      Sizes(m, g, cpus, None);
      hide Inv, KeepsCurrent, Elsewhere, SwitchedEarly, StillRuns, Fresh, Switches, Maintained;
      if c == 0 {
        Maintain(now);
      } else {
        KeepsSelf(m);
      }
      ghost var m1, g1 := m, g;
      Sizes(m, g, cpus, None);
      SwitchLocal(c, online);
      ElsewhereTrans(old(m), m1, m, c);
      StillTrans(old(m), m1, m, c);
      SameEarly(old(m), old(g), m1, g1, c, m.current[c]);
    }

    /** The CPU's own share of switch_task: drain its handoff, pick, and switch. */
    method SwitchLocal(c: nat, online: nat)
      requires Valid() && Free(c) && online <= cpus
      modifies this
      ensures |m.tasks| == |old(m).tasks| && |m.current| == |old(m).current| == |m.plans| == |m.handoff| == cpus
      ensures Valid() && m.handoff[c].None? && Elsewhere(old(m), m, c)
      ensures m.plans[c].Some? ==>
                m.plans[c].value.from == old(m).current[c] && m.plans[c].value.phase.Saving? && Fresh(m, c)
      ensures m.plans[c].None? ==> m.current[c] == old(m).current[c] && StillRuns(old(m), m, c)
      ensures old(m).handoff[c].Some? || old(m).queues[c] != [] ==> m.plans[c].Some? && m.current[c].Some?
      ensures g.early == if m.plans[c].Some? then SwitchedEarly(old(m), old(g), c, m.current[c]) else old(g).early
      ensures Switches(old(m), c, online, m)
    {
      Sizes(m, g, cpus, None);
      hide Inv, KeepsCurrent, Elsewhere, Fresh, StillRuns, SwitchedEarly, TakenEarly, LeftEarly, Picks, Drained,
           Entered;
      Finish(c);
      ghost var m1, g1 := m, g;
      var next := Pick(c, online);
      KeepsTrans(old(m), m1, m);
      ghost var m2, g2 := m, g;
      Sizes(m, g, cpus, next);
      Enter(c, next);
      Sizes(m, g, cpus, None);
      IdleElsewhere(old(m), m2, m, c);
      StillTrans(old(m), m2, m, c);
      EarlyStep(old(m), old(g), m1, g1, m2, g2, c, next);
    }

    /** The end of switch_task, with what there is to run. */
    method Enter(c: nat, next: Option<nat>)
      requires Inv(m, g, cpus, next) && Free(c) && |m.handoff| == cpus && m.handoff[c].None? && |m.current| == cpus
      requires next.Some? ==>
                next.value < |m.tasks| && (m.tasks[next.value].pinned.Some? ==> m.tasks[next.value].pinned.value == c)
      modifies this
      ensures Valid() && |m.tasks| == |old(m).tasks| && |m.current| == |m.plans| == cpus && m.handoff == old(m).handoff
      ensures (m == old(m) || Elsewhere(old(m), m, c)) && (next.Some? ==> m.plans[c].Some?)
      ensures m == Entered(old(m), c, next)
      ensures m.plans[c].Some? ==>
                && m.plans[c].value.from == old(m).current[c] && m.plans[c].value.phase.Saving? && m.current[c] == next
                && Fresh(m, c)
      ensures m.plans[c].None? ==> m == old(m) && StillRuns(old(m), m, c)
      ensures g.early == if m.plans[c].Some? then LeftEarly(old(m), old(g), c) else old(g).early
    {
      Sizes(m, g, cpus, next);
      InRange(m, g, cpus, next);
      hide Inv, Elsewhere, Vacated, LeftEarly;
      if next.Some? {
        SwitchTo(c, next.value);
      } else {
        SwitchToIdle(c);
      }
      Sizes(m, g, cpus, None);
    }

    /** CPU 0's share of switch_task: expired sleepers and acknowledged zombies. */
    method Maintain(now: nat)
      requires Valid()
      requires NoneDue(m.current, m.tasks, now)
      modifies this
      ensures |m.tasks| == |old(m).tasks|
      ensures Valid() && g.early == old(g).early
      ensures m == old(m).(tasks := m.tasks, queues := m.queues, retired := m.retired) && |m.queues| == |old(m).queues|
      ensures forall c | 0 <= c < |m.queues| :: old(m).queues[c] <= m.queues[c]
      ensures KeepsCurrent(old(m), m) && m == Maintained(old(m), now)
    {
      Sizes(m, g, cpus, None);
      hide Inv, KeepsCurrent, NoneDue, Acked, Due, Joined, DueTasks, Maintained;
      WakeSleepers(now);
      KeepsSleepers(old(m), m, now);
      ghost var m1 := m;
      Sizes(m, g, cpus, None);
      Reap();
      KeepsReaped(m1, m);
      KeepsTrans(old(m), m1, m);
      MaintainedExactly(old(m), m1, m, now);
    }

    /** reap_zombies: every acknowledged stack is freed, once. No CPU runs on it, and it is in use exactly if a CPU is
        still on its way off it, which takes a task that was taken up early. */
    method Reap()
      requires Valid()
      modifies this
      ensures Valid() && g.early == old(g).early
      ensures m == old(m).(tasks := m.tasks, retired := m.retired) && |m.tasks| == |old(m).tasks|
      ensures |m.retired| == |old(m).retired| == RETIRED_SLOTS && forall s | 0 <= s < RETIRED_SLOTS :: m.retired[s] == 0
      ensures forall i | 0 <= i < |m.tasks| ::
                m.tasks[i] == if Acked(old(m), i) then old(m).tasks[i].(stack := 0) else old(m).tasks[i]
      ensures forall i | 0 <= i < |m.tasks| && Acked(old(m), i) :: Freed(old(m), old(g), i)
    {
      forall i | 0 <= i < |m.tasks| && Acked(m, i)
        ensures Freed(m, g, i)
      {
        AckedFreed(m, g, cpus, i);
      }
      ReapStart(m, g, cpus);
      hide Inv, ReapedUpTo, Reaped, Acked, Freed;
      for i := 0 to |m.tasks|
        invariant Valid() && g.early == old(g).early
        invariant m == old(m).(tasks := m.tasks, retired := m.retired) && |m.tasks| == |old(m).tasks|
        invariant |m.retired| == RETIRED_SLOTS
        invariant ReapedUpTo(old(m), old(g).owner, m, i)
      {
        ReapNext(i, old(m), old(g).owner);
      }
      ReapedAll(old(m), old(g).owner, m);
    }

    /** One turn of reap_zombies, in a pass that began with machine `m0`. */
    method ReapNext(i: nat, ghost m0: Machine, ghost owner0: map<nat, nat>)
      requires Valid() && i < |m.tasks| && ReapedUpTo(m0, owner0, m, i)
      modifies this
      ensures Valid() && g.early == old(g).early && ReapedUpTo(m0, owner0, m, i + 1)
      ensures m == old(m).(tasks := m.tasks, retired := m.retired) && |m.tasks| == |old(m).tasks|
      ensures |m.retired| == |old(m).retired|
    {
      hide Inv, ReapedUpTo, Reaped, Acked;
      var a := ReapTask(i);
      ReapTurn(m0, owner0, old(m), m, i, a);
    }

    /** Task `i` loses its stack if the stack has been acknowledged. */
    method ReapTask(i: nat) returns (a: nat)
      requires Valid() && i < |m.tasks|
      modifies this
      ensures Valid() && g == old(g).(owner := g.owner)
      ensures m == old(m).(tasks := m.tasks, retired := m.retired) && |m.tasks| == |old(m).tasks|
      ensures |m.retired| == |old(m).retired|
      ensures g.owner == old(g).owner - {a}
      ensures if Acked(old(m), i)
              then a == old(m).tasks[i].stack
                   && exists slot: nat ::
                        slot < |old(m).retired| && old(m).retired[slot] == a && m == Reaped(old(m), i, slot)
              else a == 0 && m == old(m)
      ensures a != 0 && i !in g.early ==> !SavingFrom(m.plans, i)
      ensures a != 0 ==> !OnSomeCpu(m.current, i)
    {
      AckOwners(m, g, cpus);
      hide Inv;
      assert 0 !in g.owner && g.owner - {0} == g.owner;
      var t := m.tasks[i];
      var slot := FindSlot(t.stack);
      if t.status.Zombie? && t.stack != 0 && !OnSomeCpu(m.current, i) && slot.Some? {
        ReapKeeps(m, g, cpus, None, i, slot.value);
        m := Reaped(m, i, slot.value);
        g := g.(owner := g.owner - {t.stack});
        return t.stack;
      }
      return 0;
    }

    /** The first slot holding `a`. */
    method FindSlot(a: nat) returns (slot: Option<nat>)
      ensures slot.Some? ==>
                && slot.value < |m.retired| && m.retired[slot.value] == a
                && forall s | 0 <= s < slot.value :: m.retired[s] != a
      ensures slot.None? ==> a !in m.retired
    {
      for s := 0 to |m.retired|
        invariant forall r | 0 <= r < s :: m.retired[r] != a
      {
        if m.retired[s] == a {
          return Some(s);
        }
      }
      return None;
    }

    // ---- context_switch, after the lock is gone ------------------------------------------------------

    /** The outgoing stack pointer is stored; the CPU is now on the incoming stack. */
    method SaveStack(c: nat)
      requires Valid() && c < cpus && m.plans[c].Some? && m.plans[c].value.phase.Saving?
      modifies this
      ensures Valid() && g.early == old(g).early && m == Stored(old(m), c)
      ensures m.plans[c].value.from.Some? ==> m.plans[c].value.from.value in g.saved
    {
      StoreKeeps(m, g, cpus, c);
      hide Inv;
      ghost var g' := StoredView(m, g, c);
      m := Stored(m, c);
      g := g';
    }

    /** The xchg that publishes a preempted task. Its slot is empty. */
    method PublishOut(c: nat)
      requires Valid() && c < cpus && m.plans[c].Some? && m.plans[c].value.phase.Publishing?
      modifies this
      ensures Valid() && g.early == old(g).early && m == HandedOver(old(m), c)
      ensures old(m).leaving[c].Some? ==> old(m).handoff[c].None? && m.handoff[c] == old(m).leaving[c]
    {
      HandOverKeeps(m, g, cpus, c);
      assert PlanOk(m, c);
      hide Inv;
      ghost var g' := HandedOverView(m, g, c);
      m := HandedOver(m, c);
      g := g';
    }

    /** The cmpxchg loop that acknowledges a zombie's stack in the first free slot. */
    method PublishRetired(c: nat)
      requires Valid() && c < cpus && m.plans[c].Some? && m.plans[c].value.phase.Retiring?
      modifies this
      ensures Valid() && g == old(g)
      ensures m == old(m).(plans := old(m).plans[c := None], retired := m.retired)
      ensures old(m).plans[c].value.retire != 0 && 0 in old(m).retired ==> old(m).plans[c].value.retire in m.retired
      ensures old(m).plans[c].value.retire == 0 || 0 !in old(m).retired ==> m.retired == old(m).retired
    {
      var slot := FindSlot(0);
      AcknowledgeKeeps(m, g, cpus, c, if slot.Some? then slot.value else |m.retired|);
      hide Inv;
      m := Acknowledged(m, c, if slot.Some? then slot.value else |m.retired|);
      assert slot.Some? && old(m).plans[c].value.retire != 0 ==> m.retired[slot.value] == old(m).plans[c].value.retire;
    }

    // ---- Waiting for a task -----------------------------------------------------------------------------

    /** The first lock section of wait_task. */
    method WaitTask(c: nat, id: nat) returns (r: WaitResult)
      requires Valid() && Free(c) && (m.current[c].Some? ==> m.tasks[Current(c)].status.Running?)
      modifies this
      ensures Valid() && g == old(g)
      ensures r.Over? <==> exists i | 0 <= i < |m.tasks| :: m.tasks[i].id == id && m.tasks[i].status.Zombie?
      ensures r.Over? ==>
                exists i | 0 <= i < |m.tasks| ::
                  m.tasks[i].id == id && m.tasks[i].status.Zombie? && m.tasks[i].exitCode == r.code
      ensures r.MustSwitch? <==> old(m).current[c].Some? && Joins(old(m), old(m).current[c].value, id)
      ensures r.MustSwitch? ==>
                m.current[c].Some? &&
                var j := m.current[c].value;
                && j < |old(m).tasks|
                && var t := old(m).tasks[j].(status := Waiting, waitingFor := Exited(id));
                   m == old(m).(tasks := old(m).tasks[j := t])
      ensures !r.MustSwitch? ==> m == old(m)
    {
      assert |m.current| == cpus;
      var target := FindTask(id);
      if target.None? {
        return NoSuchTask;
      }
      var i := target.value;
      UniqueId(m.tasks, m.nextId, i);
      if m.tasks[i].status.Zombie? {
        return Over(m.tasks[i].exitCode);
      }
      if m.current[c].None? || m.current[c].value == i {
        return NoSuchTask;
      }
      var j := Current(c);
      Mark(j, m.tasks[j].(status := Waiting, waitingFor := Exited(id)));
      return MustSwitch;
    }

    method FindTask(id: nat) returns (r: Option<nat>)
      ensures r.Some? ==> r.value < |m.tasks| && m.tasks[r.value].id == id
      ensures r.None? ==> forall i | 0 <= i < |m.tasks| :: m.tasks[i].id != id
    {
      for i := 0 to |m.tasks|
        invariant forall j | 0 <= j < i :: m.tasks[j].id != id
      {
        if m.tasks[i].id == id {
          return Some(i);
        }
      }
      return None;
    }

    /** terminate_task. It keeps the invariant exactly if every task that waits for this exit has left its CPU. */
    method Terminate(c: nat, code: nat)
      requires Valid() && Free(c) && m.current[c].Some?
      modifies this
      ensures m == old(m).(tasks := m.tasks, queues := m.queues) && |m.tasks| == |old(m).tasks|
      ensures var j := old(Current(c));
              && m.tasks[j] == old(m).tasks[j].(status := Zombie, exitCode := code)
              && forall i | 0 <= i < |m.tasks| && i != j ::
                   if WaitsFor(old(m).tasks[i], Exited(old(m).tasks[j].id)) then m.tasks[i].status.Ready?
                   else m.tasks[i] == old(m).tasks[i]
      ensures var j := old(Current(c));
              Joined(old(m), m, WaitingFor(old(m).tasks, Exited(old(m).tasks[j].id)) - {j}, |m.tasks|)
      ensures (exists g' :: Inv(m, g', cpus, None)) <==> NoneWaits(old(m).current, old(m).tasks, old(Current(c)))
      ensures NoneWaits(old(m).current, old(m).tasks, old(Current(c))) ==>
                && Valid() && g == old(g).(place := g.place)
                && forall i | 0 <= i < |m.tasks| && i != old(Current(c)) && m.tasks[i].status.Ready? ::
                     Resumable(m, g, i)
    {
      assert |m.current| == cpus;
      var j := Current(c);
      var t := m.tasks[j].(status := Zombie, exitCode := code);
      CurrentPlace(m, g, cpus, j);
      MarkKeeps(m, g, cpus, j, t);
      ExitWaiters(m, j, t);
      ExitBatch(m, j, t);
      m := m.(tasks := m.tasks[j := t]);
      ghost var m1 := m;
      WakeWaiters(j);
      ExitJoined(old(m), m1, m, WaitingFor(m1.tasks, Exited(t.id)));
    }

    /** The waiter loop of terminate_task. */
    method WakeWaiters(j: nat)
      requires j < |m.tasks| && Core(m, g, cpus, None) && Waiters(m.tasks, j, 0) && m.tasks[j].status.Zombie?
      modifies this
      ensures m == old(m).(tasks := m.tasks, queues := m.queues) && |m.tasks| == |old(m).tasks|
      ensures forall k | 0 <= k < |m.tasks| ::
                if WaitsFor(old(m).tasks[k], Exited(old(m).tasks[j].id)) then m.tasks[k].status.Ready?
                else m.tasks[k] == old(m).tasks[k]
      ensures Joined(old(m), m, WaitingFor(old(m).tasks, Exited(old(m).tasks[j].id)), |m.tasks|)
      ensures (exists g' :: Inv(m, g', cpus, None)) <==> NoneWaits(old(m).current, old(m).tasks, j)
      ensures NoneWaits(old(m).current, old(m).tasks, j) ==>
                && Valid() && g == old(g).(place := g.place)
                && forall k | 0 <= k < |m.tasks| && m.tasks[k].status.Ready? :: Resumable(m, g, k)
    {
      CoreHomes(m, g, cpus);
      hide Core, Resumable, NoneWaits, WaitersUpTo, Joined, Waiters, Homed;
      ghost var safe := NoneWaits(m.current, m.tasks, j);
      WaitersStart(m, j);
      for i := 0 to |m.tasks|
        invariant safe ==> Core(m, g, cpus, None) && g == old(g).(place := g.place)
        invariant m == old(m).(tasks := m.tasks, queues := m.queues) && |m.tasks| == |old(m).tasks|
        invariant WaitersUpTo(old(m), m, j, i)
      {
        WakeNextWaiter(i, j, old(m), safe);
      }
      WaitersDone(old(m), m, j);
      if safe {
        NoMoreWaiters(m.tasks, j);
        AllResume(m, g, cpus);
        assert Inv(m, g, cpus, None);
      } else {
        WaiterTwice(old(m), m, cpus, j);
      }
    }

    /** One turn of the waiter loop, which began with machine `m0`. */
    method WakeNextWaiter(i: nat, j: nat, ghost m0: Machine, ghost safe: bool)
      requires i < |m.tasks| && j < |m0.tasks| && WaitersUpTo(m0, m, j, i) && m.current == m0.current
      requires safe ==> Core(m, g, cpus, None) && NoneWaits(m0.current, m0.tasks, j)
      modifies this
      ensures |m.tasks| == |old(m).tasks| && m == old(m).(tasks := m.tasks, queues := m.queues)
      ensures WaitersUpTo(m0, m, j, i + 1)
      ensures safe ==> Core(m, g, cpus, None) && g == old(g).(place := g.place)
    {
      WaitersUntouched(m0, m, j, i);
      hide Core, NoneWaits, WaitersUpTo;
      if WaitsFor(m.tasks[i], Exited(m.tasks[j].id)) {
        if safe {
          WaiterOff(m.current, m0.tasks, j, i);
          CoreOffCpu(m, g, cpus, i);
        }
        WakeWaiter(i);
      }
      WaitersNext(m0, old(m), m, j, i);
    }

    method WakeWaiter(i: nat)
      requires i < |m.tasks| && m.tasks[i].status.Waiting? && Homed(m)
      modifies this
      ensures old(Core(m, g, cpus, None) && Off(m, g, i)) ==> Core(m, g, cpus, None) && g == old(g).(place := g.place)
      ensures m == Readied(old(m), i, old(m).tasks[i].(status := Ready, waitingFor := Nobody))
    {
      var u := m.tasks[i].(status := Ready, waitingFor := Nobody);
      ghost var g' := g;
      if Core(m, g, cpus, None) && Off(m, g, i) {
        ReadyKeeps(m, g, cpus, None, i, u);
        g' := ReadiedView(m, g, i, u);
      }
      hide Core;
      m := Readied(m, i, u);
      g := g';
    }

    /** wake_sleeping_tasks_locked. It keeps the invariant exactly if every task that is due has left its CPU. */
    method WakeSleepers(now: nat)
      requires Valid()
      modifies this
      ensures m == old(m).(tasks := m.tasks, queues := m.queues) && |m.tasks| == |old(m).tasks|
      ensures forall i | 0 <= i < |m.tasks| :: !Due(m.tasks[i], now)
      ensures forall i | 0 <= i < |m.tasks| ::
                m.tasks[i] == if Due(old(m).tasks[i], now) then Roused(old(m).tasks[i])
                              else old(m).tasks[i]
      ensures Joined(old(m), m, DueTasks(old(m).tasks, now), |m.tasks|)
      ensures |m.queues| == cpus && forall c | 0 <= c < cpus :: old(m).queues[c] <= m.queues[c]
      ensures (exists g' :: Inv(m, g', cpus, None)) <==> NoneDue(old(m).current, old(m).tasks, now)
      ensures NoneDue(old(m).current, old(m).tasks, now) ==>
                && Valid() && g == old(g).(place := g.place)
                && forall i | 0 <= i < |m.tasks| && Due(old(m).tasks[i], now) :: Resumable(m, g, i)
    {
      Sizes(m, g, cpus, None);
      Homes(m, g, cpus);
      hide Inv, NoneDue, SleepersUpTo, Due, Resumable, Joined;
      SleepersStart(m, now);
      ghost var safe := NoneDue(m.current, m.tasks, now);
      for i := 0 to |m.tasks|
        invariant safe ==> Valid() && g == old(g).(place := g.place)
        invariant m == old(m).(tasks := m.tasks, queues := m.queues) && |m.tasks| == |old(m).tasks|
        invariant SleepersUpTo(old(m), m, now, i)
      {
        WakeNextSleeper(i, now, old(m), safe);
      }
      SleepersDone(old(m), m, now);
      if safe {
        AllResume(m, g, cpus);
      } else {
        SleeperTwice(old(m), m, cpus, now);
      }
    }

    /** One turn of wake_sleeping_tasks_locked, which began with machine `m0`. */
    method WakeNextSleeper(i: nat, now: nat, ghost m0: Machine, ghost safe: bool)
      requires i < |m.tasks| && SleepersUpTo(m0, m, now, i) && m.current == m0.current
      requires safe ==> Valid() && NoneDue(m0.current, m0.tasks, now)
      modifies this
      ensures |m.tasks| == |old(m).tasks| && m == old(m).(tasks := m.tasks, queues := m.queues)
      ensures SleepersUpTo(m0, m, now, i + 1)
      ensures safe ==> Valid() && g == old(g).(place := g.place)
    {
      Untouched(m0, m, now, i);
      hide Inv, NoneDue, SleepersUpTo, Resumable;
      if Due(m.tasks[i], now) {
        if safe {
          DueOff(m.current, m0.tasks, now, i);
          OffCpu(m, g, cpus, i);
        }
        WakeTask(i, 0);
      }
      SleepersNext(m0, old(m), m, now, i);
    }

    /** A blocked task goes back to the queue of its own CPU, which keeps the invariant if the task has left its CPU. */
    method WakeTask(i: nat, wakeTick: nat)
      requires i < |m.tasks| && m.tasks[i].affinity < |m.queues|
      modifies this
      ensures m == Readied(old(m), i, old(m).tasks[i].(status := Ready, waitingFor := Nobody, wakeTick := wakeTick))
      ensures old(Valid() && Off(m, g, i)) ==> Valid() && g == old(g).(place := g.place) && Resumable(m, g, i)
      ensures !old(Valid() && Off(m, g, i)) ==> g == old(g)
    {
      var t := m.tasks[i].(status := Ready, waitingFor := Nobody, wakeTick := wakeTick);
      ghost var g' := g;
      if Valid() && Off(m, g, i) {
        ReadyKeeps(m, g, cpus, None, i, t);
        NoNewOrphans(m.tasks, Readied(m, i, t).tasks);
        g' := ReadiedView(m, g, i, t);
        ReadyResumes(Readied(m, i, t), g', cpus, i);
      }
      hide Inv, SavingFrom, Core;
      m := Readied(m, i, t);
      g := g';
    }

    /** wake_waiters: every task waiting for the event runs again, in place if it has not left its CPU yet. */
    method WakeEvent(key: nat)
      requires Valid()
      modifies this
      ensures Valid() && g == old(g).(place := g.place)
      ensures m == old(m).(tasks := m.tasks, queues := m.queues) && |m.tasks| == |old(m).tasks|
      ensures forall i | 0 <= i < |m.tasks| :: m.tasks[i] == Woken(old(m), key, i)
      ensures Joined(old(m), m, ToQueue(old(m), key), |m.tasks|)
      ensures forall i | 0 <= i < |m.tasks| && m.tasks[i].status.Ready? :: Resumable(m, g, i)
    {
      hide Inv, Resumable, Joined;
      JoinedStart(m, ToQueue(m, key));
      for i := 0 to |m.tasks|
        invariant Valid() && g == old(g).(place := g.place)
        invariant m == old(m).(tasks := m.tasks, queues := m.queues) && |m.tasks| == |old(m).tasks|
        invariant forall j | i <= j < |m.tasks| :: m.tasks[j] == old(m).tasks[j]
        invariant forall j | 0 <= j < i :: m.tasks[j] == Woken(old(m), key, j)
        invariant Joined(old(m), m, ToQueue(old(m), key), i)
      {
        ghost var was := m;
        if WaitsFor(m.tasks[i], Event(key)) {
          BlockedPlace(m, g, cpus, i);
          if OnSomeCpu(m.current, i) {
            Mark(i, m.tasks[i].(status := Running, waitingFor := Nobody, wakeTick := 0));
          } else {
            Homes(m, g, cpus);
            WakeTask(i, 0);
          }
        }
        JoinedNext(old(m), was, m, ToQueue(old(m), key), i);
      }
      AllResume(m, g, cpus);
    }

    /** A current task's own status changes. */
    method Mark(j: nat, t: Task)
      requires Valid() && j < |m.tasks| && OnSomeCpu(m.current, j) && !m.tasks[j].status.Zombie?
      requires t == m.tasks[j].(status := t.status, waitingFor := t.waitingFor, wakeTick := t.wakeTick)
      requires t.status.Running? || t.status.Waiting? || t.status.Sleeping?
      requires t.status.Waiting? && t.waitingFor.Exited? ==>
                 forall i | 0 <= i < |m.tasks| && m.tasks[i].id == t.waitingFor.id :: !m.tasks[i].status.Zombie?
      modifies this
      ensures Valid() && m == old(m).(tasks := old(m).tasks[j := t]) && g == old(g)
    {
      CurrentPlace(m, g, cpus, j);
      MarkKeeps(m, g, cpus, j, t);
      MarkOrphans(m.tasks, m.tasks[j := t], j);
      hide Inv;
      m := m.(tasks := m.tasks[j := t]);
      assert NoOrphans(m.tasks);
    }

    /** The marking section of wait_current_until, after the generation has been found unchanged. */
    method MarkWaiting(c: nat, key: nat, deadline: nat)
      requires Valid() && Free(c) && m.current[c].Some? && m.tasks[Current(c)].status.Running?
      modifies this
      ensures Valid() && g == old(g)
      ensures var j := Current(c);
              var t := old(m).tasks[j].(status := Waiting, waitingFor := Event(key), wakeTick := deadline);
              m == old(m).(tasks := old(m).tasks[j := t])
    {
      var j := Current(c);
      Mark(j, m.tasks[j].(status := Waiting, waitingFor := Event(key), wakeTick := deadline));
    }

    /** The marking section of sleep_current. */
    method MarkSleeping(c: nat, deadline: nat)
      requires Valid() && Free(c) && m.current[c].Some? && m.tasks[Current(c)].status.Running?
      modifies this
      ensures Valid() && g == old(g)
      ensures var j := Current(c);
              var t := old(m).tasks[j].(status := Sleeping, wakeTick := deadline);
              m == old(m).(tasks := old(m).tasks[j := t])
    {
      var j := Current(c);
      Mark(j, m.tasks[j].(status := Sleeping, wakeTick := deadline));
    }

    /** The task a CPU publishes as current. */
    function Current(c: nat): (j: nat)
      requires Valid() && c < cpus && m.current[c].Some?
      reads this
      ensures j < |m.tasks| && OnSomeCpu(m.current, j)
    {
      CurrentAt(m, g, cpus, None, c);
      m.current[c].value
    }

    /** Any interleaving of scheduler sections and switch publications on any number of CPUs, up to the first step whose
        wakeup would find its task still current; `trace` is what the machine went through. A step whose caller could
        not be there does nothing. */
    method Run(steps: seq<Step>) returns (ok: bool, done: nat, ghost trace: seq<Machine>)
      requires Valid()
      modifies this
      ensures Valid() && |m.tasks| >= |old(m).tasks|
      ensures done <= |steps| && |trace| == done + 1 && trace[0] == old(m) && trace[done] == m
      ensures forall k | 0 <= k < done :: !Unsafe(trace[k], cpus, steps[k])
      ensures if ok then done == |steps| else done < |steps| && Unsafe(m, cpus, steps[done])
      ensures forall i | i in g.early && i !in old(g).early ::
                exists k | 0 <= k < done :: TakesEarly(trace[k], trace[k + 1], i)
      ensures Settled(old(m)) && (forall k | 0 <= k < |steps| :: Merged(steps[k])) ==> ok && Settled(m)
      ensures Prompt(steps) && (forall c :: !Saver(old(m), c)) ==> g.early <= old(g).early
    {
      hide Inv, Stepped, Unsafe, TakesEarly, Settled, Saver, Merged;
      done := 0;
      trace := [m];
      while done < |steps|
        invariant done <= |steps| && |trace| == done + 1 && trace[0] == old(m) && trace[done] == m
        invariant Valid() && |m.tasks| >= |old(m).tasks|
        invariant forall k | 0 <= k < done :: !Unsafe(trace[k], cpus, steps[k])
        invariant forall i | i in g.early && i !in old(g).early ::
                  exists k | 0 <= k < done :: TakesEarly(trace[k], trace[k + 1], i)
        invariant Settled(old(m)) && (forall k | 0 <= k < |steps| :: Merged(steps[k])) ==> Settled(m)
        invariant Prompt(steps) && (forall c :: !Saver(old(m), c)) ==>
                  g.early <= old(g).early && SaverJustLeft(m, steps, done)
      {
        ghost var m0, g0 := m, g;
        if Settled(m) && Merged(steps[done]) {
          SettledSafe(m, cpus, steps[done]);
        }
        ok := Do(steps[done]);
        if !ok {
          return;
        }
        StepDone(m0, g0, m, g, steps, done);
        trace := trace + [m];
        done := done + 1;
      }
      return true, done, trace;
    }

    /** One step, unless its wakeup would find its task still current. */
    method Do(step: Step) returns (ok: bool)
      requires Valid()
      modifies this
      ensures Valid() && Stepped(old(m), old(g), m, g, step)
      ensures ok <==> !Unsafe(old(m), cpus, step)
      ensures !ok ==> m == old(m) && g == old(g)
    {
      Sizes(m, g, cpus, None);
      ok := !Unsafe(m, cpus, step);
      hide Inv, Stepped;
      if !ok {
        StayStepped(m, g, step);
      } else {
        match step
        case Add(stack, online) => Create(stack, online);
        case Switch(c, now, online) => Yield(c, now, online);
        case Publish(c) => Publish(c);
        case Wake(key) => Notify(key);
        case Call(c, call) => Call(c, call);
        case Block(c, call, now, online) => Block(c, call, now, online);
        case Exit(c, code) => Leave(c, code);
      }
    }

    method Create(stack: nat, online: nat)
      requires Valid()
      modifies this
      ensures Valid() && Stepped(old(m), old(g), m, g, Add(stack, online))
    {
      Sizes(m, g, cpus, None);
      InRange(m, g, cpus, None);
      if stack != 0 && 0 < online <= cpus && (forall i | 0 <= i < |m.tasks| :: m.tasks[i].stack != stack) {
        assert stack !in g.owner;
        hide Inv;
        var _ := AddTask(stack, online);
      }
    }

    method Yield(c: nat, now: nat, online: nat)
      requires Valid() && !Unsafe(m, cpus, Switch(c, now, online))
      modifies this
      ensures Valid() && Stepped(old(m), old(g), m, g, Switch(c, now, online))
    {
      Sizes(m, g, cpus, None);
      hide Inv, NoneDue, Switches;
      if Free(c) && online <= cpus {
        SwitchTask(c, now, online);
        SettledElsewhere(old(m), m, c);
        SwitchStepped(old(m), old(g), m, g, c, Switch(c, now, online));
      }
    }

    method Notify(key: nat)
      requires Valid()
      modifies this
      ensures Valid() && Stepped(old(m), old(g), m, g, Wake(key))
    {
      InRange(m, g, cpus, None);
      hide Inv;
      WakeEvent(key);
    }

    method Leave(c: nat, code: nat)
      requires Valid() && !Unsafe(m, cpus, Exit(c, code))
      modifies this
      ensures Valid() && Stepped(old(m), old(g), m, g, Exit(c, code))
    {
      Sizes(m, g, cpus, None);
      InRange(m, g, cpus, None);
      if Calls(m, c) {
        hide Inv, SavingFrom;
        Terminate(c, code);
      }
    }

    /** A blocking call whose mark and switch nothing comes between. */
    method Block(c: nat, call: Blocking, now: nat, online: nat)
      requires Valid() && !Unsafe(m, cpus, Step.Block(c, call, now, online))
      modifies this
      ensures Valid() && Stepped(old(m), old(g), m, g, Step.Block(c, call, now, online))
    {
      Sizes(m, g, cpus, None);
      hide Inv, NoneDue, Joins, Marked;
      if online <= cpus && Blocks(m, c, call) {
        MarkAndSwitch(c, call, now, online);
      }
    }

    method MarkAndSwitch(c: nat, call: Blocking, now: nat, online: nat)
      requires Valid() && online <= cpus && Blocks(m, c, call)
      requires (c == 0 ==> NoneDue(m.current, Marked(m, c, call).tasks, now))
      modifies this
      ensures Valid() && Stepped(old(m), old(g), m, g, Step.Block(c, call, now, online))
    {
      Sizes(m, g, cpus, None);
      MarkedElsewhere(m, g, cpus, c, call);
      MarkedSame(m, c, call);
      hide Inv, NoneDue, Blocks, Elsewhere, Switches, SwitchedEarly, Fresh, StillRuns, Marked, Stepped;
      MarkCall(c, call);
      ghost var m1 := m;
      SwitchTask(c, now, online);
      BlockedLeaves(old(m), m1, m, c, call);
      SameEarly(old(m), old(g), m1, old(g), c, m.current[c]);
      SwitchStepped(old(m), old(g), m, g, c, Step.Block(c, call, now, online));
    }

    /** The next publication of a CPU's context switch. */
    method Publish(c: nat)
      requires Valid()
      modifies this
      ensures Valid() && Stepped(old(m), old(g), m, g, Step.Publish(c))
    {
      Sizes(m, g, cpus, None);
      hide Inv;
      if c < cpus && m.plans[c].Some? {
        match m.plans[c].value.phase
        case Saving => SaveStack(c);
        case Publishing => PublishOut(c);
        case Retiring => PublishRetired(c);
      }
    }

    /** The marking section of a blocking call of the running task. */
    method Call(c: nat, call: Blocking)
      requires Valid()
      modifies this
      ensures Valid() && Stepped(old(m), old(g), m, g, Step.Call(c, call))
    {
      Sizes(m, g, cpus, None);
      hide Inv;
      MarkCall(c, call);
    }

    method MarkCall(c: nat, call: Blocking)
      requires Valid()
      modifies this
      ensures Valid() && g == old(g) && m == Marked(old(m), c, call)
    {
      Sizes(m, g, cpus, None);
      hide Inv, Joins;
      if Calls(m, c) {
        match call
        case Sleep(deadline) => MarkSleeping(c, deadline);
        case Await(key, deadline) => MarkWaiting(c, key, deadline);
        case Join(id) => var _ := WaitTask(c, id);
      }
    }
  }

  // ---- Runs -----------------------------------------------------------------------------------------

  datatype Blocking = Sleep(deadline: nat) | Await(key: nat, deadline: nat) | Join(id: nat)

  datatype Step =
    | Add(stack: nat, online: nat)
    | Switch(c: nat, now: nat, online: nat)
    | Publish(c: nat)
    | Wake(key: nat)
    | Call(c: nat, call: Blocking)
    | Block(c: nat, call: Blocking, now: nat, online: nat)
    | Exit(c: nat, code: nat)

  /** The CPU is in no context switch and its task runs. */
  predicate Calls(m: Machine, c: nat) {
    && c < |m.plans| && c < |m.current| && m.plans[c].None? && m.current[c].Some? && m.current[c].value < |m.tasks|
    && m.tasks[m.current[c].value].status.Running?
  }

  /** There is another task of that identifier, and it has not exited. */
  predicate Joins(m: Machine, j: nat, id: nat) {
    exists i | 0 <= i < |m.tasks| :: m.tasks[i].id == id && i != j && !m.tasks[i].status.Zombie?
  }

  predicate Blocks(m: Machine, c: nat, call: Blocking) {
    Calls(m, c) && (call.Join? ==> Joins(m, m.current[c].value, call.id))
  }

  function Asked(t: Task, call: Blocking): Task {
    match call
    case Sleep(deadline) => t.(status := Sleeping, wakeTick := deadline)
    case Await(key, deadline) => t.(status := Waiting, waitingFor := Event(key), wakeTick := deadline)
    case Join(id) => t.(status := Waiting, waitingFor := Exited(id))
  }

  /** What the marking section of a blocking call leaves. */
  function Marked(m: Machine, c: nat, call: Blocking): Machine {
    if Blocks(m, c, call) then var j := m.current[c].value; m.(tasks := m.tasks[j := Asked(m.tasks[j], call)]) else m
  }

  /** The step would wake a task that is still current. */
  predicate Unsafe(m: Machine, cpus: nat, step: Step) {
    match step
    case Switch(c, now, online) =>
      c == 0 < |m.plans| && m.plans[0].None? && online <= cpus && !NoneDue(m.current, m.tasks, now)
    case Block(c, call, now, online) =>
      c == 0 && online <= cpus && Blocks(m, 0, call) && !NoneDue(m.current, Marked(m, 0, call).tasks, now)
    case Exit(c, _) => Calls(m, c) && !NoneWaits(m.current, m.tasks, m.current[c].value)
    case _ => false
  }

  /** Sleeps, deadlines and joins are marked and switched in one step, and none is due already. */
  predicate Merged(step: Step) {
    match step
    case Call(_, call) => call.Await? && call.deadline == 0
    case Block(c, call, now, _) => c == 0 && !call.Join? ==> now < call.deadline || (call.Await? && call.deadline == 0)
    case _ => true
  }

  predicate CalmTask(t: Task) {
    t.status.Zombie? || ((t.status.Running? || (t.status.Waiting? && t.waitingFor.Event?)) && t.wakeTick == 0)
  }

  /** No current task sleeps, has a deadline or waits for an exit. */
  predicate Settled(m: Machine) {
    forall d | 0 <= d < |m.current| && m.current[d].Some? && m.current[d].value < |m.tasks| ::
      CalmTask(m.tasks[m.current[d].value])
  }

  ghost predicate Saver(m: Machine, c: int) { 0 <= c < |m.plans| && m.plans[c].Some? && m.plans[c].value.phase.Saving? }

  /** The task runs after the step, and before it a CPU was still on its way off its stack. */
  ghost predicate TakesEarly(m: Machine, m': Machine, i: nat) { OnSomeCpu(m'.current, i) && SavingFrom(m.plans, i) }

  predicate Enters(step: Step) { step.Switch? || step.Block? }

  /** A CPU that enters the scheduler stores the outgoing stack pointer before anybody else does anything. */
  predicate Prompt(steps: seq<Step>) {
    forall k | 0 <= k < |steps| - 1 && Enters(steps[k]) :: steps[k + 1] == Publish(steps[k].c)
  }

  ghost predicate SaverJustLeft(m: Machine, steps: seq<Step>, n: nat)
    requires n <= |steps|
  {
    forall c | Saver(m, c) :: n > 0 && Enters(steps[n - 1]) && steps[n - 1].c == c
  }

  ghost predicate Stepped(m: Machine, g: View, m': Machine, g': View, step: Step) {
    && |m'.tasks| >= |m.tasks|
    && (forall i | i in g'.early && i !in g.early :: TakesEarly(m, m', i) && Enters(step))
    && (Settled(m) && Merged(step) ==> Settled(m'))
    && (forall d | Saver(m', d) :: Saver(m, d) || (Enters(step) && step.c == d))
    && (step.Publish? ==> !Saver(m', step.c))
  }

  lemma StayStepped(m: Machine, g: View, step: Step)
    requires !step.Publish?
    ensures Stepped(m, g, m, g, step)
  {
  }

  lemma SettledSafe(m: Machine, cpus: nat, step: Step)
    requires Settled(m) && Merged(step)
    ensures !Unsafe(m, cpus, step)
  {
  }

  /** A CPU that switched or had no reason to leaves a settled machine settled. */
  lemma SettledElsewhere(m: Machine, m': Machine, c: nat)
    requires Elsewhere(m, m', c) && (Fresh(m', c) || StillRuns(m, m', c))
    ensures Settled(m) ==> Settled(m')
  {
  }

  lemma MarkedElsewhere(m: Machine, g: View, cpus: nat, c: nat, call: Blocking)
    requires Inv(m, g, cpus, None)
    ensures Blocks(m, c, call) ==> Elsewhere(m, Marked(m, c, call), c) && m.current[c].value < |m.tasks|
  {
    if Blocks(m, c, call) {
      forall d | 0 <= d < |m.current| && d != c
        ensures m.current[d] != m.current[c]
      {
        CurrentAt(m, g, cpus, None, c);
      }
    }
  }

  lemma MarkedSame(m: Machine, c: nat, call: Blocking)
    ensures Marked(m, c, call) == m.(tasks := Marked(m, c, call).tasks) && |Marked(m, c, call).tasks| == |m.tasks|
    ensures Blocks(m, c, call) ==> c < |m.plans| && m.plans[c].None?
  {
  }

  lemma BlockedLeaves(m: Machine, m1: Machine, m2: Machine, c: nat, call: Blocking)
    requires Blocks(m, c, call) && m1 == Marked(m, c, call) && Elsewhere(m, m1, c) && Elsewhere(m1, m2, c)
    requires c < |m2.plans| && (if m2.plans[c].Some? then Fresh(m2, c) else StillRuns(m1, m2, c))
    ensures Elsewhere(m, m2, c) && (Settled(m) ==> Settled(m2))
  {
  }

  lemma SwitchStepped(m: Machine, g: View, m': Machine, g': View, c: nat, step: Step)
    requires Elsewhere(m, m', c) && c < |m.current| && c < |m'.plans| && Enters(step) && step.c == c
    requires (Settled(m) ==> Settled(m'))
    requires g'.early == if m'.plans[c].Some? then SwitchedEarly(m, g, c, m'.current[c]) else g.early
    ensures Stepped(m, g, m', g', step)
  {
  }

  lemma StepDone(m: Machine, g: View, m': Machine, g': View, steps: seq<Step>, n: nat)
    requires n < |steps| && Stepped(m, g, m', g', steps[n])
    ensures |m'.tasks| >= |m.tasks| && (forall i | i in g'.early && i !in g.early :: TakesEarly(m, m', i))
    ensures Settled(m) && Merged(steps[n]) ==> Settled(m')
    ensures Prompt(steps) && SaverJustLeft(m, steps, n) ==> g'.early <= g.early && SaverJustLeft(m', steps, n + 1)
  {
    if Prompt(steps) && SaverJustLeft(m, steps, n) {
      if i :| i in g'.early && i !in g.early {
        var c :| SavingOn(m.plans, c, i);
        assert Saver(m, c);
      }
    }
  }

  datatype WaitResult = Over(code: nat) | MustSwitch | NoSuchTask

  /** The task's stack has been acknowledged as no longer in use. */
  predicate Acked(m: Machine, i: nat)
    requires i < |m.tasks|
  {
    m.tasks[i].stack != 0 && m.tasks[i].stack in m.retired
  }

  /** Acknowledgements name distinct zombies that are off every CPU. */
  lemma AckOwners(m: Machine, g: View, cpus: nat)
    requires Inv(m, g, cpus, None)
    ensures |m.retired| == RETIRED_SLOTS
    ensures forall s | 0 <= s < |m.retired| && m.retired[s] != 0 ::
              m.retired[s] in g.owner && g.owner[m.retired[s]] < |m.tasks| &&
              var i := g.owner[m.retired[s]];
              m.tasks[i].stack == m.retired[s] && m.tasks[i].status.Zombie? && !OnSomeCpu(m.current, i)
    ensures forall i | 0 <= i < |m.tasks| && m.tasks[i].stack != 0 ::
              m.tasks[i].stack in g.owner && g.owner[m.tasks[i].stack] == i
    ensures forall s, t | 0 <= s < t < |m.retired| && m.retired[s] != 0 :: m.retired[s] != m.retired[t]
    ensures 0 !in g.owner
  {
    forall s | 0 <= s < |m.retired| && m.retired[s] != 0
      ensures !OnSomeCpu(m.current, g.owner[m.retired[s]])
    {
      assert Dead(m, g, m.retired[s]);
      if OnSomeCpu(m.current, g.owner[m.retired[s]]) {
        CurrentPlace(m, g, cpus, g.owner[m.retired[s]]);
      }
    }
  }

  /** The reaper has dealt with the tasks below `i`. */
  ghost predicate ReapedUpTo(m0: Machine, owner: map<nat, nat>, m: Machine, i: nat) {
    && |m.tasks| == |m0.tasks| && |m.retired| == |m0.retired|
    && (forall s | 0 <= s < |m0.retired| && m0.retired[s] != 0 ::
           m0.retired[s] in owner && owner[m0.retired[s]] < |m0.tasks|)
    && (forall j | 0 <= j < |m.tasks| ::
           m.tasks[j] == if j < i && Acked(m0, j) then m0.tasks[j].(stack := 0) else m0.tasks[j])
    && (forall s | 0 <= s < |m.retired| ::
           m.retired[s] == if m0.retired[s] != 0 && owner[m0.retired[s]] < i then 0 else m0.retired[s])
    && (forall j | 0 <= j < |m0.tasks| && Acked(m0, j) :: m0.tasks[j].stack in owner && owner[m0.tasks[j].stack] == j)
    && (forall s, t | 0 <= s < t < |m0.retired| && m0.retired[s] != 0 :: m0.retired[s] != m0.retired[t])
    && (forall s | 0 <= s < |m0.retired| && m0.retired[s] != 0 ::
          var j := owner[m0.retired[s]]; m0.tasks[j].stack == m0.retired[s] && m0.tasks[j].status.Zombie?)
  }

  lemma ReapStart(m: Machine, g: View, cpus: nat)
    requires Inv(m, g, cpus, None)
    ensures ReapedUpTo(m, g.owner, m, 0) && |m.retired| == RETIRED_SLOTS
  {
    AckOwners(m, g, cpus);
  }

  lemma ReapTurn(m0: Machine, owner: map<nat, nat>, m: Machine, m': Machine, i: nat, a: nat)
    requires ReapedUpTo(m0, owner, m, i) && i < |m.tasks|
    requires if Acked(m, i)
             then a == m.tasks[i].stack
                  && exists slot: nat :: slot < |m.retired| && m.retired[slot] == a && m' == Reaped(m, i, slot)
             else a == 0 && m' == m
    ensures ReapedUpTo(m0, owner, m', i + 1) && (a != 0 ==> a in owner && a in m0.retired)
  {
    if Acked(m, i) {
      var slot: nat :| slot < |m.retired| && m.retired[slot] == a && m' == Reaped(m, i, slot);
      assert m0.retired[slot] == a && Acked(m0, i);
    } else {
      forall s | 0 <= s < |m0.retired| && m0.retired[s] != 0
        ensures owner[m0.retired[s]] != i
      {
        assert m.retired[s] == 0 || m.retired[s] == m0.retired[s];
      }
    }
  }

  lemma ReapedAll(m0: Machine, owner: map<nat, nat>, m: Machine)
    requires ReapedUpTo(m0, owner, m, |m.tasks|)
    ensures forall s | 0 <= s < |m.retired| :: m.retired[s] == 0
    ensures forall j | 0 <= j < |m.tasks| ::
              m.tasks[j] == if Acked(m0, j) then m0.tasks[j].(stack := 0) else m0.tasks[j]
  {
  }

  lemma UniqueId(tasks: seq<Task>, nextId: nat, i: nat)
    requires Ids(tasks, nextId) && i < |tasks|
    ensures forall k | 0 <= k < |tasks| && tasks[k].id == tasks[i].id :: k == i
  {
  }

  lemma CoreOffCpu(m: Machine, g: View, cpus: nat, i: nat)
    requires Core(m, g, cpus, None) && i < |m.tasks| && m.tasks[i].status.Waiting?
    requires forall c | 0 <= c < |m.current| :: m.current[c] != Some(i)
    ensures |g.place| == |m.tasks| && g.place[i].Parked?
  {
    assert Fits(m.tasks[i], g.place[i], cpus);
  }

  lemma NextWaiter(tasks: seq<Task>, j: nat, i: nat)
    requires Waiters(tasks, j, i) && i < |tasks| && j < |tasks| && !WaitsFor(tasks[i], Exited(tasks[j].id))
    ensures Waiters(tasks, j, i + 1)
  {
  }

  lemma NoMoreWaiters(tasks: seq<Task>, j: nat)
    requires Waiters(tasks, j, |tasks|)
    ensures NoOrphans(tasks)
  {
  }

  /** Every task whose deadline has passed has left its CPU. */
  predicate NoneDue(current: Slots, tasks: seq<Task>, now: nat) {
    forall c | 0 <= c < |current| && current[c].Some? && current[c].value < |tasks| ::
      !Due(tasks[current[c].value], now)
  }

  /** Every task waiting for this exit has left its CPU. */
  predicate NoneWaits(current: Slots, tasks: seq<Task>, j: nat)
    requires j < |tasks|
  {
    forall c | 0 <= c < |current| && current[c].Some? && current[c].value < |tasks| && current[c].value != j ::
      !WaitsFor(tasks[current[c].value], Exited(tasks[j].id))
  }

  lemma WaiterOff(current: Slots, tasks: seq<Task>, j: nat, i: nat)
    requires j < |tasks| && NoneWaits(current, tasks, j) && i < |tasks| && i != j
    requires WaitsFor(tasks[i], Exited(tasks[j].id))
    ensures forall c | 0 <= c < |current| :: current[c] != Some(i)
  {
  }

  /** The waiters below `i` have been woken and queued, and nothing else has changed. */
  ghost predicate WaitersUpTo(m0: Machine, m: Machine, j: nat, i: nat)
    requires j < |m0.tasks|
  {
    var key := Exited(m0.tasks[j].id);
    && |m.tasks| == |m0.tasks| && Homed(m) && Waiters(m.tasks, j, i) && Joined(m0, m, WaitingFor(m0.tasks, key), i)
    && m0.tasks[j].status.Zombie?
    && forall k | 0 <= k < |m.tasks| ::
         m.tasks[k] == if k < i && WaitsFor(m0.tasks[k], key) then m0.tasks[k].(status := Ready, waitingFor := Nobody)
                       else m0.tasks[k]
  }

  lemma WaitersStart(m: Machine, j: nat)
    requires j < |m.tasks| && Homed(m) && Waiters(m.tasks, j, 0) && m.tasks[j].status.Zombie?
    ensures WaitersUpTo(m, m, j, 0)
  {
    JoinedStart(m, WaitingFor(m.tasks, Exited(m.tasks[j].id)));
  }

  lemma WaitersUntouched(m0: Machine, m: Machine, j: nat, i: nat)
    requires j < |m0.tasks| && WaitersUpTo(m0, m, j, i) && i < |m.tasks|
    ensures |m.tasks| == |m0.tasks| && m.tasks[i] == m0.tasks[i] && m.tasks[j] == m0.tasks[j]
    ensures m.tasks[j].status.Zombie? && Homed(m)
  {
  }

  lemma WaitersNext(m0: Machine, m: Machine, m': Machine, j: nat, i: nat)
    requires j < |m0.tasks| == |m.tasks| && WaitersUpTo(m0, m, j, i) && i < |m.tasks|
    requires m.tasks[i].affinity < |m.queues|
    requires if WaitsFor(m.tasks[i], Exited(m.tasks[j].id))
             then m' == Readied(m, i, m.tasks[i].(status := Ready, waitingFor := Nobody))
             else m' == m
    ensures WaitersUpTo(m0, m', j, i + 1)
  {
    hide Joined;
    WaitersUntouched(m0, m, j, i);
    JoinedNext(m0, m, m', WaitingFor(m0.tasks, Exited(m0.tasks[j].id)), i);
    if m' != m {
      SameOrphans(m.tasks, m'.tasks, i);
    }
    NextWaiter(m'.tasks, j, i);
  }

  lemma WaitersDone(m0: Machine, m: Machine, j: nat)
    requires j < |m0.tasks| && WaitersUpTo(m0, m, j, |m.tasks|)
    ensures |m.tasks| == |m0.tasks| && Waiters(m.tasks, j, |m.tasks|)
    ensures Joined(m0, m, WaitingFor(m0.tasks, Exited(m0.tasks[j].id)), |m.tasks|)
    ensures forall k | 0 <= k < |m.tasks| ::
              if WaitsFor(m0.tasks[k], Exited(m0.tasks[j].id)) then m.tasks[k].status.Ready?
              else m.tasks[k] == m0.tasks[k]
  {
  }

  lemma WaiterTwice(m0: Machine, m: Machine, cpus: nat, j: nat)
    requires j < |m0.tasks| && WaitersUpTo(m0, m, j, |m.tasks|) && m.current == m0.current
    requires !NoneWaits(m0.current, m0.tasks, j)
    ensures !exists g :: Inv(m, g, cpus, None)
  {
    var c :| 0 <= c < |m.current| && m.current[c].Some? && m.current[c].value < |m0.tasks| &&
             WaitsFor(m0.tasks[m.current[c].value], Exited(m0.tasks[j].id));
    JoinedHas(m0, m, WaitingFor(m0.tasks, Exited(m0.tasks[j].id)), m.current[c].value);
    NoView(m, cpus, c, m.current[c].value);
  }

  lemma ExitBatch(m: Machine, j: nat, t: Task)
    requires j < |m.tasks| && t.id == m.tasks[j].id && t.status.Zombie?
    ensures WaitingFor(m.tasks[j := t], Exited(t.id)) == WaitingFor(m.tasks, Exited(t.id)) - {j}
  {
  }

  lemma ExitJoined(m0: Machine, m1: Machine, m: Machine, who: set<nat>)
    requires |m1.tasks| == |m0.tasks| && m1.queues == m0.queues && Joined(m1, m, who, |m1.tasks|)
    requires forall i | 0 <= i < |m0.tasks| :: m1.tasks[i].affinity == m0.tasks[i].affinity
    ensures Joined(m0, m, who, |m0.tasks|)
  {
    forall c | 0 <= c < |m.queues|
      ensures Batch(m1.tasks, who, c, |m1.tasks|) == Batch(m0.tasks, who, c, |m0.tasks|)
    {
      BatchSame(m0.tasks, m1.tasks, who, c, |m0.tasks|);
    }
  }

  /** The task has left its CPU and can be woken. */
  ghost predicate Off(m: Machine, g: View, i: nat) {
    i < |m.tasks| == |g.place| && g.place[i].Parked? && !m.tasks[i].status.Zombie?
  }

  /** Those of the first `n` tasks that are woken and belong to CPU `c`, in order. */
  ghost function Batch(tasks: seq<Task>, who: set<nat>, c: nat, n: nat): seq<nat>
    requires n <= |tasks|
  {
    if n == 0 then []
    else Batch(tasks, who, c, n - 1) + if n - 1 in who && tasks[n - 1].affinity == c then [n - 1] else []
  }

  /** Each queue has been extended by its share of the first `n` tasks, and no other queue entry has changed. */
  ghost predicate Joined(m0: Machine, m: Machine, who: set<nat>, n: nat) {
    && |m.queues| == |m0.queues| && n <= |m0.tasks|
    && forall c | 0 <= c < |m.queues| :: m.queues[c] == m0.queues[c] + Batch(m0.tasks, who, c, n)
  }

  lemma JoinedStart(m: Machine, who: set<nat>)
    ensures Joined(m, m, who, 0)
  {
  }

  lemma JoinedNext(m0: Machine, m: Machine, m': Machine, who: set<nat>, n: nat)
    requires Joined(m0, m, who, n) && n < |m0.tasks|
    requires var a := m0.tasks[n].affinity;
             if n in who then a < |m.queues| && m'.queues == m.queues[a := m.queues[a] + [n]] else m'.queues == m.queues
    ensures Joined(m0, m', who, n + 1)
  {
  }

  lemma {:induction false} BatchHas(tasks: seq<Task>, who: set<nat>, n: nat, i: nat)
    requires i < n <= |tasks| && i in who
    ensures i in Batch(tasks, who, tasks[i].affinity, n)
  {
    if i < n - 1 {
      BatchHas(tasks, who, n - 1, i);
    }
  }

  lemma {:induction false} BatchNone(tasks: seq<Task>, c: nat, n: nat)
    requires n <= |tasks|
    ensures Batch(tasks, {}, c, n) == []
  {
    if n > 0 {
      BatchNone(tasks, c, n - 1);
    }
  }

  lemma {:induction false} BatchSame(tasks: seq<Task>, tasks': seq<Task>, who: set<nat>, c: nat, n: nat)
    requires n <= |tasks| == |tasks'| && forall i | 0 <= i < |tasks| :: tasks'[i].affinity == tasks[i].affinity
    ensures Batch(tasks', who, c, n) == Batch(tasks, who, c, n)
  {
    if n > 0 {
      BatchSame(tasks, tasks', who, c, n - 1);
    }
  }

  lemma JoinedHas(m0: Machine, m: Machine, who: set<nat>, i: nat)
    requires Joined(m0, m, who, |m0.tasks|) && |m.tasks| == |m0.tasks| && i < |m.tasks| && i in who
    requires m.tasks[i].affinity == m0.tasks[i].affinity < |m.queues|
    ensures InQueue(m, i)
  {
    BatchHas(m0.tasks, who, |m0.tasks|, i);
  }

  ghost function DueTasks(tasks: seq<Task>, now: nat): set<nat> { set i | 0 <= i < |tasks| && Due(tasks[i], now) }

  ghost function WaitingFor(tasks: seq<Task>, key: Key): set<nat> {
    set i | 0 <= i < |tasks| && WaitsFor(tasks[i], key)
  }

  /** The task is an entry of its CPU's queue. */
  predicate InQueue(m: Machine, i: nat)
    requires i < |m.tasks|
  {
    m.tasks[i].affinity < |m.queues| && i in m.queues[m.tasks[i].affinity]
  }

  ghost predicate Homed(m: Machine) { forall i | 0 <= i < |m.tasks| :: m.tasks[i].affinity < |m.queues| }

  lemma Homes(m: Machine, g: View, cpus: nat)
    requires Inv(m, g, cpus, None)
    ensures Homed(m)
  {
    CoreHomes(m, g, cpus);
  }

  lemma CoreHomes(m: Machine, g: View, cpus: nat)
    requires Core(m, g, cpus, None)
    ensures Homed(m)
  {
    forall i | 0 <= i < |m.tasks|
      ensures m.tasks[i].affinity < |m.queues|
    {
      assert Fits(m.tasks[i], g.place[i], cpus);
    }
  }

  /** A machine that has a current task queued fits no view. */
  lemma NoView(m: Machine, cpus: nat, c: nat, i: nat)
    requires c < |m.current| && m.current[c] == Some(i) && i < |m.tasks| && InQueue(m, i)
    ensures !exists g :: Inv(m, g, cpus, None)
  {
    var v := m.tasks[i].affinity;
    var pos :| 0 <= pos < |m.queues[v]| && m.queues[v][pos] == i;
    forall g
      ensures !Inv(m, g, cpus, None)
    {
      TwoPlaces(m, g, cpus, c, v, pos);
    }
  }

  lemma SleeperTwice(m0: Machine, m: Machine, cpus: nat, now: nat)
    requires SleepersUpTo(m0, m, now, |m.tasks|) && m.current == m0.current && !NoneDue(m0.current, m0.tasks, now)
    ensures !exists g :: Inv(m, g, cpus, None)
  {
    var c :| 0 <= c < |m.current| && m.current[c].Some? && m.current[c].value < |m0.tasks| &&
             Due(m0.tasks[m.current[c].value], now);
    JoinedHas(m0, m, DueTasks(m0.tasks, now), m.current[c].value);
    NoView(m, cpus, c, m.current[c].value);
  }

  /** The sleepers below `i` that are due have been woken and queued, and nothing else has changed. */
  ghost predicate SleepersUpTo(m0: Machine, m: Machine, now: nat, i: nat) {
    && |m.tasks| == |m0.tasks| && Homed(m) && Joined(m0, m, DueTasks(m0.tasks, now), i)
    && forall j | 0 <= j < |m.tasks| ::
         m.tasks[j] == if j < i && Due(m0.tasks[j], now) then Roused(m0.tasks[j]) else m0.tasks[j]
  }

  lemma SleepersStart(m: Machine, now: nat)
    requires Homed(m)
    ensures SleepersUpTo(m, m, now, 0)
  {
  }

  lemma Untouched(m0: Machine, m: Machine, now: nat, i: nat)
    requires SleepersUpTo(m0, m, now, i) && i < |m.tasks|
    ensures |m0.tasks| == |m.tasks| && m.tasks[i] == m0.tasks[i] && m.tasks[i].affinity < |m.queues|
  {
  }

  lemma SleepersNext(m0: Machine, m: Machine, m': Machine, now: nat, i: nat)
    requires SleepersUpTo(m0, m, now, i) && i < |m.tasks|
    requires if Due(m.tasks[i], now)
             then m' == Readied(m, i, Roused(m.tasks[i])) else m' == m
    ensures SleepersUpTo(m0, m', now, i + 1)
  {
    JoinedNext(m0, m, m', DueTasks(m0.tasks, now), i);
  }

  lemma SleepersDone(m0: Machine, m: Machine, now: nat)
    requires SleepersUpTo(m0, m, now, |m.tasks|)
    ensures |m.tasks| == |m0.tasks| && Joined(m0, m, DueTasks(m0.tasks, now), |m0.tasks|)
    ensures forall i | 0 <= i < |m.tasks| :: !Due(m.tasks[i], now)
    ensures forall i | 0 <= i < |m.tasks| ::
              m.tasks[i] == if Due(m0.tasks[i], now) then Roused(m0.tasks[i]) else m0.tasks[i]
    ensures forall c | 0 <= c < |m.queues| :: m0.queues[c] <= m.queues[c]
  {
  }

  lemma DueOff(current: Slots, tasks: seq<Task>, now: nat, i: nat)
    requires NoneDue(current, tasks, now) && i < |tasks| && Due(tasks[i], now)
    ensures forall c | 0 <= c < |current| :: current[c] != Some(i)
  {
  }

  predicate WaitsFor(t: Task, key: Key) { t.status.Waiting? && t.waitingFor == key }

  /** What a wakeup of event `key` makes of task `i`: it runs on if it has not left its CPU, else it is Ready. */
  function Woken(m: Machine, key: nat, i: nat): Task
    requires i < |m.tasks|
  {
    if !WaitsFor(m.tasks[i], Event(key)) then m.tasks[i]
    else m.tasks[i].(status := if OnSomeCpu(m.current, i) then Running else Ready, waitingFor := Nobody, wakeTick := 0)
  }

  /** The tasks that a wakeup of event `key` queues. */
  ghost function ToQueue(m: Machine, key: nat): set<nat> {
    set i | 0 <= i < |m.tasks| && WaitsFor(m.tasks[i], Event(key)) && !OnSomeCpu(m.current, i)
  }

  predicate OnSomeCpu(current: Slots, i: nat) { exists c | 0 <= c < |current| :: current[c] == Some(i) }

  lemma OffCpu(m: Machine, g: View, cpus: nat, i: nat)
    requires Inv(m, g, cpus, None) && i < |m.tasks| && (m.tasks[i].status.Waiting? || m.tasks[i].status.Sleeping?)
    requires forall c | 0 <= c < |m.current| :: m.current[c] != Some(i)
    ensures |g.place| == |m.tasks| && g.place[i].Parked?
  {
    assert Fits(m.tasks[i], g.place[i], cpus);
  }

  lemma BlockedPlace(m: Machine, g: View, cpus: nat, i: nat)
    requires Inv(m, g, cpus, None) && i < |m.tasks| && (m.tasks[i].status.Waiting? || m.tasks[i].status.Sleeping?)
    ensures |g.place| == |m.tasks| && if OnSomeCpu(m.current, i) then g.place[i].At? && g.place[i].kind.OnCpu?
                                      else g.place[i].Parked?
  {
    assert Fits(m.tasks[i], g.place[i], cpus);
  }

  lemma CurrentPlace(m: Machine, g: View, cpus: nat, i: nat)
    requires Inv(m, g, cpus, None) && OnSomeCpu(m.current, i)
    ensures i < |m.tasks| == |g.place| && g.place[i].At? && g.place[i].kind.OnCpu?
  {
    var c :| 0 <= c < |m.current| && m.current[c] == Some(i);
    CurrentAt(m, g, cpus, None, c);
  }

  lemma NoNewOrphans(tasks: seq<Task>, tasks': seq<Task>)
    requires NoOrphans(tasks) && forall a, b :: Orphan(tasks', a, b) ==> Orphan(tasks, a, b)
    ensures NoOrphans(tasks')
  {
  }

  lemma MarkOrphans(tasks: seq<Task>, tasks': seq<Task>, j: nat)
    requires NoOrphans(tasks) && j < |tasks| == |tasks'| && tasks' == tasks[j := tasks'[j]]
    requires tasks'[j].id == tasks[j].id
    requires !tasks'[j].status.Zombie?
    requires tasks'[j].status.Waiting? && tasks'[j].waitingFor.Exited? ==>
               forall i | 0 <= i < |tasks| && tasks[i].id == tasks'[j].waitingFor.id :: !tasks[i].status.Zombie?
    ensures NoOrphans(tasks')
  {
    forall a, b
      ensures !Orphan(tasks', a, b)
    {
      assert !Orphan(tasks, a, b);
    }
  }

  lemma Sizes(m: Machine, g: View, cpus: nat, claim: Option<nat>)
    requires Inv(m, g, cpus, claim)
    ensures |m.queues| == |m.current| == |m.leaving| == |m.handoff| == |m.plans| == |m.idle| == cpus
    ensures |m.tasks| == |g.place|
  {
  }

  /** One CPU's current task gives way to the task it has claimed. */
  lemma SwitchKeeps(m: Machine, g: View, cpus: nat, c: nat, i: nat)
    requires Inv(m, g, cpus, Some(i)) && c < cpus && i < |m.tasks| && m.plans[c].None? && m.handoff[c].None?
    requires m.tasks[i].pinned.Some? ==> m.tasks[i].pinned.value == c
    ensures m.current[c].Some? ==> m.current[c].value < |m.tasks| == |g.place|
    ensures var m', g' := Vacated(m, c), VacatedView(m, g, c);
            && |m'.tasks| == |m.tasks| == |g'.place| && c < |m'.current| && m'.handoff == m.handoff
            && g'.early == LeftEarly(m, g, c)
            && (i !in g.early ==> i in g.saved) && m'.plans[c].Some? && m'.plans[c].value.from == m.current[c]
            && m'.plans[c].value.phase.Saving?
            && (m.current[c].Some? ==>
                  var j := m.current[c].value;
                  && j != i
                  && (m.tasks[j].status.Running? ==> m'.leaving[c] == Some(j) && m'.tasks[j].status.SwitchingOut?)
                  && m'.plans[c].value.retire == if m.tasks[j].status.Zombie? then m.tasks[j].stack else 0)
            && Inv(Occupied(m', c, i), g'.(place := g'.place[i := At(OnCpu, c)], saved := g'.saved - {i}), cpus, None)
  {
    VacateKeeps(m, g, cpus, Some(i), c);
    if m.current[c].Some? {
      CurrentAt(m, g, cpus, Some(i), c);
    }
    assert PlanOk(m, c);
    hide Inv, Core, Places, Plans, Saves;
    OccupyKeeps(Vacated(m, c), VacatedView(m, g, c), cpus, c, i);
  }
}
