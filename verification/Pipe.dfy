/** An anonymous pipe shared by any number of threads.

    Each method is one lock section of src/pipe.rs, src/file.rs or the event
    generations of src/process/mod.rs, so a run is any interleaving of method
    calls. `threads` says where every call in flight stands. A task that is
    marked Waiting and then woken, whether or not it has left its CPU, goes back
    to the top of its loop.
  */
module Pipe {
  import opened Basics

  type Thread = nat

  const CAPACITY: nat := 4096
  const WRAP: nat := 0x1_0000_0000_0000_0000

  type u64 = x: int | 0 <= x < WRAP

  /** A descriptor slot: free, one of this pipe's ends, or some other file. */
  datatype Slot = Empty | ReadEnd | WriteEnd | Other

  /** Where a call stands. The reading and writing activities, and Dropping, each hold a counted end. */
  datatype Activity =
    | ReadSnap(want: nat)
    | ReadCheck(want: nat, seen: u64)
    | ReadWait(want: nat, seen: u64)
    | ReadBlocked(want: nat)
    | ReadWake(got: seq<byte>)
    | WriteSnap(data: seq<byte>, done: nat)
    | WriteCheck(data: seq<byte>, done: nat, seen: u64)
    | WriteWait(data: seq<byte>, done: nat, seen: u64)
    | WriteBlocked(data: seq<byte>, done: nat)
    | WriteWake(data: seq<byte>, done: nat)
    | Dropping(end: Slot)
    | DropWake

  /** What a call returns to its user. */
  datatype Answer = Bytes(got: seq<byte>) | Wrote(n: nat) | BrokenPipe

  /** A user call, or the next lock section of a thread already in one. */
  datatype Step =
    | Read(t: Thread, k: nat, fd: nat, want: nat)
    | Write(t: Thread, k: nat, fd: nat, data: seq<byte>)
    | CloseFd(t: Thread, k: nat, fd: nat)
    | Spawn(t: Thread, k: nat, stdio: seq<nat>)
    | Go(t: Thread)

  datatype Ring = Ring(buf: seq<byte>, readers: nat, writers: nat)

  predicate Reading(a: Activity) { a.ReadSnap? || a.ReadCheck? || a.ReadWait? || a.ReadBlocked? || a.ReadWake? }

  predicate Writing(a: Activity) { a.WriteSnap? || a.WriteCheck? || a.WriteWait? || a.WriteBlocked? || a.WriteWake? }

  /** The end an activity keeps alive. */
  function Held(a: Activity): Slot {
    if Reading(a) then ReadEnd else if Writing(a) then WriteEnd else if a.Dropping? then a.end else Empty
  }

  predicate Blocked(a: Activity) { a.ReadBlocked? || a.WriteBlocked? }

  /** A wakeup this activity still owes. */
  predicate Owes(a: Activity) { a.ReadWake? || a.WriteWake? || a.DropWake? }

  predicate Snapped(a: Activity) { a.ReadCheck? || a.ReadWait? || a.WriteCheck? || a.WriteWait? }

  predicate Waits(a: Activity) { a.ReadWait? || a.WriteWait? }

  /** The activity after a wakeup. */
  function Awake(a: Activity): Activity {
    match a
    case ReadBlocked(n) => ReadSnap(n)
    case WriteBlocked(d, n) => WriteSnap(d, n)
    case _ => a
  }

  /** The call cannot go on: nothing to read while a writer remains, or no room while a reader remains. */
  predicate Stuck(a: Activity, ring: Ring) {
    if Reading(a) then ring.buf == [] && ring.writers > 0
    else |ring.buf| == CAPACITY && ring.readers > 0
  }

  // ---- Counting ends --------------------------------------------------------------------

  function EndsIn(fds: seq<Slot>, e: Slot): nat {
    if fds == [] then 0 else EndsIn(fds[..|fds| - 1], e) + if fds[|fds| - 1] == e then 1 else 0
  }

  ghost function Ends(tables: seq<seq<Slot>>, e: Slot): nat {
    if tables == [] then 0 else Ends(tables[..|tables| - 1], e) + EndsIn(tables[|tables| - 1], e)
  }

  lemma {:induction false} EndsInUpdate(fds: seq<Slot>, i: nat, s: Slot, e: Slot)
    requires i < |fds|
    ensures EndsIn(fds[i := s], e) + (if fds[i] == e then 1 else 0) == EndsIn(fds, e) + if s == e then 1 else 0
  {
    var n := |fds| - 1;
    if i == n {
      assert fds[i := s][..n] == fds[..n];
    } else {
      assert fds[i := s][..n] == fds[..n][i := s];
      EndsInUpdate(fds[..n], i, s, e);
    }
  }

  lemma {:induction false} EndsUpdate(tables: seq<seq<Slot>>, k: nat, fds: seq<Slot>, e: Slot)
    requires k < |tables|
    ensures Ends(tables[k := fds], e) + EndsIn(tables[k], e) == Ends(tables, e) + EndsIn(fds, e)
  {
    var n := |tables| - 1;
    if k == n {
      assert tables[k := fds][..n] == tables[..n];
    } else {
      assert tables[k := fds][..n] == tables[..n][k := fds];
      EndsUpdate(tables[..n], k, fds, e);
    }
  }

  // ---- Descriptor tables -----------------------------------------------------------------

  const MAX_FDS: nat := 32

  /** Free descriptors: empty slots, and slots the table may still grow by. */
  function Free(fds: seq<Slot>): int { EndsIn(fds, Empty) + MAX_FDS - |fds| }

  lemma {:induction false} NoneEmpty(fds: seq<Slot>)
    ensures EndsIn(fds, Empty) == 0 <==> Empty !in fds
  {
    if fds != [] {
      var n := |fds| - 1;
      NoneEmpty(fds[..n]);
      assert fds == fds[..n] + [fds[n]];
    }
  }

  /** free_slot: the first free descriptor, growing the table if it has to and may. */
  method FreeSlot(fds: seq<Slot>) returns (r: Option<nat>, table: seq<Slot>)
    requires |fds| <= MAX_FDS
    ensures r.Some? <==> Free(fds) > 0
    ensures r.Some? ==> r.value < |table| && table[r.value] == Empty && forall i | 0 <= i < r.value :: table[i] != Empty
    ensures fds <= table && |fds| <= |table| <= MAX_FDS && (r.None? ==> table == fds)
    ensures (|table| > |fds| ==> table == fds + [Empty])
    ensures Free(table) == Free(fds)
  {
    NoneEmpty(fds);
    for i := 0 to |fds|
      invariant forall j | 0 <= j < i :: fds[j] != Empty
    {
      if fds[i] == Empty {
        return Some(i), fds;
      }
    }
    if |fds| < MAX_FDS {
      assert (fds + [Empty])[..|fds|] == fds;
      return Some(|fds|), fds + [Empty];
    }
    return None, fds;
  }

  /** FileTable::pipe: both ends get a descriptor, or neither does and every descriptor is as before. */
  method OpenPipe(fds: seq<Slot>) returns (r: Option<(nat, nat)>, table: seq<Slot>)
    requires |fds| <= MAX_FDS
    ensures r.Some? <==> Free(fds) >= 2
    ensures |fds| <= |table| <= MAX_FDS
    ensures forall i | 0 <= i < |table| && (r.None? || (i != r.value.0 && i != r.value.1)) ::
              table[i] == if i < |fds| then fds[i] else Empty
    ensures r.Some? ==>
              var (rd, wr) := r.value;
              && rd < wr < |table| && table[rd] == ReadEnd && table[wr] == WriteEnd
              && (rd < |fds| ==> fds[rd] == Empty) && (wr < |fds| ==> fds[wr] == Empty)
  {
    var rd, t1 := FreeSlot(fds);
    if rd.None? {
      return None, t1;
    }
    EndsInUpdate(t1, rd.value, ReadEnd, Empty);
    var wr, t2 := FreeSlot(t1[rd.value := ReadEnd]);
    if wr.None? {
      return None, t2[rd.value := Empty];
    }
    return Some((rd.value, wr.value)), t2[wr.value := WriteEnd];
  }

  // ---- Calls in flight ---------------------------------------------------------------------

  ghost function Holders(threads: map<Thread, Activity>, e: Slot): set<Thread> {
    set t | t in threads && Held(threads[t]) == e
  }

  /** readers and writers are exactly the ends in descriptor tables plus those held by calls in flight. */
  ghost predicate Counted(ring: Ring, tables: seq<seq<Slot>>, threads: map<Thread, Activity>) {
    && ring.readers == Ends(tables, ReadEnd) + |Holders(threads, ReadEnd)|
    && ring.writers == Ends(tables, WriteEnd) + |Holders(threads, WriteEnd)|
  }

  lemma HoldersUpdate(threads: map<Thread, Activity>, t: Thread, a: Activity, e: Slot)
    ensures |Holders(threads[t := a], e)| + (if t in threads && Held(threads[t]) == e then 1 else 0)
         == |Holders(threads, e)| + if Held(a) == e then 1 else 0
  {
    hide Held;
    var before, after := Holders(threads, e), Holders(threads[t := a], e);
    assert before - {t} == after - {t};
    OneOff(before, t);
    OneOff(after, t);
  }

  lemma OneOff(s: set<Thread>, t: Thread)
    ensures |s| == |s - {t}| + if t in s then 1 else 0
  {
    assert t !in s ==> s - {t} == s;
  }

  lemma HoldersRemove(threads: map<Thread, Activity>, t: Thread, e: Slot)
    requires t in threads
    ensures |Holders(threads - {t}, e)| + (if Held(threads[t]) == e then 1 else 0) == |Holders(threads, e)|
  {
    var before, after := Holders(threads, e), Holders(threads - {t}, e);
    assert before - {t} == after;
    assert t in before ==> |before - {t}| == |before| - 1;
  }

  // ---- Invariants ------------------------------------------------------------------------

  /** What has been read, followed by what is buffered, is what has been queued. */
  ghost predicate Streamed(ring: Ring, queued: seq<byte>, consumed: seq<byte>) {
    consumed + ring.buf == queued && |ring.buf| <= CAPACITY
  }

  /** A call has something left to do while it loops. */
  predicate Ok(a: Activity) {
    match a
    case ReadSnap(n) => n > 0
    case ReadCheck(n, _) => n > 0
    case ReadWait(n, _) => n > 0
    case ReadBlocked(n) => n > 0
    case WriteSnap(d, n) => n < |d|
    case WriteCheck(d, n, _) => n < |d|
    case WriteWait(d, n, _) => n < |d|
    case WriteBlocked(d, n) => n < |d|
    case WriteWake(d, n) => n <= |d|
    case Dropping(e) => e != Empty
    case _ => true
  }

  ghost predicate Sane(threads: map<Thread, Activity>) {
    forall t | t in threads :: Ok(threads[t])
  }

  /** `at` is the number of wakeups at each snapshot; the generation is that number modulo 2^64. */
  ghost predicate Snapshots(threads: map<Thread, Activity>, at: map<Thread, nat>, generation: u64, wakes: nat) {
    && generation == wakes % WRAP
    && (forall t | t in threads && Snapped(threads[t]) :: t in at && at[t] <= wakes && threads[t].seen == at[t] % WRAP)
  }

  ghost predicate Pending(threads: map<Thread, Activity>) {
    exists t :: t in threads && Owes(threads[t])
  }

  /** A call that is asleep, or that no wakeup can keep from falling asleep. */
  ghost predicate Committed(a: Activity, t: Thread, at: map<Thread, nat>, wakes: nat) {
    Blocked(a) || (Waits(a) && t in at && at[t] == wakes)
  }

  /** No wakeup is lost: either one is still owed, or every sleeper has a reason to sleep. */
  ghost predicate Lossless(threads: map<Thread, Activity>, at: map<Thread, nat>, wakes: nat, ring: Ring) {
    Pending(threads) || (forall t | t in threads && Committed(threads[t], t, at, wakes) :: Stuck(threads[t], ring))
  }

  /** Once no operation is mid-flight, whoever still sleeps has nothing to do. */
  lemma QuietMeansStuck(threads: map<Thread, Activity>, at: map<Thread, nat>, wakes: nat, ring: Ring)
    requires Lossless(threads, at, wakes, ring)
    requires forall t | t in threads :: Blocked(threads[t])
    ensures forall t | t in threads && threads[t].ReadBlocked? :: ring.buf == [] && ring.writers > 0
    ensures forall t | t in threads && threads[t].WriteBlocked? :: |ring.buf| == CAPACITY && ring.readers > 0
  {
    forall t | t in threads
      ensures Stuck(threads[t], ring)
    {
      assert Committed(threads[t], t, at, wakes);
    }
  }

  /** A thread in flight moves on with the same end and, if it keeps one, the same snapshot. */
  lemma Move(threads: map<Thread, Activity>, t: Thread, a: Activity, at: map<Thread, nat>, generation: u64, wakes: nat,
             tables: seq<seq<Slot>>, ring: Ring, ring': Ring)
    requires Sane(threads) && Snapshots(threads, at, generation, wakes) && Counted(ring, tables, threads)
    requires t in threads && Held(a) == Held(threads[t]) && Ok(a)
    requires Snapped(a) ==> Snapped(threads[t]) && a.seen == threads[t].seen
    requires ring'.readers == ring.readers && ring'.writers == ring.writers
    ensures Sane(threads[t := a]) && Snapshots(threads[t := a], at, generation, wakes)
    ensures Counted(ring', tables, threads[t := a])
  {
    HoldersUpdate(threads, t, a, ReadEnd);
    HoldersUpdate(threads, t, a, WriteEnd);
  }

  lemma TakeSnapshot(threads: map<Thread, Activity>, t: Thread, a: Activity, at: map<Thread, nat>, generation: u64,
                     wakes: nat, tables: seq<seq<Slot>>, ring: Ring)
    requires Sane(threads) && Snapshots(threads, at, generation, wakes) && Counted(ring, tables, threads)
    requires t in threads && Held(a) == Held(threads[t]) && Ok(a) && Snapped(a) && a.seen == generation
    ensures Sane(threads[t := a]) && Snapshots(threads[t := a], at[t := wakes], generation, wakes)
    ensures Counted(ring, tables, threads[t := a])
  {
    HoldersUpdate(threads, t, a, ReadEnd);
    HoldersUpdate(threads, t, a, WriteEnd);
  }

  /** A call starts with an end of its own. */
  lemma Enter(threads: map<Thread, Activity>, t: Thread, a: Activity, at: map<Thread, nat>, generation: u64, wakes: nat,
              tables: seq<seq<Slot>>, ring: Ring, ring': Ring)
    requires Sane(threads) && Snapshots(threads, at, generation, wakes) && Counted(ring, tables, threads)
    requires t !in threads && Ok(a) && !Snapped(a)
    requires ring'.readers == ring.readers + (if Held(a).ReadEnd? then 1 else 0)
    requires ring'.writers == ring.writers + (if Held(a).WriteEnd? then 1 else 0)
    ensures Sane(threads[t := a]) && Snapshots(threads[t := a], at, generation, wakes)
    ensures Counted(ring', tables, threads[t := a])
  {
    HoldersUpdate(threads, t, a, ReadEnd);
    HoldersUpdate(threads, t, a, WriteEnd);
  }

  lemma SnapshotOf(threads: map<Thread, Activity>, t: Thread, at: map<Thread, nat>, generation: u64, wakes: nat)
    requires Snapshots(threads, at, generation, wakes) && t in threads && Snapped(threads[t])
    ensures t in at && at[t] <= wakes && threads[t].seen == at[t] % WRAP && generation == wakes % WRAP
  {
  }

  /** What a call does after the wakeup it owed. */
  function Next(a: Activity): Option<Activity> {
    match a
    case ReadWake(_) => Some(Dropping(ReadEnd))
    case WriteWake(d, n) => Some(if n < |d| then WriteSnap(d, n) else Dropping(WriteEnd))
    case _ => None
  }

  /** Every sleeper goes back to the top of its loop, and the caller moves on. */
  function Woken(threads: map<Thread, Activity>, t: Thread): map<Thread, Activity>
    requires t in threads
  {
    map u | u in threads && (u != t || Next(threads[t]).Some?) :: if u == t then Next(threads[t]).value
                                                                  else Awake(threads[u])
  }

  lemma SleeperMoves(a: Activity, u: Thread, at: map<Thread, nat>, wakes: nat)
    requires Ok(a) && (Snapped(a) ==> u in at && at[u] <= wakes)
    ensures var b := Awake(a);
            Held(b) == Held(a) && Ok(b) && !Committed(b, u, at, wakes + 1) && (Snapped(b) ==> b == a)
  {
  }

  lemma OwnerMoves(a: Activity, t: Thread, at: map<Thread, nat>, wakes: nat)
    requires Ok(a) && Owes(a)
    ensures Next(a).None? ==> Held(a) == Empty
    ensures Next(a).Some? ==>
              var b := Next(a).value;
              Held(b) == Held(a) && Ok(b) && !Committed(b, t, at, wakes + 1) && !Snapped(b)
  {
  }

  lemma WakeKeeps(threads: map<Thread, Activity>, t: Thread, at: map<Thread, nat>, generation: u64, wakes: nat,
                  tables: seq<seq<Slot>>, ring: Ring)
    requires Sane(threads) && Snapshots(threads, at, generation, wakes) && Counted(ring, tables, threads)
    requires t in threads && Owes(threads[t])
    ensures var woken := Woken(threads, t);
            && Sane(woken) && Snapshots(woken, at, (generation + 1) % WRAP, wakes + 1) && Counted(ring, tables, woken)
            && Lossless(woken, at, wakes + 1, ring)
  {
    hide Ok, Held, Committed, Next, Awake, Snapped, Owes, Stuck;
    var woken := Woken(threads, t);
    OwnerMoves(threads[t], t, at, wakes);
    forall u | u in woken
      ensures Held(woken[u]) == Held(threads[u]) && Ok(woken[u]) && !Committed(woken[u], u, at, wakes + 1)
      ensures Snapped(woken[u]) ==> woken[u] == threads[u]
    {
      SleeperMoves(threads[u], u, at, wakes);
    }
    assert Holders(woken, ReadEnd) == Holders(threads, ReadEnd);
    assert Holders(woken, WriteEnd) == Holders(threads, WriteEnd);
  }

  /** A call that holds no end, or gives its end up, leaves. */
  lemma Leave(threads: map<Thread, Activity>, t: Thread, at: map<Thread, nat>, generation: u64, wakes: nat,
              tables: seq<seq<Slot>>, ring: Ring)
    requires Sane(threads) && Snapshots(threads, at, generation, wakes) && Counted(ring, tables, threads)
    requires t in threads
    ensures Sane(threads - {t}) && Snapshots(threads - {t}, at, generation, wakes)
    ensures Held(threads[t]).ReadEnd? ==> ring.readers > 0
    ensures Held(threads[t]).WriteEnd? ==> ring.writers > 0
    ensures Counted(Ring(ring.buf, if Held(threads[t]).ReadEnd? then ring.readers - 1 else ring.readers,
                         if Held(threads[t]).WriteEnd? then ring.writers - 1 else ring.writers), tables, threads - {t})
  {
    HoldersRemove(threads, t, ReadEnd);
    HoldersRemove(threads, t, WriteEnd);
  }

  /** Moving a thread whose new place is not committed, or is rightly so, over an unchanged ring. */
  lemma MoveLossless(threads: map<Thread, Activity>, t: Thread, a: Activity, at: map<Thread, nat>,
                     at': map<Thread, nat>, wakes: nat, ring: Ring)
    requires Lossless(threads, at, wakes, ring)
    requires t in threads ==> !Owes(threads[t])
    requires forall u | u in at && u != t :: u in at' && at'[u] == at[u]
    requires forall u | u in at' && u != t :: u in at
    requires Committed(a, t, at', wakes) ==> Pending(threads) || Stuck(a, ring)
    ensures Lossless(threads[t := a], at', wakes, ring)
  {
    var threads' := threads[t := a];
    if Pending(threads) {
      var u :| u in threads && Owes(threads[u]);
      assert u in threads' && Owes(threads'[u]);
    } else {
      forall u | u in threads' && Committed(threads'[u], u, at', wakes)
        ensures Stuck(threads'[u], ring)
      {
        if u != t {
          assert Committed(threads[u], u, at, wakes);
        }
      }
    }
  }

  lemma OwingIsLossless(threads: map<Thread, Activity>, t: Thread, a: Activity, at: map<Thread, nat>, wakes: nat,
                        ring: Ring)
    requires Owes(a)
    ensures Lossless(threads[t := a], at, wakes, ring)
  {
    assert t in threads[t := a] && Owes(threads[t := a][t]);
  }

  /** Fewer than 2^64 wakeups since a snapshot: the generation tells whether there was any. */
  lemma GenerationExact(seen: nat, wakes: nat)
    requires seen <= wakes < seen + WRAP
    ensures seen % WRAP == wakes % WRAP <==> seen == wakes
  {
  }

  /** The ring changed under threads that are all accounted for by a wakeup still owed elsewhere. */
  lemma GrowEnds(threads: map<Thread, Activity>, at: map<Thread, nat>, wakes: nat, ring: Ring, ring': Ring)
    requires Lossless(threads, at, wakes, ring)
    requires ring'.buf == ring.buf && ring'.readers >= ring.readers && ring'.writers >= ring.writers
    ensures Lossless(threads, at, wakes, ring')
  {
  }

  lemma LeaveLossless(threads: map<Thread, Activity>, t: Thread, at: map<Thread, nat>, wakes: nat, ring: Ring)
    requires t in threads && Lossless(threads, at, wakes, ring) && !Owes(threads[t])
    ensures Lossless(threads - {t}, at, wakes, ring)
  {
    if Pending(threads) {
      var u :| u in threads && Owes(threads[u]);
      assert u in threads - {t} && Owes((threads - {t})[u]);
    }
  }

  /** Dropping an end that is not the last one changes nobody's mind. */
  lemma ShrinkEnds(threads: map<Thread, Activity>, at: map<Thread, nat>, wakes: nat, ring: Ring, ring': Ring)
    requires Lossless(threads, at, wakes, ring) && ring'.buf == ring.buf
    requires ring'.readers > 0 || ring'.readers == ring.readers
    requires ring'.writers > 0 || ring'.writers == ring.writers
    ensures Lossless(threads, at, wakes, ring')
  {
  }

  class System {
    var ring: Ring
    var generation: u64
    var threads: map<Thread, Activity>
    var tables: seq<seq<Slot>>
    ghost var queued: seq<byte>
    ghost var consumed: seq<byte>
    ghost var wakes: nat
    ghost var at: map<Thread, nat>

    ghost predicate Valid()
      reads this
    {
      && Streamed(ring, queued, consumed) && Sane(threads)
      && Snapshots(threads, at, generation, wakes) && Counted(ring, tables, threads)
    }

    ghost predicate NoLostWakeup()
      reads this
    {
      Lossless(threads, at, wakes, ring)
    }

    /** FileTable::pipe on a fresh table: one reading and one writing descriptor. */
    constructor ()
      ensures Valid() && NoLostWakeup() && queued == [] && consumed == [] && threads == map[] && wakes == 0
      ensures tables == [[ReadEnd, WriteEnd]]
    {
      ring := Ring([], 1, 1);
      generation := 0;
      threads := map[];
      tables := [[ReadEnd, WriteEnd]];
      queued, consumed, wakes, at := [], [], 0, map[];
      new;
      assert Holders(threads, ReadEnd) == {} && Holders(threads, WriteEnd) == {};
      assert tables[..0] == [] && tables[0][..1] == [ReadEnd] && [ReadEnd][..0] == [];
      assert EndsIn([ReadEnd], ReadEnd) == 1 && EndsIn([ReadEnd], WriteEnd) == 0;
    }

    predicate IsEnd(k: nat, fd: nat, e: Slot)
      reads this
    {
      k < |tables| && fd < |tables[k]| && tables[k][fd] == e
    }

    /** FileTable::read up to the call of Pipe::read: the call clones the descriptor's end. */
    method BeginRead(t: Thread, k: nat, fd: nat, want: nat) returns (ok: bool)
      requires Valid() && t !in threads
      modifies this
      ensures Valid() && (old(NoLostWakeup()) ==> NoLostWakeup())
      ensures ok <==> old(IsEnd(k, fd, ReadEnd))
      ensures ok ==> threads == old(threads)[t := if want == 0 then Dropping(ReadEnd) else ReadSnap(want)]
      ensures !ok ==> threads == old(threads) && ring == old(ring)
      ensures tables == old(tables) && queued == old(queued) && consumed == old(consumed)
      ensures wakes == old(wakes) && at == old(at)
    {
      hide Sane, Snapshots, Counted, Lossless;
      ok := IsEnd(k, fd, ReadEnd);
      if ok {
        var a := if want == 0 then Dropping(ReadEnd) else ReadSnap(want);
        ghost var ring' := ring.(readers := ring.readers + 1);
        Enter(threads, t, a, at, generation, wakes, tables, ring, ring');
        if NoLostWakeup() {
          GrowEnds(threads, at, wakes, ring, ring');
          MoveLossless(threads, t, a, at, at, wakes, ring');
        }
        ring := ring.(readers := ring.readers + 1);
        threads := threads[t := a];
      }
    }

    /** FileTable::write up to the call of Pipe::write. */
    method BeginWrite(t: Thread, k: nat, fd: nat, data: seq<byte>) returns (ok: bool)
      requires Valid() && t !in threads
      modifies this
      ensures Valid() && (old(NoLostWakeup()) ==> NoLostWakeup())
      ensures ok <==> old(IsEnd(k, fd, WriteEnd))
      ensures ok ==> threads == old(threads)[t := if data == [] then Dropping(WriteEnd) else WriteSnap(data, 0)]
      ensures !ok ==> threads == old(threads) && ring == old(ring)
      ensures tables == old(tables) && queued == old(queued) && consumed == old(consumed)
      ensures wakes == old(wakes) && at == old(at)
    {
      hide Sane, Snapshots, Counted, Lossless;
      ok := IsEnd(k, fd, WriteEnd);
      if ok {
        var a := if data == [] then Dropping(WriteEnd) else WriteSnap(data, 0);
        ghost var ring' := ring.(writers := ring.writers + 1);
        Enter(threads, t, a, at, generation, wakes, tables, ring, ring');
        if NoLostWakeup() {
          GrowEnds(threads, at, wakes, ring, ring');
          MoveLossless(threads, t, a, at, at, wakes, ring');
        }
        ring := ring.(writers := ring.writers + 1);
        threads := threads[t := a];
      }
    }

    /** event_generation, at the top of either loop. */
    method Snapshot(t: Thread)
      requires Valid() && t in threads && (threads[t].ReadSnap? || threads[t].WriteSnap?)
      modifies this
      ensures Valid() && (old(NoLostWakeup()) ==> NoLostWakeup())
      ensures var a := match old(threads)[t]
                case ReadSnap(n) => ReadCheck(n, generation)
                case WriteSnap(d, n) => WriteCheck(d, n, generation);
              threads == old(threads)[t := a] && at == old(at)[t := wakes]
      ensures ring == old(ring) && tables == old(tables) && queued == old(queued) && consumed == old(consumed)
      ensures wakes == old(wakes)
    {
      assert Ok(threads[t]);
      hide Sane, Snapshots, Counted, Lossless;
      var a := match threads[t]
        case ReadSnap(n) => ReadCheck(n, generation)
        case WriteSnap(d, n) => WriteCheck(d, n, generation);
      TakeSnapshot(threads, t, a, at, generation, wakes, tables, ring);
      if NoLostWakeup() {
        MoveLossless(threads, t, a, at, at[t := wakes], wakes, ring);
      }
      threads := threads[t := a];
      at := at[t := wakes];
    }

    /** The pipe-lock section of read. A zero-byte answer to a non-empty read means end of stream. */
    method CheckRead(t: Thread) returns (r: Option<Answer>)
      requires Valid() && t in threads && threads[t].ReadCheck?
      modifies this
      ensures Valid() && (old(NoLostWakeup()) ==> NoLostWakeup())
      ensures queued == old(queued) && tables == old(tables) && wakes == old(wakes) && at == old(at)
      ensures r.Some? <==> old(ring).buf == [] && old(ring).writers == 0
      ensures r.Some? ==>
                && r.value == Bytes([]) && ring.writers == 0 && consumed == queued
                && threads == old(threads)[t := Dropping(ReadEnd)]
      ensures r.None? && old(ring).buf != [] ==>
                var n := Min(old(threads)[t].want, |old(ring).buf|);
                && threads == old(threads)[t := ReadWake(old(ring).buf[..n])] && n > 0
                && consumed == old(consumed) + old(ring).buf[..n]
      ensures r.None? && old(ring).buf == [] ==>
                && threads == old(threads)[t := ReadWait(old(threads)[t].want, old(threads)[t].seen)]
                && consumed == old(consumed) && ring == old(ring)
    {
      assert Ok(threads[t]);
      hide Sane, Snapshots, Counted, Lossless;
      var want, seen := threads[t].want, threads[t].seen;
      if ring.buf != [] {
        var n := Min(want, |ring.buf|);
        var a := ReadWake(ring.buf[..n]);
        Move(threads, t, a, at, generation, wakes, tables, ring, ring.(buf := ring.buf[n..]));
        OwingIsLossless(threads, t, a, at, wakes, ring.(buf := ring.buf[n..]));
        assert consumed + ring.buf[..n] + ring.buf[n..] == consumed + ring.buf;
        consumed := consumed + ring.buf[..n];
        ring := ring.(buf := ring.buf[n..]);
        threads := threads[t := a];
        return None;
      }
      if ring.writers == 0 {
        Move(threads, t, Dropping(ReadEnd), at, generation, wakes, tables, ring, ring);
        if NoLostWakeup() {
          MoveLossless(threads, t, Dropping(ReadEnd), at, at, wakes, ring);
        }
        threads := threads[t := Dropping(ReadEnd)];
        return Some(Bytes([]));
      }
      Move(threads, t, ReadWait(want, seen), at, generation, wakes, tables, ring, ring);
      if NoLostWakeup() {
        MoveLossless(threads, t, ReadWait(want, seen), at, at, wakes, ring);
      }
      threads := threads[t := ReadWait(want, seen)];
      return None;
    }

    /** The pipe-lock section of write. */
    method CheckWrite(t: Thread) returns (r: Option<Answer>)
      requires Valid() && t in threads && threads[t].WriteCheck?
      modifies this
      ensures Valid() && (old(NoLostWakeup()) ==> NoLostWakeup())
      ensures consumed == old(consumed) && tables == old(tables) && wakes == old(wakes) && at == old(at)
      ensures r.Some? <==> old(ring).readers == 0
      ensures r.Some? ==>
                var done := old(threads)[t].done;
                && r.value == (if done > 0 then Wrote(done) else BrokenPipe) && queued == old(queued)
                && threads == old(threads)[t := Dropping(WriteEnd)]
      ensures r.None? ==>
                var WriteCheck(data, done, seen) := old(threads)[t];
                var n := Min(CAPACITY - |old(ring).buf|, |data| - done);
                && queued == old(queued) + data[done..done + n]
                && var a := if n > 0 then WriteWake(data, done + n) else WriteWait(data, done, seen);
                   threads == old(threads)[t := a]
    {
      assert Ok(threads[t]);
      hide Sane, Snapshots, Counted, Lossless;
      var WriteCheck(data, done, seen) := threads[t];
      if ring.readers == 0 {
        Move(threads, t, Dropping(WriteEnd), at, generation, wakes, tables, ring, ring);
        if NoLostWakeup() {
          MoveLossless(threads, t, Dropping(WriteEnd), at, at, wakes, ring);
        }
        threads := threads[t := Dropping(WriteEnd)];
        return Some(if done > 0 then Wrote(done) else BrokenPipe);
      }
      var n := Min(CAPACITY - |ring.buf|, |data| - done);
      if n > 0 {
        var a := WriteWake(data, done + n);
        Move(threads, t, a, at, generation, wakes, tables, ring, ring.(buf := ring.buf + data[done..done + n]));
        OwingIsLossless(threads, t, a, at, wakes, ring.(buf := ring.buf + data[done..done + n]));
        assert consumed + (ring.buf + data[done..done + n]) == consumed + ring.buf + data[done..done + n];
        queued := queued + data[done..done + n];
        ring := ring.(buf := ring.buf + data[done..done + n]);
        threads := threads[t := a];
      } else {
        assert data[done..done + n] == [];
        var a := WriteWait(data, done, seen);
        Move(threads, t, a, at, generation, wakes, tables, ring, ring);
        if NoLostWakeup() {
          MoveLossless(threads, t, a, at, at, wakes, ring);
        }
        threads := threads[t := a];
      }
      return None;
    }

    /** wait_current_until: sleep unless the generation has moved since the snapshot. The guarantee survives
        exactly when the generation has not come round to the same value with the reason to sleep gone. */
    method Wait(t: Thread)
      requires Valid() && t in threads && Waits(threads[t])
      modifies this
      ensures Valid()
      ensures old(NoLostWakeup()) ==>
                (NoLostWakeup() <==>
                  !(old(threads[t].seen == generation && t in at && at[t] < wakes && !Pending(threads) &&
                        !Stuck(threads[t], ring))))
      ensures t in at && wakes < at[t] + WRAP && old(NoLostWakeup()) ==> NoLostWakeup()
      ensures var a := old(threads)[t];
              threads == old(threads)[t := match a
                case ReadWait(n, seen) => if seen == old(generation) then ReadBlocked(n) else ReadSnap(n)
                case WriteWait(d, n, seen) => if seen == old(generation) then WriteBlocked(d, n) else WriteSnap(d, n)]
      ensures ring == old(ring) && tables == old(tables) && queued == old(queued) && consumed == old(consumed)
      ensures wakes == old(wakes) && at == old(at)
    {
      assert Ok(threads[t]);
      SnapshotOf(threads, t, at, generation, wakes);
      hide Sane, Snapshots, Counted, Lossless;
      var sleep := threads[t].seen == generation;
      var a := match threads[t]
        case ReadWait(n, _) => if sleep then ReadBlocked(n) else ReadSnap(n)
        case WriteWait(d, n, _) => if sleep then WriteBlocked(d, n) else WriteSnap(d, n);
      Move(threads, t, a, at, generation, wakes, tables, ring, ring);
      if wakes < at[t] + WRAP {
        GenerationExact(at[t], wakes);
      }
      if NoLostWakeup() {
        if Committed(a, t, at, wakes) ==> Pending(threads) || Stuck(a, ring) {
          MoveLossless(threads, t, a, at, at, wakes, ring);
        } else {
          SleptThrough(threads, t, a, at, wakes, ring);
        }
      }
      threads := threads[t := a];
    }

    /** wake_waiters: every sleeper goes back to the top of its loop. */
    method Wake(t: Thread) returns (r: Option<Answer>)
      requires Valid() && t in threads && Owes(threads[t])
      modifies this
      ensures Valid() && NoLostWakeup()
      ensures wakes == old(wakes) + 1 && threads == Woken(old(threads), t) && at == old(at)
      ensures ring == old(ring) && tables == old(tables) && queued == old(queued) && consumed == old(consumed)
      ensures r == match old(threads)[t]
                case ReadWake(got) => Some(Bytes(got))
                case WriteWake(d, n) => if n < |d| then None else Some(Wrote(n))
                case _ => None
    {
      WakeKeeps(threads, t, at, generation, wakes, tables, ring);
      hide Sane, Snapshots, Counted, Lossless, Woken;
      r := match threads[t]
        case ReadWake(got) => Some(Bytes(got))
        case WriteWake(d, n) => if n < |d| then None else Some(Wrote(n))
        case _ => None;
      generation, wakes, threads := (generation + 1) % WRAP, wakes + 1, Woken(threads, t);
    }

    /** FileTable::close under the table lock: the descriptor's end passes to the closing call. */
    method Close(t: Thread, k: nat, fd: nat) returns (ok: bool)
      requires Valid() && t !in threads
      modifies this
      ensures Valid() && (old(NoLostWakeup()) ==> NoLostWakeup())
      ensures ok <==> k < |old(tables)| && fd < |old(tables)[k]| && old(tables)[k][fd] != Empty
      ensures ok ==>
                && tables == old(tables)[k := old(tables)[k][fd := Empty]]
                && threads == old(threads)[t := Dropping(old(tables)[k][fd])]
      ensures !ok ==> tables == old(tables) && threads == old(threads)
      ensures ring == old(ring) && queued == old(queued) && consumed == old(consumed) && wakes == old(wakes)
    {
      hide Sane, Snapshots, Counted, Lossless;
      ok := k < |tables| && fd < |tables[k]| && tables[k][fd] != Empty;
      if ok {
        var a := Dropping(tables[k][fd]);
        MoveEnd(tables, threads, t, k, fd, ring);
        Enter(threads, t, a, at, generation, wakes, tables, ring,
              Ring(ring.buf, ring.readers + (if a.end.ReadEnd? then 1 else 0),
                   ring.writers + (if a.end.WriteEnd? then 1 else 0)));
        if NoLostWakeup() {
          MoveLossless(threads, t, a, at, at, wakes, ring);
        }
        tables := tables[k := tables[k][fd := Empty]];
        threads := threads[t := a];
      }
    }

    /** Drop for PipeReader and PipeWriter: the last end of a kind to go owes the other side a wakeup. */
    method Release(t: Thread)
      requires Valid() && t in threads && threads[t].Dropping?
      modifies this
      ensures Valid() && (old(NoLostWakeup()) ==> NoLostWakeup())
      ensures tables == old(tables) && queued == old(queued) && consumed == old(consumed)
      ensures wakes == old(wakes) && at == old(at)
      ensures ring.buf == old(ring).buf
      ensures ring.readers == old(ring).readers - if old(threads)[t].end.ReadEnd? then 1 else 0
      ensures ring.writers == old(ring).writers - if old(threads)[t].end.WriteEnd? then 1 else 0
      ensures var left := if old(threads)[t].end.ReadEnd? then ring.readers else ring.writers;
              threads == if ring != old(ring) && left == 0
                         then old(threads)[t := DropWake] else old(threads) - {t}
    {
      hide Sane, Snapshots, Counted, Lossless;
      var e := threads[t].end;
      Leave(threads, t, at, generation, wakes, tables, ring);
      var ring' := match e
        case ReadEnd => ring.(readers := ring.readers - 1)
        case WriteEnd => ring.(writers := ring.writers - 1)
        case _ => ring;
      var last := (e.ReadEnd? && ring'.readers == 0) || (e.WriteEnd? && ring'.writers == 0);
      if last {
        OwingIsLossless(threads, t, DropWake, at, wakes, ring');
        Enter(threads - {t}, t, DropWake, at, generation, wakes, tables, ring', ring');
        assert (threads - {t})[t := DropWake] == threads[t := DropWake];
        threads := threads[t := DropWake];
      } else {
        if NoLostWakeup() {
          ShrinkEnds(threads, at, wakes, ring, ring');
          LeaveLossless(threads, t, at, wakes, ring');
        }
        threads := threads - {t};
      }
      ring := ring';
    }

    /** FileTable::inherit: a child table whose three descriptors are clones of the chosen ones. */
    method Inherit(k: nat, stdio: seq<nat>) returns (ok: bool)
      requires Valid() && k < |tables| && |stdio| == 3
      modifies this
      ensures Valid() && (old(NoLostWakeup()) ==> NoLostWakeup())
      ensures ok <==> forall i | 0 <= i < 3 :: stdio[i] < |old(tables)[k]| && old(tables)[k][stdio[i]] != Empty
      ensures ok ==>
                |tables| == |old(tables)| + 1 && tables[..|old(tables)|] == old(tables) && |tables[|old(tables)|]| == 3
                     && forall i | 0 <= i < 3 :: tables[|old(tables)|][i] == old(tables)[k][stdio[i]]
      ensures !ok ==> tables == old(tables) && ring == old(ring)
      ensures threads == old(threads) && queued == old(queued) && consumed == old(consumed) && wakes == old(wakes)
    {
      var child: seq<Slot> := [];
      for i := 0 to 3
        invariant |child| == i
        invariant forall j | 0 <= j < i ::
                  stdio[j] < |tables[k]| && tables[k][stdio[j]] != Empty && child[j] == tables[k][stdio[j]]
      {
        if stdio[i] >= |tables[k]| || tables[k][stdio[i]] == Empty {
          return false;
        }
        child := child + [tables[k][stdio[i]]];
      }
      ghost var ring' := ring.(readers := ring.readers + EndsIn(child, ReadEnd),
                               writers := ring.writers + EndsIn(child, WriteEnd));
      if NoLostWakeup() {
        GrowEnds(threads, at, wakes, ring, ring');
      }
      assert (tables + [child])[..|tables|] == tables;
      ring := ring.(readers := ring.readers + EndsIn(child, ReadEnd),
                    writers := ring.writers + EndsIn(child, WriteEnd));
      tables := tables + [child];
      return true;
    }

    /** Any interleaving of lock sections. The guarantee holds throughout as long as no call waits 2^64 wakeups
        after its snapshot. */
    method Run(steps: seq<Step>) returns (ghost timely: bool)
      requires Valid() && NoLostWakeup()
      modifies this
      ensures Valid() && (timely ==> NoLostWakeup())
      ensures old(queued) <= queued && old(consumed) <= consumed <= queued && |queued| - |consumed| <= CAPACITY
      ensures wakes < WRAP ==> timely
    {
      hide Sane, Snapshots, Counted, Lossless;
      timely := true;
      for i := 0 to |steps|
        invariant Valid() && (timely ==> NoLostWakeup())
        invariant old(queued) <= queued && old(consumed) <= consumed
        invariant wakes < WRAP ==> timely
      {
        var t := steps[i].t;
        match steps[i]
        case Read(_, k, fd, want) => if t !in threads { var _ := BeginRead(t, k, fd, want); }
        case Write(_, k, fd, data) => if t !in threads { var _ := BeginWrite(t, k, fd, data); }
        case CloseFd(_, k, fd) => if t !in threads { var _ := Close(t, k, fd); }
        case Spawn(_, k, stdio) => if k < |tables| && |stdio| == 3 { var _ := Inherit(k, stdio); }
        case Go(_) =>
          if t in threads {
            if Waits(threads[t]) {
              SnapshotOf(threads, t, at, generation, wakes);
              timely := timely && wakes < at[t] + WRAP;
              Wait(t);
            } else {
              Advance(t);
            }
          }
      }
    }

    /** The next lock section of a call that is neither waiting nor asleep. */
    method Advance(t: Thread)
      requires Valid() && t in threads && !Waits(threads[t])
      modifies this
      ensures Valid() && (old(NoLostWakeup()) ==> NoLostWakeup())
      ensures old(queued) <= queued && old(consumed) <= consumed && old(wakes) <= wakes
    {
      hide Sane, Snapshots, Counted, Lossless;
      match threads[t]
      case ReadSnap(_) => Snapshot(t);
      case WriteSnap(_, _) => Snapshot(t);
      case ReadCheck(_, _) => var _ := CheckRead(t);
      case WriteCheck(_, _, _) => var _ := CheckWrite(t);
      case Dropping(_) => Release(t);
      case ReadWake(_) => var _ := Wake(t);
      case WriteWake(_, _) => var _ := Wake(t);
      case DropWake => var _ := Wake(t);
      case _ =>
    }
  }

  /** An end that leaves a table with the call that closes it stays counted. */
  lemma MoveEnd(tables: seq<seq<Slot>>, threads: map<Thread, Activity>, t: Thread, k: nat, fd: nat, ring: Ring)
    requires k < |tables| && fd < |tables[k]| && t !in threads && Counted(ring, tables, threads)
    ensures Counted(ring, tables[k := tables[k][fd := Empty]], threads[t := Dropping(tables[k][fd])])
  {
    var fds, a := tables[k][fd := Empty], Dropping(tables[k][fd]);
    forall e: Slot | e.ReadEnd? || e.WriteEnd?
      ensures Ends(tables[k := fds], e) + |Holders(threads[t := a], e)| == Ends(tables, e) + |Holders(threads, e)|
    {
      EndsInUpdate(tables[k], fd, Empty, e);
      EndsUpdate(tables, k, fds, e);
      HoldersUpdate(threads, t, a, e);
    }
  }

  lemma SleptThrough(threads: map<Thread, Activity>, t: Thread, a: Activity, at: map<Thread, nat>, wakes: nat,
                     ring: Ring)
    requires Blocked(a) && !Pending(threads) && !Stuck(a, ring)
    ensures !Lossless(threads[t := a], at, wakes, ring)
  {
    var threads' := threads[t := a];
    assert Committed(threads'[t], t, at, wakes);
    assert !Pending(threads') by {
      assert forall u | u in threads' && u != t :: u in threads && threads'[u] == threads[u];
    }
  }

  // ---- A wakeup lost after all ------------------------------------------------------------------

  /** Reader 0 has found the pipe empty at generation 0 and is about to wait; nobody else is in a call. */
  ghost predicate AboutToWait(s: System)
    reads s
  {
    && s.Valid() && s.NoLostWakeup() && s.tables == [[ReadEnd, WriteEnd]] && s.threads == map[0 := ReadWait(1, 0)]
    && 0 in s.at && s.at[0] == 0
  }

  lemma GenerationOf(threads: map<Thread, Activity>, at: map<Thread, nat>, generation: u64, wakes: nat)
    requires Snapshots(threads, at, generation, wakes)
    ensures generation == wakes % WRAP
  {
  }

  lemma OpenEnds(ring: Ring, tables: seq<seq<Slot>>, threads: map<Thread, Activity>)
    requires Counted(ring, tables, threads) && tables == [[ReadEnd, WriteEnd]]
    ensures ring.readers > 0 && ring.writers > 0
  {
    assert tables[..0] == [] && tables[0][..1] == [ReadEnd] && [ReadEnd][..0] == [];
    assert EndsIn([ReadEnd], ReadEnd) == 1 && EndsIn([ReadEnd, WriteEnd], WriteEnd) == 1;
  }

  /** Another call writes a byte. */
  method WriteOne(s: System, b: byte)
    requires AboutToWait(s) && |s.ring.buf| < CAPACITY
    modifies s
    ensures AboutToWait(s) && s.wakes == old(s.wakes) + 1 && |s.ring.buf| == |old(s.ring).buf| + 1
  {
    hide Sane, Snapshots, Counted, Lossless;
    var _ := s.BeginWrite(1, 0, 1, [b]);
    s.Snapshot(1);
    OpenEnds(s.ring, s.tables, s.threads);
    var _ := s.CheckWrite(1);
    var _ := s.Wake(1);
    s.Release(1);
    OpenEnds(s.ring, s.tables, s.threads);
    assert s.threads == map[0 := ReadWait(1, 0)];
  }

  /** Another call reads a byte. */
  method ReadOne(s: System)
    requires AboutToWait(s) && s.ring.buf != []
    modifies s
    ensures AboutToWait(s) && s.wakes == old(s.wakes) + 1 && |s.ring.buf| == |old(s.ring).buf| - 1
  {
    hide Sane, Snapshots, Counted, Lossless;
    var _ := s.BeginRead(1, 0, 0, 1);
    s.Snapshot(1);
    var _ := s.CheckRead(1);
    var _ := s.Wake(1);
    s.Release(1);
    OpenEnds(s.ring, s.tables, s.threads);
    assert s.threads == map[0 := ReadWait(1, 0)];
  }

  /** A reader that is slow by 2^64 wakeups sleeps on a pipe that has data: two bytes are written, then 2^63 - 1 times a
      byte is written and one is read. */
  method WrapLoses(b: byte) returns (s: System)
    ensures fresh(s) && s.Valid() && s.wakes == WRAP && s.threads == map[0 := ReadBlocked(1)]
    ensures !s.NoLostWakeup() && s.ring.buf != []
  {
    hide Sane, Snapshots, Counted, Lossless;
    s := new System();
    var _ := s.BeginRead(0, 0, 0, 1);
    s.Snapshot(0);
    GenerationOf(s.threads, s.at, s.generation, s.wakes);
    OpenEnds(s.ring, s.tables, s.threads);
    var _ := s.CheckRead(0);
    WriteOne(s, b);
    WriteOne(s, b);
    for i := 0 to WRAP / 2 - 1
      invariant AboutToWait(s) && s.wakes == 2 + 2 * i && |s.ring.buf| == 2
    {
      WriteOne(s, b);
      ReadOne(s);
    }
    GenerationOf(s.threads, s.at, s.generation, s.wakes);
    s.Wait(0);
  }
}
