/** The TCP client control block.

    `Control` holds the fields of the source's Tcb; the class updates it in
    place and records in `wire` every segment handed to the network, which may
    drop, duplicate or reorder them. The ghost `Trace` counts without
    wrap-around: `stream` is every byte the user has written, `una`, `nxt` and
    `max` are the offsets behind snd_una, snd_nxt and snd_max (offset 0 is the
    SYN, stream byte i is offset 1 + i, the FIN is offset 1 + |stream|), and
    `peer` is the byte stream the other side is sending.
  */
module TcpTcb {
  import opened Basics
  import opened TcpSeq

  const MSS: nat := 1460
  const DEFAULT_PEER_MSS: nat := 536
  const RECV_CAP: nat := 16 * 1024
  const SEND_CAP: nat := 8 * 1024
  const INITIAL_RTO: nat := 100
  const MAX_RTO: nat := 1600
  const MAX_RETRIES: nat := 6
  const FIN_WAIT2_TIMEOUT: nat := 3000

  datatype State = Idle | SynSent | Established | FinWait1 | FinWait2 | CloseWait | Closing | LastAck | Closed

  datatype Error = ConnectionRefused | ConnectionReset | TimedOut | NotConnected | BrokenPipe | InvalidArgument

  /** How a lock section of read or write ends. */
  datatype Outcome = Done(bytes: seq<byte>) | Block | Failed(error: Error)

  /** A segment handed to the network. */
  datatype Out = Out(num: u32, ack: u32, syn: bool, hasAck: bool, fin: bool, rst: bool, window: nat, payload: seq<byte>)

  /** A segment received from the network. */
  datatype Segment = Segment(num: u32, ack: u32, syn: bool, hasAck: bool, fin: bool, rst: bool, window: nat,
                             mss: Option<nat>, payload: seq<byte>)

  /** One lock section, with the time it runs at. */
  datatype Event =
    | Open(iss: u32, now: nat)
    | Put(bytes: seq<byte>, now: nat)
    | Get(n: nat)
    | Close(now: nat)
    | Expiry(now: nat)
    | Arrive(seg: Segment, now: nat, o: nat)

  datatype Control = Control(
    state: State, iss: u32, sndUna: u32, sndNxt: u32, sndMax: u32, sndWnd: nat, mss: nat,
    sendBuf: seq<byte>, finQueued: bool, finSeq: Option<u32>, finAcked: bool,
    rcvNxt: u32, recvBuf: seq<byte>, peerFin: bool, userClosed: bool, advertised: nat,
    error: Option<Error>, rto: nat, retries: nat, deadline: Option<nat>)

  datatype Trace = Trace(
    stream: seq<byte>, una: nat, nxt: nat, max: nat, places: seq<nat>,
    peer: seq<byte>, irs: u32, taken: nat, delivered: seq<byte>, edge: nat)

  predicate Sync(s: State) { !s.Idle? && !s.SynSent? && !s.Closed? }

  predicate FinSent(s: State) { s.FinWait1? || s.FinWait2? || s.Closing? || s.LastAck? }

  predicate Accepts(s: State) { s.Established? || s.FinWait1? || s.FinWait2? }

  // ---- Invariants ---------------------------------------------------------------------

  /** What a segment at offset `p` may carry: the SYN at 0, stream bytes at their own place, the FIN one past
      the last byte. Resets answer somebody else's numbers and carry nothing. */
  ghost predicate SegmentOk(w: Out, p: nat, iss: u32, stream: seq<byte>, closing: bool) {
    && |w.payload| <= MSS && w.window <= RECV_CAP
    && (w.rst ==> w.payload == [] && !w.fin && !w.syn)
    && (!w.rst ==> w.num == Num(iss, p))
    && (w.syn ==> p == 0 && w.payload == [] && !w.fin)
    && (w.payload != [] ==>
           1 <= p && p - 1 + |w.payload| <= |stream| && w.payload == stream[p - 1..p - 1 + |w.payload|])
    && (w.fin ==> closing && p == 1 + |stream| && w.payload == [])
  }

  /** Every segment ever sent was right, and still is. */
  ghost predicate LogOk(wire: seq<Out>, places: seq<nat>, iss: u32, stream: seq<byte>, closing: bool) {
    && |places| == |wire|
    && (forall i :: 0 <= i < |wire| ==> SegmentOk(wire[i], places[i], iss, stream, closing))
  }

  ghost predicate Numbers(c: Control, g: Trace) {
    c.sndUna == Num(c.iss, g.una) && c.sndNxt == Num(c.iss, g.nxt) && c.sndMax == Num(c.iss, g.max)
  }

  /** The offset of our FIN. */
  ghost function FinPlace(g: Trace): nat { 1 + |g.stream| }

  /** The send side before the handshake completes: nothing to send but the SYN. */
  ghost predicate Opening(c: Control, g: Trace) {
    g.stream == [] && c.sendBuf == [] && !c.finQueued && c.finSeq.None? && !c.finAcked
  }

  /** The send side of a synchronized connection. */
  ghost predicate Flowing(c: Control, g: Trace) {
    && Numbers(c, g) && 1 <= g.una <= g.nxt <= g.max
    && g.una <= FinPlace(g) + 1 && |c.sendBuf| <= SEND_CAP
    && c.sendBuf == (if g.una <= FinPlace(g) then g.stream[g.una - 1..] else [])
    && (c.finSeq.None? ==> g.max <= FinPlace(g))
    && (c.finSeq.Some? ==> c.finQueued && c.finSeq.value == Num(c.iss, FinPlace(g)) && g.max == FinPlace(g) + 1)
    && (c.finAcked <==> g.una == FinPlace(g) + 1)
  }

  ghost predicate SendCore(c: Control, g: Trace) {
    && c.mss <= MSS
    && (c.state.Idle? ==> Opening(c, g))
    && (c.state.SynSent? ==> Opening(c, g) && Numbers(c, g) && g.una == 0 && g.nxt <= g.max <= 1)
    && (Sync(c.state) ==>
           Flowing(c, g) && (c.finSeq.Some? <==> FinSent(c.state)) && (c.finAcked <==> c.state.FinWait2?))
  }

  /** Something is unacknowledged, unsent, or being waited out. */
  ghost predicate Outstanding(c: Control, g: Trace) {
    g.una < g.max || c.sendBuf != [] || c.state.FinWait2?
  }

  ghost predicate Timers(c: Control, g: Trace) {
    && INITIAL_RTO <= c.rto <= MAX_RTO && c.retries <= MAX_RETRIES
    && (c.state.Idle? ==> c.deadline.None?)
    && (c.state.SynSent? || Sync(c.state) ==> (c.deadline.Some? <==> Outstanding(c, g)))
  }

  ghost function PeerFins(c: Control): nat { if c.peerFin then 1 else 0 }

  /** One past the highest offset of the peer's stream there is room for. */
  ghost function RightEdge(c: Control, g: Trace): nat
    requires |c.recvBuf| <= RECV_CAP
  {
    g.taken + PeerFins(c) + RECV_CAP - |c.recvBuf|
  }

  ghost predicate RecvCore(c: Control, g: Trace) {
    && |c.recvBuf| <= RECV_CAP
    && (c.state.Idle? || c.state.SynSent? ==> !c.peerFin)
    && (Sync(c.state) ==> (c.peerFin <==> !Accepts(c.state)))
    && (c.state.Idle? || c.state.SynSent? ==> c.recvBuf == [] && g.delivered == [] && g.edge == 0)
    && (Sync(c.state) ==> c.rcvNxt == WrapAdd(g.irs, 1 + g.taken + PeerFins(c)) && g.edge <= RightEdge(c, g))
  }

  /** Whenever the lock is free, everything the peer's window allows has been sent, and a queued FIN has
      followed the last byte. (A peer that offers a maximum segment size of 0 gets nothing.) */
  ghost predicate Drained(c: Control, g: Trace) {
    Sync(c.state) && !c.state.FinWait2? ==>
      && (c.mss == 0 || g.nxt - g.una >= |c.sendBuf| || g.nxt - g.una >= c.sndWnd)
      && (c.finQueued ==> g.nxt - g.una != |c.sendBuf|)
  }

  /** What the user has read, followed by what is buffered, is a prefix of the peer's stream, and the peer's
      FIN has been taken only after its last byte. */
  ghost predicate Faithful(c: Control, g: Trace) {
    && g.taken <= |g.peer|
    && (c.peerFin ==> g.taken == |g.peer|)
    && (!c.userClosed ==> g.delivered + c.recvBuf == g.peer[..g.taken])
  }

  // ---- Small steps ----------------------------------------------------------------------

  /** data_before_cursor */
  function DataBeforeCursor(c: Control): nat { Min(WrapSub(c.sndNxt, c.sndUna), |c.sendBuf|) }

  /** In a synchronized state the cursor's distance from snd_una is the difference of offsets. */
  lemma CursorDistance(c: Control, g: Trace)
    requires Flowing(c, g)
    ensures g.max <= g.una + SEND_CAP + 1 && |c.sendBuf| <= SEND_CAP
    ensures WrapSub(c.sndNxt, c.sndUna) == g.nxt - g.una && WrapSub(c.sndMax, c.sndUna) == g.max - g.una
    ensures g.nxt - g.una <= |c.sendBuf| + 1
    ensures g.nxt - g.una < |c.sendBuf| ==>
              g.nxt - 1 <= |g.stream| && c.sendBuf[g.nxt - g.una..] == g.stream[g.nxt - 1..]
    ensures g.nxt - g.una == |c.sendBuf| && !c.finAcked ==> g.nxt == FinPlace(g)
  {
    NumDiff(c.iss, g.una, g.nxt);
    NumDiff(c.iss, g.una, g.max);
  }

  /** How many bytes the next segment of output carries. */
  function Room(c: Control, probe: bool): nat {
    var inFlight := DataBeforeCursor(c);
    var unsent := |c.sendBuf| - inFlight;
    // On expiry, one byte is allowed into a closed window.
    var window := if probe && c.sndWnd == 0 && inFlight == 0 then 1 else c.sndWnd;
    Min(Min(unsent, if window > inFlight then window - inFlight else 0), c.mss)
  }

  lemma RoomExact(c: Control, g: Trace, probe: bool)
    requires Flowing(c, g)
    ensures g.una <= g.nxt <= g.una + SEND_CAP + 1
    ensures var n := Room(c, probe);
            if n > 0 then n <= c.mss && g.nxt - g.una + n <= |c.sendBuf|
            else
              && (c.mss == 0 || g.nxt - g.una >= |c.sendBuf| || g.nxt - g.una >= c.sndWnd)
              && (c.mss == 0 || !probe || c.sendBuf == [] || g.nxt > g.una)
  {
    CursorDistance(c, g);
  }

  /** snd_una, snd_nxt and snd_max are in order, modulo 2^32, whenever they mean anything. */
  lemma CursorOrder(c: Control, g: Trace)
    requires SendCore(c, g) && (Sync(c.state) || c.state.SynSent?)
    ensures SeqLe(c.sndUna, c.sndNxt) && SeqLe(c.sndNxt, c.sndMax) && SeqLe(c.sndUna, c.sndMax)
  {
    if Sync(c.state) {
      CursorDistance(c, g);
    }
    SerialOrder(c.iss, g.una, g.nxt);
    SerialOrder(c.iss, g.nxt, g.max);
    SerialOrder(c.iss, g.una, g.max);
  }

  /** advance */
  function Advance(c: Control, len: nat): Control {
    var nxt := WrapAdd(c.sndNxt, len);
    c.(sndNxt := nxt, sndMax := if SeqLt(c.sndMax, nxt) then nxt else c.sndMax)
  }

  ghost function Advanced(g: Trace, len: nat): Trace {
    g.(nxt := g.nxt + len, max := if g.nxt + len > g.max then g.nxt + len else g.max)
  }

  lemma AdvanceNumbers(c: Control, g: Trace, len: nat)
    requires Numbers(c, g) && g.una <= g.nxt <= g.max < g.una + HALF && g.nxt + len < g.una + HALF
    ensures Numbers(Advance(c, len), Advanced(g, len))
  {
    NumAdd(c.iss, g.nxt, len);
    SerialOrder(c.iss, g.max, g.nxt + len);
  }

  /** arm */
  function Arm(c: Control, now: nat): Control {
    if c.deadline.None? then c.(deadline := Some(now + c.rto)) else c
  }

  lemma ArmKeeps(c: Control, g: Trace, now: nat)
    ensures SendCore(Arm(c, now), g) <==> SendCore(c, g)
    ensures RecvCore(Arm(c, now), g) <==> RecvCore(c, g)
    ensures Drained(Arm(c, now), g) <==> Drained(c, g)
  {
  }

  /** fail */
  function Fail(c: Control, e: Error): Control {
    c.(error := Some(e), state := Closed, deadline := None, sendBuf := [])
  }

  /** Recording a sent segment leaves the send side as it was. */
  lemma LoggingKeeps(c: Control, g: Trace, c': Control, g': Trace)
    requires c' == c.(advertised := c'.advertised) && g' == g.(places := g'.places, edge := g'.edge)
    ensures Flowing(c', g') <==> Flowing(c, g)
    ensures SendCore(c', g') <==> SendCore(c, g)
    ensures Timers(c', g') <==> Timers(c, g)
    ensures TimersBefore(c', g') <==> TimersBefore(c, g)
    ensures FinPending(c', g') <==> FinPending(c, g)
    ensures Faithful(c', g') <==> Faithful(c, g)
    ensures Drained(c', g') <==> Drained(c, g)
  {
  }

  /** `n` unsent bytes may go out at the cursor. */
  lemma DataSegment(c: Control, g: Trace, n: nat)
    requires Flowing(c, g) && 0 < n <= MSS && g.nxt - g.una + n <= |c.sendBuf|
    ensures g.nxt >= g.una
    ensures SegmentOk(Out(c.sndNxt, 0, false, true, false, false, 0, c.sendBuf[g.nxt - g.una..g.nxt - g.una + n]),
                      g.nxt, c.iss, g.stream, c.finQueued)
  {
    CursorDistance(c, g);
  }

  /** Moving the cursor past the bytes sent keeps the send side sound. */
  lemma DataStepKeeps(c0: Control, g0: Trace, c: Control, g: Trace, n: nat, now: nat)
    requires c == c0.(advertised := c.advertised) && g == g0.(places := g0.places + [g0.nxt], edge := g.edge)
    requires g.edge >= g0.edge
    requires Flowing(c0, g0) && RecvCore(c, g) && 0 < n && g.nxt - g.una + n <= |c.sendBuf|
    ensures var c', g' := Arm(Advance(c, n), now), Advanced(g, n);
            && Flowing(c', g') && RecvCore(c', g') && Pushed(c0, g0, c', g')
            && c'.state == c.state && c'.finSeq == c.finSeq && c'.iss == c.iss && c'.finQueued == c.finQueued
            && c'.deadline.Some?
            && g' == g.(nxt := g.nxt + n, max := g'.max)
  {
    hide Num, WrapAdd, WrapSub, SeqLt;
    LoggingKeeps(c0, g0, c, g);
    CursorDistance(c, g);
    AdvanceNumbers(c, g, n);
  }

  /** The state after sending a FIN. */
  function FinState(s: State): State {
    match s
    case Established => FinWait1
    case CloseWait => LastAck
    case _ => s
  }

  /** When output decides to send the FIN, the cursor is at the FIN's place. */
  lemma FinKeeps(c: Control, g: Trace)
    requires SendCore(c, g) && RecvCore(c, g) && Sync(c.state) && !c.finAcked && c.finQueued
    requires WrapSub(c.sndNxt, c.sndUna) == |c.sendBuf| && (c.finSeq.None? || c.finSeq.value == c.sndNxt)
    ensures g.nxt == FinPlace(g) && c.sndNxt == Num(c.iss, FinPlace(g))
    ensures RecvCore(c.(finSeq := Some(c.sndNxt)), g)
    ensures !c.state.FinWait2?
    ensures FinPending(c.(finSeq := Some(c.sndNxt)), g)
  {
    CursorDistance(c, g);
  }

  /** The cursor is at the FIN's place exactly when output's test says so. */
  lemma FinDue(c: Control, g: Trace)
    requires SendCore(c, g) && Sync(c.state) && !c.state.FinWait2?
    ensures !c.finAcked && (WrapSub(c.sndNxt, c.sndUna) == |c.sendBuf| <==> g.nxt - g.una == |c.sendBuf|)
    ensures g.nxt - g.una == |c.sendBuf| && c.finSeq.Some? ==> c.finSeq.value == c.sndNxt
  {
    CursorDistance(c, g);
  }

  /** The FIN is on the wire but the cursor has not moved past it. */
  ghost predicate FinPending(c: Control, g: Trace) {
    && c.mss <= MSS && Sync(c.state) && !c.state.FinWait2? && c.finQueued && !c.finAcked
    && Numbers(c, g) && 1 <= g.una <= g.nxt == FinPlace(g) && g.nxt <= g.max <= FinPlace(g) + 1
    && |c.sendBuf| <= SEND_CAP && c.sendBuf == g.stream[g.una - 1..]
    && c.finSeq == Some(c.sndNxt)
  }

  lemma FinAdvanceKeeps(c: Control, g: Trace)
    requires FinPending(c, g) && RecvCore(c, g)
    ensures var c', g' := Advance(c, 1), Advanced(g, 1);
            SendCore(c'.(state := FinState(c'.state)), g') && RecvCore(c'.(state := FinState(c'.state)), g')
  {
    AdvanceNumbers(c, g, 1);
  }

  /** The fields sending does not change. */
  predicate Kept(c: Control, c': Control) {
    c' == c.(advertised := c'.advertised, sndNxt := c'.sndNxt, sndMax := c'.sndMax, deadline := c'.deadline,
             finSeq := c'.finSeq, state := c'.state)
  }

  /** What sending may change: the cursor and its high-water mark forwards, the timer, the FIN's record and
      the state it leads to. */
  ghost predicate Pushed(c: Control, g: Trace, c': Control, g': Trace) {
    && Kept(c, c')
    && (if g'.nxt > g.nxt then g.places < g'.places && g'.places[|g.places|] == g.nxt else g'.places == g.places)
    && g' == g.(nxt := g'.nxt, max := g'.max, places := g'.places, edge := g'.edge)
    && g'.nxt >= g.nxt && g'.max >= g.max && (g'.max > g.max ==> g'.nxt > g.nxt) && g'.edge >= g.edge
    && (c'.state == c.state || (c.state.Established? && c'.state.FinWait1?) ||
        (c.state.CloseWait? && c'.state.LastAck?))
    && (c.deadline.Some? ==> c'.deadline == c.deadline)
  }

  /** Sending changes nothing the user reads. */
  lemma PushedFrame(c: Control, g: Trace, c': Control, g': Trace)
    requires Pushed(c, g, c', g')
    ensures Faithful(c', g') <==> Faithful(c, g)
    ensures g'.stream == g.stream && g'.peer == g.peer && g'.irs == g.irs && g'.delivered == g.delivered
    ensures g'.edge >= g.edge
    ensures c.state.Established? ==> c'.state.Established? || c'.state.FinWait1?
    ensures Sync(c'.state) <==> Sync(c.state)
    ensures c'.state.SynSent? <==> c.state.SynSent?
    ensures c'.state.Idle? <==> c.state.Idle?
    ensures c'.state.FinWait2? <==> c.state.FinWait2?
    ensures g' == g.(nxt := g'.nxt, max := g'.max, places := g'.places, edge := g'.edge)
    ensures c'.iss == c.iss && g'.una == g.una && c'.retries == c.retries && c'.rto == c.rto
    ensures Kept(c, c') && g'.nxt >= g.nxt && (c.deadline.Some? ==> c'.deadline == c.deadline)
    ensures if g'.nxt > g.nxt then g.places < g'.places && g'.places[|g.places|] == g.nxt else g'.places == g.places
  {
  }

  lemma PushedTrans(c: Control, g: Trace, c1: Control, g1: Trace, c2: Control, g2: Trace)
    requires Pushed(c, g, c1, g1) && Pushed(c1, g1, c2, g2) && c.state == c1.state
    ensures Pushed(c, g, c2, g2)
  {
  }

  lemma SendFlowing(c: Control, g: Trace, c': Control, g': Trace)
    requires SendCore(c, g) && Sync(c.state)
    ensures Flowing(c, g) && c.mss <= MSS
    ensures Flowing(c', g') && Kept(c, c') && c'.state == c.state && c'.finSeq == c.finSeq ==> SendCore(c', g')
  {
  }

  lemma ArmPushed(c: Control, g: Trace, c': Control, g': Trace, now: nat)
    requires Pushed(c, g, c', g') && SendCore(c', g') && RecvCore(c', g') && Sync(c'.state)
    ensures var c2 := Arm(c', now);
            Pushed(c, g, c2, g') && SendCore(c2, g') && RecvCore(c2, g') && (Drained(c2, g') <==> Drained(c', g'))
    ensures |c'.sendBuf| > DataBeforeCursor(c') <==> g'.nxt - g'.una < |c'.sendBuf|
  {
    hide SendCore, RecvCore, Flowing, Drained, WrapSub;
    SendFlowing(c', g', c', g');
    CursorDistance(c', g');
    ArmKeeps(c', g', now);
  }

  lemma FinSegment(c: Control, g: Trace)
    requires FinPending(c, g)
    ensures SegmentOk(Out(c.sndNxt, 0, false, true, true, false, 0, []), g.nxt, c.iss, g.stream, c.finQueued)
  {
  }

  /** The cursor moves past the FIN and the state moves on. */
  function FinStep(c: Control, now: nat): Control {
    var c' := Advance(c, 1);
    Arm(c'.(state := FinState(c'.state)), now)
  }

  lemma FinStepKeeps(c0: Control, g0: Trace, c: Control, g: Trace, now: nat)
    requires c == c0.(finSeq := Some(c.sndNxt), advertised := c.advertised)
    requires g == g0.(places := g0.places + [g0.nxt], edge := g.edge) && g.edge >= g0.edge
    requires FinPending(c, g) && RecvCore(c, g)
    ensures var c', g' := FinStep(c, now), Advanced(g, 1);
            && SendCore(c', g') && RecvCore(c', g') && Pushed(c0, g0, c', g') && Sync(c'.state) && !c'.state.FinWait2?
            && c'.iss == c.iss && c'.finQueued == c.finQueued && c'.deadline.Some? && g.nxt - g.una == |c'.sendBuf|
            && g' == g.(nxt := g.nxt + 1, max := g'.max)
  {
    FinAdvanceKeeps(c, g);
    ArmKeeps(Advance(c, 1).(state := FinState(c.state)), Advanced(g, 1), now);
  }

  lemma LogAppend(wire: seq<Out>, places: seq<nat>, iss: u32, stream: seq<byte>, closing: bool, w: Out, p: nat)
    requires LogOk(wire, places, iss, stream, closing) && SegmentOk(w, p, iss, stream, closing)
    ensures LogOk(wire + [w], places + [p], iss, stream, closing)
  {
  }

  /** Bytes appended to the stream, before the FIN is queued, leave every sent segment right. */
  lemma LogGrow(wire: seq<Out>, places: seq<nat>, iss: u32, stream: seq<byte>, d: seq<byte>)
    requires LogOk(wire, places, iss, stream, false)
    ensures LogOk(wire, places, iss, stream + d, false)
  {
    forall i | 0 <= i < |wire|
      ensures SegmentOk(wire[i], places[i], iss, stream + d, false)
    {
      assert SegmentOk(wire[i], places[i], iss, stream, false);
    }
  }

  lemma LogClose(wire: seq<Out>, places: seq<nat>, iss: u32, stream: seq<byte>, closing: bool)
    requires LogOk(wire, places, iss, stream, closing)
    ensures LogOk(wire, places, iss, stream, true)
  {
  }

  // ---- Receiving ----------------------------------------------------------------------

  /** The fields set by the answer to our SYN. */
  function Establish(c: Control, seg: Segment): Control {
    var mss := Min(if seg.mss.Some? then seg.mss.value else DEFAULT_PEER_MSS, MSS);
    c.(rcvNxt := WrapAdd(seg.num, 1), sndUna := seg.ack, sndWnd := seg.window, mss := mss, state := Established,
       retries := 0, rto := INITIAL_RTO, deadline := None)
  }

  lemma EstablishKeeps(c: Control, g: Trace, seg: Segment)
    requires SendCore(c, g) && RecvCore(c, g) && c.state.SynSent? && g.nxt == g.max == 1
    requires seg.ack == WrapAdd(c.iss, 1)
    ensures var c', g' := Establish(c, seg), g.(una := 1, irs := seg.num, taken := 0);
            && SendCore(c', g') && RecvCore(c', g') && TimersBefore(c', g') && c'.sndMax == Num(c'.iss, g'.max)
            && Faithful(c', g')
  {
    assert g.delivered + c.recvBuf == g.peer[..0];
  }

  /** The branch of on_segment that takes an acknowledgement of new data, up to the state change. */
  function AckBase(c: Control, ack: u32, now: nat): Control {
    var acked := WrapSub(ack, c.sndUna);
    c.(sendBuf := c.sendBuf[Min(acked, |c.sendBuf|)..],
       finAcked := c.finAcked || (c.finSeq.Some? && SeqLt(c.finSeq.value, ack)),
       sndUna := ack,
       // A rewound cursor catches up with what is acknowledged.
       sndNxt := if SeqLt(c.sndNxt, ack) then ack else c.sndNxt,
       retries := 0, rto := INITIAL_RTO,
       deadline := if ack != c.sndMax then Some(now + INITIAL_RTO) else None)
  }

  /** An acknowledged FIN moves the connection on. */
  function AckStep(c: Control, ack: u32, now: nat): Control {
    var c' := AckBase(c, ack, now);
    if !c'.finAcked then c'
    else match c.state
      case FinWait1 => c'.(state := FinWait2, deadline := Some(now + FIN_WAIT2_TIMEOUT))
      case Closing => c'.(state := Closed)
      case LastAck => c'.(state := Closed)
      case _ => c'
  }

  ghost function AckTrace(g: Trace, a: nat): Trace { g.(una := a, nxt := if g.nxt < a then a else g.nxt) }

  /** The acknowledgement nobody sent: with nothing in flight, the number half the space ahead. */
  predicate Stray(c: Control, seg: Segment) {
    Sync(c.state) && !seg.rst && !seg.syn && seg.hasAck && c.sndUna == c.sndMax && seg.ack == WrapAdd(c.sndUna, HALF)
  }

  /** On the way to Output: an armed timer has a reason, and data in flight has a timer. */
  ghost predicate TimersBefore(c: Control, g: Trace) {
    && INITIAL_RTO <= c.rto <= MAX_RTO && c.retries <= MAX_RETRIES
    && (Sync(c.state) && c.deadline.Some? ==> Outstanding(c, g))
    && (Sync(c.state) && (g.una < g.max || c.state.FinWait2?) ==> c.deadline.Some?)
  }

  lemma TimersAfterOutput(c: Control, g: Trace, c': Control, g': Trace)
    requires TimersBefore(c, g) && Pushed(c, g, c', g') && SendCore(c, g)
    requires Sync(c.state)
    requires c.deadline.None? ==> (c'.deadline.Some? <==> g'.nxt > g.nxt || g'.nxt - g'.una < |c'.sendBuf|)
    requires c.state.FinWait2? <==> c'.state.FinWait2?
    requires SendCore(c', g')
    ensures Timers(c', g')
  {
  }

  /** While something is unacknowledged, the FIN's place lies in the send window. */
  lemma AckBounds(c: Control, g: Trace)
    requires Flowing(c, g) && g.una < g.max
    ensures g.una <= FinPlace(g) <= g.una + SEND_CAP && g.max <= FinPlace(g) + 1
    ensures c.sendBuf == g.stream[g.una - 1..]
  {
  }

  lemma AckNumbers(c: Control, g: Trace, ack: u32, now: nat)
    requires Flowing(c, g) && g.una < AckOffset(c.iss, g.una, ack) <= g.max
    ensures var c', g' := AckBase(c, ack, now), AckTrace(g, AckOffset(c.iss, g.una, ack));
            Numbers(c', g') && g'.una <= g'.nxt <= g'.max
    ensures ack == c.sndMax <==> AckOffset(c.iss, g.una, ack) == g.max
    ensures WrapSub(ack, c.sndUna) == AckOffset(c.iss, g.una, ack) - g.una
    ensures SeqLt(Num(c.iss, FinPlace(g)), ack) <==> FinPlace(g) < AckOffset(c.iss, g.una, ack)
  {
    hide Num, SeqLt, SeqLe;
    var a := AckOffset(c.iss, g.una, ack);
    AckBounds(c, g);
    AckOffsetNum(c.iss, g.una, ack);
    SerialOrder(c.iss, g.nxt, a);
    SerialOrder(c.iss, a, g.max);
    SerialOrder(c.iss, FinPlace(g), a);
  }

  /** The buffer, the cursor and the numbers after an acknowledgement up to offset `a`. */
  lemma AckFlow(c: Control, g: Trace, ack: u32, now: nat)
    requires Flowing(c, g) && g.una < AckOffset(c.iss, g.una, ack) <= g.max
    ensures Flowing(AckBase(c, ack, now), AckTrace(g, AckOffset(c.iss, g.una, ack)))
  {
    hide Num, WrapSub, SeqLt, Numbers, AckOffset;
    var a := AckOffset(c.iss, g.una, ack);
    AckBounds(c, g);
    AckNumbers(c, g, ack, now);
    AckBuffer(c.sendBuf, g.stream, g.una, a);
    var c', g' := AckBase(c, ack, now), AckTrace(g, a);
    assert c'.sendBuf == c.sendBuf[Min(a - g.una, |c.sendBuf|)..] && g'.stream == g.stream && g'.una == a;
    assert g'.max == g.max;
    assert c'.finSeq == c.finSeq && c'.finQueued == c.finQueued && c'.iss == c.iss;
    assert c'.finAcked <==> g'.una == FinPlace(g') + 1;
  }

  lemma AckBuffer(buf: seq<byte>, stream: seq<byte>, una: nat, a: nat)
    requires 1 <= una < a <= |stream| + 2 && una <= |stream| + 1 && buf == stream[una - 1..]
    ensures buf[Min(a - una, |buf|)..] == if a <= |stream| + 1 then stream[a - 1..] else []
  {
  }

  /** Any accepted acknowledgement but the stray one keeps the send side sound. */
  lemma AckKeeps(c: Control, g: Trace, ack: u32, now: nat)
    requires SendCore(c, g) && Sync(c.state)
    requires AckAccepted(c.sndUna, c.sndMax, ack)
    requires !(c.sndUna == c.sndMax && ack == WrapAdd(c.sndUna, HALF))
    ensures var c', g' := AckStep(c, ack, now), AckTrace(g, AckOffset(c.iss, g.una, ack));
            && g.una < g'.una <= g.max
            && SendCore(c', g') && TimersBefore(c', g') && c'.sndMax == Num(c'.iss, g'.max)
            && (c'.state == c.state || (c.state.FinWait1? && c'.state.FinWait2?) ||
                ((c.state.Closing? || c.state.LastAck?) && c'.state.Closed?))
  {
    hide Num, SeqLt, SeqLe, WrapSub;
    var a := AckOffset(c.iss, g.una, ack);
    CursorDistance(c, g);
    AckExact(c.iss, g.una, g.max, ack);
    if a == g.una + HALF && g.una == g.max {
      AckOffsetNum(c.iss, g.una, ack);
      NumAdd(c.iss, g.una, HALF);
    }
    AckFlow(c, g, ack, now);
    AckNumbers(c, g, ack, now);
    FlowingFrame(AckBase(c, ack, now), AckStep(c, ack, now), AckTrace(g, a));
  }

  /** The send side does not depend on the state, the timer or the receive side. */
  lemma FlowingFrame(c: Control, c': Control, g: Trace)
    requires c' == c.(state := c'.state, deadline := c'.deadline, recvBuf := c'.recvBuf, rcvNxt := c'.rcvNxt,
                      peerFin := c'.peerFin,
                      sndWnd := c'.sndWnd, retries := c'.retries)
    ensures Flowing(c', g) <==> Flowing(c, g)
  {
  }

  /** snd_max is half the space away from snd_una: no stream fits. */
  predicate Astray(c: Control) { WrapSub(c.sndMax, c.sndUna) == HALF }

  lemma AstrayBreaks(c: Control, g: Trace)
    requires Astray(c)
    ensures !Flowing(c, g)
  {
    if Flowing(c, g) {
      CursorDistance(c, g);
    }
  }

  /** The stray acknowledgement is accepted: the numbers part for good, the state stays, and what was waiting to be sent
      is dropped. */
  lemma StrayBreaks(c: Control, g: Trace, ack: u32, now: nat)
    requires SendCore(c, g) && Sync(c.state)
    requires c.sndUna == c.sndMax && ack == WrapAdd(c.sndUna, HALF)
    ensures AckAccepted(c.sndUna, c.sndMax, ack)
    ensures var c' := AckStep(c, ack, now);
            && Astray(c') && c'.sendBuf == [] && c'.sndNxt == c'.sndUna && c'.state == c.state && c'.sndMax == c.sndMax
            && c' == c.(sendBuf := [], finAcked := c.finAcked, sndUna := ack, sndNxt := ack,
                        retries := 0, rto := INITIAL_RTO, deadline := c'.deadline)
            && (c'.finSeq.None? || c.state.FinWait2?)
  {
    hide SendCore, Flowing, SeqLt, SeqLe, WrapSub, WrapAdd;
    StrayNumbers(c.sndUna);
    StrayIdle(c, g);
  }

  lemma StrayNumbers(una: u32)
    ensures var ack := WrapAdd(una, HALF);
            && AckAccepted(una, una, ack) && WrapSub(ack, una) == HALF == WrapSub(una, ack) && SeqLt(una, ack)
            && ack != una
  {
    StrayAckAccepted(una);
    assert Num(una, 0) == una;
    NumDiff(una, 0, HALF);
  }

  /** With nothing in flight the cursor is at snd_una, the buffer is within bounds and a FIN is either acknowledged or
      not sent yet. */
  lemma StrayIdle(c: Control, g: Trace)
    requires SendCore(c, g) && Sync(c.state) && c.sndUna == c.sndMax
    ensures c.sndNxt == c.sndUna && |c.sendBuf| <= SEND_CAP && (c.finAcked <==> c.state.FinWait2?)
    ensures (c.finSeq.None? || c.finAcked)
  {
    CursorDistance(c, g);
  }

  lemma StrayRecv(c: Control, g: Trace, ack: u32, now: nat, window: nat)
    requires SendCore(c, g) && RecvCore(c, g) && Sync(c.state) && c.sndUna == c.sndMax && ack == WrapAdd(c.sndUna, HALF)
    ensures var c' := AckStep(c, ack, now).(sndWnd := window);
            RecvCore(c', g) && (Faithful(c', g) <==> Faithful(c, g)) && Astray(c') && c'.mss <= MSS
  {
    StrayBreaks(c, g, ack, now);
  }

  lemma StrayHonest(c: Control, g: Trace, seg: Segment, o: nat, now: nat)
    requires SendCore(c, g) && Sync(c.state) && c.sndUna == c.sndMax && seg.ack == WrapAdd(c.sndUna, HALF)
    ensures Honest(AckStep(c, seg.ack, now).(sndWnd := seg.window), g, seg, o) <==> Honest(c, g, seg, o)
  {
    StrayBreaks(c, g, seg.ack, now);
  }

  lemma StrayTaken(c: Control, payload: seq<byte>, fin: bool)
    requires |c.recvBuf| <= RECV_CAP && Sync(c.state)
    ensures var c' := TakeStep(c, payload, fin);
            && c' == c.(state := c'.state, recvBuf := c'.recvBuf, rcvNxt := c'.rcvNxt, peerFin := c'.peerFin,
                        deadline := c'.deadline)
            && (Astray(c') <==> Astray(c)) && StrayMove(c.state, c'.state)
  {
  }

  lemma StrayStays(s: State)
    requires Sync(s)
    ensures StrayMove(s, s)
  {
  }

  /** Where a peer's FIN can lead. */
  predicate StrayMove(from: State, to_: State) {
    && (Sync(to_) || to_.Closed?) && (to_ == from || to_.CloseWait? || to_.Closing? || to_.Closed?)
    && (from.FinWait2? ==> to_.FinWait2? || to_.Closed?)
  }

  lemma StrayLogged(c: Control, g: Trace, c': Control, g': Trace)
    requires c' == c.(advertised := c'.advertised) && g' == g.(places := g'.places, edge := g'.edge)
    ensures (Astray(c') <==> Astray(c)) && (Faithful(c', g') <==> Faithful(c, g))
  {
  }

  lemma StrayFaithful(c: Control, g: Trace, num: u32, now: nat)
    requires |c.recvBuf| <= RECV_CAP
    ensures Faithful(FinStep(c.(finSeq := Some(num), advertised := RECV_CAP - |c.recvBuf|), now), g) <==> Faithful(c, g)
    ensures Sync(c.state) ==> Sync(FinStep(c.(finSeq := Some(num), advertised := RECV_CAP - |c.recvBuf|), now).state)
  {
  }

  lemma StrayMarked(c: Control, c': Control, g: Trace)
    requires c' == c.(finSeq := c'.finSeq, advertised := c'.advertised)
    ensures (Astray(c') <==> Astray(c)) && (Faithful(c', g) <==> Faithful(c, g))
  {
  }

  lemma RecvBound(c: Control, g: Trace)
    requires RecvCore(c, g)
    ensures |c.recvBuf| <= RECV_CAP
  {
  }

  lemma ClosedValid(c: Control, g: Trace)
    requires c.state.Closed? && c.mss <= MSS && INITIAL_RTO <= c.rto <= MAX_RTO && c.retries <= MAX_RETRIES
    ensures SendCore(c, g) && Timers(c, g) && Drained(c, g)
  {
  }

  /** A FIN sent from there leaves snd_max behind. */
  lemma AstrayFin(c: Control, now: nat)
    requires Astray(c) && c.sndNxt == c.sndUna
    ensures Astray(FinStep(c, now))
  {
    var d := Num(c.sndUna, 1);
    NumDiff(c.sndUna, 0, 1);
    assert WrapSub(c.sndMax, d) == HALF - 1;
  }

  /** How much of an in-order payload is taken: all of it once the user is gone, else what fits. */
  function TakeLength(c: Control, len: nat): nat
    requires |c.recvBuf| <= RECV_CAP
  {
    if !Accepts(c.state) then 0 else if c.userClosed then len else Min(len, RECV_CAP - |c.recvBuf|)
  }

  predicate TakesFin(c: Control, payload: seq<byte>, fin: bool)
    requires |c.recvBuf| <= RECV_CAP
  {
    fin && Accepts(c.state) && TakeLength(c, |payload|) == |payload|
  }

  /** on_segment's treatment of in-order payload and FIN. */
  function TakeStep(c: Control, payload: seq<byte>, fin: bool): Control
    requires |c.recvBuf| <= RECV_CAP
  {
    var n := TakeLength(c, |payload|);
    var c1 := c.(recvBuf := if c.userClosed then c.recvBuf else c.recvBuf + payload[..n],
                 rcvNxt := WrapAdd(c.rcvNxt, n));
    if !TakesFin(c, payload, fin) then c1
    else
      var c2 := c1.(rcvNxt := WrapAdd(c1.rcvNxt, 1), peerFin := true);
      match c.state
      case Established => c2.(state := CloseWait)
      case FinWait1 => c2.(state := Closing)
      case FinWait2 => c2.(state := Closed, deadline := None)
      case _ => c2
  }

  ghost function TakeTrace(c: Control, g: Trace, len: nat): Trace
    requires |c.recvBuf| <= RECV_CAP
  {
    g.(taken := g.taken + TakeLength(c, len))
  }

  /** Taking in-order data keeps the receive numbers, the buffer bound and the advertised edge. */
  lemma TakeRecv(c: Control, g: Trace, payload: seq<byte>, fin: bool)
    requires RecvCore(c, g)
    ensures RecvCore(TakeStep(c, payload, fin), TakeTrace(c, g, |payload|))
  {
    hide WrapAdd;
    var n := TakeLength(c, |payload|);
    if Sync(c.state) {
      NumAdd(g.irs, 1 + g.taken + PeerFins(c), n);
      NumAdd(g.irs, 1 + g.taken + n + PeerFins(c), 1);
    }
  }

  /** Taking in-order data does not touch the send side, and a peer's FIN leads to a sound state. */
  lemma TakeSend(c: Control, g: Trace, payload: seq<byte>, fin: bool)
    requires |c.recvBuf| <= RECV_CAP && SendCore(c, g) && TimersBefore(c, g)
    ensures var c', g' := TakeStep(c, payload, fin), TakeTrace(c, g, |payload|);
            SendCore(c', g') && TimersBefore(c', g') && c'.sndMax == c.sndMax && c'.iss == c.iss
  {
    hide Flowing;
    FlowingFrame(c, TakeStep(c, payload, fin), g);
    FlowingTaken(TakeStep(c, payload, fin), g, TakeLength(c, |payload|));
  }

  lemma FlowingTaken(c: Control, g: Trace, n: nat)
    ensures Flowing(c, g.(taken := g.taken + n)) <==> Flowing(c, g)
  {
  }

  /** The segment carries bytes `o`.. of the peer's stream, a FIN only at its end, and is not stale by a whole
      wrap of the sequence space. */
  ghost predicate Honest(c: Control, g: Trace, seg: Segment, o: nat) {
    Sync(c.state) && !seg.syn && !seg.rst ==>
      && seg.num == WrapAdd(g.irs, 1 + o)
      && o + |seg.payload| <= |g.peer| && seg.payload == g.peer[o..o + |seg.payload|]
      && (seg.fin ==> o + |seg.payload| == |g.peer|)
      && g.taken < o + SPACE && o < g.taken + SPACE
  }

  /** A segment of a peer that numbers its stream from `irs`: its SYN, a reset, or the bytes `o`.. of the stream. */
  ghost predicate FromPeer(seg: Segment, o: nat, irs: u32, peer: seq<byte>) {
    && (seg.syn ==> seg.num == irs)
    && (!seg.syn && !seg.rst ==>
          && seg.num == WrapAdd(irs, 1 + o)
          && o + |seg.payload| <= |peer| && seg.payload == peer[o..o + |seg.payload|]
          && (seg.fin ==> o + |seg.payload| == |peer|))
  }

  ghost predicate Genuine(events: seq<Event>, irs: u32, peer: seq<byte>) {
    && |peer| < SPACE
    && forall i :: 0 <= i < |events| && events[i].Arrive? ==> FromPeer(events[i].seg, events[i].o, irs, peer)
  }

  lemma GenuineIsHonest(c: Control, g: Trace, seg: Segment, o: nat, irs: u32)
    requires FromPeer(seg, o, irs, g.peer) && |g.peer| < SPACE && Faithful(c, g) && (Sync(c.state) ==> g.irs == irs)
    ensures Honest(c, g, seg, o) && (seg.syn ==> seg.num == irs)
  {
  }

  /** In-order data extends the prefix the user sees. */
  lemma TakeFaithful(c: Control, g: Trace, seg: Segment, o: nat)
    requires RecvCore(c, g) && Faithful(c, g) && Honest(c, g, seg, o) && seg.num == c.rcvNxt && !seg.syn && !seg.rst
    ensures Faithful(TakeStep(c, seg.payload, seg.fin), TakeTrace(c, g, |seg.payload|))
  {
    hide WrapAdd;
    var n := TakeLength(c, |seg.payload|);
    if Accepts(c.state) {
      InOrder(g.irs, g.taken, o);
    }
    TakenBytes(g.peer, g.taken, seg.payload, n, g.delivered, c.recvBuf);
  }

  lemma TakenBytes(peer: seq<byte>, taken: nat, payload: seq<byte>, n: nat, delivered: seq<byte>, buf: seq<byte>)
    requires n <= |payload| && taken <= |peer|
    ensures buf + payload[..0] == buf
    ensures taken + |payload| <= |peer| && payload == peer[taken..taken + |payload|] &&
            delivered + buf == peer[..taken] ==>
              delivered + (buf + payload[..n]) == peer[..taken + n]
  {
    if taken + |payload| <= |peer| && payload == peer[taken..taken + |payload|] && delivered + buf == peer[..taken] {
      assert delivered + (buf + payload[..n]) == (delivered + buf) + payload[..n];
    }
  }

  lemma WindowKeeps(c: Control, g: Trace, window: nat)
    requires SendCore(c, g) && RecvCore(c, g) && TimersBefore(c, g)
    ensures var c' := c.(sndWnd := window);
            SendCore(c', g) && RecvCore(c', g) && TimersBefore(c', g) && (Faithful(c', g) <==> Faithful(c, g))
  {
  }

  lemma RetryKeeps(c: Control, g: Trace)
    requires SendCore(c, g) && RecvCore(c, g) && Timers(c, g)
    ensures var c' := c.(retries := 0);
            SendCore(c', g) && RecvCore(c', g) && Timers(c', g) && (Faithful(c', g) <==> Faithful(c, g))
  {
  }

  lemma MaxNumber(c: Control, g: Trace)
    requires SendCore(c, g) && Timers(c, g) && Sync(c.state)
    ensures c.sndMax == Num(c.iss, g.max) && TimersBefore(c, g)
  {
  }

  lemma FailKeeps(c: Control, g: Trace)
    requires SendCore(c, g) && RecvCore(c, g) && Timers(c, g)
    ensures forall e {:trigger Fail(c, e)} ::
              var c' := Fail(c, e);
              SendCore(c', g) && RecvCore(c', g) && Timers(c', g) && (Faithful(c, g) ==> Faithful(c', g))
    ensures var c' := c.(deadline := None, state := Closed);
            SendCore(c', g) && RecvCore(c', g) && Timers(c', g) && (Faithful(c, g) ==> Faithful(c', g))
  {
  }

  lemma CloseKeeps(c: Control, g: Trace)
    requires SendCore(c, g) && RecvCore(c, g) && Timers(c, g)
    ensures var c' := c.(state := Closed);
            SendCore(c', g) && RecvCore(c', g) && Timers(c', g) && (Faithful(c, g) ==> Faithful(c', g))
  {
  }

  lemma ArmFaithful(c: Control, g: Trace, now: nat)
    ensures Faithful(Arm(c, now), g) <==> Faithful(c, g)
  {
  }

  lemma ClosedTimers(c: Control, g: Trace)
    requires TimersBefore(c, g) && c.state.Closed?
    ensures Timers(c, g)
  {
  }

  lemma InOrder(irs: u32, taken: nat, o: nat)
    requires WrapAdd(irs, 1 + o) == WrapAdd(irs, 1 + taken)
    requires taken < o + SPACE && o < taken + SPACE
    ensures o == taken
  {
    if o < taken {
      NumDiff(irs, 1 + o, 1 + taken);
    } else {
      NumDiff(irs, 1 + taken, 1 + o);
    }
  }

  /** An acknowledgement step leaves the receive side alone. */
  lemma AckRecv(c: Control, g: Trace, ack: u32, now: nat, a: nat)
    requires RecvCore(c, g) && Sync(c.state)
    ensures RecvCore(AckStep(c, ack, now), AckTrace(g, a))
    ensures Faithful(AckStep(c, ack, now), AckTrace(g, a)) <==> Faithful(c, g)
    ensures var c' := AckStep(c, ack, now); c'.iss == c.iss && c'.finQueued == c.finQueued
    ensures forall seg, o {:trigger Honest(c, g, seg, o)} ::
              Honest(c, g, seg, o) ==> Honest(AckStep(c, ack, now), AckTrace(g, a), seg, o)
  {
  }

  // ---- Timer and user steps ---------------------------------------------------------------

  /** on_timer up to its call of output: the cursor at snd_una again, the timeout doubled. */
  function Rewind(c: Control): Control {
    c.(deadline := None, retries := c.retries + 1, rto := if c.rto * 2 < MAX_RTO then c.rto * 2 else MAX_RTO,
       sndNxt := if c.state.SynSent? then c.iss else c.sndUna)
  }

  lemma RewindKeeps(c: Control, g: Trace)
    requires SendCore(c, g) && RecvCore(c, g) && Timers(c, g) && !c.state.Idle?
    requires c.state.SynSent? ==> g.max == 1
    ensures var c', g' := Rewind(c), g.(nxt := g.una);
            && SendCore(c', g') && RecvCore(c', g') && INITIAL_RTO <= c'.rto <= MAX_RTO
            && (Faithful(c', g') <==> Faithful(c, g))
    ensures (c.state.SynSent? || Sync(c.state)) && c.deadline.Some? ==> Outstanding(c, g)
  {
  }

  /** The segment at snd_una is the first one out after a rewind. */
  ghost predicate Resent(g0: Trace, g: Trace) { g0.places < g.places && g.places[|g0.places|] == g0.una }

  /** It is resent exactly unless there is data and the peer's maximum segment size is 0. */
  lemma Resends(c0: Control, g0: Trace, c: Control, g: Trace)
    requires Pushed(c0, g0, c, g) && SendCore(c, g) && Drained(c, g) && g0.nxt == g0.una && !c.state.FinWait2?
    requires Sync(c.state) ==> g0.una < g0.max || c.sendBuf != []
    requires Sync(c.state) && c.mss > 0 && c.sendBuf != [] ==> g.nxt > g.una
    requires Sync(c.state) && c.mss == 0 && c.sendBuf != [] ==> g == g0
    requires c.state.SynSent? ==> g.nxt == g.max == 1
    ensures Sync(c.state) || c.state.SynSent? ==> (Resent(g0, g) <==> c.state.SynSent? || c.mss > 0 || c.sendBuf == [])
  {
  }

  lemma TimerBounds(c: Control, g: Trace)
    requires Timers(c, g)
    ensures c.retries <= MAX_RETRIES && INITIAL_RTO <= c.rto <= MAX_RTO && (c.state.Idle? ==> c.deadline.None?)
  {
  }

  lemma RewoundTimers(c: Control, g: Trace, c': Control, g': Trace, now: nat)
    requires Pushed(c, g, c', g') && !c.state.Idle? && !c.state.FinWait2?
    requires INITIAL_RTO <= c.rto <= MAX_RTO && c.retries <= MAX_RETRIES
    requires c.state.SynSent? || Sync(c.state) ==> g.una < g.max || c.sendBuf != []
    ensures Timers(Arm(c', now), g')
  {
  }

  lemma SendRoom(c: Control, g: Trace)
    requires SendCore(c, g) && Sync(c.state)
    ensures |c.sendBuf| <= SEND_CAP
  {
  }

  /** Queueing user data. */
  lemma WriteKeeps(c: Control, g: Trace, d: seq<byte>)
    requires SendCore(c, g) && RecvCore(c, g) && Timers(c, g)
    requires (c.state.Established? || c.state.CloseWait?) && !c.finQueued && |c.sendBuf| + |d| <= SEND_CAP
    ensures var c', g' := c.(sendBuf := c.sendBuf + d), g.(stream := g.stream + d);
            SendCore(c', g') && RecvCore(c', g') && TimersBefore(c', g') && (Faithful(c', g') <==> Faithful(c, g))
  {
    assert (g.stream + d)[g.una - 1..] == g.stream[g.una - 1..] + d;
  }

  /** Handing buffered bytes to the user. */
  lemma ReadKeeps(c: Control, g: Trace, n: nat)
    requires SendCore(c, g) && RecvCore(c, g) && Timers(c, g) && n <= |c.recvBuf|
    requires !c.state.Idle? && !c.state.SynSent?
    ensures var c', g' := c.(recvBuf := c.recvBuf[n..]), g.(delivered := g.delivered + c.recvBuf[..n]);
            SendCore(c', g') && RecvCore(c', g') && Timers(c', g') && (Faithful(c, g) ==> Faithful(c', g'))
  {
    assert (g.delivered + c.recvBuf[..n]) + c.recvBuf[n..] == g.delivered + c.recvBuf;
  }

  /** Closing: the unread bytes are dropped and, in a sending state, a FIN is queued. */
  lemma DropKeeps(c: Control, g: Trace)
    requires SendCore(c, g) && RecvCore(c, g) && Timers(c, g)
    ensures var c' := c.(userClosed := true, recvBuf := []);
            && SendCore(c', g) && RecvCore(c', g) && Timers(c', g) && (Faithful(c, g) ==> Faithful(c', g))
            && (c.state.Established? || c.state.CloseWait? ==>
                  var c2 := c'.(finQueued := true);
                  SendCore(c2, g) && RecvCore(c2, g) && TimersBefore(c2, g) && (Faithful(c, g) ==> Faithful(c2, g)))
  {
  }

  /** A segment that gets as far as its window, payload and FIN. */
  predicate Processed(c: Control, seg: Segment) {
    && Sync(c.state) && !seg.rst && !seg.syn && seg.hasAck
    && (AckAccepted(c.sndUna, c.sndMax, seg.ack) || !SeqLt(c.sndMax, seg.ack))
  }

  /** What an arriving segment does: exactly the acknowledged octets leave, exactly the in-order bytes that fit
      enter, the peer's FIN counts once everything before it has been taken, and a reset counts inside the
      receive window only. */
  ghost predicate Absorbed(c: Control, g: Trace, seg: Segment, c': Control, g': Trace)
    requires |c.recvBuf| <= RECV_CAP
  {
    && (Processed(c, seg) ==>
          && g'.una == (if AckAccepted(c.sndUna, c.sndMax, seg.ack) then AckOffset(c.iss, g.una, seg.ack) else g.una)
          && c'.sndWnd == seg.window
          && InTake(c, g, seg, c', g'))
    && (Sync(c.state) && !seg.rst && !Processed(c, seg) ==> c' == c.(advertised := c'.advertised))
    && (Sync(c.state) && seg.rst ==> c' == if ResetInWindow(c, seg.num) then Fail(c, ConnectionReset) else c)
  }

  ghost predicate InTake(c: Control, g: Trace, seg: Segment, c': Control, g': Trace)
    requires |c.recvBuf| <= RECV_CAP
  {
    var n := if seg.num == c.rcvNxt then TakeLength(c, |seg.payload|) else 0;
    && g'.taken == g.taken + n
    && c'.recvBuf == (if c.userClosed then c.recvBuf else c.recvBuf + seg.payload[..n])
    && (c'.peerFin <==> c.peerFin || (seg.num == c.rcvNxt && TakesFin(c, seg.payload, seg.fin)))
  }

  lemma TakeNothing(c: Control, g: Trace, seg: Segment, c': Control, g': Trace)
    requires |c.recvBuf| <= RECV_CAP && Kept(c.(sndWnd := seg.window), c') && g'.taken == g.taken
    requires seg.num != c.rcvNxt || (seg.payload == [] && !seg.fin)
    ensures InTake(c, g, seg, c', g') && c'.sndWnd == seg.window
  {
    assert c.recvBuf + seg.payload[..0] == c.recvBuf;
  }

  lemma TakeSomething(c: Control, g: Trace, seg: Segment, c': Control, g': Trace)
    requires |c.recvBuf| <= RECV_CAP && Kept(TakeStep(c.(sndWnd := seg.window), seg.payload, seg.fin), c')
    requires seg.num == c.rcvNxt && g'.taken == g.taken + TakeLength(c.(sndWnd := seg.window), |seg.payload|)
    ensures InTake(c, g, seg, c', g') && c'.sndWnd == seg.window
  {
  }

  lemma TakenFrame(c: Control, seg: Segment)
    requires |c.recvBuf| <= RECV_CAP && (Sync(c.state) || c.state.Closed?)
    ensures var c' := TakeStep(c.(sndWnd := seg.window), seg.payload, seg.fin);
            && (Sync(c'.state) || c'.state.Closed?) && c'.finQueued == c.finQueued && c'.sndMax == c.sndMax
            && c'.iss == c.iss
  {
  }

  lemma HonestFrame(c: Control, g: Trace, seg: Segment, o: nat)
    ensures Honest(c.(sndWnd := seg.window), g, seg, o) <==> Honest(c, g, seg, o)
  {
  }

  /** What is taken does not depend on the acknowledgement carried with it. */
  lemma AckTake(c: Control, g: Trace, now: nat, a: nat, seg: Segment, c': Control, g': Trace)
    requires |c.recvBuf| <= RECV_CAP && Sync(c.state)
    ensures InTake(AckStep(c, seg.ack, now), AckTrace(g, a), seg, c', g') <==> InTake(c, g, seg, c', g')
  {
  }

  predicate ResetInWindow(c: Control, num: u32)
    requires |c.recvBuf| <= RECV_CAP
  {
    var window := if RECV_CAP - |c.recvBuf| > 1 then RECV_CAP - |c.recvBuf| else 1;
    SeqLe(c.rcvNxt, num) && SeqLt(num, WrapAdd(c.rcvNxt, window))
  }

  class Tcb {
    var c: Control
    var wire: seq<Out>
    ghost var g: Trace

    ghost predicate Log()
      reads this
    {
      LogOk(wire, g.places, c.iss, g.stream, c.finQueued)
    }

    ghost predicate Valid()
      reads this
    {
      && Log() && SendCore(c, g) && Timers(c, g) && RecvCore(c, g)
      && Drained(c, g)
      && (c.state.Idle? ==> wire == [])
      && (c.state.SynSent? ==> g.nxt == g.max == 1)
    }

    constructor (ghost peer: seq<byte>)
      ensures Valid() && Faithful(c, g) && c.state.Idle? && g.peer == peer && g.stream == [] && g.delivered == []
      ensures c.error.None?
    {
      c := Control(Idle, 0, 0, 0, 0, 0, DEFAULT_PEER_MSS, [], false, None, false, 0, [], false, false, 0, None,
                   INITIAL_RTO, 0, None);
      wire := [];
      g := Trace([], 0, 0, 0, [], peer, 0, 0, [], 0);
    }

    // ---- Sending ------------------------------------------------------------------------

    /** Tcb::send. `p` is the offset the segment claims. */
    method Send(syn: bool, hasAck: bool, fin: bool, num: u32, payload: seq<byte>, ghost p: nat)
      requires Log() && RecvCore(c, g)
      requires SegmentOk(Out(num, 0, syn, hasAck, fin, false, 0, payload), p, c.iss, g.stream, c.finQueued)
      modifies this
      ensures Log() && RecvCore(c, g)
      ensures c == old(c).(advertised := RECV_CAP - |c.recvBuf|)
      ensures g.edge >= old(g).edge
      ensures wire == old(wire) + [Out(num, if hasAck then c.rcvNxt else 0, syn, hasAck, fin, false,
                                       RECV_CAP - |c.recvBuf|, payload)]
      ensures g == old(g).(places := old(g).places + [p],
                       edge := if Sync(c.state) && hasAck then RightEdge(c, old(g)) else old(g).edge)
    {
      hide LogOk;
      var window := RECV_CAP - |c.recvBuf|;
      c := c.(advertised := window);
      var ack := if hasAck then c.rcvNxt else 0;
      LogAppend(wire, g.places, c.iss, g.stream, c.finQueued, Out(num, ack, syn, hasAck, fin, false, window, payload),
                p);
      wire := wire + [Out(num, ack, syn, hasAck, fin, false, window, payload)];
      g := g.(places := g.places + [p], edge := if Sync(c.state) && hasAck then RightEdge(c, g) else g.edge);
    }

    method SendAck()
      requires Log() && RecvCore(c, g) && c.sndMax == Num(c.iss, g.max)
      modifies this
      ensures Log() && RecvCore(c, g)
      ensures c == old(c).(advertised := RECV_CAP - |c.recvBuf|)
      ensures g == old(g).(places := g.places, edge := g.edge) && g.edge >= old(g).edge
      ensures old(wire) < wire
    {
      Send(false, true, false, c.sndMax, [], g.max);
    }

    /** One data segment: `n` bytes from the cursor. */
    method SendOne(n: nat, now: nat)
      requires Log() && Flowing(c, g) && RecvCore(c, g) && Sync(c.state)
      requires 0 < n <= MSS && g.nxt - g.una + n <= |c.sendBuf|
      modifies this
      ensures Log() && Flowing(c, g) && RecvCore(c, g)
      ensures Pushed(old(c), old(g), c, g) && c.state == old(c).state && c.finSeq == old(c).finSeq
      ensures c.deadline.Some? && g.nxt == old(g).nxt + n && old(wire) <= wire
    {
      hide LogOk, Flowing, WrapAdd, WrapSub, SeqLt, RecvCore, Pushed, SegmentOk, Arm, Advance, Num;
      CursorDistance(c, g);
      var inFlight := DataBeforeCursor(c);
      DataSegment(c, g, n);
      Send(false, true, false, c.sndNxt, c.sendBuf[inFlight..inFlight + n], g.nxt);
      DataStepKeeps(old(c), old(g), c, g, n, now);
      c := Arm(Advance(c, n), now);
      g := Advanced(g, n);
    }

    /** The data loop of output: one segment per turn, as far as the window and the data go. */
    method SendData(now: nat, probe: bool)
      requires Log() && Flowing(c, g) && RecvCore(c, g) && Sync(c.state) && c.mss <= MSS
      modifies this
      ensures Log() && Flowing(c, g) && RecvCore(c, g) && Pushed(old(c), old(g), c, g)
      ensures c.state == old(c).state && c.finSeq == old(c).finSeq
      ensures old(c).deadline.None? ==> (c.deadline.Some? <==> g.nxt > old(g).nxt)
      ensures c.mss == 0 || g.nxt - g.una >= |c.sendBuf| || g.nxt - g.una >= c.sndWnd
      ensures c.mss == 0 || !probe || c.sendBuf == [] || g.nxt > g.una
      ensures old(wire) <= wire && (old(c).mss == 0 ==> c == old(c) && g == old(g) && wire == old(wire))
    {
      hide LogOk, Flowing, RecvCore, Room;
      assert Pushed(c, g, c, g);
      hide Pushed;
      while true
        invariant Log() && Flowing(c, g) && RecvCore(c, g) && Pushed(old(c), old(g), c, g)
        invariant c.state == old(c).state && c.finSeq == old(c).finSeq && c.mss == old(c).mss
        invariant g.nxt >= old(g).nxt
        invariant old(c).deadline.None? ==> (c.deadline.Some? <==> g.nxt > old(g).nxt)
        invariant old(wire) <= wire && (old(c).mss == 0 ==> c == old(c) && g == old(g) && wire == old(wire))
        decreases g.una + SEND_CAP + 1 - g.nxt
      {
        RoomExact(c, g, probe);
        var n := Room(c, probe);
        if n == 0 {
          break;
        }
        ghost var c0, g0 := c, g;
        SendOne(n, now);
        PushedFrame(c0, g0, c, g);
        PushedTrans(old(c), old(g), c0, g0, c, g);
      }
    }

    /** The FIN step of output: sent or resent, the FIN has the number after the last byte. */
    method SendFin(now: nat)
      requires Log() && SendCore(c, g) && RecvCore(c, g) && Sync(c.state) && !c.state.FinWait2?
      modifies this
      ensures Log() && SendCore(c, g) && RecvCore(c, g) && Pushed(old(c), old(g), c, g) && Sync(c.state)
      ensures old(c).deadline.None? ==> (c.deadline.Some? <==> g.nxt > old(g).nxt)
      ensures !c.state.FinWait2? && (c.finQueued ==> g.nxt - g.una != |c.sendBuf|)
      ensures old(wire) <= wire
      ensures (old(g).nxt - old(g).una != |old(c).sendBuf| ==> c == old(c) && g == old(g) && wire == old(wire))
    {
      hide LogOk, RecvCore, SendCore, FinPending, Num, WrapSub;
      FinDue(c, g);
      var cursorAtFin := WrapSub(c.sndNxt, c.sndUna) == |c.sendBuf|;
      if c.finQueued && !c.finAcked && cursorAtFin && (c.finSeq.None? || c.finSeq.value == c.sndNxt) {
        hide Pushed, SegmentOk;
        FinKeeps(c, g);
        c := c.(finSeq := Some(c.sndNxt));
        assert SegmentOk(Out(c.sndNxt, 0, false, true, true, false, 0, []), g.nxt, c.iss, g.stream, c.finQueued) by {
          FinSegment(c, g);
        }
        Send(false, true, true, c.sndNxt, [], g.nxt);
        LoggingKeeps(old(c).(finSeq := Some(c.sndNxt)), old(g), c, g);
        FinStepKeeps(old(c), old(g), c, g, now);
        c := FinStep(c, now);
        g := Advanced(g, 1);
      }
    }

    /** output before the handshake: the SYN, unless the cursor is already past it. */
    method SendSyn(now: nat)
      requires Log() && SendCore(c, g) && RecvCore(c, g) && c.state.SynSent?
      modifies this
      ensures Log() && SendCore(c, g) && RecvCore(c, g) && Pushed(old(c), old(g), c, g) && c.state.SynSent?
      ensures g.nxt == g.max == 1 && g.una == 0 && c.sendBuf == []
      ensures old(c).deadline.None? ==> (c.deadline.Some? <==> g.nxt > old(g).nxt)
      ensures old(wire) <= wire
      ensures old(c).sndNxt == c.iss ==>
                |wire| == |old(wire)| + 1 && wire[|old(wire)|].syn && wire[|old(wire)|].num == c.iss
    {
      hide LogOk;
      SerialOrder(c.iss, g.nxt, 0);
      if c.sndNxt == c.iss {
        Send(true, false, false, c.iss, [], 0);
        AdvanceNumbers(c, g, 1);
        c := Arm(Advance(c, 1), now);
        g := Advanced(g, 1);
      }
    }

    /** output: all data there is a window for, then the FIN if one is queued. The timer ends up armed if it was,
        if anything was sent, or if anything is still unsent. */
    method Output(now: nat, probe: bool)
      requires Log() && SendCore(c, g) && RecvCore(c, g)
      modifies this
      ensures Log() && SendCore(c, g) && RecvCore(c, g) && Pushed(old(c), old(g), c, g)
      ensures (Sync(c.state) || c.state.SynSent?) && old(c).deadline.None? ==>
                (c.deadline.Some? <==> g.nxt > old(g).nxt || g.nxt - g.una < |c.sendBuf|)
      ensures c.state.SynSent? ==> g.nxt == g.max == 1
      ensures Drained(c, g)
      ensures Sync(c.state) && !c.state.FinWait2? && c.mss > 0 && probe && c.sendBuf != [] ==> g.nxt > g.una
      ensures !Sync(c.state) && !c.state.SynSent? ==> c == old(c) && g == old(g) && wire == old(wire)
      ensures old(wire) <= wire
      ensures Sync(old(c).state) && old(c).mss == 0 && old(g).nxt - old(g).una != |old(c).sendBuf| ==>
                g == old(g) && wire == old(wire)
    {
      hide LogOk, RecvCore, Numbers;
      if c.state.SynSent? {
        SendSyn(now);
        return;
      }
      if !Sync(c.state) || c.state.FinWait2? {
        return;
      }
      SendAll(now, probe);
    }

    /** output in a synchronized state that still sends. */
    method SendAll(now: nat, probe: bool)
      requires Log() && SendCore(c, g) && RecvCore(c, g) && Sync(c.state) && !c.state.FinWait2?
      modifies this
      ensures Log() && SendCore(c, g) && RecvCore(c, g) && Pushed(old(c), old(g), c, g)
      ensures old(c).deadline.None? ==> (c.deadline.Some? <==> g.nxt > old(g).nxt || g.nxt - g.una < |c.sendBuf|)
      ensures Drained(c, g) && Sync(c.state) && !c.state.FinWait2?
      ensures c.mss > 0 && probe && c.sendBuf != [] ==> g.nxt > g.una
      ensures old(wire) <= wire
      ensures (old(c).mss == 0 && old(g).nxt - old(g).una != |old(c).sendBuf| ==> g == old(g) && wire == old(wire))
    {
      hide LogOk, RecvCore, SendCore, Flowing, WrapSub, Pushed;
      SendFlowing(c, g, c, g);
      SendData(now, probe);
      ghost var c0, g0 := c, g;
      PushedFrame(old(c), old(g), c0, g0);
      SendFlowing(old(c), old(g), c0, g0);
      SendFin(now);
      PushedFrame(c0, g0, c, g);
      PushedTrans(old(c), old(g), c0, g0, c, g);
      ArmPushed(old(c), old(g), c, g, now);
      if |c.sendBuf| > DataBeforeCursor(c) {
        c := Arm(c, now);
      }
    }

    // ---- Receiving ----------------------------------------------------------------------

    /** A reset outside the connection's own numbering: transmit called directly. */
    method TransmitReset(num: u32)
      requires Log()
      modifies this
      ensures Log() && c == old(c) && g == old(g).(places := g.places) && old(wire) < wire
    {
      hide LogOk;
      LogAppend(wire, g.places, c.iss, g.stream, c.finQueued, Out(num, 0, false, false, false, true, 0, []), 0);
      wire := wire + [Out(num, 0, false, false, false, true, 0, [])];
      g := g.(places := g.places + [0]);
    }

    /** on_segment in SynSent: only the answer to our SYN completes or refuses the connection. */
    method OnSynSent(seg: Segment, now: nat)
      requires Valid() && c.state.SynSent?
      modifies this
      ensures Valid() && (old(Faithful(c, g)) ==> Faithful(c, g))
      ensures g.stream == old(g).stream && g.peer == old(g).peer && g.delivered == old(g).delivered
      ensures g.edge >= old(g).edge
      ensures Sync(c.state) <==> seg.syn && seg.hasAck && !seg.rst && seg.ack == WrapAdd(c.iss, 1)
      ensures Sync(c.state) ==> g.irs == seg.num && g.taken == 0 && g.una == 1
      ensures !Sync(c.state) ==> g.irs == old(g).irs
      ensures Sync(c.state) ==> c.mss == Min(if seg.mss.Some? then seg.mss.value else DEFAULT_PEER_MSS, MSS)
      ensures Sync(c.state) ==> c.sendBuf == [] && !c.finQueued && c.error == old(c).error
      ensures c.iss == old(c).iss
      ensures c.state.Closed? <==> seg.rst && seg.hasAck && seg.ack == WrapAdd(c.iss, 1)
      ensures c.state.Closed? ==> c.error == Some(ConnectionRefused)
    {
      hide LogOk;
      if seg.hasAck && seg.ack != WrapAdd(c.iss, 1) {
        if !seg.rst {
          TransmitReset(seg.ack);
        }
        return;
      }
      if seg.rst {
        if seg.hasAck {
          c := Fail(c, ConnectionRefused);
        }
        return;
      }
      if seg.syn && seg.hasAck {
        EstablishKeeps(c, g, seg);
        c := Establish(c, seg);
        g := g.(una := 1, irs := seg.num, taken := 0);
        Answer(now);
      }
    }

    /** Output, at the end of a lock section that has settled everything else. */
    method Flush(now: nat)
      requires Log() && SendCore(c, g) && RecvCore(c, g) && TimersBefore(c, g) && (Sync(c.state) || c.state.Closed?)
      modifies this
      ensures Valid() && (old(Faithful(c, g)) ==> Faithful(c, g))
      ensures g == old(g).(nxt := g.nxt, max := g.max, places := g.places, edge := g.edge) && g.edge >= old(g).edge
      ensures (Sync(c.state) <==> Sync(old(c).state)) && c.iss == old(c).iss
      ensures Kept(old(c), c)
    {
      hide LogOk, SendCore, RecvCore, TimersBefore, Timers, Faithful, Pushed;
      ghost var c0, g0 := c, g;
      if !Sync(c.state) {
        ClosedTimers(c, g);
      }
      Output(now, false);
      PushedFrame(c0, g0, c, g);
      if Sync(c0.state) {
        TimersAfterOutput(c0, g0, c, g);
      }
    }

    /** Acknowledge, then send what is queued. */
    method Answer(now: nat)
      requires Log() && SendCore(c, g) && RecvCore(c, g) && TimersBefore(c, g) && (Sync(c.state) || c.state.Closed?)
      requires c.sndMax == Num(c.iss, g.max)
      modifies this
      ensures Valid() && (old(Faithful(c, g)) ==> Faithful(c, g))
      ensures g == old(g).(nxt := g.nxt, max := g.max, places := g.places, edge := g.edge) && g.edge >= old(g).edge
      ensures (Sync(c.state) <==> Sync(old(c).state)) && c.iss == old(c).iss
      ensures Kept(old(c), c)
    {
      hide LogOk, SendCore, RecvCore, TimersBefore, Timers, Faithful;
      SendAck();
      LoggingKeeps(old(c), old(g), c, g);
      Flush(now);
    }

    /** on_segment's handling of payload and FIN, before the answering ACK. */
    method Take(seg: Segment, ghost o: nat)
      requires SendCore(c, g) && RecvCore(c, g) && TimersBefore(c, g) && seg.num == c.rcvNxt && !seg.syn && !seg.rst
      modifies this
      ensures SendCore(c, g) && RecvCore(c, g) && TimersBefore(c, g)
      ensures c.sndMax == old(c).sndMax && c.iss == old(c).iss && c.finQueued == old(c).finQueued && wire == old(wire)
      ensures c.state == old(c).state || c.state.CloseWait? || c.state.Closing? || c.state.Closed?
      ensures old(Faithful(c, g) && Honest(c, g, seg, o)) ==> Faithful(c, g)
      ensures g == old(g).(taken := old(g).taken + TakeLength(old(c), |seg.payload|))
      ensures c == TakeStep(old(c), seg.payload, seg.fin)
    {
      hide SendCore, TimersBefore, WrapAdd;
      TakeRecv(c, g, seg.payload, seg.fin);
      TakeSend(c, g, seg.payload, seg.fin);
      if Faithful(c, g) && Honest(c, g, seg, o) {
        TakeFaithful(c, g, seg, o);
      }
      ghost var g' := TakeTrace(c, g, |seg.payload|);
      c := TakeStep(c, seg.payload, seg.fin);
      g := g';
    }

    /** on_segment after the acknowledgement: window, payload and FIN, then whatever may now be sent. */
    method OnData(seg: Segment, now: nat, ghost o: nat)
      requires Log() && SendCore(c, g) && RecvCore(c, g) && c.sndMax == Num(c.iss, g.max) && TimersBefore(c, g)
      requires Sync(c.state) || c.state.Closed?
      requires !seg.syn && !seg.rst
      modifies this
      ensures Valid() && (old(Faithful(c, g) && Honest(c, g, seg, o)) ==> Faithful(c, g))
      ensures g.stream == old(g).stream && g.peer == old(g).peer && g.irs == old(g).irs
      ensures g.delivered == old(g).delivered && g.edge >= old(g).edge
      ensures |old(c).recvBuf| <= RECV_CAP && InTake(old(c), old(g), seg, c, g) && c.sndWnd == seg.window
      ensures g.una == old(g).una
    {
      assert |c.recvBuf| <= RECV_CAP && c.recvBuf + seg.payload[..0] == c.recvBuf;
      hide LogOk, SendCore, TimersBefore, RecvCore, Timers, Faithful, Honest, InTake, TakeStep, TakeLength;
      HonestFrame(c, g, seg, o);
      WindowKeeps(c, g, seg.window);
      c := c.(sndWnd := seg.window);
      if seg.payload == [] && !seg.fin {
        Flush(now);
        TakeNothing(old(c), old(g), seg, c, g);
        return;
      }
      if seg.num == c.rcvNxt {
        Take(seg, o);
        TakenFrame(old(c), seg);
      }
      Answer(now);
      if seg.num == old(c).rcvNxt {
        TakeSomething(old(c), old(g), seg, c, g);
      } else {
        TakeNothing(old(c), old(g), seg, c, g);
      }
    }

    /** on_segment. `o` is where in the peer's stream the payload belongs, if the segment is honest. The invariant is
        kept exactly when the segment is not the stray acknowledgement or ends the connection. */
    method OnSegment(seg: Segment, now: nat, ghost o: nat)
      requires Valid()
      modifies this
      ensures Valid() <==> !old(Stray(c, seg)) || c.state.Closed?
      ensures old(Stray(c, seg)) && !c.state.Closed? ==> Sync(c.state) && Astray(c) && forall g' :: !Flowing(c, g')
      ensures old(Stray(c, seg)) ==> c.sendBuf == []
      ensures old(Faithful(c, g) && Honest(c, g, seg, o)) ==> Faithful(c, g)
      ensures g.stream == old(g).stream && g.peer == old(g).peer && g.delivered == old(g).delivered
      ensures g.edge >= old(g).edge
      ensures |old(c).recvBuf| <= RECV_CAP && (!old(Stray(c, seg)) ==> Absorbed(old(c), old(g), seg, c, g))
      ensures g.irs == old(g).irs || (old(c).state.SynSent? && seg.syn && g.irs == seg.num)
      ensures Sync(c.state) ==> Sync(old(c).state) || (old(c).state.SynSent? && seg.syn && g.irs == seg.num)
    {
      hide LogOk, Flowing, WrapAdd, Astray;
      if c.state.Idle? || c.state.Closed? {
        return;
      }
      if c.state.SynSent? {
        OnSynSent(seg, now);
        return;
      }
      if seg.rst {
        if ResetInWindow(c, seg.num) {
          c := Fail(c, ConnectionReset);
        }
        return;
      }
      if Stray(c, seg) {
        OnStray(seg, now, o);
        forall g' | Astray(c)
          ensures !Flowing(c, g')
        {
          AstrayBreaks(c, g');
        }
        return;
      }
      OnSyncSegment(seg, now, o);
    }

    /** on_segment for the stray acknowledgement, to its end: it is taken, window, payload and FIN follow, and output
        has no data left to send, at most a FIN that was queued. */
    method OnStray(seg: Segment, now: nat, ghost o: nat)
      requires Valid() && Stray(c, seg)
      modifies this
      ensures c.sendBuf == [] && (if c.state.Closed? then Valid() else Sync(c.state) && Astray(c))
      ensures old(Faithful(c, g) && Honest(c, g, seg, o)) ==> Faithful(c, g)
      ensures g.stream == old(g).stream && g.peer == old(g).peer && g.irs == old(g).irs
      ensures g.delivered == old(g).delivered && g.edge >= old(g).edge
    {
      hide LogOk, RecvCore, SendCore, Faithful, Honest, Astray, WrapAdd, WrapSub, AckStep, Timers, Drained, Num;
      MaxNumber(c, g);
      TimerBounds(c, g);
      StrayBreaks(c, g, seg.ack, now);
      StrayRecv(c, g, seg.ack, now, seg.window);
      StrayHonest(c, g, seg, o, now);
      c := AckStep(c, seg.ack, now).(sndWnd := seg.window);
      if seg.payload != [] || seg.fin {
        StrayData(seg, o);
      }
      if c.state.Closed? {
        ClosedValid(c, g);
        return;
      }
      StrayFin(now);
    }

    /** Payload and FIN of the stray segment, and the answer. */
    method StrayData(seg: Segment, ghost o: nat)
      requires Log() && RecvCore(c, g) && c.sndMax == Num(c.iss, g.max) && Sync(c.state) && Astray(c) && !seg.syn
      requires !seg.rst
      modifies this
      ensures Log() && RecvCore(c, g) && Astray(c)
      ensures old(Faithful(c, g) && Honest(c, g, seg, o)) ==> Faithful(c, g)
      ensures c == old(c).(state := c.state, recvBuf := c.recvBuf, rcvNxt := c.rcvNxt, peerFin := c.peerFin,
                       deadline := c.deadline,
                           advertised := c.advertised)
      ensures StrayMove(old(c).state, c.state)
      ensures g == old(g).(taken := g.taken, places := g.places, edge := g.edge) && g.edge >= old(g).edge
    {
      RecvBound(c, g);
      hide LogOk, RecvCore, Faithful, Honest, Astray, WrapAdd, TakeStep, TakeLength, Num, StrayMove;
      StrayStays(c.state);
      if seg.num == c.rcvNxt {
        StrayTake(seg, o);
      }
      ghost var c0, g0 := c, g;
      SendAck();
      StrayLogged(c0, g0, c, g);
    }

    method StrayTake(seg: Segment, ghost o: nat)
      requires Log() && RecvCore(c, g) && Sync(c.state) && Astray(c) && !seg.syn && !seg.rst && seg.num == c.rcvNxt
      modifies this`c, this`g
      ensures Log() && RecvCore(c, g) && Astray(c)
      ensures old(Faithful(c, g) && Honest(c, g, seg, o)) ==> Faithful(c, g)
      ensures c == old(c).(state := c.state, recvBuf := c.recvBuf, rcvNxt := c.rcvNxt, peerFin := c.peerFin,
                       deadline := c.deadline)
      ensures StrayMove(old(c).state, c.state) && g == old(g).(taken := g.taken)
    {
      RecvBound(c, g);
      hide LogOk, RecvCore, Faithful, Honest, Astray, WrapAdd, TakeStep, TakeLength, StrayMove;
      TakeRecv(c, g, seg.payload, seg.fin);
      if Faithful(c, g) && Honest(c, g, seg, o) {
        TakeFaithful(c, g, seg, o);
      }
      StrayTaken(c, seg.payload, seg.fin);
      ghost var g' := TakeTrace(c, g, |seg.payload|);
      c := TakeStep(c, seg.payload, seg.fin);
      g := g';
    }

    /** output after it: there is no data, and a FIN that was queued goes out. */
    method StrayFin(now: nat)
      requires RecvCore(c, g) && Sync(c.state) && Astray(c) && c.sndNxt == c.sndUna && c.sendBuf == []
      requires (c.finSeq.None? || c.state.FinWait2?)
      modifies this`c, this`wire
      ensures Sync(c.state) && Astray(c) && c.sendBuf == [] && (old(Faithful(c, g)) ==> Faithful(c, g))
    {
      RecvBound(c, g);
      hide RecvCore, Faithful, Astray;
      if !c.state.FinWait2? && c.finQueued && !c.finAcked {
        var c1 := c.(finSeq := Some(c.sndNxt), advertised := RECV_CAP - |c.recvBuf|);
        StrayMarked(c, c1, g);
        AstrayFin(c1, now);
        StrayFaithful(c, g, c.sndNxt, now);
        wire := wire + [Out(c.sndNxt, c.rcvNxt, false, true, true, false, RECV_CAP - |c.recvBuf|, [])];
        c := FinStep(c1, now);
      }
    }

    /** on_segment in a synchronized state, past the reset check. */
    method OnSyncSegment(seg: Segment, now: nat, ghost o: nat)
      requires Valid() && Sync(c.state) && !seg.rst && !Stray(c, seg)
      modifies this
      ensures Valid() && (old(Faithful(c, g) && Honest(c, g, seg, o)) ==> Faithful(c, g))
      ensures g.stream == old(g).stream && g.peer == old(g).peer && g.irs == old(g).irs
      ensures g.delivered == old(g).delivered && g.edge >= old(g).edge
      ensures |old(c).recvBuf| <= RECV_CAP && Absorbed(old(c), old(g), seg, c, g)
    {
      assert |c.recvBuf| <= RECV_CAP;
      hide LogOk, WrapAdd, Faithful, Honest, SendCore, RecvCore, Timers, TimersBefore, AckAccepted, SeqLt, InTake,
           Drained;
      MaxNumber(c, g);
      if seg.syn {
        SendAck();
        LoggingKeeps(old(c), old(g), c, g);
        return;
      }
      if !seg.hasAck {
        return;
      }
      if AckAccepted(c.sndUna, c.sndMax, seg.ack) {
        OnNewAck(seg, now, o);
        return;
      } else if SeqLt(c.sndMax, seg.ack) {
        SendAck();
        LoggingKeeps(old(c), old(g), c, g);
        return;
      } else if seg.ack == c.sndUna && seg.window == 0 {
        // A full but living peer does not use up the retries.
        RetryKeeps(c, g);
        c := c.(retries := 0);
        MaxNumber(c, g);
      }
      OnData(seg, now, o);
    }

    /** on_segment when the acknowledgement covers something new. */
    method OnNewAck(seg: Segment, now: nat, ghost o: nat)
      requires Valid() && Processed(c, seg) && !Stray(c, seg) && AckAccepted(c.sndUna, c.sndMax, seg.ack)
      modifies this
      ensures Valid() && (old(Faithful(c, g) && Honest(c, g, seg, o)) ==> Faithful(c, g))
      ensures g.stream == old(g).stream && g.peer == old(g).peer && g.irs == old(g).irs
      ensures g.delivered == old(g).delivered && g.edge >= old(g).edge
      ensures |old(c).recvBuf| <= RECV_CAP && Absorbed(old(c), old(g), seg, c, g)
    {
      assert |c.recvBuf| <= RECV_CAP;
      hide LogOk, WrapAdd, Faithful, Honest, SendCore, RecvCore, Timers, TimersBefore, AckAccepted, SeqLt, InTake,
           Drained, AckStep, AckOffset;
      AckKeeps(c, g, seg.ack, now);
      ghost var a := AckOffset(c.iss, g.una, seg.ack);
      AckRecv(c, g, seg.ack, now, a);
      c := AckStep(c, seg.ack, now);
      g := AckTrace(g, a);
      OnData(seg, now, o);
      AckTake(old(c), old(g), now, a, seg, c, g);
    }

    /** on_timer: retransmit with a doubled timeout, or give up. */
    method OnTimer(now: nat)
      requires Valid()
      modifies this
      ensures Valid() && (old(Faithful(c, g)) ==> Faithful(c, g))
      ensures Sync(c.state) ==> Sync(old(c).state)
      ensures g.stream == old(g).stream && g.peer == old(g).peer && g.irs == old(g).irs
      ensures g.delivered == old(g).delivered && g.edge >= old(g).edge
      ensures old(c).deadline.None? || now < old(c).deadline.value ==> c == old(c) && g == old(g) && wire == old(wire)
      ensures old(c).deadline.Some? && now >= old(c).deadline.value && (Sync(old(c).state) || old(c).state.SynSent?) ==>
                if old(c).state.FinWait2? || old(c).retries == MAX_RETRIES then
                  && c.state.Closed? && wire == old(wire)
                  && c.error == if old(c).state.FinWait2? then old(c).error else Some(TimedOut)
                else c.retries == old(c).retries + 1 && c.deadline.Some?
                     && (if old(c).state.SynSent? then c.state.SynSent? else Sync(c.state))
                     && c.rto == Min(old(c).rto * 2, MAX_RTO) && g.una == old(g).una
                     && c.sendBuf == old(c).sendBuf && c.mss == old(c).mss
                     && c.state.FinWait2? == old(c).state.FinWait2?
                     && (Resent(old(g), g) <==> c.state.SynSent? || c.mss > 0 || c.sendBuf == [])
                     && (Sync(c.state) && c.mss == 0 && c.sendBuf != [] ==> wire == old(wire))
      ensures old(c).state.Closed? ==> c.state.Closed?
    {
      hide LogOk, Faithful, Pushed, RecvCore, SendCore, Timers;
      TimerBounds(c, g);
      if c.deadline.None? || now < c.deadline.value {
        return;
      }
      if c.state.FinWait2? {
        FailKeeps(c, g);
        c := c.(deadline := None, state := Closed);
        return;
      }
      if c.retries + 1 > MAX_RETRIES {
        FailKeeps(c, g);
        c := Fail(c, TimedOut);
        return;
      }
      RewindKeeps(c, g);
      c := Rewind(c);
      g := g.(nxt := g.una);
      ghost var c0, g0 := c, g;
      Output(now, true);
      PushedFrame(c0, g0, c, g);
      Resends(c0, g0, c, g);
      RewoundTimers(c0, g0, c, g, now);
      ArmKeeps(c, g, now);
      ArmFaithful(c, g, now);
      c := Arm(c, now);
    }

    // ---- The user's side ----------------------------------------------------------------

    /** The lock section of connect: an idle socket takes `iss` and sends its SYN. */
    method Connect(iss: u32, now: nat) returns (ok: bool)
      requires Valid()
      modifies this
      ensures Valid() && (old(Faithful(c, g)) ==> Faithful(c, g))
      ensures Sync(c.state) ==> Sync(old(c).state)
      ensures ok <==> old(c).state.Idle?
      ensures c.error == old(c).error
      ensures ok ==> c.state.SynSent? && c.iss == iss && |wire| == 1 && wire[0].syn && wire[0].num == iss
      ensures !ok ==> c == old(c) && g == old(g) && wire == old(wire)
      ensures g.stream == old(g).stream && g.peer == old(g).peer && g.irs == old(g).irs
      ensures g.delivered == old(g).delivered && g.edge >= old(g).edge
    {
      ok := c.state.Idle?;
      if !ok {
        return;
      }
      c := c.(iss := iss, sndUna := iss, sndNxt := iss, sndMax := iss, state := SynSent);
      g := g.(una := 0, nxt := 0, max := 0);
      SendSyn(now);
    }

    /** The lock section of write, for bytes not yet queued. */
    method Write(d: seq<byte>, now: nat) returns (r: Outcome)
      requires Valid() && d != []
      modifies this
      ensures Valid() && (old(Faithful(c, g)) ==> Faithful(c, g))
      ensures Sync(c.state) ==> Sync(old(c).state)
      ensures r.Done? ==> |r.bytes| > 0 && r.bytes <= d && g.stream == old(g).stream + r.bytes
      ensures !r.Done? ==> g.stream == old(g).stream && c == old(c) && wire == old(wire)
      ensures r.Done? ==>
                c.sendBuf == old(c).sendBuf + r.bytes && c.mss == old(c).mss && c.finQueued == old(c).finQueued
      ensures r.Done? ==> Sync(c.state)
      ensures r.Block? ==> |c.sendBuf| == SEND_CAP
      ensures r.Failed? <==> !(c.error.None? && (old(c).state.Established? || old(c).state.CloseWait?) && !c.finQueued)
      ensures g.peer == old(g).peer && g.irs == old(g).irs && g.delivered == old(g).delivered && g.edge >= old(g).edge
    {
      hide LogOk, Faithful, SendCore, RecvCore, Timers, TimersBefore;
      if c.error.Some? {
        return Failed(c.error.value);
      }
      if c.state.Idle? || c.state.SynSent? {
        return Failed(NotConnected);
      }
      if !((c.state.Established? || c.state.CloseWait?) && !c.finQueued) {
        return Failed(BrokenPipe);
      }
      SendRoom(c, g);
      var n := Min(SEND_CAP - |c.sendBuf|, |d|);
      if n == 0 {
        return Block;
      }
      WriteKeeps(c, g, d[..n]);
      LogGrow(wire, g.places, c.iss, g.stream, d[..n]);
      c := c.(sendBuf := c.sendBuf + d[..n]);
      g := g.(stream := g.stream + d[..n]);
      Flush(now);
      return Done(d[..n]);
    }

    /** The lock section of read. */
    method Read(n: nat) returns (r: Outcome)
      requires Valid() && n > 0
      modifies this
      ensures Valid() && (old(Faithful(c, g)) ==> Faithful(c, g))
      ensures Sync(c.state) ==> Sync(old(c).state)
      ensures r.Done? ==> g.delivered == old(g).delivered + r.bytes && |r.bytes| <= n
      ensures r.Done? && r.bytes == [] ==> c.recvBuf == [] && (c.peerFin || c.state.Closed?)
      ensures !r.Done? ==> c == old(c) && g == old(g) && wire == old(wire)
      ensures r.Block? ==> c.recvBuf == [] && !c.peerFin && (Sync(c.state) || c.state.SynSent?)
      ensures g.stream == old(g).stream && g.peer == old(g).peer && g.irs == old(g).irs && g.edge >= old(g).edge
    {
      hide LogOk, Faithful, Flowing, SegmentOk;
      if c.recvBuf != [] {
        var m := Min(n, |c.recvBuf|);
        var bytes := c.recvBuf[..m];
        ReadKeeps(c, g, m);
        c := c.(recvBuf := c.recvBuf[m..]);
        g := g.(delivered := g.delivered + bytes);
        // The user has made room worth announcing.
        if c.advertised < RECV_CAP / 2 && RECV_CAP - |c.recvBuf| >= RECV_CAP / 2 && Sync(c.state) {
          MaxNumber(c, g);
          ghost var c0, g0 := c, g;
          SendAck();
          LoggingKeeps(c0, g0, c, g);
        }
        return Done(bytes);
      }
      if c.peerFin {
        assert g.delivered + [] == g.delivered;
        return Done([]);
      }
      if c.error.Some? {
        return Failed(c.error.value);
      }
      match c.state
      case Idle => return Failed(NotConnected);
      case Closed =>
        assert g.delivered + [] == g.delivered;
        return Done([]);
      case _ => return Block;
    }

    /** Drop for TcpSocket: the last descriptor is gone. */
    method Drop(now: nat)
      requires Valid()
      modifies this
      ensures Valid() && (old(Faithful(c, g)) ==> Faithful(c, g)) && c.userClosed
      ensures Sync(c.state) ==> Sync(old(c).state)
      ensures old(c).state.SynSent? ==> c.state.Closed?
      ensures old(c).state.Established? || old(c).state.CloseWait? ==> c.finQueued
      ensures g.stream == old(g).stream && g.peer == old(g).peer && g.irs == old(g).irs
      ensures g.delivered == old(g).delivered && g.edge >= old(g).edge
    {
      hide LogOk, Faithful, SendCore, RecvCore, Timers, TimersBefore;
      DropKeeps(c, g);
      c := c.(userClosed := true, recvBuf := []);
      match c.state
      case SynSent =>
        CloseKeeps(c, g);
        c := c.(state := Closed);
      case Established =>
        LogClose(wire, g.places, c.iss, g.stream, c.finQueued);
        c := c.(finQueued := true);
        Flush(now);
      case CloseWait =>
        LogClose(wire, g.places, c.iss, g.stream, c.finQueued);
        c := c.(finQueued := true);
        Flush(now);
      case _ =>
    }

    // ---- Whole runs -----------------------------------------------------------------------

    /** Left to the retransmission timer alone, however late each expiry is noticed, a connection that waits for
        something closes after at most MAX_RETRIES + 1 expiries. */
    method Expire(late: nat -> nat) returns (fired: nat)
      requires Valid() && (Sync(c.state) || c.state.SynSent?) && Outstanding(c, g)
      modifies this
      ensures Valid() && c.state.Closed? && fired + old(c).retries <= MAX_RETRIES + 1
    {
      hide LogOk, SendCore, RecvCore, Faithful;
      fired := 0;
      while !c.state.Closed?
        invariant Valid() && (c.state.Closed? || ((Sync(c.state) || c.state.SynSent?) && c.deadline.Some?))
        invariant fired <= MAX_RETRIES + 1 - old(c).retries
        invariant (!c.state.Closed? ==> c.retries == old(c).retries + fired)
        decreases !c.state.Closed?, MAX_RETRIES - c.retries
      {
        OnTimer(c.deadline.value + late(fired));
        fired := fired + 1;
      }
    }

    /** A peer whose maximum segment size is 0 is sent none of the data that waits, not even as a probe: the timer
        expires, whenever it does, until the connection is given up, and nothing is put on the wire. */
    method Starve(late: nat -> nat)
      requires Valid() && Sync(c.state) && !c.state.FinWait2? && c.mss == 0 && c.sendBuf != []
      modifies this
      ensures Valid() && c.state.Closed? && c.error == Some(TimedOut) && wire == old(wire) && g.stream == old(g).stream
    {
      hide LogOk, SendCore, RecvCore, Faithful, Drained;
      var fired := 0;
      while !c.state.Closed?
        invariant Valid() && wire == old(wire) && g.stream == old(g).stream
        invariant if c.state.Closed? then c.error == Some(TimedOut)
                  else Sync(c.state) && !c.state.FinWait2? && c.deadline.Some? && c.mss == 0 && c.sendBuf != []
        decreases !c.state.Closed?, MAX_RETRIES - c.retries
      {
        OnTimer(c.deadline.value + late(fired));
        fired := fired + 1;
      }
    }

    /** Any interleaving of user calls, arriving segments and timer expiries. Segments may be lost, repeated, reordered
        or forged; if none that arrives is forged, what the user has read is a prefix of the peer's stream. A peer whose
        stream is shorter than the sequence space and whose SYN carries `irs` forges nothing by sending pieces of that
        stream, whenever they arrive. The run ends, with false, at a stray acknowledgement that leaves the connection
        open: exactly then the invariant is lost. */
    method Run(events: seq<Event>, ghost irs: u32) returns (ok: bool, ghost honest: bool)
      requires Valid()
      modifies this
      ensures (ok <==> Valid()) && (!ok ==> Sync(c.state) && Astray(c))
      ensures old(g).stream <= g.stream && old(g).delivered <= g.delivered && old(g).edge <= g.edge
      ensures g.peer == old(g).peer
      ensures old(Faithful(c, g)) && honest ==> Faithful(c, g)
      ensures old(Faithful(c, g)) && Genuine(events, irs, g.peer) && (Sync(old(c).state) ==> old(g).irs == irs) ==>
                honest
    {
      hide LogOk, SendCore, RecvCore, Timers, Faithful, Honest, FromPeer, Flowing, Astray;
      ok, honest := true, true;
      ghost var genuine := Faithful(c, g) && Genuine(events, irs, g.peer) && (Sync(c.state) ==> g.irs == irs);
      for i := 0 to |events|
        invariant Valid()
        invariant old(g).stream <= g.stream && old(g).delivered <= g.delivered && old(g).edge <= g.edge
        invariant g.peer == old(g).peer
        invariant old(Faithful(c, g)) && honest ==> Faithful(c, g)
        invariant genuine ==> honest && (Sync(c.state) ==> g.irs == irs)
      {
        var e := events[i];
        match e
        case Open(iss, now) => var _ := Connect(iss, now);
        case Put(d, now) => if d != [] { var _ := Write(d, now); }
        case Get(n) => if n > 0 { var _ := Read(n); }
        case Close(now) => Drop(now);
        case Expiry(now) => OnTimer(now);
        case Arrive(seg, now, o) =>
          if genuine {
            GenuineIsHonest(c, g, seg, o, irs);
          }
          honest := honest && Honest(c, g, seg, o);
          var stray := Stray(c, seg);
          OnSegment(seg, now, o);
          if stray && !c.state.Closed? {
            return false, honest;
          }
      }
    }
  }

  /** Such a peer exists: one that answers the SYN with a maximum segment size of 0. What the user writes then waits
      until the connection times out. */
  method ZeroMss(iss: u32, irs: u32, window: nat, d: seq<byte>, late: nat -> nat) returns (t: Tcb)
    requires d != []
    ensures fresh(t) && t.Valid() && t.c.state.Closed? && t.c.error == Some(TimedOut) && t.g.stream != []
  {
    hide LogOk, SendCore, RecvCore, Timers, Drained, Faithful;
    t := new Tcb([]);
    var ok := t.Connect(iss, 0);
    t.OnSynSent(Segment(irs, WrapAdd(iss, 1), true, true, false, false, window, Some(0), []), 0);
    StillOpen(t.c, t.g);
    var r := t.Write(d, 0);
    StillOpen(t.c, t.g);
    t.Starve(late);
  }

  lemma StillOpen(c: Control, g: Trace)
    requires SendCore(c, g) && Sync(c.state) && !c.finQueued
    ensures c.state.Established? || c.state.CloseWait?
  {
  }
}
