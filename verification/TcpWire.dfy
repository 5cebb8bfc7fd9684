/** TCP segments as bytes: what `transmit` puts on the wire and what `parse` makes of it. */
module TcpWire {
  import opened Basics
  import opened Checksum

  const PROTOCOL: byte := 6
  const HEADER_LEN: nat := 20
  const MSS: nat := 1460

  datatype Segment = Segment(srcPort: nat, dstPort: nat, num: nat, ack: nat, flags: byte, window: nat,
                             mss: Option<nat>, payload: seq<byte>)

  predicate IsSyn(flags: byte) { flags / 2 % 2 == 1 }

  function Be16(n: nat): (b: seq<byte>)
    requires n < U16
    ensures |b| == 2 && Word(b[0], b[1]) == n
  {
    [n / 256, n % 256]
  }

  function Be32(n: nat): (b: seq<byte>)
    requires n < U32
    ensures |b| == 4 && Word(b[0], b[1]) * U16 + Word(b[2], b[3]) == n
  {
    Be16(n / U16) + Be16(n % U16)
  }

  // ---- Options ----------------------------------------------------------------------------------

  /** One option the way a peer writes it. */
  datatype Opt = Nop | Mss(size: nat) | Other(kind: byte, body: seq<byte>)

  predicate WellFormed(o: Opt) {
    match o
    case Nop => true
    case Mss(n) => n < U16
    case Other(kind, body) => kind >= 2 && |body| <= 253 && !(kind == 2 && |body| == 2)
  }

  function EncodeOpt(o: Opt): (b: seq<byte>)
    requires WellFormed(o)
    ensures |b| > 0
  {
    match o
    case Nop => [1]
    case Mss(n) => [2, 4] + Be16(n)
    case Other(kind, body) => [kind, |body| + 2] + body
  }

  function EncodeOpts(os: seq<Opt>): seq<byte>
    requires forall o | o in os :: WellFormed(o)
  {
    if os == [] then [] else EncodeOpt(os[0]) + EncodeOpts(os[1..])
  }

  /** The maximum segment size a list of options announces: the last one counts. */
  function Announced(os: seq<Opt>, before: Option<nat>): Option<nat> {
    if os == [] then before else Announced(os[1..], if os[0].Mss? then Some(os[0].size) else before)
  }

  datatype Scan = Dropped | Scanned(mss: Option<nat>)

  /** What the option bytes mean: an option kind without its length byte drops the whole segment, an impossible length
      ends the options. */
  function ScanOptions(b: seq<byte>, mss: Option<nat>): Scan
    decreases |b|
  {
    if b == [] || b[0] == 0 then Scanned(mss)
    else if b[0] == 1 then ScanOptions(b[1..], mss)
    else if |b| == 1 then Dropped
    else if b[1] < 2 || b[1] > |b| then Scanned(mss)
    else ScanOptions(b[b[1]..], if b[0] == 2 && b[1] == 4 then Some(Word(b[2], b[3])) else mss)
  }

  lemma ScanOne(o: Opt, rest: seq<byte>, mss: Option<nat>)
    requires WellFormed(o)
    ensures ScanOptions(EncodeOpt(o) + rest, mss) == ScanOptions(rest, if o.Mss? then Some(o.size) else mss)
  {
    var b := EncodeOpt(o) + rest;
    match o
    case Nop =>
      assert b[1..] == rest;
    case Mss(n) =>
      assert b[4..] == rest && [b[2], b[3]] == Be16(n);
    case Other(kind, body) =>
      assert b[|body| + 2..] == rest && b[0] == kind && b[1] == |body| + 2;
  }

  /** Options written by a peer, ended by the end of the header or by an end-of-options byte and any padding, are read
      back. */
  lemma {:induction false} ScanEncoded(os: seq<Opt>, padding: seq<byte>, mss: Option<nat>)
    requires (forall o | o in os :: WellFormed(o)) && (padding == [] || padding[0] == 0)
    ensures ScanOptions(EncodeOpts(os) + padding, mss) == Scanned(Announced(os, mss))
    decreases |os|
  {
    if os == [] {
      assert EncodeOpts(os) + padding == padding;
    } else {
      hide ScanOptions, EncodeOpt;
      var rest := EncodeOpts(os[1..]) + padding;
      assert EncodeOpts(os) + padding == EncodeOpt(os[0]) + rest;
      ScanOne(os[0], rest, mss);
      ScanEncoded(os[1..], padding, if os[0].Mss? then Some(os[0].size) else mss);
    }
  }

  // ---- parse --------------------------------------------------------------------------------------

  function HeaderEnd(b: seq<byte>): nat
    requires |b| >= HEADER_LEN
  {
    b[12] / 16 * 4
  }

  /** The bytes are a segment: a whole header, and options that scan. */
  predicate IsSegment(b: seq<byte>) {
    |b| >= HEADER_LEN && HEADER_LEN <= HeaderEnd(b) <= |b| && ScanOptions(b[HEADER_LEN..HeaderEnd(b)], None).Scanned?
  }

  function Fields(b: seq<byte>): Segment
    requires IsSegment(b)
  {
    Segment(Word(b[0], b[1]), Word(b[2], b[3]), Word(b[4], b[5]) * U16 + Word(b[6], b[7]),
            Word(b[8], b[9]) * U16 + Word(b[10], b[11]),
            b[13], Word(b[14], b[15]), ScanOptions(b[HEADER_LEN..HeaderEnd(b)], None).mss, b[HeaderEnd(b)..])
  }

  method Parse(b: seq<byte>) returns (r: Option<Segment>)
    ensures r == if IsSegment(b) then Some(Fields(b)) else None
  {
    if |b| < HEADER_LEN {
      return None;
    }
    var end := HeaderEnd(b);
    if end < HEADER_LEN || end > |b| {
      return None;
    }
    var mss: Option<nat> := None;
    var options := b[HEADER_LEN..end];
    while options != []
      invariant ScanOptions(options, mss) == ScanOptions(b[HEADER_LEN..end], None)
      decreases |options|
    {
      var kind := options[0];
      if kind == 0 {
        break;
      } else if kind == 1 {
        options := options[1..];
      } else {
        if |options| == 1 {
          return None;
        }
        var len := options[1];
        if len < 2 || len > |options| {
          break;
        }
        if kind == 2 && len == 4 {
          mss := Some(Word(options[2], options[3]));
        }
        options := options[len..];
      }
    }
    return Some(Segment(Word(b[0], b[1]), Word(b[2], b[3]), Word(b[4], b[5]) * U16 + Word(b[6], b[7]),
                        Word(b[8], b[9]) * U16 + Word(b[10], b[11]),
                        b[13], Word(b[14], b[15]), mss, b[end..]));
  }

  // ---- transmit -------------------------------------------------------------------------------------

  /** The buffer holds `done` and zeros after it. */
  ghost predicate Filled(b: seq<byte>, done: seq<byte>) {
    |done| <= |b| && b[..|done|] == done && forall i | |done| <= i < |b| :: b[i] == 0
  }

  method Put(buffer: array<byte>, ghost done: seq<byte>, at: nat, bytes: seq<byte>)
    requires Filled(buffer[..], done) && at == |done| && at + |bytes| <= buffer.Length
    modifies buffer
    ensures Filled(buffer[..], done + bytes)
  {
    var i := 0;
    while i < |bytes|
      invariant i <= |bytes| && Filled(buffer[..], done + bytes[..i])
    {
      buffer[at + i] := bytes[i];
      assert bytes[..i + 1] == bytes[..i] + [bytes[i]];
      i := i + 1;
    }
    assert bytes[..i] == bytes;
  }

  function SynOption(): seq<byte> { [2, 4, 5, 180] }

  /** Ports and sequence numbers. */
  function Numbers(local: nat, remote: nat, num: nat, ack: nat): (b: seq<byte>)
    requires local < U16 && remote < U16 && num < U32 && ack < U32
    ensures |b| == 12
  {
    Be16(local) + Be16(remote) + Be32(num) + Be32(ack)
  }

  /** Header length, flags, window, and the checksum and urgent pointer left blank. */
  function Control(headerLen: nat, flags: byte, window: nat): (b: seq<byte>)
    requires headerLen < 64
    ensures |b| == 8
  {
    [headerLen / 4 * 16, flags] + Be16(if window < U16 then window else 0xFFFF) + [0, 0, 0, 0]
  }

  /** The segment before its checksum is stored. */
  function Blank(local: nat, remote: nat, num: nat, ack: nat, flags: byte, window: nat,
                 payload: seq<byte>): (b: seq<byte>)
    requires local < U16 && remote < U16 && num < U32 && ack < U32
  {
    var options := if IsSyn(flags) then SynOption() else [];
    Numbers(local, remote, num, ack) + Control(HEADER_LEN + |options|, flags, window) + options + payload
  }

  /** What a receiver reads out of a segment that was sent. */
  function Sent(local: nat, remote: nat, num: nat, ack: nat, flags: byte, window: nat, payload: seq<byte>): Segment {
    Segment(local, remote, num, ack, flags, if window < U16 then window else 0xFFFF,
            if IsSyn(flags) then Some(MSS) else None, payload)
  }

  /** The fixed part of the header, whatever its checksum says. */
  lemma ReadFixed(local: nat, remote: nat, num: nat, ack: nat, flags: byte, window: nat, payload: seq<byte>, c: nat)
    requires local < U16 && remote < U16 && num < U32 && ack < U32 && c < U16
    ensures var b := Blank(local, remote, num, ack, flags, window, payload);
            && |b| >= HEADER_LEN && b[16] == 0 && b[17] == 0
            && var s := Stored(b, 16, c);
            && s[0..2] == Be16(local) && s[2..4] == Be16(remote) && s[4..8] == Be32(num) && s[8..12] == Be32(ack)
            && s[13] == flags && s[14..16] == Be16(if window < U16 then window else 0xFFFF)
            && HeaderEnd(s) == HEADER_LEN + (if IsSyn(flags) then 4 else 0) && |s| == HeaderEnd(s) + |payload|
            && s[HEADER_LEN..HeaderEnd(s)] == (if IsSyn(flags) then SynOption() else []) && s[HeaderEnd(s)..] == payload
  {
    hide Be16, Be32;
  }

  /** parse undoes transmit: the receiver gets back every field, the window clamped to 16 bits. */
  lemma RoundTrip(local: nat, remote: nat, num: nat, ack: nat, flags: byte, window: nat, payload: seq<byte>, c: nat)
    requires local < U16 && remote < U16 && num < U32 && ack < U32 && c < U16
    ensures var b := Blank(local, remote, num, ack, flags, window, payload);
            && |b| >= HEADER_LEN && IsSegment(Stored(b, 16, c))
            && Fields(Stored(b, 16, c)) == Sent(local, remote, num, ack, flags, window, payload)
  {
    ReadFixed(local, remote, num, ack, flags, window, payload, c);
    hide Be16, Be32, Blank, Stored;
    var s := Stored(Blank(local, remote, num, ack, flags, window, payload), 16, c);
    ScanEncoded([Mss(MSS)], [], None);
    assert EncodeOpts([Mss(MSS)]) + [] == SynOption();
    assert [s[0], s[1]] == s[0..2] && [s[2], s[3]] == s[2..4] && [s[14], s[15]] == s[14..16];
    assert [s[4], s[5], s[6], s[7]] == s[4..8] && [s[8], s[9], s[10], s[11]] == s[8..12];
  }

  /** transmit, up to handing the bytes to IPv4: a receiver that recomputes the checksum gets 0 and parses exactly what
      was sent. */
  method Transmit(src: seq<byte>, dst: seq<byte>, local: nat, remote: nat, num: nat, ack: nat, flags: byte,
                  window: nat, payload: seq<byte>)
    returns (packet: seq<byte>)
    requires |src| == 4 && |dst| == 4 && local < U16 && remote < U16 && num < U32 && ack < U32 && |payload| <= MSS
    ensures |packet| == HEADER_LEN + (if IsSyn(flags) then 4 else 0) + |payload|
    ensures Recomputed(src, dst, PROTOCOL, packet) == 0
    ensures IsSegment(packet) && Fields(packet) == Sent(local, remote, num, ack, flags, window, payload)
  {
    hide Blank, IsSegment, Fields, WordSum, Complement, Sent, PseudoSum;
    var headerLen := if IsSyn(flags) then HEADER_LEN + 4 else HEADER_LEN;
    var len := headerLen + |payload|;
    var segment := new byte[HEADER_LEN + 4 + MSS](_ => 0);
    ghost var done := Fill(segment, local, remote, num, ack, flags, window, payload, headerLen);
    ReadFixed(local, remote, num, ack, flags, window, payload, 0);
    assert segment[..len] == done;
    var _, checksum := TransportChecksum(src, dst, PROTOCOL, segment[..len]);
    segment[16], segment[17] := checksum / 256, checksum % 256;
    packet := segment[..len];
    assert packet == Stored(done, 16, checksum);
    assert checksum == Recomputed(src, dst, PROTOCOL, done);
    StoredIsValid(src, dst, PROTOCOL, done, 16);
    RoundTrip(local, remote, num, ack, flags, window, payload, checksum);
  }

  /** The copies into the zeroed buffer, field by field. */
  method Fill(segment: array<byte>, local: nat, remote: nat, num: nat, ack: nat, flags: byte, window: nat,
              payload: seq<byte>, headerLen: nat)
    returns (ghost done: seq<byte>)
    requires local < U16 && remote < U16 && num < U32 && ack < U32 && |payload| <= MSS
    requires segment.Length == HEADER_LEN + 4 + MSS
    requires (forall i | 0 <= i < segment.Length :: segment[i] == 0) && headerLen == HEADER_LEN + if IsSyn(flags) then 4
                                                                                                  else 0
    modifies segment
    ensures done == Blank(local, remote, num, ack, flags, window, payload) && Filled(segment[..], done)
  {
    hide Filled, Numbers, Control;
    Empty(segment[..]);
    FillNumbers(segment, local, remote, num, ack);
    done := Numbers(local, remote, num, ack);
    FillControl(segment, done, headerLen, flags, window);
    done := done + Control(headerLen, flags, window);
    if IsSyn(flags) {
      Put(segment, done, 20, SynOption());
      done := done + SynOption();
    }
    Put(segment, done, headerLen, payload);
    done := done + payload;
    assert done == Blank(local, remote, num, ack, flags, window, payload);
  }

  method FillNumbers(segment: array<byte>, local: nat, remote: nat, num: nat, ack: nat)
    requires local < U16 && remote < U16 && num < U32 && ack < U32 && segment.Length >= 12 && Filled(segment[..], [])
    modifies segment
    ensures Filled(segment[..], Numbers(local, remote, num, ack))
  {
    hide Be16, Be32, Filled;
    Put(segment, [], 0, Be16(local));
    assert [] + Be16(local) == Be16(local);
    Put(segment, Be16(local), 2, Be16(remote));
    Put(segment, Be16(local) + Be16(remote), 4, Be32(num));
    Put(segment, Be16(local) + Be16(remote) + Be32(num), 8, Be32(ack));
  }

  method FillControl(segment: array<byte>, ghost done: seq<byte>, headerLen: nat, flags: byte, window: nat)
    requires |done| == 12 && segment.Length >= 20 && headerLen < 64 && Filled(segment[..], done)
    modifies segment
    ensures Filled(segment[..], done + Control(headerLen, flags, window))
  {
    hide Be16, Filled;
    var first: seq<byte> := [headerLen / 4 * 16];
    var w := if window < U16 then window else 0xFFFF;
    Put(segment, done, 12, first);
    Put(segment, done + first, 13, [flags]);
    Put(segment, done + first + [flags], 14, Be16(w));
    Skip(segment[..], done + first + [flags] + Be16(w));
    assert done + first + [flags] + Be16(w) + [0, 0, 0, 0] == done + Control(headerLen, flags, window);
  }

  lemma Empty(b: seq<byte>)
    requires forall i | 0 <= i < |b| :: b[i] == 0
    ensures Filled(b, [])
  {
  }

  lemma Skip(b: seq<byte>, done: seq<byte>)
    requires Filled(b, done) && |done| + 4 <= |b|
    ensures Filled(b, done + [0, 0, 0, 0])
  {
  }
}
