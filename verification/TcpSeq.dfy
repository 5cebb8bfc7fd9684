/** 32-bit sequence numbers and the serial comparisons of RFC 9293, section 3.4.

    A connection counts its octets without bound (`offset` 0 is the SYN); the
    wire carries offsets modulo 2^32 from the initial sequence number.
  */
module TcpSeq {

  const SPACE: nat := 0x1_0000_0000
  const HALF: nat := 0x8000_0000

  type u32 = x: int | 0 <= x < SPACE

  function WrapAdd(a: u32, n: nat): u32 { (a + n) % SPACE }

  function WrapSub(a: u32, b: u32): u32 { (a - b) % SPACE }

  /** (a - b) as i32 < 0 */
  predicate SeqLt(a: u32, b: u32) { WrapSub(a, b) >= HALF }

  /** (a - b) as i32 <= 0 */
  predicate SeqLe(a: u32, b: u32) { a == b || WrapSub(a, b) >= HALF }

  /** The sequence number of the octet at `offset`. */
  function Num(iss: u32, offset: nat): u32 { WrapAdd(iss, offset) }

  lemma NumDiff(iss: u32, p: nat, q: nat)
    requires p <= q < p + SPACE
    ensures WrapSub(Num(iss, q), Num(iss, p)) == q - p
    ensures WrapSub(Num(iss, p), Num(iss, q)) == if p == q then 0 else SPACE - (q - p)
  {
    var a, b := (iss + p) / SPACE, (iss + q) / SPACE;
    assert Num(iss, p) == iss + p - SPACE * a;
    assert Num(iss, q) == iss + q - SPACE * b;
    ModShift(q - p, b - a);
    ModShift(p - q, a - b);
  }

  lemma ModShift(x: int, k: int)
    ensures (x - SPACE * k) % SPACE == x % SPACE
  {
  }

  lemma NumAdd(iss: u32, p: nat, n: nat)
    ensures WrapAdd(Num(iss, p), n) == Num(iss, p + n)
  {
  }

  /** Within half the space, serial order is the order of offsets. */
  lemma SerialOrder(iss: u32, p: nat, q: nat)
    requires p - HALF < q < p + HALF
    ensures SeqLt(Num(iss, p), Num(iss, q)) <==> p < q
    ensures SeqLe(Num(iss, p), Num(iss, q)) <==> p <= q
    ensures Num(iss, p) == Num(iss, q) <==> p == q
  {
    if p <= q {
      NumDiff(iss, p, q);
    } else {
      NumDiff(iss, q, p);
    }
  }

  // ---- The acknowledgement test -----------------------------------------------------

  /** The offset `ack` stands for, at or after `una`. */
  function AckOffset(iss: u32, una: nat, ack: u32): nat { una + WrapSub(ack, Num(iss, una)) }

  lemma AckOffsetNum(iss: u32, una: nat, ack: u32)
    ensures Num(iss, AckOffset(iss, una, ack)) == ack
  {
    var a := (iss + una) / SPACE;
    var d := ack - Num(iss, una);
    assert iss + AckOffset(iss, una, ack) == iss + una + d % SPACE;
    assert d % SPACE == if d >= 0 then d else d + SPACE;
    ModShift(iss + AckOffset(iss, una, ack), a);
    assert iss + una == SPACE * a + Num(iss, una);
  }

  /** on_segment's test for an acknowledgement of new data. */
  predicate AckAccepted(sndUna: u32, sndMax: u32, ack: u32) { SeqLt(sndUna, ack) && SeqLe(ack, sndMax) }

  /** The test accepts the offsets in (una, max], and one value more: with nothing in flight, the number
      exactly half the space ahead compares both after and before. */
  lemma AckExact(iss: u32, una: nat, max: nat, ack: u32)
    requires una <= max < una + HALF
    ensures var a := AckOffset(iss, una, ack);
            AckAccepted(Num(iss, una), Num(iss, max), ack) <==> una < a <= max || (una == max && a == una + HALF)
    ensures SeqLt(Num(iss, max), ack) <==> max < AckOffset(iss, una, ack) <= max + HALF
  {
    var a := AckOffset(iss, una, ack);
    AckOffsetNum(iss, una, ack);
    NumDiff(iss, una, a);
    if a <= max {
      NumDiff(iss, a, max);
    } else {
      NumDiff(iss, max, a);
    }
  }

  /** The extra value is real: it is accepted although nothing is in flight. */
  lemma StrayAckAccepted(una: u32)
    ensures AckAccepted(una, una, WrapAdd(una, HALF))
  {
    assert Num(una, 0) == una;
    NumDiff(una, 0, HALF);
  }
}
