/** The Internet checksum (RFC 1071) as the network stack computes it. */
module Checksum {
  import opened Basics

  const U16: nat := 0x1_0000
  const U32: nat := 0x1_0000_0000

  /** A big-endian 16-bit word. */
  function Word(hi: byte, lo: byte): (w: nat)
    ensures w < U16
  {
    hi as int * 256 + lo
  }

  /** The big-endian 16-bit words of `s` added up, an odd last byte padded with a zero. */
  function WordSum(s: seq<byte>): nat {
    if s == [] then 0
    else if |s| == 1 then Word(s[0], 0)
    else Word(s[0], s[1]) + WordSum(s[2..])
  }

  /** One's complement addition never yields 0 from non-zero operands: the end-around-carry sum of words adding up
      to `n`. */
  function Folded(n: nat): nat { if n == 0 then 0 else (n - 1) % 0xFFFF + 1 }

  function Complement(n: nat): (c: nat)
    ensures c < U16
  {
    0xFFFF - Folded(n)
  }

  /** The pseudo-header of a segment of length `n`. */
  function PseudoSum(src: seq<byte>, dst: seq<byte>, protocol: byte, n: nat): nat {
    WordSum(src) + WordSum(dst) + protocol + n
  }

  // ---- Sums -------------------------------------------------------------------------------------

  lemma {:induction false} WordSumBound(s: seq<byte>)
    ensures 2 * WordSum(s) <= 0xFFFF * (|s| + 1)
    decreases |s|
  {
    if |s| > 1 {
      WordSumBound(s[2..]);
    }
  }

  /** Cutting at an even place cuts the sum. */
  lemma {:induction false} WordSumSplit(s: seq<byte>, k: nat)
    requires k <= |s| && k % 2 == 0
    ensures WordSum(s) == WordSum(s[..k]) + WordSum(s[k..])
    decreases |s|
  {
    if k == 0 {
      assert s[..0] == [] && s[0..] == s;
    } else {
      WordSumSplit(s[2..], k - 2);
      assert s[..k][2..] == s[2..][..k - 2] && s[k..] == s[2..][k - 2..];
    }
  }

  /** The field at `k` set to the 16-bit value `v`. */
  function Stored(s: seq<byte>, k: nat, v: nat): (r: seq<byte>)
    requires k + 1 < |s| && v < U16
    ensures |r| == |s|
  {
    s[k := v / 256][k + 1 := v % 256]
  }

  /** A field at an even offset enters the sum as its value. */
  lemma StoredSum(s: seq<byte>, k: nat, v: nat)
    requires k % 2 == 0 && k + 1 < |s| && v < U16
    ensures WordSum(Stored(s, k, v)) == WordSum(s[..k]) + v + WordSum(s[k + 2..])
  {
    var t := Stored(s, k, v);
    WordSumSplit(t, k);
    assert t[..k] == s[..k] && t[k..][2..] == s[k + 2..];
  }

  // ---- Folding ----------------------------------------------------------------------------------

  lemma ModAdd(x: nat, q: nat)
    ensures (x + 0xFFFF * q) % 0xFFFF == x % 0xFFFF
  {
  }

  /** One round of folding. */
  lemma FoldStep(n: nat)
    requires n >= U16
    ensures var m := n % U16 + n / U16; 0 < m < n && Folded(m) == Folded(n)
  {
    ModAdd(n % U16 + n / U16 - 1, n / U16);
  }

  lemma FoldedZero(n: nat)
    ensures Folded(n) == 0xFFFF <==> n > 0 && n % 0xFFFF == 0
  {
  }

  lemma {:induction false} ModSum(a: nat, b: nat)
    ensures (a + b) % 0xFFFF == (a % 0xFFFF + b % 0xFFFF) % 0xFFFF
  {
    ModAdd(a % 0xFFFF + b % 0xFFFF, a / 0xFFFF + b / 0xFFFF);
  }

  /** Adding the complement of a sum gives a sum that folds to all ones. */
  lemma ComplementCancels(n: nat)
    ensures Folded(n + Complement(n)) == 0xFFFF
    ensures Complement(n) == 0 ==> Folded(n + 0xFFFF) == 0xFFFF
  {
    if n > 0 {
      var q := (n - 1) / 0xFFFF;
      assert n + Complement(n) == 0xFFFF * (q + 1);
      ModAdd(0, q + 1);
      ModAdd(0, q + 2);
    }
  }

  /** The loop that folds the carries back in. */
  method Fold(n: nat) returns (r: nat)
    requires n < U32
    ensures r == Folded(n) < U16
  {
    r := n;
    while r >= U16
      invariant r < U32 && Folded(r) == Folded(n)
      decreases r
    {
      FoldStep(r);
      r := r % U16 + r / U16;
    }
  }

  lemma NextWord(s: seq<byte>, i: nat)
    requires i % 2 == 0 && i + 1 < |s|
    ensures WordSum(s[..i + 2]) == WordSum(s[..i]) + Word(s[i], s[i + 1])
  {
    WordSumSplit(s[..i + 2], i);
    assert s[..i + 2][..i] == s[..i] && s[..i + 2][i..] == [s[i], s[i + 1]];
    assert WordSum([s[i], s[i + 1]]) == Word(s[i], s[i + 1]);
  }

  /** The loop both checksums run over their words. It fails if the running sum leaves 32 bits. */
  method AddWords(base: nat, s: seq<byte>) returns (ok: bool, sum: nat)
    requires base < U32
    ensures ok <==> base + WordSum(s) < U32
    ensures ok ==> sum == base + WordSum(s)
  {
    sum := base;
    var i := 0;
    while i + 1 < |s|
      invariant 0 <= i <= |s| && i % 2 == 0 && sum == base + WordSum(s[..i]) && sum < U32
    {
      NextWord(s, i);
      WordSumSplit(s, i + 2);
      sum := sum + Word(s[i], s[i + 1]);
      if sum >= U32 {
        return false, 0;
      }
      i := i + 2;
    }
    WordSumSplit(s, i);
    if i < |s| {
      assert s[i..] == [s[i]];
      sum := sum + Word(s[i], 0);
    } else {
      assert s[i..] == [];
    }
    return sum < U32, sum;
  }

  /** calculate_checksum. It fails on an empty slice, where the source indexes out of bounds, and when the sum leaves
      32 bits, which takes more than 128 KiB. */
  method CalculateChecksum(data: seq<byte>) returns (ok: bool, r: nat)
    ensures ok <==> data != [] && WordSum(data) < U32
    ensures 0 < |data| <= 0x2_0000 ==> ok
    ensures ok ==> r == Complement(WordSum(data))
  {
    WordSumBound(data);
    if |data| == 0 {
      return false, 0;
    }
    var sum;
    ok, sum := AddWords(0, data);
    if !ok {
      return false, 0;
    }
    r := Fold(sum);
    return true, 0xFFFF - r;
  }

  /** transport_checksum: the complement of the sum over the pseudo-header, which holds the length modulo 2^32, and the
      segment, odd lengths included. It fails when the sum leaves 32 bits. */
  method TransportChecksum(src: seq<byte>, dst: seq<byte>, protocol: byte, segment: seq<byte>)
    returns (ok: bool, r: nat)
    requires |src| == 4 && |dst| == 4
    ensures ok <==> PseudoSum(src, dst, protocol, |segment| % U32) + WordSum(segment) < U32
    ensures |segment| <= 0x1_FFF0 ==> ok
    ensures ok ==> r == Complement(PseudoSum(src, dst, protocol, |segment| % U32) + WordSum(segment))
  {
    WordSumBound(src);
    WordSumBound(dst);
    WordSumBound(segment);
    var _, head := AddWords(0, src);
    var _, sum := AddWords(head, dst);
    sum := sum + protocol + |segment| % U32;
    if sum >= U32 {
      return false, 0;
    }
    ok, sum := AddWords(sum, segment);
    if !ok {
      return false, 0;
    }
    r := Fold(sum);
    return true, 0xFFFF - r;
  }

  // ---- Sums that leave 32 bits ------------------------------------------------------------------

  lemma {:induction false} AllOnesSum(n: nat)
    ensures WordSum(seq(2 * n, _ => 255)) == n * 0xFFFF
  {
    if n > 0 {
      AllOnesSum(n - 1);
      assert seq(2 * n, _ => 255)[2..] == seq(2 * (n - 1), _ => 255);
    }
  }

  /** A slice of 0x2_0004 bytes of 255 is too long for both: 65538 words of 0xFFFF add up to more than 32 bits hold. */
  method TooManyOnes(src: seq<byte>, dst: seq<byte>, protocol: byte)
    returns (data: seq<byte>, plain: bool, transport: bool)
    requires |src| == 4 && |dst| == 4
    ensures |data| == 0x2_0004 && !plain && !transport
  {
    AllOnesSum(0x1_0002);
    data := seq(2 * 0x1_0002, _ => 255);
    var r;
    plain, r := CalculateChecksum(data);
    transport, r := TransportChecksum(src, dst, protocol, data);
  }

  // ---- What the receiver sees -------------------------------------------------------------------

  /** The checksum recomputed over a received segment. */
  function Recomputed(src: seq<byte>, dst: seq<byte>, protocol: byte, segment: seq<byte>): nat {
    Complement(PseudoSum(src, dst, protocol, |segment|) + WordSum(segment))
  }

  /** A zeroed field at an even offset that is given the checksum makes recomputation yield 0, and so does the value
      UDP sends in place of 0. */
  lemma StoredIsValid(src: seq<byte>, dst: seq<byte>, protocol: byte, segment: seq<byte>, k: nat)
    requires k % 2 == 0 && k + 1 < |segment| && segment[k] == 0 && segment[k + 1] == 0
    ensures var c := Recomputed(src, dst, protocol, segment);
            && Recomputed(src, dst, protocol, Stored(segment, k, c)) == 0
            && Recomputed(src, dst, protocol, Stored(segment, k, if c == 0 then 0xFFFF else c)) == 0
  {
    hide WordSum;
    var c := Recomputed(src, dst, protocol, segment);
    var n := PseudoSum(src, dst, protocol, |segment|) + WordSum(segment);
    assert Stored(segment, k, 0) == segment;
    StoredSum(segment, k, 0);
    StoredSum(segment, k, c);
    StoredSum(segment, k, 0xFFFF);
    ComplementCancels(n);
  }

  /** A value added to `n` makes it fold to all ones exactly when it is the complement of `n`, up to the two zeros. */
  lemma CancelsExactly(n: nat, v: nat)
    requires n > 0
    ensures Complement(n + v) == 0 <==> v % 0xFFFF == Complement(n) % 0xFFFF
  {
    var c := Complement(n);
    ComplementCancels(n);
    FoldedZero(n + v);
    FoldedZero(n + c);
    ModSum(n, v);
    ModSum(n, c);
  }

  /** The receiver accepts a value in the field exactly when it equals the sender's, all zeros and all ones counting as
      the same; the protocol number keeps the sum from being 0. */
  lemma AcceptedExactly(src: seq<byte>, dst: seq<byte>, protocol: byte, segment: seq<byte>, k: nat, v: nat)
    requires k % 2 == 0 && k + 1 < |segment| && segment[k] == 0 && segment[k + 1] == 0 && v < U16 && protocol > 0
    ensures Recomputed(src, dst, protocol, Stored(segment, k, v)) == 0
            <==> v % 0xFFFF == Recomputed(src, dst, protocol, segment) % 0xFFFF
  {
    hide WordSum, Complement;
    assert Stored(segment, k, 0) == segment;
    StoredSum(segment, k, 0);
    StoredSum(segment, k, v);
    CancelsExactly(PseudoSum(src, dst, protocol, |segment|) + WordSum(segment), v);
  }

  /** A change confined to one aligned word goes unnoticed exactly when it swaps all zeros and all ones. */
  lemma WordChangeDetected(src: seq<byte>, dst: seq<byte>, protocol: byte, segment: seq<byte>, k: nat, v: nat, w: nat)
    requires k % 2 == 0 && k + 1 < |segment| && v < U16 && w < U16 && protocol > 0
    requires Recomputed(src, dst, protocol, Stored(segment, k, v)) == 0
    ensures Recomputed(src, dst, protocol, Stored(segment, k, w)) == 0
            <==> v == w || (v == 0 && w == 0xFFFF) || (v == 0xFFFF && w == 0)
  {
    hide Recomputed;
    var blank := Stored(segment, k, 0);
    assert Stored(blank, k, v) == Stored(segment, k, v) && Stored(blank, k, w) == Stored(segment, k, w);
    AcceptedExactly(src, dst, protocol, blank, k, v);
    AcceptedExactly(src, dst, protocol, blank, k, w);
  }
}
