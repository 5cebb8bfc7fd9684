/** Rounding byte addresses up to an alignment, on word-aligned memory. */
module Alignment {
  /** Alignments under which a word-aligned address stays or becomes word-aligned. */
  predicate AlignOk(align: nat) { align == 1 || align == 2 || align == 4 || (align > 0 && align % 8 == 0) }

  function Power(k: nat): nat { if k == 0 then 1 else 2 * Power(k - 1) }

  predicate IsPowerOfTwo(n: nat) { exists k: nat | k <= n :: Power(k) == n }

  lemma PowerIsOk(n: nat)
    requires IsPowerOfTwo(n)
    ensures AlignOk(n)
  {
    var k: nat :| k <= n && Power(k) == n;
    if k >= 3 {
      assert Power(k) == 2 * Power(k - 1) && Power(k - 1) == 2 * Power(k - 2) && Power(k - 2) == 2 * Power(k - 3);
      Positive(k - 3);
      SmallRemainder(n, 8, Power(k - 3), 0);
    } else {
      assert Power(0) == 1 && Power(1) == 2 && Power(2) == 4;
    }
  }

  lemma {:induction false} Positive(k: nat)
    ensures Power(k) > 0
  {
    if k > 0 {
      Positive(k - 1);
    }
  }

  function RoundUp(x: nat, align: nat): nat
    requires align > 0
  {
    if x % align == 0 then x else x + align - x % align
  }

  lemma {:induction false} MulStep(d: nat, x: nat, y: nat)
    ensures x < y ==> d * x + d <= d * y
    decreases y
  {
    if x < y {
      assert d * y == d * (y - 1) + d;
      MulStep(d, x, y - 1);
    }
  }

  lemma SmallRemainder(y: nat, d: nat, q: nat, t: nat)
    requires d > 0 && y == d * q + t && t < d
    ensures y % d == t
  {
    var q', t' := y / d, y % d;
    assert d * q' + t' == d * q + t;
    MulStep(d, q', q);
    MulStep(d, q, q');
  }

  lemma ScaledMod(x: nat, m: nat)
    requires m > 0
    ensures (8 * x) % (8 * m) == 8 * (x % m)
  {
    var q, t := x / m, x % m;
    assert 8 * x == (8 * m) * q + 8 * t by {
      assert x == m * q + t;
    }
    SmallRemainder(8 * x, 8 * m, q, 8 * t);
  }

  lemma NextMultiple(x: nat, m: nat)
    requires m > 0
    ensures x % m != 0 ==> (x + m - x % m) % m == 0
  {
    var q, t := x / m, x % m;
    assert x + m - t == m * (q + 1) + 0;
    SmallRemainder(x + m - t, m, q + 1, 0);
  }

  lemma WordAligned(x: nat, align: nat)
    requires AlignOk(align) && align <= 8
    ensures (8 * x) % align == 0
  {
    var q := if align == 1 then 8 * x else if align == 2 then 4 * x else if align == 4 then 2 * x else x;
    SmallRemainder(8 * x, align, q, 0);
  }

  /** Rounding up a word address gives an aligned word address, less than `align` bytes on. */
  lemma RoundUpWords(x: nat, align: nat)
    requires AlignOk(align)
    ensures RoundUp(8 * x, align) % 8 == 0 && RoundUp(8 * x, align) % align == 0
    ensures 8 * x <= RoundUp(8 * x, align) && (align <= 8 ==> RoundUp(8 * x, align) == 8 * x)
    ensures align > 8 ==> RoundUp(8 * x, align) <= 8 * x + align - 8
  {
    if align <= 8 {
      WordAligned(x, align);
    } else {
      ScaledRound(x, align / 8);
      hide RoundUp;
      assert align == 8 * (align / 8);
    }
  }

  lemma ScaledRound(x: nat, m: nat)
    requires m > 0
    ensures RoundUp(8 * x, 8 * m) % 8 == 0 && RoundUp(8 * x, 8 * m) % (8 * m) == 0
    ensures 8 * x <= RoundUp(8 * x, 8 * m) <= 8 * x + 8 * m - 8
  {
    var t := x % m;
    ScaledMod(x, m);
    NextMultiple(x, m);
    ScaledMod(x + m - t, m);
    assert RoundUp(8 * x, 8 * m) == if t == 0 then 8 * x else 8 * (x + m - t);
  }
}
