/** The kernel heap's large-block list: first fit with boundary tags.

    Memory is counted in 8-byte words; `mem[a]` is the word at word address `a`,
    and address 0 is null. A block at `at` has a four-word header (size, next,
    prev, free) and `size` words of payload. A sequence of `Block`s describes
    the list in address order.
  */
module LargeList {
  const HEADER: nat := 4
  const SPLIT: nat := 2

  datatype Block = Block(at: nat, size: nat, free: bool)

  function End(b: Block): nat { b.at + HEADER + b.size }

  function First(bs: seq<Block>, next: nat): nat { if bs == [] then next else bs[0].at }

  function Last(bs: seq<Block>, prev: nat): nat { if bs == [] then prev else bs[|bs| - 1].at }

  /** The header at `b.at` says what the block says, between neighbours `prev` and `next`. */
  ghost predicate Header(mem: seq<nat>, b: Block, prev: nat, next: nat) {
    && End(b) <= |mem|
    && mem[b.at] == b.size && mem[b.at + 1] == next && mem[b.at + 2] == prev && mem[b.at + 3] == if b.free then 1 else 0
  }

  /** The blocks cover [lo, hi) without gap or overlap, and their headers link them between `prev` and `next`. */
  ghost predicate Seg(mem: seq<nat>, bs: seq<Block>, lo: nat, hi: nat, prev: nat, next: nat) {
    if bs == [] then lo == hi
    else
      && bs[0].at == lo && End(bs[0]) <= hi && Header(mem, bs[0], prev, First(bs[1..], next))
      && Seg(mem, bs[1..], End(bs[0]), hi, lo, next)
  }

  /** No two neighbours are free. */
  ghost predicate Coalesced(bs: seq<Block>) {
    forall i | 0 <= i < |bs| - 1 :: !(bs[i].free && bs[i + 1].free)
  }

  ghost predicate ListOk(mem: seq<nat>, bs: seq<Block>, lo: nat, hi: nat) {
    0 < lo && Seg(mem, bs, lo, hi, 0, 0) && Coalesced(bs)
  }

  // ---- Segments ------------------------------------------------------------------------------

  /** Where the second part of a segment begins. */
  function Cut(bs: seq<Block>, hi: nat): nat { First(bs, hi) }

  lemma {:induction false} SegSplit(mem: seq<nat>, a: seq<Block>, b: seq<Block>, lo: nat, hi: nat, prev: nat, next: nat)
    requires Seg(mem, a + b, lo, hi, prev, next)
    ensures lo <= Cut(b, hi) <= hi
    ensures Seg(mem, a, lo, Cut(b, hi), prev, First(b, next)) && Seg(mem, b, Cut(b, hi), hi, Last(a, prev), next)
    decreases |a|
  {
    if a == [] {
      assert a + b == b;
      if b != [] {
        SegBounds(mem, b, lo, hi, prev, next);
      }
    } else {
      assert (a + b)[1..] == a[1..] + b;
      SegSplit(mem, a[1..], b, End(a[0]), hi, lo, next);
      assert First(a[1..] + b, next) == First(a[1..], First(b, next));
      assert Last(a[1..], lo) == Last(a, prev);
    }
  }

  lemma {:induction false} SegJoin(mem: seq<nat>, a: seq<Block>, b: seq<Block>, lo: nat, mid: nat, hi: nat, prev: nat,
                                   next: nat)
    requires Seg(mem, a, lo, mid, prev, First(b, next)) && Seg(mem, b, mid, hi, Last(a, prev), next)
    ensures Seg(mem, a + b, lo, hi, prev, next)
    decreases |a|
  {
    SegBounds(mem, b, mid, hi, Last(a, prev), next);
    if a == [] {
      assert a + b == b;
    } else {
      assert (a + b)[1..] == a[1..] + b;
      SegBounds(mem, a, lo, mid, prev, First(b, next));
      assert Last(a[1..], lo) == Last(a, prev);
      SegJoin(mem, a[1..], b, End(a[0]), mid, hi, lo, next);
      assert First(a[1..] + b, next) == First(a[1..], First(b, next));
    }
  }

  lemma {:induction false} SegBounds(mem: seq<nat>, bs: seq<Block>, lo: nat, hi: nat, prev: nat, next: nat)
    requires Seg(mem, bs, lo, hi, prev, next)
    ensures lo <= hi && (bs != [] ==> hi <= |mem|)
    ensures forall i | 0 <= i < |bs| :: lo <= bs[i].at && End(bs[i]) <= hi
    decreases |bs|
  {
    if bs != [] {
      SegBounds(mem, bs[1..], End(bs[0]), hi, lo, next);
      assert forall i | 0 < i < |bs| :: bs[i] == bs[1..][i - 1];
    }
  }

  /** A segment depends only on the words it covers. */
  lemma {:induction false} SegFrame(mem: seq<nat>, mem': seq<nat>, bs: seq<Block>, lo: nat, hi: nat, prev: nat,
                                    next: nat)
    requires Seg(mem, bs, lo, hi, prev, next) && |mem'| == |mem|
    requires forall a | lo <= a < hi && a < |mem| :: mem'[a] == mem[a]
    ensures Seg(mem', bs, lo, hi, prev, next)
    decreases |bs|
  {
    if bs != [] {
      SegFrame(mem, mem', bs[1..], End(bs[0]), hi, lo, next);
    }
  }

  /** Relinking the front of a segment touches one word. */
  lemma SegRelink(mem: seq<nat>, mem': seq<nat>, bs: seq<Block>, lo: nat, hi: nat, prev: nat, prev': nat, next: nat)
    requires Seg(mem, bs, lo, hi, prev, next) && |mem'| == |mem|
    requires forall a | lo <= a < hi && a < |mem| && (bs != [] ==> a != lo + 2) :: mem'[a] == mem[a]
    requires bs != [] && lo + 2 < |mem| ==> mem'[lo + 2] == prev'
    ensures Seg(mem', bs, lo, hi, prev', next)
  {
    if bs != [] {
      SegFrame(mem, mem', bs[1..], End(bs[0]), hi, lo, next);
    }
  }

  /** A segment of one block. */
  lemma SegOne(mem: seq<nat>, b: Block, prev: nat, next: nat)
    requires Header(mem, b, prev, next)
    ensures Seg(mem, [b], b.at, End(b), prev, next)
  {
    assert [b][1..] == [];
  }

  /** Once every block is free there is only one, of the region's full size. */
  lemma AllFree(mem: seq<nat>, bs: seq<Block>, lo: nat, hi: nat)
    requires ListOk(mem, bs, lo, hi) && bs != [] && forall i | 0 <= i < |bs| :: bs[i].free
    ensures lo + HEADER <= hi && bs == [Block(lo, hi - lo - HEADER, true)]
  {
    assert bs[0].free && bs[|bs| - 1].free;
    assert |bs| == 1;
    assert bs == [bs[0]] && bs[1..] == [];
    assert Seg(mem, bs[1..], End(bs[0]), hi, lo, 0);
  }

  // ---- Steps ------------------------------------------------------------------------------------

  /** A list taken apart around one block. */
  lemma SegAround(mem: seq<nat>, a: seq<Block>, b: Block, c: seq<Block>, lo: nat, hi: nat)
    requires Seg(mem, a + [b] + c, lo, hi, 0, 0)
    ensures lo <= b.at && End(b) <= hi <= |mem|
    ensures Seg(mem, a, lo, b.at, 0, b.at) && Header(mem, b, Last(a, 0), First(c, 0))
    ensures Seg(mem, c, End(b), hi, b.at, 0)
    ensures c != [] ==> First(c, 0) == End(b)
  {
    assert a + [b] + c == a + ([b] + c);
    SegSplit(mem, a, [b] + c, lo, hi, 0, 0);
    assert ([b] + c)[1..] == c;
    SegBounds(mem, [b] + c, b.at, hi, Last(a, 0), 0);
  }

  /** Changing only a block's free flag. */
  lemma FlagKeeps(mem: seq<nat>, mem': seq<nat>, a: seq<Block>, b: Block, c: seq<Block>, lo: nat, hi: nat, free: bool)
    requires Seg(mem, a + [b] + c, lo, hi, 0, 0) && b.at + 3 < |mem|
    requires mem' == mem[b.at + 3 := if free then 1 else 0]
    ensures Seg(mem', a + [b.(free := free)] + c, lo, hi, 0, 0)
  {
    hide Seg;
    SegAround(mem, a, b, c, lo, hi);
    var b' := b.(free := free);
    SegFrame(mem, mem', a, lo, b.at, 0, b.at);
    SegFrame(mem, mem', c, End(b), hi, b.at, 0);
    SegOne(mem', b', Last(a, 0), First(c, 0));
    SegJoin(mem', [b'], c, b.at, End(b), hi, Last(a, 0), 0);
    SegJoin(mem', a, [b'] + c, lo, b.at, hi, 0, 0);
    assert a + ([b'] + c) == a + [b'] + c;
  }

  /** What splitting block `b` after `n` words writes: the new header, the shortened one, and the back link of the
      block after. */
  ghost predicate SplitWrites(mem: seq<nat>, mem': seq<nat>, b: Block, n: nat, next: nat) {
    var x, y := b.at, b.at + HEADER + n;
    && |mem'| == |mem| && b.size >= n + HEADER + SPLIT && End(b) <= |mem| && (next != 0 ==> next + HEADER <= |mem|)
    && mem'[x] == n && mem'[x + 1] == y && mem'[x + 2] == mem[x + 2] && mem'[x + 3] == 0
    && mem'[y] == b.size - n - HEADER && mem'[y + 1] == next && mem'[y + 2] == x && mem'[y + 3] == 1
    && (next != 0 ==> mem'[next + 2] == y)
    && (forall w | 0 <= w < |mem| && !(x <= w < End(b)) && !(next != 0 && w == next + 2) :: mem'[w] == mem[w])
  }

  lemma SplitKeeps(mem: seq<nat>, mem': seq<nat>, a: seq<Block>, b: Block, c: seq<Block>, lo: nat, hi: nat, n: nat)
    requires Seg(mem, a + [b] + c, lo, hi, 0, 0) && 0 < lo && SplitWrites(mem, mem', b, n, First(c, 0))
    ensures Seg(mem', a + [Block(b.at, n, false), Block(b.at + HEADER + n, b.size - n - HEADER, true)] + c, lo, hi, 0,
                0)
  {
    hide Seg;
    SegAround(mem, a, b, c, lo, hi);
    var p, q := Block(b.at, n, false), Block(b.at + HEADER + n, b.size - n - HEADER, true);
    SegFrame(mem, mem', a, lo, b.at, 0, b.at);
    SegRelink(mem, mem', c, End(b), hi, b.at, q.at, 0);
    SegOne(mem', p, Last(a, 0), q.at);
    SegOne(mem', q, p.at, First(c, 0));
    SegJoin(mem', [p], [q], p.at, q.at, End(q), Last(a, 0), First(c, 0));
    assert [p] + [q] == [p, q];
    SegJoin(mem', [p, q], c, p.at, End(q), hi, Last(a, 0), 0);
    SegJoin(mem', a, [p, q] + c, lo, p.at, hi, 0, 0);
    assert a + ([p, q] + c) == a + [p, q] + c;
  }

  /** What block `b` swallowing its successor `d` writes. */
  ghost predicate MergeWrites(mem: seq<nat>, mem': seq<nat>, b: Block, d: Block, next: nat) {
    && |mem'| == |mem| && End(d) <= |mem| && End(b) == d.at && (next != 0 ==> next + HEADER <= |mem|)
    && mem'[b.at] == b.size + d.size + HEADER && mem'[b.at + 1] == next
    && (next != 0 ==> mem'[next + 2] == b.at)
    && (forall w | 0 <= w < |mem| && w != b.at && w != b.at + 1 && !(next != 0 && w == next + 2) :: mem'[w] == mem[w])
  }

  lemma MergeKeeps(mem: seq<nat>, mem': seq<nat>, a: seq<Block>, b: Block, d: Block, c: seq<Block>, lo: nat, hi: nat)
    requires Seg(mem, a + [b, d] + c, lo, hi, 0, 0) && 0 < lo && MergeWrites(mem, mem', b, d, First(c, 0))
    ensures Seg(mem', a + [Block(b.at, b.size + d.size + HEADER, b.free)] + c, lo, hi, 0, 0)
  {
    hide Seg;
    assert a + [b, d] + c == a + [b] + ([d] + c) == (a + [b]) + [d] + c;
    SegAround(mem, a, b, [d] + c, lo, hi);
    SegAround(mem, a + [b], d, c, lo, hi);
    var e := Block(b.at, b.size + d.size + HEADER, b.free);
    SegFrame(mem, mem', a, lo, b.at, 0, b.at);
    SegRelink(mem, mem', c, End(d), hi, d.at, b.at, 0);
    SegOne(mem', e, Last(a, 0), First(c, 0));
    SegJoin(mem', [e], c, e.at, End(e), hi, Last(a, 0), 0);
    SegJoin(mem', a, [e] + c, lo, e.at, hi, 0, 0);
    assert a + ([e] + c) == a + [e] + c;
  }

  // ---- What the list promises the rest of the heap ------------------------------------------------------

  /** Word `w` belongs to the payload of the block. */
  predicate Inside(b: Block, w: nat) { b.at + HEADER <= w < End(b) }

  /** Every word outside the list's region, and the payload of every block but the one at `x`, is as it was. */
  ghost predicate Spared(mem: seq<nat>, mem': seq<nat>, bs: seq<Block>, lo: nat, hi: nat, x: nat) {
    && |mem'| == |mem|
    && (forall w | 0 <= w < |mem| && !(lo <= w < hi) :: mem'[w] == mem[w])
    && (forall b, w | b in bs && b.at != x && 0 <= w < |mem| && Inside(b, w) :: mem'[w] == mem[w])
  }

  /** Different blocks do not overlap. */
  lemma {:induction false} Apart(mem: seq<nat>, bs: seq<Block>, lo: nat, hi: nat, prev: nat, next: nat, b: Block,
                                 d: Block)
    requires Seg(mem, bs, lo, hi, prev, next) && b in bs && d in bs && b != d
    ensures End(b) <= d.at || End(d) <= b.at
    decreases |bs|
  {
    SegBounds(mem, bs[1..], End(bs[0]), hi, bs[0].at, next);
    assert forall e | e in bs && e != bs[0] :: e in bs[1..] && End(bs[0]) <= e.at;
    if b != bs[0] && d != bs[0] {
      Apart(mem, bs[1..], End(bs[0]), hi, bs[0].at, next, b, d);
    }
  }

  predicate IsHeader(b: Block, w: nat) { b.at <= w < b.at + HEADER }

  /** Only words of `x`'s own extent, or header words, have changed. */
  ghost predicate Careful(mem: seq<nat>, mem': seq<nat>, bs: seq<Block>, x: Block) {
    && |mem'| == |mem|
    && (forall w | 0 <= w < |mem| && !(x.at <= w < End(x)) && mem'[w] != mem[w] ::
           exists d :: d in bs && IsHeader(d, w))
  }

  lemma CarefulSpares(mem: seq<nat>, mem': seq<nat>, bs: seq<Block>, lo: nat, hi: nat, x: Block)
    requires Seg(mem, bs, lo, hi, 0, 0) && x in bs && Careful(mem, mem', bs, x)
    ensures Spared(mem, mem', bs, lo, hi, x.at)
  {
    SegBounds(mem, bs, lo, hi, 0, 0);
    forall b, w | b in bs && b.at != x.at && 0 <= w < |mem| && Inside(b, w)
      ensures mem'[w] == mem[w]
    {
      Apart(mem, bs, lo, hi, 0, 0, b, x);
      forall d | d in bs
        ensures !IsHeader(d, w)
      {
        if d != b {
          Apart(mem, bs, lo, hi, 0, 0, b, d);
        }
      }
    }
  }

  /** What remains of a block that is taken for `n` words. */
  function Pieces(b: Block, n: nat): seq<Block>
    requires n <= b.size
  {
    if b.size >= n + HEADER + SPLIT
    then [Block(b.at, n, false), Block(b.at + HEADER + n, b.size - n - HEADER, true)]
    else [b.(free := false)]
  }

  lemma PiecesCoalesced(a: seq<Block>, b: Block, c: seq<Block>, n: nat)
    requires Coalesced(a + [b] + c) && b.free && n <= b.size
    ensures Coalesced(a + Pieces(b, n) + c)
  {
    var bs, cs, k := a + [b] + c, a + Pieces(b, n) + c, |Pieces(b, n)|;
    assert forall i | 0 <= i < |a| :: cs[i] == bs[i];
    assert forall i | |a| + k <= i < |cs| :: cs[i] == bs[i - k + 1];
    forall i | 0 <= i < |cs| - 1
      ensures !(cs[i].free && cs[i + 1].free)
    {
      if i >= |a| + k {
        assert !(bs[i - k + 1].free && bs[i - k + 2].free);
      } else if i == |a| + k - 1 {
        assert !(bs[|a|].free && bs[|a| + 1].free);
      } else if i < |a| - 1 {
        assert !(bs[i].free && bs[i + 1].free);
      }
    }
  }

  /** Merging a free block with its free neighbours leaves no two free neighbours. */
  lemma MergedCoalesced(a: seq<Block>, b: Block, c: seq<Block>, a': seq<Block>, e: Block, c': seq<Block>)
    requires Coalesced(a + [b] + c)
    requires (a' == a && (a == [] || !a[|a| - 1].free)) || (a != [] && a' == a[..|a| - 1] && a[|a| - 1].free)
    requires (c' == c && (c == [] || !c[0].free)) || (c != [] && c' == c[1..] && c[0].free)
    ensures Coalesced(a' + [e] + c')
  {
    var bs, cs := a + [b] + c, a' + [e] + c';
    assert forall i | 0 <= i < |a'| :: cs[i] == bs[i];
    var k := |bs| - |cs|;
    assert forall i | |a'| < i < |cs| :: cs[i] == bs[i + k];
    forall i | 0 <= i < |cs| - 1
      ensures !(cs[i].free && cs[i + 1].free)
    {
      if i > |a'| {
        assert !(bs[i + k].free && bs[i + k + 1].free);
      } else if i < |a'| {
        assert !(bs[i].free && bs[i + 1].free);
      } else if c' != c {
        assert !(bs[|a| + 1].free && bs[|a| + 2].free);
      }
    }
  }

  /** A segment depends only on its header words. */
  lemma {:induction false} SegHeaders(mem: seq<nat>, mem': seq<nat>, bs: seq<Block>, lo: nat, hi: nat, prev: nat,
                                      next: nat)
    requires Seg(mem, bs, lo, hi, prev, next) && |mem'| == |mem|
    requires forall b, w | b in bs && 0 <= w < |mem| && IsHeader(b, w) :: mem'[w] == mem[w]
    ensures Seg(mem', bs, lo, hi, prev, next)
    decreases |bs|
  {
    if bs != [] {
      var b := bs[0];
      assert b in bs && IsHeader(b, b.at) && IsHeader(b, b.at + 1) && IsHeader(b, b.at + 2) && IsHeader(b, b.at + 3);
      assert forall d | d in bs[1..] :: d in bs;
      SegHeaders(mem, mem', bs[1..], End(b), hi, lo, next);
    }
  }
}
