/** The user-space heap: a first-fit free list kept sorted by address and fully
    coalesced, over memory obtained from heap_grow. Addresses and sizes are in
    8-byte words. A block starts with its size, header included; a free block's
    second word is the next free block; the word before a payload is its
    block's start.
  */
module UserHeap {
  import opened Basics
  import opened Alignment

  const HEADER: nat := 2
  const MIN_SPLIT: nat := 4
  const MIN_GROW: nat := 8192

  datatype Blk = Blk(at: nat, size: nat)

  function End(b: Blk): nat { b.at + b.size }

  function First(l: seq<Blk>, tail: nat): nat { if l == [] then tail else l[0].at }

  // ---- The free list ------------------------------------------------------------------------

  /** The words of each free block, and the links from `head` up to `tail`, are in memory. */
  ghost predicate Linked(mem: seq<nat>, l: seq<Blk>, head: nat, tail: nat) {
    if l == [] then head == tail
    else
      && head == l[0].at != 0 && l[0].size >= HEADER && End(l[0]) <= |mem| && mem[l[0].at] == l[0].size
      && Linked(mem, l[1..], mem[l[0].at + 1], tail)
  }

  /** Sorted by address with a gap after every block: nothing is left to coalesce. */
  ghost predicate Sorted(l: seq<Blk>) {
    forall i, j | 0 <= i < j < |l| :: End(l[i]) < l[j].at
  }

  /** Word `w` is in a free block. */
  ghost predicate InFree(l: seq<Blk>, w: nat) {
    exists i :: 0 <= i < |l| && l[i].at <= w < End(l[i])
  }

  ghost predicate Outside(l: seq<Blk>, b: Blk) {
    forall i | 0 <= i < |l| :: End(l[i]) <= b.at || End(b) <= l[i].at
  }

  lemma {:induction false} LinkedSplit(mem: seq<nat>, a: seq<Blk>, b: seq<Blk>, head: nat, tail: nat)
    requires Linked(mem, a + b, head, tail)
    ensures Linked(mem, a, head, First(b, tail)) && Linked(mem, b, First(b, tail), tail)
    decreases |a|
  {
    if a == [] {
      assert a + b == b;
    } else {
      assert (a + b)[1..] == a[1..] + b;
      LinkedSplit(mem, a[1..], b, mem[a[0].at + 1], tail);
    }
  }

  lemma {:induction false} LinkedJoin(mem: seq<nat>, a: seq<Blk>, b: seq<Blk>, head: nat, mid: nat, tail: nat)
    requires Linked(mem, a, head, mid) && Linked(mem, b, mid, tail)
    ensures Linked(mem, a + b, head, tail)
    decreases |a|
  {
    if a == [] {
      assert a + b == b;
    } else {
      assert (a + b)[1..] == a[1..] + b;
      LinkedJoin(mem, a[1..], b, mem[a[0].at + 1], mid, tail);
    }
  }

  /** Only the first two words of each block matter. */
  lemma {:induction false} LinkedFrame(mem: seq<nat>, mem': seq<nat>, l: seq<Blk>, head: nat, tail: nat)
    requires Linked(mem, l, head, tail) && |mem'| == |mem|
    requires forall b | b in l && b.at + 1 < |mem| :: mem'[b.at] == mem[b.at] && mem'[b.at + 1] == mem[b.at + 1]
    ensures Linked(mem', l, head, tail)
    decreases |l|
  {
    if l != [] {
      assert l[0] in l;
      assert forall b | b in l[1..] :: b in l;
      LinkedFrame(mem, mem', l[1..], mem[l[0].at + 1], tail);
    }
  }

  lemma {:induction false} LinkedBounds(mem: seq<nat>, l: seq<Blk>, head: nat, tail: nat)
    requires Linked(mem, l, head, tail)
    ensures forall i | 0 <= i < |l| ::
              l[i].at != 0 && l[i].size >= HEADER && End(l[i]) <= |mem| && mem[l[i].at] == l[i].size
    ensures head == First(l, tail)
    decreases |l|
  {
    if l != [] {
      LinkedBounds(mem, l[1..], mem[l[0].at + 1], tail);
      assert forall i | 0 < i < |l| :: l[i] == l[1..][i - 1];
    }
  }

  /** One block between two pointers. */
  lemma LinkedOne(mem: seq<nat>, b: Blk, tail: nat)
    requires b.at != 0 && b.size >= HEADER && End(b) <= |mem| && mem[b.at] == b.size && mem[b.at + 1] == tail
    ensures Linked(mem, [b], b.at, tail)
  {
    assert [b][1..] == [];
  }

  /** A list taken apart around one block. */
  lemma LinkedAround(mem: seq<nat>, a: seq<Blk>, b: Blk, c: seq<Blk>, head: nat)
    requires Linked(mem, a + [b] + c, head, 0)
    ensures Linked(mem, a, head, b.at) && Linked(mem, c, First(c, 0), 0)
    ensures b.at != 0 && b.size >= HEADER && End(b) <= |mem| && mem[b.at] == b.size && mem[b.at + 1] == First(c, 0)
  {
    assert a + [b] + c == a + ([b] + c);
    LinkedSplit(mem, a, [b] + c, head, 0);
    assert ([b] + c)[1..] == c;
    LinkedBounds(mem, c, mem[b.at + 1], 0);
  }

  // ---- Insertion -------------------------------------------------------------------------------------

  /** How many blocks before the place stay as they are: all but a last one that touches `b`. */
  function LeftCount(a: seq<Blk>, b: Blk): (m: nat)
    ensures m <= |a|
  {
    if a != [] && End(a[|a| - 1]) == b.at then |a| - 1 else |a|
  }

  /** How many blocks after the place are swallowed. */
  function RightCount(b: Blk, c: seq<Blk>): (n: nat)
    ensures n <= |c|
  {
    if c != [] && End(b) == c[0].at then 1 else 0
  }

  /** `b` merged with whichever neighbours it touches. */
  function Merged(a: seq<Blk>, b: Blk, c: seq<Blk>): Blk {
    var left := if LeftCount(a, b) < |a| then a[|a| - 1].size else 0;
    var right := if RightCount(b, c) > 0 then c[0].size else 0;
    Blk(if LeftCount(a, b) < |a| then a[|a| - 1].at else b.at, left + b.size + right)
  }

  /** `b` joins the list between `a` and `c`. */
  function Inserted(a: seq<Blk>, b: Blk, c: seq<Blk>): seq<Blk> {
    a[..LeftCount(a, b)] + [Merged(a, b, c)] + c[RightCount(b, c)..]
  }

  ghost predicate Between(a: seq<Blk>, b: Blk, c: seq<Blk>) {
    && (forall i | 0 <= i < |a| :: End(a[i]) <= b.at) && (forall i | 0 <= i < |c| :: End(b) <= c[i].at)
  }

  lemma SortedMiddle(a: seq<Blk>, e: Blk, c: seq<Blk>)
    requires Sorted(a + c) && (forall i | 0 <= i < |a| :: End(a[i]) < e.at)
    requires (forall i | 0 <= i < |c| :: End(e) < c[i].at)
    ensures Sorted(a + [e] + c)
  {
    var l, l' := a + c, a + [e] + c;
    forall i, j | 0 <= i < j < |l'|
      ensures End(l'[i]) < l'[j].at
    {
      var i' := if i < |a| then i else i - 1;
      var j' := if j < |a| then j else j - 1;
      assert i != |a| ==> l'[i] == l[i'];
      assert j != |a| ==> l'[j] == l[j'];
    }
  }

  /** Dropping the blocks on either side of a place leaves the rest sorted. */
  lemma SortedDrop(a: seq<Blk>, c: seq<Blk>, m: nat, n: nat)
    requires Sorted(a + c) && m <= |a| && n <= |c|
    ensures Sorted(a[..m] + c[n..])
  {
    var l, l' := a + c, a[..m] + c[n..];
    forall i, j | 0 <= i < j < |l'|
      ensures End(l'[i]) < l'[j].at
    {
      assert l'[i] == l[if i < m then i else |a| + n + i - m];
      assert l'[j] == l[if j < m then j else |a| + n + j - m];
    }
  }

  lemma SortedSides(a: seq<Blk>, c: seq<Blk>, i: nat)
    requires Sorted(a + c)
    ensures i + 1 < |a| ==> End(a[i]) < a[|a| - 1].at
    ensures 0 < i < |c| ==> End(c[0]) < c[i].at
  {
    var l := a + c;
    if i + 1 < |a| {
      assert l[i] == a[i] && l[|a| - 1] == a[|a| - 1];
    }
    if 0 < i < |c| {
      assert l[|a|] == c[0] && l[|a| + i] == c[i];
    }
  }

  /** The merged block keeps its distance from the blocks it did not swallow. */
  lemma MergedGaps(a: seq<Blk>, b: Blk, c: seq<Blk>)
    requires Sorted(a + c) && Between(a, b, c)
    ensures forall i | 0 <= i < LeftCount(a, b) :: End(a[i]) < Merged(a, b, c).at
    ensures forall i | RightCount(b, c) <= i < |c| :: End(Merged(a, b, c)) < c[i].at
  {
    hide Sorted;
    forall i | 0 <= i < LeftCount(a, b)
      ensures End(a[i]) < Merged(a, b, c).at
    {
      SortedSides(a, c, i);
      assert End(a[i]) <= b.at && End(a[|a| - 1]) <= b.at;
    }
    forall i | RightCount(b, c) <= i < |c|
      ensures End(Merged(a, b, c)) < c[i].at
    {
      SortedSides(a, c, i);
      assert End(b) <= c[i].at && End(b) <= c[0].at;
    }
  }

  /** Insertion keeps the list sorted and coalesced. */
  lemma InsertedSorted(a: seq<Blk>, b: Blk, c: seq<Blk>)
    requires Sorted(a + c) && Between(a, b, c)
    ensures Sorted(Inserted(a, b, c))
  {
    hide Sorted, Merged, LeftCount, RightCount, Between;
    var m, n := LeftCount(a, b), RightCount(b, c);
    MergedGaps(a, b, c);
    SortedDrop(a, c, m, n);
    assert forall i | 0 <= i < m :: a[..m][i] == a[i];
    assert forall i | 0 <= i < |c| - n :: c[n..][i] == c[n + i];
    SortedMiddle(a[..m], Merged(a, b, c), c[n..]);
  }

  lemma InFreeConcat(a: seq<Blk>, b: seq<Blk>, w: nat)
    ensures InFree(a + b, w) <==> InFree(a, w) || InFree(b, w)
  {
    var l := a + b;
    if InFree(a, w) {
      var i :| 0 <= i < |a| && a[i].at <= w < End(a[i]);
      assert l[i] == a[i];
    }
    if InFree(b, w) {
      var i :| 0 <= i < |b| && b[i].at <= w < End(b[i]);
      assert l[|a| + i] == b[i];
    }
    if InFree(l, w) {
      var i :| 0 <= i < |l| && l[i].at <= w < End(l[i]);
      assert l[i] == if i < |a| then a[i] else b[i - |a|];
    }
  }

  lemma InFreeOne(b: Blk, w: nat)
    ensures InFree([b], w) <==> b.at <= w < End(b)
  {
    assert [b][0] == b;
  }

  /** The words of a list around one block. */
  lemma InFreeAround(a: seq<Blk>, b: Blk, c: seq<Blk>, w: nat)
    ensures InFree(a + [b] + c, w) <==> InFree(a, w) || b.at <= w < End(b) || InFree(c, w)
  {
    InFreeConcat(a + [b], c, w);
    InFreeConcat(a, [b], w);
    InFreeOne(b, w);
  }

  /** ... and adds exactly the block's words. */
  lemma InsertedWords(a: seq<Blk>, b: Blk, c: seq<Blk>, w: nat)
    requires Between(a, b, c)
    ensures InFree(Inserted(a, b, c), w) <==> InFree(a + c, w) || b.at <= w < End(b)
  {
    hide InFree;
    var m, n := LeftCount(a, b), RightCount(b, c);
    InFreeConcat(a, c, w);
    assert a == a[..m] + a[m..] && c == c[..n] + c[n..];
    InFreeConcat(a[..m], a[m..], w);
    InFreeConcat(c[..n], c[n..], w);
    if m < |a| {
      assert a[m..] == [a[m]];
      InFreeOne(a[m], w);
    } else {
      InFreeNone(w);
    }
    if n > 0 {
      assert c[..n] == [c[0]];
      InFreeOne(c[0], w);
    } else {
      InFreeNone(w);
    }
    InFreeAround(a[..m], Merged(a, b, c), c[n..], w);
  }

  lemma InFreeNone(w: nat)
    ensures !InFree([], w)
  {
  }

  // ---- Linking ----------------------------------------------------------------------------------------

  /** The header words of the list's blocks are as they were. */
  ghost predicate SameHeads(mem: seq<nat>, mem': seq<nat>, l: seq<Blk>) {
    && |mem'| == |mem|
    && forall b | b in l && b.at + 1 < |mem| :: mem'[b.at] == mem[b.at] && mem'[b.at + 1] == mem[b.at + 1]
  }

  /** The last block of a list is linked to something else. */
  lemma RelinkLast(mem: seq<nat>, mem': seq<nat>, a: seq<Blk>, b: Blk, head: nat, tail: nat, tail': nat)
    requires Linked(mem, a + [b], head, tail) && SameHeads(mem, mem', a) && End(b) <= |mem| && b.size >= HEADER
    requires mem'[b.at] == mem[b.at] && mem'[b.at + 1] == tail'
    ensures Linked(mem', a + [b], head, tail')
  {
    LinkedSplit(mem, a, [b], head, tail);
    LinkedBounds(mem, [b], b.at, tail);
    assert [b][0] == b;
    LinkedFrame(mem, mem', a, head, b.at);
    LinkedOne(mem', b, tail');
    LinkedJoin(mem', a, [b], head, b.at, tail');
  }

  /** A list with `e` between `a` and `c`, once the words of `e` and the link to it are right. */
  lemma PlaceNode(mem: seq<nat>, a: seq<Blk>, e: Blk, c: seq<Blk>, head: nat)
    requires Linked(mem, a, head, e.at) && Linked(mem, c, First(c, 0), 0)
    requires e.at != 0 && e.size >= HEADER && End(e) <= |mem| && mem[e.at] == e.size && mem[e.at + 1] == First(c, 0)
    ensures Linked(mem, a + [e] + c, head, 0)
  {
    LinkedOne(mem, e, First(c, 0));
    LinkedJoin(mem, [e], c, e.at, First(c, 0), 0);
    LinkedJoin(mem, a, [e] + c, head, e.at, 0);
    assert a + ([e] + c) == a + [e] + c;
  }

  /** Headers before and after a place stay clear of it and of each other. */
  lemma HeadsApart(mem: seq<nat>, a: seq<Blk>, b: Blk, c: seq<Blk>, head: nat)
    requires Linked(mem, a + c, head, 0) && Sorted(a + c) && Between(a, b, c) && b.size >= HEADER
    ensures forall d | d in a :: d.size >= HEADER && d.at + 1 < b.at
    ensures forall d | d in c :: d.size >= HEADER && End(b) <= d.at
    ensures a != [] ==> forall d | d in a[..|a| - 1] :: d.at + 1 < a[|a| - 1].at
    ensures c != [] ==> forall d | d in c[1..] :: End(c[0]) < d.at
  {
    LinkedBounds(mem, a + c, head, 0);
    assert forall i | 0 <= i < |a| :: (a + c)[i] == a[i];
    assert forall i | 0 <= i < |c| :: (a + c)[|a| + i] == c[i];
    if a != [] {
      forall i | 0 <= i < |a| - 1
        ensures a[i].at + 1 < a[|a| - 1].at
      {
        SortedSides(a, c, i);
      }
    }
    if c != [] {
      forall i | 0 < i < |c|
        ensures End(c[0]) < c[i].at
      {
        SortedSides(a, c, i);
      }
    }
  }

  /** The freed block is added to the size of the one before it. */
  lemma LeftKeeps(mem: seq<nat>, a: seq<Blk>, b: Blk, c: seq<Blk>, head: nat)
    requires Linked(mem, a + c, head, 0) && Sorted(a + c) && Between(a, b, c) && b.size >= HEADER && a != []
    ensures var x := a[|a| - 1].at;
            && x != 0 && x + 1 < |mem| && mem[x] == a[|a| - 1].size
            && var mem' := mem[x := mem[x] + b.size];
            Linked(mem', a[..|a| - 1], head, x) && Linked(mem', c, First(c, 0), 0)
  {
    hide Linked, Sorted, Between;
    var d, r := a[|a| - 1], a[..|a| - 1];
    assert a == r + [d];
    HeadsApart(mem, a, b, c, head);
    LinkedHead(mem, a, c, head);
    LinkedSplit(mem, a, c, head, 0);
    LinkedSplit(mem, r, [d], head, First(c, 0));
    assert forall x | x in a :: x.at + 1 < b.at;
    assert d in a;
    var mem' := mem[d.at := mem[d.at] + b.size];
    LinkedFrame(mem, mem', r, head, d.at);
    LinkedFrame(mem, mem', c, First(c, 0), 0);
  }

  /** The freed block becomes a node of its own, and the one before it points to it. */
  lemma FreshKeeps(mem: seq<nat>, a: seq<Blk>, b: Blk, c: seq<Blk>, head: nat)
    requires Linked(mem, a + c, head, 0) && Sorted(a + c) && Between(a, b, c) && b.size >= HEADER && b.at != 0
    requires End(b) <= |mem|
    ensures a == [] ==> Linked(mem[b.at := b.size], c, First(c, 0), 0)
    ensures a != [] ==>
              var x := a[|a| - 1].at;
              && x != 0 && x + 1 < |mem|
              && var mem' := mem[b.at := b.size][x + 1 := b.at];
              Linked(mem', a, head, b.at) && Linked(mem', c, First(c, 0), 0) && mem'[b.at] == b.size
  {
    hide Linked, Sorted, Between;
    HeadsApart(mem, a, b, c, head);
    LinkedSplit(mem, a, c, head, 0);
    if a == [] {
      LinkedFrame(mem, mem[b.at := b.size], c, First(c, 0), 0);
    } else {
      var d, r := a[|a| - 1], a[..|a| - 1];
      assert a == r + [d];
      LinkedHead(mem, a, c, head);
      var mem' := mem[b.at := b.size][d.at + 1 := b.at];
      LinkedFrame(mem, mem', c, First(c, 0), 0);
      RelinkLast(mem, mem', r, d, head, First(c, 0), b.at);
    }
  }

  // ---- Taking ------------------------------------------------------------------------------------------

  /** What stays on the list when `need` words of `b` are taken. */
  function Rest(b: Blk, need: nat): seq<Blk>
    requires need <= b.size
  {
    if b.size - need >= MIN_SPLIT then [Blk(b.at + need, b.size - need)] else []
  }

  /** What is taken. */
  function Taken(b: Blk, need: nat): Blk
    requires need <= b.size
  {
    if b.size - need >= MIN_SPLIT then Blk(b.at, need) else b
  }

  /** No free block has `need` words. */
  ghost predicate NoFit(free: seq<Blk>, need: nat) { forall i | 0 <= i < |free| :: free[i].size < need }

  /** `b` is what is taken of the first free block with `need` words; the others stay, in order, and so does the rest.
      */
  ghost predicate FirstFit(free: seq<Blk>, free': seq<Blk>, need: nat, b: Blk) {
    exists i :: 0 <= i < |free| && need <= free[i].size && NoFit(free[..i], need) && b == Taken(free[i], need)
                && free' == free[..i] + Rest(free[i], need) + free[i + 1..]
  }

  lemma FitsNone(need: nat)
    ensures NoFit([], need)
  {
  }

  lemma TooSmall(a: seq<Blk>, d: Blk, need: nat)
    requires NoFit(a, need) && d.size < need
    ensures NoFit(a + [d], need)
  {
  }

  lemma FitsFirst(a: seq<Blk>, d: Blk, c: seq<Blk>, need: nat)
    requires NoFit(a, need) && need <= d.size
    ensures FirstFit(a + [d] + c, a + Rest(d, need) + c, need, Taken(d, need)) && !NoFit(a + [d] + c, need)
  {
    var free := a + [d] + c;
    assert free[|a|] == d && free[..|a|] == a && free[|a| + 1..] == c;
  }

  lemma TakenSorted(a: seq<Blk>, b: Blk, c: seq<Blk>, need: nat)
    requires Sorted(a + [b] + c) && need <= b.size
    ensures Sorted(a + Rest(b, need) + c)
  {
    var l := a + [b] + c;
    assert forall i | 0 <= i < |a| :: l[i] == a[i];
    assert forall i | 0 <= i < |c| :: l[|a| + 1 + i] == c[i];
    assert l[|a|] == b;
    SortedDrop(a + [b], c, |a|, 0);
    assert (a + [b])[..|a|] == a && c[0..] == c;
    if b.size - need >= MIN_SPLIT {
      SortedMiddle(a, Rest(b, need)[0], c);
    } else {
      assert a + Rest(b, need) + c == a + c;
    }
  }

  /** The taken block and what stays are exactly what was there, and do not meet. */
  lemma TakenWords(a: seq<Blk>, b: Blk, c: seq<Blk>, need: nat, w: nat)
    requires need <= b.size
    ensures InFree(a + [b] + c, w) <==> InFree(a + Rest(b, need) + c, w) || Taken(b, need).at <= w < End(Taken(b, need))
  {
    hide InFree;
    InFreeAround(a, b, c, w);
    if b.size - need >= MIN_SPLIT {
      InFreeAround(a, Rest(b, need)[0], c, w);
    } else {
      assert a + Rest(b, need) + c == a + c;
      InFreeConcat(a, c, w);
    }
  }

  lemma TakenOutside(a: seq<Blk>, b: Blk, c: seq<Blk>, need: nat)
    requires Sorted(a + [b] + c) && need <= b.size
    ensures Outside(a + Rest(b, need) + c, Taken(b, need))
  {
    var l, l' := a + [b] + c, a + Rest(b, need) + c;
    assert l[|a|] == b;
    forall i | 0 <= i < |l'|
      ensures End(l'[i]) <= Taken(b, need).at || End(Taken(b, need)) <= l'[i].at
    {
      var k := |Rest(b, need)|;
      if i < |a| {
        assert l'[i] == l[i];
      } else if i >= |a| + k {
        assert l'[i] == l[i - k + 1];
      }
    }
  }

  /** Where the list goes on once `need` words of `b` are gone. */
  function Replacement(b: Blk, need: nat, next: nat): nat
    requires need <= b.size
  {
    if b.size - need >= MIN_SPLIT then b.at + need else next
  }

  /** What take_free writes: the rest's header if there is one, the shortened size, and the link to what follows. */
  ghost predicate TakeWrites(mem: seq<nat>, mem': seq<nat>, a: seq<Blk>, b: Blk, need: nat, next: nat) {
    && |mem'| == |mem| && HEADER <= need <= b.size && End(b) <= |mem|
    && (a != [] ==> End(a[|a| - 1]) < b.at && a[|a| - 1].size >= HEADER)
    && mem'[b.at] == Taken(b, need).size
    && (b.size - need >= MIN_SPLIT ==> mem'[b.at + need] == b.size - need && mem'[b.at + need + 1] == next)
    && (a != [] ==> mem'[a[|a| - 1].at + 1] == Replacement(b, need, next))
    && (forall w | 0 <= w < |mem| && !(b.at <= w < End(b)) && !(a != [] && w == a[|a| - 1].at + 1) :: mem'[w] == mem[w])
  }

  lemma TakenLinked(mem: seq<nat>, mem': seq<nat>, a: seq<Blk>, b: Blk, c: seq<Blk>, head: nat, need: nat)
    requires Linked(mem, a + [b] + c, head, 0) && Sorted(a + [b] + c) && TakeWrites(mem, mem', a, b, need, First(c, 0))
    ensures Linked(mem', a + Rest(b, need) + c, if a == [] then Replacement(b, need, First(c, 0)) else head, 0)
  {
    hide Linked, Sorted, InFree;
    LinkedAround(mem, a, b, c, head);
    TakenApart(mem, a, b, c, head);
    var to := Replacement(b, need, First(c, 0));
    LinkedFrame(mem, mem', c, First(c, 0), 0);
    if a == [] {
      LinkedNil(mem', to);
    } else {
      var d, r := a[|a| - 1], a[..|a| - 1];
      assert a == r + [d];
      assert forall x | x in r :: x in a;
      RelinkLast(mem, mem', r, d, head, b.at, to);
    }
    TakenJoin(mem', a, b, c, if a == [] then to else head, need);
  }

  lemma TakenSpares(mem: seq<nat>, mem': seq<nat>, a: seq<Blk>, b: Blk, c: seq<Blk>, need: nat)
    requires TakeWrites(mem, mem', a, b, need, First(c, 0))
    ensures Spares(mem, mem', a + [b] + c, Blk(0, 0))
  {
    var l := a + [b] + c;
    assert l[|a|] == b;
    forall w | 0 <= w < |mem| && !InFree(l, w)
      ensures mem'[w] == mem[w]
    {
      assert !(l[|a|].at <= w < End(l[|a|]));
      if a != [] {
        assert l[|a| - 1] == a[|a| - 1];
        assert !(l[|a| - 1].at <= w < End(l[|a| - 1]));
      }
    }
  }

  lemma TakenJoin(mem: seq<nat>, a: seq<Blk>, b: Blk, c: seq<Blk>, head: nat, need: nat)
    requires b.at != 0 && HEADER <= need <= b.size && End(b) <= |mem|
    requires Linked(mem, a, head, if b.size - need >= MIN_SPLIT then b.at + need else First(c, 0))
    requires Linked(mem, c, First(c, 0), 0)
    requires b.size - need >= MIN_SPLIT ==> mem[b.at + need] == b.size - need && mem[b.at + need + 1] == First(c, 0)
    ensures Linked(mem, a + Rest(b, need) + c, head, 0)
    ensures a == [] ==> Linked(mem, Rest(b, need) + c, head, 0)
  {
    hide Linked;
    if b.size - need >= MIN_SPLIT {
      PlaceNode(mem, a, Rest(b, need)[0], c, head);
    } else {
      LinkedJoin(mem, a, c, head, First(c, 0), 0);
      assert a + Rest(b, need) + c == a + c;
    }
    assert a == [] ==> a + Rest(b, need) + c == Rest(b, need) + c;
  }

  lemma TakenApart(mem: seq<nat>, a: seq<Blk>, b: Blk, c: seq<Blk>, head: nat)
    requires Linked(mem, a + [b] + c, head, 0) && Sorted(a + [b] + c)
    ensures forall d | d in a :: d.size >= HEADER && End(d) < b.at && End(d) <= |mem|
    ensures forall d | d in c :: End(b) < d.at
    ensures a != [] ==> a[|a| - 1] in a && a[|a| - 1].at != 0 && forall d | d in a[..|a| - 1] :: End(d) < a[|a| - 1].at
    ensures a != [] ==> a[|a| - 1].at < |mem| && mem[a[|a| - 1].at] == a[|a| - 1].size
  {
    hide Linked, Sorted;
    var l := a + [b] + c;
    LinkedBounds(mem, l, head, 0);
    assert l[|a|] == b;
    forall i | 0 <= i < |a|
      ensures a[i] == l[i] && End(a[i]) < b.at && (i < |a| - 1 ==> End(a[i]) < a[|a| - 1].at)
    {
      SortedAt(l, i, |a|);
      if i < |a| - 1 {
        SortedAt(l, i, |a| - 1);
      }
    }
    forall i | 0 <= i < |c|
      ensures End(b) < c[i].at
    {
      SortedAt(l, |a|, |a| + 1 + i);
    }
  }

  lemma SortedAt(l: seq<Blk>, i: nat, j: nat)
    requires Sorted(l) && i < j < |l|
    ensures End(l[i]) < l[j].at
  {
  }

  // ---- The heap ----------------------------------------------------------------------------------------

  ghost predicate Even(b: Blk) { b.at % 2 == 0 && b.size % 2 == 0 && b.size >= HEADER && b.at > 0 }

  ghost predicate ListOk(mem: seq<nat>, free: seq<Blk>, head: nat) {
    Linked(mem, free, head, 0) && Sorted(free) && forall i | 0 <= i < |free| :: Even(free[i])
  }

  /** A payload's block says how long it is, and the word before the payload says where the block starts. */
  ghost predicate Held(mem: seq<nat>, p: nat, b: Blk) {
    Even(b) && b.at + HEADER <= p <= End(b) <= |mem| && mem[b.at] == b.size && mem[p - 1] == b.at
  }

  ghost predicate LiveOk(mem: seq<nat>, live: map<nat, Blk>) {
    && (forall p | p in live :: Held(mem, p, live[p]))
    && (forall p, q | p in live && q in live && p != q :: End(live[p]) <= live[q].at || End(live[q]) <= live[p].at)
  }

  ghost predicate Apart(free: seq<Blk>, live: map<nat, Blk>) {
    forall p | p in live :: Outside(free, live[p])
  }

  ghost predicate InLive(live: map<nat, Blk>, w: nat) {
    exists p :: p in live && live[p].at <= w < End(live[p])
  }

  /** Free and live blocks together are exactly the memory obtained from heap_grow. */
  ghost predicate Covered(regions: seq<Blk>, free: seq<Blk>, live: map<nat, Blk>) {
    forall w: nat :: InFree(regions, w) <==> InFree(free, w) || InLive(live, w)
  }

  /** Live blocks hold what they held. */
  ghost predicate SameLive(mem: seq<nat>, mem': seq<nat>, live: map<nat, Blk>) {
    |mem'| == |mem| && forall q, w | q in live && live[q].at <= w < End(live[q]) && w < |mem| :: mem'[w] == mem[w]
  }

  lemma SameLiveOk(mem: seq<nat>, mem': seq<nat>, live: map<nat, Blk>)
    requires LiveOk(mem, live) && SameLive(mem, mem', live)
    ensures LiveOk(mem', live)
  {
    forall p | p in live
      ensures Held(mem', p, live[p])
    {
      assert Held(mem, p, live[p]);
    }
  }

  /** A live block's words are not free. */
  lemma NotFree(free: seq<Blk>, live: map<nat, Blk>, q: nat, w: nat)
    requires Apart(free, live) && q in live && live[q].at <= w < End(live[q])
    ensures !InFree(free, w)
  {
    assert Outside(free, live[q]);
  }

  lemma SparesLive(mem: seq<nat>, mem': seq<nat>, free: seq<Blk>, b: Blk, live: map<nat, Blk>)
    requires Spares(mem, mem', free, b) && Apart(free, live)
    requires forall q | q in live :: End(live[q]) <= b.at || b.at + HEADER <= live[q].at
    ensures SameLive(mem, mem', live)
  {
    hide InFree;
    forall q, w | q in live && live[q].at <= w < End(live[q]) && w < |mem|
      ensures mem'[w] == mem[w]
    {
      NotFree(free, live, q, w);
    }
  }

  /** Blocks that share no word are apart. */
  lemma OutsideByWords(free: seq<Blk>, b: Blk)
    requires (forall i | 0 <= i < |free| :: free[i].size > 0) && b.size > 0
    requires forall w: nat | b.at <= w < End(b) :: !InFree(free, w)
    ensures Outside(free, b)
  {
    forall i | 0 <= i < |free|
      ensures End(free[i]) <= b.at || End(b) <= free[i].at
    {
      var w := if free[i].at < b.at then b.at else free[i].at;
      if w < End(free[i]) && w < End(b) {
        assert InFree(free, w);
      }
    }
  }

  lemma InLiveSplit(live: map<nat, Blk>, p: nat, w: nat)
    requires p in live
    ensures InLive(live, w) <==> InLive(live - {p}, w) || live[p].at <= w < End(live[p])
  {
    if InLive(live, w) {
      var q :| q in live && live[q].at <= w < End(live[q]);
      assert q != p ==> q in live - {p};
    }
    if InLive(live - {p}, w) {
      var q :| q in live - {p} && (live - {p})[q].at <= w < End((live - {p})[q]);
      assert q in live;
    }
  }

  /** A live block has gone back to the free list. */
  lemma FreeStep(mem: seq<nat>, mem': seq<nat>, free: seq<Blk>, free': seq<Blk>, head': nat, live: map<nat, Blk>,
                 regions: seq<Blk>, p: nat)
    requires LiveOk(mem, live) && Apart(free, live) && Covered(regions, free, live) && p in live
    requires ListOk(mem', free', head')
    requires Spares(mem, mem', free, live[p])
    requires forall w: nat :: InFree(free', w) <==> InFree(free, w) || live[p].at <= w < End(live[p])
    ensures LiveOk(mem', live - {p}) && Apart(free', live - {p}) && Covered(regions, free', live - {p})
    ensures SameLive(mem, mem', live - {p})
  {
    var rest := live - {p};
    assert LiveOk(mem, rest) && Apart(free, rest);
    assert forall q | q in live :: Held(mem, q, live[q]);
    SparesLive(mem, mem', free, live[p], rest);
    SameLiveOk(mem, mem', rest);
    forall w: nat
      ensures InFree(regions, w) <==> InFree(free', w) || InLive(rest, w)
    {
      InLiveSplit(live, p, w);
    }
    forall q | q in rest
      ensures Outside(free', rest[q])
    {
      forall w: nat | rest[q].at <= w < End(rest[q])
        ensures !InFree(free', w)
      {
        NotFree(free, live, q, w);
      }
      OutsideByWords(free', rest[q]);
    }
  }

  /** Memory obtained from heap_grow joins the free list. */
  lemma GrowStep(mem: seq<nat>, mem': seq<nat>, free: seq<Blk>, free': seq<Blk>, head': nat, live: map<nat, Blk>,
                 regions: seq<Blk>, b: Blk)
    requires LiveOk(mem, live) && Apart(free, live) && Covered(regions, free, live) && ListOk(mem', free', head')
    requires Fresh(regions, b)
    requires Spares(mem, mem', free, b) && b.size >= HEADER
    requires forall w: nat :: InFree(free', w) <==> InFree(free, w) || b.at <= w < End(b)
    ensures LiveOk(mem', live) && Apart(free', live) && Covered(regions + [b], free', live) && SameLive(mem, mem', live)
  {
    forall q | q in live
      ensures End(live[q]) <= b.at || End(b) <= live[q].at
    {
      assert Held(mem, q, live[q]);
      FreshApart(regions, free, live, b, q);
    }
    SparesLive(mem, mem', free, b, live);
    SameLiveOk(mem, mem', live);
    forall q | q in live
      ensures Outside(free', live[q])
    {
      forall w: nat | live[q].at <= w < End(live[q])
        ensures !InFree(free', w)
      {
        NotFree(free, live, q, w);
      }
      OutsideByWords(free', live[q]);
    }
    forall w: nat
      ensures InFree(regions + [b], w) <==> InFree(free', w) || InLive(live, w)
    {
      InFreeConcat(regions, [b], w);
      InFreeOne(b, w);
    }
  }

  /** None of the block's words has been obtained before. */
  ghost predicate Fresh(regions: seq<Blk>, b: Blk) { forall w: nat | b.at <= w < End(b) :: !InFree(regions, w) }

  lemma InLiveAt(live: map<nat, Blk>, q: nat, w: nat)
    requires q in live && live[q].at <= w < End(live[q])
    ensures InLive(live, w)
  {
  }

  lemma FreshApart(regions: seq<Blk>, free: seq<Blk>, live: map<nat, Blk>, b: Blk, q: nat)
    requires Covered(regions, free, live) && Fresh(regions, b) && b.size > 0 && q in live && live[q].size > 0
    ensures End(live[q]) <= b.at || End(b) <= live[q].at
  {
    hide InLive, InFree;
    var w := if live[q].at < b.at then b.at else live[q].at;
    if w < End(live[q]) {
      InLiveAt(live, q, w);
    }
  }

  lemma FreshOutside(regions: seq<Blk>, free: seq<Blk>, live: map<nat, Blk>, b: Blk)
    requires Covered(regions, free, live) && Fresh(regions, b) && b.size > 0
    requires forall i | 0 <= i < |free| :: Even(free[i])
    ensures Outside(free, b)
  {
    OutsideByWords(free, b);
  }

  /** A block taken off the free list is handed out with its back pointer in place. */
  lemma AllocStep(mem: seq<nat>, mem': seq<nat>, free: seq<Blk>, free': seq<Blk>, head': nat, live: map<nat, Blk>,
                  regions: seq<Blk>, p: nat, b: Blk)
    requires LiveOk(mem, live) && Apart(free, live) && Covered(regions, free, live) && ListOk(mem', free', head')
    requires Spares(mem, mem', free, Blk(0, 0)) && Outside(free', b) && Even(b)
    requires b.at + HEADER <= p <= End(b) <= |mem'| && mem'[b.at] == b.size
    requires forall w: nat :: InFree(free, w) <==> InFree(free', w) || b.at <= w < End(b)
    ensures var mem2 := mem'[p - 1 := b.at];
            && p !in live && ListOk(mem2, free', head') && LiveOk(mem2, live[p := b])
            && Apart(free', live[p := b]) && Covered(regions, free', live[p := b])
            && SameLive(mem, mem2, live)
  {
    hide InFree, InLive, ListOk, Spares, Outside;
    var mem2 := mem'[p - 1 := b.at];
    forall q | q in live
      ensures live[q].size >= HEADER && (End(live[q]) <= b.at || End(b) <= live[q].at)
      ensures live[q].at + HEADER <= q <= End(live[q])
    {
      assert Held(mem, q, live[q]);
      TakenNotLive(free, free', live, b, q);
    }
    SparesLive(mem, mem', free, Blk(0, 0), live);
    StoreLive(mem, mem', mem2, live, p - 1, b);
    SameLiveOk(mem, mem2, live);
    AllocList(mem', free', head', p, b);
    AllocApart(free, free', head', mem', live, b, p);
    AllocLive(mem2, live, p, b);
    forall w: nat
      ensures InFree(regions, w) <==> InFree(free', w) || InLive(live[p := b], w)
    {
      InLiveSplit(live[p := b], p, w);
      assert live[p := b] - {p} == live;
    }
  }

  lemma StoreLive(mem: seq<nat>, mem': seq<nat>, mem2: seq<nat>, live: map<nat, Blk>, w: nat, b: Blk)
    requires SameLive(mem, mem', live) && w < |mem'| == |mem2| && mem2 == mem'[w := mem2[w]] && b.at <= w < End(b)
    requires forall q | q in live :: End(live[q]) <= b.at || End(b) <= live[q].at
    ensures SameLive(mem, mem2, live)
  {
  }

  lemma AllocLive(mem: seq<nat>, live: map<nat, Blk>, p: nat, b: Blk)
    requires LiveOk(mem, live) && Held(mem, p, b) && p !in live
    requires forall q | q in live :: End(live[q]) <= b.at || End(b) <= live[q].at
    ensures LiveOk(mem, live[p := b])
  {
  }

  lemma TakenNotLive(free: seq<Blk>, free': seq<Blk>, live: map<nat, Blk>, b: Blk, q: nat)
    requires Apart(free, live) && q in live && live[q].size > 0 && b.size > 0
    requires forall w: nat :: InFree(free, w) <==> InFree(free', w) || b.at <= w < End(b)
    ensures End(live[q]) <= b.at || End(b) <= live[q].at
  {
    var w := if live[q].at < b.at then b.at else live[q].at;
    if w < End(live[q]) && w < End(b) {
      NotFree(free, live, q, w);
    }
  }

  lemma AllocList(mem: seq<nat>, free: seq<Blk>, head: nat, p: nat, b: Blk)
    requires ListOk(mem, free, head) && Outside(free, b) && b.at + HEADER <= p <= End(b) <= |mem|
    ensures ListOk(mem[p - 1 := b.at], free, head)
  {
    forall d | d in free
      ensures d.at != p - 1 && d.at + 1 != p - 1
    {
      var i :| 0 <= i < |free| && free[i] == d;
      assert Even(free[i]);
    }
    LinkedFrame(mem, mem[p - 1 := b.at], free, head, 0);
  }

  lemma AllocApart(free: seq<Blk>, free': seq<Blk>, head': nat, mem': seq<nat>, live: map<nat, Blk>, b: Blk, p: nat)
    requires Apart(free, live) && Outside(free', b) && (forall q | q in live :: live[q].size >= HEADER)
    requires ListOk(mem', free', head')
    requires forall w: nat :: InFree(free, w) <==> InFree(free', w) || b.at <= w < End(b)
    ensures Apart(free', live[p := b])
  {
    forall q | q in live && q != p
      ensures Outside(free', live[q])
    {
      forall w: nat | live[q].at <= w < End(live[q])
        ensures !InFree(free', w)
      {
        NotFree(free, live, q, w);
      }
      OutsideByWords(free', live[q]);
    }
  }

  // ---- Sizes ------------------------------------------------------------------------------------------

  const LIMIT: nat := 0x1_0000_0000_0000_0000

  /** The extra bytes an over-aligned request may need. */
  function Extra(align: nat): nat { if align > 16 then align else 0 }

  /** The words taken for `size` bytes: a multiple of 16 bytes that holds header, padding and payload. */
  function Need(size: nat, align: nat): nat { (size + 16 + Extra(align) + 15) / 16 * 2 }

  /** The words heap_grow is asked for, rounded to 512-word pages as the kernel rounds them. */
  function GrowWords(need: nat): nat { ((if need > MIN_GROW then need else MIN_GROW) + 511) / 512 * 512 }

  /** An alignment of zero means eight. */
  function Align(align: nat): nat { if align == 0 then 8 else align }

  /** A request alloc refuses before looking: the alignment is no power of two, or the size would overflow. */
  ghost predicate Bad(size: nat, align: nat) {
    !IsPowerOfTwo(Align(align)) || size + 16 + Extra(Align(align)) + 15 >= LIMIT
  }

  lemma SameLiveSelf(mem: seq<nat>, live: map<nat, Blk>)
    ensures SameLive(mem, mem, live)
  {
  }

  lemma NeedEven(size: nat, align: nat)
    ensures Need(size, align) % 2 == 0 && Need(size, align) >= HEADER
  {
  }

  lemma SameLiveTrans(mem0: seq<nat>, mem1: seq<nat>, mem2: seq<nat>, live0: map<nat, Blk>)
    requires SameLive(mem0, mem1, live0) && SameLive(mem1, mem2, live0)
    ensures SameLive(mem0, mem2, live0)
  {
  }

  lemma SameLiveWord(mem: seq<nat>, mem': seq<nat>, live: map<nat, Blk>, q: nat, p: nat, w: nat)
    requires SameLive(mem, mem', live - {q}) && p in live && p != q && live[p].at <= w < End(live[p]) && w < |mem|
    ensures |mem'| == |mem| && mem'[w] == mem[w]
  {
    assert p in live - {q};
  }

  lemma LiveFits(mem: seq<nat>, live: map<nat, Blk>, p: nat)
    requires LiveOk(mem, live)
    ensures p in live ==>
              && live[p].at + HEADER <= p <= End(live[p]) <= |mem| && mem[p - 1] == live[p].at
              && mem[live[p].at] == live[p].size
  {
    assert p in live ==> Held(mem, p, live[p]);
  }

  lemma CopyExtend(mem0: seq<nat>, mem: seq<nat>, mem': seq<nat>, p: nat, q: nat, i: nat)
    requires |mem| == |mem'| == |mem0| && p + i < |mem0| && q + i < |mem0|
    requires mem[q..q + i] == mem0[p..p + i] && mem' == mem[q + i := mem0[p + i]]
    ensures mem'[q..q + i + 1] == mem0[p..p + i + 1]
  {
    assert mem'[q..q + i + 1] == mem[q..q + i] + [mem0[p + i]];
    assert mem0[p..p + i + 1] == mem0[p..p + i] + [mem0[p + i]];
  }

  lemma WholeWords(size: nat, words: int, room: int)
    requires words >= 0 && 8 * room >= size
    ensures Min(size, 8 * words) / 8 == Min(size / 8, words) <= room
  {
  }

  /** Growing by `q`, filling `q` and dropping `p`: `q` has the prefix, everyone else is untouched. */
  lemma CopyKept(mem0: seq<nat>, mem1: seq<nat>, mem2: seq<nat>, mem3: seq<nat>, live0: map<nat, Blk>,
                 live1: map<nat, Blk>, live3: map<nat, Blk>, p: nat, q: nat, n: nat)
    requires p in live0 && q !in live0 && q in live1 && live1 == live0[q := live1[q]] && live3 == live1 - {p}
    requires SameLive(mem0, mem1, live0) && SameLive(mem1, mem2, live1 - {q}) && SameLive(mem2, mem3, live3)
    requires live0[p].at <= p && p + n <= End(live0[p]) <= |mem0| && live1[q].at <= q
    requires q + n <= End(live1[q]) <= |mem1|
    requires mem2[q..q + n] == mem1[p..p + n]
    ensures live3 == (live0 - {p})[q := live3[q]] && |mem3| == |mem0| && mem3[q..q + n] == mem0[p..p + n]
    ensures SameLive(mem0, mem3, live0 - {p})
  {
    assert q in live3 && live3[q] == live1[q];
    assert forall w | q <= w < q + n :: mem3[w] == mem2[w];
    assert mem3[q..q + n] == mem2[q..q + n];
    assert forall w | p <= w < p + n :: mem1[w] == mem0[w];
    assert mem1[p..p + n] == mem0[p..p + n];
    forall x, w | x in live0 - {p} && live0[x].at <= w < End(live0[x]) && w < |mem0|
      ensures mem3[w] == mem0[w]
    {
      assert mem1[w] == mem0[w];
      assert x in live1 - {q} && (live1 - {q})[x] == live0[x];
      assert mem2[w] == mem1[w];
      assert x in live3 && live3[x] == live0[x];
    }
  }

  /** A store into a payload misses every header and every other block. */
  lemma StoreStep(mem: seq<nat>, free: seq<Blk>, head: nat, live: map<nat, Blk>, p: nat, w: nat, x: nat)
    requires ListOk(mem, free, head) && LiveOk(mem, live) && Apart(free, live) && p in live && p <= w < End(live[p])
    ensures w < |mem| && ListOk(mem[w := x], free, head) && LiveOk(mem[w := x], live)
    ensures SameLive(mem, mem[w := x], live - {p})
  {
    assert Held(mem, p, live[p]) && Outside(free, live[p]);
    forall d | d in free
      ensures d.at != w && d.at + 1 != w
    {
      var i :| 0 <= i < |free| && free[i] == d;
      assert Even(free[i]);
    }
    LinkedFrame(mem, mem[w := x], free, head, 0);
    forall q | q in live
      ensures Held(mem[w := x], q, live[q])
    {
      assert Held(mem, q, live[q]);
    }
  }

  lemma NeedFits(start: nat, size: nat, align: nat)
    requires start % 2 == 0 && AlignOk(align)
    ensures var p8 := RoundUp(8 * (start + 2), align);
            && p8 % 8 == 0 && p8 % align == 0 && start + 2 <= p8 / 8 <= start + Need(size, align)
            && p8 + size <= 8 * (start + Need(size, align))
  {
    var k := (size + 16 + Extra(align) + 15) / 16;
    assert 16 * k + 15 >= size + 16 + Extra(align) + 15;
    RoundUpWords(start + 2, align);
    if align == 16 {
      assert 8 * (start + 2) == 16 * (start / 2 + 1);
      SmallRemainder(8 * (start + 2), 16, start / 2 + 1, 0);
    }
  }

  lemma GrowEnough(need: nat)
    requires need % 2 == 0
    ensures GrowWords(need) >= need && GrowWords(need) % 2 == 0 && GrowWords(need) >= HEADER
  {
    var n := if need > MIN_GROW then need else MIN_GROW;
    var k, rem := (n + 511) / 512, (n + 511) % 512;
    assert n + 511 == 512 * k + rem;
    assert GrowWords(need) == 512 * k == 2 * (256 * k);
  }

  // ---- Once everything is freed -----------------------------------------------------------------

  datatype Op = Get(size: nat, align: nat, granted: bool) | Give(i: nat)
              | Resize(i: nat, size: nat, align: nat, granted: bool)

  /** The pointers held are the live payloads, each once. */
  ghost predicate Holds(held: seq<nat>, live: map<nat, Blk>) {
    && (forall i, j | 0 <= i < j < |held| :: held[i] != held[j])
    && (forall p :: p in held <==> p in live)
  }

  lemma HeldLive(mem: seq<nat>, held: seq<nat>, live: map<nat, Blk>, i: nat)
    requires Holds(held, live) && LiveOk(mem, live) && i < |held|
    ensures held[i] != 0 && held[i] in live
  {
    assert held[i] in live;
    LiveFits(mem, live, held[i]);
  }

  lemma HoldsLess(held: seq<nat>, live: map<nat, Blk>, i: nat)
    requires Holds(held, live) && i < |held|
    ensures Holds(held[..i] + held[i + 1..], live - {held[i]})
  {
    var rest := held[..i] + held[i + 1..];
    forall p
      ensures p in rest <==> p in live - {held[i]}
    {
      assert p in rest <==> p in held[..i] || p in held[i + 1..];
      assert p in held <==> p in held[..i] || p == held[i] || p in held[i + 1..] by {
        assert held == held[..i] + [held[i]] + held[i + 1..];
      }
    }
  }

  lemma HoldsMore(held: seq<nat>, live: map<nat, Blk>, live': map<nat, Blk>, p: nat)
    requires Holds(held, live) && p !in live && p in live' && live' == live[p := live'[p]]
    ensures Holds(held + [p], live')
  {
  }

  lemma NothingHeld(held: seq<nat>, live: map<nat, Blk>)
    requires Holds(held, live) && held == []
    ensures live == map[]
  {
  }

  ghost predicate Below(regions: seq<Blk>, top: nat) { forall w: nat | top <= w :: !InFree(regions, w) }

  lemma GrowAbove(regions: seq<Blk>, top: nat, size: nat, align: nat)
    requires Below(regions, top)
    ensures var n := GrowWords(Need(size, Align(align))); n % 2 == 0 && n >= HEADER && Fresh(regions, Blk(top, n))
  {
    NeedEven(size, Align(align));
    GrowEnough(Need(size, Align(align)));
  }

  lemma BelowMore(regions: seq<Blk>, regions': seq<Blk>, top: nat, n: nat)
    requires Below(regions, top) && (regions' == regions || regions' == regions + [Blk(top, n)])
    ensures Below(regions', top + n)
  {
    forall w: nat | top + n <= w
      ensures !InFree(regions', w)
    {
      assert !InFree(regions, w);
    }
  }

  /** An interval of the words in `regions` that no longer one contains. */
  ghost predicate Maximal(regions: seq<Blk>, b: Blk) {
    && b.size > 0 && (forall w: nat | b.at <= w < End(b) :: InFree(regions, w))
    && !InFree(regions, End(b)) && (b.at > 0 ==> !InFree(regions, b.at - 1))
  }

  /** The maximal intervals of the words in `regions`, in order. */
  ghost predicate Whole(regions: seq<Blk>, l: seq<Blk>) {
    && (forall i, j | 0 <= i < j < |l| :: l[i].at < l[j].at)
    && (forall b :: b in l <==> Maximal(regions, b))
  }

  lemma SameInterval(regions: seq<Blk>, b: Blk, c: Blk, w: nat)
    requires Maximal(regions, b) && Maximal(regions, c) && b.at <= w < End(b) && c.at <= w < End(c)
    ensures b == c
  {
    Reaches(regions, b, c, w);
    Reaches(regions, c, b, w);
  }

  lemma Reaches(regions: seq<Blk>, b: Blk, c: Blk, w: nat)
    requires Maximal(regions, b) && Maximal(regions, c) && b.at <= w < End(b) && c.at <= w < End(c)
    ensures c.at <= b.at && End(b) <= End(c)
  {
    assert forall x: nat | b.at <= x < End(b) :: InFree(regions, x);
  }

  lemma FreeMaximal(mem: seq<nat>, regions: seq<Blk>, free: seq<Blk>, head: nat, i: nat)
    requires ListOk(mem, free, head) && Covered(regions, free, map[]) && i < |free|
    ensures Maximal(regions, free[i])
  {
    LinkedBounds(mem, free, head, 0);
    var b := free[i];
    forall w: nat
      ensures InFree(regions, w) <==> InFree(free, w)
    {
      assert !InLive(map[], w);
    }
    forall w: nat | b.at <= w < End(b)
      ensures InFree(free, w)
    {
    }
    assert !InFree(free, End(b)) && !InFree(free, b.at - 1);
  }

  /** With nothing live, the free list is the memory obtained, in maximal pieces. */
  lemma AllReturned(mem: seq<nat>, regions: seq<Blk>, free: seq<Blk>, head: nat)
    requires ListOk(mem, free, head) && Covered(regions, free, map[])
    ensures Whole(regions, free)
  {
    forall i | 0 <= i < |free|
      ensures free[i].size > 0 && Maximal(regions, free[i])
    {
      FreeMaximal(mem, regions, free, head, i);
    }
    forall b | Maximal(regions, b)
      ensures b in free
    {
      assert InFree(regions, b.at);
      assert InFree(free, b.at);
      var i :| 0 <= i < |free| && free[i].at <= b.at < End(free[i]);
      SameInterval(regions, b, free[i], b.at);
    }
  }

  lemma {:induction false} OneWhole(regions: seq<Blk>, l: seq<Blk>, l': seq<Blk>)
    requires Whole(regions, l) && Whole(regions, l')
    ensures l == l'
  {
    hide Maximal;
    SameElements(l, l');
  }

  lemma NotEmpty(l: seq<Blk>, l': seq<Blk>)
    requires l != [] && forall b :: b in l ==> b in l'
    ensures l' != []
  {
    assert l[0] in l';
  }

  /** Two ordered lists with the same blocks are the same. */
  lemma {:induction false} SameElements(l: seq<Blk>, l': seq<Blk>)
    requires forall i, j | 0 <= i < j < |l| :: l[i].at < l[j].at
    requires forall i, j | 0 <= i < j < |l'| :: l'[i].at < l'[j].at
    requires forall b :: b in l <==> b in l'
    ensures l == l'
  {
    if l != [] {
      NotEmpty(l, l');
    }
    if l' != [] {
      NotEmpty(l', l);
      assert l[0] in l' && l'[0] in l;
      assert l[0] == l'[0];
      forall b
        ensures b in l[1..] <==> b in l'[1..]
      {
        assert b in l[1..] <==> b in l && b != l[0];
        assert b in l'[1..] <==> b in l' && b != l'[0];
      }
      SameElements(l[1..], l'[1..]);
    }
  }

  class Heap {
    var mem: seq<nat>
    var head: nat
    ghost var free: seq<Blk>
    ghost var live: map<nat, Blk>
    ghost var regions: seq<Blk>

    ghost predicate Valid()
      reads this
    {
      ListOk(mem, free, head) && LiveOk(mem, live) && Apart(free, live) && Covered(regions, free, live)
    }

    constructor (size: nat)
      ensures Valid() && live == map[] && regions == [] && |mem| == size
    {
      mem := seq(size, _ => 0);
      head := 0;
      free, live, regions := [], map[], [];
    }

    /** alloc. `base` is what heap_grow answers if it is asked: null, or pages that were not part of the heap. */
    method Alloc(size: nat, align0: nat, base: nat) returns (p: nat)
      requires Valid()
      requires base != 0 ==>
                 && base % 2 == 0 && base + GrowWords(Need(size, Align(align0))) <= |mem|
                 && Fresh(regions, Blk(base, GrowWords(Need(size, Align(align0)))))
      modifies this
      ensures Valid()
      ensures p == 0 ==> live == old(live) && SameLive(old(mem), mem, live)
      ensures p == 0 <==> Bad(size, align0) || (base == 0 && NoFit(old(free), Need(size, Align(align0))))
      ensures var need := Need(size, Align(align0));
              && |mem| == |old(mem)|
              && regions == if p != 0
              && NoFit(old(free), need) then old(regions) + [Blk(base, GrowWords(need))] else old(regions)
      ensures p != 0 ==>
                p !in old(live) && p in live && live == old(live)[p := live[p]] && SameLive(old(mem), mem, old(live))
      ensures p != 0 ==> 8 * End(live[p]) >= 8 * p + size && (8 * p) % Align(align0) == 0
    {
      hide ListOk, LiveOk, Apart, Covered, Fresh, SameLive, IsPowerOfTwo, Need, GrowWords;
      var align := Align(align0);
      SameLiveSelf(mem, live);
      if !IsPowerOfTwo(align) || size + 16 + Extra(align) + 15 >= LIMIT {
        return 0;
      }
      PowerIsOk(align);
      NeedEven(size, align);
      var need := Need(size, align);
      p := Take(size, align, need);
      if p == 0 && base != 0 {
        GrowEnough(need);
        Grow(base, GrowWords(need));
        ghost var mem1 := mem;
        p := Take(size, align, need);
        SameLiveTrans(old(mem), mem1, mem, old(live));
      }
    }

    /** heap_grow's pages join the free list. */
    method Grow(base: nat, n: nat)
      requires Valid() && 0 < base && base % 2 == 0 && n % 2 == 0 && n >= HEADER && base + n <= |mem|
      requires Fresh(regions, Blk(base, n))
      modifies this
      ensures Valid() && live == old(live) && regions == old(regions) + [Blk(base, n)] && SameLive(old(mem), mem, live)
      ensures |mem| == |old(mem)|
      ensures exists i :: 0 <= i < |free| && free[i].size >= n
    {
      FreshOutside(regions, free, live, Blk(base, n));
      ghost var free0 := free;
      hide ListOk, LiveOk, Apart, Covered, Fresh, SameLive, Spares, InFree, Outside;
      InsertFree(base, n);
      GrowStep(old(mem), mem, free0, free, head, live, regions, Blk(base, n));
      regions := regions + [Blk(base, n)];
    }

    /** Take a block for `size` bytes and leave its start before the payload. */
    method Take(size: nat, align: nat, need: nat) returns (p: nat)
      requires Valid() && AlignOk(align) && need == Need(size, align) && need >= HEADER && need % 2 == 0
      modifies this
      ensures Valid() && regions == old(regions) && |mem| == |old(mem)|
      ensures p == 0 <==> NoFit(old(free), need)
      ensures p == 0 ==> mem == old(mem) && live == old(live) && free == old(free)
      ensures p != 0 ==>
                p !in old(live) && p in live && live == old(live)[p := live[p]] && SameLive(old(mem), mem, old(live))
      ensures p != 0 ==> 8 * End(live[p]) >= 8 * p + size && (8 * p) % align == 0
    {
      hide ListOk, LiveOk, Apart, Covered, SameLive, Spares, InFree, Outside, Need, RoundUp, NoFit, FirstFit;
      ghost var free0 := free;
      ghost var b;
      var start;
      start, b := TakeFree(need);
      if start == 0 {
        return 0;
      }
      NeedFits(start, size, align);
      p := RoundUp(8 * (start + 2), align) / 8;
      AllocStep(old(mem), mem, free0, free, head, live, regions, p, b);
      mem := mem[p - 1 := start];
      live := live[p := b];
    }

    /** free: the word before the payload names the block, and the block names its size. */
    method Free(p: nat)
      requires Valid() && (p != 0 ==> p in live)
      modifies this
      ensures Valid() && regions == old(regions) && |mem| == |old(mem)|
      ensures p == 0 ==> mem == old(mem) && live == old(live)
      ensures p != 0 ==> live == old(live) - {p} && SameLive(old(mem), mem, live)
    {
      if p == 0 {
        return;
      }
      assert Held(mem, p, live[p]) && Outside(free, live[p]);
      ghost var free0 := free;
      hide ListOk, LiveOk, Apart, Covered, SameLive, Spares, InFree, Outside;
      var start := mem[p - 1];
      var size := mem[start];
      InsertFree(start, size);
      FreeStep(old(mem), mem, free0, free, head, live, regions, p);
      live := live - {p};
    }

    /** A user's store through a live pointer leaves the heap sound and every other block alone. */
    method Store(p: nat, w: nat, x: nat)
      requires Valid() && p in live && p <= w < End(live[p])
      modifies this`mem
      ensures Valid() && w < |old(mem)| && mem == old(mem)[w := x] && SameLive(old(mem), mem, live - {p})
    {
      StoreStep(mem, free, head, live, p, w, x);
      hide ListOk, LiveOk, Apart, Covered, SameLive;
      mem := mem[w := x];
    }

    /** realloc: the new payload starts with the old one's whole words, as far as both reach. */
    method Realloc(p: nat, size: nat, align: nat, base: nat) returns (q: nat)
      requires Valid() && (p != 0 ==> p in live)
      requires base != 0 ==>
                 && base % 2 == 0 && base + GrowWords(Need(size, Align(align))) <= |mem|
                 && Fresh(regions, Blk(base, GrowWords(Need(size, Align(align)))))
      modifies this
      ensures Valid()
      ensures q == 0 <==> Bad(size, align) || (base == 0 && NoFit(old(free), Need(size, Align(align))))
      ensures var need := Need(size, Align(align));
              && |mem| == |old(mem)|
              && regions == if q != 0
              && NoFit(old(free), need) then old(regions) + [Blk(base, GrowWords(need))] else old(regions)
      ensures q == 0 ==> live == old(live) && SameLive(old(mem), mem, live)
      ensures q != 0 ==> q !in old(live) && q in live && 8 * End(live[q]) >= 8 * q + size && (8 * q) % Align(align) == 0
      ensures q != 0 && p == 0 ==> live == old(live)[q := live[q]] && SameLive(old(mem), mem, old(live))
      ensures q != 0 && p != 0 ==> live == (old(live) - {p})[q := live[q]] && SameLive(old(mem), mem, old(live) - {p})
      ensures q != 0 && p != 0 ==>
                p <= End(old(live)[p]) &&
                var n := Min(size / 8, End(old(live)[p]) - p);
                p + n <= |old(mem)| && q + n <= |mem| && mem[q..q + n] == old(mem)[p..p + n]
    {
      hide ListOk, LiveOk, Apart, Covered, Fresh, SameLive, Need, GrowWords, Bad, NoFit;
      LiveFits(mem, live, p);
      q := Alloc(size, align, base);
      if p == 0 || q == 0 {
        return;
      }
      MoveInto(p, q, size, old(mem), old(live));
    }

    /** The rest of realloc, which began with `mem0` and `live0`: the payload moves from `p` to `q`. */
    method MoveInto(p: nat, q: nat, size: nat, ghost mem0: seq<nat>, ghost live0: map<nat, Blk>)
      requires Valid() && p != 0 && p in live0 && q !in live0 && q in live && live == live0[q := live[q]]
      requires 8 * End(live[q]) >= 8 * q + size && SameLive(mem0, mem, live0) && |mem0| == |mem|
      requires live0[p].at <= p <= End(live0[p]) <= |mem0|
      modifies this
      ensures Valid() && regions == old(regions) && |mem| == |mem0|
      ensures live == (live0 - {p})[q := old(live)[q]] && SameLive(mem0, mem, live0 - {p})
      ensures var n := Min(size / 8, End(live0[p]) - p);
              p + n <= |mem0| && q + n <= |mem| && mem[q..q + n] == mem0[p..p + n]
    {
      hide ListOk, LiveOk, Apart, Covered, SameLive;
      ghost var mem1, live1 := mem, live;
      LiveFits(mem, live, p);
      LiveFits(mem, live, q);
      var start := mem[p - 1];
      var capacity := 8 * (start + mem[start]) - 8 * p;
      var n := Min(size, capacity) / 8;
      WholeWords(size, start + mem[start] - p, End(live[q]) - q);
      CopyWords(p, q, n);
      ghost var mem2 := mem;
      Free(p);
      CopyKept(mem0, mem1, mem2, mem, live0, live1, live, p, q, n);
    }

    /** Any allocations, resizings and frees, then every payload that is left is freed: the free list is what heap_grow
        has answered, in maximal pieces, and there is only one such list. The pages answered lie above `start` and above
        one another. */
    method Life(ops: seq<Op>, start: nat)
      requires Valid() && live == map[] && 0 < start && start % 2 == 0 && Below(regions, start)
      modifies this
      ensures Valid() && live == map[] && old(regions) <= regions
      ensures Whole(regions, free) && forall l | Whole(regions, l) :: l == free
    {
      hide ListOk, LiveOk, Apart, Covered, Below, Whole;
      var held: seq<nat>, top: nat := [], start;
      for i := 0 to |ops|
        invariant Valid() && Holds(held, live) && old(regions) <= regions
        invariant 0 < top && top % 2 == 0 && Below(regions, top)
      {
        held, top := Do(held, ops[i], top);
      }
      while held != []
        invariant Valid() && Holds(held, live) && old(regions) <= regions
        invariant 0 < top && top % 2 == 0 && Below(regions, top)
        decreases |held|
      {
        held, top := Do(held, Give(0), top);
      }
      NothingHeld(held, live);
      AllReturned(mem, regions, free, head);
      forall l | Whole(regions, l)
        ensures l == free
      {
        OneWhole(regions, l, free);
      }
    }

    /** One call on the pointers that are held; heap_grow, if it answers, answers the pages from `top` on. */
    method Do(held: seq<nat>, op: Op, top: nat) returns (held': seq<nat>, top': nat)
      requires Valid() && Holds(held, live) && 0 < top && top % 2 == 0 && Below(regions, top)
      modifies this
      ensures Valid() && Holds(held', live) && old(regions) <= regions
      ensures 0 < top' && top' % 2 == 0 && Below(regions, top')
      ensures op == Give(0) && held != [] ==> |held'| == |held| - 1
    {
      hide ListOk, LiveOk, Apart, Covered, Below, SameLive, Holds;
      held', top' := held, top;
      match op
      case Get(size, align, granted) => held', top' := Obtain(held, size, align, granted, top);
      case Give(i) =>
        if i < |held| {
          HeldLive(mem, held, live, i);
          Free(held[i]);
          HoldsLess(held, old(live), i);
          held' := held[..i] + held[i + 1..];
        }
      case Resize(i, size, align, granted) =>
        if i < |held| {
          held', top' := Replace(held, i, size, align, granted, top);
        }
    }

    method Obtain(held: seq<nat>, size: nat, align: nat, granted: bool, top: nat) returns (held': seq<nat>, top': nat)
      requires Valid() && Holds(held, live) && 0 < top && top % 2 == 0 && Below(regions, top)
      modifies this
      ensures Valid() && Holds(held', live) && old(regions) <= regions
      ensures 0 < top' && top' % 2 == 0 && Below(regions, top')
    {
      hide ListOk, LiveOk, Apart, Covered, Below, SameLive, NoFit, Need, GrowWords, Bad, Fresh, Holds;
      var n := GrowWords(Need(size, Align(align)));
      GrowAbove(regions, top, size, align);
      var p := Alloc(size, align, if granted && top + n <= |mem| then top else 0);
      BelowMore(old(regions), regions, top, n);
      held', top' := held, top + n;
      if p != 0 {
        HoldsMore(held, old(live), live, p);
        held' := held + [p];
      }
    }

    method Replace(held: seq<nat>, i: nat, size: nat, align: nat, granted: bool, top: nat)
      returns (held': seq<nat>, top': nat)
      requires Valid() && Holds(held, live) && i < |held| && 0 < top && top % 2 == 0 && Below(regions, top)
      modifies this
      ensures Valid() && Holds(held', live) && old(regions) <= regions
      ensures 0 < top' && top' % 2 == 0 && Below(regions, top')
    {
      hide ListOk, LiveOk, Apart, Covered, Below, SameLive, NoFit, Need, GrowWords, Bad, Fresh, Holds;
      HeldLive(mem, held, live, i);
      var n := GrowWords(Need(size, Align(align)));
      GrowAbove(regions, top, size, align);
      var q := Realloc(held[i], size, align, if granted && top + n <= |mem| then top else 0);
      BelowMore(old(regions), regions, top, n);
      held', top' := held, top + n;
      if q != 0 {
        HoldsLess(held, old(live), i);
        HoldsMore(held[..i] + held[i + 1..], old(live) - {held[i]}, live, q);
        held' := held[..i] + held[i + 1..] + [q];
      }
    }

    /** copy_nonoverlapping, in whole words. */
    method CopyWords(p: nat, q: nat, n: nat)
      requires Valid() && p in live && q in live && p != q && p + n <= End(live[p]) <= |mem|
      requires q + n <= End(live[q]) <= |mem|
      modifies this`mem
      ensures Valid() && |mem| == |old(mem)| && mem[q..q + n] == old(mem)[p..p + n]
      ensures SameLive(old(mem), mem, live - {q})
    {
      hide ListOk, LiveOk, Apart, Covered, SameLive;
      LiveFits(mem, live, p);
      LiveFits(mem, live, q);
      SameLiveSelf(mem, live - {q});
      for i := 0 to n
        invariant Valid() && |mem| == |old(mem)| && mem[q..q + i] == old(mem)[p..p + i]
        invariant SameLive(old(mem), mem, live - {q})
      {
        SameLiveWord(old(mem), mem, live, q, p, p + i);
        ghost var was := mem;
        Store(q, q + i, mem[p + i]);
        SameLiveTrans(old(mem), was, mem, live - {q});
        CopyExtend(old(mem), was, mem, p, q, i);
      }
    }

    /** insert_free: walk to the place, merge or link, merge with the next. */
    method InsertFree(start: nat, size: nat)
      requires ListOk(mem, free, head) && Even(Blk(start, size)) && start + size <= |mem|
      requires Outside(free, Blk(start, size))
      modifies this`mem, this`head, this`free
      ensures ListOk(mem, free, head) && |mem| == |old(mem)|
      ensures forall w: nat :: InFree(free, w) <==> InFree(old(free), w) || start <= w < start + size
      ensures Spares(old(mem), mem, old(free), Blk(start, size))
      ensures exists i :: 0 <= i < |free| && free[i].size >= size
    {
      hide Linked, Sorted, InFree, Inserted, Spares, Between;
      ghost var b := Blk(start, size);
      var prev, next;
      ghost var a, c;
      prev, next, a, c := FindPlace(start, b);
      HeadsApart(mem, a, b, c, head);
      ghost var a', e;
      var node;
      node, a', e := JoinPrev(prev, start, size, a, b, c);
      ghost var mem1 := mem;
      JoinNext(node, next, a, b, c, a', e);
      InsertedOk(a, b, c);
      JoinSpares(old(mem), mem1, mem, a, b, c, e);
      free := Inserted(a, b, c);
      InsertedLarge(a, b, c);
    }

    /** take_free: the first free block that is large enough, split if the rest is worth keeping. */
    method TakeFree(need: nat) returns (start: nat, ghost b: Blk)
      requires ListOk(mem, free, head) && need >= HEADER && need % 2 == 0
      modifies this`mem, this`head, this`free
      ensures ListOk(mem, free, head) && |mem| == |old(mem)|
      ensures start == 0 <==> NoFit(old(free), need)
      ensures start == 0 ==> mem == old(mem) && head == old(head) && free == old(free)
      ensures start != 0 ==> FirstFit(old(free), free, need, b)
      ensures start != 0 ==>
                && b.at == start && b.size >= need && Even(b) && End(b) <= |mem| && mem[start] == b.size
                && Outside(free, b)
      ensures start != 0 ==> forall w: nat :: InFree(old(free), w) <==> InFree(free, w) || start <= w < End(b)
      ensures start != 0 ==> Spares(old(mem), mem, old(free), Blk(0, 0))
    {
      hide Linked, Sorted, InFree, Spares, NoFit, FirstFit, Outside;
      var prev, block := 0, head;
      ghost var a: seq<Blk>, c := [], free;
      FitsNone(need);
      b := Blk(0, 0);
      LinkedBounds(mem, free, head, 0);
      while block != 0
        invariant free == old(free) == a + c && mem == old(mem) && head == old(head) && block == First(c, 0)
        invariant prev == if a == [] then 0 else a[|a| - 1].at
        invariant NoFit(a, need)
        decreases |c|
      {
        NextPlace(mem, free, a, c, head);
        ghost var d, rest := c[0], c[1..];
        assert free[|a|] == d && free == a + [d] + rest;
        LinkedAround(mem, a, d, rest, head);
        if mem[block] >= need {
          Unlink(prev, block, need, a, d, rest);
          b := Taken(d, need);
          FitsFirst(a, d, rest, need);
          return block, b;
        }
        prev, block := block, mem[block + 1];
        TooSmall(a, d, need);
        a, c := a + [d], rest;
      }
      NextPlace(mem, free, a, c, head);
      assert a + c == a;
      return 0, b;
    }

    /** Take `need` words of the free block `d` off the list. */
    method Unlink(prev: nat, block: nat, need: nat, ghost a: seq<Blk>, ghost d: Blk, ghost c: seq<Blk>)
      requires ListOk(mem, free, head) && free == a + [d] + c && d.at == block && HEADER <= need <= d.size
      requires need % 2 == 0
      requires prev == if a == [] then 0 else a[|a| - 1].at
      modifies this`mem, this`head, this`free
      ensures ListOk(mem, free, head) && |mem| == |old(mem)| && Even(Taken(d, need)) && End(Taken(d, need)) <= |mem|
      ensures mem[block] == Taken(d, need).size && Outside(free, Taken(d, need))
      ensures forall w: nat :: InFree(old(free), w) <==> InFree(free, w) || block <= w < End(Taken(d, need))
      ensures Spares(old(mem), mem, old(free), Blk(0, 0)) && free == a + Rest(d, need) + c
    {
      LinkedAround(mem, a, d, c, head);
      TakenApart(mem, a, d, c, head);
      hide Linked, Sorted, InFree, Spares, TakeWrites;
      WriteTake(prev, block, need, a, d, First(c, 0));
      TakenLinked(old(mem), mem, a, d, c, old(head), need);
      TakenSpares(old(mem), mem, a, d, c, need);
      TakenOk(a, d, c, need);
      free := a + Rest(d, need) + c;
    }

    /** The stores of take_free. */
    method WriteTake(prev: nat, block: nat, need: nat, ghost a: seq<Blk>, ghost d: Blk, ghost next: nat)
      requires d.at == block && HEADER <= need <= d.size && End(d) <= |mem| && mem[block] == d.size
      requires mem[block + 1] == next
      requires prev == (if a == [] then 0 else a[|a| - 1].at)
      requires (a != [] ==> prev != 0 && End(a[|a| - 1]) < d.at && a[|a| - 1].size >= HEADER)
      modifies this`mem, this`head
      ensures TakeWrites(old(mem), mem, a, d, need, next) && mem[block] == Taken(d, need).size
      ensures head == if a == [] then Replacement(d, need, next) else old(head)
    {
      var size := mem[block];
      var to := mem[block + 1];
      if size - need >= MIN_SPLIT {
        var rest := block + need;
        mem := mem[rest := size - need];
        mem := mem[rest + 1 := mem[block + 1]];
        mem := mem[block := need];
        to := rest;
      }
      if prev == 0 {
        head := to;
      } else {
        mem := mem[prev + 1 := to];
      }
    }

    /** The free blocks before and after the place of `b`. */
    method FindPlace(start: nat, ghost b: Blk) returns (prev: nat, next: nat, ghost a: seq<Blk>, ghost c: seq<Blk>)
      requires ListOk(mem, free, head) && b.at == start && b.size > 0 && Outside(free, b)
      ensures free == a + c && next == First(c, 0) && prev == if a == [] then 0 else a[|a| - 1].at
      ensures Between(a, b, c)
    {
      hide Linked, Sorted;
      prev, next := 0, head;
      a, c := [], free;
      LinkedBounds(mem, free, head, 0);
      while next != 0 && next < start
        invariant free == a + c && next == First(c, 0)
        invariant prev == if a == [] then 0 else a[|a| - 1].at
        invariant forall i | 0 <= i < |a| :: End(a[i]) <= start
        decreases |c|
      {
        NextPlace(mem, free, a, c, head);
        ghost var d, rest := c[0], c[1..];
        assert free[|a|] == d && free == a + [d] + rest;
        LinkedAround(mem, a, d, rest, head);
        prev, next := next, mem[next + 1];
        a, c := a + [d], rest;
      }
      NextPlace(mem, free, a, c, head);
      SplitPlace(free, a, b, c);
    }

    /** Merge with the previous free block, or become a node linked from it. */
    method JoinPrev(prev: nat, start: nat, size: nat, ghost a: seq<Blk>, ghost b: Blk,
                    ghost c: seq<Blk>) returns (node: nat, ghost a': seq<Blk>, ghost e: Blk)
      requires b == Blk(start, size) && Linked(mem, a + c, head, 0) && Sorted(a + c) && Between(a, b, c)
      requires size >= HEADER && start != 0 && End(b) <= |mem| && prev == if a == [] then 0 else a[|a| - 1].at
      modifies this`mem, this`head
      ensures node == e.at && End(e) == End(b) && e.at != 0 && e.size >= HEADER && |mem| == |old(mem)|
      ensures mem[node] == e.size
      ensures Linked(mem, a', head, node) && Linked(mem, c, First(c, 0), 0)
      ensures if a != [] && End(a[|a| - 1]) == b.at then a' == a[..|a| - 1] && e.at == a[|a| - 1].at
              else a' == a && e == b
      ensures forall w | 0 <= w < |mem| && w != start && (a != [] ==> w != prev && w != prev + 1) ::
                mem[w] == old(mem)[w]
    {
      hide Linked, Sorted;
      LinkedHead(mem, a, c, head);
      FreshKeeps(mem, a, b, c, head);
      if prev != 0 {
        LeftKeeps(mem, a, b, c, head);
        if prev + mem[prev] == start {
          a', e := a[..|a| - 1], Blk(prev, mem[prev] + size);
          mem := mem[prev := mem[prev] + size];
          return prev, a', e;
        }
      }
      mem := mem[start := size];
      if prev == 0 {
        head := start;
        LinkedNil(mem, start);
      } else {
        mem := mem[prev + 1 := start];
      }
      return start, a, b;
    }

    /** Merge with the next free block, or link to it. */
    method JoinNext(node: nat, next: nat, ghost a: seq<Blk>, ghost b: Blk, ghost c: seq<Blk>, ghost a': seq<Blk>,
                    ghost e: Blk)
      requires node == e.at && End(e) == End(b) && e.at != 0 && e.size >= HEADER && End(b) <= |mem|
      requires mem[node] == e.size
      requires Linked(mem, a', head, node) && Linked(mem, c, First(c, 0), 0) && next == First(c, 0)
      requires if a != [] && End(a[|a| - 1]) == b.at then a' == a[..|a| - 1] && e.at == a[|a| - 1].at
               else a' == a && e == b
      requires (forall d | d in a' :: d.at + 1 < e.at) && (forall d | d in c :: End(e) <= d.at)
      modifies this`mem
      ensures |mem| == |old(mem)| && Linked(mem, Inserted(a, b, c), head, 0)
      ensures forall w | 0 <= w < |mem| && w != node && w != node + 1 :: mem[w] == old(mem)[w]
    {
      hide Linked, Inserted;
      InsertedIs(a, b, c, a', e);
      FirstIsNull(mem, c);
      if next != 0 && node + mem[node] == next {
        SwallowNext(mem, a', e, c, head);
        mem := mem[node := mem[node] + mem[next]];
        mem := mem[node + 1 := mem[next + 1]];
      } else {
        LinkNext(mem, a', e, c, head);
        mem := mem[node + 1 := next];
      }
    }
  }

  lemma FirstIsNull(mem: seq<nat>, c: seq<Blk>)
    requires Linked(mem, c, First(c, 0), 0)
    ensures First(c, 0) == 0 <==> c == []
  {
  }

  lemma LinkNext(mem: seq<nat>, a: seq<Blk>, e: Blk, c: seq<Blk>, head: nat)
    requires e.at != 0 && e.size >= HEADER && End(e) <= |mem| && mem[e.at] == e.size
    requires Linked(mem, a, head, e.at) && Linked(mem, c, First(c, 0), 0)
    requires (forall d | d in a :: d.at + 1 < e.at) && (forall d | d in c :: End(e) <= d.at)
    ensures Linked(mem[e.at + 1 := First(c, 0)], a + [e] + c, head, 0)
  {
    hide Linked;
    var mem' := mem[e.at + 1 := First(c, 0)];
    LinkedFrame(mem, mem', a, head, e.at);
    LinkedFrame(mem, mem', c, First(c, 0), 0);
    PlaceNode(mem', a, e, c, head);
  }

  lemma SwallowNext(mem: seq<nat>, a: seq<Blk>, e: Blk, c: seq<Blk>, head: nat)
    requires e.at != 0 && e.size >= HEADER && End(e) <= |mem| && mem[e.at] == e.size && c != [] && End(e) == c[0].at
    requires Linked(mem, a, head, e.at) && Linked(mem, c, First(c, 0), 0)
    requires (forall d | d in a :: d.at + 1 < e.at) && (forall d | d in c :: End(e) <= d.at)
    ensures c[0].at + 1 < |mem| && mem[c[0].at] == c[0].size && mem[c[0].at + 1] == First(c[1..], 0)
    ensures Linked(mem[e.at := e.size + c[0].size][e.at + 1 := First(c[1..], 0)],
                   a + [Blk(e.at, e.size + c[0].size)] + c[1..], head, 0)
  {
    hide Linked;
    var d, r := c[0], c[1..];
    assert [] + [d] + r == c;
    LinkedAround(mem, [], d, r, d.at);
    assert forall x | x in r :: x in c;
    var mem' := mem[e.at := e.size + d.size][e.at + 1 := First(r, 0)];
    LinkedFrame(mem, mem', a, head, e.at);
    LinkedFrame(mem, mem', r, First(r, 0), 0);
    PlaceNode(mem', a, Blk(e.at, e.size + d.size), r, head);
  }

  /** Only free memory and the block's first two words have changed. */
  ghost predicate Spares(mem: seq<nat>, mem': seq<nat>, free: seq<Blk>, b: Blk) {
    && |mem'| == |mem|
    && forall w | 0 <= w < |mem| && !InFree(free, w) && !(b.at <= w < b.at + HEADER) :: mem'[w] == mem[w]
  }

  lemma JoinSpares(mem: seq<nat>, mem1: seq<nat>, mem2: seq<nat>, a: seq<Blk>, b: Blk, c: seq<Blk>, e: Blk)
    requires |mem| == |mem1| == |mem2| && b.size >= HEADER && forall d | d in a :: d.size >= HEADER
    requires forall w | 0 <= w < |mem| && w != b.at && (a != [] ==> w != a[|a| - 1].at && w != a[|a| - 1].at + 1) ::
              mem1[w] == mem[w]
    requires forall w | 0 <= w < |mem| && w != e.at && w != e.at + 1 :: mem2[w] == mem1[w]
    requires e.at == b.at || (a != [] && e.at == a[|a| - 1].at)
    ensures Spares(mem, mem2, a + c, b)
  {
    if a != [] {
      var d := a[|a| - 1];
      assert d in a && (a + c)[|a| - 1] == d;
      assert InFree(a + c, d.at) && InFree(a + c, d.at + 1);
    }
  }

  /** What insertion amounts to, once the block has met its predecessor. */
  lemma InsertedIs(a: seq<Blk>, b: Blk, c: seq<Blk>, a': seq<Blk>, e: Blk)
    requires if a != [] && End(a[|a| - 1]) == b.at then a' == a[..|a| - 1] && e.at == a[|a| - 1].at
             else a' == a && e == b
    requires End(e) == End(b)
    ensures Inserted(a, b, c) == if c != [] && End(b) == c[0].at then a' + [Blk(e.at, e.size + c[0].size)] + c[1..]
                                 else a' + [e] + c
  {
  }

  lemma TakenOk(a: seq<Blk>, b: Blk, c: seq<Blk>, need: nat)
    requires Sorted(a + [b] + c) && HEADER <= need <= b.size && need % 2 == 0
    requires forall i | 0 <= i < |a + [b] + c| :: Even((a + [b] + c)[i])
    ensures Sorted(a + Rest(b, need) + c) && Even(Taken(b, need)) && Outside(a + Rest(b, need) + c, Taken(b, need))
    ensures forall i | 0 <= i < |a + Rest(b, need) + c| :: Even((a + Rest(b, need) + c)[i])
    ensures forall w: nat ::
              InFree(a + [b] + c, w) <==> InFree(a + Rest(b, need) + c, w) || b.at <= w < End(Taken(b, need))
  {
    hide InFree, Sorted, Outside;
    var l, l' := a + [b] + c, a + Rest(b, need) + c;
    TakenSorted(a, b, c, need);
    TakenOutside(a, b, c, need);
    forall w: nat
      ensures InFree(l, w) <==> InFree(l', w) || b.at <= w < End(Taken(b, need))
    {
      TakenWords(a, b, c, need, w);
    }
    assert l[|a|] == b;
    var k := |Rest(b, need)|;
    forall i | 0 <= i < |l'|
      ensures Even(l'[i])
    {
      if i < |a| {
        assert l'[i] == l[i];
      } else if i >= |a| + k {
        assert l'[i] == l[i - k + 1];
      }
    }
  }

  lemma NextPlace(mem: seq<nat>, free: seq<Blk>, a: seq<Blk>, c: seq<Blk>, head: nat)
    requires Linked(mem, free, head, 0) && free == a + c
    ensures (First(c, 0) == 0 <==> c == []) && forall i | 0 <= i < |c| :: c[i].size > 0
  {
    LinkedBounds(mem, free, head, 0);
    assert forall i | 0 <= i < |c| :: free[|a| + i] == c[i];
  }

  lemma LinkedNil(mem: seq<nat>, p: nat)
    ensures Linked(mem, [], p, p)
  {
  }

  lemma LinkedHead(mem: seq<nat>, a: seq<Blk>, c: seq<Blk>, head: nat)
    requires Linked(mem, a + c, head, 0)
    ensures a != [] ==>
              && a[|a| - 1].at != 0 && End(a[|a| - 1]) <= |mem| && a[|a| - 1].size >= HEADER
              && mem[a[|a| - 1].at] == a[|a| - 1].size
  {
    LinkedBounds(mem, a + c, head, 0);
    if a != [] {
      assert (a + c)[|a| - 1] == a[|a| - 1];
    }
  }

  /** Where the walk stops, the freed block fits between the two parts. */
  lemma SplitPlace(free: seq<Blk>, a: seq<Blk>, b: Blk, c: seq<Blk>)
    requires free == a + c && Sorted(free) && Outside(free, b) && b.size > 0
    requires (forall i | 0 <= i < |a| :: End(a[i]) <= b.at) && (c == [] || c[0].at >= b.at)
    requires forall i | 0 <= i < |c| :: c[i].size > 0
    ensures Between(a, b, c)
  {
    forall i | 0 <= i < |c|
      ensures End(b) <= c[i].at
    {
      assert free[|a|] == c[0] && free[|a| + i] == c[i];
      SortedSides(a, c, i);
    }
  }

  lemma InsertedLarge(a: seq<Blk>, b: Blk, c: seq<Blk>)
    ensures exists i :: 0 <= i < |Inserted(a, b, c)| && Inserted(a, b, c)[i].size >= b.size
  {
    assert Inserted(a, b, c)[LeftCount(a, b)] == Merged(a, b, c);
  }

  lemma InsertedOk(a: seq<Blk>, b: Blk, c: seq<Blk>)
    requires Sorted(a + c) && Between(a, b, c) && Even(b) && forall i | 0 <= i < |a + c| :: Even((a + c)[i])
    ensures Sorted(Inserted(a, b, c)) && (forall i | 0 <= i < |Inserted(a, b, c)| :: Even(Inserted(a, b, c)[i]))
    ensures forall w: nat :: InFree(Inserted(a, b, c), w) <==> InFree(a + c, w) || b.at <= w < End(b)
  {
    hide Sorted, InFree, Between;
    InsertedSorted(a, b, c);
    forall w: nat
      ensures InFree(Inserted(a, b, c), w) <==> InFree(a + c, w) || b.at <= w < End(b)
    {
      InsertedWords(a, b, c, w);
    }
    InsertedEven(a, b, c);
  }

  lemma InsertedEven(a: seq<Blk>, b: Blk, c: seq<Blk>)
    requires Even(b) && forall i | 0 <= i < |a + c| :: Even((a + c)[i])
    ensures forall i | 0 <= i < |Inserted(a, b, c)| :: Even(Inserted(a, b, c)[i])
  {
    var l, l', m, n := a + c, Inserted(a, b, c), LeftCount(a, b), RightCount(b, c);
    assert m < |a| ==> l[|a| - 1] == a[|a| - 1];
    assert n > 0 ==> l[|a|] == c[0];
    assert Even(Merged(a, b, c));
    hide Merged, LeftCount, RightCount, Even;
    forall i | 0 <= i < |l'|
      ensures Even(l'[i])
    {
      if i < m {
        assert l'[i] == l[i];
      } else if i > m {
        assert l'[i] == l[|a| + n + i - m - 1];
      }
    }
  }
}
