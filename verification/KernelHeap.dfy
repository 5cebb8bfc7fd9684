/** The kernel heap: ten size classes carved from an arena or from slabs, and a
    boundary-tag list for everything else. Addresses and sizes are in words.
  */
module KernelHeap {
  import opened Basics
  import opened Alignment
  import opened LargeList

  const BUCKETS: nat := 10

  /** Payload words of each size class: 1 to 512, that is 8 to 4096 bytes. */
  function Words(k: nat): (n: nat)
    ensures n >= 1
  {
    if k == 0 then 1 else 2 * Words(k - 1)
  }

  /** What a block in use is used for: cut up for small allocations, or one aligned object. */
  datatype Use = Slab(size: nat) | Object(size: nat, ptr: nat)

  /** A small block: its class, the slab it was cut from (0: the arena), and whether it is allocated. */
  datatype Cell = Cell(bucket: nat, home: nat, live: bool)

  type Cells = map<nat, Cell>
  type Uses = map<nat, Use>

  /** What backs a payload that has been handed out. */
  datatype Backing = InCell(a: nat) | InBlock(at: nat)

  datatype View = View(use: Uses, small: Cells, lists: seq<seq<nat>>, live: map<nat, Backing>)

  /** The heap's fixed boundaries: where the arena starts, where it ends and the large region begins, and the end. */
  datatype Region = Region(start: nat, lo: nat, hi: nat)

  // ---- Where things are ----------------------------------------------------------------------

  function UseEnd(at: nat, u: Use): nat { at + HEADER + u.size }

  function CellEnd(a: nat, c: Cell): nat { a + 1 + Words(c.bucket) }

  /** Blocks in use are exactly the blocks that are not free. */
  ghost predicate Used(blocks: seq<Block>, use: Uses) {
    && (forall b | b in blocks && !b.free :: b.at in use && use[b.at].size == b.size)
    && (forall at | at in use :: Block(at, use[at].size, false) in blocks)
  }

  /** Blocks in use do not overlap, and lie in the large region. */
  ghost predicate UsesApart(use: Uses, r: Region) {
    && (forall x | x in use :: r.lo <= x && UseEnd(x, use[x]) <= r.hi)
    && (forall x, y | x in use && y in use && x < y :: UseEnd(x, use[x]) <= y)
  }

  /** An object leaves room for the two words in front of it, and has at least one of its own. */
  ghost predicate ObjectsIn(use: Uses) {
    forall at | at in use && use[at].Object? :: at + HEADER + 2 <= use[at].ptr < UseEnd(at, use[at])
  }

  ghost predicate CellOk(a: nat, c: Cell, use: Uses, start: nat, arenaPtr: nat) {
    && c.bucket < BUCKETS
    && if c.home == 0 then start <= a && CellEnd(a, c) <= arenaPtr
       else c.home in use && use[c.home].Slab? && c.home + HEADER <= a && CellEnd(a, c) <= UseEnd(c.home, use[c.home])
  }

  ghost predicate CellsOk(small: Cells, use: Uses, start: nat, arenaPtr: nat) {
    forall a | a in small :: CellOk(a, small[a], use, start, arenaPtr)
  }

  ghost predicate CellsApart(small: Cells) {
    forall a, b | a in small && b in small && a < b :: CellEnd(a, small[a]) <= b
  }

  ghost predicate Layout(v: View, arenaPtr: nat, r: Region) {
    && 2 <= r.start <= arenaPtr <= r.lo <= r.hi
    && UsesApart(v.use, r) && ObjectsIn(v.use) && CellsOk(v.small, v.use, r.start, arenaPtr) && CellsApart(v.small)
  }

  // ---- What memory says --------------------------------------------------------------------------

  /** The free list with nodes `l`, linked through the first word of each. */
  ghost predicate Chain(mem: seq<nat>, l: seq<nat>, head: nat) {
    if l == [] then head == 0 else head == l[0] != 0 && l[0] < |mem| && Chain(mem, l[1..], mem[l[0]])
  }

  ghost predicate Distinct(l: seq<nat>) { forall i, j | 0 <= i < j < |l| :: l[i] != l[j] }

  ghost predicate Chains(mem: seq<nat>, heads: seq<nat>, lists: seq<seq<nat>>) {
    |heads| == |lists| == BUCKETS && forall k | 0 <= k < BUCKETS :: Chain(mem, lists[k], heads[k]) && Distinct(lists[k])
  }

  ghost predicate ListOf(l: seq<nat>, small: Cells, k: nat) {
    forall i | 0 <= i < |l| :: l[i] in small && small[l[i]].bucket == k && !small[l[i]].live
  }

  /** Each free list holds exactly the free blocks of its class. */
  ghost predicate Listed(lists: seq<seq<nat>>, small: Cells) {
    && |lists| == BUCKETS
    && (forall k | 0 <= k < BUCKETS :: ListOf(lists[k], small, k))
    && (forall a | a in small && small[a].bucket < BUCKETS && !small[a].live :: a in lists[small[a].bucket])
  }

  /** The word before a small payload is its class; the word before a large one is its block's byte address. */
  ghost predicate Tags(mem: seq<nat>, small: Cells, use: Uses) {
    && (forall a | a in small && small[a].live :: a < |mem| && mem[a] == small[a].bucket)
    && (forall at | at in use && use[at].Object? :: 1 <= use[at].ptr <= |mem| && mem[use[at].ptr - 1] == 8 * at)
  }

  /** `live` knows exactly the payloads handed out. */
  ghost predicate Backed(v: View, p: nat)
    requires p in v.live
  {
    match v.live[p]
    case InCell(a) => a in v.small && v.small[a].live && p == a + 1
    case InBlock(at) => at in v.use && v.use[at].Object? && v.use[at].ptr == p
  }

  ghost predicate LiveOk(v: View) {
    && (forall p | p in v.live :: Backed(v, p))
    && (forall a | a in v.small && v.small[a].live :: a + 1 in v.live && v.live[a + 1] == InCell(a))
    && (forall at | at in v.use && v.use[at].Object? :: v.use[at].ptr in v.live && v.live[v.use[at].ptr] == InBlock(at))
  }

  /** How many words a payload may hold. */
  ghost function Capacity(v: View, p: nat): int
    requires p in v.live
  {
    match v.live[p]
    case InCell(a) => if a in v.small then Words(v.small[a].bucket) else 0
    case InBlock(at) => if at in v.use then UseEnd(at, v.use[at]) - p else 0
  }

  ghost predicate Meta(mem: seq<nat>, heads: seq<nat>, v: View, arenaPtr: nat, r: Region) {
    && Layout(v, arenaPtr, r) && r.hi <= |mem|
    && Chains(mem, heads, v.lists) && Listed(v.lists, v.small) && Tags(mem, v.small, v.use) && LiveOk(v)
  }

  // ---- Live payloads --------------------------------------------------------------------------------

  /** A small block stays out of every large object's block. */
  lemma CellOutside(v: View, arenaPtr: nat, r: Region, a: nat, at: nat)
    requires Layout(v, arenaPtr, r) && a in v.small && at in v.use && v.use[at].Object?
    ensures CellEnd(a, v.small[a]) <= at || UseEnd(at, v.use[at]) <= a
  {
    assert CellOk(a, v.small[a], v.use, r.start, arenaPtr);
  }

  lemma LivePlace(v: View, arenaPtr: nat, r: Region, p: nat)
    requires Layout(v, arenaPtr, r) && LiveOk(v) && p in v.live
    ensures r.start < p && p + Capacity(v, p) <= r.hi && Capacity(v, p) > 0
  {
    assert Backed(v, p);
    match v.live[p]
    case InCell(a) => assert CellOk(a, v.small[a], v.use, r.start, arenaPtr);
    case InBlock(at) =>
  }

  /** Live payloads never overlap, with a word to spare, and keep the words they were promised inside the heap. */
  lemma LiveDisjoint(v: View, arenaPtr: nat, r: Region, p: nat, q: nat)
    requires Layout(v, arenaPtr, r) && LiveOk(v) && p in v.live && q in v.live && p != q
    ensures p + Capacity(v, p) < q || q + Capacity(v, q) < p
  {
    assert Backed(v, p) && Backed(v, q);
    match (v.live[p], v.live[q])
    case (InCell(a), InBlock(at)) => CellOutside(v, arenaPtr, r, a, at);
    case (InBlock(at), InCell(a)) => CellOutside(v, arenaPtr, r, a, at);
    case (InCell(a), InCell(b)) =>
    case (InBlock(at), InBlock(bt)) =>
  }

  // ---- Stores ------------------------------------------------------------------------------------------

  /** The words the heap itself relies on outside the block headers are unchanged, but for cell `x`'s. */
  ghost predicate MetaSame(mem: seq<nat>, mem': seq<nat>, v: View, x: int) {
    && |mem'| == |mem|
    && (forall a | a in v.small && a < |mem| && a != x :: mem'[a] == mem[a])
    && (forall at | at in v.use && v.use[at].Object? && 1 <= v.use[at].ptr <= |mem| ::
           mem'[v.use[at].ptr - 1] == mem[v.use[at].ptr - 1])
  }

  /** Every live payload holds what it held. */
  ghost predicate SameContents(mem: seq<nat>, mem': seq<nat>, v: View) {
    |mem'| == |mem| && forall p, w | p in v.live && p <= w < p + Capacity(v, p) && w < |mem| :: mem'[w] == mem[w]
  }

  lemma {:induction false} ChainFrame(mem: seq<nat>, mem': seq<nat>, l: seq<nat>, head: nat)
    requires Chain(mem, l, head) && |mem'| == |mem| && forall a | a in l && a < |mem| :: mem'[a] == mem[a]
    ensures Chain(mem', l, head)
    decreases |l|
  {
    if l != [] {
      ChainFrame(mem, mem', l[1..], mem[l[0]]);
    }
  }

  lemma MemFrame(mem: seq<nat>, mem': seq<nat>, heads: seq<nat>, v: View, arenaPtr: nat, r: Region)
    requires Meta(mem, heads, v, arenaPtr, r) && MetaSame(mem, mem', v, -1)
    ensures Meta(mem', heads, v, arenaPtr, r)
  {
    forall k | 0 <= k < BUCKETS
      ensures Chain(mem', v.lists[k], heads[k])
    {
      ChainFrame(mem, mem', v.lists[k], heads[k]);
    }
  }

  /** The block in use a payload's words lie in, if they are not in the arena. */
  lemma LiveHome(v: View, arenaPtr: nat, r: Region, p: nat, w: nat) returns (home: nat)
    requires Layout(v, arenaPtr, r) && LiveOk(v) && p in v.live && p <= w < p + Capacity(v, p)
    ensures w < r.lo || (home in v.use && home + HEADER <= w < UseEnd(home, v.use[home]))
  {
    assert Backed(v, p);
    match v.live[p]
    case InCell(a) =>
      assert CellOk(a, v.small[a], v.use, r.start, arenaPtr);
      home := v.small[a].home;
    case InBlock(at) => home := at;
  }

  lemma StoreCells(v: View, arenaPtr: nat, r: Region, p: nat, w: nat)
    requires Layout(v, arenaPtr, r) && LiveOk(v) && p in v.live && p <= w < p + Capacity(v, p)
    ensures w !in v.small
  {
    assert Backed(v, p);
    if w in v.small {
      match v.live[p]
      case InCell(c) =>
      case InBlock(at) => CellOutside(v, arenaPtr, r, w, at);
    }
  }

  lemma StoreTags(v: View, arenaPtr: nat, r: Region, p: nat, w: nat, at: nat)
    requires Layout(v, arenaPtr, r) && LiveOk(v) && p in v.live && p <= w < p + Capacity(v, p)
    requires at in v.use && v.use[at].Object?
    ensures v.use[at].ptr - 1 != w
  {
    assert Backed(v, p);
    match v.live[p]
    case InCell(c) => CellOutside(v, arenaPtr, r, c, at);
    case InBlock(bt) => assert at < bt || bt < at || at == bt;
  }

  /** A user's store into a live payload touches nothing the heap relies on. */
  lemma StoreFrame(mem: seq<nat>, blocks: seq<Block>, v: View, arenaPtr: nat, r: Region, p: nat, w: nat, x: nat)
    requires Layout(v, arenaPtr, r) && LiveOk(v) && Used(blocks, v.use) && Seg(mem, blocks, r.lo, r.hi, 0, 0)
    requires p in v.live && p <= w < p + Capacity(v, p) && w < |mem|
    ensures MetaSame(mem, mem[w := x], v, -1) && forall b | b in blocks :: !IsHeader(b, w)
  {
    hide Layout, LiveOk, Seg;
    StoreCells(v, arenaPtr, r, p, w);
    forall at | at in v.use && v.use[at].Object?
      ensures v.use[at].ptr - 1 != w
    {
      StoreTags(v, arenaPtr, r, p, w, at);
    }
    var home := LiveHome(v, arenaPtr, r, p, w);
    HeaderFree(mem, blocks, v.use, r, home, w);
  }

  lemma StoreKeeps(mem: seq<nat>, heads: seq<nat>, blocks: seq<Block>, v: View, arenaPtr: nat, r: Region, p: nat,
                   w: nat, x: nat)
    requires Meta(mem, heads, v, arenaPtr, r) && Used(blocks, v.use) && Seg(mem, blocks, r.lo, r.hi, 0, 0)
    requires p in v.live && p <= w < p + Capacity(v, p)
    ensures w < |mem| && Meta(mem[w := x], heads, v, arenaPtr, r) && Seg(mem[w := x], blocks, r.lo, r.hi, 0, 0)
    ensures SameContents(mem, mem[w := x], v.(live := v.live - {p}))
  {
    hide Seg, Layout, LiveOk, Chains, Listed, Tags, Used, MetaSame;
    LivePlace(v, arenaPtr, r, p);
    StoreFrame(mem, blocks, v, arenaPtr, r, p, w, x);
    SegHeaders(mem, mem[w := x], blocks, r.lo, r.hi, 0, 0);
    MemFrame(mem, mem[w := x], heads, v, arenaPtr, r);
    forall q | q in v.live && q != p
      ensures !(q <= w < q + Capacity(v, q))
    {
      LiveDisjoint(v, arenaPtr, r, p, q);
    }
  }

  lemma HeaderFree(mem: seq<nat>, blocks: seq<Block>, use: Uses, r: Region, home: nat, w: nat)
    requires Used(blocks, use) && Seg(mem, blocks, r.lo, r.hi, 0, 0)
    requires w < r.lo || (home in use && home + HEADER <= w < UseEnd(home, use[home]))
    ensures forall b | b in blocks :: !IsHeader(b, w)
  {
    SegBounds(mem, blocks, r.lo, r.hi, 0, 0);
    hide Seg;
    forall b | b in blocks
      ensures !IsHeader(b, w)
    {
      if w >= r.lo && b != Block(home, use[home].size, false) {
        Apart(mem, blocks, r.lo, r.hi, 0, 0, b, Block(home, use[home].size, false));
      }
    }
  }

  /** The large list keeps its hands off everything that hangs on blocks in use. */
  lemma SparedSame(mem: seq<nat>, mem': seq<nat>, blocks: seq<Block>, v: View, arenaPtr: nat, r: Region, x: nat)
    requires Layout(v, arenaPtr, r) && LiveOk(v) && Spared(mem, mem', blocks, r.lo, r.hi, x) && x !in v.use
    requires forall at | at in v.use :: Block(at, v.use[at].size, false) in blocks
    ensures MetaSame(mem, mem', v, -1) && SameContents(mem, mem', v)
  {
    forall at, w | at in v.use && at + HEADER <= w < UseEnd(at, v.use[at]) && w < |mem|
      ensures mem'[w] == mem[w]
    {
      assert Inside(Block(at, v.use[at].size, false), w);
    }
    forall a, w | a in v.small && a <= w < CellEnd(a, v.small[a]) && w < |mem|
      ensures mem'[w] == mem[w]
    {
      assert CellOk(a, v.small[a], v.use, r.start, arenaPtr);
    }
    forall p, w | p in v.live && p <= w < p + Capacity(v, p) && w < |mem|
      ensures mem'[w] == mem[w]
    {
      assert Backed(v, p);
    }
  }

  /** A store into the first word of a small block that is not live. */
  lemma CellWord(mem: seq<nat>, v: View, arenaPtr: nat, r: Region, a: nat, x: nat)
    requires Layout(v, arenaPtr, r) && LiveOk(v) && a in v.small && !v.small[a].live && a < |mem|
    ensures MetaSame(mem, mem[a := x], v, a) && SameContents(mem, mem[a := x], v)
  {
    forall at | at in v.use && v.use[at].Object?
      ensures v.use[at].ptr - 1 != a
    {
      CellOutside(v, arenaPtr, r, a, at);
    }
    forall p, w | p in v.live && p <= w < p + Capacity(v, p) && w < |mem|
      ensures mem[a := x][w] == mem[w]
    {
      StoreCells(v, arenaPtr, r, p, w);
    }
  }

  // ---- Small blocks -----------------------------------------------------------------------------------

  /** alloc_small's first path: the head of the class's free list becomes live. */
  ghost function Popped(v: View, k: nat, a: nat): View
    requires k < |v.lists| && v.lists[k] != [] && a in v.small
  {
    v.(small := v.small[a := v.small[a].(live := true)], lists := v.lists[k := v.lists[k][1..]],
       live := v.live[a + 1 := InCell(a)])
  }

  lemma PopKeeps(mem: seq<nat>, heads: seq<nat>, v: View, arenaPtr: nat, r: Region, k: nat)
    requires Meta(mem, heads, v, arenaPtr, r) && k < BUCKETS && heads[k] != 0
    ensures var a := heads[k];
            && v.lists[k] != [] && a == v.lists[k][0] && a in v.small && v.small[a].bucket == k && a < |mem|
            && a + 1 !in v.live
            && Meta(mem[a := k], heads[k := mem[a]], Popped(v, k, a), arenaPtr, r) && SameContents(mem, mem[a := k], v)
  {
    var a := heads[k];
    HeadListed(mem, heads, v.lists, k);
    PopChains(mem, heads, v.lists, v.small, k);
    FreeIsDead(v, arenaPtr, r, a);
    CellWord(mem, v, arenaPtr, r, a, k);
    PopLayout(v, arenaPtr, r, k, a);
    PopLive(v, k, a);
    CellTags(mem, mem[a := k], v, a, true);
    hide Layout, LiveOk, Chains, Listed, Tags, MetaSame;
  }

  lemma HeadListed(mem: seq<nat>, heads: seq<nat>, lists: seq<seq<nat>>, k: nat)
    requires Chains(mem, heads, lists) && k < BUCKETS
    ensures heads[k] != 0 <==> lists[k] != []
    ensures heads[k] != 0 ==> lists[k][0] == heads[k] < |mem|
  {
    assert Chain(mem, lists[k], heads[k]);
  }

  /** A free block's payload is not handed out. */
  lemma FreeIsDead(v: View, arenaPtr: nat, r: Region, a: nat)
    requires Layout(v, arenaPtr, r) && LiveOk(v) && a in v.small && !v.small[a].live
    ensures a + 1 !in v.live
  {
    if a + 1 in v.live {
      assert Backed(v, a + 1);
      if v.live[a + 1].InBlock? {
        CellOutside(v, arenaPtr, r, a, v.live[a + 1].at);
      }
    }
  }

  /** Retagging one small block. */
  lemma CellTags(mem: seq<nat>, mem': seq<nat>, v: View, a: nat, live: bool)
    requires Tags(mem, v.small, v.use) && MetaSame(mem, mem', v, a) && a in v.small && a < |mem|
    requires live ==> mem'[a] == v.small[a].bucket
    ensures Tags(mem', v.small[a := v.small[a].(live := live)], v.use)
  {
  }

  lemma PopStep(mem: seq<nat>, heads: seq<nat>, blocks: seq<Block>, v: View, arenaPtr: nat, r: Region, k: nat)
    requires Meta(mem, heads, v, arenaPtr, r) && Used(blocks, v.use) && Seg(mem, blocks, r.lo, r.hi, 0, 0)
    requires k < |heads| == BUCKETS && heads[k] != 0
    ensures var a := heads[k];
            && k < |v.lists| && v.lists[k] != [] && a in v.small && a < |mem|
            && var v' := Popped(v, k, a);
            && Meta(mem[a := k], heads[k := mem[a]], v', arenaPtr, r) && Used(blocks, v'.use)
            && Seg(mem[a := k], blocks, r.lo, r.hi, 0, 0)
            && Grown(mem, mem[a := k], v, v', a + 1) && Capacity(v', a + 1) == Words(k)
  {
    hide Seg, Used, Layout, LiveOk, Chains, Listed, Tags, Grown, CellOk, SameContents;
    PopKeeps(mem, heads, v, arenaPtr, r, k);
    var a := heads[k];
    MetaSizes(mem, heads, v, arenaPtr, r);
    CellAt(v, arenaPtr, r, a);
    CellSeg(mem, blocks, v.use, arenaPtr, r, a, v.small[a], k);
    PopGrown(mem, v, k, a);
  }

  lemma CellAt(v: View, arenaPtr: nat, r: Region, a: nat)
    requires Layout(v, arenaPtr, r) && a in v.small
    ensures CellOk(a, v.small[a], v.use, r.start, arenaPtr)
  {
  }

  lemma PopGrown(mem: seq<nat>, v: View, k: nat, a: nat)
    requires LiveOk(v) && k < |v.lists| && v.lists[k] != [] && a in v.small && a < |mem| && a + 1 !in v.live
    requires SameContents(mem, mem[a := k], v)
    ensures Grown(mem, mem[a := k], v, Popped(v, k, a), a + 1)
    ensures Capacity(Popped(v, k, a), a + 1) == Words(v.small[a].bucket)
  {
    forall q | q in v.live
      ensures Capacity(Popped(v, k, a), q) == Capacity(v, q)
    {
      assert Backed(v, q);
    }
  }

  lemma PopLayout(v: View, arenaPtr: nat, r: Region, k: nat, a: nat)
    requires Layout(v, arenaPtr, r) && k < |v.lists| && v.lists[k] != [] && a in v.small
    ensures Layout(Popped(v, k, a), arenaPtr, r)
  {
    var v' := Popped(v, k, a);
    forall b | b in v'.small
      ensures CellOk(b, v'.small[b], v'.use, r.start, arenaPtr)
    {
      assert CellOk(b, v.small[b], v.use, r.start, arenaPtr);
    }
  }

  lemma PopLive(v: View, k: nat, a: nat)
    requires LiveOk(v) && k < |v.lists| && v.lists[k] != [] && a in v.small && a + 1 !in v.live
    ensures LiveOk(Popped(v, k, a))
  {
    var v' := Popped(v, k, a);
    forall p | p in v'.live
      ensures Backed(v', p)
    {
      assert p in v.live ==> Backed(v, p);
    }
  }

  lemma PopChains(mem: seq<nat>, heads: seq<nat>, lists: seq<seq<nat>>, small: Cells, k: nat)
    requires Chains(mem, heads, lists) && Listed(lists, small) && k < BUCKETS && lists[k] != []
    ensures var a := lists[k][0];
            && a in small && a < |mem| && small[a].bucket == k && !small[a].live
            && Chains(mem[a := k], heads[k := mem[a]], lists[k := lists[k][1..]])
            && Listed(lists[k := lists[k][1..]], small[a := small[a].(live := true)])
  {
    var l, a := lists[k], lists[k][0];
    assert Chain(mem, l, heads[k]) && Distinct(l) && ListOf(l, small, k);
    var mem', lists' := mem[a := k], lists[k := l[1..]];
    var small' := small[a := small[a].(live := true)];
    forall j | 0 <= j < BUCKETS
      ensures Chain(mem', lists'[j], heads[k := mem[a]][j]) && Distinct(lists'[j]) && ListOf(lists'[j], small', j)
    {
      assert Chain(mem, lists[j], heads[j]) && Distinct(lists[j]) && ListOf(lists[j], small, j);
      ChainFrame(mem, mem', lists'[j], heads[k := mem[a]][j]);
    }
    assert forall b | b in l && b != a :: b in l[1..];
  }

  /** [a, end) meets no small block but the one at `a`. */
  ghost predicate Clear(small: Cells, a: nat, end: nat) {
    forall b | b in small && b != a :: CellEnd(b, small[b]) <= a || end <= b
  }

  lemma AddLayout(v: View, v': View, arenaPtr: nat, arenaPtr': nat, r: Region, a: nat, c: Cell)
    requires Layout(v, arenaPtr, r) && arenaPtr <= arenaPtr' <= r.lo && v'.use == v.use && v'.small == v.small[a := c]
    requires CellOk(a, c, v.use, r.start, arenaPtr') && Clear(v.small, a, CellEnd(a, c))
    ensures Layout(v', arenaPtr', r)
  {
    forall b | b in v'.small
      ensures CellOk(b, v'.small[b], v'.use, r.start, arenaPtr')
    {
      assert b != a ==> CellOk(b, v.small[b], v.use, r.start, arenaPtr);
    }
  }

  /** A free block joins its class's list at the head. */
  lemma PushChains(mem: seq<nat>, heads: seq<nat>, lists: seq<seq<nat>>, small: Cells, k: nat, a: nat, home: nat)
    requires Chains(mem, heads, lists) && Listed(lists, small) && k < BUCKETS && 0 < a < |mem|
    requires (a in small ==> small[a].live)
    ensures Chains(mem[a := heads[k]], heads[k := a], lists[k := [a] + lists[k]])
    ensures Listed(lists[k := [a] + lists[k]], small[a := Cell(k, home, false)])
  {
    var mem', heads', lists', small' :=
      mem[a := heads[k]], heads[k := a], lists[k := [a] + lists[k]], small[a := Cell(k, home, false)];
    forall j | 0 <= j < BUCKETS
      ensures Chain(mem', lists'[j], heads'[j]) && Distinct(lists'[j]) && ListOf(lists'[j], small', j)
    {
      assert Chain(mem, lists[j], heads[j]) && Distinct(lists[j]) && ListOf(lists[j], small, j);
      assert a !in lists[j];
      ChainFrame(mem, mem', lists[j], heads[j]);
      assert ([a] + lists[k])[1..] == lists[k];
    }
  }

  /** free_small: a live block goes back to its class. */
  ghost function Pushed(v: View, a: nat): View
    requires a in v.small && v.small[a].bucket < |v.lists|
  {
    var k := v.small[a].bucket;
    v.(small := v.small[a := v.small[a].(live := false)], lists := v.lists[k := [a] + v.lists[k]],
       live := v.live - {a + 1})
  }

  lemma PushKeeps(mem: seq<nat>, heads: seq<nat>, v: View, arenaPtr: nat, r: Region, a: nat)
    requires Meta(mem, heads, v, arenaPtr, r) && a in v.small && v.small[a].live
    ensures var k := v.small[a].bucket;
            && k < BUCKETS && a < |mem| && mem[a] == k
            && Meta(mem[a := heads[k]], heads[k := a], Pushed(v, a), arenaPtr, r)
            && SameContents(mem, mem[a := heads[k]], Pushed(v, a))
  {
    hide Layout, LiveOk, Chains, Listed, Tags, MetaSame, SameContents, CellOk, Clear;
    MetaSizes(mem, heads, v, arenaPtr, r);
    OwnClear(v, arenaPtr, r, a);
    TagOf(mem, v, a);
    var k, c := v.small[a].bucket, v.small[a].(live := false);
    var v' := Pushed(v, a);
    AddLayout(v, v', arenaPtr, arenaPtr, r, a, c);
    PushLive(v, a);
    PushChains(mem, heads, v.lists, v.small, k, a, c.home);
    CellWord(mem, v', arenaPtr, r, a, heads[k]);
    ForgetTags(mem, v, v', a);
    CellTags(mem, mem[a := heads[k]], v', a, false);
    assert v'.small[a := v'.small[a].(live := false)] == v'.small;
  }

  lemma OwnClear(v: View, arenaPtr: nat, r: Region, a: nat)
    requires Layout(v, arenaPtr, r) && a in v.small
    ensures v.small[a].bucket < BUCKETS && 0 < a && Clear(v.small, a, CellEnd(a, v.small[a]))
    ensures CellOk(a, v.small[a].(live := false), v.use, r.start, arenaPtr)
  {
    assert CellOk(a, v.small[a], v.use, r.start, arenaPtr);
  }

  lemma MetaSizes(mem: seq<nat>, heads: seq<nat>, v: View, arenaPtr: nat, r: Region)
    requires Meta(mem, heads, v, arenaPtr, r)
    ensures |heads| == |v.lists| == BUCKETS && 2 <= r.start <= arenaPtr <= r.lo <= r.hi <= |mem|
  {
  }

  lemma TagOf(mem: seq<nat>, v: View, a: nat)
    requires Tags(mem, v.small, v.use) && a in v.small && v.small[a].live
    ensures a < |mem| && mem[a] == v.small[a].bucket
  {
  }

  lemma ForgetTags(mem: seq<nat>, v: View, v': View, a: nat)
    requires Tags(mem, v.small, v.use) && a in v.small && v'.use == v.use
    requires v'.small == v.small[a := v.small[a].(live := false)]
    ensures Tags(mem, v'.small, v'.use)
  {
  }

  lemma PushLive(v: View, a: nat)
    requires LiveOk(v) && a in v.small && v.small[a].live && v.small[a].bucket < |v.lists|
    ensures LiveOk(Pushed(v, a))
  {
    var v' := Pushed(v, a);
    forall p | p in v'.live
      ensures Backed(v', p)
    {
      assert Backed(v, p);
    }
  }

  /** A fresh small block, free from the start. */
  ghost function AddedFree(v: View, a: nat, k: nat, home: nat): View
    requires k < |v.lists|
  {
    v.(small := v.small[a := Cell(k, home, false)], lists := v.lists[k := [a] + v.lists[k]])
  }

  lemma AddFreeKeeps(mem: seq<nat>, heads: seq<nat>, v: View, arenaPtr: nat, r: Region, a: nat, k: nat, home: nat)
    requires Meta(mem, heads, v, arenaPtr, r) && k < BUCKETS && 0 < a < |mem| && a !in v.small
    requires CellOk(a, Cell(k, home, false), v.use, r.start, arenaPtr) && Clear(v.small, a, a + 1 + Words(k))
    ensures Meta(mem[a := heads[k]], heads[k := a], AddedFree(v, a, k, home), arenaPtr, r)
    ensures SameContents(mem, mem[a := heads[k]], v)
  {
    hide Layout, LiveOk, Chains, Listed, Tags, MetaSame, SameContents, CellOk, Clear;
    MetaSizes(mem, heads, v, arenaPtr, r);
    var v' := AddedFree(v, a, k, home);
    AddLayout(v, v', arenaPtr, arenaPtr, r, a, Cell(k, home, false));
    AddFreeLive(v, v', a, Cell(k, home, false));
    PushChains(mem, heads, v.lists, v.small, k, a, home);
    CellWord(mem, v', arenaPtr, r, a, heads[k]);
    AddTags(mem, mem[a := heads[k]], v, v', a, Cell(k, home, false));
    SameLive(mem, mem[a := heads[k]], v, v', a);
  }

  lemma AddFreeLive(v: View, v': View, a: nat, c: Cell)
    requires LiveOk(v) && a !in v.small && !c.live && v'.small == v.small[a := c] && v'.use == v.use
    requires v'.live == v.live
    ensures LiveOk(v')
  {
    forall p | p in v'.live
      ensures Backed(v', p)
    {
      assert Backed(v, p);
    }
  }

  lemma AddTags(mem: seq<nat>, mem': seq<nat>, v: View, v': View, a: nat, c: Cell)
    requires Tags(mem, v.small, v.use) && a !in v.small && v'.small == v.small[a := c] && v'.use == v.use
    requires MetaSame(mem, mem', v', a) && a < |mem| && (c.live ==> mem'[a] == c.bucket)
    ensures Tags(mem', v'.small, v'.use)
  {
  }

  lemma SameLive(mem: seq<nat>, mem': seq<nat>, v: View, v': View, a: nat)
    requires SameContents(mem, mem', v') && LiveOk(v) && a !in v.small
    requires v'.use == v.use && v'.live == v.live && a in v'.small && v'.small == v.small[a := v'.small[a]]
    ensures SameContents(mem, mem', v)
  {
    forall p | p in v.live
      ensures Capacity(v', p) == Capacity(v, p)
    {
      assert Backed(v, p);
    }
  }

  /** A fresh small block, handed out at once. */
  ghost function AddedLive(v: View, a: nat, k: nat, home: nat): View {
    v.(small := v.small[a := Cell(k, home, true)], live := v.live[a + 1 := InCell(a)])
  }

  lemma AddLiveKeeps(mem: seq<nat>, heads: seq<nat>, v: View, arenaPtr: nat, arenaPtr': nat, r: Region, a: nat, k: nat,
                     home: nat)
    requires Meta(mem, heads, v, arenaPtr, r) && k < BUCKETS && 0 < a < |mem| && a !in v.small
    requires arenaPtr <= arenaPtr' <= r.lo
    requires CellOk(a, Cell(k, home, true), v.use, r.start, arenaPtr') && Clear(v.small, a, a + 1 + Words(k))
    ensures a + 1 !in v.live
    ensures Meta(mem[a := k], heads, AddedLive(v, a, k, home), arenaPtr', r) && SameContents(mem, mem[a := k], v)
  {
    hide Layout, LiveOk, Chains, Listed, Tags, MetaSame, SameContents, Clear;
    var dead := v.(small := v.small[a := Cell(k, home, false)]);
    var v' := AddedLive(v, a, k, home);
    AddLayout(v, dead, arenaPtr, arenaPtr', r, a, Cell(k, home, false));
    AddLayout(v, v', arenaPtr, arenaPtr', r, a, Cell(k, home, true));
    AddFreeLive(v, dead, a, Cell(k, home, false));
    FreeIsDead(dead, arenaPtr', r, a);
    CellWord(mem, dead, arenaPtr', r, a, k);
    SameLive(mem, mem[a := k], v, dead, a);
    AddLiveLive(v, a, k, home);
    AddTags(mem, mem[a := k], v, v', a, Cell(k, home, true));
    AddLiveLists(mem, heads, v, a, k, home);
  }

  lemma AddLiveLive(v: View, a: nat, k: nat, home: nat)
    requires LiveOk(v) && a !in v.small && a + 1 !in v.live
    ensures LiveOk(AddedLive(v, a, k, home))
  {
    var v' := AddedLive(v, a, k, home);
    forall p | p in v'.live
      ensures Backed(v', p)
    {
      assert p in v.live ==> Backed(v, p);
    }
  }

  lemma AddLiveLists(mem: seq<nat>, heads: seq<nat>, v: View, a: nat, k: nat, home: nat)
    requires Chains(mem, heads, v.lists) && Listed(v.lists, v.small) && a !in v.small && a < |mem|
    ensures Chains(mem[a := k], heads, v.lists) && Listed(v.lists, v.small[a := Cell(k, home, true)])
  {
    forall j | 0 <= j < BUCKETS
      ensures Chain(mem[a := k], v.lists[j], heads[j]) && ListOf(v.lists[j], v.small[a := Cell(k, home, true)], j)
    {
      assert Chain(mem, v.lists[j], heads[j]) && ListOf(v.lists[j], v.small, j);
      ChainFrame(mem, mem[a := k], v.lists[j], heads[j]);
    }
  }

  /** A store into the first word of a small block misses every block header. */
  lemma CellSeg(mem: seq<nat>, blocks: seq<Block>, use: Uses, arenaPtr: nat, r: Region, a: nat, c: Cell, x: nat)
    requires Seg(mem, blocks, r.lo, r.hi, 0, 0) && Used(blocks, use) && CellOk(a, c, use, r.start, arenaPtr)
    requires arenaPtr <= r.lo && a < |mem|
    ensures Seg(mem[a := x], blocks, r.lo, r.hi, 0, 0)
  {
    HeaderFree(mem, blocks, use, r, c.home, a);
    SegHeaders(mem, mem[a := x], blocks, r.lo, r.hi, 0, 0);
  }

  /** Payload `p` has been added to the live ones, and nothing has happened to the others. */
  ghost predicate Grown(mem: seq<nat>, mem': seq<nat>, v: View, v': View, p: nat) {
    && p !in v.live && v'.live.Keys == v.live.Keys + {p} && SameContents(mem, mem', v)
    && (forall q | q in v.live :: q in v'.live && Capacity(v', q) == Capacity(v, q))
  }

  /** The live payloads are the same, with the same room and the same contents. */
  ghost predicate Still(mem: seq<nat>, mem': seq<nat>, v: View, v': View) {
    v'.live == v.live && SameContents(mem, mem', v) && forall q | q in v.live :: Capacity(v', q) == Capacity(v, q)
  }

  /** Payload `p` is gone, and nothing has happened to the others. */
  ghost predicate Shrunk(mem: seq<nat>, mem': seq<nat>, v: View, v': View, p: nat) {
    && v'.live == v.live - {p} && SameContents(mem, mem', v')
    && (forall q | q in v'.live :: Capacity(v', q) == Capacity(v, q))
  }

  lemma PushFacts(mem: seq<nat>, heads: seq<nat>, v: View, arenaPtr: nat, r: Region, p: nat)
    requires Meta(mem, heads, v, arenaPtr, r) && p in v.live && v.live[p].InCell?
    ensures p > 0 && p - 1 in v.small && v.small[p - 1].live && p - 1 < |mem|
    ensures mem[p - 1] == v.small[p - 1].bucket < |heads| == |v.lists|
  {
    hide Layout, Chains, Listed, Tags, LiveOk;
    MetaSizes(mem, heads, v, arenaPtr, r);
    BackedBy(v, p);
    CellAt(v, arenaPtr, r, p - 1);
    TagOf(mem, v, p - 1);
  }

  lemma PushStep(mem: seq<nat>, heads: seq<nat>, blocks: seq<Block>, v: View, arenaPtr: nat, r: Region, a: nat, k: nat)
    requires a in v.small && v.small[a].live && a < |mem| && mem[a] == v.small[a].bucket == k < |heads| == |v.lists|
    requires Meta(mem, heads, v, arenaPtr, r) && Used(blocks, v.use) && Seg(mem, blocks, r.lo, r.hi, 0, 0)
    ensures var v' := Pushed(v, a);
            && Meta(mem[a := heads[k]], heads[k := a], v', arenaPtr, r) && Used(blocks, v'.use)
            && Seg(mem[a := heads[k]], blocks, r.lo, r.hi, 0, 0)
            && Shrunk(mem, mem[a := heads[k]], v, v', a + 1)
  {
    hide Seg, Used, Layout, LiveOk, Chains, Listed, Tags, CellOk, SameContents;
    PushKeeps(mem, heads, v, arenaPtr, r, a);
    MetaSizes(mem, heads, v, arenaPtr, r);
    CellAt(v, arenaPtr, r, a);
    CellSeg(mem, blocks, v.use, arenaPtr, r, a, v.small[a], heads[k]);
    PushCapacity(v, a);
  }

  lemma BackedBy(v: View, p: nat)
    requires LiveOk(v) && p in v.live
    ensures match v.live[p]
            case InCell(a) => a in v.small && v.small[a].live && p == a + 1
            case InBlock(at) => at in v.use && v.use[at].Object? && v.use[at].ptr == p
  {
    assert Backed(v, p);
  }

  lemma PushCapacity(v: View, a: nat)
    requires LiveOk(v) && a in v.small && v.small[a].bucket < |v.lists|
    ensures forall q | q in Pushed(v, a).live :: Capacity(Pushed(v, a), q) == Capacity(v, q)
  {
  }

  /** A place for a new small block. */
  ghost predicate FreshCell(v: View, arenaPtr: nat, r: Region, a: nat, c: Cell) {
    && 0 < a && a !in v.small && CellOk(a, c, v.use, r.start, arenaPtr) && Clear(v.small, a, CellEnd(a, c))
    && UsesApart(v.use, r) && arenaPtr <= r.lo
  }

  lemma FreshInside(v: View, arenaPtr: nat, r: Region, a: nat, c: Cell)
    requires FreshCell(v, arenaPtr, r, a, c) && r.lo <= r.hi
    ensures 0 < a && a !in v.small && CellOk(a, c, v.use, r.start, arenaPtr) && Clear(v.small, a, CellEnd(a, c))
    ensures a < r.hi
  {
  }

  lemma AddFreeStep(mem: seq<nat>, heads: seq<nat>, blocks: seq<Block>, v: View, arenaPtr: nat, r: Region, a: nat,
                    k: nat, home: nat)
    requires Meta(mem, heads, v, arenaPtr, r) && Used(blocks, v.use) && Seg(mem, blocks, r.lo, r.hi, 0, 0)
    requires k < BUCKETS
    requires FreshCell(v, arenaPtr, r, a, Cell(k, home, false))
    ensures |heads| == |v.lists| == BUCKETS && a < |mem|
    ensures var v' := AddedFree(v, a, k, home);
            && Meta(mem[a := heads[k]], heads[k := a], v', arenaPtr, r) && Used(blocks, v'.use)
            && Seg(mem[a := heads[k]], blocks, r.lo, r.hi, 0, 0)
            && Still(mem, mem[a := heads[k]], v, v')
  {
    hide Seg, Used, Layout, LiveOk, Chains, Listed, Tags, CellOk, Clear, SameContents, FreshCell;
    MetaSizes(mem, heads, v, arenaPtr, r);
    FreshInside(v, arenaPtr, r, a, Cell(k, home, false));
    AddFreeKeeps(mem, heads, v, arenaPtr, r, a, k, home);
    CellSeg(mem, blocks, v.use, arenaPtr, r, a, Cell(k, home, false), heads[k]);
    NewCellCapacity(v, AddedFree(v, a, k, home), a);
  }

  lemma NewCellCapacity(v: View, v': View, a: nat)
    requires LiveOk(v) && a !in v.small && a in v'.small && v'.small == v.small[a := v'.small[a]] && v'.use == v.use
    requires forall q | q in v.live :: q in v'.live && v'.live[q] == v.live[q]
    ensures forall q | q in v.live :: Capacity(v', q) == Capacity(v, q)
  {
    forall q | q in v.live
      ensures Capacity(v', q) == Capacity(v, q)
    {
      assert Backed(v, q);
    }
  }

  lemma AddLiveStep(mem: seq<nat>, heads: seq<nat>, blocks: seq<Block>, v: View, arenaPtr: nat, newPtr: nat, r: Region,
                    a: nat, k: nat, home: nat)
    requires Meta(mem, heads, v, arenaPtr, r) && Used(blocks, v.use) && Seg(mem, blocks, r.lo, r.hi, 0, 0)
    requires k < BUCKETS
    requires arenaPtr <= newPtr <= r.lo && FreshCell(v, newPtr, r, a, Cell(k, home, true))
    ensures a < |mem|
    ensures var v' := AddedLive(v, a, k, home);
            && Meta(mem[a := k], heads, v', newPtr, r) && Used(blocks, v'.use)
            && Seg(mem[a := k], blocks, r.lo, r.hi, 0, 0)
            && Grown(mem, mem[a := k], v, v', a + 1) && Capacity(v', a + 1) == Words(k)
  {
    hide Seg, Used, Layout, LiveOk, Chains, Listed, Tags, CellOk, Clear, SameContents, FreshCell;
    MetaSizes(mem, heads, v, arenaPtr, r);
    FreshInside(v, newPtr, r, a, Cell(k, home, true));
    AddLiveKeeps(mem, heads, v, arenaPtr, newPtr, r, a, k, home);
    CellSeg(mem, blocks, v.use, newPtr, r, a, Cell(k, home, true), k);
    NewCellCapacity(v, AddedLive(v, a, k, home), a);
  }

  // ---- Large objects and slabs -----------------------------------------------------------------------

  lemma UsesFromList(mem: seq<nat>, blocks: seq<Block>, use: Uses, r: Region)
    requires Seg(mem, blocks, r.lo, r.hi, 0, 0) && Used(blocks, use)
    ensures UsesApart(use, r)
  {
    SegBounds(mem, blocks, r.lo, r.hi, 0, 0);
    forall x, y | x in use && y in use && x < y
      ensures UseEnd(x, use[x]) <= y
    {
      Apart(mem, blocks, r.lo, r.hi, 0, 0, Block(x, use[x].size, false), Block(y, use[y].size, false));
    }
  }

  /** A free block is nobody's. */
  lemma FreeUnused(mem: seq<nat>, blocks: seq<Block>, use: Uses, r: Region, b: Block)
    requires Seg(mem, blocks, r.lo, r.hi, 0, 0) && Used(blocks, use) && b in blocks && b.free
    ensures b.at !in use
  {
    if b.at in use {
      Apart(mem, blocks, r.lo, r.hi, 0, 0, b, Block(b.at, use[b.at].size, false));
    }
  }

  /** The block taken from a free one is the only addition to the blocks in use. */
  lemma Claimed(a: seq<Block>, b: Block, c: seq<Block>, n: nat, use: Uses, u: Use)
    requires Used(a + [b] + c, use) && b.free && n <= b.size && b.at !in use && u.size == Pieces(b, n)[0].size
    ensures Used(a + Pieces(b, n) + c, use[b.at := u])
  {
    var bs, cs := a + [b] + c, a + Pieces(b, n) + c;
    assert cs[|a|] == Pieces(b, n)[0] == Block(b.at, u.size, false);
    assert forall d | d in bs && d != b :: d in cs;
    assert forall d | d in cs && !d.free && d.at != b.at :: d in bs;
    assert forall d | d in cs && !d.free && d.at == b.at :: d == cs[|a|] || d in bs;
  }

  /** A new block in use changes nothing for what was there. */
  lemma UseLayout(v: View, v': View, arenaPtr: nat, r: Region, at: nat, u: Use)
    requires Layout(v, arenaPtr, r) && at !in v.use && v'.use == v.use[at := u] && v'.small == v.small
    requires UsesApart(v'.use, r)
    requires u.Object? ==> at + HEADER + 2 <= u.ptr < UseEnd(at, u)
    ensures Layout(v', arenaPtr, r)
  {
    forall a | a in v'.small
      ensures CellOk(a, v'.small[a], v'.use, r.start, arenaPtr)
    {
      assert CellOk(a, v.small[a], v.use, r.start, arenaPtr);
    }
  }

  lemma UseLive(v: View, v': View, at: nat, u: Use)
    requires LiveOk(v) && at !in v.use && v'.use == v.use[at := u] && v'.small == v.small
    requires if u.Slab? then v'.live == v.live else u.ptr !in v.live && v'.live == v.live[u.ptr := InBlock(at)]
    ensures LiveOk(v') && forall p | p in v.live :: Capacity(v', p) == Capacity(v, p)
  {
    forall p | p in v'.live
      ensures Backed(v', p) && (p in v.live ==> Capacity(v', p) == Capacity(v, p))
    {
      assert p in v.live ==> Backed(v, p);
    }
  }

  lemma UseTags(mem: seq<nat>, v: View, at: nat, u: Use)
    requires Tags(mem, v.small, v.use) && (u.Object? ==> 1 <= u.ptr <= |mem| && mem[u.ptr - 1] == 8 * at)
    ensures Tags(mem, v.small, v.use[at := u])
  {
  }

  /** A block is taken as a slab. */
  lemma SlabKeeps(mem: seq<nat>, heads: seq<nat>, v: View, arenaPtr: nat, r: Region, at: nat, size: nat)
    requires Meta(mem, heads, v, arenaPtr, r) && at !in v.use && UsesApart(v.use[at := Slab(size)], r)
    ensures Meta(mem, heads, v.(use := v.use[at := Slab(size)]), arenaPtr, r)
    ensures forall p | p in v.live :: Capacity(v.(use := v.use[at := Slab(size)]), p) == Capacity(v, p)
  {
    hide Chains, Listed, Layout, Tags, LiveOk, UsesApart;
    var v' := v.(use := v.use[at := Slab(size)]);
    UseLayout(v, v', arenaPtr, r, at, Slab(size));
    UseLive(v, v', at, Slab(size));
    UseTags(mem, v, at, Slab(size));
  }

  /** A block is taken for one object, whose back pointer is in place. */
  lemma ObjectKeeps(mem: seq<nat>, heads: seq<nat>, v: View, arenaPtr: nat, r: Region, at: nat, u: Use)
    requires Meta(mem, heads, v, arenaPtr, r) && at !in v.use && UsesApart(v.use[at := u], r)
    requires u.Object? && at + HEADER + 2 <= u.ptr < UseEnd(at, u) && u.ptr <= |mem| && mem[u.ptr - 1] == 8 * at
    requires u.ptr !in v.live
    ensures var v' := v.(use := v.use[at := u], live := v.live[u.ptr := InBlock(at)]);
            Meta(mem, heads, v', arenaPtr, r) && forall p | p in v.live :: Capacity(v', p) == Capacity(v, p)
  {
    hide Chains, Listed, Layout, Tags, LiveOk, UsesApart;
    var v' := v.(use := v.use[at := u], live := v.live[u.ptr := InBlock(at)]);
    UseLayout(v, v', arenaPtr, r, at, u);
    UseLive(v, v', at, u);
    UseTags(mem, v, at, u);
  }

  /** Words of a block that has just been taken are nobody else's. */
  lemma NewBlockWords(mem: seq<nat>, mem': seq<nat>, v: View, arenaPtr: nat, r: Region, at: nat, u: Use)
    requires Layout(v, arenaPtr, r) && LiveOk(v) && at !in v.use && UsesApart(v.use[at := u], r) && |mem'| == |mem|
    requires forall w | 0 <= w < |mem| && !(at + HEADER <= w < UseEnd(at, u)) :: mem'[w] == mem[w]
    ensures MetaSame(mem, mem', v, -1) && SameContents(mem, mem', v)
    ensures forall p | at + HEADER <= p < UseEnd(at, u) :: p !in v.live
  {
    NewBlockClear(v, arenaPtr, r, at, u);
    var use := v.use[at := u];
    assert at in use;
    forall x | x in v.use
      ensures UseEnd(x, v.use[x]) <= at || UseEnd(at, u) <= x
    {
      assert x in use;
    }
    forall p, w | p in v.live && p <= w < p + Capacity(v, p) && w < |mem|
      ensures mem'[w] == mem[w]
    {
      assert Backed(v, p);
    }
    forall p | p in v.live
      ensures !(at + HEADER <= p < UseEnd(at, u))
    {
      assert Backed(v, p);
    }
  }

  /** The object in block `at` is gone. */
  lemma DropKeeps(mem: seq<nat>, heads: seq<nat>, v: View, arenaPtr: nat, r: Region, at: nat)
    requires Meta(mem, heads, v, arenaPtr, r) && at in v.use && v.use[at].Object?
    ensures var v' := v.(use := v.use - {at}, live := v.live - {v.use[at].ptr});
            Meta(mem, heads, v', arenaPtr, r) && forall p | p in v'.live :: Capacity(v', p) == Capacity(v, p)
  {
    var v' := v.(use := v.use - {at}, live := v.live - {v.use[at].ptr});
    hide Chains, Listed, Layout, Tags, LiveOk;
    DropLayout(v, v', arenaPtr, r, at);
    DropLive(v, v', at);
    DropTags(mem, v, at);
  }

  lemma DropLive(v: View, v': View, at: nat)
    requires LiveOk(v) && at in v.use && v.use[at].Object? && v'.use == v.use - {at}
    requires v'.live == v.live - {v.use[at].ptr} && v'.small == v.small
    ensures LiveOk(v') && forall p | p in v'.live :: Capacity(v', p) == Capacity(v, p)
  {
    forall p | p in v'.live
      ensures Backed(v', p) && Capacity(v', p) == Capacity(v, p)
    {
      assert Backed(v, p);
    }
  }

  lemma DropTags(mem: seq<nat>, v: View, at: nat)
    requires Tags(mem, v.small, v.use)
    ensures Tags(mem, v.small, v.use - {at})
  {
  }

  lemma DropLayout(v: View, v': View, arenaPtr: nat, r: Region, at: nat)
    requires Layout(v, arenaPtr, r) && at in v.use && v.use[at].Object? && v'.use == v.use - {at} && v'.small == v.small
    ensures Layout(v', arenaPtr, r)
  {
    forall a | a in v'.small
      ensures CellOk(a, v'.small[a], v'.use, r.start, arenaPtr)
    {
      assert CellOk(a, v.small[a], v.use, r.start, arenaPtr);
    }
  }

  /** No small block lies in a block that has just been taken. */
  lemma NewBlockClear(v: View, arenaPtr: nat, r: Region, at: nat, u: Use)
    requires Layout(v, arenaPtr, r) && at !in v.use && UsesApart(v.use[at := u], r)
    ensures forall c | c in v.small :: CellEnd(c, v.small[c]) <= at || UseEnd(at, u) <= c
  {
    var use := v.use[at := u];
    forall c | c in v.small
      ensures CellEnd(c, v.small[c]) <= at || UseEnd(at, u) <= c
    {
      assert CellOk(c, v.small[c], v.use, r.start, arenaPtr);
      assert at in use && v.small[c].home in v.use ==> v.small[c].home in use;
    }
  }

  /** What alloc_large_raw's success means for everything else. */
  lemma TakeStep(mem: seq<nat>, mem': seq<nat>, heads: seq<nat>, a: seq<Block>, b: Block, c: seq<Block>, n: nat,
                 v: View, arenaPtr: nat, r: Region, u: Use)
    requires Meta(mem, heads, v, arenaPtr, r) && Used(a + [b] + c, v.use) && Seg(mem, a + [b] + c, r.lo, r.hi, 0, 0)
    requires b.free && n <= b.size && Spared(mem, mem', a + [b] + c, r.lo, r.hi, b.at)
    requires Seg(mem', a + Pieces(b, n) + c, r.lo, r.hi, 0, 0)
    requires u.size == Pieces(b, n)[0].size
    ensures b.at !in v.use && Meta(mem', heads, v, arenaPtr, r) && SameContents(mem, mem', v)
    ensures Used(a + Pieces(b, n) + c, v.use[b.at := u]) && UsesApart(v.use[b.at := u], r) && n <= u.size
  {
    assert (a + [b] + c)[|a|] == b;
    assert forall at | at in v.use :: Block(at, v.use[at].size, false) in a + [b] + c;
    hide Seg, Used, Layout, LiveOk, Chains, Listed, Tags, SameContents, MetaSame, UsesApart, Spared;
    FreeUnused(mem, a + [b] + c, v.use, r, b);
    SparedSame(mem, mem', a + [b] + c, v, arenaPtr, r, b.at);
    MemFrame(mem, mem', heads, v, arenaPtr, r);
    Claimed(a, b, c, n, v.use, u);
    UsesFromList(mem', a + Pieces(b, n) + c, v.use[b.at := u], r);
  }

  /** The object's two prefix words are written into the block just taken for it. */
  lemma ObjectStep(mem0: seq<nat>, mem: seq<nat>, heads: seq<nat>, blocks: seq<Block>, v: View, arenaPtr: nat,
                   r: Region, at: nat, u: Use, tag: nat)
    requires Meta(mem, heads, v, arenaPtr, r) && at !in v.use && UsesApart(v.use[at := u], r)
    requires SameContents(mem0, mem, v)
    requires Seg(mem, blocks, r.lo, r.hi, 0, 0) && Used(blocks, v.use[at := u])
    requires u.Object? && at + HEADER + 2 <= u.ptr < UseEnd(at, u)
    ensures u.ptr <= |mem|
    ensures var mem' := mem[u.ptr - 2 := tag][u.ptr - 1 := 8 * at];
            var v' := v.(use := v.use[at := u], live := v.live[u.ptr := InBlock(at)]);
            && Meta(mem', heads, v', arenaPtr, r) && Seg(mem', blocks, r.lo, r.hi, 0, 0)
            && Grown(mem0, mem', v, v', u.ptr) && Capacity(v', u.ptr) == UseEnd(at, u) - u.ptr
  {
    hide Seg, Used, Layout, LiveOk, Chains, Listed, Tags, MetaSame, UsesApart, SameContents;
    MetaSizes(mem, heads, v, arenaPtr, r);
    UseInside(v.use[at := u], r, at);
    var mem' := mem[u.ptr - 2 := tag][u.ptr - 1 := 8 * at];
    NewBlockWords(mem, mem', v, arenaPtr, r, at, u);
    MemFrame(mem, mem', heads, v, arenaPtr, r);
    ObjectKeeps(mem', heads, v, arenaPtr, r, at, u);
    ObjectSeg(mem, mem', blocks, v.use[at := u], r, at, u);
    SameTrans(mem0, mem, mem', v);
  }

  lemma UseInside(use: Uses, r: Region, at: nat)
    requires UsesApart(use, r) && at in use
    ensures r.lo <= at && UseEnd(at, use[at]) <= r.hi
  {
  }

  /** The prefix words are no block's header. */
  lemma ObjectSeg(mem: seq<nat>, mem': seq<nat>, blocks: seq<Block>, use: Uses, r: Region, at: nat, u: Use)
    requires Seg(mem, blocks, r.lo, r.hi, 0, 0) && Used(blocks, use) && at in use && use[at] == u && u.Object?
    requires at + HEADER + 2 <= u.ptr < UseEnd(at, u) && u.ptr <= |mem| == |mem'|
    requires mem' == mem[u.ptr - 2 := mem'[u.ptr - 2]][u.ptr - 1 := mem'[u.ptr - 1]]
    ensures Seg(mem', blocks, r.lo, r.hi, 0, 0)
  {
    hide Seg;
    HeaderFree(mem, blocks, use, r, at, u.ptr - 2);
    HeaderFree(mem, blocks, use, r, at, u.ptr - 1);
    SegHeaders(mem, mem', blocks, r.lo, r.hi, 0, 0);
  }

  /** The padded payload is aligned, leaves two words before it, and leaves room for `size` bytes. */
  lemma Padded(raw: nat, size: nat, align: nat, n: nat)
    requires AlignOk(align) && n == (size + align + 16 + 7) / 8
    ensures RoundUp(8 * (raw + 2), align) % 8 == 0 && RoundUp(8 * (raw + 2), align) % align == 0
    ensures var p := RoundUp(8 * (raw + 2), align) / 8; raw + 2 <= p < raw + n && 8 * p + size <= 8 * (raw + n)
  {
    RoundUpWords(raw + 2, align);
    hide RoundUp;
  }

  /** The part of a new slab that is still to be cut: the first block and everything from `next` on. */
  ghost predicate Uncut(small: Cells, raw: nat, first: nat, next: nat, end: nat) {
    forall c | c in small :: CellEnd(c, small[c]) <= raw || (first <= c && CellEnd(c, small[c]) <= next) || end <= c
  }

  lemma UncutCell(v: View, arenaPtr: nat, r: Region, home: nat, raw: nat, first: nat, next: nat, end: nat, k: nat,
                  live: bool)
    requires Uncut(v.small, raw, first, next, end) && k < BUCKETS && UsesApart(v.use, r) && arenaPtr <= r.lo
    requires SlabAt(v, r, home, raw, end)
    requires first == raw + 1 + Words(k) <= next <= end
    ensures FreshCell(v, arenaPtr, r, raw, Cell(k, home, live))
    ensures next + 1 + Words(k) <= end ==> FreshCell(v, arenaPtr, r, next, Cell(k, home, live))
    ensures next + 1 + Words(k) <= end ==>
              Uncut(v.small[next := Cell(k, home, live)], raw, first, next + 1 + Words(k), end)
  {
  }

  /** What the word before a live payload says. */
  lemma BackPointer(mem: seq<nat>, heads: seq<nat>, blocks: seq<Block>, v: View, arenaPtr: nat, r: Region, p: nat)
    requires Meta(mem, heads, v, arenaPtr, r) && Used(blocks, v.use) && Seg(mem, blocks, r.lo, r.hi, 0, 0)
    requires p in v.live
    ensures 1 <= p <= |mem|
    ensures v.live[p].InCell? ==> mem[p - 1] < BUCKETS && Capacity(v, p) == Words(mem[p - 1])
    ensures v.live[p].InBlock? ==>
              var at := v.live[p].at;
              && at in v.use && v.use[at].Object? && v.use[at].ptr == p && Block(at, v.use[at].size, false) in blocks
              && mem[p - 1] == 8 * at >= BUCKETS && at < |mem| && mem[at] == v.use[at].size
              && Capacity(v, p) == at + HEADER + mem[at] - p && p <= at + HEADER + mem[at]
  {
    BackedBy(v, p);
    match v.live[p]
    case InCell(a) =>
      CellAt(v, arenaPtr, r, a);
    case InBlock(at) =>
      HeaderOf(mem, blocks, r.lo, r.hi, 0, 0, Block(at, v.use[at].size, false));
  }

  lemma {:induction false} HeaderOf(mem: seq<nat>, bs: seq<Block>, lo: nat, hi: nat, prev: nat, next: nat, b: Block)
    requires Seg(mem, bs, lo, hi, prev, next) && b in bs
    ensures lo <= b.at && End(b) <= |mem| && mem[b.at] == b.size
    decreases |bs|
  {
    if b != bs[0] {
      HeaderOf(mem, bs[1..], End(bs[0]), hi, lo, next, b);
    }
  }

  /** An object's block has been given back. */
  lemma DropStep(mem: seq<nat>, mem': seq<nat>, heads: seq<nat>, blocks: seq<Block>, blocks': seq<Block>, v: View,
                 arenaPtr: nat, r: Region, at: nat, b: Block)
    requires at in v.use && v.use[at].Object? && b == Block(at, v.use[at].size, false)
    requires Meta(mem, heads, v.(use := v.use - {at}, live := v.live - {v.use[at].ptr}), arenaPtr, r)
    requires Used(blocks, v.use)
    requires forall p | p in v.live - {v.use[at].ptr} ::
              Capacity(v.(use := v.use - {at}, live := v.live - {v.use[at].ptr}), p) == Capacity(v, p)
    requires Spared(mem, mem', blocks, r.lo, r.hi, at)
    requires forall d :: d in blocks' && !d.free <==> d in blocks && !d.free && d != b
    ensures var v' := v.(use := v.use - {at}, live := v.live - {v.use[at].ptr});
            Meta(mem', heads, v', arenaPtr, r) && Used(blocks', v'.use) && Shrunk(mem, mem', v, v', v.use[at].ptr)
  {
    var v' := v.(use := v.use - {at}, live := v.live - {v.use[at].ptr});
    assert forall x | x in v'.use :: Block(x, v'.use[x].size, false) in blocks;
    assert Used(blocks', v'.use) by {
      forall d | d in blocks' && !d.free
        ensures d.at in v'.use && v'.use[d.at].size == d.size
      {
        assert d in blocks && !d.free && d != b;
      }
      forall x | x in v'.use
        ensures Block(x, v'.use[x].size, false) in blocks'
      {
      }
    }
    hide Used, Spared, Layout, LiveOk, Chains, Listed, Tags, MetaSame, SameContents;
    SparedSame(mem, mem', blocks, v', arenaPtr, r, at);
    MemFrame(mem, mem', heads, v', arenaPtr, r);
  }

  lemma PayloadFits(mem: seq<nat>, heads: seq<nat>, v: View, arenaPtr: nat, r: Region, p: nat)
    requires Meta(mem, heads, v, arenaPtr, r) && p in v.live
    ensures 0 < p && p + Capacity(v, p) <= |mem|
  {
    LivePlace(v, arenaPtr, r, p);
  }

  lemma SameSelf(mem: seq<nat>, v: View)
    ensures SameContents(mem, mem, v)
  {
  }

  lemma SameTrans(mem0: seq<nat>, mem1: seq<nat>, mem2: seq<nat>, v: View)
    requires SameContents(mem0, mem1, v) && SameContents(mem1, mem2, v)
    ensures SameContents(mem0, mem2, v)
  {
  }

  lemma SameWord(mem: seq<nat>, mem': seq<nat>, v: View, q: nat, p: nat, w: nat)
    requires SameContents(mem, mem', v.(live := v.live - {q})) && p in v.live && p != q && p <= w < p + Capacity(v, p)
    requires w < |mem|
    ensures |mem'| == |mem| && mem'[w] == mem[w]
  {
    assert Capacity(v.(live := v.live - {q}), p) == Capacity(v, p);
  }

  lemma GrownKeeps(mem: seq<nat>, mem': seq<nat>, v: View, v': View, q: nat, p: nat)
    requires Grown(mem, mem', v, v', q) && p in v.live
    ensures p in v'.live && Capacity(v', p) == Capacity(v, p) && p != q && q !in v.live
  {
  }

  /** Growing by `q`, filling `q` and dropping `p` leaves everyone else alone. */
  lemma ReallocKeeps(mem0: seq<nat>, mem1: seq<nat>, mem2: seq<nat>, mem3: seq<nat>, v0: View, v1: View, v3: View,
                     p: nat, q: nat)
    requires Grown(mem0, mem1, v0, v1, q) && SameContents(mem1, mem2, v1.(live := v1.live - {q}))
    requires Shrunk(mem2, mem3, v1, v3, p) && p in v0.live
    ensures v3.live.Keys == v0.live.Keys - {p} + {q} && q in v3.live && Capacity(v3, q) == Capacity(v1, q)
    ensures SameContents(mem0, mem3, v0.(live := v0.live - {p}))
  {
    var others := v0.(live := v0.live - {p});
    forall x, w | x in others.live && x <= w < x + Capacity(others, x) && w < |mem0|
      ensures mem3[w] == mem0[w]
    {
      assert Capacity(others, x) == Capacity(v0, x) == Capacity(v1, x) == Capacity(v3, x);
      assert mem1[w] == mem0[w];
      assert Capacity(v1.(live := v1.live - {q}), x) == Capacity(v1, x);
      assert mem2[w] == mem1[w];
    }
  }

  lemma SlicesSame(mem: seq<nat>, mem': seq<nat>, v: View, v': View, p: nat, q: nat, n: nat)
    requires Shrunk(mem, mem', v, v', p) && q in v'.live && n <= Capacity(v', q) && q + n <= |mem|
    ensures |mem'| == |mem| && mem'[q..q + n] == mem[q..q + n]
  {
    assert forall w | q <= w < q + n :: mem'[w] == mem[w];
  }

  lemma SliceKept(mem: seq<nat>, mem': seq<nat>, v: View, v': View, q: nat, p: nat, n: nat)
    requires Grown(mem, mem', v, v', q) && p in v.live && n <= Capacity(v, p) && p + n <= |mem'|
    ensures |mem'| == |mem| && mem'[p..p + n] == mem[p..p + n]
  {
    assert forall w | p <= w < p + n :: mem'[w] == mem[w];
  }

  lemma SliceExtend(mem0: seq<nat>, mem: seq<nat>, mem': seq<nat>, p: nat, q: nat, i: nat)
    requires |mem| == |mem'| == |mem0| && p + i < |mem0| && q + i < |mem0|
    requires mem[q..q + i] == mem0[p..p + i] && mem' == mem[q + i := mem0[p + i]]
    ensures mem'[q..q + i + 1] == mem0[p..p + i + 1]
  {
    assert mem'[q..q + i + 1] == mem[q..q + i] + [mem0[p + i]];
    assert mem0[p..p + i + 1] == mem0[p..p + i] + [mem0[p + i]];
  }

  /** The smallest class, from `k` on, that holds `size` bytes; BUCKETS if none does. */
  function Bucket(size: nat, k: nat := 0): (b: nat)
    requires k <= BUCKETS
    ensures k <= b <= BUCKETS && (b < BUCKETS ==> size <= 8 * Words(b)) && forall j | k <= j < b :: size > 8 * Words(j)
    decreases BUCKETS - k
  {
    if k == BUCKETS || size <= 8 * Words(k) then k else Bucket(size, k + 1)
  }

  /** The blocks cut up for small allocations. */
  ghost function Slabs(use: Uses): set<nat> { set at | at in use && use[at].Slab? }

  /** One more slab has been cut. */
  ghost predicate OneMore(use: Uses, use': Uses) {
    exists at :: at in use' && at !in use && use'[at].Slab? && use' == use[at := use'[at]]
  }

  lemma SlabsGrow(use: Uses, use': Uses)
    requires use' == use || OneMore(use, use')
    ensures Slabs(use) <= Slabs(use')
  {
  }

  /** The large list when nothing has been taken from it. */
  ghost function Whole(r: Region): seq<Block>
    requires r.lo + HEADER <= r.hi
  {
    [Block(r.lo, r.hi - r.lo - HEADER, true)]
  }

  /** Once nothing is live, the large list is its original single block exactly when no slab was ever cut from it. */
  lemma AllReturned(mem: seq<nat>, heads: seq<nat>, blocks: seq<Block>, v: View, arenaPtr: nat, r: Region)
    requires ListOk(mem, blocks, r.lo, r.hi) && Used(blocks, v.use) && Meta(mem, heads, v, arenaPtr, r)
    requires v.live == map[]
    requires r.lo < r.hi
    ensures r.lo + HEADER <= r.hi && (blocks == Whole(r) <==> Slabs(v.use) == {})
  {
    SegBounds(mem, blocks, r.lo, r.hi, 0, 0);
    if Slabs(v.use) == {} {
      forall at
        ensures at !in v.use
      {
        assert at !in Slabs(v.use);
      }
      assert forall i | 0 <= i < |blocks| :: blocks[i] in blocks;
      AllFree(mem, blocks, r.lo, r.hi);
    } else {
      var at :| at in Slabs(v.use);
      assert Block(at, v.use[at].size, false) in blocks;
    }
  }

  const SLAB: nat := 32
  const SENTINEL: nat := 0xFFFF_FFFF_FFFF_FFFF

  /** [raw, end) lies in the slab at `home`. */
  ghost predicate SlabAt(v: View, r: Region, home: nat, raw: nat, end: nat) {
    && home in v.use && v.use[home].Slab? && 0 < home && raw == home + HEADER && raw <= end <= UseEnd(home, v.use[home])
    && UsesApart(v.use, r)
  }

  lemma StillSelf(mem: seq<nat>, v: View)
    ensures Still(mem, mem, v, v)
  {
  }

  lemma Remaining(i: nat, total: nat, blk: nat, end: nat)
    requires i < SLAB && blk + (SLAB - i) * total == end
    ensures blk + total <= end && (blk + total) + (SLAB - (i + 1)) * total == end
  {
    assert (SLAB - i) * total == (SLAB - (i + 1)) * total + total;
    assert (SLAB - (i + 1)) * total >= 0;
  }

  lemma StillTrans(mem0: seq<nat>, mem1: seq<nat>, mem2: seq<nat>, v0: View, v1: View, v2: View)
    requires Still(mem0, mem1, v0, v1) && Still(mem1, mem2, v1, v2)
    ensures Still(mem0, mem2, v0, v2)
  {
  }

  lemma StillGrown(mem0: seq<nat>, mem1: seq<nat>, mem2: seq<nat>, v0: View, v1: View, v2: View, p: nat)
    requires Still(mem0, mem1, v0, v1) && Grown(mem1, mem2, v1, v2, p)
    ensures Grown(mem0, mem2, v0, v2, p)
  {
  }

  lemma GrownAt(mem: seq<nat>, mem': seq<nat>, v: View, v': View, p: nat)
    requires Grown(mem, mem', v, v', p)
    ensures p in v'.live && p !in v.live
  {
  }

  /** The arena's next words are free for a new small block. */
  lemma ArenaCell(mem: seq<nat>, heads: seq<nat>, v: View, arenaPtr: nat, r: Region, k: nat)
    requires Meta(mem, heads, v, arenaPtr, r) && k < BUCKETS && arenaPtr + 1 + Words(k) <= r.lo
    ensures FreshCell(v, arenaPtr + 1 + Words(k), r, arenaPtr, Cell(k, 0, true))
  {
    forall c | c in v.small
      ensures CellEnd(c, v.small[c]) <= arenaPtr || r.lo <= c
    {
      assert CellOk(c, v.small[c], v.use, r.start, arenaPtr);
    }
  }

  /** The taken block becomes a slab with nothing cut from it yet. */
  lemma SlabStep(mem0: seq<nat>, mem: seq<nat>, heads: seq<nat>, v: View, arenaPtr: nat, r: Region, at: nat,
                 size: nat, raw: nat, first: nat, end: nat)
    requires Meta(mem, heads, v, arenaPtr, r) && at !in v.use && UsesApart(v.use[at := Slab(size)], r)
    requires SameContents(mem0, mem, v)
    requires raw == at + HEADER <= first <= end <= at + HEADER + size
    ensures var v' := v.(use := v.use[at := Slab(size)]);
            && Meta(mem, heads, v', arenaPtr, r) && Still(mem0, mem, v, v') && Uncut(v'.small, raw, first, first, end)
            && 0 < at
  {
    MetaSizes(mem, heads, v, arenaPtr, r);
    assert at in v.use[at := Slab(size)];
    hide Chains, Listed, Tags, LiveOk;
    SlabKeeps(mem, heads, v, arenaPtr, r, at, size);
    NewBlockClear(v, arenaPtr, r, at, Slab(size));
  }

  class Heap {
    var mem: seq<nat>
    var heads: seq<nat>
    var largeHead: nat
    var arenaPtr: nat
    const arenaEnd: nat
    ghost var blocks: seq<Block>
    ghost var v: View
    ghost const r: Region

    ghost predicate Large()
      reads this
    {
      ListOk(mem, blocks, r.lo, r.hi) && largeHead == First(blocks, 0)
    }

    ghost predicate Valid()
      reads this
    {
      Large() && arenaEnd == r.lo && Used(blocks, v.use) && Meta(mem, heads, v, arenaPtr, r)
    }

    /** The words payload `p` may hold. */
    ghost function Cap(p: nat): int
      requires p in v.live
      reads this
    {
      Capacity(v, p)
    }

    /** init over `size` words, a multiple of four, starting at word `start`: three quarters for the arena, the rest
        for the large list. */
    constructor (start: nat, size: nat)
      requires 2 <= start && size % 4 == 0
      ensures Valid() && v.live == map[] && v.use == map[] && r.start == start && r.hi <= start + size
      ensures arenaPtr == start && arenaEnd == r.lo == start + size / 4 * 3 && heads == seq(BUCKETS, _ => 0)
      ensures size / 4 > HEADER ==>
                r.lo + HEADER <= r.hi && blocks == Whole(r) == [Block(r.lo, size / 4 - HEADER, true)]
    {
      var arenaWords := size / 4 * 3;
      var lb := start + arenaWords;
      var lbSize := size - arenaWords;
      arenaPtr := start;
      arenaEnd := lb;
      heads := seq(BUCKETS, _ => 0);
      v := View(map[], map[], seq(BUCKETS, _ => []), map[]);
      var cells := seq(start + size, _ => 0);
      if lbSize > HEADER {
        r := Region(start, lb, start + size);
        mem := cells[lb := lbSize - HEADER][lb + 3 := 1];
        largeHead := lb;
        blocks := [Block(lb, lbSize - HEADER, true)];
      } else {
        r := Region(start, lb, lb);
        mem := cells;
        largeHead := 0;
        blocks := [];
      }
      new;
      if lbSize > HEADER {
        SegOne(mem, blocks[0], 0, 0);
      }
    }

    // ---- Payload access ------------------------------------------------------------------------

    /** A kernel store through a live pointer leaves the heap sound and every other payload alone. */
    method Store(p: nat, off: nat, x: nat)
      requires Valid() && p in v.live && off < Cap(p)
      modifies this`mem
      ensures Valid() && p + off < |old(mem)| && mem == old(mem)[p + off := x]
      ensures SameContents(old(mem), mem, v.(live := v.live - {p}))
    {
      hide Seg, Meta, Used, SameContents, Coalesced, Capacity;
      StoreKeeps(mem, heads, blocks, v, arenaPtr, r, p, p + off, x);
      mem := mem[p + off := x];
    }

    // ---- Small blocks ---------------------------------------------------------------------------

    /** The head of the class's free list is handed out. */
    method Pop(k: nat) returns (p: nat)
      requires Valid() && k < BUCKETS && |heads| == BUCKETS && heads[k] != 0
      modifies this
      ensures Valid() && Grown(old(mem), mem, old(v), v, p) && Cap(p) == Words(k)
      ensures v.use == old(v).use && blocks == old(blocks) && arenaPtr == old(arenaPtr)
    {
      hide Seg, Meta, Used, Grown, Coalesced;
      PopStep(mem, heads, blocks, v, arenaPtr, r, k);
      var a := heads[k];
      heads := heads[k := mem[a]];
      mem := mem[a := k];
      v := Popped(v, k, a);
      return a + 1;
    }

    /** free_small: the block goes back to the class its header names. */
    method FreeSmall(p: nat)
      requires Valid() && p in v.live && v.live[p].InCell?
      modifies this
      ensures Valid() && Shrunk(old(mem), mem, old(v), v, p)
      ensures v.use == old(v).use && blocks == old(blocks) && arenaPtr == old(arenaPtr)
    {
      hide Seg, Meta, Used, Shrunk, Coalesced;
      PushFacts(mem, heads, v, arenaPtr, r, p);
      var a := p - 1;
      var k := mem[a];
      PushStep(mem, heads, blocks, v, arenaPtr, r, a, k);
      mem := mem[a := heads[k]];
      heads := heads[k := a];
      v := Pushed(v, a);
    }

    /** A fresh block joins the free list of its class. */
    method AddFree(a: nat, k: nat, ghost home: nat)
      requires Valid() && k < BUCKETS && FreshCell(v, arenaPtr, r, a, Cell(k, home, false))
      modifies this
      ensures Valid() && Still(old(mem), mem, old(v), v)
      ensures blocks == old(blocks) && arenaPtr == old(arenaPtr) && v.use == old(v).use
      ensures v.small == old(v).small[a := Cell(k, home, false)]
    {
      hide Seg, Meta, Used, Still, Coalesced, FreshCell;
      AddFreeStep(mem, heads, blocks, v, arenaPtr, r, a, k, home);
      mem := mem[a := heads[k]];
      heads := heads[k := a];
      v := AddedFree(v, a, k, home);
    }

    /** A fresh block is handed out, from the arena or a slab. */
    method AddLive(a: nat, k: nat, newPtr: nat, ghost home: nat) returns (p: nat)
      requires Valid() && k < BUCKETS && arenaPtr <= newPtr <= arenaEnd
      requires FreshCell(v, newPtr, r, a, Cell(k, home, true))
      modifies this
      ensures Valid() && Grown(old(mem), mem, old(v), v, p) && p == a + 1 && Cap(p) == Words(k) && v.use == old(v).use
      ensures blocks == old(blocks) && arenaPtr == newPtr && heads == old(heads)
    {
      hide Seg, Meta, Used, Grown, Coalesced, FreshCell;
      AddLiveStep(mem, heads, blocks, v, arenaPtr, newPtr, r, a, k, home);
      arenaPtr := newPtr;
      mem := mem[a := k];
      v := AddedLive(v, a, k, home);
      return a + 1;
    }

    /** No free block of the large list has `n` words. */
    ghost predicate NoBlock(n: nat)
      reads this
    {
      forall d | d in blocks :: !(d.free && d.size >= n)
    }

    /** Class `k` has neither a free block nor room in the arena. */
    ghost predicate Short(k: nat)
      requires k < BUCKETS
      reads this
    {
      |heads| == BUCKETS && heads[k] == 0 && arenaPtr + 1 + Words(k) > arenaEnd
    }

    /** alloc_small: from the free list, the arena, or a new slab of 32 blocks; null exactly when all three fail. */
    method AllocSmall(k: nat) returns (p: nat)
      requires Valid() && k < BUCKETS
      modifies this
      ensures Valid()
      ensures p == 0 <==> old(Short(k) && NoBlock((1 + Words(k)) * SLAB))
      ensures p == 0 ==>
                && mem == old(mem) && v == old(v) && blocks == old(blocks) && arenaPtr == old(arenaPtr)
                && heads == old(heads)
      ensures p != 0 ==> Grown(old(mem), mem, old(v), v, p) && Cap(p) == Words(k)
      ensures p != 0 && !old(Short(k)) ==> v.use == old(v).use && blocks == old(blocks)
      ensures p != 0 && !old(Short(k)) && |old(heads)| == BUCKETS && old(heads)[k] == 0 ==>
                heads == old(heads) && arenaPtr == old(arenaPtr) + 1 + Words(k)
      ensures p != 0 && old(Short(k)) ==> OneMore(old(v).use, v.use)
    {
      MetaSizes(mem, heads, v, arenaPtr, r);
      hide Seg, Meta, Used, Grown, Coalesced;
      if heads[k] != 0 {
        p := Pop(k);
        GrownAt(old(mem), mem, old(v), v, p);
        return p;
      }
      if arenaPtr + 1 + Words(k) <= arenaEnd {
        ArenaCell(mem, heads, v, arenaPtr, r, k);
        p := AddLive(arenaPtr, k, arenaPtr + 1 + Words(k), 0);
        return p;
      }
      p := CutSlab(k);
    }

    /** Cut a large block into 32 small ones: the first is handed out, the rest are free. */
    method CutSlab(k: nat) returns (p: nat)
      requires Valid() && k < BUCKETS
      modifies this
      ensures Valid()
      ensures p == 0 ==>
                && mem == old(mem) && v == old(v) && blocks == old(blocks) && arenaPtr == old(arenaPtr)
                && heads == old(heads)
      ensures p == 0 <==> old(NoBlock((1 + Words(k)) * SLAB))
      ensures p != 0 ==> Grown(old(mem), mem, old(v), v, p) && Cap(p) == Words(k) && OneMore(old(v).use, v.use)
    {
      hide Seg, Meta, Used, Grown, Coalesced, Still, Uncut, FreshCell, UsesApart;
      var total := 1 + Words(k);
      ghost var home;
      p, home := NewSlab(total * SLAB, total);
      if p == 0 {
        return 0;
      }
      var raw := p;
      ghost var mem0, v0 := mem, v;
      CutRest(raw, total, k, home, raw + total * SLAB);
      ghost var mem1, v1 := mem, v;
      UncutCell(v, arenaPtr, r, home, raw, raw + total, raw + total * SLAB, raw + total * SLAB, k, true);
      p := AddLive(raw, k, arenaPtr, home);
      StillTrans(old(mem), mem0, mem1, old(v), v0, v1);
      StillGrown(old(mem), mem1, mem, old(v), v1, v, p);
    }

    /** Take a large block of at least `n` words as a slab, the first `first` of them kept for the caller. */
    method NewSlab(n: nat, first: nat) returns (raw: nat, ghost home: nat)
      requires Valid() && first <= n
      modifies this`mem, this`blocks, this`v
      ensures Valid()
      ensures raw == 0 <==> old(NoBlock(n))
      ensures raw == 0 ==> mem == old(mem) && v == old(v) && blocks == old(blocks)
      ensures raw != 0 ==>
                home !in old(v).use && home in v.use && v.use[home].Slab? && v.use == old(v).use[home := v.use[home]]
      ensures raw != 0 ==> Still(old(mem), mem, old(v), v) && SlabAt(v, r, home, raw, raw + n) && arenaPtr <= r.lo
                           && Uncut(v.small, raw, raw + first, raw + first, raw + n)
    {
      hide Seg, Meta, Used, Coalesced, Still, Spared, UsesApart, Uncut, SameContents;
      MetaSizes(mem, heads, v, arenaPtr, r);
      ghost var a, b, c;
      raw, a, b, c := AllocLarge(n);
      home := b.at;
      if raw == 0 {
        return;
      }
      ghost var size := Pieces(b, n)[0].size;
      TakeStep(old(mem), mem, heads, a, b, c, n, v, arenaPtr, r, Slab(size));
      SlabStep(old(mem), mem, heads, v, arenaPtr, r, home, size, raw, raw + first, raw + n);
      v := v.(use := v.use[home := Slab(size)]);
    }

    /** Push every block of the slab but the first. */
    method CutRest(raw: nat, total: nat, k: nat, ghost home: nat, end: nat)
      requires Valid() && k < BUCKETS && total == 1 + Words(k) && end == raw + total * SLAB && arenaPtr <= r.lo
      requires SlabAt(v, r, home, raw, end) && Uncut(v.small, raw, raw + total, raw + total, end)
      modifies this
      ensures Valid() && Still(old(mem), mem, old(v), v) && v.use == old(v).use && arenaPtr == old(arenaPtr)
      ensures Uncut(v.small, raw, raw + total, end, end)
    {
      StillSelf(mem, v);
      hide Seg, Meta, Used, Coalesced, Still, UsesApart, Uncut, SameContents, FreshCell;
      var blk := raw + total;
      var i := 1;
      while i < SLAB
        invariant 1 <= i <= SLAB && blk + (SLAB - i) * total == end && raw + total <= blk
        invariant Valid() && Still(old(mem), mem, old(v), v) && v.use == old(v).use && arenaPtr == old(arenaPtr)
        invariant Uncut(v.small, raw, raw + total, blk, end)
      {
        Remaining(i, total, blk, end);
        UncutCell(v, arenaPtr, r, home, raw, raw + total, blk, end, k, false);
        ghost var mem1, v1 := mem, v;
        AddFree(blk, k, home);
        StillTrans(old(mem), mem1, mem, old(v), v1, v);
        blk := blk + total;
        i := i + 1;
      }
    }

    // ---- Large objects ----------------------------------------------------------------------------

    /** alloc_aligned's large path. */
    method AllocObject(size: nat, align: nat) returns (p: nat)
      requires Valid() && AlignOk(align)
      modifies this
      ensures Valid()
      ensures p == 0 <==> old(NoBlock((size + align + 16 + 7) / 8))
      ensures p == 0 ==> mem == old(mem) && v == old(v) && blocks == old(blocks)
      ensures Slabs(v.use) == Slabs(old(v).use)
      ensures p != 0 ==> Grown(old(mem), mem, old(v), v, p) && p in v.live && 8 * Cap(p) >= size && (8 * p) % align == 0
    {
      hide Seg, Meta, Used, Coalesced, Grown, Spared, UsesApart, SameContents, RoundUp;
      var n := (size + align + 16 + 7) / 8;
      ghost var a, b, c;
      var raw;
      raw, a, b, c := AllocLarge(n);
      if raw == 0 {
        return 0;
      }
      var block := raw - HEADER;
      p := RoundUp(8 * (raw + 2), align) / 8;
      Padded(raw, size, align, n);
      ghost var u := Object(Pieces(b, n)[0].size, p);
      TakeStep(old(mem), mem, heads, a, b, c, n, v, arenaPtr, r, u);
      ObjectStep(old(mem), mem, heads, blocks, v, arenaPtr, r, b.at, u, SENTINEL);
      mem := mem[p - 2 := SENTINEL];
      mem := mem[p - 1 := 8 * block];
      v := v.(use := v.use[b.at := u], live := v.live[p := InBlock(b.at)]);
    }

    /** The large half of dealloc_aligned: the back pointer names the block. */
    method FreeObject(p: nat)
      requires Valid() && p in v.live && v.live[p].InBlock?
      modifies this
      ensures Valid() && Shrunk(old(mem), mem, old(v), v, p) && Slabs(v.use) == Slabs(old(v).use)
    {
      hide Seg, Meta, Used, Coalesced, Spared, Shrunk;
      BackPointer(mem, heads, blocks, v, arenaPtr, r, p);
      ghost var at := v.live[p].at;
      ghost var i :| 0 <= i < |blocks| && blocks[i] == Block(at, v.use[at].size, false);
      ghost var a, b, c := blocks[..i], blocks[i], blocks[i + 1..];
      assert blocks == a + [b] + c;
      DropKeeps(mem, heads, v, arenaPtr, r, at);
      ghost var v' := v.(use := v.use - {at}, live := v.live - {p});
      FreeLarge(mem[p - 1] / 8 + HEADER, a, b, c);
      DropStep(old(mem), mem, heads, old(blocks), blocks, v, arenaPtr, r, at, b);
      v := v';
    }

    // ---- The allocator's interface --------------------------------------------------------------------

    /** The request cannot be met: its class is short and no slab can be cut, or no block is large enough. */
    ghost predicate Refused(size: nat, align: nat)
      reads this
    {
      if align <= 8 && Bucket(size) < BUCKETS then Short(Bucket(size)) && NoBlock((1 + Words(Bucket(size))) * SLAB)
      else NoBlock((size + align + 16 + 7) / 8)
    }

    /** bucket_for: the smallest class that holds `size` bytes. */
    method BucketFor(size: nat) returns (k: nat)
      ensures k == Bucket(size)
    {
      k := 0;
      while k < BUCKETS
        invariant k <= BUCKETS && Bucket(size, k) == Bucket(size)
      {
        if size <= 8 * Words(k) {
          return;
        }
        k := k + 1;
      }
    }

    /** alloc_aligned: an aligned payload with room for `size` bytes, or null with nothing changed. */
    method Alloc(size: nat, align: nat) returns (p: nat)
      requires Valid() && AlignOk(align)
      modifies this
      ensures Valid()
      ensures p == 0 <==> old(Refused(size, align))
      ensures p == 0 ==> mem == old(mem) && v == old(v) && blocks == old(blocks)
      ensures p != 0 ==> Grown(old(mem), mem, old(v), v, p) && p in v.live && 8 * Cap(p) >= size && (8 * p) % align == 0
      ensures Slabs(old(v).use) <= Slabs(v.use)
    {
      hide Seg, Meta, Used, Coalesced, Grown, Words, Capacity, NoBlock, Short;
      if align <= 8 {
        var k := BucketFor(size);
        if k < BUCKETS {
          p := AllocSmall(k);
          if p != 0 {
            GrownAt(old(mem), mem, old(v), v, p);
            SlabsGrow(old(v).use, v.use);
          }
          WordAligned(p, align);
          return p;
        }
      }
      p := AllocObject(size, align);
    }

    /** dealloc_aligned: the word before the payload tells the two kinds apart. */
    method Dealloc(p: nat)
      requires Valid() && (p != 0 ==> p in v.live)
      modifies this
      ensures Valid()
      ensures p == 0 ==> mem == old(mem) && v == old(v) && blocks == old(blocks)
      ensures p != 0 ==> Shrunk(old(mem), mem, old(v), v, p)
      ensures Slabs(v.use) == Slabs(old(v).use)
    {
      hide Seg, Meta, Used, Coalesced, Shrunk;
      if p == 0 {
        return;
      }
      BackPointer(mem, heads, blocks, v, arenaPtr, r, p);
      if mem[p - 1] < BUCKETS {
        FreeSmall(p);
      } else {
        FreeObject(p);
      }
    }

    /** capacity_of, in bytes. */
    method CapacityOf(p: nat) returns (n: nat)
      requires Valid() && p in v.live
      ensures n == 8 * Cap(p)
    {
      BackPointer(mem, heads, blocks, v, arenaPtr, r, p);
      hide Seg, Meta, Used, Coalesced;
      var tag := mem[p - 1];
      if tag < BUCKETS {
        return 8 * Words(tag);
      }
      var block := tag / 8;
      var end := block + HEADER + mem[block];
      return 8 * (end - p);
    }

    /** realloc: the new payload starts with the old one's whole words, as far as both reach. */
    method Realloc(p: nat, size: nat, align: nat) returns (q: nat)
      requires Valid() && AlignOk(align) && (p != 0 ==> p in v.live)
      modifies this
      ensures Valid()
      ensures q == 0 <==> old(Refused(size, align))
      ensures q == 0 ==> mem == old(mem) && v == old(v) && blocks == old(blocks)
      ensures Slabs(old(v).use) <= Slabs(v.use)
      ensures q != 0 && p == 0 ==> Grown(old(mem), mem, old(v), v, q)
      ensures q != 0 ==> q in v.live && 8 * Cap(q) >= size && (8 * q) % align == 0 && q !in old(v).live
      ensures q != 0 && p != 0 ==>
                && v.live.Keys == old(v).live.Keys - {p} + {q}
                && SameContents(old(mem), mem, old(v).(live := old(v).live - {p}))
      ensures q != 0 && p != 0 ==>
                var n := Min(old(Cap(p)), size / 8);
                0 <= n && p + n <= |old(mem)| && q + n <= |mem| && mem[q..q + n] == old(mem)[p..p + n]
    {
      hide Seg, Meta, Used, Coalesced, Grown, Shrunk, SameContents, Refused, Slabs;
      q := Alloc(size, align);
      if q != 0 {
        GrownAt(old(mem), mem, old(v), v, q);
      }
      if p == 0 || q == 0 {
        return;
      }
      GrownKeeps(old(mem), mem, old(v), v, q, p);
      ghost var mem1, v1 := mem, v;
      PayloadFits(mem, heads, v, arenaPtr, r, p);
      var cap := CapacityOf(p);
      SliceKept(old(mem), mem, old(v), v, q, p, Min(size, cap) / 8);
      CopyWords(p, q, Min(size, cap) / 8);
      ghost var mem2 := mem;
      Dealloc(p);
      ReallocKeeps(old(mem), mem1, mem2, mem, old(v), v1, v, p, q);
      SlicesSame(mem2, mem, v1, v, p, q, Min(size, cap) / 8);
    }

    /** copy_nonoverlapping, in whole words. */
    method CopyWords(p: nat, q: nat, n: nat)
      requires Valid() && p in v.live && q in v.live && p != q && n <= Cap(p) && n <= Cap(q)
      modifies this`mem
      ensures Valid() && |mem| == |old(mem)| && p + n <= |mem| && q + n <= |mem|
      ensures mem[q..q + n] == old(mem)[p..p + n] && SameContents(old(mem), mem, v.(live := v.live - {q}))
    {
      hide Seg, Meta, Used, Coalesced, SameContents, Capacity;
      PayloadFits(mem, heads, v, arenaPtr, r, p);
      PayloadFits(mem, heads, v, arenaPtr, r, q);
      SameSelf(mem, v.(live := v.live - {q}));
      for i := 0 to n
        invariant Valid() && |mem| == |old(mem)| && mem[q..q + i] == old(mem)[p..p + i]
        invariant SameContents(old(mem), mem, v.(live := v.live - {q}))
      {
        SameWord(old(mem), mem, v, q, p, p + i);
        ghost var was := mem;
        Store(q, i, mem[p + i]);
        SameTrans(old(mem), was, mem, v.(live := v.live - {q}));
        SliceExtend(old(mem), was, mem, p, q, i);
      }
    }

    // ---- Whole lives ------------------------------------------------------------------------------------

    /** Any allocations, resizings and frees, then every payload that is left is freed. Whatever happened, the large
        list is its original block again exactly when no slab was cut. */
    method Life(ops: seq<Op>)
      requires Valid() && v.live == map[] && r.lo < r.hi
      modifies this
      ensures Valid() && v.live == map[] && Slabs(old(v).use) <= Slabs(v.use)
      ensures r.lo + HEADER <= r.hi && (blocks == Whole(r) <==> Slabs(v.use) == {})
    {
      hide Seg, Meta, Used, Coalesced, Grown, Shrunk, SameContents, Refused, Slabs;
      var held: seq<nat> := [];
      for i := 0 to |ops|
        invariant Valid() && Holds(held, v.live) && Slabs(old(v).use) <= Slabs(v.use)
      {
        held := Do(held, ops[i]);
      }
      while held != []
        invariant Valid() && Holds(held, v.live) && Slabs(old(v).use) <= Slabs(v.use)
        decreases |held|
      {
        held := Do(held, Give(0));
      }
      AllReturned(mem, heads, blocks, v, arenaPtr, r);
    }

    /** One call on the pointers that are held. */
    method Do(held: seq<nat>, op: Op) returns (held': seq<nat>)
      requires Valid() && Holds(held, v.live)
      modifies this
      ensures Valid() && Holds(held', v.live) && Slabs(old(v).use) <= Slabs(v.use)
      ensures op == Give(0) && held != [] ==> |held'| == |held| - 1
    {
      hide Seg, Meta, Used, Coalesced, SameContents, Refused, Slabs;
      held' := held;
      match op
      case Get(size, align) =>
        if AlignOk(align) {
          var p := Alloc(size, align);
          if p != 0 {
            held' := held + [p];
          }
        }
      case Give(i) =>
        if i < |held| {
          NotNull(mem, heads, v, arenaPtr, r, held[i]);
          Dealloc(held[i]);
          held' := held[..i] + held[i + 1..];
        }
      case Resize(i, size, align) =>
        if i < |held| && AlignOk(align) {
          NotNull(mem, heads, v, arenaPtr, r, held[i]);
          var q := Realloc(held[i], size, align);
          if q != 0 {
            held' := held[..i] + held[i + 1..] + [q];
          }
        }
    }

    // ---- The large-block list -----------------------------------------------------------------

    /** alloc_large_raw: the first free block that is large enough, split if the rest is worth keeping. */
    method AllocLarge(n: nat) returns (raw: nat, ghost a: seq<Block>, ghost b: Block, ghost c: seq<Block>)
      requires Large()
      modifies this`mem, this`blocks
      ensures Large()
      ensures raw == 0 <==> old(NoBlock(n))
      ensures raw == 0 ==> mem == old(mem) && blocks == old(blocks)
      ensures raw != 0 ==> old(blocks) == a + [b] + c && b.free && b.size >= n && raw == b.at + HEADER
      ensures raw != 0 ==> forall d | d in a :: !(d.free && d.size >= n)
      ensures raw != 0 ==> blocks == a + Pieces(b, n) + c && Spared(old(mem), mem, old(blocks), r.lo, r.hi, b.at)
    {
      hide Seg;
      var cur := largeHead;
      a, c := [], blocks;
      b := Block(0, 0, false);
      while cur != 0
        invariant mem == old(mem) && blocks == old(blocks) == a + c && cur == First(c, 0)
        invariant forall d | d in a :: !(d.free && d.size >= n)
        decreases |c|
      {
        ZeroEnds(mem, a, c, r.lo, r.hi);
        b, c := c[0], c[1..];
        assert blocks == a + [b] + c;
        SegAround(mem, a, b, c, r.lo, r.hi);
        if mem[cur + 3] == 1 && mem[cur] >= n {
          Carve(cur, n, a, b, c);
          return cur + HEADER, a, b, c;
        }
        a := a + [b];
        cur := mem[cur + 1];
      }
      ZeroEnds(mem, a, c, r.lo, r.hi);
      return 0, a, b, c;
    }

    /** Take the block at `cur` for `n` words. */
    method Carve(cur: nat, n: nat, ghost a: seq<Block>, ghost b: Block, ghost c: seq<Block>)
      requires Large() && blocks == a + [b] + c && b.at == cur && b.free && b.size >= n
      modifies this`mem, this`blocks
      ensures Large()
      ensures blocks == a + Pieces(b, n) + c && Spared(old(mem), mem, old(blocks), r.lo, r.hi, b.at)
    {
      hide Seg, Spared, SplitWrites, Careful, Coalesced;
      SegAround(mem, a, b, c, r.lo, r.hi);
      NextHeader(mem, a, b, c, r.lo, r.hi);
      PiecesCoalesced(a, b, c, n);
      if mem[cur] >= n + HEADER + SPLIT {
        WriteSplit(cur, n, b, First(c, 0));
        SplitKeeps(old(mem), mem, a, b, c, r.lo, r.hi, n);
        SplitCareful(old(mem), mem, a, b, c, n);
      } else {
        mem := mem[cur + 3 := 0];
        FlagKeeps(old(mem), mem, a, b, c, r.lo, r.hi, false);
        FlagCareful(old(mem), mem, a, b, c);
      }
      CarefulSpares(old(mem), mem, blocks, r.lo, r.hi, b);
      blocks := a + Pieces(b, n) + c;
    }

    /** The stores that split the block at `cur`. */
    method WriteSplit(cur: nat, n: nat, ghost b: Block, ghost after: nat)
      requires b.at == cur && b.size >= n + HEADER + SPLIT && End(b) <= |mem| && mem[cur] == b.size
      requires mem[cur + 1] == after && mem[cur + 3] == 1
      requires after != 0 ==> End(b) == after && after + HEADER <= |mem|
      modifies this`mem
      ensures SplitWrites(old(mem), mem, b, n, after)
    {
      var next := cur + HEADER + n;
      mem := mem[next := mem[cur] - n - HEADER];
      mem := mem[next + 1 := mem[cur + 1]];
      mem := mem[next + 2 := cur];
      mem := mem[next + 3 := 1];
      if mem[next + 1] != 0 {
        mem := mem[mem[next + 1] + 2 := next];
      }
      mem := mem[cur := n];
      mem := mem[cur + 1 := next];
      mem := mem[cur + 3 := 0];
    }

    /** free_large_raw. Every other block in use stays as it is. */
    method FreeLarge(ptr: nat, ghost a: seq<Block>, ghost b: Block, ghost c: seq<Block>)
      requires Large() && blocks == a + [b] + c && ptr == b.at + HEADER
      modifies this`mem, this`blocks
      ensures Large() && Spared(old(mem), mem, old(blocks), r.lo, r.hi, b.at)
      ensures b.free ==> mem == old(mem) && blocks == old(blocks)
      ensures !b.free ==> forall d :: d in blocks && !d.free <==> d in old(blocks) && !d.free && d != b
    {
      var block := ptr - HEADER;
      SegAround(mem, a, b, c, r.lo, r.hi);
      NoTwins(mem, a, b, c, r.lo, r.hi);
      if mem[block + 3] == 1 {
        return;
      }
      hide Seg, Spared, Careful, Coalesced;
      mem := mem[block + 3 := 1];
      ghost var e, c' := b.(free := true), c;
      FlagKeeps(old(mem), mem, a, b, c, r.lo, r.hi, true);
      FlagCareful(old(mem), mem, a, b, c);
      e, c' := MergeNext(block, a, e, c, old(mem), b);
      ghost var a';
      e, a' := MergeBack(block, a, e, c', old(mem), old(blocks), b);
      MergedCoalesced(a, b, c, a', e, c');
      CarefulSpares(old(mem), mem, old(blocks), r.lo, r.hi, b);
      blocks := a' + [e] + c';
      SameUsed(a, b, c, a', e, c');
    }

    /** Coalesce with the next block. */
    method MergeNext(block: nat, ghost a: seq<Block>, ghost e: Block, ghost c: seq<Block>, ghost mem0: seq<nat>,
                     ghost b: Block)
      returns (ghost e': Block, ghost c': seq<Block>)
      requires Seg(mem, a + [e] + c, r.lo, r.hi, 0, 0) && 0 < r.lo && e.at == block == b.at && e.free
      requires Careful(mem0, mem, a + [b] + c, b)
      modifies this`mem
      ensures Seg(mem, a + [e'] + c', r.lo, r.hi, 0, 0) && e'.at == block && e'.free
      ensures (c' == c && (c == [] || !c[0].free)) || (c != [] && c' == c[1..] && c[0].free)
      ensures Careful(mem0, mem, a + [b] + c, b)
    {
      SegAround(mem, a, e, c, r.lo, r.hi);
      NextHeader(mem, a, e, c, r.lo, r.hi);
      hide Seg, Careful, MergeWrites;
      e', c' := e, c;
      var next := mem[block + 1];
      if next != 0 {
        ghost var d := c[0];
        assert c == [d] + c[1..];
        Around2(mem, a, e, d, c[1..], r.lo, r.hi);
        if mem[next + 3] == 1 {
          ghost var was := mem;
          WriteMerge(block, next, e, d, First(c[1..], 0));
          MergeKeeps(was, mem, a, e, d, c[1..], r.lo, r.hi);
          e', c' := Block(e.at, e.size + d.size + HEADER, true), c[1..];
          assert c' != [] ==> (a + [b] + c)[|a| + 2] == c'[0];
          MergeCareful(mem0, was, mem, a + [b] + c, b, e, d, First(c', 0));
        }
      }
    }

    /** Coalesce with the previous block. */
    method MergeBack(block: nat, ghost a: seq<Block>, ghost e: Block, ghost c: seq<Block>, ghost mem0: seq<nat>,
                     ghost bs: seq<Block>, ghost b: Block)
      returns (ghost e': Block, ghost a': seq<Block>)
      requires Seg(mem, a + [e] + c, r.lo, r.hi, 0, 0) && 0 < r.lo && e.at == block == b.at && e.free
      requires Careful(mem0, mem, bs, b) && a <= bs && forall d | d in c :: d in bs
      modifies this`mem
      ensures Seg(mem, a' + [e'] + c, r.lo, r.hi, 0, 0) && e'.free
      ensures (a' == a && (a == [] || !a[|a| - 1].free)) || (a != [] && a' == a[..|a| - 1] && a[|a| - 1].free)
      ensures Careful(mem0, mem, bs, b)
    {
      SegAround(mem, a, e, c, r.lo, r.hi);
      hide Seg, Careful, MergeWrites;
      e', a' := e, a;
      var prev := mem[block + 2];
      PrevHeader(mem, a, e, c, r.lo, r.hi);
      if prev != 0 {
        ghost var p, rest := a[|a| - 1], a[..|a| - 1];
        Around2(mem, rest, p, e, c, r.lo, r.hi);
        if mem[prev + 3] == 1 {
          ghost var was := mem;
          WriteMerge(prev, block, p, e, First(c, 0));
          MergeKeeps(was, mem, rest, p, e, c, r.lo, r.hi);
          e', a' := Block(p.at, p.size + e.size + HEADER, true), rest;
          assert bs[|a| - 1] == p;
          MergeCareful(mem0, was, mem, bs, b, p, e, First(c, 0));
        }
      }
    }

    /** The stores by which the block at `x` swallows its successor at `y`. */
    method WriteMerge(x: nat, y: nat, ghost b: Block, ghost d: Block, ghost after: nat)
      requires b.at == x && d.at == y == End(b) && End(d) <= |mem| && mem[x] == b.size && mem[y] == d.size
      requires mem[y + 1] == after
      requires after != 0 ==> End(d) == after && after + HEADER <= |mem|
      modifies this`mem
      ensures MergeWrites(old(mem), mem, b, d, after)
    {
      mem := mem[x := mem[x] + mem[y] + HEADER];
      mem := mem[x + 1 := mem[y + 1]];
      if mem[x + 1] != 0 {
        mem := mem[mem[x + 1] + 2 := x];
      }
    }
  }

  /** Only the end of the list is null. */
  lemma ZeroEnds(mem: seq<nat>, a: seq<Block>, c: seq<Block>, lo: nat, hi: nat)
    requires ListOk(mem, a + c, lo, hi)
    ensures First(c, 0) == 0 <==> c == []
  {
    SegSplit(mem, a, c, lo, hi, 0, 0);
  }

  lemma NextHeader(mem: seq<nat>, a: seq<Block>, b: Block, c: seq<Block>, lo: nat, hi: nat)
    requires Seg(mem, a + [b] + c, lo, hi, 0, 0) && 0 < lo
    ensures First(c, 0) != 0 ==> First(c, 0) + HEADER <= |mem| && First(c, 0) == End(b) && c != []
  {
    SegAround(mem, a, b, c, lo, hi);
    if c != [] {
      SegBounds(mem, c, End(b), hi, b.at, 0);
    }
  }

  lemma SplitCareful(mem: seq<nat>, mem': seq<nat>, a: seq<Block>, b: Block, c: seq<Block>, n: nat)
    requires SplitWrites(mem, mem', b, n, First(c, 0))
    ensures Careful(mem, mem', a + [b] + c, b) && b in a + [b] + c
  {
    var bs := a + [b] + c;
    assert bs[|a|] == b;
    if c != [] {
      assert bs[|a| + 1] == c[0] && IsHeader(c[0], c[0].at + 2);
    }
  }

  lemma FlagCareful(mem: seq<nat>, mem': seq<nat>, a: seq<Block>, b: Block, c: seq<Block>)
    requires b.at + 3 < |mem| == |mem'| && mem' == mem[b.at + 3 := mem'[b.at + 3]]
    ensures Careful(mem, mem', a + [b] + c, b) && b in a + [b] + c
  {
    assert (a + [b] + c)[|a|] == b;
  }

  lemma NoTwins(mem: seq<nat>, a: seq<Block>, b: Block, c: seq<Block>, lo: nat, hi: nat)
    requires Seg(mem, a + [b] + c, lo, hi, 0, 0)
    ensures b !in a && b !in c
  {
    SegAround(mem, a, b, c, lo, hi);
    SegBounds(mem, a, lo, b.at, 0, b.at);
    SegBounds(mem, c, End(b), hi, b.at, 0);
  }

  /** Two neighbours' headers. */
  lemma Around2(mem: seq<nat>, a: seq<Block>, b: Block, d: Block, c: seq<Block>, lo: nat, hi: nat)
    requires Seg(mem, a + [b] + ([d] + c), lo, hi, 0, 0) || Seg(mem, a + [b] + [d] + c, lo, hi, 0, 0)
    requires 0 < lo
    ensures a + [b] + ([d] + c) == a + [b] + [d] + c == a + [b, d] + c
    ensures End(b) == d.at && End(d) <= |mem| && Header(mem, b, Last(a, 0), d.at) && Header(mem, d, b.at, First(c, 0))
    ensures First(c, 0) != 0 ==> First(c, 0) + HEADER <= |mem| && First(c, 0) == End(d)
  {
    assert a + [b] + ([d] + c) == a + [b] + [d] + c == a + [b, d] + c == (a + [b]) + [d] + c;
    SegAround(mem, a, b, [d] + c, lo, hi);
    SegAround(mem, a + [b], d, c, lo, hi);
    NextHeader(mem, a + [b], d, c, lo, hi);
  }

  lemma PrevHeader(mem: seq<nat>, a: seq<Block>, e: Block, c: seq<Block>, lo: nat, hi: nat)
    requires Seg(mem, a + [e] + c, lo, hi, 0, 0) && 0 < lo
    ensures Last(a, 0) == 0 <==> a == []
    ensures a != [] ==> a + [e] + c == a[..|a| - 1] + [a[|a| - 1]] + [e] + c
  {
    SegBounds(mem, a + [e] + c, lo, hi, 0, 0);
    if a != [] {
      assert (a + [e] + c)[|a| - 1] == a[|a| - 1];
      assert a == a[..|a| - 1] + [a[|a| - 1]];
    }
  }

  /** Merging stays within `b`'s extent and the headers of the blocks there were at the start. */
  lemma MergeCareful(mem0: seq<nat>, mem: seq<nat>, mem': seq<nat>, bs: seq<Block>, b: Block, x: Block, d: Block,
                     after: nat)
    requires Careful(mem0, mem, bs, b) && MergeWrites(mem, mem', x, d, after)
    requires x.at == b.at || x in bs
    requires after != 0 ==> exists y :: y in bs && y.at == after
    ensures Careful(mem0, mem', bs, b)
  {
    if x in bs {
      assert IsHeader(x, x.at) && IsHeader(x, x.at + 1);
    }
    if after != 0 {
      var y :| y in bs && y.at == after;
      assert IsHeader(y, after + 2);
    }
  }

  /** Merging free blocks neither adds nor removes a block in use. */
  lemma SameUsed(a: seq<Block>, b: Block, c: seq<Block>, a': seq<Block>, e: Block, c': seq<Block>)
    requires b !in a && b !in c && e.free
    requires (a' == a) || (a != [] && a' == a[..|a| - 1] && a[|a| - 1].free)
    requires (c' == c) || (c != [] && c' == c[1..] && c[0].free)
    ensures forall d :: d in a' + [e] + c' && !d.free <==> d in a + [b] + c && !d.free && d != b
  {
    assert a != [] ==> a == a[..|a| - 1] + [a[|a| - 1]];
    assert c != [] ==> c == [c[0]] + c[1..];
  }

  datatype Op = Get(size: nat, align: nat) | Give(i: nat) | Resize(i: nat, size: nat, align: nat)

  /** The pointers held are the live payloads, each once. */
  ghost predicate Holds(held: seq<nat>, live: map<nat, Backing>) {
    Distinct(held) && forall p :: p in held <==> p in live
  }

  lemma NotNull(mem: seq<nat>, heads: seq<nat>, v: View, arenaPtr: nat, r: Region, p: nat)
    requires Meta(mem, heads, v, arenaPtr, r) && p in v.live
    ensures p != 0
  {
    LivePlace(v, arenaPtr, r, p);
  }

  /** Freeing everything does not restore the large list: in a heap of `4 * n` words that can hold a slab of 8-byte
      blocks, filling the arena with them, taking one more and freeing them all leaves the slab in use. */
  method SlabStays(n: nat) returns (h: Heap)
    requires n >= HEADER + 2 * SLAB
    ensures fresh(h) && h.Valid() && h.v.live == map[] && h.r.lo + HEADER <= h.r.hi && h.blocks != Whole(h.r)
  {
    hide Seg, Meta, Used, Coalesced, SameContents, Grown, Shrunk, Slabs, Whole;
    h := new Heap(2, 4 * n);
    ghost var whole := h.blocks;
    var held: seq<nat> := [];
    assert Words(0) == 1;
    while h.arenaPtr + 2 <= h.arenaEnd
      invariant fresh(h) && h.Valid() && Holds(held, h.v.live) && h.blocks == whole && h.heads == seq(BUCKETS, _ => 0)
      decreases h.arenaEnd - h.arenaPtr
    {
      ghost var v0, mem0 := h.v, h.mem;
      var p := h.AllocSmall(0);
      HoldsMore(held, mem0, h.mem, v0, h.v, p);
      held := held + [p];
    }
    ghost var v0, mem0 := h.v, h.mem;
    assert whole[0] in h.blocks;
    var p := h.AllocSmall(0);
    HoldsMore(held, mem0, h.mem, v0, h.v, p);
    held := held + [p];
    Cut(v0.use, h.v.use);
    while held != []
      invariant fresh(h) && h.Valid() && Holds(held, h.v.live) && Slabs(h.v.use) != {}
      decreases |held|
    {
      held := h.Do(held, Give(0));
    }
    AllReturned(h.mem, h.heads, h.blocks, h.v, h.arenaPtr, h.r);
  }

  lemma HoldsMore(held: seq<nat>, mem: seq<nat>, mem': seq<nat>, v: View, v': View, p: nat)
    requires Holds(held, v.live) && Grown(mem, mem', v, v', p)
    ensures Holds(held + [p], v'.live)
  {
  }

  lemma Cut(use: Uses, use': Uses)
    requires OneMore(use, use')
    ensures Slabs(use') != {}
  {
    var at :| at in use' && at !in use && use'[at].Slab? && use' == use[at := use'[at]];
    assert at in Slabs(use');
  }
}
