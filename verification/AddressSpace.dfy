/** Per-process page tables.

    `own` is the tree of frames the space has taken, flattened: the empty path is
    the PML4, a path of one to three indices is a table, a path of four is a
    mapped page. Virtual addresses are page numbers.
  */
module AddressSpace {
  import opened Basics
  import opened Frames
  import opened TableTree

  const USER_FIRST: nat := 128
  const USER_END: nat := 256

  /** The slots of a table that belong to the space: for the PML4 only the user slots. */
  predicate Slot(p: Path, i: nat) { i < ENTRIES && (p == [] ==> USER_FIRST <= i < USER_END) }

  ghost predicate Shape(own: Tree) {
    && [] in own
    && (forall p | p in own :: |p| <= 4)
    && (forall p | p in own && p != [] :: p[..|p| - 1] in own && Slot(p[..|p| - 1], p[|p| - 1]))
  }

  ghost predicate Injective(own: Tree) {
    forall p, q | p in own && q in own && own[p] == own[q] :: p == q
  }

  /** The entries of the table at `p` that belong to the space are present exactly for the frames below it. */
  ghost predicate TableOk(mem: seq<Frame>, own: Tree, p: Path)
    requires p in own
  {
    && own[p] < |mem| && |mem[own[p]]| == ENTRIES
    && (forall i | 0 <= i < ENTRIES && Slot(p, i) :: mem[own[p]][i].present <==> p + [i] in own)
    && (forall i | 0 <= i < ENTRIES && Slot(p, i) && p + [i] in own :: mem[own[p]][i].frame == own[p + [i]])
  }

  ghost predicate Tables(mem: seq<Frame>, own: Tree) {
    forall p | p in own && |p| < 4 :: TableOk(mem, own, p)
  }

  ghost predicate TreeOk(mem: seq<Frame>, own: Tree, used: set<nat>) {
    Shape(own) && Injective(own) && Tables(mem, own) && forall p | p in own :: own[p] in used
  }

  /** The frames the space has taken. */
  ghost function Taken(own: Tree): set<nat> { set p | p in own :: own[p] }

  // ---- Growing the tree -----------------------------------------------------------------------------

  /** A new frame below `p`: an empty table, or a page. */
  lemma AddShape(own: Tree, p: Path, i: nat, f: nat)
    requires Shape(own) && p in own && |p| < 4 && Slot(p, i) && p + [i] !in own
    ensures Shape(own[p + [i] := f])
  {
    assert (p + [i])[..|p + [i]| - 1] == p;
  }

  lemma NothingBelow(own: Tree, q: Path, j: nat)
    requires Shape(own) && q !in own
    ensures q + [j] !in own
  {
    assert (q + [j])[..|q + [j]| - 1] == q;
  }

  /** A table other than the new one, after `f` has been hung below `p`. */
  lemma OldTable(mem: seq<Frame>, mem': seq<Frame>, own: Tree, q: Path, p: Path, i: nat, f: nat, w: Word)
    requires q in own && p in own && TableOk(mem, own, q) && q != p + [i] && i < ENTRIES && w.present && w.frame == f
    requires |mem'| == |mem|
    requires if q == p then mem'[own[q]] == mem[own[q]][i := w] else mem'[own[q]] == mem[own[q]]
    ensures TableOk(mem', own[p + [i] := f], q)
  {
    var own' := own[p + [i] := f];
    forall j | 0 <= j < ENTRIES
      ensures q + [j] in own' <==> q + [j] in own || (q == p && j == i)
      ensures q + [j] in own && !(q == p && j == i) ==> own'[q + [j]] == own[q + [j]]
    {
      PathsDiffer(q, j, p, i);
    }
  }

  lemma NewTable(mem: seq<Frame>, own: Tree, q: Path, f: nat)
    requires Shape(own) && q !in own && f < |mem| && mem[f] == ZeroFrame()
    ensures TableOk(mem, own[q := f], q)
  {
    forall j | 0 <= j < ENTRIES
      ensures q + [j] !in own[q := f]
    {
      NothingBelow(own, q, j);
      assert |q + [j]| != |q|;
    }
  }

  lemma AddTable(mem: seq<Frame>, mem': seq<Frame>, own: Tree, p: Path, i: nat, f: nat, w: Word, used: set<nat>)
    requires TreeOk(mem, own, used) && p in own && |p| < 4 && Slot(p, i) && p + [i] !in own && f < |mem|
    requires forall q | q in own :: own[q] != f
    requires |mem'| == |mem| && w.present && w.frame == f && own[p] < |mem| && |mem[own[p]]| == ENTRIES
    requires mem'[own[p]] == mem[own[p]][i := w]
    requires (forall g | 0 <= g < |mem| && g != own[p] && g != f :: mem'[g] == mem[g])
    requires |p| < 3 ==> mem'[f] == ZeroFrame()
    ensures TreeOk(mem', own[p + [i] := f], used + {f})
  {
    hide TableOk, Shape;
    AddShape(own, p, i, f);
    forall q | q in own[p + [i] := f] && |q| < 4
      ensures TableOk(mem', own[p + [i] := f], q)
    {
      if q == p + [i] {
        NewTable(mem', own, q, f);
      } else {
        TableFits(mem, own, q);
        OldTable(mem, mem', own, q, p, i, f, w);
      }
    }
  }

  lemma TableFits(mem: seq<Frame>, own: Tree, q: Path)
    requires Tables(mem, own) && q in own && |q| < 4
    ensures TableOk(mem, own, q) && own[q] < |mem| && |mem[own[q]]| == ENTRIES
  {
  }

  // ---- Virtual addresses --------------------------------------------------------------------------

  /** The table indices of a page number. */
  function PathOf(page: nat): (p: Path)
    ensures |p| == 4
  {
    [page / 0x800_0000 % 512, page / 0x4_0000 % 512, page / 0x200 % 512, page % 512]
  }

  /** USER_SPACE_START..USER_SPACE_END, in pages. */
  predicate UserPage(page: nat) { 0x4_0000_0000 <= page < 0x8_0000_0000 }

  const HEAP_BASE: nat := 0x7_0000_0000
  const HEAP_LIMIT: nat := 0x7_0001_0000

  lemma UserSlots(page: nat)
    requires UserPage(page)
    ensures var p := PathOf(page); Slot([], p[0]) && p[1] < ENTRIES && p[2] < ENTRIES && p[3] < ENTRIES
  {
  }

  /** Different pages have different paths. */
  lemma PathInjective(x: nat, y: nat)
    requires UserPage(x) && UserPage(y) && PathOf(x) == PathOf(y)
    ensures x == y
  {
    var p, q := PathOf(x), PathOf(y);
    assert p[0] == q[0] && p[1] == q[1] && p[2] == q[2] && p[3] == q[3];
    PageOf(x);
    PageOf(y);
  }

  lemma PageOf(x: nat)
    requires UserPage(x)
    ensures var p := PathOf(x); x == ((p[0] * 512 + p[1]) * 512 + p[2]) * 512 + p[3]
  {
    var a := x / 512;
    var b := a / 512;
    assert x / 0x4_0000 == b && x / 0x800_0000 == b / 512;
  }

  // ---- What an operation may do ----------------------------------------------------------------------

  /** The tree has grown by frames nobody had, and exactly those are now in use as well. */
  ghost predicate Extends(own: Tree, own': Tree, used: set<nat>, used': set<nat>) {
    && (forall p | p in own :: p in own' && own'[p] == own[p])
    && (forall p | p in own' && p !in own :: own'[p] !in used)
    && used' == used + Taken(own')
  }

  /** Frames in use by others hold what they held. */
  ghost predicate Spared(mem: seq<Frame>, mem': seq<Frame>, used: set<nat>, own: Tree) {
    |mem'| == |mem| && forall g | 0 <= g < |mem| && g in used && g !in Taken(own) :: mem'[g] == mem[g]
  }

  lemma ExtendsTrans(o0: Tree, o1: Tree, o2: Tree, u0: set<nat>, u1: set<nat>, u2: set<nat>)
    requires Extends(o0, o1, u0, u1) && Extends(o1, o2, u1, u2)
    ensures Extends(o0, o2, u0, u2)
  {
    forall p | p in o1
      ensures o1[p] in Taken(o1) && o1[p] in Taken(o2)
    {
      assert p in o2;
    }
    forall f | f in Taken(o1)
      ensures f in Taken(o2)
    {
      var p :| p in o1 && o1[p] == f;
      assert p in o2 && o2[p] == f;
    }
  }

  lemma SparedTrans(m0: seq<Frame>, m1: seq<Frame>, m2: seq<Frame>, o0: Tree, o1: Tree, u0: set<nat>, u1: set<nat>)
    requires Spared(m0, m1, u0, o0) && Spared(m1, m2, u1, o1) && Extends(o0, o1, u0, u1)
    ensures Spared(m0, m2, u0, o0)
  {
    forall g | g in u0 && g in Taken(o1)
      ensures g in Taken(o0)
    {
      var p :| p in o1 && o1[p] == g;
    }
  }

  lemma ExtendsSelf(mem: seq<Frame>, own: Tree, used: set<nat>)
    requires forall p | p in own :: own[p] in used
    ensures Extends(own, own, used, used) && Spared(mem, mem, used, own)
  {
  }

  lemma ExtendsOne(own: Tree, used: set<nat>, q: Path, f: nat)
    requires (forall p | p in own :: own[p] in used) && q !in own && f !in used
    ensures Extends(own, own[q := f], used, used + {f})
  {
    var own' := own[q := f];
    assert own'[q] in Taken(own');
    forall g | g in Taken(own')
      ensures g in used + {f}
    {
      var p :| p in own' && own'[p] == g;
    }
  }

  /** A PML4 whose user slots are all absent. */
  ghost predicate Prepared(mem: seq<Frame>, root: nat) {
    root < |mem| && |mem[root]| == ENTRIES && forall i | USER_FIRST <= i < USER_END :: !mem[root][i].present
  }

  /** AddressSpace::new up to building the value: a PML4 that shares every kernel slot. */
  method CreateRoot(pool: FramePool, kernel: nat) returns (r: Option<nat>)
    requires pool.Valid() && kernel < |pool.mem| && kernel !in pool.free
    requires Passed(pool.map_, pool.index, pool.offset, kernel)
    modifies pool
    ensures pool.Valid() && |pool.mem| == |old(pool.mem)|
    ensures r.None? <==> old(pool.Left()) == {}
    ensures r.None? ==> pool.used == old(pool.used) && pool.mem == old(pool.mem)
    ensures r.Some? ==>
              r.value !in old(pool.used) && pool.used == old(pool.used) + {r.value} && Prepared(pool.mem, r.value)
    ensures r.Some? ==>
              forall i | 0 <= i < ENTRIES && !(USER_FIRST <= i < USER_END) ::
                pool.mem[r.value][i] == old(pool.mem)[kernel][i]
    ensures r.Some? ==> forall g | 0 <= g < |pool.mem| && g in old(pool.used) :: pool.mem[g] == old(pool.mem)[g]
  {
    hide Passed;
    r := pool.AllocFrame();
    if r.None? {
      return;
    }
    var root := r.value;
    for i := 0 to ENTRIES
      invariant pool.Valid() && |pool.mem| == |old(pool.mem)| && pool.used == old(pool.used) + {root}
      invariant |pool.mem[root]| == ENTRIES
      invariant forall g | 0 <= g < |pool.mem| && g != root :: pool.mem[g] == old(pool.mem)[g]
      invariant forall j | 0 <= j < ENTRIES && !(USER_FIRST <= j < USER_END) && j < i ::
                pool.mem[root][j] == old(pool.mem)[kernel][j]
      invariant forall j | USER_FIRST <= j < USER_END :: !pool.mem[root][j].present
    {
      if !(USER_FIRST <= i < USER_END) {
        pool.Write(root, i, pool.mem[kernel][i]);
      }
    }
  }

  /** What an entry says about the tree. */
  lemma EntryOf(mem: seq<Frame>, own: Tree, used: set<nat>, p: Path, i: nat)
    requires TreeOk(mem, own, used) && p in own && |p| < 4 && Slot(p, i)
    ensures own[p] < |mem| && |mem[own[p]]| == ENTRIES && own[p] in used && (forall q | q in own :: own[q] in used)
    ensures mem[own[p]][i].present <==> p + [i] in own
    ensures p + [i] in own ==> mem[own[p]][i].frame == own[p + [i]]
  {
    assert TableOk(mem, own, p);
  }

  /** A fresh, zeroed frame is hung below `p`. */
  lemma HangStep(mem: seq<Frame>, own: Tree, used: set<nat>, p: Path, i: nat, f: nat, w: Word)
    requires TreeOk(mem, own, used) && p in own && |p| < 4 && Slot(p, i) && p + [i] !in own && f !in used && f < |mem|
    requires w.present && w.frame == f
    ensures own[p] < |mem| && |mem[own[p]]| == ENTRIES && own[p] != f
    ensures var mem' := mem[f := ZeroFrame()][own[p] := mem[own[p]][i := w]];
            var own' := own[p + [i] := f];
            TreeOk(mem', own', used + {f}) && Extends(own, own', used, used + {f}) && Spared(mem, mem', used, own)
  {
    EntryOf(mem, own, used, p, i);
    ExtendsOne(own, used, p + [i], f);
    var mem' := mem[f := ZeroFrame()][own[p] := mem[own[p]][i := w]];
    AddTable(mem, mem', own, p, i, f, w, used);
    assert own[p] in Taken(own);
    hide TreeOk, Extends;
  }

  /** The tree depends only on its own frames. */
  lemma TreeFrame(mem: seq<Frame>, mem': seq<Frame>, own: Tree, used: set<nat>, used': set<nat>)
    requires TreeOk(mem, own, used) && |mem'| == |mem| && forall p | p in own :: own[p] in used'
    requires forall p | p in own && own[p] < |mem| :: mem'[own[p]] == mem[own[p]]
    ensures TreeOk(mem', own, used')
  {
    forall p | p in own && |p| < 4
      ensures TableOk(mem', own, p)
    {
      assert TableOk(mem, own, p);
    }
  }

  /** The only additions are tables on the way to `path`. */
  ghost predicate TablesFor(own: Tree, own': Tree, path: Path) {
    forall q | q in own' && q !in own :: 1 <= |q| <= 3 && q <= path
  }

  lemma TablesTrans(o0: Tree, o1: Tree, o2: Tree, path: Path, d: nat)
    requires |path| == 4 && d < 3 && TablesFor(o0, o1, path)
    requires forall q | q in o2 && q !in o1 :: q == path[..d] + [path[d]]
    ensures TablesFor(o0, o2, path)
  {
    assert path[..d] + [path[d]] == path[..d + 1] <= path;
  }

  function Pages(bytes: nat): nat { (bytes + 4095) / 4096 }

  /** The tables the pages [from, to) still need. */
  ghost function MissingIn(own: Tree, from: nat, end: nat): set<Path>
    requires from <= end
    decreases end
  {
    if from == end then {} else MissingIn(own, from, end - 1) + Missing(own, PathOf(end - 1))
  }

  lemma FiveKeys(own: Tree, own': Tree, path: Path)
    requires |path| == 4 && |own| == 1 && own'.Keys == own.Keys + Missing(own, path) + {path}
    ensures |own'| <= 5
  {
    ThreeMissing(own, path);
    assert |own.Keys| == 1;
  }

  lemma NoneMissing(own: Tree, page: nat)
    requires PathOf(page)[..3] in own && PathOf(page)[..2] in own && PathOf(page)[..1] in own
    ensures MissingIn(own, page, page + 1) == {}
  {
    hide PathOf;
    assert MissingIn(own, page, page) == {};
    assert UpTo(PathOf(page), 3) == {PathOf(page)[..1], PathOf(page)[..2], PathOf(page)[..3]} by {
      assert UpTo(PathOf(page), 0) == {} && UpTo(PathOf(page), 1) == {PathOf(page)[..1]};
      assert UpTo(PathOf(page), 2) == {PathOf(page)[..1], PathOf(page)[..2]};
    }
  }

  lemma TableIsNoPage(own: Tree, own': Tree, path: Path)
    requires |path| == 4 && TablesFor(own, own', path)
    ensures path in own' ==> path in own
  {
  }

  lemma {:induction false} MissingGrows(own: Tree, from: nat, v: nat, end: nat)
    requires from <= v <= end
    ensures MissingIn(own, from, v) <= MissingIn(own, from, end)
    decreases end
  {
    if v < end {
      MissingGrows(own, from, v, end - 1);
    }
  }

  /** The tables for the pages [from, v) have been added. */
  ghost predicate AllIn(own: Tree, own': Tree, from: nat, v: nat) {
    from <= v && own'.Keys == own.Keys + MissingIn(own, from, v)
  }

  lemma AllInStart(own: Tree, from: nat)
    ensures AllIn(own, own, from, from)
  {
  }

  lemma AllInStep(own: Tree, o1: Tree, own': Tree, from: nat, v: nat)
    requires AllIn(own, o1, from, v) && own'.Keys == o1.Keys + Missing(o1, PathOf(v))
    ensures AllIn(own, own', from, v + 1)
  {
    assert own'.Keys == own.Keys + (MissingIn(own, from, v) + Missing(own, PathOf(v)));
  }

  lemma AllInDone(own: Tree, own': Tree, from: nat, v: nat)
    requires AllIn(own, own', from, v)
    ensures |own'| == |own| + |MissingIn(own, from, v)|
  {
    KeysCard(own, own', MissingIn(own, from, v));
    MissingApart(own, from, v);
    assert MissingIn(own, from, v) - own.Keys == MissingIn(own, from, v);
  }

  lemma {:induction false} MissingApart(own: Tree, from: nat, v: nat)
    requires from <= v
    ensures MissingIn(own, from, v) !! own.Keys
    decreases v
  {
    if from < v {
      MissingApart(own, from, v - 1);
    }
  }

  /** Stopped at page `v`: more tables were missing than there were frames. */
  lemma AllInShort(own: Tree, o1: Tree, from: nat, v: nat, end: nat)
    requires AllIn(own, o1, from, v) && v < end
    ensures |o1| - |own| + |Missing(o1, PathOf(v))| <= |MissingIn(own, from, end)|
  {
    hide MissingIn, UpTo, PathOf;
    AllInDone(own, o1, from, v);
    MissingGrows(own, from, v + 1, end);
    Smaller(MissingIn(own, from, v + 1), MissingIn(own, from, end));
    MissingNext(own, from, v);
    Added(own.Keys, MissingIn(own, from, v), UpTo(PathOf(v), 3));
  }

  lemma MissingNext(own: Tree, from: nat, v: nat)
    requires from <= v
    ensures MissingIn(own, from, v + 1) == MissingIn(own, from, v) + Missing(own, PathOf(v))
  {
  }

  lemma Added(k: set<Path>, a: set<Path>, u: set<Path>)
    ensures |a + (u - k)| >= |a| + |u - (k + a)|
  {
    var b := u - (k + a);
    assert a !! b;
    Smaller(a + b, a + (u - k));
  }

  lemma HeapPage(v: nat)
    requires HEAP_BASE <= v < HEAP_LIMIT
    ensures UserPage(v)
  {
  }

  class AddressSpace {
    const pool: FramePool
    const pml4: nat
    var heapEnd: nat
    ghost var own: Tree

    ghost predicate Valid()
      reads this, pool
    {
      pool.Valid() && TreeOk(pool.mem, own, pool.used) && own[[]] == pml4 && HEAP_BASE <= heapEnd <= HEAP_LIMIT
    }

    /** A space around a prepared PML4: no user slot is present. */
    constructor (frames: FramePool, root: nat)
      requires frames.Valid() && root in frames.used && Prepared(frames.mem, root)
      ensures Valid() && pool == frames && pml4 == root && own == map[[] := root] && heapEnd == HEAP_BASE
    {
      pool, pml4, heapEnd, own := frames, root, HEAP_BASE, map[[] := root];
      new;
      forall i | 0 <= i < ENTRIES
        ensures [] + [i] !in own
      {
        assert |[i]| != 0;
      }
    }

    /** Make sure slot `i` of the table at `p` holds a table, and return that table. */
    method Descend(ghost p: Path, table: nat, i: nat) returns (r: Option<nat>)
      requires Valid() && p in own && own[p] == table && |p| < 3 && Slot(p, i)
      modifies this`own, pool
      ensures |pool.mem| == |old(pool.mem)|
      ensures Valid() && Extends(old(own), own, old(pool.used), pool.used)
      ensures Spared(old(pool.mem), pool.mem, old(pool.used), old(own))
      ensures forall q | q in own && q !in old(own) :: q == p + [i]
      ensures r.Some? ==> p + [i] in own && own[p + [i]] == r.value && own.Keys == old(own).Keys + {p + [i]}
      ensures p + [i] in old(own) ==> own == old(own) && pool.mem == old(pool.mem) && pool.used == old(pool.used)
      ensures r.None? <==> p + [i] !in old(own) && old(pool.Left()) == {}
      ensures r.None? ==> own == old(own) && pool.used == old(pool.used)
      ensures |own| + |pool.Left()| == old(|own| + |pool.Left()|)
    {
      hide FramePool.Valid, TreeOk, Extends, Spared, Passed, FramePool.Left;
      EntryOf(pool.mem, own, pool.used, p, i);
      ExtendsSelf(pool.mem, own, pool.used);
      if !pool.mem[table][i].present {
        ghost var mem0, used0 := pool.mem, pool.used;
        var f := pool.AllocFrame();
        if f.None? {
          return None;
        }
        HangStep(mem0, own, used0, p, i, f.value, TableEntry(f.value));
        pool.Write(table, i, TableEntry(f.value));
        own := own[p + [i] := f.value];
        EntryOf(pool.mem, own, pool.used, p, i);
      }
      return Some(pool.mem[table][i].frame);
    }

    /** leaf_table: the table `page` belongs in, with the tables above it; missing ones are added. */
    method LeafTable(page: nat) returns (r: Option<nat>)
      requires Valid()
      modifies this`own, pool
      ensures |pool.mem| == |old(pool.mem)|
      ensures Valid() && Extends(old(own), own, old(pool.used), pool.used)
      ensures Spared(old(pool.mem), pool.mem, old(pool.used), old(own))
      ensures TablesFor(old(own), own, PathOf(page))
      ensures r.Some? ==> UserPage(page) && PathOf(page)[..3] in own && own[PathOf(page)[..3]] == r.value
      ensures UserPage(page) && PathOf(page)[..3] in old(own) ==>
                r.Some? && own == old(own) && pool.mem == old(pool.mem) && pool.used == old(pool.used)
      ensures r.Some? <==> UserPage(page) && |old(pool.Left())| >= |Missing(old(own), PathOf(page))|
      ensures r.Some? ==> own.Keys == old(own).Keys + Missing(old(own), PathOf(page))
      ensures |own| + |pool.Left()| == old(|own| + |pool.Left()|)
    {
      hide FramePool.Valid, TreeOk, Extends, Spared, PathOf, TablesFor, FramePool.Left, Filled, Missing;
      TreeRoot(pool.mem, own, pool.used);
      ExtendsSelf(pool.mem, own, pool.used);
      TablesSelf(own, PathOf(page));
      if !UserPage(page) {
        return None;
      }
      UserSlots(page);
      PrefixesOwned(pool.mem, own, pool.used, PathOf(page));
      var path, table := PathOf(page), pml4;
      FilledStart(own, path);
      for d := 0 to 3
        invariant Valid() && Extends(old(own), own, old(pool.used), pool.used)
        invariant Spared(old(pool.mem), pool.mem, old(pool.used), old(own))
        invariant TablesFor(old(own), own, path) && path[..d] in own && own[path[..d]] == table
        invariant |pool.mem| == |old(pool.mem)|
        invariant path[..3] in old(own) ==> own == old(own) && pool.mem == old(pool.mem) && pool.used == old(pool.used)
        invariant Filled(old(own), own, path, d) && |own| + |pool.Left()| == old(|own| + |pool.Left()|)
      {
        ghost var m1, o1, u1 := pool.mem, own, pool.used;
        assert path[..d] + [path[d]] == path[..d + 1];
        var t := Descend(path[..d], table, path[d]);
        ExtendsTrans(old(own), o1, own, old(pool.used), u1, pool.used);
        SparedTrans(old(pool.mem), m1, pool.mem, old(own), o1, old(pool.used), u1);
        TablesTrans(old(own), o1, own, path, d);
        if t.None? {
          ShortOf(old(own), own, path, d);
          return None;
        }
        FilledStep(old(own), o1, own, path, d);
        table := t.value;
      }
      FilledDone(old(own), own, path);
      return Some(table);
    }

    /** map: `w` goes into the page's slot unless something is there already. The frame is the caller's: in use, but
        nowhere in the tree. */
    method Map(page: nat, w: Word) returns (ok: bool)
      requires Valid() && w.present && w.frame in pool.used && w.frame !in Taken(own) && w.frame < |pool.mem|
      modifies this`own, pool
      ensures |pool.mem| == |old(pool.mem)|
      ensures Valid() && Spared(old(pool.mem), pool.mem, old(pool.used), old(own)) && w.frame in pool.used
      ensures Extends(old(own), own, old(pool.used) - {w.frame}, if ok then pool.used else pool.used - {w.frame})
      ensures var need := |Missing(old(own), PathOf(page))|;
              ok <==> UserPage(page) && PathOf(page) !in old(own) && |old(pool.Left())| >= need
      ensures ok ==> PathOf(page) in own && own[PathOf(page)] == w.frame
      ensures |own| + |pool.Left()| == old(|own| + |pool.Left()|) + if ok then 1 else 0
      ensures ok ==> own.Keys == old(own).Keys + Missing(old(own), PathOf(page)) + {PathOf(page)}
      ensures ok ==> TablesFor(old(own), own - {PathOf(page)}, PathOf(page))
      ensures !ok ==> TablesFor(old(own), own, PathOf(page)) && w.frame !in Taken(own)
      ensures UserPage(page) && PathOf(page)[..3] in old(own) ==>
                && (ok <==> PathOf(page) !in old(own))
                && own == (if ok then old(own)[PathOf(page) := w.frame] else old(own))
                && pool.used == old(pool.used)
                && forall g | 0 <= g < |pool.mem| && g != old(own)[PathOf(page)[..3]] :: pool.mem[g] == old(pool.mem)[g]
    {
      hide FramePool.Valid, TreeOk, Extends, Spared, PathOf, TablesFor, Taken, Missing, FramePool.Left, FramePool.Total;
      var f := w.frame;
      var table := LeafTable(page);
      KeepApart(old(own), own, old(pool.used), pool.used, f);
      if table.None? {
        return false;
      }
      ghost var path, m1, o1 := PathOf(page), pool.mem, own;
      TableIsNoPage(old(own), own, path);
      ok := Put(page, table.value, w);
      if ok {
        PlaceExtends(old(pool.mem), m1, pool.mem, old(own), o1, old(pool.used), pool.used, path, f);
      }
    }

    /** The end of map: the slot of the page's own table is filled if it is empty. */
    method Put(page: nat, table: nat, w: Word) returns (ok: bool)
      requires Valid() && w.present && w.frame in pool.used && w.frame !in Taken(own) && w.frame < |pool.mem|
      requires UserPage(page) && PathOf(page)[..3] in own && own[PathOf(page)[..3]] == table
      modifies this`own, pool
      ensures Valid() && table < |old(pool.mem)| && (ok <==> PathOf(page) !in old(own))
      ensures own == if ok then old(own)[PathOf(page) := w.frame] else old(own)
      ensures |pool.mem| == |old(pool.mem)| && pool.mem == old(pool.mem)[table := pool.mem[table]]
      ensures (!ok ==> pool.mem == old(pool.mem))
      ensures pool.used == old(pool.used) && pool.Left() == old(pool.Left())
    {
      hide FramePool.Valid, TreeOk, PathOf, Taken, FramePool.Left, FramePool.Total;
      ghost var path := PathOf(page);
      UserSlots(page);
      assert path[..3] + [path[3]] == path;
      EntryOf(pool.mem, own, pool.used, path[..3], path[3]);
      PrefixesOwned(pool.mem, own, pool.used, path);
      var i := PathOf(page)[3];
      if pool.mem[table][i].present {
        return false;
      }
      PlaceStep(pool.mem, own, pool.used, path[..3], path[3], w);
      pool.Write(table, i, w);
      own := own[path := w.frame];
      return true;
    }

    /** map_new_page: a fresh zeroed page, or no page and nothing kept but intermediate tables. */
    method MapNewPage(page: nat, writable: bool, executable: bool) returns (r: Option<nat>)
      requires Valid()
      modifies this`own, pool
      ensures |pool.mem| == |old(pool.mem)|
      ensures Valid() && Extends(old(own), own, old(pool.used), pool.used)
      ensures Spared(old(pool.mem), pool.mem, old(pool.used), old(own))
      ensures r.Some?
              <==> UserPage(page) && PathOf(page) !in old(own) && |old(pool.Left())| > |Missing(old(own), PathOf(page))|
      ensures r.Some? ==> PathOf(page) in own && own[PathOf(page)] == r.value
      ensures |own| + |pool.Left()| == old(|own| + |pool.Left()|)
      ensures r.Some? ==> own.Keys == old(own).Keys + Missing(old(own), PathOf(page)) + {PathOf(page)}
      ensures r.Some? ==>
                && r.value < |pool.mem| && pool.mem[r.value] == ZeroFrame()
                && TablesFor(old(own), own - {PathOf(page)}, PathOf(page))
      ensures r.None? ==> TablesFor(old(own), own, PathOf(page))
    {
      hide FramePool.Valid, TreeOk, Extends, Spared, PathOf, TablesFor, Taken, Missing, FramePool.Left;
      TreeRoot(pool.mem, own, pool.used);
      ExtendsSelf(pool.mem, own, pool.used);
      TablesSelf(own, PathOf(page));
      ghost var m0, u0 := pool.mem, pool.used;
      var frame := pool.AllocFrame();
      if frame.None? {
        return None;
      }
      var f := frame.value;
      ghost var m1 := pool.mem;
      AllocTree(m0, m1, own, u0, f);
      var ok := Map(page, Word(f, true, writable, true, false, !executable));
      ghost var m2 := pool.mem;
      OutsideSame(m1, m2, u0 + {f}, old(own), f);
      assert u0 + {f} - {f} == u0;
      if ok {
        PageSpared(m0, m1, m2, m2, old(own), u0, f);
        return Some(f);
      }
      ghost var u2 := pool.used;
      pool.FreeFrame(f);
      FreeTree(m2, pool.mem, own, u2, f);
      PageSpared(m0, m1, m2, pool.mem, old(own), u0, f);
      return None;
    }

    // ---- The heap -----------------------------------------------------------------------------

    /** grow_heap's first pass: every table the new pages need. */
    method ReserveTables(from: nat, to: nat) returns (ok: bool)
      requires Valid() && HEAP_BASE <= from <= to <= HEAP_LIMIT
      modifies this`own, pool
      ensures |pool.mem| == |old(pool.mem)|
      ensures Valid() && Extends(old(own), own, old(pool.used), pool.used)
      ensures Spared(old(pool.mem), pool.mem, old(pool.used), old(own))
      ensures OnlyTables(old(own), own)
      ensures ok ==> forall v: nat | from <= v < to :: PathOf(v)[..3] in own
      ensures ok <==> |old(pool.Left())| >= |MissingIn(old(own), from, to)|
      ensures ok ==> |pool.Left()| == |old(pool.Left())| - |MissingIn(old(own), from, to)|
    {
      hide FramePool.Valid, TreeOk, Extends, Spared, PathOf, OnlyTables, TablesFor, FramePool.Left, Missing,
           MissingIn, AllIn;
      AllInStart(own, from);
      TreeRoot(pool.mem, own, pool.used);
      ExtendsSelf(pool.mem, own, pool.used);
      OnlySelf(own);
      for v := from to to
        invariant Valid() && Extends(old(own), own, old(pool.used), pool.used)
        invariant Spared(old(pool.mem), pool.mem, old(pool.used), old(own))
        invariant OnlyTables(old(own), own) && |pool.mem| == |old(pool.mem)|
        invariant forall x: nat | from <= x < v :: PathOf(x)[..3] in own
        invariant AllIn(old(own), own, from, v) && |own| + |pool.Left()| == old(|own| + |pool.Left()|)
      {
        ghost var m1, o1, u1 := pool.mem, own, pool.used;
        var t := LeafTable(v);
        ExtendsTrans(old(own), o1, own, old(pool.used), u1, pool.used);
        SparedTrans(old(pool.mem), m1, pool.mem, old(own), o1, old(pool.used), u1);
        OnlyTrans(old(own), o1, own, PathOf(v));
        ExtendsKeeps(o1, own, u1, pool.used);
        if t.None? {
          HeapPage(v);
          AllInShort(old(own), o1, from, v, to);
          return false;
        }
        AllInStep(old(own), o1, own, from, v);
      }
      AllInDone(old(own), own, from, to);
      return true;
    }

    /** The second pass: `n` zeroed frames, chained through their first words, or none at all. */
    method ReserveFrames(n: nat) returns (ok: bool, head: nat, ghost chain: seq<nat>)
      requires Valid()
      modifies pool
      ensures |pool.mem| == |old(pool.mem)| && Valid()
      ensures forall g | 0 <= g < |pool.mem| && g in old(pool.used) :: pool.mem[g] == old(pool.mem)[g]
      ensures ok ==> |chain| == n && Reserved(pool.mem, chain, head) && pool.used == old(pool.used) + Members(chain)
      ensures ok ==> forall i | 0 <= i < |chain| :: chain[i] !in old(pool.used)
      ensures !ok ==> pool.used == old(pool.used) && pool.Left() == old(pool.Left())
      ensures ok <==> |old(pool.Left())| >= n
    {
      hide FramePool.Valid, TreeOk, Reserved, Passed, FramePool.Left, FramePool.Total, Drawn, Members;
      DrawnNone(pool.Left());
      TreeRoot(pool.mem, own, pool.used);
      head, chain := 0, [];
      ReservedNone(pool.mem);
      MembersNone();
      for i := 0 to n
        invariant pool.Valid() && |pool.mem| == |old(pool.mem)| && |chain| == i && Reserved(pool.mem, chain, head)
        invariant pool.used == old(pool.used) + Members(chain)
        invariant forall k | 0 <= k < |chain| :: chain[k] !in old(pool.used)
        invariant forall g | 0 <= g < |pool.mem| && g in old(pool.used) :: pool.mem[g] == old(pool.mem)[g]
        invariant Drawn(old(pool.Left()), pool.Left(), chain, i)
      {
        ok, head, chain := Draw(head, chain, old(pool.used), old(pool.Left()));
        if !ok {
          DrawnAll(old(pool.Left()), pool.Left(), chain, i);
          ReleaseChain(head, chain, old(pool.used));
          TreeFrame(old(pool.mem), pool.mem, own, old(pool.used), pool.used);
          return false, 0, [];
        }
      }
      TreeFrame(old(pool.mem), pool.mem, own, old(pool.used), pool.used);
      DrawnAll(old(pool.Left()), pool.Left(), chain, n);
      return true, head, chain;
    }

    /** One more frame at the head of the chain. */
    method Draw(head: nat, ghost chain: seq<nat>, ghost base: set<nat>, ghost left0: set<nat>)
      returns (ok: bool, head': nat, ghost chain': seq<nat>)
      requires pool.Valid() && Reserved(pool.mem, chain, head) && pool.used == base + Members(chain)
      requires Drawn(left0, pool.Left(), chain, |chain|)
      modifies pool
      ensures pool.Valid() && |pool.mem| == |old(pool.mem)| && Reserved(pool.mem, chain', head')
      ensures pool.used == base + Members(chain')
      ensures Drawn(left0, pool.Left(), chain', |chain'|) && (ok <==> old(pool.Left()) != {})
      ensures ok ==> |chain'| == |chain| + 1 && chain' == [chain'[0]] + chain && chain'[0] !in base
      ensures !ok ==> chain' == chain && pool.Left() == {}
      ensures forall g | 0 <= g < |pool.mem| && g in base :: pool.mem[g] == old(pool.mem)[g]
    {
      hide FramePool.Valid, Reserved, Passed, FramePool.Left, FramePool.Total, Drawn, Members;
      ghost var m1, left := pool.mem, pool.Left();
      var frame := pool.AllocFrame();
      if frame.None? {
        return false, head, chain;
      }
      pool.Write(frame.value, 0, Link(head));
      PushReserved(m1, pool.mem, chain, head, frame.value, base);
      DrawnOne(left0, left, pool.Left(), chain, |chain|, frame.value);
      return true, frame.value, [frame.value] + chain;
    }

    /** Give a chain of reserved frames back. */
    method ReleaseChain(first: nat, ghost chain: seq<nat>, ghost base: set<nat>)
      requires pool.Valid() && Reserved(pool.mem, chain, first) && pool.used == base + Members(chain)
      requires forall k | 0 <= k < |chain| :: chain[k] !in base
      modifies pool
      ensures pool.Valid() && pool.used == base && |pool.mem| == |old(pool.mem)|
      ensures pool.Left() == old(pool.Left()) + Members(chain)
      ensures forall g | 0 <= g < |pool.mem| && g in base :: pool.mem[g] == old(pool.mem)[g]
    {
      hide FramePool.Valid, Reserved, Passed, FramePool.Left;
      var head := first;
      ghost var rest := chain;
      while head != 0
        invariant pool.Valid() && |pool.mem| == |old(pool.mem)| && Reserved(pool.mem, rest, head)
        invariant pool.used == base + Members(rest)
        invariant forall k | 0 <= k < |rest| :: rest[k] !in base
        invariant forall g | 0 <= g < |pool.mem| && g in base :: pool.mem[g] == old(pool.mem)[g]
        invariant pool.Left() + Members(rest) == old(pool.Left()) + Members(chain)
        decreases |rest|
      {
        ReservedHead(pool.mem, rest, head);
        MembersFirst(rest);
        var next := pool.mem[head][0].frame;
        ghost var m1 := pool.mem;
        pool.FreeFrame(head);
        ReservedFrame(m1, pool.mem, rest[1..], next);
        head, rest := next, rest[1..];
      }
      ReservedHead(pool.mem, rest, head);
    }

    /** The third pass: each page gets the next frame of the chain, its link cleared. */
    method MapChain(from: nat, to: nat, first: nat, ghost chain: seq<nat>, ghost base: set<nat>)
      returns (ghost lost: set<nat>)
      requires Valid() && HEAP_BASE <= from <= to <= HEAP_LIMIT && |chain| == to - from
      requires Reserved(pool.mem, chain, first)
      requires pool.used == base + Members(chain) && (forall i | 0 <= i < |chain| :: chain[i] !in base)
      requires forall p | p in own :: own[p] in base
      requires forall v: nat | from <= v < to :: PathOf(v)[..3] in own
      modifies this`own, pool
      ensures Valid() && |pool.mem| == |old(pool.mem)| && pool.used == old(pool.used)
      ensures Progress(old(own), own, pool.mem, base, chain, [], lost, from, to)
      ensures forall g | 0 <= g < |pool.mem| && g in base && g !in Taken(old(own)) :: pool.mem[g] == old(pool.mem)[g]
    {
      hide FramePool.Valid, TreeOk, Extends, Spared, PathOf, TablesFor, Reserved, Progress, Passed, Members, Taken,
           Missing, FramePool.Left, FramePool.Total;
      lost := {};
      var head := first;
      ghost var rest := chain;
      ProgressStart(own, pool.mem, base, chain, from);
      for v := from to to
        invariant Valid() && |pool.mem| == |old(pool.mem)| && pool.used == old(pool.used) && |rest| == to - v
        invariant Reserved(pool.mem, rest, head)
        invariant Progress(old(own), own, pool.mem, base, chain, rest, lost, from, v)
        invariant forall g | 0 <= g < |pool.mem| && g in base && g !in Taken(old(own)) ::
                  pool.mem[g] == old(pool.mem)[g]
      {
        head, rest, lost := MapNext(v, head, old(own), base, chain, rest, lost, from);
      }
      assert rest == [];
    }

    /** One turn of the third pass. */
    method MapNext(v: nat, head: nat, ghost own0: Tree, ghost base: set<nat>, ghost chain: seq<nat>,
                   ghost rest: seq<nat>, ghost lost: set<nat>, ghost from: nat)
      returns (next: nat, ghost rest': seq<nat>, ghost lost': set<nat>)
      requires Valid() && HEAP_BASE <= from <= v < HEAP_LIMIT && rest != [] && Reserved(pool.mem, rest, head)
      requires pool.used == base + Members(chain)
      requires Progress(own0, own, pool.mem, base, chain, rest, lost, from, v) && PathOf(v)[..3] in own0
      requires forall p | p in own0 :: own0[p] in base
      requires forall i | 0 <= i < |chain| :: chain[i] !in base
      modifies this`own, pool
      ensures Valid() && |pool.mem| == |old(pool.mem)| && pool.used == old(pool.used)
      ensures rest' == rest[1..] && Reserved(pool.mem, rest', next)
      ensures Progress(own0, own, pool.mem, base, chain, rest', lost', from, v + 1)
      ensures forall g | 0 <= g < |pool.mem| && g in base && g !in Taken(own0) :: pool.mem[g] == old(pool.mem)[g]
    {
      hide FramePool.Valid, TreeOk, Extends, Spared, PathOf, TablesFor, Reserved, Progress, Passed, Members, Taken,
           Missing, FramePool.Left, FramePool.Total;
      ReservedHead(pool.mem, rest, head);
      RestOutside(own0, own, pool.mem, base, chain, rest, lost, from, v);
      next, rest', lost' := pool.mem[head][0].frame, rest[1..], lost;
      ghost var m0, o0, table := pool.mem, own, own0[PathOf(v)[..3]];
      FreshPage(own0, own, m0, base, chain, rest, lost, from, v);
      PagesApart(own0, own, m0, base, chain, rest, lost, from, v, table);
      pool.Write(head, 0, ZERO);
      assert pool.mem[head] == ZeroFrame();
      TreeUnused(m0, pool.mem, own, pool.used, head);
      var mapped := Map(v, Word(head, true, true, true, false, true));
      ReservedFrame(m0, pool.mem, rest', next);
      if mapped {
        ProgressMapped(own0, o0, m0, pool.mem, base, chain, rest, lost, from, v);
      } else {
        ProgressLost(own0, o0, m0, pool.mem, base, chain, rest, lost, from, v);
        lost' := lost + {head};
      }
    }

    /** grow_heap: all of the new pages, zeroed, or none of them. `lost` are the frames meant for pages that were
        mapped already. */
    method GrowHeap(bytes: nat) returns (r: Option<nat>, ghost lost: set<nat>)
      requires Valid()
      modifies this, pool
      ensures Valid() && |pool.mem| == |old(pool.mem)| && Spared(old(pool.mem), pool.mem, old(pool.used), old(own))
      ensures r.None? ==>
                && heapEnd == old(heapEnd) && lost == {} && Extends(old(own), own, old(pool.used), pool.used)
                && OnlyTables(old(own), own)
      ensures r.Some? ==> r.value == old(heapEnd) && heapEnd == old(heapEnd) + Pages(bytes)
      ensures var from, n := old(heapEnd), Pages(bytes);
              r.Some? <==> from + n <= HEAP_LIMIT && |old(pool.Left())| >= |MissingIn(old(own), from, from + n)| + n
      ensures r.Some? ==> Grown(old(own), own, pool.mem, old(pool.used), pool.used, lost, old(heapEnd), heapEnd)
    {
      hide FramePool.Valid, TreeOk, Extends, Spared, PathOf, OnlyTables, Reserved, Progress, Passed, Taken, Grown,
           FramePool.Left, MissingIn, Pages;
      TreeRoot(pool.mem, own, pool.used);
      ExtendsSelf(pool.mem, own, pool.used);
      OnlySelf(own);
      lost := {};
      var from := heapEnd;
      var to := from + Pages(bytes);
      if to > HEAP_LIMIT {
        return None, lost;
      }
      var ok := ReserveTables(from, to);
      ghost var m1, o1, u1 := pool.mem, own, pool.used;
      if !ok {
        return None, lost;
      }
      TreeRoot(pool.mem, own, pool.used);
      var head;
      ghost var chain;
      ok, head, chain := ReserveFrames(to - from);
      ghost var m2 := pool.mem;
      GrowSpared(old(pool.mem), m1, m2, m2, old(own), o1, old(pool.used), u1);
      if !ok {
        return None, lost;
      }
      lost := MapChain(from, to, head, chain, u1);
      GrowSpared(old(pool.mem), m1, m2, pool.mem, old(own), o1, old(pool.used), u1);
      GrowDone(old(own), o1, own, pool.mem, old(pool.used), u1, chain, lost, from, to);
      heapEnd := to;
      return Some(from), lost;
    }

    // ---- Dropping the space -----------------------------------------------------------------------

    /** free_table: the frame at `p` and every frame below it go back to the pool. */
    method FreeTable(ghost p: Path, entry: Word, levels: nat)
      requires pool.Valid() && Shape(own) && Injective(own) && 1 <= |p| && |p| + levels == 4
      requires entry.present <==> p in own
      requires p in own ==> entry.frame == own[p] && Standing(pool.mem, own, pool.used, p)
      modifies pool
      ensures pool.Valid() && |pool.mem| == |old(pool.mem)| && pool.used == old(pool.used) - Below(own, p)
      ensures forall g | 0 <= g < |pool.mem| && g !in Below(own, p) :: pool.mem[g] == old(pool.mem)[g]
      decreases levels
    {
      hide FramePool.Valid, Passed, Below, BelowTo, Standing, Shape, Injective;
      if !entry.present {
        NothingUnder(own, p);
        return;
      }
      var frame := entry.frame;
      StandingAt(pool.mem, own, pool.used, p);
      BelowIs(own, p);
      if levels > 0 {
        FreeChildren(p, frame, levels, 0, ENTRIES);
      }
      pool.FreeFrame(frame);
    }

    /** free_table over the slots from `lo` to `hi` of one table. */
    method FreeChildren(ghost p: Path, frame: nat, levels: nat, lo: nat, hi: nat)
      requires pool.Valid() && Shape(own) && Injective(own) && |p| + levels == 4 && levels > 0 && p in own
      requires frame == own[p]
      requires Standing(pool.mem, own, pool.used, p) && lo <= hi <= ENTRIES && forall i | lo <= i < hi :: Slot(p, i)
      modifies pool
      ensures pool.Valid() && |pool.mem| == |old(pool.mem)| && pool.used == old(pool.used) - BelowTo(own, p, lo, hi)
      ensures forall g | 0 <= g < |pool.mem| && g !in BelowTo(own, p, lo, hi) :: pool.mem[g] == old(pool.mem)[g]
      decreases levels, 0
    {
      hide FramePool.Valid, Passed, Below, BelowTo, Standing, Shape, Injective;
      StandingAt(pool.mem, own, pool.used, p);
      BelowNone(own, p, lo);
      for i := lo to hi
        invariant pool.Valid() && |pool.mem| == |old(pool.mem)| && pool.used == old(pool.used) - BelowTo(own, p, lo, i)
        invariant forall g | 0 <= g < |pool.mem| && g !in BelowTo(own, p, lo, i) :: pool.mem[g] == old(pool.mem)[g]
      {
        StandingChild(old(pool.mem), pool.mem, own, old(pool.used), pool.used, p, lo, i);
        BelowNext(own, p, lo, i);
        FreeTable(p + [i], pool.mem[frame][i], levels - 1);
      }
    }

    /** Drop for AddressSpace: exactly the frames the space has taken go back to the pool. */
    method Drop()
      requires Valid()
      modifies pool
      ensures pool.Valid() && |pool.mem| == |old(pool.mem)| && pool.used == old(pool.used) - Taken(own)
      ensures forall g | 0 <= g < |pool.mem| && g !in Taken(own) :: pool.mem[g] == old(pool.mem)[g]
    {
      hide FramePool.Valid, Passed, BelowTo, Standing, Shape, Injective, TreeOk, Taken;
      UsedFits(pool);
      TreeRoot(pool.mem, own, pool.used);
      RootStanding(pool.mem, own, pool.used);
      FreeChildren([], pml4, 4, USER_FIRST, USER_END);
      pool.FreeFrame(pml4);
    }

    /** A frame does get lost: a page is mapped at the start of the heap, and the heap grows over it. */
    method GrowOver() returns (ghost lost: set<nat>)
      requires Valid() && own == map[[] := pml4] && heapEnd == HEAP_BASE && |pool.Left()| >= 5
      modifies this, pool
      ensures Valid() && lost != {} && heapEnd == HEAP_BASE + 1
      ensures forall f | f in lost :: f in pool.used && f !in Taken(own)
    {
      hide FramePool.Valid, TreeOk, Extends, Spared, PathOf, TablesFor, OnlyTables, Taken, FramePool.Left, Missing,
           MissingIn;
      ThreeMissing(own, PathOf(HEAP_BASE));
      HeapPage(HEAP_BASE);
      assert |PathOf(HEAP_BASE)| != 0;
      ghost var o1 := own;
      var page := MapNewPage(HEAP_BASE, true, false);
      FiveKeys(o1, own, PathOf(HEAP_BASE));
      PrefixesOwned(pool.mem, own, pool.used, PathOf(HEAP_BASE));
      NoneMissing(own, HEAP_BASE);
      var r;
      r, lost := GrowHeap(1);
    }

    /** One mapping or growth in a life that began with the frames `used0` in use. */
    method Do(op: Op, ghost used0: set<nat>, ghost lost: set<nat>) returns (ghost more: set<nat>)
      requires Valid() && Accounted(own, used0, pool.used, lost, pml4)
      modifies this, pool
      ensures Valid() && Accounted(own, used0, pool.used, lost + more, pml4)
      ensures (more == {} <==> !GrewOver(old(own), old(heapEnd), heapEnd)) && (op.MapPage? ==> more == {})
      ensures (op.MapPage? ==> !(HEAP_BASE <= op.page < HEAP_LIMIT)) && HeapClear(old(own), old(heapEnd)) ==>
                more == {} && HeapClear(own, heapEnd)
    {
      hide FramePool.Valid, TreeOk, Extends, Spared, PathOf, TablesFor, Grown, OnlyTables, Taken, Passed, Accounted,
           HeapClear;
      more := {};
      assert lost + more == lost;
      ghost var o1, u1, from := own, pool.used, heapEnd;
      match op
      case MapPage(page, writable, executable) =>
        var page' := MapNewPage(page, writable, executable);
        ClearMapped(o1, own, page, heapEnd, page'.Some?);
        AccountExtends(o1, own, used0, u1, pool.used, lost, pml4);
      case Grow(bytes) =>
        var r;
        r, more := GrowHeap(bytes);
        if r.None? {
          ClearTables(o1, own, heapEnd);
          AccountExtends(o1, own, used0, u1, pool.used, lost, pml4);
        } else {
          AccountGrown(o1, own, pool.mem, used0, u1, pool.used, lost, more, from, heapEnd, pml4);
          ClearGrown(o1, own, pool.mem, u1, pool.used, more, from, heapEnd);
          LostExactly(o1, own, pool.mem, u1, pool.used, more, from, heapEnd);
        }
    }

    /** A whole life: any pages mapped and any heap growth, whatever fails on the way, then the end. The pool has
        back exactly what the space took; frames are missing exactly if the heap once grew over a page mapped before,
        so never if no page was mapped where the heap goes. `spaces` are the trees and heap ends in between. */
    method Live(ops: seq<Op>) returns (ghost lost: set<nat>, ghost spaces: seq<(Tree, nat)>)
      requires Valid() && own == map[[] := pml4]
      modifies this, pool
      ensures pool.Valid() && pool.used == old(pool.used) - {pml4} + lost && lost !! old(pool.used)
      ensures |spaces| == |ops| + 1 && spaces[0] == (old(own), old(heapEnd)) && (lost == {} <==> !SomeOver(spaces))
      ensures (forall i | 0 <= i < |ops| :: ops[i].MapPage?) ==> lost == {}
      ensures (forall i | 0 <= i < |ops| && ops[i].MapPage? :: !(HEAP_BASE <= ops[i].page < HEAP_LIMIT)) ==> lost == {}
    {
      hide FramePool.Valid, TreeOk, Extends, Spared, PathOf, TablesFor, Grown, OnlyTables, Taken, Passed, Accounted,
           HeapClear, SomeOver, GrewOver;
      lost := {};
      spaces := [(own, heapEnd)];
      OverStart(spaces);
      ClearStart(own, pml4, heapEnd);
      TreeRoot(pool.mem, own, pool.used);
      AccountStart(own, pool.used, pml4);
      for i := 0 to |ops|
        invariant Valid() && Accounted(own, old(pool.used), pool.used, lost, pml4)
        invariant |spaces| == i + 1 && spaces[0] == (old(own), old(heapEnd)) && spaces[i] == (own, heapEnd)
        invariant (lost == {} <==> !SomeOver(spaces))
        invariant (forall j | 0 <= j < i :: ops[j].MapPage?) ==> lost == {}
        invariant (forall j | 0 <= j < i && ops[j].MapPage? :: !(HEAP_BASE <= ops[j].page < HEAP_LIMIT)) ==>
                  lost == {} && HeapClear(own, heapEnd)
      {
        ghost var more := Do(ops[i], old(pool.used), lost);
        OverNext(spaces, own, heapEnd);
        lost, spaces := lost + more, spaces + [(own, heapEnd)];
      }
      AccountEnd(own, old(pool.used), pool.used, lost, pml4);
      Drop();
    }
  }

  datatype Op = MapPage(page: nat, writable: bool, executable: bool) | Grow(bytes: nat)

  /** The heap grew from `from` to `end` over a page that was mapped. */
  ghost predicate GrewOver(own: Tree, from: nat, end: nat) { exists x: nat | from <= x < end :: PathOf(x) in own }

  ghost predicate SomeOver(spaces: seq<(Tree, nat)>) {
    exists k | 0 <= k < |spaces| - 1 :: GrewOver(spaces[k].0, spaces[k].1, spaces[k + 1].1)
  }

  lemma OverStart(spaces: seq<(Tree, nat)>)
    requires |spaces| == 1
    ensures !SomeOver(spaces)
  {
  }

  lemma OverNext(spaces: seq<(Tree, nat)>, own: Tree, end: nat)
    requires |spaces| > 0
    ensures SomeOver(spaces + [(own, end)])
            <==> SomeOver(spaces) || GrewOver(spaces[|spaces| - 1].0, spaces[|spaces| - 1].1, end)
  {
    var next := spaces + [(own, end)];
    var n := |spaces| - 1;
    assert next[n] == spaces[n] && next[n + 1] == (own, end);
    if SomeOver(spaces) {
      var k :| 0 <= k < n && GrewOver(spaces[k].0, spaces[k].1, spaces[k + 1].1);
      assert next[k] == spaces[k] && next[k + 1] == spaces[k + 1];
    }
  }

  lemma LostExactly(own0: Tree, own: Tree, mem: seq<Frame>, used0: set<nat>, used: set<nat>, lost: set<nat>, from: nat,
                    end: nat)
    requires Grown(own0, own, mem, used0, used, lost, from, end)
    ensures lost == {} <==> !GrewOver(own0, from, end)
  {
  }

  /** No page is mapped where the heap will grow. */
  ghost predicate HeapClear(own: Tree, end: nat) { forall x: nat | end <= x < HEAP_LIMIT :: PathOf(x) !in own }

  lemma ClearStart(own: Tree, root: nat, end: nat)
    requires own == map[[] := root]
    ensures HeapClear(own, end)
  {
  }

  lemma ClearTables(own: Tree, own': Tree, end: nat)
    requires OnlyTables(own, own')
    ensures HeapClear(own, end) ==> HeapClear(own', end)
  {
  }

  lemma ClearMapped(own: Tree, own': Tree, page: nat, end: nat, mapped: bool)
    requires HEAP_BASE <= end && (mapped ==> UserPage(page))
    requires TablesFor(own, if mapped then own' - {PathOf(page)} else own', PathOf(page))
    ensures HeapClear(own, end) && !(HEAP_BASE <= page < HEAP_LIMIT) ==> HeapClear(own', end)
  {
    if HeapClear(own, end) && !(HEAP_BASE <= page < HEAP_LIMIT) {
      forall x: nat | end <= x < HEAP_LIMIT
        ensures PathOf(x) !in own'
      {
        if mapped && PathOf(x) == PathOf(page) {
          PathInjective(x, page);
        }
      }
    }
  }

  lemma ClearGrown(own: Tree, own': Tree, mem: seq<Frame>, used: set<nat>, used': set<nat>, lost: set<nat>, from: nat,
                   to: nat)
    requires Grown(own, own', mem, used, used', lost, from, to) && HEAP_BASE <= from <= to <= HEAP_LIMIT
    ensures HeapClear(own, from) ==> lost == {} && HeapClear(own', to)
  {
    if HeapClear(own, from) {
      forall x: nat | to <= x < HEAP_LIMIT
        ensures PathOf(x) !in own'
      {
        if IsPage(PathOf(x), from, to) {
          var y: nat :| from <= y < to && PathOf(x) == PathOf(y);
          PathInjective(x, y);
        }
      }
    }
  }

  /** What is in use is what was before, the tree, and the lost frames. */
  ghost predicate Accounted(own: Tree, base: set<nat>, used: set<nat>, lost: set<nat>, root: nat) {
    && used == base + Taken(own) + lost && root in base && [] in own && own[[]] == root
    && (forall f | f in lost :: f !in base && f !in Taken(own))
    && (forall p | p in own && p != [] :: own[p] !in base)
  }

  lemma AccountStart(own: Tree, used: set<nat>, root: nat)
    requires own == map[[] := root] && root in used
    ensures Accounted(own, used, used, {}, root)
  {
  }

  lemma AccountExtends(own: Tree, own': Tree, base: set<nat>, used: set<nat>, used': set<nat>, lost: set<nat>,
                       root: nat)
    requires Accounted(own, base, used, lost, root) && Extends(own, own', used, used')
    ensures Accounted(own', base, used', lost, root)
  {
    forall f | f in lost
      ensures f !in Taken(own')
    {
      forall p | p in own'
        ensures own'[p] != f
      {
        assert p in own ==> own[p] in Taken(own);
      }
    }
    TakenGrows(own, own');
  }

  lemma TakenGrows(own: Tree, own': Tree)
    requires forall p | p in own :: p in own' && own'[p] == own[p]
    ensures Taken(own) <= Taken(own')
  {
    forall f | f in Taken(own)
      ensures f in Taken(own')
    {
      var p :| p in own && own[p] == f;
      assert own'[p] in Taken(own');
    }
  }

  lemma AccountGrown(own: Tree, own': Tree, mem: seq<Frame>, base: set<nat>, used: set<nat>, used': set<nat>,
                     lost: set<nat>, more: set<nat>, from: nat, to: nat, root: nat)
    requires Accounted(own, base, used, lost, root) && Grown(own, own', mem, used, used', more, from, to)
    ensures Accounted(own', base, used', lost + more, root)
  {
    hide PathOf, IsPage;
    forall f | f in lost
      ensures f !in Taken(own')
    {
      forall p | p in own'
        ensures own'[p] != f
      {
        assert p in own ==> own[p] in Taken(own);
      }
    }
    TakenGrows(own, own');
  }

  lemma AccountEnd(own: Tree, base: set<nat>, used: set<nat>, lost: set<nat>, root: nat)
    requires Accounted(own, base, used, lost, root)
    ensures used - Taken(own) == base - {root} + lost && lost !! base
  {
    assert own[[]] in Taken(own);
    forall f | f in Taken(own) && f in base
      ensures f == root
    {
      var p :| p in own && own[p] == f;
    }
  }

  lemma UsedFits(pool: FramePool)
    requires pool.Valid()
    ensures forall f | f in pool.used :: f < |pool.mem|
  {
  }

  lemma TreeRoot(mem: seq<Frame>, own: Tree, used: set<nat>)
    requires TreeOk(mem, own, used)
    ensures [] in own && forall p | p in own :: own[p] in used
  {
  }

  lemma TablesSelf(own: Tree, path: Path)
    ensures TablesFor(own, own, path)
  {
  }

  /** Whoever owns a path owns the way to it. */
  lemma PrefixesOwned(mem: seq<Frame>, own: Tree, used: set<nat>, path: Path)
    requires TreeOk(mem, own, used) && |path| == 4
    ensures path in own ==> path[..3] in own
    ensures path[..3] in own ==> path[..2] in own && path[..1] in own && path[..0] in own
  {
    assert path[..4] == path;
    assert path[..3][..2] == path[..2] && path[..2][..1] == path[..1] && path[..1][..0] == path[..0];
  }

  /** A frame in use outside the tree stays outside while the tree takes new ones. */
  lemma KeepApart(own: Tree, own': Tree, used: set<nat>, used': set<nat>, f: nat)
    requires Extends(own, own', used, used') && f in used && f !in Taken(own)
    ensures f !in Taken(own') && f in used' && Extends(own, own', used - {f}, used' - {f})
  {
    forall p | p in own'
      ensures own'[p] != f
    {
      assert p in own ==> own[p] in Taken(own);
    }
  }

  /** A frame that is already in use is hung below `p`. */
  lemma PlaceStep(mem: seq<Frame>, own: Tree, used: set<nat>, p: Path, i: nat, w: Word)
    requires TreeOk(mem, own, used) && p in own && |p| == 3 && Slot(p, i) && p + [i] !in own && w.present
    requires w.frame in used
    requires w.frame !in Taken(own) && w.frame < |mem|
    ensures own[p] < |mem| && |mem[own[p]]| == ENTRIES
    ensures TreeOk(mem[own[p] := mem[own[p]][i := w]], own[p + [i] := w.frame], used)
  {
    hide TreeOk;
    EntryOf(mem, own, used, p, i);
    forall q | q in own
      ensures own[q] != w.frame
    {
      assert own[q] in Taken(own);
    }
    AddTable(mem, mem[own[p] := mem[own[p]][i := w]], own, p, i, w.frame, w, used);
    assert used + {w.frame} == used;
  }

  lemma PlaceExtends(m0: seq<Frame>, m1: seq<Frame>, m2: seq<Frame>, o0: Tree, o1: Tree, u0: set<nat>, u1: set<nat>,
                     path: Path, f: nat)
    requires Spared(m0, m1, u0, o0) && Extends(o0, o1, u0 - {f}, u1 - {f}) && |path| == 4 && path[..3] in o1
    requires path !in o1 && f in u1 && f in u0
    requires o1[path[..3]] < |m1| && |m2| == |m1| && m2 == m1[o1[path[..3]] := m2[o1[path[..3]]]]
    requires TablesFor(o0, o1, path)
    requires Extends(o0, o1, u0, u1)
    ensures Spared(m0, m2, u0, o0) && Extends(o0, o1[path := f], u0 - {f}, u1)
    ensures TablesFor(o0, o1[path := f] - {path}, path)
  {
    var o2, t := o1[path := f], o1[path[..3]];
    assert t in Taken(o1);
    forall g | 0 <= g < |m0| && g in u0 && g !in Taken(o0)
      ensures m2[g] == m0[g]
    {
      assert path[..3] in o0 ==> o0[path[..3]] in Taken(o0);
    }
    assert o2[path] in Taken(o2);
    forall g
      ensures g in Taken(o2) <==> g in Taken(o1) || g == f
    {
      if g in Taken(o1) {
        var p :| p in o1 && o1[p] == g;
        assert p in o2 && o2[p] == g;
      }
    }
    assert o2 - {path} == o1;
  }

  /** Taking a frame from the pool does not touch the tree. */
  lemma AllocTree(mem: seq<Frame>, mem': seq<Frame>, own: Tree, used: set<nat>, f: nat)
    requires TreeOk(mem, own, used) && f !in used && f < |mem| && mem' == mem[f := ZeroFrame()]
    ensures TreeOk(mem', own, used + {f}) && f !in Taken(own)
  {
    TreeFrame(mem, mem', own, used, used + {f});
  }

  /** Giving back a frame that is not in the tree does not touch it either. */
  lemma FreeTree(mem: seq<Frame>, mem': seq<Frame>, own: Tree, used: set<nat>, f: nat)
    requires TreeOk(mem, own, used) && f < |mem| == |mem'| && mem' == mem[f := mem'[f]] && f !in Taken(own)
    ensures TreeOk(mem', own, used - {f})
  {
    forall p | p in own
      ensures own[p] != f
    {
      assert own[p] in Taken(own);
    }
    TreeFrame(mem, mem', own, used, used - {f});
  }

  lemma OutsideSame(mem: seq<Frame>, mem': seq<Frame>, used: set<nat>, own: Tree, f: nat)
    requires Spared(mem, mem', used, own) && f in used && f !in Taken(own) && f < |mem|
    ensures |mem'| == |mem| && mem'[f] == mem[f]
  {
  }

  lemma PageSpared(m0: seq<Frame>, m1: seq<Frame>, m2: seq<Frame>, m3: seq<Frame>, own: Tree, used: set<nat>, f: nat)
    requires f < |m0| && f !in used && m1 == m0[f := ZeroFrame()] && Spared(m1, m2, used + {f}, own)
    requires |m3| == |m2| && forall g | 0 <= g < |m2| && g != f :: m3[g] == m2[g]
    ensures Spared(m0, m3, used, own)
  {
  }

  /** The only additions are tables. */
  ghost predicate OnlyTables(own: Tree, own': Tree) { forall q | q in own' && q !in own :: |q| <= 3 }

  lemma OnlySelf(own: Tree)
    ensures OnlyTables(own, own)
  {
  }

  lemma OnlyTrans(o0: Tree, o1: Tree, o2: Tree, path: Path)
    requires OnlyTables(o0, o1) && TablesFor(o1, o2, path)
    ensures OnlyTables(o0, o2)
  {
  }

  lemma ExtendsKeeps(own: Tree, own': Tree, used: set<nat>, used': set<nat>)
    requires Extends(own, own', used, used')
    ensures forall p | p in own :: p in own'
  {
  }

  ghost function Members(l: seq<nat>): set<nat> { set i | 0 <= i < |l| :: l[i] }

  /** Frames chained from `head`, each zero but for its link. */
  ghost predicate Reserved(mem: seq<Frame>, l: seq<nat>, head: nat) {
    if l == [] then head == 0
    else
      && head == l[0] != 0 && l[0] < |mem| && l[0] !in l[1..] && |mem[l[0]]| == ENTRIES
      && mem[l[0]] == ZeroFrame()[0 := Link(mem[l[0]][0].frame)] && Reserved(mem, l[1..], mem[l[0]][0].frame)
  }

  lemma {:induction false} ReservedFrame(mem: seq<Frame>, mem': seq<Frame>, l: seq<nat>, head: nat)
    requires Reserved(mem, l, head) && |mem'| == |mem| && forall f | f in l && f < |mem| :: mem'[f] == mem[f]
    ensures Reserved(mem', l, head)
    decreases |l|
  {
    if l != [] {
      ReservedFrame(mem, mem', l[1..], mem[l[0]][0].frame);
    }
  }

  lemma ReservedNone(mem: seq<Frame>)
    ensures Reserved(mem, [], 0) && Members([]) == {}
  {
  }

  lemma ReservedHead(mem: seq<Frame>, l: seq<nat>, head: nat)
    requires Reserved(mem, l, head)
    ensures head != 0 <==> l != []
    ensures head != 0 ==>
              && head == l[0] < |mem| && |mem[head]| == ENTRIES && l[0] !in l[1..]
              && mem[head] == ZeroFrame()[0 := mem[head][0]]
                          && Reserved(mem, l[1..], mem[head][0].frame)
  {
  }

  /** `n` frames, those of the chain, have been drawn from what was left. */
  ghost predicate Drawn(left0: set<nat>, left: set<nat>, chain: seq<nat>, n: nat) {
    left0 == left + Members(chain) && |left| + n == |left0|
  }

  lemma DrawnNone(left: set<nat>)
    ensures Drawn(left, left, [], 0)
  {
  }

  lemma DrawnOne(left0: set<nat>, left1: set<nat>, left: set<nat>, chain: seq<nat>, n: nat, f: nat)
    requires Drawn(left0, left1, chain, n) && left == left1 - {f} && f in left1
    ensures Drawn(left0, left, [f] + chain, n + 1)
  {
    MembersPush(chain, f);
    assert left1 == left + {f};
  }

  lemma DrawnAll(left0: set<nat>, left: set<nat>, chain: seq<nat>, n: nat)
    requires Drawn(left0, left, chain, n)
    ensures |left0| == |left| + n && left0 == left + Members(chain)
  {
  }

  lemma MembersNone()
    ensures Members([]) == {}
  {
  }

  lemma MembersPush(l: seq<nat>, f: nat)
    ensures Members([f] + l) == {f} + Members(l)
  {
    assert ([f] + l)[1..] == l;
    MembersFirst([f] + l);
  }

  lemma MembersFirst(l: seq<nat>)
    requires l != []
    ensures Members(l) == {l[0]} + Members(l[1..])
    ensures forall f | f in l[1..] :: f in Members(l[1..])
    ensures forall f :: f in Members(l[1..]) <==> f in l[1..]
  {
    assert forall i | 0 <= i < |l| - 1 :: l[1..][i] == l[i + 1];
    forall f | f in Members(l)
      ensures f in {l[0]} + Members(l[1..])
    {
      var i :| 0 <= i < |l| && l[i] == f;
      assert i > 0 ==> l[1..][i - 1] == f;
    }
    forall f | f in Members(l[1..])
      ensures f in Members(l)
    {
      var i :| 0 <= i < |l| - 1 && l[1..][i] == f;
      assert l[i + 1] == f;
    }
  }

  lemma PushReserved(mem: seq<Frame>, mem': seq<Frame>, chain: seq<nat>, head: nat, f: nat, used: set<nat>)
    requires Reserved(mem, chain, head) && 0 < f < |mem| && f !in used + Members(chain)
    requires mem' == mem[f := ZeroFrame()[0 := Link(head)]]
    ensures Reserved(mem', [f] + chain, f) && Members([f] + chain) == Members(chain) + {f}
  {
    assert ([f] + chain)[1..] == chain;
    assert f !in chain by {
      forall i | 0 <= i < |chain|
        ensures chain[i] != f
      {
        assert chain[i] in Members(chain);
      }
    }
    ReservedFrame(mem, mem', chain, head);
    MembersFirst([f] + chain);
  }

  // ---- Mapping the reserved frames ------------------------------------------------------------------

  ghost predicate IsPage(q: Path, from: nat, to: nat) { exists x: nat :: from <= x < to && q == PathOf(x) }

  /** The pages from `from` up to `v` have been dealt with: new ones hold zeroed frames of the chain, and the
      frames of pages that were already there are lost. */
  ghost predicate Progress(own0: Tree, own: Tree, mem: seq<Frame>, base: set<nat>, chain: seq<nat>, rest: seq<nat>,
                           lost: set<nat>, from: nat, v: nat) {
    && (forall q | q in own0 :: q in own && own[q] == own0[q])
    && (forall q | q in own && q !in own0 ::
           own[q] in Members(chain) && IsPage(q, from, v) && own[q] < |mem| && mem[own[q]] == ZeroFrame())
    && (forall x: nat | from <= x < v :: PathOf(x) in own)
    && (forall f | f in lost :: f in Members(chain) && f !in Taken(own) && f !in Members(rest))
    && (forall f | f in Members(rest) :: f in Members(chain) && f !in Taken(own))
    && base + Members(chain) == base + Taken(own) + lost + Members(rest)
    && (lost == {} <==> forall x: nat | from <= x < v :: PathOf(x) !in own0)
  }

  lemma TakenPlus(own: Tree, q: Path, f: nat)
    requires q !in own
    ensures Taken(own[q := f]) == Taken(own) + {f}
  {
    var own' := own[q := f];
    assert own'[q] in Taken(own');
    forall g | g in Taken(own)
      ensures g in Taken(own')
    {
      var p :| p in own && own[p] == g;
      assert p in own' && own'[p] == g;
    }
  }

  lemma ProgressStart(own: Tree, mem: seq<Frame>, base: set<nat>, chain: seq<nat>, v: nat)
    requires (forall p | p in own :: own[p] in base) && forall i | 0 <= i < |chain| :: chain[i] !in base
    ensures Progress(own, own, mem, base, chain, chain, {}, v, v)
  {
  }

  /** Page `v` was free and now holds the first frame of the rest. */
  lemma ProgressMapped(own0: Tree, own: Tree, mem: seq<Frame>, mem': seq<Frame>, base: set<nat>, chain: seq<nat>,
                       rest: seq<nat>, lost: set<nat>, from: nat, v: nat)
    requires Progress(own0, own, mem, base, chain, rest, lost, from, v) && from <= v && rest != []
    requires rest[0] !in rest[1..] && PathOf(v) !in own
    requires |mem'| == |mem| && rest[0] < |mem| && mem'[rest[0]] == ZeroFrame()
    requires forall q | q in own && q !in own0 && own[q] < |mem| :: mem'[own[q]] == mem[own[q]]
    ensures Progress(own0, own[PathOf(v) := rest[0]], mem', base, chain, rest[1..], lost, from, v + 1)
  {
    hide Members, Taken, PathOf;
    var own' := own[PathOf(v) := rest[0]];
    MembersFirst(rest);
    TakenPlus(own, PathOf(v), rest[0]);
    forall q | q in own' && q !in own0
      ensures IsPage(q, from, v + 1)
    {
      if q != PathOf(v) {
        assert IsPage(q, from, v);
      }
    }
  }

  /** Page `v` was mapped already, so the first frame of the rest is lost. */
  lemma ProgressLost(own0: Tree, own: Tree, mem: seq<Frame>, mem': seq<Frame>, base: set<nat>, chain: seq<nat>,
                     rest: seq<nat>, lost: set<nat>, from: nat, v: nat)
    requires Progress(own0, own, mem, base, chain, rest, lost, from, v) && from <= v && rest != []
    requires rest[0] !in rest[1..] && PathOf(v) in own0
    requires |mem'| == |mem| && forall q | q in own && q !in own0 && own[q] < |mem| :: mem'[own[q]] == mem[own[q]]
    ensures Progress(own0, own, mem', base, chain, rest[1..], lost + {rest[0]}, from, v + 1)
  {
    MembersFirst(rest);
    assert rest[0] in lost + {rest[0]};
    forall q | q in own && q !in own0
      ensures IsPage(q, from, v + 1)
    {
      assert IsPage(q, from, v);
    }
  }

  /** The first frame of the rest is in use, in memory, and in nobody's tree. */
  lemma RestOutside(own0: Tree, own: Tree, mem: seq<Frame>, base: set<nat>, chain: seq<nat>, rest: seq<nat>,
                    lost: set<nat>, from: nat, v: nat)
    requires Progress(own0, own, mem, base, chain, rest, lost, from, v) && rest != []
    ensures rest[0] in Members(chain) && rest[0] !in Taken(own)
    ensures forall f | f in rest :: f in Members(chain) && f !in Taken(own)
  {
    forall f | f in rest
      ensures f in Members(rest)
    {
      var i :| 0 <= i < |rest| && rest[i] == f;
    }
    assert rest[0] in rest;
  }

  lemma TreeUnused(mem: seq<Frame>, mem': seq<Frame>, own: Tree, used: set<nat>, f: nat)
    requires TreeOk(mem, own, used) && f < |mem| == |mem'| && mem' == mem[f := mem'[f]] && f !in Taken(own)
    ensures TreeOk(mem', own, used)
  {
    forall p | p in own
      ensures own[p] != f
    {
      assert own[p] in Taken(own);
    }
    TreeFrame(mem, mem', own, used, used);
  }

  /** A page not dealt with yet is in the tree only if it always was. */
  lemma FreshPage(own0: Tree, own: Tree, mem: seq<Frame>, base: set<nat>, chain: seq<nat>, rest: seq<nat>,
                  lost: set<nat>, from: nat, v: nat)
    requires Progress(own0, own, mem, base, chain, rest, lost, from, v) && HEAP_BASE <= from <= v < HEAP_LIMIT
    ensures PathOf(v) in own <==> PathOf(v) in own0
  {
    if PathOf(v) in own && PathOf(v) !in own0 {
      var x: nat :| from <= x < v && PathOf(v) == PathOf(x);
      PathInjective(v, x);
    }
  }

  /** The table a page goes into is neither a frame of the chain nor the frame of a page mapped from it. */
  lemma PagesApart(own0: Tree, own: Tree, mem: seq<Frame>, base: set<nat>, chain: seq<nat>, rest: seq<nat>,
                   lost: set<nat>, from: nat, v: nat, table: nat)
    requires Progress(own0, own, mem, base, chain, rest, lost, from, v) && table in base
    requires (forall i | 0 <= i < |chain| :: chain[i] !in base)
    ensures (forall f | f in Members(chain) :: f !in base && f != table)
    ensures (forall q | q in own0 :: q in own && own[q] == own0[q] && own0[q] in Taken(own0))
    ensures forall q | q in own && q !in own0 :: own[q] in Members(chain) && own[q] in Taken(own)
  {
  }

  // ---- What growing and dropping amount to ----------------------------------------------------------------

  /** The heap has grown over [from, to): every page is there, the new ones zeroed, and besides the tree's frames
      only the lost ones have been taken. None is lost exactly when no page was there before. */
  ghost predicate Grown(own0: Tree, own: Tree, mem: seq<Frame>, used0: set<nat>, used: set<nat>, lost: set<nat>,
                        from: nat, to: nat) {
    && (forall q | q in own0 :: q in own && own[q] == own0[q])
    && (forall x: nat | from <= x < to :: PathOf(x) in own)
    && (forall x: nat | from <= x < to && PathOf(x) !in own0 ::
           own[PathOf(x)] < |mem| && mem[own[PathOf(x)]] == ZeroFrame())
    && (forall q | q in own && q !in own0 :: own[q] !in used0 && (|q| <= 3 || IsPage(q, from, to)))
    && used == used0 + Taken(own) + lost && (forall f | f in lost :: f !in Taken(own) && f !in used0)
    && (lost == {} <==> forall x: nat | from <= x < to :: PathOf(x) !in own0)
  }

  lemma GrowDone(o0: Tree, o1: Tree, o2: Tree, mem: seq<Frame>, u0: set<nat>, u1: set<nat>, chain: seq<nat>,
                 lost: set<nat>, from: nat, to: nat)
    requires Extends(o0, o1, u0, u1) && OnlyTables(o0, o1) && Progress(o1, o2, mem, u1, chain, [], lost, from, to)
    requires forall i | 0 <= i < |chain| :: chain[i] !in u1
    ensures Grown(o0, o2, mem, u0, u1 + Members(chain), lost, from, to)
  {
    assert Members([]) == {};
    forall f | f in Taken(o1)
      ensures f in Taken(o2)
    {
      var p :| p in o1 && o1[p] == f;
      assert p in o2 && o2[p] == f;
    }
    forall x: nat | from <= x < to
      ensures PathOf(x) in o1 <==> PathOf(x) in o0
    {
      assert |PathOf(x)| == 4;
    }
  }

  lemma GrowSpared(m0: seq<Frame>, m1: seq<Frame>, m2: seq<Frame>, m3: seq<Frame>, o0: Tree, o1: Tree, u0: set<nat>,
                   u1: set<nat>)
    requires Spared(m0, m1, u0, o0) && Extends(o0, o1, u0, u1) && |m1| == |m2| == |m3|
    requires forall g | 0 <= g < |m1| && g in u1 :: m2[g] == m1[g]
    requires forall g | 0 <= g < |m2| && g in u1 && g !in Taken(o1) :: m3[g] == m2[g]
    ensures Spared(m0, m3, u0, o0)
  {
    forall g | g in u0 && g in Taken(o1)
      ensures g in Taken(o0)
    {
      var p :| p in o1 && o1[p] == g;
    }
  }

  /** The frames at and below a path. */
  ghost function Below(own: Tree, p: Path): set<nat> { set q | q in own && p <= q :: own[q] }

  /** The frames below slots [lo, hi) of the table at `p`. */
  ghost function BelowTo(own: Tree, p: Path, lo: nat, hi: nat): set<nat> {
    set q | q in own && p < q && lo <= q[|p|] < hi :: own[q]
  }

  /** Everything at and below `p` is still in use and its tables are still in order. */
  ghost predicate Standing(mem: seq<Frame>, own: Tree, used: set<nat>, p: Path) {
    forall q | q in own && p <= q :: own[q] in used && own[q] < |mem| && (|q| < 4 ==> TableOk(mem, own, q))
  }

  lemma StandingAt(mem: seq<Frame>, own: Tree, used: set<nat>, p: Path)
    requires Standing(mem, own, used, p) && p in own
    ensures own[p] in used && own[p] < |mem| && (|p| < 4 ==> |mem[own[p]]| == ENTRIES)
  {
  }

  lemma NothingUnder(own: Tree, p: Path)
    requires Shape(own) && p !in own
    ensures Below(own, p) == {}
  {
    forall q | q in own
      ensures !(p <= q)
    {
      if p <= q {
        PrefixSlice(p, q);
        PrefixIn(own, q, |p|);
      }
    }
  }

  lemma PrefixSlice(p: Path, q: Path)
    requires p <= q
    ensures q[..|p|] == p
  {
  }

  lemma {:induction false} PrefixIn(own: Tree, q: Path, n: nat)
    requires Shape(own) && q in own && n <= |q|
    ensures q[..n] in own
    decreases |q|
  {
    if n < |q| {
      assert q[..|q| - 1][..n] == q[..n];
      PrefixIn(own, q[..|q| - 1], n);
    } else {
      assert q[..n] == q;
    }
  }

  /** The path below `p` through slot `i` starts like every path that goes there. */
  lemma Through(p: Path, q: Path, i: nat)
    ensures p + [i] <= q <==> p < q && q[|p|] == i
  {
    if p < q && q[|p|] == i {
      assert q[..|p| + 1] == p + [i];
    }
    if p + [i] <= q {
      assert q[..|p| + 1] == p + [i];
      assert (p + [i])[..|p|] == p && (p + [i])[|p|] == i;
      assert q[..|p|] == q[..|p| + 1][..|p|];
    }
  }

  lemma BelowNone(own: Tree, p: Path, lo: nat)
    ensures BelowTo(own, p, lo, lo) == {}
  {
  }

  lemma BelowNext(own: Tree, p: Path, lo: nat, i: nat)
    requires lo <= i
    ensures BelowTo(own, p, lo, i + 1) == BelowTo(own, p, lo, i) + Below(own, p + [i])
  {
    forall q | q in own
      ensures p + [i] <= q <==> p < q && q[|p|] == i
    {
      Through(p, q, i);
    }
    forall f | f in BelowTo(own, p, lo, i + 1)
      ensures f in BelowTo(own, p, lo, i) + Below(own, p + [i])
    {
      var q :| q in own && p < q && lo <= q[|p|] < i + 1 && own[q] == f;
    }
  }

  lemma BelowSlots(own: Tree, p: Path)
    requires Shape(own) && p in own
    ensures forall q | q in own && p < q :: q[|p|] < ENTRIES && |p| < 4
  {
    forall q | q in own && p < q
      ensures q[|p|] < ENTRIES
    {
      PrefixIn(own, q, |p| + 1);
      assert q[..|p| + 1][|p|] == q[|p|];
    }
  }

  lemma BelowIs(own: Tree, p: Path)
    requires Shape(own) && Injective(own) && p in own
    ensures Below(own, p) == {own[p]} + BelowTo(own, p, 0, ENTRIES) && own[p] !in BelowTo(own, p, 0, ENTRIES)
    ensures |p| == 4 ==> BelowTo(own, p, 0, ENTRIES) == {}
    ensures forall i | 0 <= i < ENTRIES && p != [] :: Slot(p, i)
  {
    BelowSlots(own, p);
    hide Shape;
    BelowSet(own, p);
    NotBelowItself(own, p);
  }

  lemma NotBelowItself(own: Tree, p: Path)
    requires Injective(own) && p in own
    ensures own[p] !in BelowTo(own, p, 0, ENTRIES)
  {
    forall q | q in own && p < q
      ensures own[q] != own[p]
    {
    }
  }

  lemma BelowSet(own: Tree, p: Path)
    requires p in own && forall q | q in own && p < q :: q[|p|] < ENTRIES
    ensures Below(own, p) == {own[p]} + BelowTo(own, p, 0, ENTRIES)
  {
    forall f | f in Below(own, p)
      ensures f in {own[p]} + BelowTo(own, p, 0, ENTRIES)
    {
      var q :| q in own && p <= q && own[q] == f;
      if q != p {
        assert p < q;
      }
    }
    forall f | f in {own[p]} + BelowTo(own, p, 0, ENTRIES)
      ensures f in Below(own, p)
    {
      if f != own[p] {
        var q :| q in own && p < q && 0 <= q[|p|] < ENTRIES && own[q] == f;
      }
    }
  }

  /** Once the slots before `i` have been freed, what hangs below slot `i` still stands. */
  lemma StandingChild(mem: seq<Frame>, mem': seq<Frame>, own: Tree, used: set<nat>, used': set<nat>, p: Path, lo: nat,
                      i: nat)
    requires Shape(own) && Injective(own) && p in own && |p| < 4 && Slot(p, i) && lo <= i && Standing(mem, own, used, p)
    requires |mem'| == |mem| && used' == used - BelowTo(own, p, lo, i)
    requires forall g | 0 <= g < |mem| && g !in BelowTo(own, p, lo, i) :: mem'[g] == mem[g]
    ensures own[p] < |mem| && |mem[own[p]]| == ENTRIES && mem'[own[p]] == mem[own[p]]
    ensures mem[own[p]][i].present <==> p + [i] in own
    ensures p + [i] in own ==> mem[own[p]][i].frame == own[p + [i]] && Standing(mem', own, used', p + [i])
  {
    assert TableOk(mem, own, p);
    assert own[p] !in BelowTo(own, p, lo, i);
    forall q | q in own && p + [i] <= q
      ensures own[q] in used' && own[q] < |mem'| && (|q| < 4 ==> TableOk(mem', own, q))
    {
      Through(p, q, i);
      assert own[q] !in BelowTo(own, p, lo, i);
    }
  }

  lemma RootStanding(mem: seq<Frame>, own: Tree, used: set<nat>)
    requires TreeOk(mem, own, used) && forall p | p in own :: own[p] < |mem|
    ensures Shape(own) && Injective(own) && Standing(mem, own, used, []) && [] in own
    ensures Taken(own) == {own[[]]} + BelowTo(own, [], USER_FIRST, USER_END)
    ensures own[[]] !in BelowTo(own, [], USER_FIRST, USER_END)
  {
    forall q | q in own && q != []
      ensures USER_FIRST <= q[0] < USER_END && [] < q
    {
      PrefixIn(own, q, 1);
      assert q[..1][..0] == [] && q[..1][0] == q[0];
    }
    forall f | f in Taken(own)
      ensures f in {own[[]]} + BelowTo(own, [], USER_FIRST, USER_END)
    {
      var q :| q in own && own[q] == f;
    }
  }
}
