/** Four-level page tables with 1 GiB and 2 MiB pages.

    `tabs` is the tree of tables, flattened: the empty path is the PML4, a path of
    one to three indices is a table below it.
  */
module Paging {
  import opened Basics
  import opened Frames
  import opened TableTree

  type Tables = Tree

  /** The table indices of a page number. */
  function Indices(page: nat): (p: Path)
    ensures |p| == 4 && forall d | 0 <= d < 4 :: p[d] < ENTRIES
  {
    [page / 0x800_0000 % 512, page / 0x4_0000 % 512, page / 0x200 % 512, page % 512]
  }

  /** Two pages share a path exactly when they agree in the 36 bits the tables look at. */
  lemma IndicesExact(x: nat, y: nat)
    ensures Indices(x) == Indices(y) <==> x % 0x10_0000_0000 == y % 0x10_0000_0000
  {
    Digits(x);
    Digits(y);
    var p, q := Indices(x), Indices(y);
    if p == q {
      assert p[0] == q[0] && p[1] == q[1] && p[2] == q[2] && p[3] == q[3];
    } else {
      assert p[0] != q[0] || p[1] != q[1] || p[2] != q[2] || p[3] != q[3];
    }
  }

  lemma Digits(x: nat)
    ensures var p := Indices(x); x % 0x10_0000_0000 == ((p[0] * 512 + p[1]) * 512 + p[2]) * 512 + p[3]
  {
    var a := x / 512;
    var b := a / 512;
    var c := b / 512;
    assert x / 0x4_0000 == b && x / 0x800_0000 == c;
  }

  /** The path a walk from depth `d` takes. */
  predicate IsPath(p: Path) { |p| == 4 && forall d | 0 <= d < 4 :: p[d] < ENTRIES }

  /** An entry that leads to another table. */
  predicate Leads(w: Word) { w.present && !w.huge }

  ghost predicate Node(mem: seq<Frame>, tabs: Tables, p: Path)
    requires p in tabs
  {
    && tabs[p] < |mem| && |mem[tabs[p]]| == ENTRIES
    && (|p| < 3 ==> forall i | 0 <= i < ENTRIES :: Leads(mem[tabs[p]][i]) <==> p + [i] in tabs)
    && (|p| < 3 ==> forall i | 0 <= i < ENTRIES && p + [i] in tabs :: mem[tabs[p]][i].frame == tabs[p + [i]])
  }

  /** The tables reachable from the PML4 form a tree, and `tabs` is that tree. */
  ghost predicate TreeOk(mem: seq<Frame>, tabs: Tables) {
    && [] in tabs && (forall p | p in tabs :: |p| <= 3 && Node(mem, tabs, p))
    && (forall p | p in tabs && p != [] :: p[..|p| - 1] in tabs)
    && (forall p, q | p in tabs && q in tabs && tabs[p] == tabs[q] :: p == q)
  }

  /** What the hardware makes of a path: the leaf entry and its depth, or nothing. A large page in the PML4 is
      reserved, and translates nothing. */
  ghost function Translate(mem: seq<Frame>, t: nat, p: Path, d: nat): (r: Option<(Word, nat)>)
    requires IsPath(p) && d < 4
    ensures r.Some? ==> d <= r.value.1 < 4
    decreases 4 - d
  {
    if t >= |mem| || |mem[t]| != ENTRIES then None
    else
      var w := mem[t][p[d]];
      if !w.present then None
      else if d == 3 then Some((w, 3))
      else if w.huge then (if d == 0 then None else Some((w, d)))
      else Translate(mem, w.frame, p, d + 1)
  }

  /** The walk follows the tree. */
  lemma Step(mem: seq<Frame>, tabs: Tables, p: Path, d: nat)
    requires TreeOk(mem, tabs) && IsPath(p) && d < 4 && p[..d] in tabs
    ensures var t := tabs[p[..d]];
            && t < |mem| && |mem[t]| == ENTRIES
            && (d < 3 && Leads(mem[t][p[d]]) ==> p[..d + 1] in tabs && mem[t][p[d]].frame == tabs[p[..d + 1]])
            && (d < 3 && !Leads(mem[t][p[d]]) ==> p[..d + 1] !in tabs)
  {
    assert Node(mem, tabs, p[..d]);
    assert p[..d] + [p[d]] == p[..d + 1];
  }

  /** A walk sees only the entries on its way. */
  lemma {:induction false} SameWalk(mem: seq<Frame>, mem': seq<Frame>, tabs: Tables, p: Path, d: nat)
    requires TreeOk(mem, tabs) && IsPath(p) && d < 4 && p[..d] in tabs && |mem'| == |mem|
    requires forall e | d <= e < 4 && p[..e] in tabs && tabs[p[..e]] < |mem| ::
              |mem'[tabs[p[..e]]]| == ENTRIES && |mem[tabs[p[..e]]]| == ENTRIES
               && mem'[tabs[p[..e]]][p[e]] == mem[tabs[p[..e]]][p[e]]
    ensures Translate(mem', tabs[p[..d]], p, d) == Translate(mem, tabs[p[..d]], p, d)
    decreases 4 - d
  {
    Step(mem, tabs, p, d);
    if d < 3 && Leads(mem[tabs[p[..d]]][p[d]]) {
      SameWalk(mem, mem', tabs, p, d + 1);
    }
  }

  /** A walk that reaches depth `d` along the tree gives what it gives from there. */
  lemma {:induction false} WalkTo(mem: seq<Frame>, tabs: Tables, p: Path, d: nat)
    requires TreeOk(mem, tabs) && IsPath(p) && d < 4 && p[..d] in tabs
    ensures p[..0] in tabs && Translate(mem, tabs[p[..0]], p, 0) == Translate(mem, tabs[p[..d]], p, d)
    decreases d
  {
    if d > 0 {
      assert p[..d][..d - 1] == p[..d - 1];
      WalkTo(mem, tabs, p, d - 1);
      Step(mem, tabs, p, d - 1);
    }
  }

  // ---- Changing tables --------------------------------------------------------------------------------

  /** Paths through slot `i` of the table at `p`. */
  predicate Goes(q: Path, p: Path, i: nat) { |p| < |q| && q[..|p|] == p && q[|p|] == i }

  /** An empty table has been hung into an absent slot. */
  ghost predicate Hung(mem: seq<Frame>, mem': seq<Frame>, tabs: Tables, p: Path, i: nat, f: nat) {
    && p in tabs && |p| < 3 && i < ENTRIES && f < |mem| == |mem'| && (forall q | q in tabs :: tabs[q] != f)
    && tabs[p] < |mem| && |mem[tabs[p]]| == ENTRIES && !mem[tabs[p]][i].present
    && mem' == mem[f := ZeroFrame()][tabs[p] := mem[tabs[p]][i := TableEntry(f)]]
  }

  /** The slot was free, and no table hangs below the new one. */
  lemma HungChildren(mem: seq<Frame>, tabs: Tables, p: Path, i: nat, f: nat, q: Path, j: nat)
    requires TreeOk(mem, tabs) && p in tabs && |p| < 3 && i < ENTRIES && tabs[p] < |mem| && |mem[tabs[p]]| == ENTRIES
    requires !mem[tabs[p]][i].present
    ensures p + [i] !in tabs
    ensures q + [j] in tabs[p + [i] := f] <==> q + [j] in tabs || (q == p && j == i)
    ensures q == p + [i] ==> q + [j] !in tabs[p + [i] := f]
  {
    assert Node(mem, tabs, p);
    PathsDiffer(q, j, p, i);
    assert (q + [j])[..|q + [j]| - 1] == q;
  }

  /** The rows of the tables after an empty one has been hung at slot `i` of `p`. */
  ghost function HungRow(mem: seq<Frame>, tabs: Tables, p: Path, i: nat, f: nat, q: Path): Frame
    requires q in tabs[p + [i] := f] && i < ENTRIES && (q in tabs ==> tabs[q] < |mem| && |mem[tabs[q]]| == ENTRIES)
  {
    if q == p + [i] then ZeroFrame() else if q == p then mem[tabs[q]][i := TableEntry(f)] else mem[tabs[q]]
  }

  lemma HungRows(mem: seq<Frame>, mem': seq<Frame>, tabs: Tables, p: Path, i: nat, f: nat, q: Path)
    requires TreeOk(mem, tabs) && Hung(mem, mem', tabs, p, i, f) && q in tabs[p + [i] := f]
    ensures q in tabs ==> tabs[q] < |mem| && |mem[tabs[q]]| == ENTRIES
    ensures tabs[p + [i] := f][q] < |mem'| && mem'[tabs[p + [i] := f][q]] == HungRow(mem, tabs, p, i, f, q)
  {
    if q in tabs {
      OldNode(mem, tabs, q);
      Alone(mem, tabs, q, p);
    }
    FreshSlot(mem, mem', tabs, p, i, f);
  }

  lemma HungEntry(mem: seq<Frame>, tabs: Tables, p: Path, i: nat, f: nat, q: Path, j: nat)
    requires TreeOk(mem, tabs) && p in tabs && |p| < 3 && i < ENTRIES && tabs[p] < |mem| && |mem[tabs[p]]| == ENTRIES
    requires !mem[tabs[p]][i].present
    requires q in tabs[p + [i] := f] && (q in tabs ==> tabs[q] < |mem| && |mem[tabs[q]]| == ENTRIES) && |q| < 3
    requires j < ENTRIES
    ensures var w := HungRow(mem, tabs, p, i, f, q)[j];
            && (Leads(w) <==> q + [j] in tabs[p + [i] := f])
            && (q + [j] in tabs[p + [i] := f] ==> w.frame == tabs[p + [i] := f][q + [j]])
  {
    HungChildren(mem, tabs, p, i, f, q, j);
    PathsDiffer(q, j, p, i);
    if q in tabs {
      OldNode(mem, tabs, q);
    }
    hide TreeOk;
  }

  lemma HungNode(mem: seq<Frame>, mem': seq<Frame>, tabs: Tables, p: Path, i: nat, f: nat, q: Path)
    requires TreeOk(mem, tabs) && Hung(mem, mem', tabs, p, i, f) && q in tabs[p + [i] := f]
    ensures Node(mem', tabs[p + [i] := f], q)
  {
    hide TreeOk, HungRow;
    HungRows(mem, mem', tabs, p, i, f, q);
    RowSize(mem, tabs, p, i, f, q);
    if |q| < 3 {
      forall j: nat | j < ENTRIES
        ensures var w := HungRow(mem, tabs, p, i, f, q)[j];
                && (Leads(w) <==> q + [j] in tabs[p + [i] := f])
                && (q + [j] in tabs[p + [i] := f] ==> w.frame == tabs[p + [i] := f][q + [j]])
      {
        HungEntry(mem, tabs, p, i, f, q, j);
      }
    }
  }

  lemma RowSize(mem: seq<Frame>, tabs: Tables, p: Path, i: nat, f: nat, q: Path)
    requires q in tabs[p + [i] := f] && i < ENTRIES && (q in tabs ==> tabs[q] < |mem| && |mem[tabs[q]]| == ENTRIES)
    ensures |HungRow(mem, tabs, p, i, f, q)| == ENTRIES
  {
  }

  lemma OldNode(mem: seq<Frame>, tabs: Tables, q: Path)
    requires TreeOk(mem, tabs) && q in tabs
    ensures Node(mem, tabs, q) && |q| <= 3
  {
  }

  lemma HungTree(mem: seq<Frame>, mem': seq<Frame>, tabs: Tables, p: Path, i: nat, f: nat)
    requires TreeOk(mem, tabs) && Hung(mem, mem', tabs, p, i, f)
    ensures TreeOk(mem', tabs[p + [i] := f])
  {
    var tabs' := tabs[p + [i] := f];
    forall q | q in tabs'
      ensures |q| <= 3 && Node(mem', tabs', q)
    {
      HungNode(mem, mem', tabs, p, i, f, q);
    }
    assert (p + [i])[..|p + [i]| - 1] == p;
  }

  /** Hanging an empty table changes no translation. */
  lemma HungWalk(mem: seq<Frame>, mem': seq<Frame>, tabs: Tables, p: Path, i: nat, f: nat, q: Path)
    requires TreeOk(mem, tabs) && Hung(mem, mem', tabs, p, i, f) && IsPath(q)
    ensures Translate(mem', tabs[[]], q, 0) == Translate(mem, tabs[[]], q, 0)
  {
    hide TreeOk;
    Root(mem, tabs, q);
    if Goes(q, p, i) {
      var tabs' := tabs[p + [i] := f];
      assert q[..|p| + 1] == p + [i];
      HungTree(mem, mem', tabs, p, i, f);
      WalkTo(mem, tabs, q, |p|);
      Root(mem', tabs', q);
      WalkTo(mem', tabs', q, |p| + 1);
    } else {
      forall e | 0 <= e < 4 && q[..e] in tabs && tabs[q[..e]] < |mem|
        ensures |mem[tabs[q[..e]]]| == ENTRIES && |mem'[tabs[q[..e]]]| == ENTRIES
        ensures mem'[tabs[q[..e]]][q[e]] == mem[tabs[q[..e]]][q[e]]
      {
        Step(mem, tabs, q, e);
        Alone(mem, tabs, q[..e], p);
      }
      SameWalk(mem, mem', tabs, q, 0);
    }
  }

  lemma Root(mem: seq<Frame>, tabs: Tables, q: Path)
    requires TreeOk(mem, tabs)
    ensures [] in tabs && q[..0] == []
  {
  }

  lemma Alone(mem: seq<Frame>, tabs: Tables, p: Path, q: Path)
    requires TreeOk(mem, tabs) && p in tabs && q in tabs
    ensures tabs[p] == tabs[q] <==> p == q
  {
  }

  /** Writing a last-level entry changes the translation of its own path and of no other. */
  lemma SetLeaf(mem: seq<Frame>, tabs: Tables, p: Path, i: nat, w: Word)
    requires TreeOk(mem, tabs) && p in tabs && |p| == 3 && i < ENTRIES
    ensures tabs[p] < |mem| && |mem[tabs[p]]| == ENTRIES
    ensures var mem' := mem[tabs[p] := mem[tabs[p]][i := w]];
            && TreeOk(mem', tabs)
            && forall q | IsPath(q) && !Goes(q, p, i) ::
                 Translate(mem', tabs[[]], q, 0) == Translate(mem, tabs[[]], q, 0)
  {
    assert Node(mem, tabs, p);
    var mem' := mem[tabs[p] := mem[tabs[p]][i := w]];
    forall q | q in tabs
      ensures Node(mem', tabs, q)
    {
      assert Node(mem, tabs, q);
    }
    forall q | IsPath(q) && !Goes(q, p, i)
      ensures Translate(mem', tabs[[]], q, 0) == Translate(mem, tabs[[]], q, 0)
    {
      LeafWalk(mem, tabs, p, i, w, q);
    }
  }

  lemma LeafWalk(mem: seq<Frame>, tabs: Tables, p: Path, i: nat, w: Word, q: Path)
    requires TreeOk(mem, tabs) && p in tabs && |p| == 3 && i < ENTRIES && IsPath(q) && !Goes(q, p, i) && tabs[p] < |mem|
    requires |mem[tabs[p]]| == ENTRIES
    ensures Translate(mem[tabs[p] := mem[tabs[p]][i := w]], tabs[[]], q, 0) == Translate(mem, tabs[[]], q, 0)
  {
    hide TreeOk;
    var mem' := mem[tabs[p] := mem[tabs[p]][i := w]];
    Root(mem, tabs, q);
    forall e | 0 <= e < 4 && q[..e] in tabs && tabs[q[..e]] < |mem|
      ensures |mem[tabs[q[..e]]]| == ENTRIES && |mem'[tabs[q[..e]]]| == ENTRIES
      ensures mem'[tabs[q[..e]]][q[e]] == mem[tabs[q[..e]]][q[e]]
    {
      Step(mem, tabs, q, e);
      Alone(mem, tabs, q[..e], p);
    }
    SameWalk(mem, mem', tabs, q, 0);
  }

  // ---- map_page -----------------------------------------------------------------------------------------

  /** A large page stands where a table is needed. */
  ghost predicate Blocked(mem: seq<Frame>, root: nat, p: Path) {
    && IsPath(p) && root < |mem| && |mem[root]| == ENTRIES
    && ((mem[root][p[0]].present && mem[root][p[0]].huge) ||
        (Translate(mem, root, p, 0).Some? && Translate(mem, root, p, 0).value.1 < 3))
  }

  /** Two memories that translate every path the same way. */
  ghost predicate SameTranslation(mem: seq<Frame>, mem': seq<Frame>, root: nat) {
    forall q | IsPath(q) :: Translate(mem', root, q, 0) == Translate(mem, root, q, 0)
  }

  /** The tree `tabs` has become `tabs'`: the old tables are all still there, the new ones lie in frames nobody had,
      and every other frame in use before is as it was. */
  ghost predicate Extends(mem: seq<Frame>, mem': seq<Frame>, tabs: Tables, tabs': Tables, used: set<nat>,
                          used': set<nat>) {
    && |mem'| == |mem| && used' == used + tabs'.Values && (forall q | q in tabs :: q in tabs' && tabs'[q] == tabs[q])
    && (forall q | q in tabs' && q !in tabs :: tabs'[q] !in used)
    && (forall f: nat | f in used && f !in tabs.Values && f < |mem| :: mem'[f] == mem[f])
  }

  lemma FreshSlot(mem: seq<Frame>, mem': seq<Frame>, tabs: Tables, p: Path, i: nat, f: nat)
    requires TreeOk(mem, tabs) && Hung(mem, mem', tabs, p, i, f)
    ensures p + [i] !in tabs
  {
    OldNode(mem, tabs, p);
  }

  lemma AddedValues(tabs: Tables, p: Path, f: nat)
    requires p !in tabs
    ensures tabs[p := f].Values == tabs.Values + {f}
  {
    var tabs' := tabs[p := f];
    assert forall q | q in tabs :: tabs'[q] == tabs[q];
    assert tabs'[p] == f;
  }

  lemma ExtendsHung(mem: seq<Frame>, mem': seq<Frame>, tabs: Tables, used: set<nat>, p: Path, i: nat, f: nat)
    requires TreeOk(mem, tabs) && tabs.Values <= used && Hung(mem, mem', tabs, p, i, f) && f !in used
    ensures Extends(mem, mem', tabs, tabs[p + [i] := f], used, used + {f})
  {
    FreshSlot(mem, mem', tabs, p, i, f);
    hide TreeOk;
    AddedValues(tabs, p + [i], f);
    assert tabs[p] in tabs.Values;
  }

  lemma ExtendsTrans(m0: seq<Frame>, m1: seq<Frame>, m2: seq<Frame>, t0: Tables, t1: Tables, t2: Tables, u0: set<nat>,
                     u1: set<nat>, u2: set<nat>)
    requires Extends(m0, m1, t0, t1, u0, u1) && Extends(m1, m2, t1, t2, u1, u2)
    ensures Extends(m0, m2, t0, t2, u0, u2)
  {
    assert u2 == u0 + t2.Values by {
      forall f | f in t1.Values
        ensures f in t2.Values
      {
        var q :| q in t1 && t1[q] == f;
        assert t2[q] == f;
      }
    }
    forall f: nat | f in u0 && f !in t0.Values && f < |m0|
      ensures m2[f] == m0[f]
    {
      assert f !in t1.Values;
    }
  }

  lemma ExtendsLeaf(mem: seq<Frame>, m1: seq<Frame>, tabs: Tables, tabs1: Tables, used: set<nat>, used1: set<nat>,
                    p: Path, i: nat, w: Word)
    requires Extends(mem, m1, tabs, tabs1, used, used1) && p in tabs1 && tabs1[p] < |m1| && i < |m1[tabs1[p]]|
    ensures Extends(mem, m1[tabs1[p] := m1[tabs1[p]][i := w]], tabs, tabs1, used, used1)
  {
    forall g: nat | g in used && g !in tabs.Values && g < |mem|
      ensures m1[tabs1[p] := m1[tabs1[p]][i := w]][g] == mem[g]
    {
      assert g !in tabs1.Values;
      assert tabs1[p] in tabs1.Values;
    }
  }

  lemma HungSame(mem: seq<Frame>, mem': seq<Frame>, tabs: Tables, p: Path, i: nat, f: nat)
    requires TreeOk(mem, tabs) && Hung(mem, mem', tabs, p, i, f)
    ensures SameTranslation(mem, mem', tabs[[]])
  {
    forall q | IsPath(q)
      ensures Translate(mem', tabs[[]], q, 0) == Translate(mem, tabs[[]], q, 0)
    {
      HungWalk(mem, mem', tabs, p, i, f, q);
    }
  }

  lemma Unchanged(mem: seq<Frame>, tabs: Tables, used: set<nat>)
    requires tabs.Values <= used && [] in tabs
    ensures Extends(mem, mem, tabs, tabs, used, used) && SameTranslation(mem, mem, tabs[[]])
  {
  }

  /** One level of map_page: the table below slot `p[d]`, hung there now if the slot is absent; nothing if there is no
      frame for it or a large page stands in the way. No translation changes. */
  method NextTable(pool: FramePool, t: nat, ghost tabs: Tables, p: Path, d: nat)
    returns (r: Option<nat>, ghost tabs': Tables)
    requires pool.Valid() && TreeOk(pool.mem, tabs) && IsPath(p) && d < 3 && p[..d] in tabs && t == tabs[p[..d]]
    requires tabs.Values <= pool.used
    modifies pool
    ensures pool.Valid() && TreeOk(pool.mem, tabs')
    ensures Extends(old(pool.mem), pool.mem, tabs, tabs', old(pool.used), pool.used)
    ensures SameTranslation(old(pool.mem), pool.mem, tabs[[]])
    ensures r.Some? ==>
              && p[..d + 1] in tabs' && r.value == tabs'[p[..d + 1]]
              && !(old(pool.mem)[t][p[d]].present && old(pool.mem)[t][p[d]].huge)
    ensures r.None? <==> if old(pool.mem)[t][p[d]].present then old(pool.mem)[t][p[d]].huge else old(pool.Left()) == {}
    ensures |tabs'| + |pool.Left()| == |tabs| + |old(pool.Left())| && (old(pool.free) == [] ==> pool.free == [])
    ensures r.Some? ==> tabs'.Keys == tabs.Keys + {p[..d + 1]}
  {
    hide FramePool.Valid, TreeOk, Extends, SameTranslation, FramePool.Left;
    tabs' := tabs;
    Root(pool.mem, tabs, p);
    Unchanged(pool.mem, tabs, pool.used);
    Step(pool.mem, tabs, p, d);
    assert p[..d] + [p[d]] == p[..d + 1];
    assert t in tabs.Values;
    if !pool.mem[t][p[d]].present {
      ghost var before := pool.mem;
      var f := pool.AllocFrame();
      if f.None? {
        return None, tabs;
      }
      assert forall q | q in tabs :: tabs[q] in tabs.Values;
      pool.Write(t, p[d], TableEntry(f.value));
      assert Hung(before, pool.mem, tabs, p[..d], p[d], f.value);
      HungTree(before, pool.mem, tabs, p[..d], p[d], f.value);
      HungSame(before, pool.mem, tabs, p[..d], p[d], f.value);
      ExtendsHung(before, pool.mem, tabs, old(pool.used), p[..d], p[d], f.value);
      tabs' := tabs[p[..d + 1] := f.value];
    }
    var w := pool.mem[t][p[d]];
    if w.huge {
      return None, tabs';
    }
    return Some(w.frame), tabs';
  }

  lemma SameTrans(m0: seq<Frame>, m1: seq<Frame>, m2: seq<Frame>, root: nat)
    requires SameTranslation(m0, m1, root) && SameTranslation(m1, m2, root)
    ensures SameTranslation(m0, m2, root)
  {
  }

  lemma ExtendsRoot(mem: seq<Frame>, mem': seq<Frame>, tabs: Tables, tabs': Tables, used: set<nat>, used': set<nat>)
    requires Extends(mem, mem', tabs, tabs', used, used') && [] in tabs
    ensures [] in tabs' && tabs'[[]] == tabs[[]] && tabs'.Values <= used' && |mem'| == |mem|
  {
  }

  /** A large page met at depth `d` blocks the path; a table reached at depth 3 shows nothing does. */
  lemma BlockedAt(m0: seq<Frame>, mem: seq<Frame>, tabs: Tables, p: Path, d: nat)
    requires TreeOk(mem, tabs) && IsPath(p) && d < 4 && p[..d] in tabs && tabs[p[..d]] < |mem|
    requires |mem[tabs[p[..d]]]| == ENTRIES
    requires SameTranslation(m0, mem, tabs[[]]) && tabs[[]] < |m0| && |m0[tabs[[]]]| == ENTRIES
    requires d == 0 ==> m0 == mem
    ensures d < 3 && mem[tabs[p[..d]]][p[d]].present && mem[tabs[p[..d]]][p[d]].huge ==> Blocked(m0, tabs[[]], p)
    ensures d == 3 && !(m0[tabs[[]]][p[0]].present && m0[tabs[[]]][p[0]].huge) ==> !Blocked(m0, tabs[[]], p)
  {
    WalkTo(mem, tabs, p, d);
    assert p[..0] == [];
  }

  lemma NoTable(mem: seq<Frame>, tabs: Tables, p: Path, d: nat)
    requires TreeOk(mem, tabs) && IsPath(p) && d < 3 && p[..d] in tabs && tabs[p[..d]] < |mem|
    requires |mem[tabs[p[..d]]]| == ENTRIES
    ensures !mem[tabs[p[..d]]][p[d]].present ==> p[..d + 1] !in tabs
  {
    Step(mem, tabs, p, d);
  }

  /** map_page: afterwards the page translates to exactly the entry written and every other page translates as before;
      when a large page is in the way or memory runs out (the source panics) nothing translates differently. */
  method MapPage(pool: FramePool, root: nat, ghost tabs: Tables, page: nat, w: Word)
    returns (ok: bool, ghost tabs': Tables)
    requires pool.Valid() && TreeOk(pool.mem, tabs) && root == tabs[[]] && tabs.Values <= pool.used && w.present
    modifies pool
    ensures pool.Valid() && TreeOk(pool.mem, tabs')
    ensures Extends(old(pool.mem), pool.mem, tabs, tabs', old(pool.used), pool.used)
    ensures ok <==> !Blocked(old(pool.mem), root, Indices(page)) && |old(pool.Left())| >= |Missing(tabs, Indices(page))|
    ensures ok ==> Translate(pool.mem, root, Indices(page), 0) == Some((w, 3))
    ensures ok ==>
              forall q | IsPath(q) && q != Indices(page) ::
                Translate(pool.mem, root, q, 0) == Translate(old(pool.mem), root, q, 0)
    ensures !ok ==> SameTranslation(old(pool.mem), pool.mem, root)
    ensures old(pool.free) == [] ==> pool.free == []
  {
    hide FramePool.Valid, TreeOk, Extends, SameTranslation, FramePool.Left, Indices, Translate, Blocked, Filled,
         Missing;
    var p := Indices(page);
    var t := root;
    tabs' := tabs;
    ghost var m0 := pool.mem;
    Root(m0, tabs, p);
    Unchanged(m0, tabs, pool.used);
    Step(m0, tabs, p, 0);
    FilledStart(tabs, p);
    for d := 0 to 3
      invariant pool.Valid() && TreeOk(pool.mem, tabs') && Extends(m0, pool.mem, tabs, tabs', old(pool.used), pool.used)
      invariant SameTranslation(m0, pool.mem, root) && p[..d] in tabs' && t == tabs'[p[..d]]
      invariant [] in tabs' && tabs'[[]] == root && tabs'.Values <= pool.used
      invariant d == 0 ==> pool.mem == m0
      invariant Filled(tabs, tabs', p, d) && |tabs'| + |pool.Left()| == |tabs| + |old(pool.Left())|
      invariant (old(pool.free) == [] ==> pool.free == [])
      invariant d > 0 ==> !(m0[root][p[0]].present && m0[root][p[0]].huge)
    {
      ghost var m1, t1, u1 := pool.mem, tabs', pool.used;
      Step(m1, t1, p, d);
      BlockedAt(m0, m1, t1, p, d);
      var next;
      next, tabs' := NextTable(pool, t, tabs', p, d);
      ExtendsTrans(m0, m1, pool.mem, tabs, t1, tabs', old(pool.used), u1, pool.used);
      ExtendsRoot(m0, pool.mem, tabs, tabs', old(pool.used), pool.used);
      SameTrans(m0, m1, pool.mem, root);
      if next.None? {
        NoTable(m1, t1, p, d);
        if !m1[t][p[d]].present {
          ShortOf(tabs, t1, p, d);
        }
        return false, tabs';
      }
      FilledStep(tabs, t1, tabs', p, d);
      t := next.value;
    }
    FilledDone(tabs, tabs', p);
    ghost var m3 := pool.mem;
    Step(m3, tabs', p, 3);
    BlockedAt(m0, m3, tabs', p, 3);
    assert t in tabs'.Values;
    pool.Write(t, p[3], w);
    LeafDone(m0, m3, pool.mem, tabs', p, w);
    ExtendsLeaf(m0, m3, tabs, tabs', old(pool.used), pool.used, p[..3], p[3], w);
    ok := true;
  }

  lemma LeafDone(m0: seq<Frame>, mem: seq<Frame>, mem': seq<Frame>, tabs: Tables, p: Path, w: Word)
    requires TreeOk(mem, tabs) && IsPath(p) && p[..3] in tabs && SameTranslation(m0, mem, tabs[[]]) && w.present
    requires tabs[p[..3]] < |mem| && |mem[tabs[p[..3]]]| == ENTRIES
    requires mem' == mem[tabs[p[..3]] := mem[tabs[p[..3]]][p[3] := w]]
    ensures TreeOk(mem', tabs) && Translate(mem', tabs[[]], p, 0) == Some((w, 3))
    ensures forall q | IsPath(q) && q != p :: Translate(mem', tabs[[]], q, 0) == Translate(m0, tabs[[]], q, 0)
  {
    hide TreeOk;
    SetLeaf(mem, tabs, p[..3], p[3], w);
    Root(mem, tabs, p);
    WalkTo(mem', tabs, p, 3);
    forall q | IsPath(q) && q != p
      ensures !Goes(q, p[..3], p[3])
    {
      assert q == q[..3] + [q[3]] && p == p[..3] + [p[3]];
    }
  }

  // ---- range_mapped -------------------------------------------------------------------------------------

  /** The entry a walk along `p` reads at depth `d`. */
  ghost function EntryAt(mem: seq<Frame>, tabs: Tables, p: Path, d: nat): Word
    requires IsPath(p) && d < 4
  {
    if p[..d] in tabs && tabs[p[..d]] < |mem| && |mem[tabs[p[..d]]]| == ENTRIES then mem[tabs[p[..d]]][p[d]] else ZERO
  }

  /** The hardware lets the access through: the path translates, and for a user access every entry read on the way,
      the leaf included, has the user bit. */
  ghost predicate Allowed(mem: seq<Frame>, tabs: Tables, p: Path, user: bool)
    requires IsPath(p) && [] in tabs
  {
    var r := Translate(mem, tabs[[]], p, 0);
    r.Some? && (user ==> forall d | 0 <= d <= r.value.1 :: EntryAt(mem, tabs, p, d).user)
  }

  /** page_present decides `Allowed`. */
  method PagePresent(mem: seq<Frame>, root: nat, ghost tabs: Tables, page: nat, user: bool) returns (b: bool)
    requires TreeOk(mem, tabs) && root == tabs[[]]
    ensures b <==> Allowed(mem, tabs, Indices(page), user)
  {
    hide TreeOk, Indices;
    var p := Indices(page);
    var t := root;
    Root(mem, tabs, p);
    for d := 0 to 4
      invariant d < 4 && p[..d] in tabs && t == tabs[p[..d]]
      invariant user ==> forall e | 0 <= e < d :: EntryAt(mem, tabs, p, e).user
    {
      WalkTo(mem, tabs, p, d);
      Step(mem, tabs, p, d);
      var w := mem[t][p[d]];
      assert w == EntryAt(mem, tabs, p, d);
      if !w.present || (user && !w.user) {
        return false;
      }
      if d == 3 {
        return true;
      }
      if w.huge {
        return d != 0;
      }
      t := w.frame;
    }
    b := false;
  }

  const SPACE: nat := 0x1_0000_0000_0000_0000
  const HALF: nat := 0x8000_0000_0000

  /** Bits 47 to 63 of the address are all equal. */
  predicate Canonical(a: nat) { a < HALF || SPACE - HALF <= a < SPACE }

  /** A byte the access may touch. */
  ghost predicate Reachable(mem: seq<Frame>, tabs: Tables, a: nat, user: bool)
    requires [] in tabs
  {
    Canonical(a) && Allowed(mem, tabs, Indices(a / 4096), user)
  }

  /** is_range_mapped and is_user_range_mapped: true exactly when every byte of the range may be touched and the range
      does not reach the top of the address space; a range whose last byte is the very last one is refused. */
  method RangeMapped(mem: seq<Frame>, root: nat, ghost tabs: Tables, start: nat, len: nat, user: bool) returns (b: bool)
    requires TreeOk(mem, tabs) && root == tabs[[]] && start < SPACE && len < SPACE
    ensures b
            <==> len == 0 ||
                 (start + len < SPACE && forall a: nat | start <= a < start + len :: Reachable(mem, tabs, a, user))
  {
    hide TreeOk, Indices, Allowed;
    Root(mem, tabs, []);
    if len == 0 {
      return true;
    }
    if start + len >= SPACE {
      return false;
    }
    var end := start + len;
    var region := start / HALF;
    if (region != 0 && region != 0x1ffff) || (end - 1) / HALF != region {
      BrokenRange(start, end);
      ghost var a: nat :| start <= a < end && !Canonical(a);
      assert !Reachable(mem, tabs, a, user);
      return false;
    }
    var page := start / 4096;
    var last := (end - 1) / 4096;
    while true
      invariant start / 4096 <= page <= last
      invariant forall q: nat | start / 4096 <= q < page :: Allowed(mem, tabs, Indices(q), user)
      decreases last - page
    {
      var here := PagePresent(mem, root, tabs, page, user);
      if !here {
        ghost var a: nat := if page * 4096 < start then start else page * 4096;
        assert start <= a < end && a / 4096 == page;
        assert !Reachable(mem, tabs, a, user);
        return false;
      }
      if page == last {
        forall a: nat | start <= a < end
          ensures Reachable(mem, tabs, a, user)
        {
          assert start / 4096 <= a / 4096 <= last;
        }
        return true;
      }
      page := page + 1;
    }
  }

  /** The top 1 GiB of the address space is one large page. */
  function TopPage(): seq<Frame> {
    var top := Word(1, true, true, true, false, false);
    [ZeroFrame()[511 := top], ZeroFrame()[511 := top.(huge := true)]]
  }

  /** There, the last byte is refused, and the one before it is not. */
  method TopRefused(user: bool) returns (below: bool, last: bool)
    ensures var tabs := map[[] := 0, [511] := 1];
            && TreeOk(TopPage(), tabs) && Reachable(TopPage(), tabs, SPACE - 2, user)
            && Reachable(TopPage(), tabs, SPACE - 1, user)
    ensures below && !last
  {
    hide TreeOk, Reachable, TopPage;
    ghost var tabs := map[[] := 0, [511] := 1];
    TopTree(tabs);
    TopReached(tabs, user);
    below := RangeMapped(TopPage(), 0, tabs, SPACE - 2, 1, user);
    last := RangeMapped(TopPage(), 0, tabs, SPACE - 1, 1, user);
  }

  lemma TopTree(tabs: Tables)
    requires tabs == map[[] := 0, [511] := 1]
    ensures TreeOk(TopPage(), tabs)
  {
    forall i | 0 <= i < ENTRIES
      ensures ([] + [i] in tabs <==> i == 511) && [511] + [i] !in tabs
    {
      assert ([] + [i])[0] == i && |[511] + [i]| == 2;
      assert i == 511 ==> [] + [i] == [511];
    }
    assert Node(TopPage(), tabs, []) && Node(TopPage(), tabs, [511]);
  }

  lemma TopIndices()
    ensures Indices((SPACE - 1) / 4096) == Indices((SPACE - 2) / 4096) == [511, 511, 511, 511]
  {
  }

  lemma TopReached(tabs: Tables, user: bool)
    requires tabs == map[[] := 0, [511] := 1]
    ensures Reachable(TopPage(), tabs, SPACE - 2, user) && Reachable(TopPage(), tabs, SPACE - 1, user)
  {
    TopIndices();
    hide Indices;
    var p := [511, 511, 511, 511];
    assert p[..0] == [] && p[..1] == [511];
    assert Translate(TopPage(), 1, p, 1) == Some((TopPage()[1][511], 1));
    assert Translate(TopPage(), 0, p, 0) == Some((TopPage()[1][511], 1));
  }

  /** The test on the region number lets exactly the canonical ranges through. */
  lemma BrokenRange(start: nat, end: nat)
    requires start < end < SPACE && ((start / HALF != 0 && start / HALF != 0x1ffff) || (end - 1) / HALF != start / HALF)
    ensures exists a: nat :: start <= a < end && !Canonical(a)
  {
    if start / HALF != 0 && start / HALF != 0x1ffff {
      assert !Canonical(start);
    } else if start < HALF {
      assert !Canonical(HALF);
    }
  }
}
