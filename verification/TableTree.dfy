/** Trees of page tables, flattened: a table is known by the indices on the way to it, the root by the empty path. */
module TableTree {
  import opened Frames

  type Path = seq<nat>
  type Tree = map<Path, nat>

  function TableEntry(f: nat): Word { Word(f, true, true, true, false, false) }

  /** Distinct slots make distinct paths. */
  lemma PathsDiffer(p: Path, i: nat, q: Path, j: nat)
    ensures p + [i] == q + [j] <==> p == q && i == j
  {
    if p + [i] == q + [j] {
      assert (p + [i])[..|p|] == p && (q + [j])[..|q|] == q;
      assert (p + [i])[|p|] == i && (q + [j])[|q|] == j;
    }
  }

  /** The tables on the way along `path`, down to depth `d`. */
  ghost function UpTo(path: Path, d: nat): set<Path>
    requires d <= |path|
  {
    if d == 0 then {} else UpTo(path, d - 1) + {path[..d]}
  }

  /** The tables a page still needs. */
  ghost function Missing(own: Tree, path: Path): set<Path>
    requires |path| >= 3
  {
    UpTo(path, 3) - own.Keys
  }

  lemma KeysCard(own: Tree, own': Tree, m: set<Path>)
    requires own'.Keys == own.Keys + m
    ensures |own'| == |own| + |m - own.Keys| && own'.Keys == own.Keys + (m - own.Keys)
  {
    assert own'.Keys == own.Keys + (m - own.Keys);
  }

  lemma Smaller(a: set<Path>, b: set<Path>)
    requires a <= b
    ensures |a| <= |b| && (a != b ==> |a| < |b|)
  {
    assert b == a + (b - a);
    if a != b {
      var x :| x in b - a;
    }
  }

  lemma UpToGrows(path: Path, d: nat, e: nat)
    requires d <= e <= |path|
    ensures UpTo(path, d) <= UpTo(path, e) && (d < e ==> path[..d + 1] in UpTo(path, e))
    decreases e
  {
    if d < e {
      UpToGrows(path, d, e - 1);
    }
  }

  /** The tables along `path` down to depth `d` have been added. */
  ghost predicate Filled(own: Tree, own': Tree, path: Path, d: nat) {
    d <= |path| && own'.Keys == own.Keys + UpTo(path, d)
  }

  lemma FilledStart(own: Tree, path: Path)
    ensures Filled(own, own, path, 0)
  {
  }

  lemma FilledStep(own: Tree, o1: Tree, own': Tree, path: Path, d: nat)
    requires Filled(own, o1, path, d) && d < |path| && own'.Keys == o1.Keys + {path[..d + 1]}
    ensures Filled(own, own', path, d + 1)
  {
  }

  lemma FilledDone(own: Tree, own': Tree, path: Path)
    requires Filled(own, own', path, 3)
    ensures |path| >= 3 && own'.Keys == own.Keys + Missing(own, path) && |own'| == |own| + |Missing(own, path)|
  {
    KeysCard(own, own', UpTo(path, 3));
  }

  lemma ThreeMissing(own: Tree, path: Path)
    requires |path| == 4
    ensures |Missing(own, path)| <= 3
  {
    Smaller(Missing(own, path), UpTo(path, 3));
    UpToCard(path, 3);
  }

  lemma UpToCard(path: Path, d: nat)
    requires d <= |path|
    ensures |UpTo(path, d)| <= d
  {
  }

  /** Stopped at depth `d` with nothing left: more tables were missing than there were frames. */
  lemma ShortOf(own: Tree, own': Tree, path: Path, d: nat)
    requires |path| >= 3 && d < 3 && Filled(own, own', path, d) && path[..d + 1] !in own'
    ensures |own'| - |own| < |Missing(own, path)|
  {
    KeysCard(own, own', UpTo(path, d));
    UpToGrows(path, d, 3);
    Smaller(UpTo(path, d) - own.Keys, Missing(own, path));
    assert path[..d + 1] in Missing(own, path);
  }
}
