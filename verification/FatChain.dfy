/** Cluster chains: how the FAT links clusters into files.

    A `Shape` is the picture behind a FAT: the chain of every directory slot
    and, for every cluster in a chain, where it sits. `Layout` says that a FAT
    and the first-cluster fields draw exactly that picture; because a cluster
    has one owner and one position, chains that satisfy it are acyclic and
    pairwise disjoint.
  */
module FatChain {
  import opened Basics
  import opened FatLayout

  datatype Loc = Loc(slot: nat, idx: nat)

  datatype Shape = Shape(chains: seq<seq<nat>>, owner: map<nat, Loc>)

  /** Following the FAT from `first` visits exactly `ch`, then meets the end-of-chain mark. */
  ghost predicate IsChain(fat: seq<nat>, max: nat, first: nat, ch: seq<nat>)
    requires max < |fat|
  {
    && (if ch == [] then first == 0 else first == ch[0])
    && (forall a :: 0 <= a < |ch| ==> 2 <= ch[a] <= max)
    && (forall a {:trigger fat[ch[a]]} :: 0 <= a < |ch| ==> fat[ch[a]] == if a + 1 < |ch| then ch[a + 1] else FAT_EOC)
  }

  lemma ChainAt(fat: seq<nat>, max: nat, first: nat, ch: seq<nat>, k: nat)
    requires max < |fat| && IsChain(fat, max, first, ch) && k < |ch|
    ensures 2 <= ch[k] <= max && fat[ch[k]] == if k + 1 < |ch| then ch[k + 1] else FAT_EOC
  {
  }

  ghost predicate Owned(sh: Shape) {
    && |sh.chains| == DIR_ENTRIES
    && (forall i, a {:trigger sh.chains[i][a]} :: 0 <= i < DIR_ENTRIES && 0 <= a < |sh.chains[i]| ==>
          sh.chains[i][a] in sh.owner && sh.owner[sh.chains[i][a]] == Loc(i, a))
    && (forall c :: c in sh.owner ==>
          var at := sh.owner[c];
          at.slot < DIR_ENTRIES && at.idx < |sh.chains[at.slot]| && sh.chains[at.slot][at.idx] == c)
  }

  ghost predicate Layout(fat: seq<nat>, max: nat, firsts: seq<nat>, sh: Shape) {
    && |fat| == FAT_ENTRIES && 1 <= max < FAT_ENTRIES
    && |firsts| == DIR_ENTRIES
    && Owned(sh)
    && (forall i :: 0 <= i < DIR_ENTRIES ==> IsChain(fat, max, firsts[i], sh.chains[i]))
  }

  /** Every cluster in use belongs to some chain. */
  ghost predicate NoLeak(fat: seq<nat>, max: nat, sh: Shape)
    requires max < |fat|
  {
    forall c :: 2 <= c <= max && fat[c] != FAT_FREE ==> c in sh.owner
  }

  /** No cluster can be allocated. */
  ghost predicate Full(fat: seq<nat>, max: nat)
    requires max < |fat|
  {
    forall c :: 2 <= c <= max ==> fat[c] != FAT_FREE
  }

  /** Chains are acyclic, pairwise disjoint and inside the data region. */
  lemma ChainsDisjoint(fat: seq<nat>, max: nat, firsts: seq<nat>, sh: Shape, i: nat, a: nat, j: nat, b: nat)
    requires Layout(fat, max, firsts, sh)
    requires i < DIR_ENTRIES && a < |sh.chains[i]| && j < DIR_ENTRIES && b < |sh.chains[j]|
    ensures sh.chains[i][a] == sh.chains[j][b] <==> i == j && a == b
    ensures 2 <= sh.chains[i][a] <= max
  {
    assert sh.owner[sh.chains[i][a]] == Loc(i, a);
    assert sh.owner[sh.chains[j][b]] == Loc(j, b);
    assert IsChain(fat, max, firsts[i], sh.chains[i]);
  }

  /** The FAT alone determines the chains: a Layout has one picture. */
  lemma {:induction false} ChainUnique(fat: seq<nat>, max: nat, first: nat, ch: seq<nat>, ch': seq<nat>)
    requires max < |fat| && max < FAT_RESERVED
    requires IsChain(fat, max, first, ch) && IsChain(fat, max, first, ch')
    ensures ch == ch'
    decreases |ch|
  {
    if ch != [] && ch' != [] {
      assert fat[first] == if 1 < |ch| then ch[1] else FAT_EOC;
      assert fat[first] == if 1 < |ch'| then ch'[1] else FAT_EOC;
      if |ch| > 1 && |ch'| > 1 {
        ChainTail(fat, max, ch);
        ChainTail(fat, max, ch');
        ChainUnique(fat, max, ch[1], ch[1..], ch'[1..]);
        assert ch == [ch[0]] + ch[1..] && ch' == [ch'[0]] + ch'[1..];
      } else {
        assert ch == [first] && ch' == [first];
      }
    }
  }

  lemma ChainTail(fat: seq<nat>, max: nat, ch: seq<nat>)
    requires max < |fat| && |ch| >= 2
    requires IsChain(fat, max, ch[0], ch)
    ensures IsChain(fat, max, ch[1], ch[1..])
  {
    var t := ch[1..];
    forall a | 0 <= a < |t|
      ensures fat[t[a]] == if a + 1 < |t| then t[a + 1] else FAT_EOC
    {
      assert fat[ch[a + 1]] == if a + 2 < |ch| then ch[a + 2] else FAT_EOC;
    }
  }

  /** A cluster in a chain is not marked free, so the allocator cannot return it. */
  lemma OwnedInUse(fat: seq<nat>, max: nat, firsts: seq<nat>, sh: Shape, c: nat)
    requires Layout(fat, max, firsts, sh)
    requires c in sh.owner
    ensures 2 <= c <= max && fat[c] != FAT_FREE
  {
    var at := sh.owner[c];
    assert IsChain(fat, max, firsts[at.slot], sh.chains[at.slot]);
    assert fat[sh.chains[at.slot][at.idx]] != FAT_FREE;
  }

  // ---- Growing a chain --------------------------------------------------------

  function Last(ch: seq<nat>): nat { if ch == [] then 0 else ch[|ch| - 1] }

  function Extended(sh: Shape, slot: nat, c: nat): Shape
    requires slot < |sh.chains|
  {
    Shape(sh.chains[slot := sh.chains[slot] + [c]], sh.owner[c := Loc(slot, |sh.chains[slot]|)])
  }

  function ExtendedFat(fat: seq<nat>, ch: seq<nat>, c: nat): seq<nat>
    requires c < |fat| && Last(ch) < |fat|
  {
    if ch == [] then fat[c := FAT_EOC] else fat[c := FAT_EOC][Last(ch) := c]
  }

  /** The clusters alloc_cluster_unlocked can still find. */
  ghost function FreeClusters(fat: seq<nat>, max: nat): set<nat>
    requires max < |fat|
  {
    set c: nat | 2 <= c <= max && fat[c] == FAT_FREE
  }

  lemma FullIsNone(fat: seq<nat>, max: nat)
    requires max < |fat|
    ensures Full(fat, max) <==> |FreeClusters(fat, max)| == 0
  {
    if !Full(fat, max) {
      var c :| 2 <= c <= max && fat[c] == FAT_FREE;
      assert c in FreeClusters(fat, max);
    }
  }

  /** Linking a cluster uses up that one. */
  lemma ExtendFree(fat: seq<nat>, max: nat, ch: seq<nat>, c: nat)
    requires 2 <= c <= max < |fat| && fat[c] == FAT_FREE && Last(ch) < |fat| && (ch != [] ==> fat[Last(ch)] != FAT_FREE)
    ensures |FreeClusters(ExtendedFat(fat, ch, c), max)| == |FreeClusters(fat, max)| - 1
  {
    assert FreeClusters(ExtendedFat(fat, ch, c), max) == FreeClusters(fat, max) - {c};
  }

  lemma ExtendOwned(sh: Shape, slot: nat, c: nat)
    requires Owned(sh) && slot < DIR_ENTRIES && c !in sh.owner
    ensures Owned(Extended(sh, slot, c))
  {
    var sh' := Extended(sh, slot, c);
    forall i, a | 0 <= i < DIR_ENTRIES && 0 <= a < |sh'.chains[i]|
      ensures sh'.chains[i][a] in sh'.owner && sh'.owner[sh'.chains[i][a]] == Loc(i, a)
    {
      if i == slot && a == |sh.chains[slot]| {
      } else {
        assert sh'.chains[i][a] == sh.chains[i][a];
      }
    }
  }

  /** Linking a free cluster behind the last cluster of a slot's chain (or as its first). */
  lemma ExtendLayout(fat: seq<nat>, max: nat, firsts: seq<nat>, sh: Shape, slot: nat, c: nat)
    requires Layout(fat, max, firsts, sh)
    requires slot < DIR_ENTRIES && 2 <= c <= max && fat[c] == FAT_FREE
    ensures Last(sh.chains[slot]) < |fat|
    ensures c !in sh.owner
    ensures var ch := sh.chains[slot];
            Layout(ExtendedFat(fat, ch, c), max, if ch == [] then firsts[slot := c] else firsts, Extended(sh, slot, c))
  {
    if c in sh.owner {
      OwnedInUse(fat, max, firsts, sh, c);
    }
    var ch := sh.chains[slot];
    assert IsChain(fat, max, firsts[slot], ch);
    ExtendOwned(sh, slot, c);
    var sh' := Extended(sh, slot, c);
    forall i | 0 <= i < DIR_ENTRIES
      ensures IsChain(ExtendedFat(fat, ch, c), max, (if ch == [] then firsts[slot := c] else firsts)[i], sh'.chains[i])
    {
      ExtendChain(fat, max, firsts, sh, slot, c, i);
    }
  }

  lemma ExtendChain(fat: seq<nat>, max: nat, firsts: seq<nat>, sh: Shape, slot: nat, c: nat, i: nat)
    requires Layout(fat, max, firsts, sh)
    requires slot < DIR_ENTRIES && 2 <= c <= max && c !in sh.owner && i < DIR_ENTRIES
    requires Last(sh.chains[slot]) < |fat|
    ensures var ch := sh.chains[slot];
            IsChain(ExtendedFat(fat, ch, c), max, (if ch == [] then firsts[slot := c] else firsts)[i],
                    Extended(sh, slot, c).chains[i])
  {
    var ch := sh.chains[slot];
    var fat' := ExtendedFat(fat, ch, c);
    var before, after := sh.chains[i], Extended(sh, slot, c).chains[i];
    assert IsChain(fat, max, firsts[i], before);
    if ch != [] {
      assert sh.owner[ch[|ch| - 1]] == Loc(slot, |ch| - 1);
    }
    forall a | 0 <= a < |after|
      ensures fat'[after[a]] == if a + 1 < |after| then after[a + 1] else FAT_EOC
    {
      if a < |before| {
        assert after[a] == before[a];
        assert sh.owner[sh.chains[i][a]] == Loc(i, a);
      }
    }
  }

  lemma ExtendNoLeak(fat: seq<nat>, max: nat, sh: Shape, slot: nat, c: nat)
    requires max < |fat| && slot < |sh.chains| && c <= max && Last(sh.chains[slot]) < |fat|
    requires Owned(sh) && NoLeak(fat, max, sh)
    ensures NoLeak(ExtendedFat(fat, sh.chains[slot], c), max, Extended(sh, slot, c))
  {
  }

  // ---- Releasing a chain --------------------------------------------------------

  function Cleared(sh: Shape, slot: nat): Shape
    requires slot < |sh.chains|
  {
    Shape(sh.chains[slot := []], sh.owner - (set c | c in sh.chains[slot]))
  }

  /** `fat` with the clusters of `ch` marked free. */
  function ClearedFat(fat: seq<nat>, ch: seq<nat>): (r: seq<nat>)
    ensures |r| == |fat|
    ensures forall c :: 0 <= c < |fat| ==> r[c] == if c in ch then FAT_FREE else fat[c]
  {
    seq(|fat|, c requires 0 <= c < |fat| => if c in ch then FAT_FREE else fat[c])
  }

  lemma ClearOwned(sh: Shape, slot: nat)
    requires Owned(sh) && slot < DIR_ENTRIES
    ensures Owned(Cleared(sh, slot))
    ensures forall i, a :: 0 <= i < DIR_ENTRIES && i != slot && 0 <= a < |sh.chains[i]| ==>
              sh.chains[i][a] !in sh.chains[slot]
  {
    forall i, a | 0 <= i < DIR_ENTRIES && i != slot && 0 <= a < |sh.chains[i]|
      ensures sh.chains[i][a] !in sh.chains[slot]
    {
      assert sh.owner[sh.chains[i][a]] == Loc(i, a);
    }
  }

  lemma ClearLayout(fat: seq<nat>, max: nat, firsts: seq<nat>, sh: Shape, slot: nat)
    requires Layout(fat, max, firsts, sh)
    requires slot < DIR_ENTRIES
    ensures Layout(ClearedFat(fat, sh.chains[slot]), max, firsts[slot := 0], Cleared(sh, slot))
  {
    ClearOwned(sh, slot);
    var fat' := ClearedFat(fat, sh.chains[slot]);
    forall i | 0 <= i < DIR_ENTRIES
      ensures IsChain(fat', max, firsts[slot := 0][i], Cleared(sh, slot).chains[i])
    {
      assert IsChain(fat, max, firsts[i], sh.chains[i]);
    }
  }

  // ---- Walking and freeing, on any FAT -------------------------------------------

  ghost function InUse(fat: seq<nat>): set<nat> { set c: nat | c < |fat| && fat[c] != FAT_FREE }

  /** free_cluster_chain_unlocked: the FAT it leaves and whether it met an entry outside the FAT. The
      recursion is well founded on every FAT, cyclic or corrupt, because each step frees an entry in
      use or stops at the entry after it. */
  ghost function FreeWalk(fat: seq<nat>, current: nat): (r: (seq<nat>, bool))
    requires |fat| == FAT_ENTRIES
    ensures |r.0| == FAT_ENTRIES
    ensures InUse(r.0) <= InUse(fat)
    ensures forall c :: 0 <= c < FAT_ENTRIES ==> r.0[c] == fat[c] || r.0[c] == FAT_FREE
    decreases InUse(fat), if IsDataCluster(current) then 1 else 0
  {
    if !IsDataCluster(current) then (fat, true)
    else if current >= FAT_ENTRIES then (fat, false)
    else
      var next := fat[current];
      var fat' := fat[current := FAT_FREE];
      assert InUse(fat') == InUse(fat) - {current};
      if next >= FAT_RESERVED then (fat', true) else FreeWalk(fat', next)
  }

  ghost predicate Distinct(ch: seq<nat>) {
    forall a, b :: 0 <= a < b < |ch| ==> ch[a] != ch[b]
  }

  /** Freeing the head of a chain leaves the rest of it a chain. */
  lemma FreeHead(fat: seq<nat>, max: nat, ch: seq<nat>)
    requires max < |fat| && |ch| >= 2 && IsChain(fat, max, ch[0], ch) && Distinct(ch)
    ensures IsChain(fat[ch[0] := FAT_FREE], max, ch[1], ch[1..]) && Distinct(ch[1..])
  {
    ChainTail(fat, max, ch);
    var t := ch[1..];
    forall a | 0 <= a < |t|
      ensures fat[ch[0] := FAT_FREE][t[a]] == fat[t[a]]
    {
      assert ch[0] != ch[a + 1];
    }
  }

  lemma ClearedSplit(fat: seq<nat>, ch: seq<nat>)
    requires ch != [] && ch[0] < |fat|
    ensures ClearedFat(fat, ch) == ClearedFat(fat[ch[0] := FAT_FREE], ch[1..])
  {
    assert ch == [ch[0]] + ch[1..];
  }

  /** On a chain, freeing marks free exactly the clusters of the chain. */
  lemma {:induction false} FreeWalkChain(fat: seq<nat>, max: nat, ch: seq<nat>)
    requires |fat| == FAT_ENTRIES && max < FAT_ENTRIES
    requires ch != [] && IsChain(fat, max, ch[0], ch) && Distinct(ch)
    ensures FreeWalk(fat, ch[0]) == (ClearedFat(fat, ch), true)
    decreases |ch|
  {
    hide InUse, ClearedFat;
    ClearedSplit(fat, ch);
    assert fat[ch[0]] == if 1 < |ch| then ch[1] else FAT_EOC;
    if |ch| == 1 {
      assert ClearedFat(fat[ch[0] := FAT_FREE], ch[1..]) == fat[ch[0] := FAT_FREE];
    } else {
      FreeHead(fat, max, ch);
      FreeWalkChain(fat[ch[0] := FAT_FREE], max, ch[1..]);
    }
  }

  /** walk_chain_unlocked: the cluster before the one `steps` links from `first`, and that cluster. */
  function Walk(fat: seq<nat>, prev: nat, cluster: nat, steps: nat): Result<(nat, nat)>
    requires |fat| == FAT_ENTRIES
    decreases steps
  {
    if steps == 0 then Ok((prev, cluster))
    else if !IsDataCluster(cluster) then Err(DeviceError)
    else if cluster >= FAT_ENTRIES then Err(InvalidArgument)
    else Walk(fat, cluster, fat[cluster], steps - 1)
  }

  /** The cluster of a chain at position `k`, or what a walk finds just past its end. */
  function At(ch: seq<nat>, k: nat): nat
    requires k <= |ch|
  {
    if k < |ch| then ch[k] else if ch == [] then 0 else FAT_EOC
  }

  lemma {:induction false} WalkChain(fat: seq<nat>, max: nat, first: nat, ch: seq<nat>, from: nat, steps: nat)
    requires |fat| == FAT_ENTRIES && max < FAT_ENTRIES
    requires IsChain(fat, max, first, ch)
    requires from + steps <= |ch|
    ensures Walk(fat, if from == 0 then 0 else ch[from - 1], At(ch, from), steps)
         == Ok((if from + steps == 0 then 0 else ch[from + steps - 1], At(ch, from + steps)))
    decreases steps
  {
    if steps > 0 {
      assert fat[ch[from]] == At(ch, from + 1);
      WalkChain(fat, max, first, ch, from + 1, steps - 1);
    }
  }
}
