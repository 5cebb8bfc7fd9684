/** The volume invariant and the files a well-formed volume holds.

    `Wf` is what every filesystem operation keeps. `Files` is the abstract
    state: for each of the 256 directory slots, the name and the byte string
    stored there. Operations are specified by what they do to `Files`.
  */
module FatVolume {
  import opened Basics
  import opened FatLayout
  import opened FatChain
  import opened FatDisk
  import opened FatContent

  datatype Slot = Unused | Used(name: seq<byte>, bytes: seq<byte>)

  ghost function Firsts(dir: seq<DirEntry>): (r: seq<nat>)
    ensures |r| == |dir| && forall i :: 0 <= i < |dir| ==> r[i] == dir[i].first
  {
    seq(|dir|, i requires 0 <= i < |dir| => dir[i].first)
  }

  /** A slot is free, or in use with a chain long enough for its size. */
  ghost predicate EntryOk(e: DirEntry, ch: seq<nat>) {
    (e.inUse == 0 && e.first == 0 && ch == []) || (e.inUse == 1 && e.size <= CLUSTER * |ch|)
  }

  ghost predicate Wf(vol: Volume, max: nat, sh: Shape) {
    && Widths(vol, max)
    && Layout(vol.fat, max, Firsts(vol.dir), sh)
    && (forall i :: 0 <= i < DIR_ENTRIES ==> EntryOk(vol.dir[i], sh.chains[i]))
  }

  /** The non-free data clusters are exactly the clusters of the directory's chains. */
  lemma Conservation(vol: Volume, max: nat, sh: Shape)
    requires Wf(vol, max, sh)
    ensures NoLeak(vol.fat, max, sh) <==>
            (set c: nat | 2 <= c <= max && vol.fat[c] != FAT_FREE) ==
            (set i: nat, a: nat | i < DIR_ENTRIES && a < |sh.chains[i]| :: sh.chains[i][a])
  {
    ChainedIsOwned(sh);
    forall c | c in sh.owner
      ensures 2 <= c <= max && vol.fat[c] != FAT_FREE
    {
      OwnedInUse(vol.fat, max, Firsts(vol.dir), sh, c);
    }
  }

  lemma ChainedIsOwned(sh: Shape)
    requires Owned(sh)
    ensures (set i: nat, a: nat | i < DIR_ENTRIES && a < |sh.chains[i]| :: sh.chains[i][a]) == sh.owner.Keys
  {
    forall c | c in sh.owner
      ensures c in set i: nat, a: nat | i < DIR_ENTRIES && a < |sh.chains[i]| :: sh.chains[i][a]
    {
      var at := sh.owner[c];
      assert sh.chains[at.slot][at.idx] == c;
    }
  }

  lemma SlotCovers(vol: Volume, max: nat, sh: Shape, i: nat)
    requires Wf(vol, max, sh) && i < DIR_ENTRIES && vol.dir[i].inUse == 1
    ensures Covers(vol.data, sh.chains[i], vol.dir[i].size)
  {
    assert IsChain(vol.fat, max, Firsts(vol.dir)[i], sh.chains[i]);
    assert EntryOk(vol.dir[i], sh.chains[i]);
  }

  ghost function SlotOf(vol: Volume, max: nat, sh: Shape, i: nat): Slot
    requires Wf(vol, max, sh) && i < DIR_ENTRIES
  {
    if vol.dir[i].inUse == 1 then
      SlotCovers(vol, max, sh, i);
      Used(NulPrefix(vol.dir[i].name), Content(vol.data, sh.chains[i], vol.dir[i].size))
    else
      Unused
  }

  ghost function Files(vol: Volume, max: nat, sh: Shape): (r: seq<Slot>)
    requires Wf(vol, max, sh)
    ensures |r| == DIR_ENTRIES
    ensures forall i {:trigger r[i]} :: 0 <= i < DIR_ENTRIES ==> r[i] == SlotOf(vol, max, sh, i)
  {
    seq(DIR_ENTRIES, i requires 0 <= i < DIR_ENTRIES => SlotOf(vol, max, sh, i))
  }

  /** What slot `i` shows depends only on its entry, its chain and the clusters of that chain. */
  lemma SlotFrame(vol: Volume, sh: Shape, vol': Volume, sh': Shape, max: nat, i: nat)
    requires Wf(vol, max, sh) && Wf(vol', max, sh') && i < DIR_ENTRIES
    requires vol'.dir[i] == vol.dir[i] && sh'.chains[i] == sh.chains[i]
    requires forall a ::
              0 <= a < |sh.chains[i]| ==>
                sh.chains[i][a] < |vol.data| && vol'.data[sh.chains[i][a]] == vol.data[sh.chains[i][a]]
    ensures SlotOf(vol', max, sh', i) == SlotOf(vol, max, sh, i)
  {
    if vol.dir[i].inUse == 1 {
      SlotCovers(vol, max, sh, i);
      ContentFrame(vol.data, vol'.data, sh.chains[i], vol.dir[i].size);
    }
  }

  /** If only `slot` was touched, and clusters only where `slot` owns them, `Files` changes only there. */
  lemma FilesFrame(vol: Volume, sh: Shape, vol': Volume, sh': Shape, max: nat, slot: nat)
    requires Wf(vol, max, sh) && Wf(vol', max, sh') && slot < DIR_ENTRIES
    requires forall i ::
              0 <= i < DIR_ENTRIES && i != slot ==> vol'.dir[i] == vol.dir[i] && sh'.chains[i] == sh.chains[i]
    requires forall c :: c in sh.owner && c <= max && sh.owner[c].slot != slot ==> vol'.data[c] == vol.data[c]
    ensures Files(vol', max, sh') == Files(vol, max, sh)[slot := SlotOf(vol', max, sh', slot)]
  {
    forall i: nat | i < DIR_ENTRIES && i != slot
      ensures SlotOf(vol', max, sh', i) == SlotOf(vol, max, sh, i)
    {
      OtherSlotFrame(vol, sh, vol', sh', max, slot, i);
    }
  }

  lemma OtherSlotFrame(vol: Volume, sh: Shape, vol': Volume, sh': Shape, max: nat, slot: nat, i: nat)
    requires Wf(vol, max, sh) && Wf(vol', max, sh') && slot < DIR_ENTRIES && i < DIR_ENTRIES && i != slot
    requires vol'.dir[i] == vol.dir[i] && sh'.chains[i] == sh.chains[i]
    requires forall c :: c in sh.owner && c <= max && sh.owner[c].slot != slot ==> vol'.data[c] == vol.data[c]
    ensures SlotOf(vol', max, sh', i) == SlotOf(vol, max, sh, i)
  {
    assert IsChain(vol.fat, max, Firsts(vol.dir)[i], sh.chains[i]);
    forall a | 0 <= a < |sh.chains[i]|
      ensures sh.chains[i][a] < |vol.data| && vol'.data[sh.chains[i][a]] == vol.data[sh.chains[i][a]]
    {
      assert sh.owner[sh.chains[i][a]] == Loc(i, a);
    }
    SlotFrame(vol, sh, vol', sh', max, i);
  }

  // ---- Emptying and filling a slot -------------------------------------------------

  lemma FirstsUpdate(dir: seq<DirEntry>, slot: nat, e: DirEntry)
    requires slot < |dir|
    ensures Firsts(dir[slot := e]) == Firsts(dir)[slot := e.first]
  {
  }

  /** The chain of a slot is what free_cluster_chain_unlocked frees. */
  lemma FreeWalkSlot(vol: Volume, max: nat, sh: Shape, slot: nat)
    requires Wf(vol, max, sh) && slot < DIR_ENTRIES && sh.chains[slot] != []
    ensures FreeWalk(vol.fat, vol.dir[slot].first) == (ClearedFat(vol.fat, sh.chains[slot]), true)
  {
    var ch := sh.chains[slot];
    assert IsChain(vol.fat, max, Firsts(vol.dir)[slot], ch);
    forall a, b | 0 <= a < b < |ch|
      ensures ch[a] != ch[b]
    {
      assert sh.owner[sh.chains[slot][a]] == Loc(slot, a) && sh.owner[sh.chains[slot][b]] == Loc(slot, b);
    }
    FreeWalkChain(vol.fat, max, ch);
  }

  /** A slot without a chain has no clusters to free. */
  lemma NoChain(vol: Volume, max: nat, sh: Shape, slot: nat)
    requires Wf(vol, max, sh) && slot < DIR_ENTRIES
    ensures vol.dir[slot].first == 0 <==> sh.chains[slot] == []
    ensures vol.dir[slot].first != 0 ==> 2 <= vol.dir[slot].first <= max
    ensures sh.chains[slot] == [] ==> ClearedFat(vol.fat, sh.chains[slot]) == vol.fat && Cleared(sh, slot) == sh
  {
    assert IsChain(vol.fat, max, Firsts(vol.dir)[slot], sh.chains[slot]);
    if sh.chains[slot] == [] {
      assert ClearedFat(vol.fat, []) == vol.fat;
      assert sh.chains[slot := []] == sh.chains;
      assert sh.owner - (set c | c in sh.chains[slot]) == sh.owner;
    }
  }

  /** The volume after a slot's chain is freed and `e`, an entry without data, is stored in the slot. */
  ghost function Released(vol: Volume, sh: Shape, slot: nat, e: DirEntry): Volume
    requires slot < |vol.dir| && slot < |sh.chains|
  {
    vol.(fat := ClearedFat(vol.fat, sh.chains[slot]), dir := vol.dir[slot := e])
  }

  /** Freeing a slot's chain and storing an entry without data: truncation and deletion. */
  lemma ReleaseSlot(vol: Volume, max: nat, sh: Shape, slot: nat, e: DirEntry)
    requires Wf(vol, max, sh) && slot < DIR_ENTRIES
    requires ValidEntry(e) && e.first == 0 && e.size == 0 && e.inUse <= 1
    ensures Wf(Released(vol, sh, slot, e), max, Cleared(sh, slot))
    ensures Files(Released(vol, sh, slot, e), max, Cleared(sh, slot)) ==
            Files(vol, max, sh)[slot := if e.inUse == 1 then Used(NulPrefix(e.name), []) else Unused]
    ensures NoLeak(vol.fat, max, sh) ==> NoLeak(Released(vol, sh, slot, e).fat, max, Cleared(sh, slot))
  {
    var vol', sh' := Released(vol, sh, slot, e), Cleared(sh, slot);
    ClearLayout(vol.fat, max, Firsts(vol.dir), sh, slot);
    FirstsUpdate(vol.dir, slot, e);
    forall i | 0 <= i < DIR_ENTRIES
      ensures EntryOk(vol'.dir[i], sh'.chains[i])
    {
      assert EntryOk(vol.dir[i], sh.chains[i]);
    }
    FilesFrame(vol, sh, vol', sh', max, slot);
    if e.inUse == 1 {
      SlotCovers(vol', max, sh', slot);
      assert Content(vol'.data, [], 0) == [];
    }
  }

  /** Storing an empty file in an unused slot. */
  lemma OccupySlot(vol: Volume, max: nat, sh: Shape, slot: nat, e: DirEntry)
    requires Wf(vol, max, sh) && slot < DIR_ENTRIES && vol.dir[slot].inUse == 0
    requires ValidEntry(e) && e.first == 0 && e.size == 0 && e.inUse == 1
    ensures Wf(vol.(dir := vol.dir[slot := e]), max, sh)
    ensures Files(vol.(dir := vol.dir[slot := e]), max, sh) == Files(vol, max, sh)[slot := Used(NulPrefix(e.name), [])]
  {
    assert EntryOk(vol.dir[slot], sh.chains[slot]);
    NoChain(vol, max, sh, slot);
    ReleaseSlot(vol, max, sh, slot, e);
  }

  // ---- The directory as a map from names to byte strings ---------------------------

  predicate Named(e: DirEntry, name: seq<byte>) { e.inUse == 1 && NulPrefix(e.name) == name }

  /** The slot find_file_unlocked reports for `name`: the first that carries it, or |dir|. */
  function FirstNamed(dir: seq<DirEntry>, name: seq<byte>, from: nat := 0): (r: nat)
    requires from <= |dir|
    ensures from <= r <= |dir|
    ensures r < |dir| ==> Named(dir[r], name)
    ensures forall j :: from <= j < r ==> !Named(dir[j], name)
    decreases |dir| - from
  {
    if from == |dir| || Named(dir[from], name) then from else FirstNamed(dir, name, from + 1)
  }

  /** The slot find_free_dir_slot_unlocked reports: the first unused one, or |dir|. */
  function FirstFree(dir: seq<DirEntry>, from: nat := 0): (r: nat)
    requires from <= |dir|
    ensures from <= r <= |dir|
    ensures r < |dir| ==> dir[r].inUse == 0
    ensures forall j :: from <= j < r ==> dir[j].inUse != 0
    decreases |dir| - from
  {
    if from == |dir| || dir[from].inUse == 0 then from else FirstFree(dir, from + 1)
  }

  ghost predicate UniqueNames(files: seq<Slot>) {
    forall i, j :: 0 <= i < j < |files| && files[i].Used? && files[j].Used? ==> files[i].name != files[j].name
  }

  /** The bytes stored under `name`, by the first slot that carries it. */
  ghost function Lookup(files: seq<Slot>, name: seq<byte>): (r: seq<seq<byte>>)
  {
    if files == [] then []
    else if files[0].Used? && files[0].name == name then [files[0].bytes]
    else Lookup(files[1..], name)
  }

  lemma {:induction false} LookupAt(files: seq<Slot>, i: nat)
    requires UniqueNames(files) && i < |files| && files[i].Used?
    ensures Lookup(files, files[i].name) == [files[i].bytes]
    decreases i
  {
    if i > 0 {
      assert files[0].Used? ==> files[0].name != files[i].name;
      assert forall a, b :: 0 <= a < b < |files[1..]| ==>
               files[1..][a] == files[a + 1] && files[1..][b] == files[b + 1];
      LookupAt(files[1..], i - 1);
    }
  }

  lemma {:induction false} LookupAbsent(files: seq<Slot>, name: seq<byte>)
    requires forall i :: 0 <= i < |files| && files[i].Used? ==> files[i].name != name
    ensures Lookup(files, name) == []
    decreases |files|
  {
    if files != [] {
      LookupAbsent(files[1..], name);
    }
  }

  lemma {:induction false} LookupOther(files: seq<Slot>, slot: nat, s: Slot, name: seq<byte>)
    requires slot < |files|
    requires files[slot].Used? ==> files[slot].name != name
    requires s.Used? ==> s.name != name
    ensures Lookup(files[slot := s], name) == Lookup(files, name)
    decreases slot
  {
    if slot > 0 {
      LookupOther(files[1..], slot - 1, s, name);
      assert files[slot := s][1..] == files[1..][slot - 1 := s];
    } else {
      assert files[slot := s][1..] == files[1..];
    }
  }

  /** Replacing a slot is a map update: the new name reads the new bytes, a dropped name reads nothing,
      every other name reads what it read before. */
  lemma SlotUpdateIsMapUpdate(files: seq<Slot>, slot: nat, s: Slot, name: seq<byte>)
    requires slot < |files| && UniqueNames(files) && UniqueNames(files[slot := s])
    ensures Lookup(files[slot := s], name) ==
            if s.Used? && s.name == name then [s.bytes]
            else if files[slot].Used? && files[slot].name == name then []
            else Lookup(files, name)
  {
    var files' := files[slot := s];
    if s.Used? && s.name == name {
      assert files'[slot] == s;
      LookupAt(files', slot);
    } else if files[slot].Used? && files[slot].name == name {
      forall i | 0 <= i < |files'| && files'[i].Used?
        ensures files'[i].name != name
      {
        if i < slot {
          assert files'[i] == files[i];
        } else if i > slot {
          assert files'[i] == files[i];
        }
      }
      LookupAbsent(files', name);
    } else {
      LookupOther(files, slot, s, name);
    }
  }

  /** Adding an entry keeps names unique exactly when no entry already shows the stored name. */
  lemma UniqueAfterAdd(files: seq<Slot>, slot: nat, name: seq<byte>, bytes: seq<byte>)
    requires slot < |files| && files[slot].Unused? && UniqueNames(files)
    ensures UniqueNames(files[slot := Used(name, bytes)]) <==>
            (forall i :: 0 <= i < |files| && files[i].Used? ==> files[i].name != name)
  {
    var files' := files[slot := Used(name, bytes)];
    if UniqueNames(files') {
      forall i | 0 <= i < |files| && files[i].Used?
        ensures files[i].name != name
      {
        assert files'[i] == files[i] && files'[slot].name == name;
      }
    }
  }

  /** open_file and create_file store the new name where the lookup found nothing: names stay unique exactly when the
      name has no NUL or what is left of it before the NUL is not there either. */
  lemma UniqueAfterCreate(vol: Volume, max: nat, sh: Shape, slot: nat, name: seq<byte>, bytes: seq<byte>)
    requires Wf(vol, max, sh) && slot < DIR_ENTRIES && vol.dir[slot].inUse != 1 && UniqueNames(Files(vol, max, sh))
    requires FirstNamed(vol.dir, name) == DIR_ENTRIES
    ensures UniqueNames(Files(vol, max, sh)[slot := Used(NulPrefix(name), bytes)])
            <==> 0 !in name || FirstNamed(vol.dir, NulPrefix(name)) == DIR_ENTRIES
  {
    hide FirstNamed, Wf, SlotOf, UniqueNames;
    var files := Files(vol, max, sh);
    ShownNames(vol, max, sh, slot);
    UniqueAfterAdd(files, slot, NulPrefix(name), bytes);
    NulPrefixSame(name);
    var hit := FirstNamed(vol.dir, NulPrefix(name));
    if hit < DIR_ENTRIES {
      ShownNames(vol, max, sh, hit);
    }
    forall i | 0 <= i < DIR_ENTRIES
      ensures files[i].Used? <==> vol.dir[i].inUse == 1
      ensures files[i].Used? ==> files[i].name == NulPrefix(vol.dir[i].name)
    {
      ShownNames(vol, max, sh, i);
    }
  }

  lemma ShownNames(vol: Volume, max: nat, sh: Shape, i: nat)
    requires Wf(vol, max, sh) && i < DIR_ENTRIES
    ensures |vol.dir| == DIR_ENTRIES && (Files(vol, max, sh)[i].Used? <==> vol.dir[i].inUse == 1)
    ensures Files(vol, max, sh)[i].Used? ==> Files(vol, max, sh)[i].name == NulPrefix(vol.dir[i].name)
  {
  }

  // ---- Writing along a chain ---------------------------------------------------------

  /** The first `k` clusters of the chain hold the bytes of `t`, the rest hold the bytes of `s`. */
  ghost predicate ChainHolds(data: seq<seq<byte>>, max: nat, ch: seq<nat>, s: seq<byte>, t: seq<byte>, k: nat)
    requires |data| == max + 1
  {
    forall a {:trigger ch[a]} :: 0 <= a < |ch| ==> 2 <= ch[a] <= max && Agrees(data[ch[a]], if a < k then t else s, a)
  }

  /** Part-way through a write to `slot`: the first `k` clusters of its chain hold the target bytes `t`,
      the rest still hold the old bytes `s`. */
  ghost predicate Progress(vol: Volume, max: nat, firsts: seq<nat>, sh: Shape, slot: nat, s: seq<byte>, t: seq<byte>,
                           k: nat) {
    && Widths(vol, max)
    && Layout(vol.fat, max, firsts, sh)
    && slot < DIR_ENTRIES
    && k <= |sh.chains[slot]| && |s| <= CLUSTER * |sh.chains[slot]|
    && ChainHolds(vol.data, max, sh.chains[slot], s, t, k)
  }

  /** What one slot's write may not disturb: the other slots' chains and the clusters they own. */
  ghost predicate OthersKept(vol: Volume, sh: Shape, vol': Volume, sh': Shape, max: nat, slot: nat) {
    && slot < DIR_ENTRIES && |sh.chains| == |sh'.chains| == DIR_ENTRIES && |vol.data| == |vol'.data| == max + 1
    && vol'.boot == vol.boot && vol'.dir == vol.dir
    && (forall i :: 0 <= i < DIR_ENTRIES && i != slot ==> sh'.chains[i] == sh.chains[i])
    && (forall c :: c in sh.owner && sh.owner[c].slot != slot ==> c in sh'.owner && sh'.owner[c] == sh.owner[c])
    && (forall c :: c in sh.owner && c <= max && sh.owner[c].slot != slot ==> vol'.data[c] == vol.data[c])
    && sh.chains[slot] <= sh'.chains[slot]
  }

  lemma StartProgress(vol: Volume, max: nat, sh: Shape, slot: nat, s: seq<byte>, offset: nat, d: seq<byte>, k: nat)
    requires Wf(vol, max, sh) && slot < DIR_ENTRIES && vol.dir[slot].inUse == 1
    requires Covers(vol.data, sh.chains[slot], vol.dir[slot].size)
    requires s == Content(vol.data, sh.chains[slot], vol.dir[slot].size)
    requires d != [] && CLUSTER * k <= Min(offset, |s|) && k <= |sh.chains[slot]|
    ensures Progress(vol, max, Firsts(vol.dir), sh, slot, s, Splice(s, offset, d), k)
  {
    var ch := sh.chains[slot];
    assert IsChain(vol.fat, max, Firsts(vol.dir)[slot], ch);
    forall a | 0 <= a < |ch|
      ensures Agrees(vol.data[ch[a]], if a < k then Splice(s, offset, d) else s, a)
    {
      ContentAgrees(vol.data, ch, |s|, a);
      if a < k {
        UntouchedAgrees(vol.data[ch[a]], s, offset, d, a);
      }
    }
  }

  /** Linking a fresh cluster at the end of the chain; its bytes lie past the old end of file. */
  lemma ExtendProgress(vol: Volume, max: nat, firsts: seq<nat>, sh: Shape, slot: nat, s: seq<byte>, t: seq<byte>,
                       c: nat)
    requires slot < DIR_ENTRIES && |sh.chains| == DIR_ENTRIES
    requires Progress(vol, max, firsts, sh, slot, s, t, |sh.chains[slot]|)
    requires 2 <= c <= max && vol.fat[c] == FAT_FREE
    ensures Last(sh.chains[slot]) < |vol.fat| && c !in sh.owner && Owned(sh)
    ensures var ch := sh.chains[slot];
            Progress(vol.(fat := ExtendedFat(vol.fat, ch, c)), max, if ch == [] then firsts[slot := c] else firsts,
                     Extended(sh, slot, c), slot, s, t, |ch|)
  {
    ExtendLayout(vol.fat, max, firsts, sh, slot, c);
    ExtendHolds(vol.data, max, sh.chains[slot], s, t, c);
    ExtendWidths(vol, max, sh.chains[slot], c);
  }

  lemma ExtendWidths(vol: Volume, max: nat, ch: seq<nat>, c: nat)
    requires Widths(vol, max) && 2 <= c <= max < FAT_ENTRIES && Last(ch) < FAT_ENTRIES
    ensures Widths(vol.(fat := ExtendedFat(vol.fat, ch, c)), max)
  {
  }

  lemma ExtendHolds(data: seq<seq<byte>>, max: nat, ch: seq<nat>, s: seq<byte>, t: seq<byte>, c: nat)
    requires |data| == max + 1 && ChainHolds(data, max, ch, s, t, |ch|)
    requires |s| <= CLUSTER * |ch| && 2 <= c <= max && |data[c]| == CLUSTER
    ensures ChainHolds(data, max, ch + [c], s, t, |ch|)
  {
    var ch' := ch + [c];
    forall a | 0 <= a < |ch'|
      ensures 2 <= ch'[a] <= max && Agrees(data[ch'[a]], if a < |ch| then t else s, a)
    {
      if a < |ch| {
        assert ch'[a] == ch[a];
      }
    }
  }

  /** Storing the target bytes of cluster `k`. */
  lemma StoreProgress(vol: Volume, max: nat, firsts: seq<nat>, sh: Shape, slot: nat, s: seq<byte>, t: seq<byte>,
                      k: nat, buf: seq<byte>)
    requires Progress(vol, max, firsts, sh, slot, s, t, k) && k < |sh.chains[slot]|
    requires Agrees(buf, t, k)
    ensures Progress(vol.(data := vol.data[sh.chains[slot][k] := buf]), max, firsts, sh, slot, s, t, k + 1)
  {
    var ch := sh.chains[slot];
    var data' := vol.data[ch[k] := buf];
    forall a | 0 <= a < |ch|
      ensures Agrees(data'[ch[a]], if a < k + 1 then t else s, a)
    {
      assert sh.owner[sh.chains[slot][a]] == Loc(slot, a) && sh.owner[sh.chains[slot][k]] == Loc(slot, k);
    }
  }

  /** Storing into a cluster of `slot` disturbs no other slot. */
  lemma StoreOthersKept(vol: Volume, sh: Shape, vol': Volume, sh': Shape, max: nat, slot: nat, k: nat, buf: seq<byte>)
    requires OthersKept(vol, sh, vol', sh', max, slot) && Owned(sh')
    requires slot < DIR_ENTRIES && k < |sh'.chains[slot]| && sh'.chains[slot][k] <= max
    ensures OthersKept(vol, sh, vol'.(data := vol'.data[sh'.chains[slot][k] := buf]), sh', max, slot)
  {
    assert sh'.owner[sh'.chains[slot][k]] == Loc(slot, k);
  }

  /** When every cluster of the chain holds the target, so does the file. */
  lemma FinishProgress(vol: Volume, max: nat, firsts: seq<nat>, sh: Shape, slot: nat, s: seq<byte>, t: seq<byte>,
                       size: nat)
    requires slot < DIR_ENTRIES && |sh.chains| == DIR_ENTRIES
    requires Progress(vol, max, firsts, sh, slot, s, t, |sh.chains[slot]|)
    requires size <= |t| && size <= CLUSTER * |sh.chains[slot]|
    ensures Covers(vol.data, sh.chains[slot], size)
    ensures Content(vol.data, sh.chains[slot], size) == t[..size]
  {
    AgreesContent(vol.data, sh.chains[slot], size, t);
  }

  /** Clusters after the end of the write already hold the target. */
  lemma TailProgress(vol: Volume, max: nat, firsts: seq<nat>, sh: Shape, slot: nat, s: seq<byte>, offset: nat,
                     d: seq<byte>, k: nat)
    requires d != [] && offset + |d| <= CLUSTER * k
    requires Progress(vol, max, firsts, sh, slot, s, Splice(s, offset, d), k)
    ensures Progress(vol, max, firsts, sh, slot, s, Splice(s, offset, d), |sh.chains[slot]|)
  {
    var ch := sh.chains[slot];
    forall a | 0 <= a < |ch|
      ensures Agrees(vol.data[ch[a]], Splice(s, offset, d), a)
    {
      assert Agrees(vol.data[ch[a]], if a < k then Splice(s, offset, d) else s, a);
      if a >= k {
        UntouchedAgrees(vol.data[ch[a]], s, offset, d, a);
      }
    }
  }

  /** The whole invariant of a write in progress, relative to the volume it started from. */
  ghost predicate Midway(vol0: Volume, sh0: Shape, vol: Volume, sh: Shape, max: nat, slot: nat, first: nat,
                         s: seq<byte>, t: seq<byte>, k: nat)
  {
    && OthersKept(vol0, sh0, vol, sh, max, slot)
    && |vol0.dir| == DIR_ENTRIES && |vol0.fat| == FAT_ENTRIES && first < 0x1_0000
    && Progress(vol, max, Firsts(vol0.dir)[slot := first], sh, slot, s, t, k)
    && (NoLeak(vol0.fat, max, sh0) ==> NoLeak(vol.fat, max, sh))
  }

  /** The clusters a file can have at most: its own and the free ones. */
  ghost function Stock(vol: Volume, max: nat, sh: Shape, slot: nat): nat
    requires slot < |sh.chains| && max < |vol.fat|
  {
    |sh.chains[slot]| + |FreeClusters(vol.fat, max)|
  }

  /** Linking moves a cluster from one to the other. */
  lemma StockKept(vol: Volume, vol': Volume, max: nat, sh: Shape, slot: nat, c: nat)
    requires slot < |sh.chains| && 2 <= c <= max < |vol.fat| && vol.fat[c] == FAT_FREE
    requires var ch := sh.chains[slot];
             && (forall a :: 0 <= a < |ch| ==> 2 <= ch[a] <= max && vol.fat[ch[a]] == At(ch, a + 1))
             && Last(ch) < |vol.fat| && vol'.fat == ExtendedFat(vol.fat, ch, c)
    ensures Stock(vol', max, Extended(sh, slot, c), slot) == Stock(vol, max, sh, slot)
  {
    var ch := sh.chains[slot];
    if ch != [] {
      assert vol.fat[ch[|ch| - 1]] == At(ch, |ch|) == FAT_EOC;
    }
    ExtendFree(vol.fat, max, ch, c);
  }

  /** What the write loop needs to know about the chain it walks. */
  lemma MidwayChain(vol0: Volume, sh0: Shape, vol: Volume, sh: Shape, max: nat, slot: nat, first: nat,
                    s: seq<byte>, t: seq<byte>, k: nat)
    requires Midway(vol0, sh0, vol, sh, max, slot, first, s, t, k)
    ensures vol.dir == vol0.dir && vol.boot == vol0.boot && first < 0x1_0000
    ensures slot < DIR_ENTRIES == |sh.chains| && max < FAT_ENTRIES && |vol.fat| == FAT_ENTRIES && |vol.data| == max + 1
    ensures var ch := sh.chains[slot];
            && k <= |ch| && |s| <= CLUSTER * |ch|
            && (forall a :: 0 <= a < |ch| ==> 2 <= ch[a] <= max && vol.fat[ch[a]] == At(ch, a + 1))
            && (k < |ch| ==> Agrees(vol.data[ch[k]], s, k))
  {
    var ch := sh.chains[slot];
    assert IsChain(vol.fat, max, Firsts(vol0.dir)[slot := first][slot], ch);
    assert forall a :: 0 <= a < |ch| ==> vol.fat[ch[a]] == At(ch, a + 1);
    if k < |ch| {
      assert ChainHolds(vol.data, max, ch, s, t, k);
      assert 2 <= ch[k];
    }
  }

  lemma MidwayExtend(vol0: Volume, sh0: Shape, vol: Volume, sh: Shape, max: nat, slot: nat, first: nat,
                     s: seq<byte>, t: seq<byte>, c: nat)
    requires |sh.chains| == DIR_ENTRIES && slot < DIR_ENTRIES
    requires Midway(vol0, sh0, vol, sh, max, slot, first, s, t, |sh.chains[slot]|)
    requires max < |vol.fat| == FAT_ENTRIES && 2 <= c <= max && vol.fat[c] == FAT_FREE
    ensures Last(sh.chains[slot]) < |vol.fat|
    ensures Midway(vol0, sh0, vol.(fat := ExtendedFat(vol.fat, sh.chains[slot], c)), Extended(sh, slot, c), max, slot,
                   if sh.chains[slot] == [] then c else first, s, t, |sh.chains[slot]|)
  {
    hide Progress, OthersKept, NoLeak;
    var firsts := Firsts(vol0.dir)[slot := first];
    ExtendProgress(vol, max, firsts, sh, slot, s, t, c);
    ExtendOthersKept(vol0, sh0, vol, sh, max, slot, c);
    if NoLeak(vol.fat, max, sh) {
      ExtendNoLeak(vol.fat, max, sh, slot, c);
    }
    assert firsts[slot := c] == Firsts(vol0.dir)[slot := c];
  }

  lemma ExtendOthersKept(vol0: Volume, sh0: Shape, vol: Volume, sh: Shape, max: nat, slot: nat, c: nat)
    requires OthersKept(vol0, sh0, vol, sh, max, slot) && c !in sh.owner
    requires c < |vol.fat| && Last(sh.chains[slot]) < |vol.fat|
    ensures OthersKept(vol0, sh0, vol.(fat := ExtendedFat(vol.fat, sh.chains[slot], c)), Extended(sh, slot, c), max,
                       slot)
  {
  }

  lemma MidwayStore(vol0: Volume, sh0: Shape, vol: Volume, sh: Shape, max: nat, slot: nat, first: nat,
                    s: seq<byte>, t: seq<byte>, k: nat, buf: seq<byte>)
    requires Midway(vol0, sh0, vol, sh, max, slot, first, s, t, k)
    requires slot < |sh.chains| && k < |sh.chains[slot]| && sh.chains[slot][k] < |vol.data|
    requires Agrees(buf, t, k)
    ensures Midway(vol0, sh0, vol.(data := vol.data[sh.chains[slot][k] := buf]), sh, max, slot, first, s, t, k + 1)
  {
    StoreProgress(vol, max, Firsts(vol0.dir)[slot := first], sh, slot, s, t, k, buf);
    StoreOthersKept(vol0, sh0, vol, sh, max, slot, k, buf);
  }

  /** Before the first cluster is written. */
  lemma MidwayStart(vol: Volume, max: nat, sh: Shape, slot: nat, s: seq<byte>, offset: nat, d: seq<byte>)
    requires Wf(vol, max, sh) && slot < DIR_ENTRIES && vol.dir[slot].inUse == 1 && d != []
    requires SlotOf(vol, max, sh, slot).bytes == s
    ensures |sh.chains| == DIR_ENTRIES && max < FAT_ENTRIES == |vol.fat|
    ensures |s| == vol.dir[slot].size <= CLUSTER * |sh.chains[slot]|
    ensures IsChain(vol.fat, max, vol.dir[slot].first, sh.chains[slot])
    ensures Midway(vol, sh, vol, sh, max, slot, vol.dir[slot].first, s, Splice(s, offset, d),
                   Min(offset, |s|) / CLUSTER)
  {
    SlotCovers(vol, max, sh, slot);
    StartProgress(vol, max, sh, slot, s, offset, d, Min(offset, |s|) / CLUSTER);
    assert Firsts(vol.dir)[slot := vol.dir[slot].first] == Firsts(vol.dir);
  }

  /** Storing the entry, with its new first cluster and size, completes the write. */
  lemma MidwayFinish(vol0: Volume, sh0: Shape, vol: Volume, sh: Shape, max: nat, slot: nat, e: DirEntry, s: seq<byte>,
                     t: seq<byte>)
    requires slot < DIR_ENTRIES == |sh.chains|
    requires Wf(vol0, max, sh0)
    requires Midway(vol0, sh0, vol, sh, max, slot, e.first, s, t, |sh.chains[slot]|)
    requires vol.dir == vol0.dir && ValidEntry(e) && e.inUse == 1 && e.size <= |t|
    requires e.size <= CLUSTER * |sh.chains[slot]|
    ensures var vol' := vol.(dir := vol.dir[slot := e]);
            && Wf(vol', max, sh)
            && Files(vol', max, sh) == Files(vol0, max, sh0)[slot := Used(NulPrefix(e.name), t[..e.size])]
            && (NoLeak(vol0.fat, max, sh0) ==> NoLeak(vol'.fat, max, sh))
  {
    var vol' := vol.(dir := vol.dir[slot := e]);
    FinishProgress(vol, max, Firsts(vol0.dir)[slot := e.first], sh, slot, s, t, e.size);
    FinishWf(vol0, sh0, vol, sh, max, slot, e);
    FilesFrame(vol0, sh0, vol', sh, max, slot);
  }

  lemma FinishWf(vol0: Volume, sh0: Shape, vol: Volume, sh: Shape, max: nat, slot: nat, e: DirEntry)
    requires Wf(vol0, max, sh0) && OthersKept(vol0, sh0, vol, sh, max, slot) && Widths(vol, max)
    requires Layout(vol.fat, max, Firsts(vol0.dir)[slot := e.first], sh)
    requires ValidEntry(e) && e.inUse == 1 && e.size <= CLUSTER * |sh.chains[slot]|
    ensures Wf(vol.(dir := vol.dir[slot := e]), max, sh)
  {
    hide Layout;
    FirstsUpdate(vol0.dir, slot, e);
    forall i | 0 <= i < DIR_ENTRIES
      ensures EntryOk(vol.dir[slot := e][i], sh.chains[i])
    {
      assert EntryOk(vol0.dir[i], sh0.chains[i]);
    }
  }

  /** A write that ended at or past `offset + |d|` filled the rest of the chain too. */
  lemma MidwayTail(vol0: Volume, sh0: Shape, vol: Volume, sh: Shape, max: nat, slot: nat, first: nat,
                   s: seq<byte>, offset: nat, d: seq<byte>, k: nat)
    requires d != [] && offset + |d| <= CLUSTER * k && slot < |sh.chains|
    requires Midway(vol0, sh0, vol, sh, max, slot, first, s, Splice(s, offset, d), k)
    ensures Midway(vol0, sh0, vol, sh, max, slot, first, s, Splice(s, offset, d), |sh.chains[slot]|)
  {
    TailProgress(vol, max, Firsts(vol0.dir)[slot := first], sh, slot, s, offset, d, k);
  }

  // ---- Building a new file -------------------------------------------------------------

  /** Before the first cluster of a new file is allocated. */
  lemma MidwayFresh(vol: Volume, max: nat, sh: Shape, slot: nat, t: seq<byte>)
    requires Wf(vol, max, sh) && slot < DIR_ENTRIES && vol.dir[slot].inUse == 0
    ensures |sh.chains| == DIR_ENTRIES && sh.chains[slot] == []
    ensures Midway(vol, sh, vol, sh, max, slot, 0, [], t, 0)
  {
    assert EntryOk(vol.dir[slot], sh.chains[slot]);
    assert Firsts(vol.dir)[slot := 0] == Firsts(vol.dir);
  }

  /** Giving a half-built file up: the directory never pointed at its clusters, so the volume is still well
      formed and every file reads the same. The clusters stay marked in use: conservation is lost exactly
      when there were any. */
  lemma MidwayAbandon(vol0: Volume, sh0: Shape, vol: Volume, sh: Shape, max: nat, slot: nat, first: nat, t: seq<byte>)
    requires Wf(vol0, max, sh0) && slot < DIR_ENTRIES == |sh.chains| && vol0.dir[slot].inUse == 0
    requires Midway(vol0, sh0, vol, sh, max, slot, first, [], t, |sh.chains[slot]|)
    ensures Wf(vol, max, sh0)
    ensures Files(vol, max, sh0) == Files(vol0, max, sh0)
    ensures NoLeak(vol0.fat, max, sh0) ==> (NoLeak(vol.fat, max, sh0) <==> sh.chains[slot] == [])
  {
    assert EntryOk(vol0.dir[slot], sh0.chains[slot]);
    AbandonLayout(vol0, sh0, vol, sh, max, slot, first);
    FilesFrame(vol0, sh0, vol, sh0, max, slot);
    assert Files(vol0, max, sh0)[slot] == Unused;
    if sh.chains[slot] != [] {
      AbandonLeaks(vol0, sh0, vol, sh, max, slot, first);
    } else {
      SameOwners(sh0, sh);
    }
  }

  lemma AbandonLayout(vol0: Volume, sh0: Shape, vol: Volume, sh: Shape, max: nat, slot: nat, first: nat)
    requires Layout(vol0.fat, max, Firsts(vol0.dir), sh0) && OthersKept(vol0, sh0, vol, sh, max, slot)
    requires sh0.chains[slot] == [] && Layout(vol.fat, max, Firsts(vol0.dir)[slot := first], sh)
    ensures Layout(vol.fat, max, Firsts(vol0.dir), sh0)
  {
    var firsts := Firsts(vol0.dir);
    assert IsChain(vol0.fat, max, firsts[slot], []);
    forall i | 0 <= i < DIR_ENTRIES
      ensures IsChain(vol.fat, max, firsts[i], sh0.chains[i])
    {
      assert IsChain(vol.fat, max, firsts[slot := first][i], sh.chains[i]);
    }
  }

  lemma SameOwners(sh0: Shape, sh: Shape)
    requires Owned(sh0) && Owned(sh)
    requires forall i :: 0 <= i < DIR_ENTRIES ==> sh.chains[i] == sh0.chains[i]
    ensures sh.owner.Keys == sh0.owner.Keys
  {
    ChainedIsOwned(sh0);
    ChainedIsOwned(sh);
    assert sh.chains == sh0.chains;
  }

  lemma AbandonLeaks(vol0: Volume, sh0: Shape, vol: Volume, sh: Shape, max: nat, slot: nat, first: nat)
    requires OthersKept(vol0, sh0, vol, sh, max, slot) && Owned(sh0) && sh0.chains[slot] == []
    requires |vol0.dir| == DIR_ENTRIES
    requires Layout(vol.fat, max, Firsts(vol0.dir)[slot := first], sh) && sh.chains[slot] != []
    ensures !NoLeak(vol.fat, max, sh0)
  {
    var c := sh.chains[slot][0];
    assert sh.owner[c] == Loc(slot, 0);
    OwnedInUse(vol.fat, max, Firsts(vol0.dir)[slot := first], sh, c);
    assert c in sh0.owner ==> sh0.owner[c].slot != slot;
  }

  // ---- No chain is longer than the volume ------------------------------------------------

  lemma {:induction false} DistinctBound(ch: seq<nat>, lo: nat, hi: nat)
    requires Distinct(ch) && lo <= hi && forall a :: 0 <= a < |ch| ==> lo <= ch[a] < hi
    ensures |ch| <= hi - lo
    decreases hi
  {
    assert ch == [] || lo <= ch[0] < hi;
    if lo < hi {
      if a :| 0 <= a < |ch| && ch[a] == hi - 1 {
        var rest := ch[..a] + ch[a + 1..];
        forall b | 0 <= b < |rest|
          ensures rest[b] == ch[if b < a then b else b + 1]
        {
        }
        DistinctBound(rest, lo, hi - 1);
      } else {
        DistinctBound(ch, lo, hi - 1);
      }
    }
  }

  lemma ChainBound(fat: seq<nat>, max: nat, firsts: seq<nat>, sh: Shape, slot: nat)
    requires Layout(fat, max, firsts, sh) && slot < DIR_ENTRIES
    ensures |sh.chains[slot]| < FAT_ENTRIES
  {
    var ch := sh.chains[slot];
    assert IsChain(fat, max, firsts[slot], ch);
    forall a, b | 0 <= a < b < |ch|
      ensures ch[a] != ch[b]
    {
      assert sh.owner[sh.chains[slot][a]] == Loc(slot, a) && sh.owner[sh.chains[slot][b]] == Loc(slot, b);
    }
    DistinctBound(ch, 2, max + 1);
  }

  /** A stored file is far below the 4 GiB its size field can express. */
  lemma ChainSize(vol0: Volume, sh0: Shape, vol: Volume, sh: Shape, max: nat, slot: nat, first: nat, d: seq<byte>)
    requires slot < |sh.chains|
    requires Midway(vol0, sh0, vol, sh, max, slot, first, [], d, |sh.chains[slot]|)
    requires |d| <= CLUSTER * |sh.chains[slot]|
    ensures |d| < 0x1_0000_0000 && |d| % 0x1_0000_0000 == |d|
  {
    ChainBound(vol.fat, max, Firsts(vol0.dir)[slot := first], sh, slot);
  }

  /** When the half-built file has no cluster the FAT is the one the allocator found full. */
  lemma FullWhenNothingLinked(vol0: Volume, sh0: Shape, vol: Volume, sh: Shape, max: nat, slot: nat, first: nat,
                              d: seq<byte>)
    requires Wf(vol0, max, sh0) && slot < DIR_ENTRIES == |sh.chains| && vol0.dir[slot].inUse == 0
    requires Midway(vol0, sh0, vol, sh, max, slot, first, [], d, |sh.chains[slot]|)
    requires Full(vol.fat, max) && (sh.chains[slot] == [] ==> vol == vol0)
    ensures NoLeak(vol0.fat, max, sh0) ==> (sh.chains[slot] == [] <==> Full(vol0.fat, max))
  {
  }

  /** A freshly formatted volume holds no files and leaks no clusters. */
  lemma EmptyVolume(vol: Volume, max: nat)
    requires Widths(vol, max) && 1 <= max < FAT_ENTRIES
    requires vol.fat == seq(FAT_ENTRIES, _ => FAT_FREE)[0 := 0xFFF8][1 := FAT_EOC]
    requires vol.dir == seq(DIR_ENTRIES, _ => EmptyEntry())
    ensures var sh := Shape(seq(DIR_ENTRIES, _ => []), map[]);
            && Wf(vol, max, sh) && NoLeak(vol.fat, max, sh)
            && forall i :: 0 <= i < DIR_ENTRIES ==> Files(vol, max, sh)[i] == Unused
  {
    var sh := Shape(seq(DIR_ENTRIES, _ => []), map[]);
    assert Owned(sh);
  }
}
