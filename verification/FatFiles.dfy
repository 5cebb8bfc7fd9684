/** The filesystem operations of KAGFAT16.

    Each operation is specified by its effect on `Files` (what every name
    reads), keeps the volume well formed, and says whether it keeps cluster
    conservation (`NoLeak`).
  */
module FatFiles {
  import opened Basics
  import opened FatLayout
  import opened FatChain
  import opened FatDisk
  import opened FatContent
  import opened FatVolume

  /** A handle: a directory slot and the slot's generation when it was opened. */
  datatype FileId = FileId(slot: nat, generation: nat)

  const GENERATIONS: nat := 0x1_0000_0000

  /** A handle opened after `issued` retirements of its slot is refused after `now` retirements, unless
      the 32-bit generation has gone round a whole number of times. */
  lemma StaleHandle(issued: nat, now: nat)
    requires issued <= now
    ensures issued % GENERATIONS == now % GENERATIONS <==> (now - issued) % GENERATIONS == 0
    ensures issued < now < issued + GENERATIONS ==> issued % GENERATIONS != now % GENERATIONS
  {
    var q, q' := issued / GENERATIONS, now / GENERATIONS;
    var r, r' := issued % GENERATIONS, now % GENERATIONS;
    assert now - issued == GENERATIONS * (q' - q) + (r' - r);
    if r' >= r {
      assert (now - issued) % GENERATIONS == r' - r;
    } else {
      assert now - issued == GENERATIONS * (q' - q - 1) + (GENERATIONS + r' - r);
      assert (now - issued) % GENERATIONS == GENERATIONS + r' - r;
    }
  }

  /** A name that find_file_unlocked matched is NUL-free, because a stored name ends at its first NUL. */
  lemma SameName(e: DirEntry, name: seq<byte>)
    requires Named(e, name)
    ensures NulPrefix(name) == name
  {
    NulPrefixIdempotent(e.name);
  }

  class FileSystem {
    const disk: Disk
    /** SLOT_GENERATIONS: wraps at 2^32. */
    var generations: seq<nat>
    ghost var shape: Shape
    /** How often each slot has been retired, without wrap-around. */
    ghost var retired: seq<nat>

    ghost predicate Counters()
      reads this
    {
      && |generations| == DIR_ENTRIES && |retired| == DIR_ENTRIES
      && (forall s :: 0 <= s < DIR_ENTRIES ==> generations[s] == retired[s] % GENERATIONS)
    }

    ghost predicate Valid()
      reads this, disk, disk.bytes
    {
      disk.Valid() && Counters() && Wf(disk.vol, disk.Max(), shape)
    }

    ghost predicate Formatted()
      reads this, disk
    {
      |disk.vol.boot| == SECTOR && disk.vol.boot[..8] == Magic()
    }

    ghost function Contents(): (r: seq<Slot>)
      reads this, disk, disk.bytes
      requires Valid()
      ensures |r| == DIR_ENTRIES
    {
      Files(disk.vol, disk.Max(), shape)
    }

    ghost predicate Conserved()
      reads this, disk, disk.bytes
      requires Valid()
    {
      NoLeak(disk.vol.fat, disk.Max(), shape)
    }

    constructor (disk: Disk)
      requires disk.Valid()
      ensures this.disk == disk && Counters() && disk.vol == old(disk.vol)
    {
      this.disk := disk;
      generations := seq(DIR_ENTRIES, _ => 0);
      retired := seq(DIR_ENTRIES, _ => 0);
      shape := Shape(seq(DIR_ENTRIES, _ => []), map[]);
    }

    /** retire_slot_unlocked */
    method RetireSlot(slot: nat)
      requires Counters() && slot < DIR_ENTRIES
      modifies this`generations, this`retired
      ensures Counters()
      ensures retired == old(retired)[slot := old(retired)[slot] + 1]
    {
      generations := generations[slot := (generations[slot] + 1) % GENERATIONS];
      retired := retired[slot := retired[slot] + 1];
    }

    /** write_dir_entry_unlocked: storing an unused entry retires the slot's handles. */
    method WriteDirEntry(i: nat, e: DirEntry)
      requires disk.Valid() && Counters()
      requires i < DIR_ENTRIES && ValidEntry(e)
      modifies this`generations, this`retired, disk`vol, disk.bytes
      ensures disk.Valid() && Counters()
      ensures disk.vol == old(disk.vol).(dir := old(disk.vol).dir[i := e])
      ensures retired == if e.inUse == 0 then old(retired)[i := old(retired)[i] + 1] else old(retired)
    {
      if e.inUse == 0 {
        RetireSlot(i);
      }
      disk.StoreDirEntry(i, e);
    }

    // ---- Searching ------------------------------------------------------------------

    /** The length of a stored name: the scan for its first NUL. */
    static method NameLength(name: seq<byte>) returns (len: nat)
      requires |name| == 22
      ensures len <= 22 && name[..len] == NulPrefix(name)
    {
      len := 0;
      while len < 22 && name[len] != 0
        invariant len <= 22
        invariant forall k :: 0 <= k < len ==> name[k] != 0
      {
        len := len + 1;
      }
      NulPrefixSplit(name, len);
    }

    /** find_file_unlocked: the slot, or DIR_ENTRIES when no entry matches. */
    method FindFile(name: seq<byte>) returns (r: Result<nat>)
      requires disk.Valid()
      ensures r == if name == [] || |name| > 21 then Err(InvalidArgument) else Ok(FirstNamed(disk.vol.dir, name))
    {
      if name == [] || |name| > 21 {
        return Err(InvalidArgument);
      }
      var i := 0;
      while i < DIR_ENTRIES
        invariant i <= DIR_ENTRIES
        invariant FirstNamed(disk.vol.dir, name) == FirstNamed(disk.vol.dir, name, i)
      {
        var entry := disk.ReadDirEntry(i);
        if entry.value.inUse == 1 {
          var len := NameLength(entry.value.name);
          if entry.value.name[..len] == name {
            return Ok(i);
          }
        }
        i := i + 1;
      }
      return Ok(DIR_ENTRIES);
    }

    /** find_free_dir_slot_unlocked: the slot, or DIR_ENTRIES when every slot is in use. */
    method FindFreeSlot() returns (slot: nat)
      requires disk.Valid()
      ensures slot == FirstFree(disk.vol.dir)
    {
      slot := 0;
      while slot < DIR_ENTRIES
        invariant slot <= DIR_ENTRIES
        invariant FirstFree(disk.vol.dir) == FirstFree(disk.vol.dir, slot)
      {
        var entry := disk.ReadDirEntry(slot);
        if entry.value.inUse == 0 {
          return;
        }
        slot := slot + 1;
      }
    }

    /** read_boot_sector_unlocked, reduced to its verdict. */
    method CheckFormatted() returns (ok: bool)
      requires disk.Valid()
      ensures ok == Formatted()
    {
      var block := disk.ReadBlocks(0, 1);
      assert block.value == disk.vol.boot;
      ok := block.value[..8] == Magic();
    }

    /** open_entry_unlocked: a handle is honoured only while its slot keeps the handle's generation. */
    method OpenEntry(id: FileId) returns (r: Result<DirEntry>)
      requires Valid() && id.slot < DIR_ENTRIES
      ensures r.Ok? <==> generations[id.slot] == id.generation && disk.vol.dir[id.slot].inUse == 1
      ensures r.Ok? ==> r.value == disk.vol.dir[id.slot]
      ensures r.Err? ==> r.error == FileNotFound
    {
      if generations[id.slot] != id.generation {
        return Err(FileNotFound);
      }
      var entry := disk.ReadDirEntry(id.slot);
      if entry.value.inUse != 1 {
        return Err(FileNotFound);
      }
      return entry;
    }

    // ---- Clusters -------------------------------------------------------------------

    /** alloc_cluster_unlocked: the lowest free cluster, marked end-of-chain. */
    method AllocCluster() returns (r: Result<nat>)
      requires disk.Valid()
      modifies disk`vol, disk.bytes
      ensures disk.Valid()
      ensures r.Ok? ==> 2 <= r.value <= disk.Max() && old(disk.vol).fat[r.value] == FAT_FREE
      ensures r.Ok? ==> forall c :: 2 <= c < r.value ==> old(disk.vol).fat[c] != FAT_FREE
      ensures r.Ok? ==> disk.vol == old(disk.vol).(fat := old(disk.vol).fat[r.value := FAT_EOC])
      ensures r.Err? ==> r.error == NoSpace && disk.vol == old(disk.vol) && Full(disk.vol.fat, disk.Max())
    {
      var cluster := 2;
      while cluster <= disk.Max()
        invariant 2 <= cluster
        invariant disk.Valid() && disk.vol == old(disk.vol)
        invariant forall c :: 2 <= c < cluster && c <= disk.Max() ==> disk.vol.fat[c] != FAT_FREE
      {
        var entry := disk.ReadFatEntry(cluster);
        if entry.value == FAT_FREE {
          var w := disk.WriteFatEntry(cluster, FAT_EOC);
          return Ok(cluster);
        }
        cluster := cluster + 1;
      }
      return Err(NoSpace);
    }

    /** free_cluster_chain_unlocked: terminates on every FAT, well formed or not. */
    method FreeClusterChain(first: nat) returns (r: Result<()>)
      requires disk.Valid() && first < 0x1_0000
      modifies disk`vol, disk.bytes
      ensures disk.Valid()
      ensures disk.vol == old(disk.vol).(fat := FreeWalk(old(disk.vol).fat, first).0)
      ensures r.Ok? <==> FreeWalk(old(disk.vol).fat, first).1
    {
      var current: nat := first;
      while IsDataCluster(current)
        invariant current < 0x1_0000 && disk.Valid()
        invariant disk.vol == old(disk.vol).(fat := disk.vol.fat)
        invariant FreeWalk(old(disk.vol).fat, first) == FreeWalk(disk.vol.fat, current)
        decreases InUse(disk.vol.fat), if IsDataCluster(current) then 1 else 0
      {
        ghost var fat := disk.vol.fat;
        var next := disk.ReadFatEntry(current);
        if next.Err? {
          return Err(InvalidArgument);
        }
        var w := disk.WriteFatEntry(current, FAT_FREE);
        assert InUse(disk.vol.fat) == InUse(fat) - {current};
        if next.value >= FAT_RESERVED {
          return Ok(());
        }
        current := next.value;
      }
      return Ok(());
    }

    /** walk_chain_unlocked */
    method WalkFrom(first: nat, steps: nat) returns (r: Result<(nat, nat)>)
      requires disk.Valid() && first < 0x1_0000
      ensures r == Walk(disk.vol.fat, 0, first, steps)
    {
      var prev: nat, cluster: nat, i := 0, first, 0;
      while i < steps
        invariant i <= steps && cluster < 0x1_0000
        invariant Walk(disk.vol.fat, 0, first, steps) == Walk(disk.vol.fat, prev, cluster, steps - i)
      {
        if !IsDataCluster(cluster) {
          return Err(DeviceError);
        }
        prev := cluster;
        var next := disk.ReadFatEntry(cluster);
        if next.Err? {
          return Err(InvalidArgument);
        }
        cluster := next.value;
        i := i + 1;
      }
      return Ok((prev, cluster));
    }

    // ---- Opening, truncating and deleting ------------------------------------------

    /** Free a slot's chain, if it has one. */
    method FreeSlotChain(slot: nat, first: nat)
      requires disk.Valid() && slot < DIR_ENTRIES && |shape.chains| == DIR_ENTRIES && first < 0x1_0000
      requires shape.chains[slot] == [] ==> first == 0
      requires shape.chains[slot] != [] ==> IsDataCluster(first)
      requires shape.chains[slot] != [] ==>
                FreeWalk(disk.vol.fat, first).0 == ClearedFat(disk.vol.fat, shape.chains[slot])
      modifies disk`vol, disk.bytes
      ensures disk.Valid()
      ensures disk.vol == old(disk.vol).(fat := ClearedFat(old(disk.vol).fat, shape.chains[slot]))
    {
      if IsDataCluster(first) {
        var r := FreeClusterChain(first);
      } else {
        assert ClearedFat(disk.vol.fat, []) == disk.vol.fat;
      }
    }

    /** The truncating branch of open_file_unlocked. */
    method Truncate(slot: nat)
      requires Valid() && slot < DIR_ENTRIES && disk.vol.dir[slot].inUse == 1
      modifies this`generations, this`retired, this`shape, disk`vol, disk.bytes
      ensures Valid() && disk.vol.boot == old(disk.vol.boot)
      ensures generations == old(generations) && retired == old(retired)
      ensures old(Conserved()) ==> Conserved()
      ensures Contents() == old(Contents())[slot := Used(NulPrefix(old(disk.vol).dir[slot].name), [])]
    {
      var entry := disk.ReadDirEntry(slot);
      var e := entry.value;
      ghost var before := disk.vol;
      NoChain(before, disk.Max(), shape, slot);
      assert EntryOk(before.dir[slot], shape.chains[slot]);
      var emptied := e.(first := 0, size := 0);
      ReleaseSlot(before, disk.Max(), shape, slot, emptied);
      if e.size != 0 || e.first != 0 {
        FreeWalkSlot(before, disk.Max(), shape, slot);
        WriteDirEntry(slot, emptied);
        FreeSlotChain(slot, e.first);
      } else {
        assert before.dir[slot := emptied] == before.dir;
      }
      assert disk.vol == Released(before, shape, slot, emptied);
      shape := Cleared(shape, slot);
    }

    /** The creating branch of open_file_unlocked. */
    method AddEmpty(name: seq<byte>, slot: nat)
      requires Valid() && slot < DIR_ENTRIES && disk.vol.dir[slot].inUse == 0 && |name| <= 21
      modifies this`generations, this`retired, this`shape, disk`vol, disk.bytes
      ensures Valid() && disk.vol.boot == old(disk.vol.boot)
      ensures generations == old(generations) && retired == old(retired)
      ensures old(Conserved()) ==> Conserved()
      ensures Contents() == old(Contents())[slot := Used(NulPrefix(name), [])]
    {
      var entry := DirEntry(PaddedName(name), 0, 0, 1, Zeros(3));
      OccupySlot(disk.vol, disk.Max(), shape, slot, entry);
      NulPrefixPadded(name, 22 - |name|);
      WriteDirEntry(slot, entry);
    }

    /** open_file_unlocked: look a name up, optionally truncating it or creating it. */
    method Open(name: seq<byte>, create: bool, truncate: bool) returns (r: Result<FileId>)
      requires Valid()
      modifies this`generations, this`retired, this`shape, disk`vol, disk.bytes
      ensures Valid() && disk.vol.boot == old(disk.vol.boot)
      ensures generations == old(generations) && retired == old(retired)
      ensures old(Conserved()) ==> Conserved()
      ensures !Formatted() ==> r == Err(NotFormatted)
      ensures Formatted() && (name == [] || |name| > 21) ==> r == Err(InvalidArgument)
      ensures Formatted() && 0 < |name| <= 21 ==>
                var hit, free := FirstNamed(old(disk.vol).dir, name), FirstFree(old(disk.vol).dir);
                r == if hit < DIR_ENTRIES then Ok(FileId(hit, generations[hit]))
                     else if !create then Err(FileNotFound)
                     else if free == DIR_ENTRIES then Err(NoSpace)
                     else Ok(FileId(free, generations[free]))
      ensures r.Err? ==> Contents() == old(Contents())
      ensures r.Ok? ==>
                var slot := r.value.slot;
                var was := old(Contents())[slot];
                Contents() == old(Contents())[slot := if was.Used? && !truncate then was else Used(NulPrefix(name), [])]
    {
      var formatted := CheckFormatted();
      if !formatted {
        return Err(NotFormatted);
      }
      var hit :- FindFile(name);
      if hit < DIR_ENTRIES {
        SameName(old(disk.vol).dir[hit], name);
        if truncate {
          Truncate(hit);
        }
        return Ok(FileId(hit, generations[hit]));
      }
      if !create {
        return Err(FileNotFound);
      }
      var slot := FindFreeSlot();
      if slot == DIR_ENTRIES {
        return Err(NoSpace);
      }
      AddEmpty(name, slot);
      return Ok(FileId(slot, generations[slot]));
    }

    /** delete_file_unlocked: the name reads nothing afterwards and the slot's handles are retired. */
    method Delete(name: seq<byte>) returns (r: Result<()>)
      requires Valid()
      modifies this`generations, this`retired, this`shape, disk`vol, disk.bytes
      ensures Valid() && disk.vol.boot == old(disk.vol.boot)
      ensures old(Conserved()) ==> Conserved()
      ensures r.Err? ==> Contents() == old(Contents()) && retired == old(retired)
      ensures name == [] || |name| > 21 ==> r.Err? && r.error == InvalidArgument
      ensures 0 < |name| <= 21 ==>
                var hit := FirstNamed(old(disk.vol).dir, name);
                if hit == DIR_ENTRIES then r.Err? && r.error == FileNotFound
                else
                  && r.Ok? && Contents() == old(Contents())[hit := Unused]
                  && retired == old(retired)[hit := old(retired)[hit] + 1]
    {
      var hit :- FindFile(name);
      if hit == DIR_ENTRIES {
        return Err(FileNotFound);
      }
      DeleteSlot(hit);
      return Ok(());
    }

    /** The shared tail of delete_file_unlocked and of create_file_unlocked's overwrite. */
    method DeleteSlot(slot: nat)
      requires Valid() && slot < DIR_ENTRIES && disk.vol.dir[slot].inUse == 1
      modifies this`generations, this`retired, this`shape, disk`vol, disk.bytes
      ensures Valid() && disk.vol == Released(old(disk.vol), old(shape), slot, EmptyEntry())
      ensures shape == Cleared(old(shape), slot)
      ensures Contents() == old(Contents())[slot := Unused]
      ensures retired == old(retired)[slot := old(retired)[slot] + 1]
      ensures old(Conserved()) ==> Conserved()
    {
      var entry := disk.ReadDirEntry(slot);
      ghost var before := disk.vol;
      NoChain(before, disk.Max(), shape, slot);
      if shape.chains[slot] != [] {
        FreeWalkSlot(before, disk.Max(), shape, slot);
      }
      ReleaseSlot(before, disk.Max(), shape, slot, EmptyEntry());
      FreeSlotChain(slot, entry.value.first);
      WriteDirEntry(slot, EmptyEntry());
      shape := Cleared(shape, slot);
    }

    /** walk_chain_unlocked on a chain: the cluster before position `k` and the one at it. */
    method SeekCluster(first: nat, k: nat, ghost ch: seq<nat>) returns (prev: nat, cluster: nat)
      requires disk.Valid() && first < 0x1_0000 && k <= |ch|
      requires disk.Max() < FAT_ENTRIES == |disk.vol.fat| && IsChain(disk.vol.fat, disk.Max(), first, ch)
      ensures prev == (if k == 0 then 0 else ch[k - 1]) && cluster == At(ch, k)
    {
      WalkChain(disk.vol.fat, disk.Max(), first, ch, 0, k);
      var walked := WalkFrom(first, k);
      prev, cluster := walked.value.0, walked.value.1;
    }

    // ---- Reading -----------------------------------------------------------------------

    /** The read loop of read_at_unlocked and read_file_unlocked: `len` bytes from `offset`, walking the
        chain cluster by cluster. `s` is the byte string the chain holds. */
    method ReadRange(first: nat, offset: nat, len: nat, ghost ch: seq<nat>, ghost s: seq<byte>) returns (buf: seq<byte>)
      requires disk.Valid() && first < 0x1_0000
      requires disk.Max() < FAT_ENTRIES && IsChain(disk.vol.fat, disk.Max(), first, ch)
      requires Covers(disk.vol.data, ch, |s|) && s == Content(disk.vol.data, ch, |s|)
      requires 0 < len && offset + len <= |s|
      ensures buf == s[offset..offset + len]
    {
      hide Represents, Content, IsChain, Agrees;
      ghost var k := offset / CLUSTER;
      assert offset == CLUSTER * k + offset % CLUSTER;
      var prev: nat, cluster: nat := SeekCluster(first, offset / CLUSTER, ch);
      var within: nat := offset % CLUSTER;
      buf := [];
      while |buf| < len
        invariant |buf| <= len && buf == s[offset..offset + |buf|]
        invariant |buf| < len ==>
                  within < CLUSTER && offset + |buf| == CLUSTER * k + within && k < |ch| && cluster == ch[k]
        decreases len - |buf|
      {
        ContentAgrees(disk.vol.data, ch, |s|, k);
        ChainAt(disk.vol.fat, disk.Max(), first, ch, k);
        var clusterBuf := disk.ReadCluster(cluster);
        var n := Min(CLUSTER - within, len - |buf|);
        SliceAgrees(clusterBuf, s, k, within, n);
        SliceAppend(s, offset, |buf|, n);
        buf := buf + clusterBuf[within..within + n];
        within := 0;
        if |buf| < len {
          var next := disk.ReadFatEntry(cluster);
          cluster := next.value;
          k := k + 1;
        }
      }
    }

    /** read_at_unlocked: exactly the slice of the file the request covers. */
    method ReadAt(id: FileId, offset: nat, n: nat) returns (r: Result<seq<byte>>)
      requires Valid() && id.slot < DIR_ENTRIES
      ensures r.Ok? <==> generations[id.slot] == id.generation && Contents()[id.slot].Used?
      ensures r.Err? ==> r.error == FileNotFound
      ensures r.Ok? ==>
                var s := Contents()[id.slot].bytes;
                r.value == if offset >= |s| then [] else s[offset..Min(offset + n, |s|)]
    {
      var entry :- OpenEntry(id);
      var size := entry.size;
      if offset >= size || n == 0 {
        return Ok([]);
      }
      SlotCovers(disk.vol, disk.Max(), shape, id.slot);
      var buf := ReadRange(entry.first, offset, Min(n, size - offset), shape.chains[id.slot],
                           Contents()[id.slot].bytes);
      return Ok(buf);
    }

    /** read_file_unlocked: the whole byte string stored under a name. */
    method ReadFile(name: seq<byte>) returns (r: Result<seq<byte>>)
      requires Valid()
      ensures r == if name == [] || |name| > 21 then Err(InvalidArgument)
                   else
                     var hit := FirstNamed(disk.vol.dir, name);
                     if hit == DIR_ENTRIES then Err(FileNotFound) else Ok(Contents()[hit].bytes)
    {
      var hit :- FindFile(name);
      if hit == DIR_ENTRIES {
        return Err(FileNotFound);
      }
      var entry := disk.ReadDirEntry(hit);
      ghost var s := Contents()[hit].bytes;
      if entry.value.size == 0 {
        assert s == [];
        return Ok([]);
      }
      SlotCovers(disk.vol, disk.Max(), shape, hit);
      var buf := ReadRange(entry.value.first, 0, entry.value.size, shape.chains[hit], s);
      assert buf == s;
      return Ok(buf);
    }

    // ---- Writing -----------------------------------------------------------------------

    /** Allocate a cluster and link it behind `prev`, the last cluster of the chain `ch`, or make it the
        first. `first` is the entry's first cluster, still held in memory. */
    method LinkCluster(prev: nat, first: nat, ghost ch: seq<nat>) returns (r: Result<nat>, first': nat)
      requires disk.Valid() && prev == Last(ch) < FAT_ENTRIES && (prev == 0 <==> ch == [])
      modifies disk`vol, disk.bytes
      ensures disk.Valid()
      ensures r.Err? ==>
                r.error == NoSpace && first' == first && disk.vol == old(disk.vol) && Full(disk.vol.fat, disk.Max())
      ensures r.Ok? ==> 2 <= r.value <= disk.Max() && old(disk.vol).fat[r.value] == FAT_FREE
      ensures r.Ok? ==> first' == (if prev == 0 then r.value else first)
      ensures r.Ok? ==> disk.vol == old(disk.vol).(fat := ExtendedFat(old(disk.vol).fat, ch, r.value))
    {
      r := AllocCluster();
      first' := first;
      if r.Ok? {
        if prev == 0 {
          first' := r.value;
        } else {
          var w := disk.WriteFatEntry(prev, r.value);
        }
      }
    }

    /** One turn of the cluster loop of write_at_unlocked: find or allocate the cluster at position `k` of
        the chain, edit its buffer and store it. `buf` is the scratch buffer left by the previous turn. */
    method PutCluster(slot: nat, prev: nat, cluster: nat, first: nat, clusterStart: nat, size: nat, offset: nat,
                      d: seq<byte>, buf: seq<byte>, ghost vol0: Volume, ghost sh0: Shape, ghost s: seq<byte>,
                      ghost k: nat)
      returns (ok: bool, cluster': nat, first': nat, buf': seq<byte>)
      requires disk.Valid() && d != [] && size == |s| && clusterStart == CLUSTER * k && |buf| == CLUSTER
      requires Midway(vol0, sh0, disk.vol, shape, disk.Max(), slot, first, s, Splice(s, offset, d), k)
      requires slot < |shape.chains| && k <= |shape.chains[slot]|
      requires prev == (if k == 0 then 0 else shape.chains[slot][k - 1]) && cluster == At(shape.chains[slot], k)
      modifies this`shape, disk`vol, disk.bytes
      ensures disk.Valid()
      ensures !ok ==>
                && k == |old(shape).chains[slot]| && shape == old(shape) && disk.vol == old(disk.vol) && first' == first
                && Full(disk.vol.fat, disk.Max())
      ensures ok ==> Midway(vol0, sh0, disk.vol, shape, disk.Max(), slot, first', s, Splice(s, offset, d), k + 1)
      ensures ok ==>
                && slot < |shape.chains| && k < |shape.chains[slot]| && cluster' == shape.chains[slot][k]
                && |buf'| == CLUSTER
      ensures slot < |shape.chains| && disk.Max() < |disk.vol.fat| && disk.Max() < |old(disk.vol).fat|
      ensures Stock(disk.vol, disk.Max(), shape, slot) == Stock(old(disk.vol), disk.Max(), old(shape), slot)
    {
      hide Midway, Represents, Stock;
      ghost var t, max := Splice(s, offset, d), disk.Max();
      MidwayChain(vol0, sh0, disk.vol, shape, max, slot, first, s, t, k);
      ok, cluster', first', buf' := true, cluster, first, buf;
      if !IsDataCluster(cluster) {
        ghost var before, sh := disk.vol, shape;
        assert k == |sh.chains[slot]|;
        var c: Result<nat>;
        c, first' := LinkCluster(prev, first, sh.chains[slot]);
        if c.Err? {
          ok := false;
          return;
        }
        cluster' := c.value;
        MidwayExtend(vol0, sh0, before, sh, max, slot, first, s, t, cluster');
        StockKept(before, disk.vol, max, sh, slot, cluster');
        shape := Extended(shape, slot, cluster');
        buf' := Zeros(CLUSTER);
      } else if offset > clusterStart || offset + |d| < clusterStart + CLUSTER {
        buf' := disk.ReadCluster(cluster);
      }
      PatchedAgrees(buf', s, offset, d, k);
      buf' := CopyIn(ZeroGap(buf', clusterStart, size, offset), clusterStart, offset, d);
      MidwayStore(vol0, sh0, disk.vol, shape, max, slot, first', s, t, k, buf');
      StockFrame(disk.vol, disk.vol.(data := disk.vol.data[cluster' := buf']), max, shape, slot);
      disk.WriteCluster(cluster', buf');
    }

    /** The cluster loop of write_at_unlocked. On return the first `filled` clusters of the chain of `slot`
        hold the spliced bytes; the loop stops short only when no cluster is free. */
    method Transfer(slot: nat, first: nat, size: nat, offset: nat, d: seq<byte>, ghost s: seq<byte>)
      returns (ok: bool, first': nat, reached: nat, ghost filled: nat)
      requires disk.Valid() && slot < |shape.chains| && d != [] && size == |s|
      requires disk.Max() < FAT_ENTRIES == |disk.vol.fat| && first < 0x1_0000
      requires IsChain(disk.vol.fat, disk.Max(), first, shape.chains[slot]) && size <= CLUSTER * |shape.chains[slot]|
      requires Midway(disk.vol, shape, disk.vol, shape, disk.Max(), slot, first, s, Splice(s, offset, d),
                      Min(offset, size) / CLUSTER)
      modifies this`shape, disk`vol, disk.bytes
      ensures disk.Valid() && slot < |shape.chains|
      ensures Midway(old(disk.vol), old(shape), disk.vol, shape, disk.Max(), slot, first', s, Splice(s, offset, d),
                     filled)
      ensures ok ==> reached == offset + |d| <= CLUSTER * filled
      ensures !ok ==>
                && filled == |shape.chains[slot]| && size <= reached == CLUSTER * filled < offset + |d|
                && Full(disk.vol.fat, disk.Max())
      ensures disk.Max() < |disk.vol.fat|
      ensures Stock(disk.vol, disk.Max(), shape, slot) == Stock(old(disk.vol), disk.Max(), old(shape), slot)
    {
      hide Midway, Represents, Widths, Splice, Full, IsChain, Stock, Agrees, At;
      var end, start := offset + |d|, Min(offset, size);
      var clusterStart := start - start % CLUSTER;
      ghost var t, max := Splice(s, offset, d), disk.Max();
      ghost var stock := Stock(disk.vol, max, shape, slot);
      filled := start / CLUSTER;
      ClusterOf(start);
      var clusterBuf := Zeros(CLUSTER);
      reached, first' := start, first;
      var prev: nat, cluster: nat := SeekCluster(first, clusterStart / CLUSTER, shape.chains[slot]);
      while true
        invariant disk.Valid() && clusterStart == CLUSTER * filled < end && |clusterBuf| == CLUSTER
        invariant Midway(old(disk.vol), old(shape), disk.vol, shape, max, slot, first', s, t, filled)
        invariant slot < |shape.chains| && filled <= |shape.chains[slot]| && size <= CLUSTER * |shape.chains[slot]|
        invariant prev == (if filled == 0 then 0 else shape.chains[slot][filled - 1])
        invariant cluster == At(shape.chains[slot], filled)
        invariant filled == |shape.chains[slot]| ==> reached == clusterStart
        invariant max < |disk.vol.fat| && Stock(disk.vol, max, shape, slot) == stock
        decreases end - clusterStart
      {
        var clusterEnd := clusterStart + CLUSTER;
        ok, cluster, first', clusterBuf :=
          PutCluster(slot, prev, cluster, first', clusterStart, size, offset, d, clusterBuf, old(disk.vol), old(shape),
                     s, filled);
        if !ok {
          return;
        }
        filled := filled + 1;
        MidwayChain(old(disk.vol), old(shape), disk.vol, shape, max, slot, first', s, t, filled);
        reached := Max(Min(end, clusterEnd), Min(offset, clusterEnd));
        assert reached == Min(end, clusterEnd);
        if clusterEnd >= end {
          return;
        }
        clusterStart := clusterEnd;
        prev := cluster;
        var next := disk.ReadFatEntry(cluster);
        cluster := next.value;
      }
    }

    /** The part of write_at_unlocked after its argument checks: run the cluster loop, then store the entry
        with its new first cluster and size. */
    method Overwrite(slot: nat, at: nat, d: seq<byte>) returns (ok: bool, written: nat)
      requires Valid() && slot < DIR_ENTRIES && disk.vol.dir[slot].inUse == 1 && d != [] && at + |d| <= 0xFFFF_FFFF
      modifies this`generations, this`retired, this`shape, disk`vol, disk.bytes
      ensures Valid() && disk.vol.boot == old(disk.vol.boot)
      ensures generations == old(generations) && retired == old(retired)
      ensures old(Conserved()) ==> Conserved()
      ensures !ok ==> Full(disk.vol.fat, disk.Max())
      ensures var room := CLUSTER * Stock(old(disk.vol), disk.Max(), old(shape), slot);
              (ok <==> at + |d| <= room) && written == Fit(at, |d|, room)
      ensures Contents() == old(Contents())[slot :=
                Used(old(Contents())[slot].name, Splice(old(Contents())[slot].bytes, at, d[..written]))]
    {
      hide Represents, Layout, Midway, Splice, Files, Full, NoLeak, Stock;
      ghost var vol0, sh0, max := disk.vol, shape, disk.Max();
      ghost var s := SlotOf(vol0, max, sh0, slot).bytes;
      var read := disk.ReadDirEntry(slot);
      var entry, size := read.value, read.value.size;
      MidwayStart(vol0, max, sh0, slot, s, at, d);
      var first, reached;
      ghost var filled;
      ok, first, reached, filled := Transfer(slot, entry.first, size, at, d, s);
      MidwayChain(vol0, sh0, disk.vol, shape, max, slot, first, s, Splice(s, at, d), filled);
      WroteExactly(disk.vol, max, shape, slot, filled, ok, reached, at, |d|);
      if ok {
        MidwayTail(vol0, sh0, disk.vol, shape, max, slot, first, s, at, d, filled);
      }
      written := if reached > at then reached - at else 0;
      var size' := if written > 0 then Max(size, reached) else size;
      WrittenBytes(s, at, d, reached, size', written);
      MidwayFinish(vol0, sh0, disk.vol, shape, max, slot, entry.(first := first, size := size'), s, Splice(s, at, d));
      WriteDirEntry(slot, entry.(first := first, size := size'));
    }

    /** write_at_unlocked. A result Ok((at, n)) means the file is its old bytes, zero-extended to `at` and
        overwritten with d[..n]; n follows from the clusters the file has and those that are free. Any
        error leaves every file as it was. */
    method WriteAt(id: FileId, offset: Option<nat>, d: seq<byte>) returns (r: Result<(nat, nat)>)
      requires Valid() && id.slot < DIR_ENTRIES
      modifies this`generations, this`retired, this`shape, disk`vol, disk.bytes
      ensures Valid() && disk.vol.boot == old(disk.vol.boot)
      ensures generations == old(generations) && retired == old(retired)
      ensures old(Conserved()) ==> Conserved()
      ensures old(Contents())[id.slot].Unused? || generations[id.slot] != id.generation ==> r == Err(FileNotFound)
      ensures r.Err? ==> Contents() == old(Contents())
      ensures old(Contents())[id.slot].Used? && generations[id.slot] == id.generation ==>
                var was := old(Contents())[id.slot];
                var at := if offset.None? then |was.bytes| else offset.value;
                var room := CLUSTER * Stock(old(disk.vol), disk.Max(), old(shape), id.slot);
                && r == (if d == [] then Ok((at, 0))
                         else if at + |d| > 0xFFFF_FFFF || room <= at then Err(NoSpace)
                         else Ok((at, Fit(at, |d|, room))))
                && (r.Ok? ==>
                       Contents() == old(Contents())[id.slot := Used(was.name, Splice(was.bytes, at, d[..r.value.1]))])
    {
      hide Represents, Layout, Splice, Files, Full, NoLeak, Stock;
      ghost var was := Contents()[id.slot];
      var entry :- OpenEntry(id);
      var at := if offset.None? then entry.size else offset.value;
      if d == [] {
        SpliceNothing(was.bytes, at);
        return Ok((at, 0));
      }
      if at + |d| > 0xFFFF_FFFF {
        return Err(NoSpace);
      }
      var ok, written := Overwrite(id.slot, at, d);
      if ok {
        return Ok((at, |d|));
      } else if written > 0 {
        return Ok((at, written));
      } else {
        assert d[..0] == [];
        SpliceNothing(was.bytes, at);
        return Err(NoSpace);
      }
    }

    // ---- Whole files --------------------------------------------------------------------

    /** One turn of the loop of create_file_unlocked: allocate a cluster, link it, store one chunk. */
    method PutChunk(slot: nat, prev: nat, first: nat, d: seq<byte>, i: nat, ghost vol0: Volume, ghost sh0: Shape)
      returns (r: Result<nat>, first': nat)
      requires disk.Valid() && slot < |shape.chains| && CLUSTER * i < |d|
      requires |shape.chains[slot]| == i && prev == Last(shape.chains[slot])
      requires Midway(vol0, sh0, disk.vol, shape, disk.Max(), slot, first, [], d, i)
      modifies this`shape, disk`vol, disk.bytes
      ensures disk.Valid() && slot < |shape.chains|
      ensures r.Err? ==>
                && r.error == NoSpace && first' == first && disk.vol == old(disk.vol) && shape == old(shape)
                && Full(disk.vol.fat, disk.Max())
      ensures r.Ok? ==> |shape.chains[slot]| == i + 1 && Last(shape.chains[slot]) == r.value
      ensures r.Ok? ==> Midway(vol0, sh0, disk.vol, shape, disk.Max(), slot, first', [], d, i + 1)
      ensures disk.Max() < |disk.vol.fat| && disk.Max() < |old(disk.vol).fat|
      ensures Stock(disk.vol, disk.Max(), shape, slot) == Stock(old(disk.vol), disk.Max(), old(shape), slot)
    {
      hide Midway, Represents, Stock;
      ghost var before, max := disk.vol, disk.Max();
      MidwayChain(vol0, sh0, before, shape, max, slot, first, [], d, i);
      r, first' := LinkCluster(prev, first, shape.chains[slot]);
      if r.Err? {
        return;
      }
      MidwayExtend(vol0, sh0, before, shape, max, slot, first, [], d, r.value);
      StockKept(before, disk.vol, max, shape, slot, r.value);
      shape := Extended(shape, slot, r.value);
      var chunk := d[CLUSTER * i..Min(CLUSTER * (i + 1), |d|)];
      var buf := chunk + Zeros(CLUSTER - |chunk|);
      assert Agrees(buf, d, i);
      MidwayStore(vol0, sh0, disk.vol, shape, max, slot, first', [], d, i, buf);
      StockFrame(disk.vol, disk.vol.(data := disk.vol.data[r.value := buf]), max, shape, slot);
      disk.WriteCluster(r.value, buf);
    }

    /** The cluster loop of create_file_unlocked: one cluster per 4096 bytes of `d`. */
    method StoreChain(slot: nat, d: seq<byte>) returns (ok: bool, first: nat)
      requires disk.Valid() && slot < |shape.chains| && shape.chains[slot] == []
      requires Midway(disk.vol, shape, disk.vol, shape, disk.Max(), slot, 0, [], d, 0)
      modifies this`shape, disk`vol, disk.bytes
      ensures disk.Valid() && slot < |shape.chains|
      ensures Midway(old(disk.vol), old(shape), disk.vol, shape, disk.Max(), slot, first, [], d, |shape.chains[slot]|)
      ensures ok ==> |d| <= CLUSTER * |shape.chains[slot]|
      ensures !ok ==> d != [] && Full(disk.vol.fat, disk.Max())
      ensures !ok && shape.chains[slot] == [] ==> disk.vol == old(disk.vol)
      ensures disk.Max() < |old(disk.vol).fat|
      ensures (ok <==> Clusters(|d|) <= Stock(old(disk.vol), disk.Max(), old(shape), slot))
    {
      hide Midway, Represents, Full, Stock, Widths;
      MidwayChain(disk.vol, shape, disk.vol, shape, disk.Max(), slot, 0, [], d, 0);
      ghost var stock := Stock(disk.vol, disk.Max(), shape, slot);
      var needed := Clusters(|d|);
      assert CLUSTER * needed < |d| + CLUSTER && |d| <= CLUSTER * needed;
      var i, prev := 0, 0;
      first := 0;
      while i < needed
        invariant i <= needed && disk.Valid() && slot < |shape.chains|
        invariant |shape.chains[slot]| == i && prev == Last(shape.chains[slot])
        invariant Midway(old(disk.vol), old(shape), disk.vol, shape, disk.Max(), slot, first, [], d, i)
        invariant i == 0 ==> disk.vol == old(disk.vol)
        invariant disk.Max() < |disk.vol.fat| && Stock(disk.vol, disk.Max(), shape, slot) == stock
      {
        var r: Result<nat>;
        r, first := PutChunk(slot, prev, first, d, i, old(disk.vol), old(shape));
        if r.Err? {
          StockFull(disk.vol, disk.Max(), shape, slot);
          return false, first;
        }
        prev := r.value;
        i := i + 1;
      }
      StockCovers(disk.vol, disk.Max(), shape, slot, needed);
      ok := true;
    }

    /** create_file_unlocked from the free slot on: build the chain, then store the entry. */
    method StoreNew(name: seq<byte>, d: seq<byte>, slot: nat) returns (ok: bool)
      requires Valid() && slot < DIR_ENTRIES && disk.vol.dir[slot].inUse == 0 && |name| <= 21
      modifies this`generations, this`retired, this`shape, disk`vol, disk.bytes
      ensures Valid() && disk.vol.boot == old(disk.vol.boot) && retired == old(retired)
      ensures ok ==>
                Contents() == old(Contents())[slot := Used(NulPrefix(name), d)] && (old(Conserved()) ==> Conserved())
      ensures ok <==> Clusters(|d|) <= |FreeClusters(old(disk.vol).fat, disk.Max())|
      ensures !ok ==> d != [] && Contents() == old(Contents()) && Full(disk.vol.fat, disk.Max())
      ensures !ok && old(Conserved()) ==> (Conserved() <==> Full(old(disk.vol).fat, disk.Max()))
    {
      hide Represents, Midway, Files, Layout, Full, NoLeak;
      ghost var vol0, sh0, max := disk.vol, shape, disk.Max();
      MidwayFresh(vol0, max, sh0, slot, d);
      var first: nat;
      ok, first := StoreChain(slot, d);
      MidwayChain(vol0, sh0, disk.vol, shape, max, slot, first, [], d, |shape.chains[slot]|);
      if !ok {
        MidwayAbandon(vol0, sh0, disk.vol, shape, max, slot, first, d);
        FullWhenNothingLinked(vol0, sh0, disk.vol, shape, max, slot, first, d);
        shape := sh0;
        return;
      }
      ChainSize(vol0, sh0, disk.vol, shape, max, slot, first, d);
      var entry := DirEntry(PaddedName(name), first, |d| % 0x1_0000_0000, 1, Zeros(3));
      NulPrefixPadded(name, 22 - |name|);
      MidwayFinish(vol0, sh0, disk.vol, shape, max, slot, entry, [], d);
      assert d[..|d|] == d;
      WriteDirEntry(slot, entry);
    }

    /** create_file_unlocked. On success the name reads exactly `d` and nothing else changed. A failure for
        lack of space has already deleted the old file, and strands clusters exactly when a slot and some but too
        few clusters were free after that deletion. */
    method Create(name: seq<byte>, d: seq<byte>) returns (r: Result<()>)
      requires Valid()
      modifies this`generations, this`retired, this`shape, disk`vol, disk.bytes
      ensures Valid() && disk.vol.boot == old(disk.vol.boot)
      ensures name == [] || |name| > 21 ==> r.Err? && r.error == InvalidArgument && Contents() == old(Contents())
      ensures 0 < |name| <= 21 && !Formatted() ==> r.Err? && r.error == NotFormatted && Contents() == old(Contents())
      ensures name == [] || |name| > 21 || !Formatted() ==>
                retired == old(retired) && (old(Conserved()) ==> Conserved())
      ensures 0 < |name| <= 21 && Formatted() ==>
                var hit := FirstNamed(old(disk.vol).dir, name);
                var mid := Emptied(old(disk.vol), old(shape), hit);
                var free := FirstFree(mid.dir);
                var files := if hit < DIR_ENTRIES then old(Contents())[hit := Unused] else old(Contents());
                var left := |FreeClusters(mid.fat, disk.Max())|;
                && retired == (if hit < DIR_ENTRIES then old(retired)[hit := old(retired)[hit] + 1] else old(retired))
                && (r.Ok? <==> free < DIR_ENTRIES && Clusters(|d|) <= left)
                && (r.Ok? ==> Contents() == files[free := Used(NulPrefix(name), d)])
                && (r.Ok? && old(Conserved()) ==> Conserved())
                && (r.Err? ==> r.error == NoSpace && Contents() == files)
                && (r.Err? && free < DIR_ENTRIES ==> Full(disk.vol.fat, disk.Max()))
                && (old(Conserved()) ==> (Conserved() <==> !(free < DIR_ENTRIES && 0 < left < Clusters(|d|))))
    {
      hide Represents, Files, Layout;
      if name == [] || |name| > 21 {
        return Err(InvalidArgument);
      }
      var formatted := CheckFormatted();
      if !formatted {
        return Err(NotFormatted);
      }
      var hit := FindFile(name);
      if hit.value < DIR_ENTRIES {
        DeleteSlot(hit.value);
      }
      var slot := FindFreeSlot();
      if slot == DIR_ENTRIES {
        return Err(NoSpace);
      }
      FullIsNone(disk.vol.fat, disk.Max());
      var ok := StoreNew(name, d, slot);
      if !ok {
        return Err(NoSpace);
      }
      return Ok(());
    }

    // ---- Whole runs -------------------------------------------------------------------------------

    /** Any calls in any order; `before` are the volumes they meet. The volume stays well formed, no call retires a
        slot's handles more than once, names stay unique unless one with a NUL is created, and clusters are conserved
        unless         some creation met what it takes to strand them. */
    method Run(ops: seq<Op>) returns (ghost before: seq<(Volume, Shape)>)
      requires Valid()
      modifies this`generations, this`retired, this`shape, disk`vol, disk.bytes
      ensures Valid() && (forall i :: 0 <= i < DIR_ENTRIES ==> old(retired)[i] <= retired[i] <= old(retired)[i] + |ops|)
      ensures |before| == |ops| && (ops != [] ==> before[0] == (old(disk.vol), old(shape)))
      ensures old(Conserved()) && NoneStrands(before, disk.Max(), ops, |ops|) ==> Conserved()
      ensures old(UniqueNames(Contents())) && (forall i :: 0 <= i < |ops| ==> NulFree(ops[i])) ==>
                UniqueNames(Contents())
    {
      hide Wf, Represents, Files, NoLeak, UniqueNames, Strands;
      before := [];
      for n := 0 to |ops|
        invariant Valid() && (forall i :: 0 <= i < DIR_ENTRIES ==> old(retired)[i] <= retired[i] <= old(retired)[i] + n)
        invariant |before| == n && (n > 0 ==> before[0] == (old(disk.vol), old(shape)))
        invariant n == 0 ==> disk.vol == old(disk.vol) && shape == old(shape)
        invariant old(Conserved()) && NoneStrands(before, disk.Max(), ops, n) ==> Conserved()
        invariant old(UniqueNames(Contents())) && (forall i :: 0 <= i < n ==> NulFree(ops[i])) ==>
                  UniqueNames(Contents())
      {
        before := before + [(disk.vol, shape)];
        Do(ops[n]);
        assert NoneStrands(before, disk.Max(), ops, n + 1) ==>
                 NoneStrands(before[..n], disk.Max(), ops, n) && !Strands(before[n].0, before[n].1, disk.Max(), ops[n]);
        assert before[..n] + [before[n]] == before;
      }
    }

    method Do(op: Op)
      requires Valid()
      modifies this`generations, this`retired, this`shape, disk`vol, disk.bytes
      ensures Valid() && (forall i :: 0 <= i < DIR_ENTRIES ==> old(retired)[i] <= retired[i] <= old(retired)[i] + 1)
      ensures old(Conserved()) && !Strands(old(disk.vol), old(shape), disk.Max(), op) ==> Conserved()
      ensures old(UniqueNames(Contents())) && NulFree(op) ==> UniqueNames(Contents())
    {
      hide Wf, Represents, Files, NoLeak, FirstNamed, FirstFree, UniqueNames, Strands;
      match op
      case Find(name, create, truncate) => Look(name, create, truncate);
      case Remove(name) => Drop(name);
      case Put(id, offset, d) => if id.slot < DIR_ENTRIES { Change(id, offset, d); }
      case Make(name, d) => Build(name, d);
      case Wipe =>
        Format();
        NoNames(Contents());
    }

    method Look(name: seq<byte>, create: bool, truncate: bool)
      requires Valid()
      modifies this`generations, this`retired, this`shape, disk`vol, disk.bytes
      ensures Valid() && retired == old(retired) && (old(Conserved()) ==> Conserved())
      ensures old(UniqueNames(Contents())) && NulFree(Find(name, create, truncate)) ==> UniqueNames(Contents())
    {
      hide Wf, Represents, Files, NoLeak, FirstNamed, FirstFree, UniqueNames;
      ghost var vol, sh := disk.vol, shape;
      var r := Open(name, create, truncate);
      if r.Ok? && UniqueNames(Files(vol, disk.Max(), sh)) && NulFree(Find(name, create, truncate)) {
        if FirstNamed(vol.dir, name) < DIR_ENTRIES {
          HitKeepsNames(vol, disk.Max(), sh, name, Contents()[r.value.slot]);
        } else {
          AddKeepsNames(vol, disk.Max(), sh, name, r.value.slot);
        }
      }
    }

    method Drop(name: seq<byte>)
      requires Valid()
      modifies this`generations, this`retired, this`shape, disk`vol, disk.bytes
      ensures Valid() && (forall i :: 0 <= i < DIR_ENTRIES ==> old(retired)[i] <= retired[i] <= old(retired)[i] + 1)
      ensures (old(Conserved()) ==> Conserved()) && (old(UniqueNames(Contents())) ==> UniqueNames(Contents()))
    {
      hide Wf, Represents, Files, NoLeak, FirstNamed, UniqueNames;
      ghost var files := Contents();
      var r := Delete(name);
      if r.Ok? {
        OneNameLess(files, FirstNamed(old(disk.vol).dir, name));
      }
    }

    method Change(id: FileId, offset: Option<nat>, d: seq<byte>)
      requires Valid() && id.slot < DIR_ENTRIES
      modifies this`generations, this`retired, this`shape, disk`vol, disk.bytes
      ensures Valid() && retired == old(retired) && (old(Conserved()) ==> Conserved())
      ensures old(UniqueNames(Contents())) ==> UniqueNames(Contents())
    {
      hide Wf, Represents, Files, NoLeak, UniqueNames, Stock;
      ghost var files := Contents();
      var r := WriteAt(id, offset, d);
      if r.Ok? {
        SameNames(files, id.slot, Contents()[id.slot]);
      }
    }

    method Build(name: seq<byte>, d: seq<byte>)
      requires Valid()
      modifies this`generations, this`retired, this`shape, disk`vol, disk.bytes
      ensures Valid() && (forall i :: 0 <= i < DIR_ENTRIES ==> old(retired)[i] <= retired[i] <= old(retired)[i] + 1)
      ensures old(Conserved()) && !Strands(old(disk.vol), old(shape), disk.Max(), Make(name, d)) ==> Conserved()
      ensures old(UniqueNames(Contents())) && 0 !in name ==> UniqueNames(Contents())
    {
      hide Wf, Represents, Files, NoLeak, FirstNamed, FirstFree, UniqueNames, Emptied;
      ghost var vol, sh := disk.vol, shape;
      VolumeSizes(vol, disk.Max(), sh);
      var r := Create(name, d);
      if UniqueNames(Files(vol, disk.Max(), sh)) && 0 < |name| <= 21 && 0 !in name && Formatted() {
        CreateKeepsNames(vol, disk.Max(), sh, name, d);
      }
    }

    /** A handle issued after `issued` retirements of its slot, which has been retired since, is refused after any
        calls, whoever has the slot by then, until the 32-bit generation comes round. */
    method Stale(id: FileId, ghost issued: nat, ops: seq<Op>, offset: nat, n: nat, d: seq<byte>)
      returns (read: Result<seq<byte>>, written: Result<(nat, nat)>)
      requires Valid() && id.slot < DIR_ENTRIES && id.generation == issued % GENERATIONS
      requires issued < retired[id.slot] && retired[id.slot] + |ops| < issued + GENERATIONS
      modifies this`generations, this`retired, this`shape, disk`vol, disk.bytes
      ensures Valid() && read == Err(FileNotFound) && written == Err(FileNotFound)
    {
      hide Wf, Represents, Files, NoLeak;
      ghost var before := Run(ops);
      StaleHandle(issued, retired[id.slot]);
      read := ReadAt(id, offset, n);
      written := WriteAt(id, Some(offset), d);
    }

    /** A file is opened and deleted; whatever happens next, the handle neither reads nor writes. */
    method UseAfterDelete(name: seq<byte>, ops: seq<Op>, offset: nat, n: nat, d: seq<byte>)
      returns (read: Result<seq<byte>>, written: Result<(nat, nat)>)
      requires Valid() && Formatted() && 0 < |name| <= 21 && FirstNamed(disk.vol.dir, name) < DIR_ENTRIES
      requires |ops| + 1 < GENERATIONS
      modifies this`generations, this`retired, this`shape, disk`vol, disk.bytes
      ensures Valid() && read == Err(FileNotFound) && written == Err(FileNotFound)
    {
      ghost var vol0, sh0 := disk.vol, shape;
      var id := Open(name, false, false);
      ghost var issued := retired[id.value.slot];
      assert Contents() == Files(vol0, disk.Max(), sh0);
      SameLookup(vol0, sh0, disk.vol, shape, disk.Max(), name);
      var gone := Delete(name);
      read, written := Stale(id.value, issued, ops, offset, n, d);
    }

    /** format_unlocked: on any device contents, an empty conserved volume whose old handles are all retired. */
    method Format()
      requires disk.Valid() && Counters()
      modifies this`generations, this`retired, this`shape, disk`vol, disk.bytes
      ensures Valid() && Formatted() && Conserved()
      ensures forall i :: 0 <= i < DIR_ENTRIES ==> Contents()[i] == Unused
      ensures forall i :: 0 <= i < DIR_ENTRIES ==> retired[i] == old(retired)[i] + 1
      ensures disk.vol.dir == seq(DIR_ENTRIES, _ => EmptyEntry())
      ensures forall c :: 2 <= c <= disk.Max() ==> disk.vol.fat[c] == FAT_FREE
    {
      hide Represents;
      disk.FormatRegions();
      ghost var vol := disk.vol;
      var slot := 0;
      while slot < DIR_ENTRIES
        invariant disk.Valid() && disk.vol == vol
        invariant slot <= DIR_ENTRIES && Counters()
        invariant forall i :: 0 <= i < DIR_ENTRIES ==> retired[i] == old(retired)[i] + if i < slot then 1 else 0
      {
        RetireSlot(slot);
        slot := slot + 1;
      }
      shape := Shape(seq(DIR_ENTRIES, _ => []), map[]);
      EmptyVolume(disk.vol, disk.Max());
    }
  }

  /** The clusters `n` bytes take. */
  function Clusters(n: nat): nat { (n + CLUSTER - 1) / CLUSTER }

  /** How many of `n` bytes from `at` on end within `room`. */
  function Fit(at: nat, n: nat, room: nat): nat {
    if at + n <= room then n else if room <= at then 0 else room - at
  }

  lemma StockFrame(vol: Volume, vol': Volume, max: nat, sh: Shape, slot: nat)
    requires slot < |sh.chains| && max < |vol.fat| && vol'.fat == vol.fat
    ensures Stock(vol', max, sh, slot) == Stock(vol, max, sh, slot)
  {
  }

  lemma StockFull(vol: Volume, max: nat, sh: Shape, slot: nat)
    requires slot < |sh.chains| && max < |vol.fat| && Full(vol.fat, max)
    ensures Stock(vol, max, sh, slot) == |sh.chains[slot]|
  {
    FullIsNone(vol.fat, max);
  }

  /** The loop stops short exactly when the clusters of the file and the free ones together do not reach. */
  lemma WroteExactly(vol: Volume, max: nat, sh: Shape, slot: nat, filled: nat, ok: bool, reached: nat, at: nat, n: nat)
    requires slot < |sh.chains| && max < |vol.fat| && filled <= |sh.chains[slot]|
    requires ok ==> reached == at + n <= CLUSTER * filled
    requires !ok ==> filled == |sh.chains[slot]| && reached == CLUSTER * filled < at + n && Full(vol.fat, max)
    ensures var room := CLUSTER * Stock(vol, max, sh, slot);
            (ok <==> at + n <= room) && (if reached > at then reached - at else 0) == Fit(at, n, room)
  {
    if ok {
      StockCovers(vol, max, sh, slot, filled);
    } else {
      StockFull(vol, max, sh, slot);
    }
  }

  lemma StockCovers(vol: Volume, max: nat, sh: Shape, slot: nat, n: nat)
    requires slot < |sh.chains| && max < |vol.fat| && n <= |sh.chains[slot]|
    ensures n <= Stock(vol, max, sh, slot)
  {
  }

  /** The volume after create_file_unlocked has deleted the file it replaces, if there is one. */
  ghost function Emptied(vol: Volume, sh: Shape, hit: nat): (r: Volume)
    requires |vol.dir| == |sh.chains| == DIR_ENTRIES
    ensures |r.dir| == DIR_ENTRIES && |r.fat| == |vol.fat|
  {
    if hit < DIR_ENTRIES then Released(vol, sh, hit, EmptyEntry()) else vol
  }

  /** What the entry's new size makes visible of the spliced bytes. */
  lemma WrittenBytes(s: seq<byte>, at: nat, d: seq<byte>, reached: nat, size: nat, written: nat)
    requires d != [] && reached <= at + |d|
    requires reached == at + |d| || |s| <= reached
    requires written == if reached > at then reached - at else 0
    requires size == if written > 0 then Max(|s|, reached) else |s|
    ensures size <= |Splice(s, at, d)|
    ensures Splice(s, at, d)[..size] == Splice(s, at, d[..written])
  {
    if reached == at + |d| {
      assert d[..|d|] == d;
    } else if written > 0 {
      SpliceCut(s, at, d, reached);
    } else {
      SplicePrefix(s, at, d);
    }
  }

  datatype Op = Find(name: seq<byte>, create: bool, truncate: bool) | Remove(name: seq<byte>)
              | Put(id: FileId, offset: Option<nat>, d: seq<byte>) | Make(name: seq<byte>, d: seq<byte>) | Wipe

  /** No name with a NUL is created. */
  predicate NulFree(op: Op) { (op.Make? || (op.Find? && op.create)) ==> 0 !in op.name }

  /** The creation finds a slot and some clusters, but too few. */
  ghost predicate Strands(vol: Volume, sh: Shape, max: nat, op: Op) {
    && op.Make? && 0 < |op.name| <= 21 && |vol.boot| == SECTOR && vol.boot[..8] == Magic()
    && |vol.dir| == |sh.chains| == DIR_ENTRIES && max < |vol.fat|
    && var mid := Emptied(vol, sh, FirstNamed(vol.dir, op.name));
       FirstFree(mid.dir) < DIR_ENTRIES && 0 < |FreeClusters(mid.fat, max)| < Clusters(|op.d|)
  }

  ghost predicate NoneStrands(before: seq<(Volume, Shape)>, max: nat, ops: seq<Op>, n: nat)
    requires |before| == n <= |ops|
  {
    forall k :: 0 <= k < n ==> !Strands(before[k].0, before[k].1, max, ops[k])
  }

  lemma NoNames(files: seq<Slot>)
    requires forall i :: 0 <= i < |files| ==> files[i] == Unused
    ensures UniqueNames(files)
  {
  }

  lemma OneNameLess(files: seq<Slot>, slot: nat)
    requires slot < |files|
    ensures UniqueNames(files) ==> UniqueNames(files[slot := Unused])
  {
  }

  lemma SameNames(files: seq<Slot>, slot: nat, f: Slot)
    requires slot < |files| && (f.Used? ==> files[slot].Used? && files[slot].name == f.name)
    ensures UniqueNames(files) ==> UniqueNames(files[slot := f])
  {
  }

  lemma VolumeSizes(vol: Volume, max: nat, sh: Shape)
    requires Wf(vol, max, sh)
    ensures |vol.dir| == |sh.chains| == DIR_ENTRIES && max < |vol.fat|
  {
  }

  lemma ShowsName(vol: Volume, max: nat, sh: Shape, name: seq<byte>)
    requires Wf(vol, max, sh)
    ensures var files, hit := Files(vol, max, sh), FirstNamed(vol.dir, name);
            if hit < DIR_ENTRIES then files[hit].Used? && files[hit].name == name
            else forall i :: 0 <= i < DIR_ENTRIES && files[i].Used? ==> files[i].name != name
  {
    hide Wf, SlotOf, FirstNamed;
    VolumeSizes(vol, max, sh);
    forall i | 0 <= i < DIR_ENTRIES
      ensures Files(vol, max, sh)[i].Used? <==> vol.dir[i].inUse == 1
      ensures Files(vol, max, sh)[i].Used? ==> Files(vol, max, sh)[i].name == NulPrefix(vol.dir[i].name)
    {
      ShownNames(vol, max, sh, i);
    }
  }

  lemma HitKeepsNames(vol: Volume, max: nat, sh: Shape, name: seq<byte>, f: Slot)
    requires Wf(vol, max, sh) && UniqueNames(Files(vol, max, sh)) && FirstNamed(vol.dir, name) < DIR_ENTRIES
    requires var was := Files(vol, max, sh)[FirstNamed(vol.dir, name)];
             f == was || (f.Used? && f.name == NulPrefix(name))
    ensures UniqueNames(Files(vol, max, sh)[FirstNamed(vol.dir, name) := f])
  {
    hide Wf, SlotOf, UniqueNames, FirstNamed, Files;
    VolumeSizes(vol, max, sh);
    ShowsName(vol, max, sh, name);
    SameName(vol.dir[FirstNamed(vol.dir, name)], name);
    SameNames(Files(vol, max, sh), FirstNamed(vol.dir, name), f);
  }

  lemma AddKeepsNames(vol: Volume, max: nat, sh: Shape, name: seq<byte>, slot: nat)
    requires Wf(vol, max, sh) && UniqueNames(Files(vol, max, sh)) && FirstNamed(vol.dir, name) == DIR_ENTRIES
    requires 0 !in name
    requires slot == FirstFree(vol.dir) < DIR_ENTRIES
    ensures Files(vol, max, sh)[slot].Unused? && UniqueNames(Files(vol, max, sh)[slot := Used(NulPrefix(name), [])])
  {
    hide Wf, SlotOf, UniqueNames, FirstNamed, FirstFree, Files;
    VolumeSizes(vol, max, sh);
    ShowsName(vol, max, sh, name);
    ShownNames(vol, max, sh, slot);
    NulPrefixSame(name);
    UniqueAfterAdd(Files(vol, max, sh), slot, name, []);
  }

  lemma CreateKeepsNames(vol: Volume, max: nat, sh: Shape, name: seq<byte>, d: seq<byte>)
    requires Wf(vol, max, sh) && |vol.dir| == |sh.chains| == DIR_ENTRIES && UniqueNames(Files(vol, max, sh))
    requires 0 !in name
    ensures var hit := FirstNamed(vol.dir, name);
            var files := if hit < DIR_ENTRIES then Files(vol, max, sh)[hit := Unused] else Files(vol, max, sh);
            var free := FirstFree(Emptied(vol, sh, hit).dir);
            UniqueNames(files) && (free < DIR_ENTRIES ==> UniqueNames(files[free := Used(NulPrefix(name), d)]))
  {
    hide Wf, SlotOf, FirstNamed, FirstFree, Files;
    var hit := FirstNamed(vol.dir, name);
    var free := FirstFree(Emptied(vol, sh, hit).dir);
    var files := if hit < DIR_ENTRIES then Files(vol, max, sh)[hit := Unused] else Files(vol, max, sh);
    ShowsName(vol, max, sh, name);
    NulPrefixSame(name);
    if free < DIR_ENTRIES {
      ShownNames(vol, max, sh, free);
      UniqueAfterAdd(files, free, name, d);
    }
  }

  /** Looking a name up depends only on what the slots show. */
  lemma SameLookup(vol: Volume, sh: Shape, vol': Volume, sh': Shape, max: nat, name: seq<byte>)
    requires Wf(vol, max, sh) && Wf(vol', max, sh') && Files(vol, max, sh) == Files(vol', max, sh')
    ensures |vol.dir| == |vol'.dir| == DIR_ENTRIES && FirstNamed(vol.dir, name) == FirstNamed(vol'.dir, name)
  {
    hide Wf, SlotOf;
    ShownNames(vol, max, sh, 0);
    ShownNames(vol', max, sh', 0);
    forall i | 0 <= i < DIR_ENTRIES
      ensures Named(vol.dir[i], name) <==> Named(vol'.dir[i], name)
    {
      ShownNames(vol, max, sh, i);
      ShownNames(vol', max, sh', i);
    }
    var a, b := FirstNamed(vol.dir, name), FirstNamed(vol'.dir, name);
    assert a < DIR_ENTRIES ==> Named(vol'.dir[a], name);
    assert b < DIR_ENTRIES ==> Named(vol.dir[b], name);
  }

  /** A name with a NUL is looked up whole but stored up to the NUL: on a freshly formatted device, creating "a" and
      then "a\0" leaves two entries that both show "a". */
  method TwoOfOneName(totalSectors: nat, bytes: array<byte>) returns (fs: FileSystem)
    requires DATA_START_LBA <= totalSectors < 0x1_0000_0000 && bytes.Length == totalSectors * SECTOR
    modifies bytes
    ensures fresh(fs) && fs.Valid() && !UniqueNames(fs.Contents())
  {
    hide Represents, Layout, NoLeak;
    var disk := new Disk(totalSectors, bytes);
    fs := new FileSystem(disk);
    fs.Format();
    NobodyThere(disk.vol.dir, [97]);
    var one := fs.Create([97], []);
    var name: seq<byte> := [97, 0];
    assert NulPrefix(name[1..]) == [] && NulPrefix([97]) == [97] by {
      assert [97][1..] == [];
    }
    SecondSlot(disk.vol, disk.Max(), fs.shape, name);
    ghost var files := fs.Contents();
    var two := fs.Create(name, []);
    assert fs.Contents()[0] == files[0] && fs.Contents()[1].name == [97];
  }

  lemma SecondSlot(vol: Volume, max: nat, sh: Shape, name: seq<byte>)
    requires Wf(vol, max, sh) && name == [97, 0] && Files(vol, max, sh)[0] == Used([97], [])
    requires forall i :: 1 <= i < DIR_ENTRIES ==> Files(vol, max, sh)[i] == Unused
    ensures |vol.dir| == DIR_ENTRIES && FirstNamed(vol.dir, name) == DIR_ENTRIES && FirstFree(vol.dir) == 1
  {
    forall i | 0 <= i < DIR_ENTRIES
      ensures !Named(vol.dir[i], name) && (vol.dir[i].inUse == 0 <==> i > 0)
    {
      ShownNames(vol, max, sh, i);
      assert EntryOk(vol.dir[i], sh.chains[i]);
    }
  }

  /** Clusters do get stranded: on a freshly formatted device, a file one byte larger than all its clusters. */
  method StrandAll(totalSectors: nat, bytes: array<byte>) returns (fs: FileSystem)
    requires DATA_START_LBA + SECTORS_PER_CLUSTER <= totalSectors < 0x1_0000_0000
    requires bytes.Length == totalSectors * SECTOR
    modifies bytes
    ensures fresh(fs) && fs.Valid() && !fs.Conserved()
    ensures forall i :: 0 <= i < DIR_ENTRIES ==> fs.Contents()[i] == Unused
  {
    hide Represents, Files, Layout, NoLeak;
    var disk := new Disk(totalSectors, bytes);
    fs := new FileSystem(disk);
    fs.Format();
    var max := disk.Max();
    var name: seq<byte> := [97];
    NobodyThere(disk.vol.dir, name);
    AllFree(disk.vol.fat, max);
    var r := fs.Create(name, Zeros(CLUSTER * (max - 1) + 1));
  }

  lemma NobodyThere(dir: seq<DirEntry>, name: seq<byte>)
    requires dir == seq(DIR_ENTRIES, _ => EmptyEntry())
    ensures FirstNamed(dir, name) == DIR_ENTRIES && FirstFree(dir) == 0
  {
    assert forall i :: 0 <= i < DIR_ENTRIES ==> dir[i] == EmptyEntry();
  }

  lemma AllFree(fat: seq<nat>, max: nat)
    requires 1 <= max < |fat| && forall c :: 2 <= c <= max ==> fat[c] == FAT_FREE
    ensures |FreeClusters(fat, max)| == max - 1
    decreases max
  {
    if max == 1 {
      assert FreeClusters(fat, max) == {};
    } else {
      AllFree(fat, max - 1);
      assert FreeClusters(fat, max) == FreeClusters(fat, max - 1) + {max};
    }
  }
}
