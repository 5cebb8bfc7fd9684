/** The block device and the FAT, directory and cluster accessors built on it.

    The device is a byte array, as on the RAM disk. Every accessor reads whole
    sectors, edits a copy and writes it back; the ghost field `vol` records
    what the image means, and each accessor is proved to change exactly one
    component of it.
  */
module FatDisk {
  import opened Basics
  import opened FatLayout

  /** Field widths that hold of every volume read from an image. */
  ghost predicate Widths(vol: Volume, maxCluster: nat) {
    && |vol.fat| == FAT_ENTRIES
    && |vol.dir| == DIR_ENTRIES
    && |vol.data| == maxCluster + 1
    && |vol.boot| == SECTOR
    && (forall c :: 0 <= c < FAT_ENTRIES ==> vol.fat[c] < 0x1_0000)
    && (forall i :: 0 <= i < DIR_ENTRIES ==> ValidEntry(vol.dir[i]))
    && (forall c :: 2 <= c <= maxCluster ==> |vol.data[c]| == CLUSTER)
  }

  /** `vol` is the meaning of the image `img`. */
  ghost predicate Represents(img: seq<byte>, vol: Volume, maxCluster: nat)
    requires Widths(vol, maxCluster)
    requires |img| >= DATA_START_LBA * SECTOR
    requires forall c :: 2 <= c <= maxCluster ==> ClusterPos(c) + CLUSTER <= |img|
  {
    && vol.boot == img[..SECTOR]
    && (forall c: nat {:trigger FatWord(img, c)} :: c < FAT_ENTRIES ==> vol.fat[c] == FatWord(img, c))
    && (forall i: nat {:trigger EntryAt(img, i)} :: i < DIR_ENTRIES ==> vol.dir[i] == EntryAt(img, i))
    && (forall c: nat {:trigger ClusterAt(img, c)} :: 2 <= c <= maxCluster ==> vol.data[c] == ClusterAt(img, c))
  }

  /** `img` with `buf` stored at byte position `pos`. */
  function Stored(img: seq<byte>, pos: nat, buf: seq<byte>): (r: seq<byte>)
    requires pos + |buf| <= |img|
    ensures |r| == |img|
    ensures forall k :: 0 <= k < |img| ==> r[k] == if pos <= k < pos + |buf| then buf[k - pos] else img[k]
  {
    img[..pos] + buf + img[pos + |buf|..]
  }

  /** Patching a copied sector and writing it back patches the image. */
  lemma PatchedSector(img: seq<byte>, at: nat, offset: nat, buf: seq<byte>)
    requires at + SECTOR <= |img| && offset + |buf| <= SECTOR
    ensures Stored(img, at, Stored(img[at..at + SECTOR], offset, buf)) == Stored(img, at + offset, buf)
  {
  }

  lemma StoredAppend(img: seq<byte>, pos: nat, m: nat, n: nat)
    requires pos + m + n <= |img|
    ensures Stored(Stored(img, pos, Zeros(m)), pos + m, Zeros(n)) == Stored(img, pos, Zeros(m + n))
  {
  }

  lemma NestedSlice(img: seq<byte>, at: nat, offset: nat, n: nat)
    requires at + SECTOR <= |img| && offset + n <= SECTOR
    ensures img[at..at + SECTOR][offset..offset + n] == img[at + offset..at + offset + n]
  {
    var left, right := img[at..at + SECTOR][offset..offset + n], img[at + offset..at + offset + n];
    assert |left| == |right| && forall k :: 0 <= k < n ==> left[k] == right[k];
  }

  // Three ways an image may change and still represent a volume: a write that
  // stays in the FAT, in the directory, or in one data cluster.

  lemma OutsideDataKept(img: seq<byte>, img': seq<byte>, vol: Volume, maxCluster: nat)
    requires |img| == |img'| >= DATA_START_LBA * SECTOR
    requires Widths(vol, maxCluster)
    requires forall c :: 2 <= c <= maxCluster ==> ClusterPos(c) + CLUSTER <= |img|
    requires Represents(img, vol, maxCluster)
    requires forall k :: DATA_START_LBA * SECTOR <= k < |img| ==> img'[k] == img[k]
    ensures forall c: nat {:trigger ClusterAt(img', c)} :: 2 <= c <= maxCluster ==> vol.data[c] == ClusterAt(img', c)
  {
    forall c: nat | 2 <= c <= maxCluster
      ensures vol.data[c] == ClusterAt(img', c)
    {
      assert vol.data[c] == ClusterAt(img, c);
      SliceUnchanged(img, img', ClusterPos(c), ClusterPos(c) + CLUSTER);
    }
  }

  lemma FatStoreRepresents(img: seq<byte>, img': seq<byte>, vol: Volume, maxCluster: nat, c: nat, v: nat)
    requires |img| == |img'| >= DATA_START_LBA * SECTOR
    requires Widths(vol, maxCluster)
    requires forall d :: 2 <= d <= maxCluster ==> ClusterPos(d) + CLUSTER <= |img|
    requires Represents(img, vol, maxCluster)
    requires c < FAT_ENTRIES && v < 0x1_0000
    requires forall k :: 0 <= k < |img| && k != FatPos(c) && k != FatPos(c) + 1 ==> img'[k] == img[k]
    requires img'[FatPos(c)] == v % 256 && img'[FatPos(c) + 1] == v / 256
    ensures Widths(vol.(fat := vol.fat[c := v]), maxCluster)
    ensures Represents(img', vol.(fat := vol.fat[c := v]), maxCluster)
  {
    var vol' := vol.(fat := vol.fat[c := v]);
    OutsideDataKept(img, img', vol, maxCluster);
    forall d: nat | d < FAT_ENTRIES
      ensures vol'.fat[d] == FatWord(img', d)
    {
      assert vol.fat[d] == FatWord(img, d);
    }
    forall i: nat | i < DIR_ENTRIES
      ensures vol'.dir[i] == EntryAt(img', i)
    {
      assert vol.dir[i] == EntryAt(img, i);
      SliceUnchanged(img, img', DirPos(i), DirPos(i) + DIR_ENTRY_BYTES);
    }
    SliceUnchanged(img, img', 0, SECTOR);
  }

  lemma DirStoreRepresents(img: seq<byte>, img': seq<byte>, vol: Volume, maxCluster: nat, i: nat, e: DirEntry)
    requires |img| == |img'| >= DATA_START_LBA * SECTOR
    requires Widths(vol, maxCluster)
    requires forall d :: 2 <= d <= maxCluster ==> ClusterPos(d) + CLUSTER <= |img|
    requires Represents(img, vol, maxCluster)
    requires i < DIR_ENTRIES && ValidEntry(e)
    requires img' == Stored(img, DirPos(i), EncodeEntry(e))
    ensures Widths(vol.(dir := vol.dir[i := e]), maxCluster)
    ensures Represents(img', vol.(dir := vol.dir[i := e]), maxCluster)
  {
    var vol' := vol.(dir := vol.dir[i := e]);
    OutsideDataKept(img, img', vol, maxCluster);
    forall d: nat | d < FAT_ENTRIES
      ensures vol'.fat[d] == FatWord(img', d)
    {
      assert vol.fat[d] == FatWord(img, d);
    }
    forall j: nat | j < DIR_ENTRIES
      ensures vol'.dir[j] == EntryAt(img', j)
    {
      assert vol.dir[j] == EntryAt(img, j);
      if j == i {
        assert img'[DirPos(i)..DirPos(i) + DIR_ENTRY_BYTES] == EncodeEntry(e);
        EntryRoundTrip(e);
      } else {
        SliceUnchanged(img, img', DirPos(j), DirPos(j) + DIR_ENTRY_BYTES);
      }
    }
    SliceUnchanged(img, img', 0, SECTOR);
  }

  lemma ClusterStoreRepresents(img: seq<byte>, img': seq<byte>, vol: Volume, maxCluster: nat, c: nat, buf: seq<byte>)
    requires |img| == |img'| >= DATA_START_LBA * SECTOR
    requires Widths(vol, maxCluster)
    requires forall d :: 2 <= d <= maxCluster ==> ClusterPos(d) + CLUSTER <= |img|
    requires Represents(img, vol, maxCluster)
    requires 2 <= c <= maxCluster && |buf| == CLUSTER
    requires img' == Stored(img, ClusterPos(c), buf)
    ensures Widths(vol.(data := vol.data[c := buf]), maxCluster)
    ensures Represents(img', vol.(data := vol.data[c := buf]), maxCluster)
  {
    var vol' := vol.(data := vol.data[c := buf]);
    forall d: nat | d < FAT_ENTRIES
      ensures vol'.fat[d] == FatWord(img', d)
    {
      assert vol.fat[d] == FatWord(img, d);
    }
    forall j: nat | j < DIR_ENTRIES
      ensures vol'.dir[j] == EntryAt(img', j)
    {
      assert vol.dir[j] == EntryAt(img, j);
      SliceUnchanged(img, img', DirPos(j), DirPos(j) + DIR_ENTRY_BYTES);
    }
    forall d: nat | 2 <= d <= maxCluster
      ensures vol'.data[d] == ClusterAt(img', d)
    {
      assert vol.data[d] == ClusterAt(img, d);
      if d == c {
        assert ClusterAt(img', c) == buf;
      } else {
        ClustersDisjoint(c, d);
        SliceUnchanged(img, img', ClusterPos(d), ClusterPos(d) + CLUSTER);
      }
    }
    SliceUnchanged(img, img', 0, SECTOR);
  }

  /** Overwriting the whole FAT region with zeros marks every cluster free. */
  lemma ZeroFatRepresents(img: seq<byte>, img': seq<byte>, vol: Volume, maxCluster: nat)
    requires |img| == |img'| >= DATA_START_LBA * SECTOR
    requires Widths(vol, maxCluster)
    requires forall d :: 2 <= d <= maxCluster ==> ClusterPos(d) + CLUSTER <= |img|
    requires Represents(img, vol, maxCluster)
    requires img' == Stored(img, FAT_START_LBA * SECTOR, Zeros(FAT_SECTORS * SECTOR))
    ensures Widths(vol.(fat := seq(FAT_ENTRIES, _ => FAT_FREE)), maxCluster)
    ensures Represents(img', vol.(fat := seq(FAT_ENTRIES, _ => FAT_FREE)), maxCluster)
  {
    var vol' := vol.(fat := seq(FAT_ENTRIES, _ => FAT_FREE));
    OutsideDataKept(img, img', vol, maxCluster);
    forall i: nat | i < DIR_ENTRIES
      ensures vol'.dir[i] == EntryAt(img', i)
    {
      assert vol.dir[i] == EntryAt(img, i);
      SliceUnchanged(img, img', DirPos(i), DirPos(i) + DIR_ENTRY_BYTES);
    }
    SliceUnchanged(img, img', 0, SECTOR);
  }

  lemma ZeroSlice(img: seq<byte>, pos: nat, len: nat, at: nat, n: nat)
    requires pos <= at && at + n <= pos + len <= |img|
    ensures Stored(img, pos, Zeros(len))[at..at + n] == Zeros(n)
  {
  }

  lemma EmptyEntryDecodes()
    ensures DecodeEntry(Zeros(DIR_ENTRY_BYTES)) == EmptyEntry()
  {
    var raw := Zeros(DIR_ENTRY_BYTES);
    assert raw[..22] == Zeros(22);
    assert raw[29..32] == Zeros(3);
  }

  /** Overwriting the whole directory region with zeros empties every slot. */
  lemma ZeroDirRepresents(img: seq<byte>, img': seq<byte>, vol: Volume, maxCluster: nat)
    requires |img| == |img'| >= DATA_START_LBA * SECTOR
    requires Widths(vol, maxCluster)
    requires forall d :: 2 <= d <= maxCluster ==> ClusterPos(d) + CLUSTER <= |img|
    requires Represents(img, vol, maxCluster)
    requires img' == Stored(img, ROOT_DIR_START_LBA * SECTOR, Zeros(ROOT_DIR_SECTORS * SECTOR))
    ensures Widths(vol.(dir := seq(DIR_ENTRIES, _ => EmptyEntry())), maxCluster)
    ensures Represents(img', vol.(dir := seq(DIR_ENTRIES, _ => EmptyEntry())), maxCluster)
  {
    hide EmptyEntry, DecodeEntry, Zeros, Stored;
    var vol' := vol.(dir := seq(DIR_ENTRIES, _ => EmptyEntry()));
    OutsideDataKept(img, img', vol, maxCluster);
    forall d: nat | d < FAT_ENTRIES
      ensures vol'.fat[d] == FatWord(img', d)
    {
      assert vol.fat[d] == FatWord(img, d);
    }
    forall i: nat | i < DIR_ENTRIES
      ensures vol'.dir[i] == EntryAt(img', i)
    {
      ZeroSlice(img, ROOT_DIR_START_LBA * SECTOR, ROOT_DIR_SECTORS * SECTOR, DirPos(i), DIR_ENTRY_BYTES);
      EmptyEntryDecodes();
    }
    SliceUnchanged(img, img', 0, SECTOR);
  }

  lemma BootStoreRepresents(img: seq<byte>, img': seq<byte>, vol: Volume, maxCluster: nat, boot: seq<byte>)
    requires |img| == |img'| >= DATA_START_LBA * SECTOR && |boot| == SECTOR
    requires Widths(vol, maxCluster)
    requires forall d :: 2 <= d <= maxCluster ==> ClusterPos(d) + CLUSTER <= |img|
    requires Represents(img, vol, maxCluster)
    requires img' == Stored(img, 0, boot)
    ensures Widths(vol.(boot := boot), maxCluster)
    ensures Represents(img', vol.(boot := boot), maxCluster)
  {
    OutsideDataKept(img, img', vol, maxCluster);
    forall d: nat | d < FAT_ENTRIES
      ensures vol.fat[d] == FatWord(img', d)
    {
      assert vol.fat[d] == FatWord(img, d);
    }
    forall i: nat | i < DIR_ENTRIES
      ensures vol.dir[i] == EntryAt(img', i)
    {
      assert vol.dir[i] == EntryAt(img, i);
      SliceUnchanged(img, img', DirPos(i), DirPos(i) + DIR_ENTRY_BYTES);
    }
    assert img'[..SECTOR] == boot;
  }

  /** The directory with every byte zeroed: 256 unused slots. */
  function EmptyEntry(): (e: DirEntry)
    ensures ValidEntry(e)
  {
    DirEntry(Zeros(22), 0, 0, 0, Zeros(3))
  }

  class Disk {
    const totalSectors: nat
    const bytes: array<byte>
    ghost var vol: Volume

    ghost predicate Sized()
      reads this
    {
      DATA_START_LBA <= totalSectors < 0x1_0000_0000 && bytes.Length == totalSectors * SECTOR
    }

    function Max(): nat
      requires totalSectors >= DATA_START_LBA
    {
      MaxCluster(totalSectors)
    }

    ghost predicate Valid()
      reads this, bytes
    {
      && Sized()
      && Widths(vol, Max())
      && Represents(bytes[..], vol, Max())
    }

    /** Attach a device of `totalSectors` sectors with arbitrary contents. */
    constructor (totalSectors: nat, bytes: array<byte>)
      requires DATA_START_LBA <= totalSectors < 0x1_0000_0000
      requires bytes.Length == totalSectors * SECTOR
      ensures this.totalSectors == totalSectors && this.bytes == bytes
      ensures Valid()
    {
      this.totalSectors := totalSectors;
      this.bytes := bytes;
      var img := bytes[..];
      var max := MaxCluster(totalSectors);
      this.vol := Volume(img[..SECTOR],
        seq(FAT_ENTRIES, c requires 0 <= c < FAT_ENTRIES => FatWord(img, c)),
        seq(DIR_ENTRIES, i requires 0 <= i < DIR_ENTRIES => EntryAt(img, i)),
        seq(max + 1, c requires 0 <= c <= max => if c < 2 then [] else ClusterAt(img, c)));
    }

    /** ram_transfer in the read direction. */
    method ReadBlocks(lba: nat, count: nat) returns (r: Result<seq<byte>>)
      requires Sized()
      ensures r.Ok? <==> count > 0 && lba + count <= totalSectors
      ensures r.Ok? ==> |r.value| == count * SECTOR && r.value == bytes[..][lba * SECTOR..(lba + count) * SECTOR]
      ensures r.Err? ==> r.error == InvalidArgument
    {
      if count == 0 || lba + count > totalSectors {
        return Err(InvalidArgument);
      }
      return Ok(bytes[lba * SECTOR..(lba + count) * SECTOR]);
    }

    /** ram_transfer in the write direction. */
    method WriteBlocks(lba: nat, count: nat, buf: seq<byte>) returns (r: Result<()>)
      requires Sized()
      requires |buf| == count * SECTOR
      modifies bytes
      ensures r.Ok? <==> count > 0 && lba + count <= totalSectors
      ensures r.Ok? ==> bytes[..] == Stored(old(bytes[..]), lba * SECTOR, buf)
      ensures r.Err? ==> bytes[..] == old(bytes[..]) && r.error == InvalidArgument
    {
      if count == 0 || lba + count > totalSectors {
        return Err(InvalidArgument);
      }
      var at := lba * SECTOR;
      forall k | 0 <= k < |buf| {
        bytes[at + k] := buf[k];
      }
      assert bytes[..] == Stored(old(bytes[..]), at, buf);
      return Ok(());
    }

    /** Read a sector, overwrite part of the copy, write it back. */
    method PatchSector(lba: nat, offset: nat, buf: seq<byte>)
      requires Sized()
      requires lba < totalSectors && offset + |buf| <= SECTOR
      modifies bytes
      ensures bytes[..] == Stored(old(bytes[..]), lba * SECTOR + offset, buf)
    {
      hide Stored;
      ghost var img := bytes[..];
      var block := ReadBlocks(lba, 1);
      var r := WriteBlocks(lba, 1, Stored(block.value, offset, buf));
      PatchedSector(img, lba * SECTOR, offset, buf);
    }

    /** read_fat_entry_unlocked */
    method ReadFatEntry(c: nat) returns (r: Result<nat>)
      requires Valid()
      requires c < 0x1_0000
      ensures r == if c < FAT_ENTRIES then Ok(vol.fat[c]) else Err(InvalidArgument)
    {
      var sector := c / 256;
      if sector >= FAT_SECTORS {
        return Err(InvalidArgument);
      }
      var block := ReadBlocks(FAT_START_LBA + sector, 1);
      var buf, offset := block.value, (c % 256) * 2;
      assert vol.fat[c] == FatWord(bytes[..], c);
      return Ok(FromLe16(buf[offset], buf[offset + 1]));
    }

    /** write_fat_entry_unlocked: read the sector, patch two bytes, write it back. */
    method WriteFatEntry(c: nat, v: nat) returns (r: Result<()>)
      requires Valid()
      requires c < 0x1_0000 && v < 0x1_0000
      modifies this`vol, bytes
      ensures Valid()
      ensures c < FAT_ENTRIES ==> r.Ok? && vol == old(vol).(fat := old(vol).fat[c := v])
      ensures c >= FAT_ENTRIES ==> r == Err(InvalidArgument) && vol == old(vol)
    {
      var sector := c / 256;
      if sector >= FAT_SECTORS {
        return Err(InvalidArgument);
      }
      ghost var img := bytes[..];
      PatchSector(FAT_START_LBA + sector, (c % 256) * 2, Le16(v));
      r := Ok(());
      assert FatPos(c) == (FAT_START_LBA + sector) * SECTOR + (c % 256) * 2;
      FatStoreRepresents(img, bytes[..], vol, Max(), c, v);
      vol := vol.(fat := vol.fat[c := v]);
    }

    /** read_dir_entry_unlocked */
    method ReadDirEntry(i: nat) returns (r: Result<DirEntry>)
      requires Valid()
      ensures r == if i < DIR_ENTRIES then Ok(vol.dir[i]) else Err(InvalidArgument)
    {
      if i >= DIR_ENTRIES {
        return Err(InvalidArgument);
      }
      var sector, slot := i / 16, i % 16;
      var block := ReadBlocks(ROOT_DIR_START_LBA + sector, 1);
      var buf, offset := block.value, slot * DIR_ENTRY_BYTES;
      assert vol.dir[i] == EntryAt(bytes[..], i);
      assert DirPos(i) == (ROOT_DIR_START_LBA + sector) * SECTOR + offset;
      NestedSlice(bytes[..], (ROOT_DIR_START_LBA + sector) * SECTOR, offset, DIR_ENTRY_BYTES);
      return Ok(DecodeEntry(buf[offset..offset + DIR_ENTRY_BYTES]));
    }

    /** The sector update of write_dir_entry_unlocked. */
    method StoreDirEntry(i: nat, e: DirEntry)
      requires Valid()
      requires i < DIR_ENTRIES && ValidEntry(e)
      modifies this`vol, bytes
      ensures Valid()
      ensures vol == old(vol).(dir := old(vol).dir[i := e])
    {
      var sector, slot := i / 16, i % 16;
      ghost var img := bytes[..];
      PatchSector(ROOT_DIR_START_LBA + sector, slot * DIR_ENTRY_BYTES, EncodeEntry(e));
      assert DirPos(i) == (ROOT_DIR_START_LBA + sector) * SECTOR + slot * DIR_ENTRY_BYTES;
      DirStoreRepresents(img, bytes[..], vol, Max(), i, e);
      vol := vol.(dir := vol.dir[i := e]);
    }

    /** read_blocks_unlocked at cluster_to_lba(c). */
    method ReadCluster(c: nat) returns (buf: seq<byte>)
      requires Valid()
      requires 2 <= c <= Max()
      ensures buf == vol.data[c]
    {
      ClusterInBounds(totalSectors, c);
      var r := ReadBlocks(ClusterToLba(c), SECTORS_PER_CLUSTER);
      assert vol.data[c] == ClusterAt(bytes[..], c);
      buf := r.value;
    }

    /** write_blocks_unlocked at cluster_to_lba(c). */
    method WriteCluster(c: nat, buf: seq<byte>)
      requires Valid()
      requires 2 <= c <= Max() && |buf| == CLUSTER
      modifies this`vol, bytes
      ensures Valid()
      ensures vol == old(vol).(data := old(vol).data[c := buf])
    {
      ghost var img := bytes[..];
      ClusterInBounds(totalSectors, c);
      var r := WriteBlocks(ClusterToLba(c), SECTORS_PER_CLUSTER, buf);
      ClusterStoreRepresents(img, bytes[..], vol, Max(), c, buf);
      vol := vol.(data := vol.data[c := buf]);
    }

    /** Zero `count` sectors one block at a time, as format does. */
    method ZeroSectors(lba: nat, count: nat)
      requires Sized() && lba + count <= totalSectors
      modifies bytes
      ensures bytes[..] == Stored(old(bytes[..]), lba * SECTOR, Zeros(count * SECTOR))
    {
      var i := 0;
      while i < count
        invariant i <= count
        invariant bytes[..] == Stored(old(bytes[..]), lba * SECTOR, Zeros(i * SECTOR))
      {
        ghost var img := bytes[..];
        var r := WriteBlocks(lba + i, 1, Zeros(SECTOR));
        StoredAppend(old(bytes[..]), lba * SECTOR, i * SECTOR, SECTOR);
        i := i + 1;
      }
    }

    /** The three regions format writes: boot sector, FAT, directory. */
    method FormatRegions()
      requires Valid()
      modifies this`vol, bytes
      ensures Valid() && vol.boot[..8] == Magic()
      ensures vol.fat == seq(FAT_ENTRIES, _ => FAT_FREE)[0 := 0xFFF8][1 := FAT_EOC]
      ensures vol.dir == seq(DIR_ENTRIES, _ => EmptyEntry())
    {
      hide Represents, Stored, BootSector;
      ghost var img := bytes[..];
      var b := WriteBlocks(0, 1, BootSector(totalSectors));
      BootStoreRepresents(img, bytes[..], vol, Max(), BootSector(totalSectors));
      vol := vol.(boot := BootSector(totalSectors));
      img := bytes[..];
      ZeroSectors(FAT_START_LBA, FAT_SECTORS);
      ZeroFatRepresents(img, bytes[..], vol, Max());
      vol := vol.(fat := seq(FAT_ENTRIES, _ => FAT_FREE));
      var w := WriteFatEntry(0, 0xFFF8);
      w := WriteFatEntry(1, FAT_EOC);
      img := bytes[..];
      ZeroSectors(ROOT_DIR_START_LBA, ROOT_DIR_SECTORS);
      ZeroDirRepresents(img, bytes[..], vol, Max());
      vol := vol.(dir := seq(DIR_ENTRIES, _ => EmptyEntry()));
    }
  }
}
