/** On-disk layout of a KAGFAT16 volume.

    A volume is a flat image of 512-byte sectors: one boot sector, 64 FAT
    sectors, 16 directory sectors, then the data clusters. This module holds
    the constants, the little-endian codecs and the byte positions of every
    structure, together with the facts that the regions never overlap.
  */
module FatLayout {
  import opened Basics


  const SECTOR: nat := 512
  const CLUSTER: nat := 4096
  const FAT_START_LBA: nat := 1
  const FAT_SECTORS: nat := 64
  const ROOT_DIR_START_LBA: nat := 65
  const ROOT_DIR_SECTORS: nat := 16
  const DATA_START_LBA: nat := 81
  const SECTORS_PER_CLUSTER: nat := 8
  const FAT_ENTRIES: nat := 16384
  const DIR_ENTRIES: nat := 256
  const DIR_ENTRY_BYTES: nat := 32

  const FAT_FREE: nat := 0
  const FAT_EOC: nat := 0xFFFF
  const FAT_RESERVED: nat := 0xFFF0

  datatype FsError = InvalidArgument | DeviceError | NotFormatted | NoSpace | FileNotFound

  datatype Result<+T> = Ok(value: T) | Err(error: FsError) {
    predicate IsFailure() { Err? }
    function PropagateFailure<U>(): Result<U> requires Err? { Err(error) }
    function Extract(): T requires Ok? { value }
  }

  /** A 32-byte directory entry: name[22], first_cluster: u16, size: u32, in_use: u8, reserved[3]. */
  datatype DirEntry = DirEntry(name: seq<byte>, first: nat, size: nat, inUse: byte, reserved: seq<byte>)

  predicate ValidEntry(e: DirEntry) {
    |e.name| == 22 && e.first < 0x1_0000 && e.size < 0x1_0000_0000 && |e.reserved| == 3
  }

  /** What the image means: the boot sector, the FAT links, the directory and the cluster contents. */
  datatype Volume = Volume(boot: seq<byte>, fat: seq<nat>, dir: seq<DirEntry>, data: seq<seq<byte>>)

  /** The highest cluster number alloc_cluster_unlocked may hand out. */
  function MaxCluster(totalSectors: nat): nat
    requires totalSectors >= DATA_START_LBA
  {
    var clusters := (totalSectors - DATA_START_LBA) / SECTORS_PER_CLUSTER;
    if clusters + 1 < FAT_ENTRIES - 1 then clusters + 1 else FAT_ENTRIES - 1
  }

  predicate IsDataCluster(c: nat) { 2 <= c < FAT_RESERVED }

  function ClusterToLba(c: nat): nat
    requires c >= 2
  {
    DATA_START_LBA + (c - 2) * SECTORS_PER_CLUSTER
  }

  // ---- Codecs ---------------------------------------------------------------

  function Le16(v: nat): seq<byte>
    requires v < 0x1_0000
  {
    [v % 256, v / 256]
  }

  function FromLe16(lo: byte, hi: byte): nat { lo + 256 * hi }

  function Le32(v: nat): seq<byte>
    requires v < 0x1_0000_0000
  {
    [v % 256, (v / 256) % 256, (v / 0x1_0000) % 256, v / 0x100_0000]
  }

  function FromLe32(a: byte, b: byte, c: byte, d: byte): nat {
    a + 256 * b + 0x1_0000 * c + 0x100_0000 * d
  }

  function EncodeEntry(e: DirEntry): (s: seq<byte>)
    requires ValidEntry(e)
    ensures |s| == DIR_ENTRY_BYTES
  {
    e.name + Le16(e.first) + Le32(e.size) + [e.inUse] + e.reserved
  }

  function DecodeEntry(s: seq<byte>): (e: DirEntry)
    requires |s| == DIR_ENTRY_BYTES
    ensures ValidEntry(e)
  {
    DirEntry(s[..22], FromLe16(s[22], s[23]), FromLe32(s[24], s[25], s[26], s[27]), s[28], s[29..32])
  }

  lemma Le32RoundTrip(v: nat)
    requires v < 0x1_0000_0000
    ensures FromLe32(v % 256, (v / 256) % 256, (v / 0x1_0000) % 256, v / 0x100_0000) == v
  {
    var w := v / 256;
    assert v / 0x1_0000 == w / 256;
    var u := w / 256;
    assert v / 0x100_0000 == u / 256;
    assert v == v % 256 + 256 * (w % 256 + 256 * (u % 256 + 256 * (u / 256)));
  }

  /** Storing a directory entry and reading it back loses nothing. */
  lemma EntryRoundTrip(e: DirEntry)
    requires ValidEntry(e)
    ensures DecodeEntry(EncodeEntry(e)) == e
  {
    var s := EncodeEntry(e);
    var number := Le32(e.size);
    assert s[..22] == e.name;
    assert s[29..32] == e.reserved;
    assert s[22..24] == Le16(e.first);
    assert s[24..28] == number;
    assert s[24] == number[0] && s[25] == number[1] && s[26] == number[2] && s[27] == number[3];
    Le32RoundTrip(e.size);
  }

  /** The 512 bytes written by format: magic "KAGFAT16" (little-endian u64), geometry, zero padding. */
  function BootSector(totalSectors: nat): (s: seq<byte>)
    requires DATA_START_LBA <= totalSectors < 0x1_0000_0000
    ensures |s| == SECTOR && s[..8] == Magic()
  {
    var head := Magic() + Le16(SECTOR) + Le32(SECTORS_PER_CLUSTER) + Le32(FAT_START_LBA) + Le32(FAT_SECTORS)
      + Le32(ROOT_DIR_START_LBA) + Le32(ROOT_DIR_SECTORS) + Le32(DATA_START_LBA)
      + Le32((totalSectors - DATA_START_LBA) / SECTORS_PER_CLUSTER);
    head + Zeros(474)
  }

  function Magic(): (s: seq<byte>)
    ensures |s| == 8
  {
    [0x36, 0x31, 0x54, 0x41, 0x46, 0x47, 0x41, 0x4B]
  }

  function Zeros(n: nat): (s: seq<byte>)
    ensures |s| == n
    ensures forall i :: 0 <= i < n ==> s[i] == 0
  {
    seq(n, _ => 0)
  }

  // ---- Where things live in the image ---------------------------------------

  function FatPos(c: nat): nat { FAT_START_LBA * SECTOR + 2 * c }
  function DirPos(i: nat): nat { ROOT_DIR_START_LBA * SECTOR + DIR_ENTRY_BYTES * i }
  function ClusterPos(c: nat): nat
    requires c >= 2
  {
    ClusterToLba(c) * SECTOR
  }

  /** The FAT word of cluster `c`. */
  function FatWord(img: seq<byte>, c: nat): nat
    requires c < FAT_ENTRIES && |img| >= DATA_START_LBA * SECTOR
  {
    FromLe16(img[FatPos(c)], img[FatPos(c) + 1])
  }

  function EntryAt(img: seq<byte>, i: nat): DirEntry
    requires i < DIR_ENTRIES && |img| >= DATA_START_LBA * SECTOR
  {
    DecodeEntry(img[DirPos(i)..DirPos(i) + DIR_ENTRY_BYTES])
  }

  function ClusterAt(img: seq<byte>, c: nat): seq<byte>
    requires 2 <= c && ClusterPos(c) + CLUSTER <= |img|
  {
    img[ClusterPos(c)..ClusterPos(c) + CLUSTER]
  }

  /** Every cluster that can be allocated lies in the data region of the device and has a FAT entry. */
  lemma ClusterInBounds(totalSectors: nat, c: nat)
    requires totalSectors >= DATA_START_LBA
    requires 2 <= c <= MaxCluster(totalSectors)
    ensures c < FAT_ENTRIES
    ensures DATA_START_LBA * SECTOR <= ClusterPos(c)
    ensures ClusterPos(c) + CLUSTER <= totalSectors * SECTOR
    ensures FatPos(c) + 2 <= ROOT_DIR_START_LBA * SECTOR
  {
  }

  /** Distinct clusters occupy disjoint byte ranges. */
  lemma ClustersDisjoint(c: nat, d: nat)
    requires 2 <= c && 2 <= d && c != d
    ensures ClusterPos(c) + CLUSTER <= ClusterPos(d) || ClusterPos(d) + CLUSTER <= ClusterPos(c)
  {
  }

  /** A slice depends only on the bytes inside it. */
  lemma SliceUnchanged(a: seq<byte>, b: seq<byte>, lo: nat, hi: nat)
    requires lo <= hi <= |a| == |b|
    requires forall k :: lo <= k < hi ==> a[k] == b[k]
    ensures a[lo..hi] == b[lo..hi]
  {
  }
}
