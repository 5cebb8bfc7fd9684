/** File contents: the bytes a chain of clusters holds, and the byte-string
    operations that reading and writing must implement.
  */
module FatContent {
  import opened Basics
  import opened FatLayout
  import opened FatChain
  import opened FatDisk

  /** `ch` has room for `size` bytes. */
  ghost predicate Covers(data: seq<seq<byte>>, ch: seq<nat>, size: nat) {
    && size <= CLUSTER * |ch|
    && (forall k :: 0 <= k < |ch| ==> ch[k] < |data| && |data[ch[k]]| == CLUSTER)
  }

  /** The first `size` bytes stored along the chain. */
  ghost function Content(data: seq<seq<byte>>, ch: seq<nat>, size: nat): (r: seq<byte>)
    requires Covers(data, ch, size)
    ensures |r| == size
  {
    seq(size, p requires 0 <= p < size => data[ch[p / CLUSTER]][p % CLUSTER])
  }

  /** Cluster `k` of the chain agrees with the byte string `s` wherever `s` reaches. */
  ghost predicate Agrees(cluster: seq<byte>, s: seq<byte>, k: nat) {
    |cluster| == CLUSTER && forall j :: 0 <= j < CLUSTER && CLUSTER * k + j < |s| ==> cluster[j] == s[CLUSTER * k + j]
  }

  lemma ContentAgrees(data: seq<seq<byte>>, ch: seq<nat>, size: nat, k: nat)
    requires Covers(data, ch, size) && k < |ch|
    ensures Agrees(data[ch[k]], Content(data, ch, size), k)
  {
    forall j | 0 <= j < CLUSTER && CLUSTER * k + j < size
      ensures data[ch[k]][j] == Content(data, ch, size)[CLUSTER * k + j]
    {
      assert (CLUSTER * k + j) / CLUSTER == k && (CLUSTER * k + j) % CLUSTER == j;
    }
  }

  /** A piece of a cluster is a piece of the file. */
  lemma SliceAgrees(cluster: seq<byte>, s: seq<byte>, k: nat, within: nat, n: nat)
    requires Agrees(cluster, s, k) && within + n <= CLUSTER && CLUSTER * k + within + n <= |s|
    ensures cluster[within..within + n] == s[CLUSTER * k + within..CLUSTER * k + within + n]
  {
  }

  lemma SliceAppend(s: seq<byte>, from: nat, m: nat, n: nat)
    requires from + m + n <= |s|
    ensures s[from..from + m] + s[from + m..from + m + n] == s[from..from + m + n]
  {
  }

  lemma AgreesContent(data: seq<seq<byte>>, ch: seq<nat>, size: nat, s: seq<byte>)
    requires Covers(data, ch, size) && size <= |s|
    requires forall k :: 0 <= k < |ch| ==> Agrees(data[ch[k]], s, k)
    ensures Content(data, ch, size) == s[..size]
  {
    forall p | 0 <= p < size
      ensures Content(data, ch, size)[p] == s[p]
    {
      var k, j := p / CLUSTER, p % CLUSTER;
      assert Agrees(data[ch[k]], s, k);
      assert p == CLUSTER * k + j;
    }
  }

  /** The same clusters with the same bytes hold the same content. */
  lemma ContentFrame(data: seq<seq<byte>>, data': seq<seq<byte>>, ch: seq<nat>, size: nat)
    requires Covers(data, ch, size) && |data| == |data'|
    requires forall k :: 0 <= k < |ch| ==> data'[ch[k]] == data[ch[k]]
    ensures Covers(data', ch, size) && Content(data', ch, size) == Content(data, ch, size)
  {
  }

  // ---- What write_at does to a byte string ----------------------------------------

  /** `s`, zero-extended to `offset` if it is shorter, then overwritten with `d` from `offset`. */
  function Splice(s: seq<byte>, offset: nat, d: seq<byte>): (r: seq<byte>)
    ensures d != [] ==> |r| == if |s| > offset + |d| then |s| else offset + |d|
  {
    if d == [] then s
    else
      (if |s| < offset then s + Zeros(offset - |s|) else s[..offset])
      + d
      + (if offset + |d| < |s| then s[offset + |d|..] else [])
  }

  lemma SpliceNothing(s: seq<byte>, offset: nat)
    ensures Splice(s, offset, []) == s
  {
  }

  /** Byte by byte: new data, then old bytes, then zeros in the gap. */
  lemma SpliceAt(s: seq<byte>, offset: nat, d: seq<byte>, p: nat)
    requires d != [] && p < |Splice(s, offset, d)|
    ensures Splice(s, offset, d)[p] ==
            if offset <= p < offset + |d| then d[p - offset] else if p < |s| then s[p] else 0
  {
  }

  /** Cutting a splice short is splicing less. */
  lemma SpliceCut(s: seq<byte>, offset: nat, d: seq<byte>, cut: nat)
    requires |s| <= cut && offset < cut <= offset + |d|
    ensures Splice(s, offset, d)[..cut] == Splice(s, offset, d[..cut - offset])
  {
    forall p | 0 <= p < cut
      ensures Splice(s, offset, d)[p] == Splice(s, offset, d[..cut - offset])[p]
    {
      SpliceAt(s, offset, d, p);
      SpliceAt(s, offset, d[..cut - offset], p);
    }
  }

  /** A write that starts at or after the end leaves the old bytes alone. */
  lemma SplicePrefix(s: seq<byte>, offset: nat, d: seq<byte>)
    requires |s| <= offset
    ensures Splice(s, offset, d)[..|s|] == s
  {
  }

  /** Reading the spliced range back gives the data. */
  lemma SpliceRead(s: seq<byte>, offset: nat, d: seq<byte>)
    requires d != []
    ensures Splice(s, offset, d)[offset..offset + |d|] == d
  {
  }

  function Max(a: nat, b: nat): nat { if a > b then a else b }

  /** The cluster a position falls in. */
  lemma ClusterOf(p: nat)
    ensures p - p % CLUSTER == CLUSTER * (p / CLUSTER) <= p
    ensures (p - p % CLUSTER) / CLUSTER == p / CLUSTER
  {
  }

  /** Zero the part of a cluster buffer that lies between the old end of file and `offset`. */
  function ZeroGap(buf: seq<byte>, clusterStart: nat, size: nat, offset: nat): (r: seq<byte>)
    requires |buf| == CLUSTER
    ensures |r| == CLUSTER
    ensures forall j :: 0 <= j < CLUSTER ==> r[j] == if size <= clusterStart + j < offset then 0 else buf[j]
  {
    var gapLo, gapHi := Max(size, clusterStart), Min(offset, clusterStart + CLUSTER);
    if gapLo < gapHi then Stored(buf, gapLo - clusterStart, Zeros(gapHi - gapLo)) else buf
  }

  /** Copy the part of `d` that falls into a cluster buffer. */
  function CopyIn(buf: seq<byte>, clusterStart: nat, offset: nat, d: seq<byte>): (r: seq<byte>)
    requires |buf| == CLUSTER
    ensures |r| == CLUSTER
    ensures forall j :: 0 <= j < CLUSTER ==>
              r[j] == if offset <= clusterStart + j < offset + |d| then d[clusterStart + j - offset] else buf[j]
  {
    var lo, hi := Max(offset, clusterStart), Min(offset + |d|, clusterStart + CLUSTER);
    if lo < hi then Stored(buf, lo - clusterStart, d[lo - offset..hi - offset]) else buf
  }

  /** If the buffer held the old bytes of cluster `k` (or every byte of it is about to be overwritten),
      the edited buffer holds the bytes of the spliced file. */
  lemma PatchedAgrees(buf: seq<byte>, s: seq<byte>, offset: nat, d: seq<byte>, k: nat)
    requires |buf| == CLUSTER && d != []
    requires (offset <= CLUSTER * k && CLUSTER * (k + 1) <= offset + |d|) || Agrees(buf, s, k)
    ensures Agrees(CopyIn(ZeroGap(buf, CLUSTER * k, |s|, offset), CLUSTER * k, offset, d), Splice(s, offset, d), k)
  {
    var r := CopyIn(ZeroGap(buf, CLUSTER * k, |s|, offset), CLUSTER * k, offset, d);
    forall j | 0 <= j < CLUSTER && CLUSTER * k + j < |Splice(s, offset, d)|
      ensures r[j] == Splice(s, offset, d)[CLUSTER * k + j]
    {
      SpliceAt(s, offset, d, CLUSTER * k + j);
    }
  }

  /** Clusters wholly before the write, or wholly after it, need no edit. */
  lemma UntouchedAgrees(cluster: seq<byte>, s: seq<byte>, offset: nat, d: seq<byte>, k: nat)
    requires d != [] && Agrees(cluster, s, k)
    requires CLUSTER * (k + 1) <= Min(offset, |s|) || offset + |d| <= CLUSTER * k
    ensures Agrees(cluster, Splice(s, offset, d), k)
  {
    forall j | 0 <= j < CLUSTER && CLUSTER * k + j < |Splice(s, offset, d)|
      ensures cluster[j] == Splice(s, offset, d)[CLUSTER * k + j]
    {
      SpliceAt(s, offset, d, CLUSTER * k + j);
    }
  }

  // ---- Names -------------------------------------------------------------------------

  /** A stored name ends at its first NUL. */
  function NulPrefix(s: seq<byte>): seq<byte> {
    if s == [] || s[0] == 0 then [] else [s[0]] + NulPrefix(s[1..])
  }

  function PaddedName(name: seq<byte>): (r: seq<byte>)
    requires |name| <= 22
    ensures |r| == 22
  {
    name + Zeros(22 - |name|)
  }

  lemma {:induction false} NulPrefixSplit(s: seq<byte>, len: nat)
    requires len <= |s| && forall k :: 0 <= k < len ==> s[k] != 0
    ensures NulPrefix(s) == s[..len] + NulPrefix(s[len..])
    decreases len
  {
    if len == 0 {
      assert s[0..] == s;
    } else {
      NulPrefixSplit(s[1..], len - 1);
      assert s[1..][len - 1..] == s[len..];
      assert [s[0]] + s[1..][..len - 1] == s[..len];
    }
  }

  /** Padding with zeros does not change the name that is read back. */
  lemma {:induction false} NulPrefixPadded(name: seq<byte>, pad: nat)
    ensures NulPrefix(name + Zeros(pad)) == NulPrefix(name)
    decreases |name|
  {
    var s := name + Zeros(pad);
    if name != [] && name[0] != 0 {
      NulPrefixPadded(name[1..], pad);
      assert s[1..] == name[1..] + Zeros(pad);
    }
  }

  lemma {:induction false} NulPrefixIdempotent(s: seq<byte>)
    ensures NulPrefix(NulPrefix(s)) == NulPrefix(s)
    decreases |s|
  {
    if s != [] && s[0] != 0 {
      NulPrefixIdempotent(s[1..]);
      assert NulPrefix(s)[1..] == NulPrefix(s[1..]);
    }
  }

  /** A NUL-free name is read back unchanged; any other loses its tail. */
  lemma {:induction false} NulPrefixSame(name: seq<byte>)
    ensures NulPrefix(name) == name <==> 0 !in name
    decreases |name|
  {
    if name != [] && name[0] != 0 {
      NulPrefixSame(name[1..]);
      assert name == [name[0]] + name[1..];
    }
  }
}
