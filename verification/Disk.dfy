/** The bytes of the swap files by global offset, and a chunk's bytes scattered over its parts. */
module Disk {
  import opened PageChains

  type Bytes = seq<bv8>

  /** data written at offset k. */
  function Patch(disk: Bytes, k: nat, data: Bytes): (r: Bytes)
    requires k + |data| <= |disk|
    ensures |r| == |disk|
  {
    disk[..k] + data + disk[k + |data|..]
  }

  lemma PatchReads(disk: Bytes, k: nat, data: Bytes, from: nat, to: nat)
    requires k + |data| <= |disk| && from <= to <= |disk|
    ensures Patch(disk, k, data)[k..k + |data|] == data
    ensures to <= k || k + |data| <= from ==> Patch(disk, k, data)[from..to] == disk[from..to]
  {
  }

  /** Every part of the chain lies on the disk. */
  ghost predicate Fits(disk: Bytes, u: Parts, ks: seq<nat>) {
    forall k: nat :: k in ks ==> k in u && k + u[k].size <= |disk|
  }

  /** The data area of one part. */
  ghost function PartBytes(disk: Bytes, u: Parts, k: nat): Bytes
    requires k in u && k + u[k].size <= |disk|
  {
    disk[k..k + u[k].size]
  }

  /** What reading all parts of a chain one after the other gives. */
  ghost function OnDisk(disk: Bytes, u: Parts, ks: seq<nat>): Bytes
    requires Fits(disk, u, ks)
  {
    if ks == [] then [] else PartBytes(disk, u, ks[0]) + OnDisk(disk, u, ks[1..])
  }

  /** Where the bytes of part i lie within the chunk. */
  ghost function PartOffset(u: Parts, ks: seq<nat>, i: nat): nat
    requires i <= |ks| && Offsets(ks) <= u.Keys
  {
    if i == 0 then 0 else u[ks[0]].size + PartOffset(u, ks[1..], i - 1)
  }

  lemma {:induction false} PartOffsetBounds(u: Parts, ks: seq<nat>, i: nat)
    requires i < |ks| && Offsets(ks) <= u.Keys
    ensures PartOffset(u, ks, i + 1) == PartOffset(u, ks, i) + u[ks[i]].size
    ensures PartOffset(u, ks, i) + u[ks[i]].size <= ChainSize(u, ks)
  {
    if i > 0 {
      PartOffsetBounds(u, ks[1..], i - 1);
    }
  }

  lemma {:induction false} OnDiskSize(disk: Bytes, u: Parts, ks: seq<nat>)
    requires Fits(disk, u, ks)
    ensures Offsets(ks) <= u.Keys && |OnDisk(disk, u, ks)| == ChainSize(u, ks)
  {
    if ks != [] {
      OnDiskSize(disk, u, ks[1..]);
    }
  }

  /** Part i of the buffer agrees with the disk. */
  ghost predicate PartAgrees(disk: Bytes, u: Parts, ks: seq<nat>, i: nat, buffer: Bytes) {
    && i < |ks| && Fits(disk, u, ks) && Offsets(ks) <= u.Keys
    && var off := PartOffset(u, ks, i);
    && off + u[ks[i]].size <= |buffer|
    && buffer[off..off + u[ks[i]].size] == PartBytes(disk, u, ks[i])
  }

  lemma PartShift(disk: Bytes, u: Parts, ks: seq<nat>, i: nat, buffer: Bytes)
    requires 0 < i < |ks| && Fits(disk, u, ks) && Offsets(ks) <= u.Keys && |buffer| == ChainSize(u, ks)
    ensures PartAgrees(disk, u, ks, i, buffer) <==> PartAgrees(disk, u, ks[1..], i - 1, buffer[u[ks[0]].size..])
  {
    var n, off := u[ks[0]].size, PartOffset(u, ks[1..], i - 1);
    PartOffsetBounds(u, ks, i);
    PartOffsetBounds(u, ks[1..], i - 1);
    assert PartOffset(u, ks, i) == n + off;
    assert buffer[n + off..n + off + u[ks[i]].size] == buffer[n..][off..off + u[ks[i]].size];
  }

  /** A buffer that agrees with the disk part by part holds what reading the chain gives. */
  lemma {:induction false} PartsMakeWhole(disk: Bytes, u: Parts, ks: seq<nat>, buffer: Bytes)
    requires Fits(disk, u, ks) && Offsets(ks) <= u.Keys && |buffer| == ChainSize(u, ks)
    requires forall i: nat :: i < |ks| ==> PartAgrees(disk, u, ks, i, buffer)
    ensures buffer == OnDisk(disk, u, ks)
  {
    if ks != [] {
      var n := u[ks[0]].size;
      forall i: nat | i < |ks[1..]|
        ensures PartAgrees(disk, u, ks[1..], i, buffer[n..])
      {
        PartShift(disk, u, ks, i + 1, buffer);
      }
      PartsMakeWhole(disk, u, ks[1..], buffer[n..]);
      assert PartAgrees(disk, u, ks, 0, buffer);
      assert buffer == buffer[0..n] + buffer[n..];
    }
  }

  /** And conversely. */
  lemma {:induction false} WholeMakesParts(disk: Bytes, u: Parts, ks: seq<nat>, i: nat)
    requires Fits(disk, u, ks) && Offsets(ks) <= u.Keys && i < |ks|
    ensures PartAgrees(disk, u, ks, i, OnDisk(disk, u, ks))
  {
    var buffer, n := OnDisk(disk, u, ks), u[ks[0]].size;
    OnDiskSize(disk, u, ks);
    assert buffer[..n] == PartBytes(disk, u, ks[0]);
    if i > 0 {
      assert buffer[n..] == OnDisk(disk, u, ks[1..]);
      WholeMakesParts(disk, u, ks[1..], i - 1);
      PartShift(disk, u, ks, i, buffer);
    } else {
      assert buffer[0..n] == buffer[..n];
    }
  }

  /** What is read from a chain only depends on its own blocks and their bytes. */
  lemma {:induction false} OnDiskKept(disk: Bytes, disk': Bytes, u: Parts, u': Parts, ks: seq<nat>)
    requires Fits(disk, u, ks) && Fits(disk', u', ks)
    requires forall k: nat :: k in ks ==> u[k] == u'[k] && PartBytes(disk, u, k) == PartBytes(disk', u', k)
    ensures OnDisk(disk, u, ks) == OnDisk(disk', u', ks)
  {
    if ks != [] {
      OnDiskKept(disk, disk', u, u', ks[1..]);
    }
  }

  lemma {:induction false} PartOffsetKept(u: Parts, u': Parts, ks: seq<nat>, i: nat)
    requires i <= |ks| && forall k: nat :: k in ks ==> k in u && k in u' && u[k] == u'[k]
    ensures Offsets(ks) <= u.Keys && Offsets(ks) <= u'.Keys && PartOffset(u, ks, i) == PartOffset(u', ks, i)
  {
    if i > 0 {
      PartOffsetKept(u, u', ks[1..], i - 1);
    }
  }

  /** Earlier parts end before later ones begin. */
  lemma {:induction false} PartsApart(u: Parts, ks: seq<nat>, p: nat, q: nat)
    requires p < q < |ks| && Offsets(ks) <= u.Keys
    ensures PartOffset(u, ks, p) + u[ks[p]].size <= PartOffset(u, ks, q)
  {
    if p > 0 {
      PartsApart(u, ks[1..], p - 1, q - 1);
    } else {
      assert PartOffset(u, ks, 0) == 0;
      assert PartOffset(u, ks, q) == u[ks[0]].size + PartOffset(u, ks[1..], q - 1);
    }
  }
}
