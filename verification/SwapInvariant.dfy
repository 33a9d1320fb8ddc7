/**
 The swap side of the invariant: the page files are tiled and divided among the chunks, every disk
 copy has the size of its chunk, and its bytes are what they should be.
 */
module SwapInvariant {
  import opened Numbers
  import opened Totals
  import opened PageSpace
  import opened PageChains
  import opened Disk
  import opened Ownership
  import opened ChunkStatus
  import opened Lifecycle

  type Chunks = map<nat, Chunk>

  ghost function Own(chunks: Chunks): Chains {
    map id | id in chunks && chunks[id].swapBuf != [] :: chunks[id].swapBuf
  }

  /** The parts a chunk owns hold exactly its size. */
  ghost predicate CopyFits(u: Parts, c: Chunk) {
    Offsets(c.swapBuf) <= u.Keys && ChainSize(u, c.swapBuf) == c.size
  }

  ghost predicate SpaceOk(g: Layout, space: Space, disk: Bytes, chunks: Chunks) {
    && Valid(g, space) && |disk| == space.size
    && Partition(Used(space), Own(chunks))
    && (forall id :: id in chunks && chunks[id].swapBuf != [] ==> CopyFits(Used(space), chunks[id]))
  }

  lemma UsedOnDisk(g: Layout, space: Space, k: nat)
    requires Valid(g, space) && k in Used(space)
    ensures k + Used(space)[k].size <= Stop(space, k) <= space.size
  {
    assert Fitted(g, space.blocks[k]);
    PadIsLeast(space.blocks[k].size, g.align);
    assert Boundary(space, Stop(space, k));
  }

  lemma CopyOnDisk(g: Layout, space: Space, disk: Bytes, c: Chunk)
    requires Valid(g, space) && |disk| == space.size && Offsets(c.swapBuf) <= Used(space).Keys
    ensures Fits(disk, Used(space), c.swapBuf)
  {
    forall k: nat | k in c.swapBuf
      ensures k in Used(space) && k + Used(space)[k].size <= |disk|
    {
      assert k in Offsets(c.swapBuf);
      UsedOnDisk(g, space, k);
    }
  }

  /** A change that leaves the chunk's parts and its size alone, or a new chunk without parts. */
  lemma SpaceSet(g: Layout, space: Space, disk: Bytes, chunks: Chunks, id: nat, c: Chunk)
    requires SpaceOk(g, space, disk, chunks)
    requires if id in chunks then c.swapBuf == chunks[id].swapBuf && c.size == chunks[id].size else c.swapBuf == []
    ensures SpaceOk(g, space, disk, chunks[id := c])
  {
    assert Own(chunks[id := c]) == Own(chunks);
  }

  lemma SpaceRemoved(g: Layout, space: Space, disk: Bytes, chunks: Chunks, id: nat)
    requires SpaceOk(g, space, disk, chunks) && id in chunks && chunks[id].swapBuf == []
    ensures SpaceOk(g, space, disk, chunks - {id})
  {
    assert Own(chunks - {id}) == Own(chunks);
  }

  lemma SpaceDiskSet(g: Layout, space: Space, disk: Bytes, disk': Bytes, chunks: Chunks)
    requires SpaceOk(g, space, disk, chunks) && |disk'| == |disk|
    ensures SpaceOk(g, space, disk', chunks)
  {
  }

  /** The copies of other chunks do not notice when one chunk's parts are given back. */
  lemma OthersKept(u: Parts, u': Parts, own: Chains, id: nat, i: nat)
    requires Partition(u, own) && i in own && i != id
    requires u' == if id in own then u - Offsets(own[id]) else u
    ensures forall k: nat :: k in own[i] ==> k in u && k in u' && u[k] == u'[k]
  {
    ChainInside(u, own, i);
    forall k: nat | k in own[i]
      ensures k in u && k in u' && u[k] == u'[k]
    {
      assert k in Offsets(own[i]);
    }
  }

  lemma SpaceDropped(g: Layout, space: Space, disk: Bytes, chunks: Chunks, id: nat)
    requires SpaceOk(g, space, disk, chunks) && id in chunks && chunks[id].swapBuf != []
    ensures var ks := chunks[id].swapBuf;
            var space' := ReleaseChain(g, space, ks);
            && SpaceOk(g, space', disk, chunks[id := chunks[id].(swapBuf := [])])
            && Offsets(ks) <= Used(space).Keys && Used(space') == Used(space) - Offsets(ks)
            && FreeBytes(space') == FreeBytes(space) + chunks[id].size + Overhead(Used(space), ks)
            && Total(Used(space'), DataSize) == Total(Used(space), DataSize) - chunks[id].size
  {
    hide Tiled, Coalesced, Fitted, FreeBytes, ReleaseChain;
    var ks, u, own := chunks[id].swapBuf, Used(space), Own(chunks);
    var space', chunks' := ReleaseChain(g, space, ks), chunks[id := chunks[id].(swapBuf := [])];
    assert own[id] == ks && CopyFits(u, chunks[id]);
    ChainInside(u, own, id);
    ReleaseChainValid(g, space, ks);
    PartitionDrop(u, Used(space'), own, id);
    assert Own(chunks') == own - {id};
    ChainTotals(u, ks);
    BytesAddUp(g, space);
    BytesAddUp(g, space');
    forall i | i in chunks' && chunks'[i].swapBuf != []
      ensures CopyFits(Used(space'), chunks'[i])
    {
      OthersKept(u, Used(space'), own, id, i);
      ChainSizeKept(u, Used(space'), own[i]);
    }
  }

  lemma SpaceStored(g: Layout, space: Space, disk: Bytes, chunks: Chunks, id: nat, c: Chunk, a: Allocation)
    requires SpaceOk(g, space, disk, chunks) && id in chunks && chunks[id].swapBuf == []
    requires Placed(g, space, c.size, id, a) && c.swapBuf == a.chain
    ensures SpaceOk(g, a.space, disk, chunks[id := c])
    ensures Offsets(a.chain) <= Used(a.space).Keys
    ensures FreeBytes(a.space) == FreeBytes(space) - c.size - Overhead(Used(a.space), a.chain)
    ensures Total(Used(a.space), DataSize) == Total(Used(space), DataSize) + c.size
    ensures forall k: nat :: k in Used(space) ==> k in Used(a.space) && Used(a.space)[k] == Used(space)[k]
  {
    hide Tiled, Coalesced, Fitted, FreeBytes;
    var u, u', own, chunks' := Used(space), Used(a.space), Own(chunks), chunks[id := c];
    PartitionAdd(u, u', own, a.chain, c.size, id);
    assert Own(chunks') == own[id := a.chain];
    ChainAscends(u', a.chain, id);
    ChainTotals(u', a.chain);
    BytesAddUp(g, space);
    BytesAddUp(g, a.space);
    assert forall k: nat :: k in u ==> k in u' - Offsets(a.chain);
    forall i | i in chunks' && chunks'[i].swapBuf != []
      ensures CopyFits(u', chunks'[i])
    {
      if i != id {
        ChainInside(u, own, i);
        assert forall k: nat :: k in own[i] ==> k in Offsets(own[i]);
        ChainSizeKept(u, u', own[i]);
      }
    }
  }

  lemma SpaceExtended(g: Layout, space: Space, disk: Bytes, chunks: Chunks, files: nat, fill: Bytes)
    requires SpaceOk(g, space, disk, chunks) && |fill| == Times(files, g.page)
    ensures SpaceOk(g, Extend(g, space, files), disk + fill, chunks)
    ensures Used(Extend(g, space, files)) == Used(space)
    ensures FreeBytes(Extend(g, space, files)) == FreeBytes(space) + |fill|
  {
    ExtendValid(g, space, files);
    BytesAddUp(g, space);
    BytesAddUp(g, Extend(g, space, files));
  }

  // ---------------------------------------------------------------- bytes

  /** The bytes of a chunk's disk copy relate to its buffer as its status says. A transfer has dealt
      with the parts that have been scheduled and have arrived. */
  ghost predicate CopyOk(u: Parts, disk: Bytes, c: Chunk, transfers: map<nat, Transfer>, id: nat) {
    && Fits(disk, u, c.swapBuf)
    && match c.status
       case Swapped => true
       case SwapIn => MovedOk(u, disk, c, transfers, id)
       case SwapOut => MovedOk(u, disk, c, transfers, id)
       case _ => c.loc.Buffer? && c.loc.data == OnDisk(disk, u, c.swapBuf)
  }

  ghost predicate MovedOk(u: Parts, disk: Bytes, c: Chunk, transfers: map<nat, Transfer>, id: nat) {
    && id in transfers && c.loc.Buffer?
    && forall p: nat :: p < transfers[id].scheduled && p !in transfers[id].inFlight ==>
                          PartAgrees(disk, u, c.swapBuf, p, c.loc.data)
  }

  ghost predicate DataOk(u: Parts, disk: Bytes, chunks: Chunks, transfers: map<nat, Transfer>) {
    forall id :: id in chunks && chunks[id].swapBuf != [] ==> CopyOk(u, disk, chunks[id], transfers, id)
  }

  lemma PartAgreesKept(disk: Bytes, disk': Bytes, u: Parts, u': Parts, ks: seq<nat>, i: nat, buffer: Bytes)
    requires PartAgrees(disk, u, ks, i, buffer) && Fits(disk', u', ks)
    requires forall k: nat :: k in ks ==> u[k] == u'[k] && PartBytes(disk, u, k) == PartBytes(disk', u', k)
    ensures PartAgrees(disk', u', ks, i, buffer)
  {
    PartOffsetKept(u, u', ks, i);
  }

  /** What a chunk's copy is worth only depends on its own blocks, their bytes, and its own transfer. */
  lemma CopyKept(disk: Bytes, disk': Bytes, u: Parts, u': Parts, c: Chunk,
                 ts: map<nat, Transfer>, ts': map<nat, Transfer>, id: nat)
    requires CopyOk(u, disk, c, ts, id) && Fits(disk', u', c.swapBuf)
    requires forall k: nat :: k in c.swapBuf ==> u[k] == u'[k] && PartBytes(disk, u, k) == PartBytes(disk', u', k)
    requires id in ts ==> id in ts' && ts'[id] == ts[id]
    ensures CopyOk(u', disk', c, ts', id)
  {
    OnDiskKept(disk, disk', u, u', c.swapBuf);
    if c.status.SwapIn? || c.status.SwapOut? {
      forall p: nat | p < ts[id].scheduled && p !in ts[id].inFlight
        ensures PartAgrees(disk', u', c.swapBuf, p, c.loc.data)
      {
        PartAgreesKept(disk, disk', u, u', c.swapBuf, p, c.loc.data);
      }
    }
  }

  /** Writing inside one block leaves the data of every other block alone. */
  lemma PatchApart(g: Layout, space: Space, disk: Bytes, k: nat, data: Bytes, j: nat)
    requires Valid(g, space) && |disk| == space.size && k in Used(space) && j in Used(space) && j != k
    requires |data| == Used(space)[k].size
    ensures k + |data| <= |disk| && j + Used(space)[j].size <= |disk|
    ensures PartBytes(Patch(disk, k, data), Used(space), j) == PartBytes(disk, Used(space), j)
  {
    UsedOnDisk(g, space, k);
    UsedOnDisk(g, space, j);
    assert j < k ==> Stop(space, j) <= k;
    assert k < j ==> Stop(space, k) <= j;
    PatchReads(disk, k, data, j, j + Used(space)[j].size);
  }
}
