/** What holds in every reachable state, and the lemmas that carry it over a change of one chunk. */
module Invariant {
  import opened Numbers
  import opened Totals
  import opened PageSpace
  import opened PageChains
  import opened Disk
  import opened Ownership
  import opened ChunkStatus
  import opened Lifecycle
  import opened SwapInvariant

  type Transfers = map<nat, Transfer>

  // ---------------------------------------------------------------- shapes

  /** Status, use count, buffer and disk copy of one chunk fit together. */
  ghost predicate ShapeOk(g: Layout, c: Chunk) {
    && c.size > 0 && Multiple(c.size, g.align)
    && (c.loc.Buffer? ==> |c.loc.data| == c.size)
    && match c.status
       case Allocated => c.useCnt == 0 && c.loc.Buffer?
       case InUseRead => c.useCnt > 0 && c.loc.Buffer?
       case InUseWrite => c.useCnt > 0 && c.loc.Buffer? && c.swapBuf == []
       case Swapped => c.loc.NoBuffer? && c.swapBuf != []
       case SwapIn => c.loc.Buffer? && c.swapBuf != []
       case SwapOut => c.loc.Buffer? && c.swapBuf != []
  }

  ghost predicate ShapesOk(g: Layout, chunks: Chunks) {
    forall id :: id in chunks ==> ShapeOk(g, chunks[id])
  }

  // ---------------------------------------------------------------- transfers

  ghost predicate Moving(c: Chunk) {
    c.status.SwapIn? || c.status.SwapOut?
  }

  /** copyMem's own count and the parts in flight. */
  ghost function Load(t: Transfer): nat {
    |t.inFlight| + if t.guarded then 1 else 0
  }

  /** The tracker counts what is outstanding, and something is. */
  ghost predicate TransferOk(c: Chunk, t: Transfer) {
    && t.tracker == Load(t) > 0
    && t.scheduled <= |c.swapBuf|
    && (forall p :: p in t.inFlight ==> p < t.scheduled)
    && (!t.guarded ==> t.scheduled == |c.swapBuf|)
  }

  /** Exactly the chunks that swap in or out have a transfer. */
  ghost predicate TransfersOk(chunks: Chunks, transfers: Transfers, running: Running) {
    && (forall id :: id in transfers ==> id in chunks && Moving(chunks[id]) && TransferOk(chunks[id], transfers[id]))
    && (forall id :: id in chunks && Moving(chunks[id]) ==> id in transfers)
    && (forall id :: id in transfers ==> (transfers[id].guarded <==> running == Copying(id)))
    && (running.Copying? ==> running.id in transfers)
  }

  // ---------------------------------------------------------------- books

  ghost function RamSize(c: Chunk): nat { if c.status.Swapped? then 0 else c.size }
  ghost function LeavingSize(c: Chunk): nat { if c.status.SwapOut? then c.size else 0 }
  ghost function SwapSize(c: Chunk): nat { if c.status.Swapped? || Moving(c) then c.size else 0 }
  ghost function CachedSize(c: Chunk): nat { if Cached(c) then c.size else 0 }
  ghost function CopySize(c: Chunk): nat { if c.swapBuf != [] then c.size else 0 }

  ghost predicate BooksOk(st: System) {
    && st.memoryUsed == Total(st.chunks, RamSize)
    && st.memoryToBeFreed == Total(st.chunks, LeavingSize)
    && st.memorySwapped == st.swapUsed == Total(st.chunks, SwapSize)
    && st.swapFree == FreeBytes(st.space) + Total(st.chunks, CachedSize)
    && Total(Used(st.space), DataSize) == Total(st.chunks, CopySize)
    && st.queued == Total(st.transfers, Load)
  }

  ghost predicate Inv(g: Layout, st: System) {
    && SpaceOk(g, st.space, st.disk, st.chunks)
    && ShapesOk(g, st.chunks)
    && TransfersOk(st.chunks, st.transfers, st.running)
    && DataOk(Used(st.space), st.disk, st.chunks, st.transfers)
    && BooksOk(st)
    && st.memoryUsed - st.memoryToBeFreed <= st.memoryMax
  }

  // ---------------------------------------------------------------- one chunk changes

  ghost function Was(chunks: Chunks, id: nat, f: Chunk -> nat): nat {
    if id in chunks then f(chunks[id]) else 0
  }

  /** How the five sums follow a change of one chunk. */
  lemma TotalsSet(chunks: Chunks, id: nat, c: Chunk)
    ensures Total(chunks[id := c], RamSize) == Total(chunks, RamSize) - Was(chunks, id, RamSize) + RamSize(c)
    ensures Total(chunks[id := c], LeavingSize) == Total(chunks, LeavingSize) - Was(chunks, id, LeavingSize) + LeavingSize(c)
    ensures Total(chunks[id := c], SwapSize) == Total(chunks, SwapSize) - Was(chunks, id, SwapSize) + SwapSize(c)
    ensures Total(chunks[id := c], CachedSize) == Total(chunks, CachedSize) - Was(chunks, id, CachedSize) + CachedSize(c)
    ensures Total(chunks[id := c], CopySize) == Total(chunks, CopySize) - Was(chunks, id, CopySize) + CopySize(c)
  {
    TotalUpdate(chunks, RamSize, id, c);
    TotalUpdate(chunks, LeavingSize, id, c);
    TotalUpdate(chunks, SwapSize, id, c);
    TotalUpdate(chunks, CachedSize, id, c);
    TotalUpdate(chunks, CopySize, id, c);
  }

  /** The same for a chunk that goes away. */
  lemma TotalsRemoved(chunks: Chunks, id: nat)
    requires id in chunks
    ensures Total(chunks - {id}, RamSize) == Total(chunks, RamSize) - RamSize(chunks[id])
    ensures Total(chunks - {id}, LeavingSize) == Total(chunks, LeavingSize) - LeavingSize(chunks[id])
    ensures Total(chunks - {id}, SwapSize) == Total(chunks, SwapSize) - SwapSize(chunks[id])
    ensures Total(chunks - {id}, CachedSize) == Total(chunks, CachedSize) - CachedSize(chunks[id])
    ensures Total(chunks - {id}, CopySize) == Total(chunks, CopySize) - CopySize(chunks[id])
  {
    TotalSplit(chunks, RamSize, id);
    TotalSplit(chunks, LeavingSize, id);
    TotalSplit(chunks, SwapSize, id);
    TotalSplit(chunks, CachedSize, id);
    TotalSplit(chunks, CopySize, id);
  }

  lemma NothingNegative(st: System)
    requires BooksOk(st)
    ensures st.memoryUsed >= 0 && st.memoryToBeFreed >= 0 && st.swapUsed >= 0 && st.swapFree >= 0
  {
  }

  lemma ShapesSet(g: Layout, chunks: Chunks, id: nat, c: Chunk)
    requires ShapesOk(g, chunks) && ShapeOk(g, c)
    ensures ShapesOk(g, chunks[id := c])
  {
  }

  /** The books stay right when every counter follows the change of the chunk. */
  lemma BooksSet(st: System, st': System, id: nat, c: Chunk)
    requires BooksOk(st) && st'.chunks == st.chunks[id := c]
    requires st'.memoryUsed == st.memoryUsed - Was(st.chunks, id, RamSize) + RamSize(c)
    requires st'.memoryToBeFreed == st.memoryToBeFreed - Was(st.chunks, id, LeavingSize) + LeavingSize(c)
    requires st'.memorySwapped == st.memorySwapped - Was(st.chunks, id, SwapSize) + SwapSize(c)
    requires st'.swapUsed == st.swapUsed - Was(st.chunks, id, SwapSize) + SwapSize(c)
    requires st'.swapFree - FreeBytes(st'.space)
          == st.swapFree - FreeBytes(st.space) - Was(st.chunks, id, CachedSize) + CachedSize(c)
    requires Total(Used(st'.space), DataSize)
          == Total(Used(st.space), DataSize) - Was(st.chunks, id, CopySize) + CopySize(c)
    requires st'.queued - Total(st'.transfers, Load) == st.queued - Total(st.transfers, Load)
    ensures BooksOk(st')
  {
    hide FreeBytes, Used;
    TotalsSet(st.chunks, id, c);
  }

  lemma BooksRemoved(st: System, st': System, id: nat)
    requires BooksOk(st) && id in st.chunks && st'.chunks == st.chunks - {id}
    requires st'.memoryUsed == st.memoryUsed - RamSize(st.chunks[id])
    requires st'.memoryToBeFreed == st.memoryToBeFreed - LeavingSize(st.chunks[id])
    requires st'.memorySwapped == st.memorySwapped - SwapSize(st.chunks[id])
    requires st'.swapUsed == st.swapUsed - SwapSize(st.chunks[id])
    requires st'.swapFree - FreeBytes(st'.space) == st.swapFree - FreeBytes(st.space) - CachedSize(st.chunks[id])
    requires Total(Used(st'.space), DataSize) == Total(Used(st.space), DataSize) - CopySize(st.chunks[id])
    requires st'.queued == st.queued && st'.transfers == st.transfers
    ensures BooksOk(st')
  {
    hide FreeBytes, Used;
    TotalsRemoved(st.chunks, id);
  }

  lemma TransfersRemoved(chunks: Chunks, transfers: Transfers, running: Running, id: nat)
    requires TransfersOk(chunks, transfers, running) && id in chunks && id !in transfers
    ensures TransfersOk(chunks - {id}, transfers, running) && !Moving(chunks[id])
  {
  }

  /** A chunk that neither begins nor ends a transfer changes. */
  lemma TransfersSet(chunks: Chunks, transfers: Transfers, running: Running, id: nat, c: Chunk)
    requires TransfersOk(chunks, transfers, running)
    requires if id in chunks then Moving(chunks[id]) == Moving(c) && (Moving(c) ==> c.swapBuf == chunks[id].swapBuf)
             else !Moving(c)
    ensures TransfersOk(chunks[id := c], transfers, running)
  {
  }

  /** A transfer begins. */
  lemma TransfersBegin(chunks: Chunks, transfers: Transfers, id: nat, c: Chunk)
    requires TransfersOk(chunks, transfers, Idle) && id in chunks && !Moving(chunks[id]) && Moving(c)
    ensures TransfersOk(chunks[id := c], transfers[id := Transfer(1, true, 0, {})], Copying(id))
    ensures Total(transfers[id := Transfer(1, true, 0, {})], Load) == Total(transfers, Load) + 1
    ensures id !in transfers
  {
    TotalUpdate(transfers, Load, id, Transfer(1, true, 0, {}));
  }

  lemma DataSet(u: Parts, disk: Bytes, chunks: Chunks, ts: Transfers, ts': Transfers, id: nat, c: Chunk)
    requires DataOk(u, disk, chunks, ts)
    requires forall i :: i in ts && i != id ==> i in ts' && ts'[i] == ts[i]
    requires c.swapBuf != [] ==> CopyOk(u, disk, c, ts', id)
    ensures DataOk(u, disk, chunks[id := c], ts')
  {
    var chunks' := chunks[id := c];
    forall i | i in chunks' && chunks'[i].swapBuf != []
      ensures CopyOk(u, disk, chunks'[i], ts', i)
    {
      if i != id {
        assert CopyOk(u, disk, chunks[i], ts, i);
      }
    }
  }

  /** Giving one chunk's parts back does not touch the bytes of another. */
  lemma DataDropped(g: Layout, space: Space, disk: Bytes, chunks: Chunks, ts: Transfers, id: nat, c: Chunk)
    requires SpaceOk(g, space, disk, chunks) && DataOk(Used(space), disk, chunks, ts)
    requires id in chunks && chunks[id].swapBuf != [] && c.swapBuf == []
    ensures DataOk(Used(ReleaseChain(g, space, chunks[id].swapBuf)), disk, chunks[id := c], ts)
  {
    hide Tiled, Coalesced, Fitted, ReleaseChain;
    var u, u', own := Used(space), Used(ReleaseChain(g, space, chunks[id].swapBuf)), Own(chunks);
    var chunks' := chunks[id := c];
    SpaceDropped(g, space, disk, chunks, id);
    forall i | i in chunks' && chunks'[i].swapBuf != []
      ensures CopyOk(u', disk, chunks'[i], ts, i)
    {
      OthersKept(u, u', own, id, i);
      assert CopyOk(u, disk, chunks[i], ts, i);
      CopyKept(disk, disk, u, u', chunks[i], ts, ts, i);
    }
  }

  /** Taking free space for one chunk does not touch the bytes of another. */
  lemma DataStored(g: Layout, space: Space, disk: Bytes, chunks: Chunks, ts: Transfers, ts': Transfers,
                   id: nat, c: Chunk, a: Allocation)
    requires SpaceOk(g, space, disk, chunks) && DataOk(Used(space), disk, chunks, ts)
    requires id in chunks && chunks[id].swapBuf == []
    requires Placed(g, space, c.size, id, a) && c.swapBuf == a.chain
    requires c.status.SwapOut? && c.loc.Buffer? && id in ts' && ts'[id].scheduled == 0
    requires forall i :: i in ts && i != id ==> i in ts' && ts'[i] == ts[i]
    ensures DataOk(Used(a.space), disk, chunks[id := c], ts')
  {
    hide Tiled, Coalesced, Fitted;
    var u, u', own := Used(space), Used(a.space), Own(chunks);
    var chunks' := chunks[id := c];
    SpaceStored(g, space, disk, chunks, id, c, a);
    CopyOnDisk(g, a.space, disk, c);
    forall i | i in chunks' && chunks'[i].swapBuf != []
      ensures CopyOk(u', disk, chunks'[i], ts', i)
    {
      if i != id {
        assert CopyOk(u, disk, chunks[i], ts, i);
        CopyKept(disk, disk, u, u', chunks[i], ts, ts', i);
      }
    }
  }
}
