/** Every step keeps the invariant. */
module Preservation {
  import opened Numbers
  import opened Ordered
  import opened Totals
  import opened PageSpace
  import opened PageChains
  import opened Disk
  import opened Ownership
  import opened ChunkStatus
  import opened Lifecycle
  import opened SwapInvariant
  import opened Invariant

  // ---------------------------------------------------------------- user steps

  /** A chunk's status or use count changes without moving any bytes. */
  lemma QuietChange(g: Layout, st: System, id: nat, c: Chunk)
    requires Inv(g, st) && id in st.chunks
    requires c.size == st.chunks[id].size && c.swapBuf == st.chunks[id].swapBuf && ShapeOk(g, c)
    requires if c.status.Resident() then st.chunks[id].status.Resident() else c.status == st.chunks[id].status
    requires c.swapBuf != [] ==> c.loc == st.chunks[id].loc
    ensures Inv(g, WithChunk(st, id, c))
  {
    hide SpaceOk, TransfersOk, ShapesOk, BooksOk, FreeBytes, Used, ShapeOk, CopyOk;
    SpaceSet(g, st.space, st.disk, st.chunks, id, c);
    ShapesSet(g, st.chunks, id, c);
    QuietTransfers(g, st, id, c);
    QuietCopy(g, st, id, c);
    DataSet(Used(st.space), st.disk, st.chunks, st.transfers, st.transfers, id, c);
    BooksSet(st, WithChunk(st, id, c), id, c);
  }

  lemma QuietTransfers(g: Layout, st: System, id: nat, c: Chunk)
    requires TransfersOk(st.chunks, st.transfers, st.running) && id in st.chunks
    requires c.swapBuf == st.chunks[id].swapBuf
    requires if c.status.Resident() then st.chunks[id].status.Resident() else c.status == st.chunks[id].status
    ensures TransfersOk(st.chunks[id := c], st.transfers, st.running)
  {
    TransfersSet(st.chunks, st.transfers, st.running, id, c);
  }

  lemma QuietCopy(g: Layout, st: System, id: nat, c: Chunk)
    requires DataOk(Used(st.space), st.disk, st.chunks, st.transfers) && id in st.chunks
    requires c.swapBuf == st.chunks[id].swapBuf
    requires if c.status.Resident() then st.chunks[id].status.Resident() else c.status == st.chunks[id].status
    requires c.swapBuf != [] ==> c.loc == st.chunks[id].loc
    ensures c.swapBuf != [] ==> CopyOk(Used(st.space), st.disk, c, st.transfers, id)
  {
    assert c.swapBuf != [] ==> CopyOk(Used(st.space), st.disk, st.chunks[id], st.transfers, id);
  }

  /** A resident chunk gives up its disk copy. */
  lemma DropChange(g: Layout, st: System, id: nat, c: Chunk)
    requires Inv(g, st) && id in st.chunks && st.chunks[id].status.Resident() && st.chunks[id].swapBuf != []
    requires c.size == st.chunks[id].size && c.swapBuf == [] && c.status.Resident() && ShapeOk(g, c)
    ensures var ks := st.chunks[id].swapBuf;
            Inv(g, WithChunk(st, id, c).(space := ReleaseChain(g, st.space, ks),
                                          swapFree := st.swapFree + OverheadOf(st.space, ks)))
  {
    hide Valid, Partition, TransfersOk, ShapesOk, DataOk, BooksOk, FreeBytes, Used, ShapeOk, ReleaseChain;
    var ks := st.chunks[id].swapBuf;
    SpaceDropped(g, st.space, st.disk, st.chunks, id);
    var st' := WithChunk(st, id, c).(space := ReleaseChain(g, st.space, ks),
                                     swapFree := st.swapFree + OverheadOf(st.space, ks));
    SpaceSet(g, st'.space, st.disk, st.chunks[id := st.chunks[id].(swapBuf := [])], id, c);
    assert st.chunks[id := st.chunks[id].(swapBuf := [])][id := c] == st.chunks[id := c];
    ShapesSet(g, st.chunks, id, c);
    TransfersSet(st.chunks, st.transfers, st.running, id, c);
    DataDropped(g, st.space, st.disk, st.chunks, st.transfers, id, c);
    BooksSet(st, st', id, c);
  }

  lemma KeepsMmalloc(g: Layout, st: System, id: nat, sizereq: nat, fill: Bytes)
    requires Inv(g, st) && Enabled(g, st, Mmalloc(id, sizereq, fill))
    ensures Inv(g, Step(g, st, Mmalloc(id, sizereq, fill)))
  {
    hide SpaceOk, TransfersOk, ShapesOk, DataOk, BooksOk, FreeBytes, Used, Pad;
    PadIsLeast(sizereq, g.align);
    NothingNegative(st);
    var c := Chunk(Allocated, 0, Pad(sizereq, g.align), Buffer(st.nextAddress, fill), []);
    SpaceSet(g, st.space, st.disk, st.chunks, id, c);
    ShapesSet(g, st.chunks, id, c);
    TransfersSet(st.chunks, st.transfers, st.running, id, c);
    DataSet(Used(st.space), st.disk, st.chunks, st.transfers, st.transfers, id, c);
    BooksSet(st, Step(g, st, Mmalloc(id, sizereq, fill)), id, c);
  }

  /** setUse once the chunk is in RAM, after its use count has been raised to n. */
  lemma KeepsUse(g: Layout, st: System, id: nat, write: bool, n: nat, fallThrough: bool)
    requires Inv(g, st) && id in st.chunks && st.chunks[id].status.Resident() && n > 0
    ensures Inv(g, Use(g, WithChunk(st, id, st.chunks[id].(useCnt := n)), id, write, fallThrough))
  {
    hide SpaceOk, TransfersOk, DataOk, BooksOk, ReleaseChain;
    var was := st.chunks[id];
    var st1 := WithChunk(st, id, was.(useCnt := n));
    if was.status.InUseWrite? && !fallThrough {
      QuietChange(g, st, id, was.(useCnt := n));
    } else if write {
      var c := was.(useCnt := n, status := InUseWrite);
      if was.swapBuf == [] {
        QuietChange(g, st, id, c);
        assert WithChunk(st1, id, c) == WithChunk(st, id, c);
      } else {
        DropChange(g, st, id, c.(swapBuf := []));
        assert st.chunks[id := c][id := c.(swapBuf := [])] == st.chunks[id := c.(swapBuf := [])];
        assert WithChunk(st1, id, c) == WithChunk(st, id, c);
      }
    } else {
      QuietChange(g, st, id, was.(useCnt := n, status := InUseRead));
      assert WithChunk(st1, id, was.(useCnt := n, status := InUseRead)) == WithChunk(st, id, was.(useCnt := n, status := InUseRead));
    }
  }

  lemma KeepsUnsetUse(g: Layout, st: System, id: nat, times: nat)
    requires Inv(g, st) && Enabled(g, st, UnsetUse(id, times))
    ensures Inv(g, Step(g, st, UnsetUse(id, times)))
  {
    hide SpaceOk, TransfersOk, DataOk, BooksOk;
    var c := st.chunks[id].(useCnt := st.chunks[id].useCnt - times);
    QuietChange(g, st, id, if c.status.Resident() && c.useCnt == 0 then c.(status := Allocated) else c);
  }

  lemma KeepsBeginUse(g: Layout, st: System, id: nat)
    requires Inv(g, st) && Enabled(g, st, BeginUse(id))
    ensures Inv(g, Step(g, st, BeginUse(id)))
  {
    hide SpaceOk, TransfersOk, DataOk, BooksOk;
    QuietChange(g, st, id, st.chunks[id].(useCnt := st.chunks[id].useCnt + 1));
  }

  lemma KeepsWrite(g: Layout, st: System, id: nat, data: Bytes)
    requires Inv(g, st) && Enabled(g, st, Write(id, data))
    ensures Inv(g, Step(g, st, Write(id, data)))
  {
    hide SpaceOk, TransfersOk, DataOk, BooksOk;
    QuietChange(g, st, id, st.chunks[id].(loc := st.chunks[id].loc.(data := data)));
  }

  // ---------------------------------------------------------------- freeing

  lemma KeepsMfree(g: Layout, st: System, id: nat)
    requires Inv(g, st) && Enabled(g, st, Mfree(id))
    ensures Inv(g, Step(g, st, Mfree(id)))
  {
    hide SpaceOk, TransfersOk, DataOk, BooksOk, FreeBytes, Used, ReleaseChain, Overhead;
    var st' := Step(g, st, Mfree(id));
    assert st'.chunks == st.chunks - {id};
    TransfersRemoved(st.chunks, st.transfers, st.running, id);
    RemovedSpace(g, st, id);
    BooksRemoved(st, st', id);
  }

  lemma RemovedSpace(g: Layout, st: System, id: nat)
    requires SpaceOk(g, st.space, st.disk, st.chunks) && DataOk(Used(st.space), st.disk, st.chunks, st.transfers)
    requires id in st.chunks
    ensures var ks := st.chunks[id].swapBuf;
            var space := DropCopy(g, st, id).space;
            && SpaceOk(g, space, st.disk, st.chunks - {id})
            && DataOk(Used(space), st.disk, st.chunks - {id}, st.transfers)
            && (ks == [] ==> space == st.space)
            && FreeBytes(space) == FreeBytes(st.space) + CopySize(st.chunks[id]) + OverheadOf(st.space, ks)
            && Total(Used(space), DataSize) == Total(Used(st.space), DataSize) - CopySize(st.chunks[id])
  {
    hide Valid, Partition, FreeBytes, Used, CopyOk, ReleaseChain;
    var c := st.chunks[id];
    var bare := st.chunks[id := c.(swapBuf := [])];
    assert bare - {id} == st.chunks - {id};
    if c.swapBuf == [] {
      SpaceRemoved(g, st.space, st.disk, st.chunks, id);
      assert OverheadOf(st.space, []) == 0;
    } else {
      var space := ReleaseChain(g, st.space, c.swapBuf);
      SpaceDropped(g, st.space, st.disk, st.chunks, id);
      SpaceRemoved(g, space, st.disk, bare, id);
      DataDropped(g, st.space, st.disk, st.chunks, st.transfers, id, c.(swapBuf := []));
      assert DataOk(Used(space), st.disk, bare, st.transfers);
    }
  }

  // ---------------------------------------------------------------- disk copies are dropped

  lemma KeepsDropCopy(g: Layout, st: System, id: nat)
    requires Inv(g, st) && id in st.chunks && Cached(st.chunks[id])
    ensures Inv(g, DropCopy(g, st, id))
    ensures FreeBytes(DropCopy(g, st, id).space) >= FreeBytes(st.space) + st.chunks[id].size
  {
    hide Valid, Partition, ShapesOk, TransfersOk, DataOk, BooksOk, FreeBytes, Used, ReleaseChain;
    var c := st.chunks[id];
    assert ShapeOk(g, c) by { ShapeAt(g, st.chunks, id); }
    DropChange(g, st, id, c.(swapBuf := []));
    SpaceDropped(g, st.space, st.disk, st.chunks, id);
    ChainOf(g, st, id);
  }

  lemma ShapeAt(g: Layout, chunks: Chunks, id: nat)
    requires ShapesOk(g, chunks) && id in chunks
    ensures ShapeOk(g, chunks[id])
  {
  }

  lemma ChainOf(g: Layout, st: System, id: nat)
    requires SpaceOk(g, st.space, st.disk, st.chunks) && id in st.chunks && st.chunks[id].swapBuf != []
    ensures IsChain(Used(st.space), st.chunks[id].swapBuf, id) && CopyFits(Used(st.space), st.chunks[id])
    ensures Overhead(Used(st.space), st.chunks[id].swapBuf) >= 0
  {
    var own := Own(st.chunks);
    assert id in own && own[id] == st.chunks[id].swapBuf;
    OverheadIsLast(g, Used(st.space), own[id], id);
  }

  /** What cleaning leaves alone. */
  ghost predicate OnlyCopiesDropped(st: System, st': System) {
    && st' == st.(space := st'.space, swapFree := st'.swapFree, chunks := st'.chunks)
    && st'.chunks.Keys == st.chunks.Keys
    && forall id :: id in st.chunks ==>
         st'.chunks[id] == st.chunks[id] || (Cached(st.chunks[id]) && st'.chunks[id] == st.chunks[id].(swapBuf := []))
  }

  /** Cleaning keeps the invariant and frees at least as many bytes as it reports. */
  lemma {:induction false} KeepsCleaning(g: Layout, st: System, minimum: nat, x: int, bytes: nat)
    requires Inv(g, st)
    ensures var r := CleanFrom(g, st, minimum, x, bytes);
            && Inv(g, r.st) && OnlyCopiesDropped(st, r.st)
            && r.bytes >= bytes && FreeBytes(r.st.space) >= FreeBytes(st.space) + (r.bytes - bytes)
    decreases |CachedAbove(st, x)|
  {
    hide Inv, FreeBytes, DropCopy;
    if (minimum == 0 || bytes < minimum) && CachedAbove(st, x) != {} {
      var id := Least(CachedAbove(st, x));
      assert id in CachedAbove(st, x);
      KeepsDropCopy(g, st, id);
      DropsOne(g, st, id);
      CleaningEnds(g, st, x, id);
      KeepsCleaning(g, DropCopy(g, st, id), minimum, id, bytes + st.chunks[id].size);
    }
  }

  lemma DropsOne(g: Layout, st: System, id: nat)
    requires id in st.chunks && Cached(st.chunks[id])
    ensures OnlyCopiesDropped(st, DropCopy(g, st, id))
  {
  }

  // ---------------------------------------------------------------- swapping out

  /** The chunk moves into freshly allocated parts. */
  lemma KeepsStored(g: Layout, st: System, id: nat, a: Allocation)
    requires Inv(g, st) && st.running.Idle? && id in st.chunks
    requires st.chunks[id].status.Allocated? && st.chunks[id].swapBuf == []
    requires Placed(g, st.space, st.chunks[id].size, id, a)
    ensures var c := st.chunks[id];
            Inv(g, BeginCopy(ClaimSwap(WithChunk(PlaceChain(st, a).st, id, c.(status := SwapOut, swapBuf := a.chain)), c.size)
                             .(memoryToBeFreed := st.memoryToBeFreed + c.size), id))
  {
    hide Valid, Partition, ShapesOk, TransfersOk, DataOk, BooksOk, FreeBytes, Used, IsChain, Overhead;
    var c := st.chunks[id];
    var c' := c.(status := SwapOut, swapBuf := a.chain);
    var st' := BeginCopy(ClaimSwap(WithChunk(PlaceChain(st, a).st, id, c'), c.size)
                         .(memoryToBeFreed := st.memoryToBeFreed + c.size), id);
    ShapeAt(g, st.chunks, id);
    SpaceStored(g, st.space, st.disk, st.chunks, id, c', a);
    PlacedNonempty(g, st.space, c.size, id, a);
    ShapesSet(g, st.chunks, id, c');
    TransfersBegin(st.chunks, st.transfers, id, c');
    DataStored(g, st.space, st.disk, st.chunks, st.transfers, st'.transfers, id, c', a);
    BooksSet(st, st', id, c');
  }

  lemma PlacedNonempty(g: Layout, s: Space, n: nat, id: nat, a: Allocation)
    requires Placed(g, s, n, id, a)
    ensures a.chain != []
  {
  }

  /** The shortcut: the disk copy is still good, so the buffer is simply given up. */
  lemma KeepsShortcut(g: Layout, st: System, id: nat)
    requires Inv(g, st) && Enabled(g, st, SwapOutChunk(id)) && st.chunks[id].swapBuf != []
    ensures var c := st.chunks[id];
            Inv(g, ClaimSwap(ClaimRam(WithChunk(st, id, c.(status := Swapped, loc := NoBuffer)), -(c.size as int)), c.size))
  {
    hide SpaceOk, ShapesOk, TransfersOk, BooksOk, FreeBytes, Used, Fits;
    var c := st.chunks[id];
    var c' := c.(status := Swapped, loc := NoBuffer);
    ShapeAt(g, st.chunks, id);
    SpaceSet(g, st.space, st.disk, st.chunks, id, c');
    ShapesSet(g, st.chunks, id, c');
    TransfersSet(st.chunks, st.transfers, st.running, id, c');
    assert CopyOk(Used(st.space), st.disk, c, st.transfers, id);
    DataSet(Used(st.space), st.disk, st.chunks, st.transfers, st.transfers, id, c');
    BooksSet(st, ClaimSwap(ClaimRam(WithChunk(st, id, c'), -(c.size as int)), c.size), id, c');
  }

  /** pfmalloc finds its chain in st itself or in a state from which cached copies have been dropped. */
  lemma PfmallocFrom(g: Layout, st: System, size: nat, id: nat) returns (from: System, a: Allocation)
    requires Inv(g, st) && Valid(g, st.space) && 0 < size
    ensures Inv(g, from) && OnlyCopiesDropped(st, from)
    ensures from == st || (FreeBytes(st.space) < size && from == CleanFrom(g, st, size - FreeBytes(st.space), -1, 0).st)
    ensures var p := Pfmalloc(g, st, size, id);
            if p.outcome.Stored? then p == PlaceChain(from, a) && Placed(g, from.space, size, id, a) else p.st == from
  {
    hide Inv, Valid, FreeBytes, Fitting, Placed, OnlyCopiesDropped, PlaceChain;
    from, a := st, Allocation(st.space, []);
    NothingDropped(st);
    if Fitting(st.space, 0) != {} {
      if size <= FreeBytes(st.space) {
        AllocPlaced(g, st.space, size, id);
        a := Alloc(g, st.space, size, id);
        PlacedFrom(from, a);
      } else {
        var missing := size - FreeBytes(st.space);
        KeepsCleaning(g, st, missing, -1, 0);
        var r := CleanFrom(g, st, missing, -1, 0);
        from := r.st;
        if r.bytes > missing && Valid(g, from.space) && size <= FreeBytes(from.space) {
          ScatterPlaced(g, from.space, size, id);
          a := Scatter(g, from.space, size, id);
          PlacedFrom(from, a);
        }
      }
    }
  }

  lemma NothingDropped(st: System)
    ensures OnlyCopiesDropped(st, st)
  {
  }

  lemma KeepsSwapOut(g: Layout, st: System, id: nat)
    requires Inv(g, st) && Enabled(g, st, SwapOutChunk(id))
    ensures Inv(g, SwapOutStep(g, st, id))
  {
    hide Inv, Valid, Pfmalloc, Placed, PlaceChain;
    var c := st.chunks[id];
    if c.size <= st.swapFree {
      if c.swapBuf != [] {
        KeepsShortcut(g, st, id);
      } else {
        var from, a := PfmallocFrom(g, st, c.size, id);
        if Pfmalloc(g, st, c.size, id).outcome.Stored? {
          KeepsStored(g, from, id, a);
          PlacedFrom(from, a);
        }
      }
    }
  }

  lemma PlacedFrom(from: System, a: Allocation)
    ensures PlaceChain(from, a).chain == a.chain && PlaceChain(from, a).outcome.Stored?
    ensures PlaceChain(from, a).st == from.(space := a.space, swapFree := from.swapFree - OverheadOf(a.space, a.chain))
  {
  }
}
