/** The byte counters of manager and swap, in every reachable state. */
module Accounting {
  import opened Numbers
  import opened Ordered
  import opened Totals
  import opened PageSpace
  import opened PageChains
  import opened Disk
  import opened Ownership
  import opened ChunkStatus
  import opened Lifecycle
  import opened SwapInvariant
  import opened Invariant
  import opened Preservation
  import opened Reachable

  /** Padding and slack of a block in use: what cannot be used for anything else. */
  ghost function Unusable(b: Block): nat {
    if b.size <= b.extent then b.extent - b.size else 0
  }

  lemma DataAndUnusable(g: Layout, space: Space)
    requires Valid(g, space)
    ensures UsedBytes(space) == Total(Used(space), DataSize) + Total(Used(space), Unusable)
  {
    forall k | k in Used(space)
      ensures Extent(Used(space)[k]) == DataSize(Used(space)[k]) + Unusable(Used(space)[k])
    {
      assert Fitted(g, space.blocks[k]);
      PadIsLeast(space.blocks[k].size, g.align);
    }
    TotalAdd(Used(space), DataSize, Unusable, Extent);
  }

  /** Free swap, used swap, and what is lost to padding and slack make up the swap files. */
  lemma SwapAddsUp(g: Layout, st: System)
    requires Inv(g, st)
    ensures st.swapFree + st.swapUsed + Total(Used(st.space), Unusable) == st.space.size
  {
    hide Tiled, Coalesced, TransfersOk, DataOk, Partition;
    BytesAddUp(g, st.space);
    DataAndUnusable(g, st.space);
    forall id | id in st.chunks
      ensures CopySize(st.chunks[id]) == CachedSize(st.chunks[id]) + SwapSize(st.chunks[id])
    {
      ShapeAt(g, st.chunks, id);
    }
    TotalAdd(st.chunks, CachedSize, SwapSize, CopySize);
  }

  /** The books of every reachable state, and the RAM ceiling. */
  lemma BooksBalance(g: Layout, files: nat, disk: Bytes, memoryMax: nat, es: seq<Event>)
    requires |disk| == Times(files, g.page)
    ensures var st := Run(g, Start(g, files, disk, memoryMax), es);
            && st.memoryUsed == Total(st.chunks, RamSize)
            && st.memoryToBeFreed == Total(st.chunks, LeavingSize)
            && st.memorySwapped == st.swapUsed == Total(st.chunks, SwapSize)
            && st.swapFree == FreeBytes(st.space) + Total(st.chunks, CachedSize)
            && st.swapFree + st.swapUsed + Total(Used(st.space), Unusable) == st.space.size
            && 0 <= st.memoryUsed - st.memoryToBeFreed <= st.memoryMax
  {
    hide Run;
    var st := Run(g, Start(g, files, disk, memoryMax), es);
    ReachableInv(g, files, disk, memoryMax, es);
    SwapAddsUp(g, st);
    TotalAdd(st.chunks, LeavingSize, StayingSize, RamSize);
  }

  ghost function StayingSize(c: Chunk): nat { if c.status.Swapped? || c.status.SwapOut? then 0 else c.size }

  lemma WholeFiles(x: nat, m: nat)
    requires m > 0 && Multiple(x, m)
    ensures x / m >= 0 && x == Times(x / m, m)
  {
    PadIsLeast(x, m);
    QuotientTimes(x, m, x);
  }

  /** Once every chunk is gone, whatever happened in between, each page file is one free block again, and
      all counters are back to where they started. */
  lemma AllFreed(g: Layout, files: nat, disk: Bytes, memoryMax: nat, es: seq<Event>)
    requires |disk| == Times(files, g.page)
    requires Run(g, Start(g, files, disk, memoryMax), es).chunks == map[]
    ensures var st := Run(g, Start(g, files, disk, memoryMax), es);
            && st.space.size / g.page >= 0 && st.space == Fresh(g, st.space.size / g.page)
            && st.swapFree == st.space.size && st.swapUsed == 0 && st.memorySwapped == 0
            && st.memoryUsed == 0 && st.memoryToBeFreed == 0 && st.queued == 0 && st.transfers == map[]
  {
    hide Run;
    var st := Run(g, Start(g, files, disk, memoryMax), es);
    ReachableInv(g, files, disk, memoryMax, es);
    SwapAddsUp(g, st);
    assert Used(st.space) == map[] by {
      if k: nat :| k in Used(st.space) {
        assert Owned(Own(st.chunks), k);
      }
    }
    WholeFiles(st.space.size, g.page);
    AllFreedIsFresh(g, st.space, st.space.size / g.page);
    assert st.transfers == map[];
  }

  // ---------------------------------------------------------------- pfmalloc

  /** Cleaning drops cached copies one by one; it stops when it has dropped as much as it was asked for, or
      when no cached copy is left. */
  lemma {:induction false} CleaningExact(g: Layout, st: System, minimum: nat, x: int, bytes: nat)
    requires Inv(g, st) && forall id :: id in st.chunks && id <= x ==> !Cached(st.chunks[id])
    ensures var r := CleanFrom(g, st, minimum, x, bytes);
            && Total(r.st.chunks, CachedSize) + r.bytes == Total(st.chunks, CachedSize) + bytes
            && ((minimum > 0 && r.bytes >= minimum) || Total(r.st.chunks, CachedSize) == 0)
    decreases |CachedAbove(st, x)|
  {
    hide Inv, DropCopy, OnlyCopiesDropped, FreeBytes;
    if (minimum == 0 || bytes < minimum) && CachedAbove(st, x) != {} {
      var id := Least(CachedAbove(st, x));
      assert id in CachedAbove(st, x);
      KeepsDropCopy(g, st, id);
      DropsOne(g, st, id);
      DropMoves(g, st, id);
      CleaningEnds(g, st, x, id);
      forall i | i in st.chunks && i <= id
        ensures !Cached(DropCopy(g, st, id).chunks[i])
      {
        assert i < id && i > x ==> i !in CachedAbove(st, x);
      }
      CleaningExact(g, DropCopy(g, st, id), minimum, id, bytes + st.chunks[id].size);
    } else if CachedAbove(st, x) == {} {
      forall id | id in st.chunks
        ensures !Cached(st.chunks[id])
      {
        assert id !in CachedAbove(st, x);
      }
      TotalZero(st.chunks, CachedSize);
    }
  }

  lemma DropMoves(g: Layout, st: System, id: nat)
    requires id in st.chunks && Cached(st.chunks[id])
    ensures Total(DropCopy(g, st, id).chunks, CachedSize) == Total(st.chunks, CachedSize) - st.chunks[id].size
    ensures id in DropCopy(g, st, id).chunks && !Cached(DropCopy(g, st, id).chunks[id])
  {
    TotalsSet(st.chunks, id, st.chunks[id].(swapBuf := []));
  }

  /** The bytes of the chunks with a cached copy whose ids are above x and not above y. */
  ghost function CachedBetween(chunks: Chunks, x: int, y: int): nat {
    Total(map id | id in chunks && x < id <= y :: chunks[id], CachedSize)
  }

  /** The next copy to be dropped is the first of those that are counted. */
  lemma CachedNext(chunks: Chunks, x: int, y: int, id: nat)
    requires id in chunks && x < id <= y && forall i :: i in chunks && x < i < id ==> !Cached(chunks[i])
    ensures CachedBetween(chunks, x, y) == CachedSize(chunks[id]) + CachedBetween(chunks, id, y)
  {
    var m := map i | i in chunks && x < i <= y :: chunks[i];
    var l := map i | i in chunks && id < i <= y :: chunks[i];
    TotalSplit(m, CachedSize, id);
    var ks := set i | i in m && i < id;
    TotalWithout(m - {id}, CachedSize, ks);
    assert (m - {id}) - ks == l;
  }

  lemma NoneCached(chunks: Chunks, x: int, y: int)
    requires forall i :: i in chunks && x < i <= y ==> !Cached(chunks[i])
    ensures CachedBetween(chunks, x, y) == 0
  {
    TotalZero(map i | i in chunks && x < i <= y :: chunks[i], CachedSize);
  }

  /** Cleaning drops exactly what it was asked for if and only if the cached copies, summed up in the order of their ids,
      reach that sum at some id. */
  lemma {:induction false} CleanedToTheByte(g: Layout, st: System, minimum: nat, x: int, bytes: nat)
    requires minimum > 0
    ensures CleanFrom(g, st, minimum, x, bytes).bytes == minimum <==>
              exists y: int :: x <= y && bytes + CachedBetween(st.chunks, x, y) == minimum
    decreases |CachedAbove(st, x)|
  {
    hide CachedBetween, Cached, DropCopy;
    NoneCached(st.chunks, x, x);
    if bytes >= minimum {
      assert bytes == minimum ==> bytes + CachedBetween(st.chunks, x, x) == minimum;
    } else if CachedAbove(st, x) == {} {
      forall y: int | x <= y
        ensures CachedBetween(st.chunks, x, y) == 0
      {
        forall i | i in st.chunks && x < i <= y
          ensures !Cached(st.chunks[i])
        {
          assert i !in CachedAbove(st, x);
        }
        NoneCached(st.chunks, x, y);
      }
    } else {
      CleanedNext(g, st, minimum, x, bytes);
    }
  }

  lemma CleanedNext(g: Layout, st: System, minimum: nat, x: int, bytes: nat)
    requires minimum > bytes && CachedAbove(st, x) != {}
    ensures CleanFrom(g, st, minimum, x, bytes).bytes == minimum <==>
              exists y: int :: x <= y && bytes + CachedBetween(st.chunks, x, y) == minimum
    decreases |CachedAbove(st, x)|, 0
  {
    hide CachedBetween, DropCopy;
    var id := Least(CachedAbove(st, x));
    assert id in CachedAbove(st, x);
    var next, bytes' := DropCopy(g, st, id), bytes + st.chunks[id].size;
    CleaningEnds(g, st, x, id);
    CleanedToTheByte(g, next, minimum, id, bytes');
    forall i | i in st.chunks && x < i < id
      ensures !Cached(st.chunks[i])
    {
      assert i !in CachedAbove(st, x);
    }
    forall y: int | x <= y
      ensures y < id ==> CachedBetween(st.chunks, x, y) == 0
      ensures id <= y ==> CachedBetween(st.chunks, x, y) == st.chunks[id].size + CachedBetween(next.chunks, id, y)
    {
      if y < id {
        NoneCached(st.chunks, x, y);
      } else {
        CachedNext(st.chunks, x, y, id);
        SameAbove(g, st, id, y);
      }
    }
  }

  lemma SameAbove(g: Layout, st: System, id: nat, y: int)
    requires id in st.chunks
    ensures CachedBetween(DropCopy(g, st, id).chunks, id, y) == CachedBetween(st.chunks, id, y)
  {
    var a := map i | i in st.chunks && id < i <= y :: st.chunks[i];
    var b := map i | i in DropCopy(g, st, id).chunks && id < i <= y :: DropCopy(g, st, id).chunks[i];
    assert a == b;
  }

  /** pfmalloc of a chunk that swapOut has found to fit into the free swap. It gives up at once when there
      is no free block at all, although cached copies could be dropped. Otherwise it fails exactly when it
      needs cached copies dropped and those that are dropped, in the order of their ids, come to exactly what was missing: then
      there is enough space, but cleanupCachedElements only reports success for strictly more. */
  lemma PfmallocFails(g: Layout, st: System, size: nat, id: nat)
    requires Inv(g, st) && Valid(g, st.space) && 0 < size <= st.swapFree
    ensures var p, free := Pfmalloc(g, st, size, id), FreeBytes(st.space);
            && (p.outcome.NoRoom? <==> Fitting(st.space, 0) == {})
            && (p.outcome.Thrown? <==> Fitting(st.space, 0) != {} && free < size
                                       && exists y: int :: CachedBetween(st.chunks, -1, y) == size - free)
            && (p.outcome.Thrown? ==> FreeBytes(p.st.space) >= size)
  {
    hide CachedBetween, CleanFrom, Fitting, Inv, Valid, FreeBytes;
    if Fitting(st.space, 0) != {} && FreeBytes(st.space) < size {
      CleanedEnough(g, st, size);
      var missing := size - FreeBytes(st.space);
      CleanedToTheByte(g, st, missing, -1, 0);
      forall y: int | CachedBetween(st.chunks, -1, y) == missing
        ensures -1 <= y
      {
        if y < -1 { NoneCached(st.chunks, -1, y); }
      }
    }
  }

  /** Cleaning always makes enough room for a chunk that fits into the free swap. */
  lemma CleanedEnough(g: Layout, st: System, size: nat)
    requires Inv(g, st) && FreeBytes(st.space) < size <= st.swapFree
    ensures var missing: nat := size - FreeBytes(st.space); var r := CleanFrom(g, st, missing, -1, 0);
            Valid(g, r.st.space) && missing <= r.bytes && size <= FreeBytes(r.st.space)
  {
    hide SpaceOk, ShapesOk, TransfersOk, DataOk, FreeBytes, Used, CachedBetween;
    var missing := size - FreeBytes(st.space);
    CleaningExact(g, st, missing, -1, 0);
    KeepsCleaning(g, st, missing, -1, 0);
    ValidSpace(g, CleanFrom(g, st, missing, -1, 0).st);
  }

  lemma ValidSpace(g: Layout, st: System)
    requires Inv(g, st)
    ensures Valid(g, st.space)
  {
  }

  // ---------------------------------------------------------------- cache coherence

  /** Writing any part of a cached chunk again would not change a byte on disk: this is why swapOut may just
      give the buffer up. */
  lemma RewriteChangesNothing(g: Layout, st: System, id: nat, p: nat)
    requires Inv(g, st) && id in st.chunks && Cached(st.chunks[id]) && p < |st.chunks[id].swapBuf|
    ensures var leaving := WithChunk(st, id, st.chunks[id].(status := SwapOut));
            PartInBounds(leaving, id, p) && MovePart(leaving, id, p).disk == st.disk
  {
    hide ShapesOk, TransfersOk, BooksOk, Valid, Partition, PartBytes;
    var c, u := st.chunks[id], Used(st.space);
    ShapeAt(g, st.chunks, id);
    assert CopyOk(u, st.disk, c, st.transfers, id) && CopyFits(u, c);
    PartOffsetBounds(u, c.swapBuf, p);
    WholeMakesParts(st.disk, u, c.swapBuf, p);
    PatchSame(st.disk, c.swapBuf[p], c.swapBuf[p] + u[c.swapBuf[p]].size);
    PartIs(st.disk, u, c.swapBuf[p]);
  }

  lemma PartIs(disk: Bytes, u: Parts, k: nat)
    requires k in u && k + u[k].size <= |disk|
    ensures PartBytes(disk, u, k) == disk[k..k + u[k].size]
  {
  }

  lemma PatchSame(disk: Bytes, from: nat, to: nat)
    requires from <= to <= |disk|
    ensures Patch(disk, from, disk[from..to]) == disk
  {
    assert disk == disk[..from] + disk[from..to] + disk[to..];
  }

  // ---------------------------------------------------------------- mfree of a chunk on its way in

  /** What mfree can have seen of a chunk for which nothing is in flight any more. */
  ghost predicate MayHaveSeen(c: Chunk, seen: MemoryStatus) {
    || seen == c.status
    || (seen.SwapIn? && c.status.Resident() && c.swapBuf != [])
    || (seen.SwapOut? && c.status.Swapped?)
  }

  /** A chunk that is freed while it swaps in is never taken off memory_used: the books stay right exactly if
      mfree has seen another status, and else they are off by the size of the chunk. */
  lemma MfreeLeak(g: Layout, st: System, id: nat, seen: MemoryStatus)
    requires Inv(g, st) && id in st.chunks && id !in st.transfers
    requires MayHaveSeen(st.chunks[id], seen) && !seen.InUse()
    ensures var st' := MfreeStep(g, st, id, seen);
            && st'.memoryUsed == Total(st'.chunks, RamSize) + (if seen.SwapIn? then st.chunks[id].size else 0)
            && (BooksOk(st') <==> !seen.SwapIn?)
  {
    hide SpaceOk, DataOk, FreeBytes, Used, ReleaseChain, Overhead, OverheadOf, MfreeStep, TransfersOk;
    ShapeAt(g, st.chunks, id);
    TransfersRemoved(st.chunks, st.transfers, st.running, id);
    RemovedSpace(g, st, id);
    TotalsRemoved(st.chunks, id);
    MfreeFields(g, st, id, seen);
  }

  /** What mfree does to the counters. */
  lemma MfreeFields(g: Layout, st: System, id: nat, seen: MemoryStatus)
    requires id in st.chunks
    ensures var st', c := MfreeStep(g, st, id, seen), st.chunks[id];
            var n := if c.swapBuf != [] && c.loc.NoBuffer? then c.size else 0;
            && st'.chunks == st.chunks - {id} && st'.transfers == st.transfers && st'.queued == st.queued
            && st'.space == DropCopy(g, st, id).space && st'.memoryToBeFreed == st.memoryToBeFreed
            && st'.memoryUsed == st.memoryUsed - (if seen.Allocated? then c.size else 0)
            && st'.memorySwapped == st.memorySwapped - n && st'.swapUsed == st.swapUsed - n
            && st'.swapFree == st.swapFree + n + OverheadOf(st.space, c.swapBuf)
  {
    hide ReleaseChain, Overhead, OverheadOf;
    NoOverhead(st.space);
  }

  lemma NoOverhead(s: Space)
    ensures OverheadOf(s, []) == 0
  {
  }
}
