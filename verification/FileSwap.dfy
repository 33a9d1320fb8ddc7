/**
 The manager's counters, the chunks and the file swap, updated in place.  Each method is proved to do
 what the steps of Lifecycle say.
 */
module FileSwap {
  import opened Numbers
  import opened Ordered
  import opened PageSpace
  import opened PageAlloc
  import opened PageChains
  import Pages = PageFiles
  import opened Disk
  import opened Ownership
  import opened ChunkStatus
  import opened Lifecycle
  import opened SwapInvariant
  import opened Invariant
  import opened Preservation
  import opened Arrivals
  import opened Reachable
  import opened Refinement

  class ManagedFileSwap {
    const g: Layout
    /** free_space, all_space and swapFree. */
    const files: Pages.PageFiles

    var memoryMax: int
    var memoryUsed: int
    var memorySwapped: int
    var memoryToBeFreed: int
    var swapUsed: int
    /** totalSwapActionsQueued. */
    var queued: int
    /** memChunks. */
    var chunks: map<nat, Chunk>
    /** pendingAios and the trackers they point to. */
    var transfers: map<nat, Transfer>
    var running: Running
    var disk: Bytes
    var nextAddress: nat

    /** A manager and a row of empty page files. */
    constructor (g: Layout, pageFiles: nat, disk: Bytes, memoryMax: nat)
      requires |disk| == Times(pageFiles, g.page)
      ensures this.g == g && Valid() && fresh(files) && fresh(files.locs)
      ensures State() == Start(g, pageFiles, disk, memoryMax)
    {
      hide Inv, Pages.PageFiles.Valid, Fresh, AddFile;
      this.g := g;
      this.memoryMax, memoryUsed, memorySwapped, memoryToBeFreed, swapUsed, queued := memoryMax, 0, 0, 0, 0, 0;
      chunks, transfers, running, nextAddress := map[], map[], Idle, 0;
      this.disk := disk;
      files := new Pages.PageFiles(g, pageFiles);
      new;
      StartInv(g, pageFiles, disk, memoryMax);
    }

    ghost function State(): System
      reads this, files
    {
      System(memoryMax, memoryUsed, memorySwapped, memoryToBeFreed, files.swapFree, swapUsed, queued,
             chunks, transfers, running, files.space, disk, nextAddress)
    }

    ghost predicate Ready()
      reads this, files, files.locs
    {
      files.g == g && files.Valid()
    }

    ghost predicate Valid()
      reads this, files, files.locs
    {
      Ready() && Inv(g, State())
    }

    /** The parts of the chunk form a chain that is labelled with its id. */
    ghost predicate Linked(id: nat)
      reads this, files
    {
      id in chunks && (chunks[id].swapBuf != [] ==> IsChain(Used(files.space), chunks[id].swapBuf, id))
    }

    lemma LinkedChunk(id: nat)
      requires Valid() && id in chunks
      ensures Linked(id)
    {
      hide ShapesOk, TransfersOk, DataOk, BooksOk;
      if chunks[id].swapBuf != [] {
        ChainOf(g, State(), id);
      }
    }

    // -------------------------------------------------------------- bookkeeping

    /** managedSwap::claimUsageof: RAM is booked by the manager alone, swap by the manager and the swap. */
    method ClaimUsageof(bytes: nat, rambytes: bool, used: bool)
      requires Ready()
      modifies this`memoryUsed, this`memorySwapped, this`swapUsed, files`swapFree
      ensures Ready()
      ensures var n := if used then bytes else -(bytes as int);
              State() == if rambytes then ClaimRam(old(State()), n) else ClaimSwap(old(State()), n)
    {
      hide Pages.PageFiles.Tied, PageSpace.Valid;
      var n := if used then bytes else -(bytes as int);
      if rambytes {
        memoryUsed := memoryUsed + n;
      } else {
        memorySwapped := memorySwapped + n;
        files.swapFree := files.swapFree - n;
        swapUsed := swapUsed + n;
      }
    }

    // -------------------------------------------------------------- giving disk copies up

    /** invalidateCacheFor: the chunk gives its parts back, if it has any. */
    method InvalidateCacheFor(id: nat)
      requires Ready() && Linked(id)
      modifies this`chunks, files, files.locs
      ensures Ready() && fresh(files.locs - old(files.locs))
      ensures State() == DropCopy(g, old(State()), id)
    {
      hide IsChain, Pages.PageFiles.Valid, ReleaseChain, Overhead;
      var c := chunks[id];
      if c.swapBuf != [] {
        HeadFiled(id);
        files.Pffree(files.allSpace[c.swapBuf[0]], c.swapBuf, id);
        chunks := chunks[id := c.(swapBuf := [])];
      }
    }

    lemma HeadFiled(id: nat)
      requires Ready() && Linked(id) && chunks[id].swapBuf != []
      ensures chunks[id].swapBuf[0] in files.allSpace
    {
      hide Pages.PageFiles.Valid;
      assert InUse(files.space, chunks[id].swapBuf[0]);
      files.UsedLocations();
    }

    // -------------------------------------------------------------- cleaning

    /** The walk of cleanupCachedElements has come past offset x in the order of ids. */
    ghost predicate Walking(s0: System, minimum: nat, x: int, bytes: nat, more: bool, it: nat)
      reads this, files, files.locs
    {
      && Valid() && chunks.Keys == s0.chunks.Keys
      && CleanFrom(g, s0, minimum, -1, 0) == CleanFrom(g, State(), minimum, x, bytes)
      && (more <==> Above(chunks.Keys, x) != {})
      && (more ==> IsLeast(Above(chunks.Keys, x), it))
    }

    /** The chunk at which the walk stands is the next one that the specification drops, or it has no copy. */
    lemma WalkOn(st: System, minimum: nat, x: int, bytes: nat, it: nat)
      requires IsLeast(Above(st.chunks.Keys, x), it)
      ensures it in st.chunks
      ensures Cached(st.chunks[it]) ==> CachedAbove(st, x) != {} && Least(CachedAbove(st, x)) == it
      ensures !Cached(st.chunks[it]) ==> CleanFrom(g, st, minimum, x, bytes) == CleanFrom(g, st, minimum, it, bytes)
    {
      assert it in Above(st.chunks.Keys, x);
      forall i | i in CachedAbove(st, x)
        ensures it <= i
      {
        assert i in Above(st.chunks.Keys, x);
      }
      if Cached(st.chunks[it]) {
        assert it in CachedAbove(st, x);
      } else {
        assert CachedAbove(st, x) == CachedAbove(st, it);
        SameCleaning(st, minimum, x, it, bytes);
      }
    }

    lemma SameCleaning(st: System, minimum: nat, x: int, y: int, bytes: nat)
      requires CachedAbove(st, x) == CachedAbove(st, y)
      ensures CleanFrom(g, st, minimum, x, bytes) == CleanFrom(g, st, minimum, y, bytes)
    {
    }

    /** What is dropped at this place of the walk. */
    lemma WalkDrops(st: System, minimum: nat, x: int, bytes: nat, it: nat)
      requires Inv(g, st) && IsLeast(Above(st.chunks.Keys, x), it) && it in st.chunks && Cached(st.chunks[it])
      requires minimum == 0 || bytes < minimum
      ensures var st' := DropCopy(g, st, it);
              Inv(g, st') && st'.chunks.Keys == st.chunks.Keys
              && CleanFrom(g, st, minimum, x, bytes) == CleanFrom(g, st', minimum, it, bytes + st.chunks[it].size)
    {
      hide Inv;
      WalkOn(st, minimum, x, bytes, it);
      KeepsDropCopy(g, st, it);
    }

    /** One round of the walk. */
    method CleanOne(it: nat, ghost s0: System, minimum: nat, ghost x: int, bytes: nat) returns (dropped: nat, more: bool, next: nat)
      requires Walking(s0, minimum, x, bytes, true, it) && (minimum == 0 || bytes < minimum)
      modifies this`chunks, files, files.locs
      ensures Walking(s0, minimum, it, bytes + dropped, more, next) && fresh(files.locs - old(files.locs))
      ensures |Above(chunks.Keys, it)| < |Above(chunks.Keys, x)|
    {
      hide Inv, Pages.PageFiles.Valid, DropCopy, CleanFrom;
      WalkOn(State(), minimum, x, bytes, it);
      assert it in Above(chunks.Keys, x);
      FewerAbove(chunks.Keys, x, it);
      dropped := 0;
      if chunks[it].status.Resident() && chunks[it].swapBuf != [] {
        dropped := chunks[it].size;
        LinkedChunk(it);
        WalkDrops(State(), minimum, x, bytes, it);
        InvalidateCacheFor(it);
      }
      more, next := After(chunks.Keys, it);
    }

    /** cleanupCachedElements: walk over all chunks in the order of their ids. */
    method CleanupCachedElements(minimum: nat) returns (success: bool, ghost bytes: nat)
      requires Valid()
      modifies this`chunks, files, files.locs
      ensures Valid() && fresh(files.locs - old(files.locs))
      ensures Cleaned(State(), bytes) == CleanFrom(g, old(State()), minimum, -1, 0)
      ensures success <==> bytes > minimum
    {
      hide Inv, Ready, DropCopy;
      var cleanedUp: nat := 0;
      var more, it := After(chunks.Keys, -1);
      ghost var x: int := -1;
      while (minimum == 0 || cleanedUp < minimum) && more
        invariant Walking(old(State()), minimum, x, cleanedUp, more, it) && fresh(files.locs - old(files.locs))
        decreases |Above(chunks.Keys, x)|
      {
        ghost var at := it;
        var dropped;
        dropped, more, it := CleanOne(it, old(State()), minimum, x, cleanedUp);
        x, cleanedUp := at, cleanedUp + dropped;
      }
      if !more {
        assert CachedAbove(State(), x) <= Above(chunks.Keys, x);
      }
      bytes := cleanedUp;
      success := cleanedUp > minimum;
    }

    // -------------------------------------------------------------- pfmalloc

    /** The lowest block that fits takes the chunk in one piece. */
    lemma FirstFitAlloc(st: System, size: nat, id: nat, it: nat)
      requires Inv(g, st) && 0 < size && IsLeast(Fitting(st.space, size), it)
      ensures PageSpace.Valid(g, st.space) && Fitting(st.space, 0) != {} && IsFree(st.space, it)
      ensures Lifecycle.Pfmalloc(g, st, size, id) == PlaceChain(st, Allocation(Carve(g, st.space, it, size, End, Owner(id)), [it]))
      ensures Placed(g, st.space, size, id, Allocation(Carve(g, st.space, it, size, End, Owner(id)), [it]))
    {
      hide ShapesOk, TransfersOk, DataOk, BooksOk, FreeBytes, FreeUnder, Placed, Carve, PageSpace.Valid;
      assert it in Fitting(st.space, size);
      assert it in Fitting(st.space, 0);
      FreeUnderBound(st.space, it);
      assert Least(Fitting(st.space, size)) == it;
      AllocPlaced(g, st.space, size, id);
    }

    /** No block fits, but all free blocks together are enough, at once or after cleaning. */
    lemma ScatteredAlloc(st: System, size: nat, id: nat)
      requires Inv(g, st) && 0 < size <= FreeBytes(st.space) && Fitting(st.space, size) == {}
      ensures PageSpace.Valid(g, st.space)
      ensures Lifecycle.Pfmalloc(g, st, size, id) == PlaceChain(st, Scatter(g, st.space, size, id))
    {
      hide ShapesOk, TransfersOk, DataOk, BooksOk, FreeBytes, PageSpace.Valid, PlaceChain;
      SomeFree(st.space);
    }

    /** The overhead of a chain that has just been placed is what its last part loses. */
    lemma PlacedOverhead(s: Space, size: nat, id: nat, a: Allocation)
      requires Placed(g, s, size, id, a)
      ensures a.chain != [] && var last := a.chain[|a.chain| - 1];
              last in a.space.blocks && OverheadOf(a.space, a.chain) == a.space.blocks[last].extent - a.space.blocks[last].size
    {
      ChainAscends(Used(a.space), a.chain, id);
      OverheadIsLast(g, Used(a.space), a.chain, id);
      assert a.chain[|a.chain| - 1] in Offsets(a.chain);
    }

    /** Room in one piece. */
    method PlaceWhole(it: nat, size: nat, id: nat) returns (chain: seq<nat>)
      requires Valid() && 0 < size && IsLeast(Fitting(files.space, size), it)
      modifies files, files.locs
      ensures Ready() && fresh(files.locs - old(files.locs)) && PageSpace.Valid(g, old(files.space))
      ensures Lifecycle.Pfmalloc(g, old(State()), size, id) == Placement(State(), chain, Stored)
    {
      hide Inv, Pages.PageFiles.Valid, Carve, Fitting, Placed, Lifecycle.Pfmalloc, OverheadOf;
      ghost var s0 := State();
      FirstFitAlloc(s0, size, id, it);
      PlacedOverhead(s0.space, size, id, Allocation(Carve(g, s0.space, it, size, End, Owner(id)), [it]));
      var res := files.PlaceAt(it, size, id);
      chain := [it];
    }

    /** Room in several pieces. */
    method PlaceScattered(size: nat, id: nat) returns (chain: seq<nat>)
      requires Valid() && 0 < size <= FreeBytes(files.space)
      modifies files, files.locs
      ensures Ready() && fresh(files.locs - old(files.locs)) && PageSpace.Valid(g, old(files.space))
      ensures PlaceChain(old(State()), Scatter(g, old(files.space), size, id)) == Placement(State(), chain, Stored)
    {
      hide Inv, Pages.PageFiles.Valid, Scatter, Placed, OverheadOf, FreeBytes;
      ghost var s0 := State();
      var res, ks := files.ScatterOver(size, id);
      ScatterPlaced(g, s0.space, size, id);
      PlacedOverhead(s0.space, size, id, Scatter(g, s0.space, size, id));
      chain := ks;
    }

    /** pfmalloc: in one piece where that is possible, else scattered, else after dropping cached copies. */
    method Pfmalloc(size: nat, id: nat) returns (outcome: Outcome, chain: seq<nat>)
      requires Valid() && 0 < size
      modifies this`chunks, files, files.locs
      ensures Ready() && fresh(files.locs - old(files.locs)) && PageSpace.Valid(g, old(files.space))
      ensures Placement(State(), chain, outcome) == Lifecycle.Pfmalloc(g, old(State()), size, id)
    {
      hide Inv, Pages.PageFiles.Valid, Fitting, Scatter, FreeBytes, CleanFrom, PlaceChain;
      chain := [];
      files.FreeKeysValid();
      if files.freeSpace == map[] {
        return NoRoom, chain;
      }
      var found, it := files.FirstFit(size);
      if found {
        chain := PlaceWhole(it, size, id);
        return Stored, chain;
      }
      var totalSpace := files.CountFree(size);
      if totalSpace < size {
        var bz := size - totalSpace;
        KeepsCleaning(g, State(), bz, -1, 0);
        var success, bytes := CleanupCachedElements(bz);
        if success {
          totalSpace := totalSpace + bz;
        }
      } else {
        ScatteredAlloc(State(), size, id);
      }
      if totalSpace >= size {
        chain := PlaceScattered(size, id);
        outcome := Stored;
      } else {
        outcome := Thrown;
      }
    }

    // -------------------------------------------------------------- copying

    /** completeTransactionOn; false means that it throws because the chunk swaps neither in nor out. */
    method CompleteTransactionOn(id: nat) returns (synchronized: bool)
      requires Ready() && id in chunks
      modifies this`chunks, this`transfers, this`memoryUsed, this`memorySwapped, this`memoryToBeFreed, this`swapUsed, files`swapFree
      ensures Ready() && State() == Complete(old(State()), id)
      ensures synchronized <==> Moving(old(chunks[id]))
    {
      hide Pages.PageFiles.Valid;
      var c := chunks[id];
      transfers := transfers - {id};
      match c.status {
        case SwapIn =>
          chunks := chunks[id := c.(status := if c.useCnt == 0 then Allocated else InUseRead)];
          ClaimUsageof(c.size, false, false);
          synchronized := true;
        case SwapOut =>
          chunks := chunks[id := c.(status := Swapped, loc := NoBuffer)];
          ClaimUsageof(c.size, true, false);
          memoryToBeFreed := memoryToBeFreed - c.size;
          synchronized := true;
        case _ =>
          synchronized := false;
      }
    }

    /** One count is taken off the tracker; t is what is left outstanding. */
    method CountDownTracker(id: nat, t: Transfer) returns (synchronized: bool)
      requires Ready() && id in chunks
      modifies this`chunks, this`transfers, this`memoryUsed, this`memorySwapped, this`memoryToBeFreed, this`swapUsed, files`swapFree
      ensures Ready() && State() == CountDown(old(State()), id, t)
      ensures synchronized <==> t.tracker != 1 || Moving(old(chunks[id]))
    {
      hide Pages.PageFiles.Valid, Complete;
      synchronized := true;
      if t.tracker == 1 {
        synchronized := CompleteTransactionOn(id);
      } else {
        transfers := transfers[id := t.(tracker := t.tracker - 1)];
      }
    }

    /** The size of a part as its location records it. */
    lemma PartFiled(id: nat, i: nat)
      requires Ready() && Linked(id) && i < |chunks[id].swapBuf|
      ensures var k := chunks[id].swapBuf[i];
              k in files.allSpace && k in Used(files.space) && files.allSpace[k].size == Used(files.space)[k].size
      ensures Offsets(chunks[id].swapBuf) <= Used(files.space).Keys
    {
      hide Pages.PageFiles.Valid;
      var ks := chunks[id].swapBuf;
      ChainAscends(Used(files.space), ks, id);
      assert ks[i] in Offsets(ks);
      assert InUse(files.space, ks[i]);
      files.UsedLocations();
      files.UsedLocation(ks[i], files.allSpace[ks[i]]);
    }

    /** Where the bytes of a part lie within the chunk: the offset that copyMem has come to. */
    method OffsetOfPart(id: nat, part: nat) returns (offset: nat)
      requires Ready() && Linked(id) && part < |chunks[id].swapBuf|
      ensures Offsets(chunks[id].swapBuf) <= Used(files.space).Keys
      ensures offset == PartOffset(Used(files.space), chunks[id].swapBuf, part)
    {
      hide Ready, PageSpace.Valid, Used, IsChain;
      var ks := chunks[id].swapBuf;
      PartFiled(id, part);
      offset := 0;
      for i := 0 to part
        invariant offset == PartOffset(Used(files.space), ks, i)
      {
        PartFiled(id, i);
        PartOffsetBounds(Used(files.space), ks, i);
        offset := offset + files.allSpace[ks[i]].size;
      }
    }

    /** The I/O of one part: its bytes go to disk or come from there. */
    method Transmit(id: nat, part: nat)
      requires Ready() && Linked(id) && PartInBounds(State(), id, part)
      modifies this`chunks, this`disk
      ensures Ready() && State() == MovePart(old(State()), id, part)
    {
      hide Pages.PageFiles.Valid, IsChain;
      var c := chunks[id];
      var k := c.swapBuf[part];
      var off := OffsetOfPart(id, part);
      PartFiled(id, part);
      PartOffsetBounds(Used(files.space), c.swapBuf, part);
      var size := files.allSpace[k].size;
      if c.status.SwapOut? {
        disk := Patch(disk, k, c.loc.data[off..off + size]);
      } else {
        chunks := chunks[id := c.(loc := c.loc.(data := Patch(c.loc.data, off, disk[k..k + size])))];
      }
    }

    // -------------------------------------------------------------- asynchronous I/O

    /** What is in flight can arrive. */
    lemma CanArrive(id: nat, part: nat)
      requires Valid() && id in transfers && part in transfers[id].inFlight
      ensures Enabled(g, State(), Arrive(id, part)) && Linked(id)
    {
      hide ShapesOk, DataOk, BooksOk;
      TransferAt(g, State(), id);
      CopyOnDisk(g, files.space, disk, chunks[id]);
      LinkedChunk(id);
    }

    /** asyncIoArrived: one part has been transferred; the last one completes the transaction. */
    method AsyncIoArrived(id: nat, part: nat) returns (synchronized: bool)
      requires Valid() && id in transfers && part in transfers[id].inFlight
      modifies this, files`swapFree
      ensures Valid() && Enabled(g, old(State()), Arrive(id, part)) && State() == Step(g, old(State()), Arrive(id, part))
      ensures synchronized
    {
      hide Inv, Pages.PageFiles.Valid, MovePart, PartInBounds, CountDown, IsChain;
      CanArrive(id, part);
      KeepsArrive(g, State(), id, part);
      TransferAt(g, State(), id);
      MovePartShape(g, State(), id, part);
      var t := transfers[id];
      Transmit(id, part);
      synchronized := CountDownTracker(id, t.(inFlight := t.inFlight - {part}));
      queued := queued - 1;
    }

    /** scheduleCopy: the next part of the chunk goes into flight. */
    method ScheduleCopy()
      requires Valid() && Enabled(g, State(), Schedule)
      modifies this`transfers, this`queued
      ensures Valid() && State() == Step(g, old(State()), Schedule)
    {
      hide Inv, Pages.PageFiles.Valid;
      KeepsSchedule(g, State());
      var t := transfers[running.id];
      transfers := transfers[running.id := Transfer(t.tracker + 1, t.guarded, t.scheduled + 1, t.inFlight + {t.scheduled})];
      queued := queued + 1;
    }

    /** The end of copyMem: it takes its own count off the tracker. */
    method ReleaseTracker() returns (synchronized: bool)
      requires Valid() && Enabled(g, State(), EndCopy)
      modifies this, files`swapFree
      ensures Valid() && State() == Step(g, old(State()), EndCopy)
      ensures synchronized
    {
      hide Inv, Pages.PageFiles.Valid, CountDown;
      KeepsEndCopy(g, State());
      TransferAt(g, State(), running.id);
      var id := running.id;
      synchronized := CountDownTracker(id, transfers[id].(guarded := false));
      running, queued := Idle, queued - 1;
    }

    /** Scheduling has come to part n. */
    ghost predicate CopyingAt(s0: System, id: nat, n: nat)
      reads this, files, files.locs
    {
      && Valid() && running == Copying(id) && id in transfers && id in chunks
      && transfers == s0.transfers[id := Transfer(n + 1, true, n, FirstParts(n))] && n <= |chunks[id].swapBuf|
      && State() == s0.(transfers := transfers, queued := queued) && State() == Run(g, s0, seq(n, i => Schedule))
    }

    lemma ScheduledAgain(s0: System, n: nat, st: System)
      requires st == Run(g, s0, seq(n, i => Schedule)) && Enabled(g, st, Schedule)
      ensures Step(g, st, Schedule) == Run(g, s0, seq(n + 1, i => Schedule))
    {
      hide Step, Enabled;
      var es := seq(n, i => Schedule);
      assert seq(n + 1, i => Schedule) == es + [Schedule];
      RunAppend(g, s0, es, [Schedule]);
      RunOne(g, st, Schedule);
    }

    method CopyNext(ghost s0: System, id: nat, ghost n: nat)
      requires CopyingAt(s0, id, n) && n < |chunks[id].swapBuf|
      modifies this`transfers, this`queued
      ensures CopyingAt(s0, id, n + 1)
    {
      hide Inv, Ready, Run;
      ScheduledAgain(s0, n, State());
      ScheduleCopy();
    }

    /** copyMem: all parts of the chunk are scheduled in turn. */
    method CopyMem(id: nat) returns (synchronized: bool, ghost es: seq<Event>)
      requires CopyingAt(State(), id, 0) && chunks[id].swapBuf != []
      modifies this, files`swapFree
      ensures Valid() && running.Idle? && synchronized
      ensures es == Scheduling(|old(chunks[id].swapBuf)|) && State() == Run(g, old(State()), es)
      ensures State() == old(State()).(transfers := transfers, queued := queued, running := Idle)
      ensures transfers == old(transfers)[id := Transfer(|chunks[id].swapBuf|, false, |chunks[id].swapBuf|,
                                                           FirstParts(|chunks[id].swapBuf|))]
    {
      hide Inv, Ready, Run;
      var cur := 0;
      ghost var s0 := State();
      while cur < |chunks[id].swapBuf|
        invariant CopyingAt(s0, id, cur) && cur <= |chunks[id].swapBuf|
      {
        CopyNext(s0, id, cur);
        cur := cur + 1;
      }
      es := Scheduling(cur);
      RunAppend(g, s0, seq(cur, i => Schedule), [EndCopy]);
      RunOne(g, State(), EndCopy);
      synchronized := ReleaseTracker();
    }

    // -------------------------------------------------------------- swapping

    lemma CanSwapOut(id: nat)
      requires Valid() && running.Idle? && id in chunks && chunks[id].status.Allocated?
      ensures Enabled(g, State(), SwapOutChunk(id)) && Linked(id) && chunks[id].size > 0 && chunks[id].loc.Buffer?
    {
      hide TransfersOk, DataOk, BooksOk, Partition, PageSpace.Valid;
      LinkedChunk(id);
    }

    /** A copyMem call that has just begun, seen from before the step that began it. */
    lemma CopyBegun(s0: System, first: Event, id: nat)
      requires Valid() && Enabled(g, s0, first) && State() == Step(g, s0, first)
      requires running == Copying(id) && id in chunks && id in transfers && transfers[id] == Transfer(1, true, 0, {})
      ensures CopyingAt(State(), id, 0) && chunks[id].swapBuf != []
      ensures forall n: nat :: Run(g, State(), Scheduling(n)) == Run(g, s0, [first] + Scheduling(n))
    {
      hide SpaceOk, ShapesOk, DataOk, BooksOk, Step, Enabled;
      TransferAt(g, State(), id);
      RunOne(g, s0, first);
      forall n: nat
        ensures Run(g, State(), Scheduling(n)) == Run(g, s0, [first] + Scheduling(n))
      {
        RunAppend(g, s0, [first], Scheduling(n));
      }
    }

    /** The chunk still lies on disk: it is enough to give the buffer up. */
    method SwapOutCached(id: nat)
      requires Valid() && Enabled(g, State(), SwapOutChunk(id)) && chunks[id].size <= files.swapFree && chunks[id].swapBuf != []
      modifies this`chunks, this`memoryUsed, this`memorySwapped, this`swapUsed, files`swapFree
      ensures Valid() && State() == SwapOutStep(g, old(State()), id)
      ensures LeftRam(old(State()), State(), id, old(chunks[id].size)) && running == old(running)
    {
      hide Inv, Pages.PageFiles.Valid, PageSpace.Valid;
      KeepsSwapOut(g, State(), id);
      var c := chunks[id];
      chunks := chunks[id := c.(status := Swapped, loc := NoBuffer)];
      ClaimUsageof(c.size, true, false);
      ClaimUsageof(c.size, false, true);
    }

    /** Find room and begin to copy. */
    method SwapOutStored(id: nat) returns (outcome: Outcome)
      requires Valid() && Enabled(g, State(), SwapOutChunk(id)) && chunks[id].size <= files.swapFree && chunks[id].swapBuf == []
      modifies this, files, files.locs
      ensures Valid() && fresh(files.locs - old(files.locs))
      ensures State() == SwapOutStep(g, old(State()), id)
      ensures outcome == Lifecycle.Pfmalloc(g, old(State()), old(chunks[id].size), id).outcome
      ensures outcome.Stored? ==> running == Copying(id) && id in transfers && transfers[id] == Transfer(1, true, 0, {})
      ensures !outcome.Stored? ==> running == old(running)
      ensures LeftRam(old(State()), State(), id, if outcome.Stored? then old(chunks[id].size) else 0)
    {
      hide Inv, Pages.PageFiles.Valid, PageSpace.Valid, Lifecycle.Pfmalloc, LeftRam;
      ghost var s0 := State();
      KeepsSwapOut(g, s0, id);
      StoredChunk(s0, id);
      var size, chain;
      size := chunks[id].size;
      outcome, chain := Pfmalloc(size, id);
      if outcome.Stored? {
        chunks := chunks[id := chunks[id].(status := MemoryStatus.SwapOut, swapBuf := chain)];
        ClaimUsageof(size, false, true);
        memoryToBeFreed := memoryToBeFreed + size;
        transfers, running, queued := transfers[id := Transfer(1, true, 0, {})], Copying(id), queued + 1;
      }
    }

    /** pfmalloc leaves the chunk that it allocates for as it is. */
    lemma StoredChunk(st: System, id: nat)
      requires Inv(g, st) && Enabled(g, st, SwapOutChunk(id)) && st.chunks[id].swapBuf == []
      ensures var p := Lifecycle.Pfmalloc(g, st, st.chunks[id].size, id);
              && id in p.st.chunks && p.st.chunks[id] == st.chunks[id] && p.st.running == st.running
              && p.st.memoryToBeFreed == st.memoryToBeFreed
              && (st.chunks[id].size <= st.swapFree ==>
                    LeftRam(st, SwapOutStep(g, st, id), id, if p.outcome.Stored? then st.chunks[id].size else 0))
    {
      hide Inv, PageSpace.Valid, Lifecycle.Pfmalloc, Placed, PlaceChain;
      var from, a := PfmallocFrom(g, st, st.chunks[id].size, id);
      PlacedFrom(from, a);
    }

    /** swapOut of one chunk: the bytes that are, or will be, swapped out. Thrown says that pfmalloc has thrown. */
    method SwapOut(id: nat) returns (outcome: Outcome, bytes: nat, ghost es: seq<Event>)
      requires Valid() && running.Idle? && id in chunks && (chunks[id].status.Allocated? || chunks[id].status.Out())
      modifies this, files, files.locs
      ensures Valid() && running.Idle? && fresh(files.locs - old(files.locs))
      ensures State() == Run(g, old(State()), es)
      ensures old(chunks[id].status.Out()) ==>
                State() == old(State()) && bytes == if chunks[id].size <= files.swapFree then chunks[id].size else 0
      ensures old(chunks[id].status.Allocated?) ==>
                && SwapOutEvents(es, id) && LeftRam(old(State()), State(), id, bytes)
                && Enabled(g, old(State()), SwapOutChunk(id))
                && bytes == (if Taken(g, old(State()), id) then old(chunks[id].size) else 0)
                && (outcome.Thrown? <==> ThrownAt(g, old(State()), id)) && (outcome.Thrown? ==> bytes == 0)
    {
      hide Inv, Pages.PageFiles.Valid, PageSpace.Valid, Lifecycle.Pfmalloc, SwapOutStep, Run;
      ghost var s0 := State();
      es := [];
      RunNothing(g, s0);
      outcome, bytes := NoRoom, 0;
      if chunks[id].status.Allocated? {
        CanSwapOut(id);
        RunOne(g, s0, SwapOutChunk(id));
        es := [SwapOutChunk(id)];
      }
      if chunks[id].size > files.swapFree {
        Refused(s0, id);
      } else if chunks[id].status.Out() {
        bytes := chunks[id].size;
      } else if chunks[id].swapBuf != [] {
        bytes := chunks[id].size;
        SwapOutCached(id);
      } else {
        var size := chunks[id].size;
        outcome := SwapOutStored(id);
        if outcome.Stored? {
          CopyBegun(s0, SwapOutChunk(id), id);
          var synchronized, copied := CopyMem(id);
          es := [SwapOutChunk(id)] + copied;
          bytes := size;
        }
      }
    }

    lemma Refused(st: System, id: nat)
      requires id in st.chunks && st.chunks[id].size > st.swapFree
      ensures Enabled(g, st, SwapOutChunk(id)) ==> SwapOutStep(g, st, id) == st && !Taken(g, st, id)
    {
    }

    lemma CanSwapIn(id: nat, fill: Bytes)
      requires Valid() && running.Idle? && id in chunks && chunks[id].status.Swapped? && |fill| == chunks[id].size
      requires chunks[id].size + memoryUsed <= memoryMax
      ensures Enabled(g, State(), SwapInChunk(id, fill)) && chunks[id].swapBuf != []
    {
      hide SpaceOk, TransfersOk, DataOk, BooksOk;
      ShapeAt(g, chunks, id);
    }

    /** swapIn of one chunk into a buffer that is filled with anything: the bytes that will appear. */
    method SwapIn(id: nat, fill: Bytes) returns (bytes: nat, ghost es: seq<Event>)
      requires Valid() && running.Idle? && id in chunks && !chunks[id].status.SwapOut? && |fill| == chunks[id].size
      requires chunks[id].status.Swapped? ==> chunks[id].size + memoryUsed <= memoryMax
      modifies this, files`swapFree
      ensures Valid() && running.Idle?
      ensures State() == Run(g, old(State()), es)
      ensures !old(chunks[id].status.Swapped?) ==> es == [] && bytes == 0
      ensures old(chunks[id].status.Swapped?) ==>
                && es == [SwapInChunk(id, fill)] + Scheduling(|old(chunks[id].swapBuf)|)
                && chunks == old(chunks)[id := old(chunks[id]).(status := MemoryStatus.SwapIn, loc := Buffer(old(nextAddress), fill))]
                && bytes == old(chunks[id].size)
    {
      hide Inv, Pages.PageFiles.Valid, Run;
      ghost var s0 := State();
      es := [];
      bytes := 0;
      RunNothing(g, s0);
      if chunks[id].swapBuf == [] || chunks[id].status.SwapIn? || chunks[id].status.Resident() {
        SwappedHasCopy(id);
        return;
      }
      CanSwapIn(id, fill);
      KeepsSwapIn(g, s0, id, fill);
      var c := chunks[id];
      bytes := c.size;
      chunks := chunks[id := c.(status := MemoryStatus.SwapIn, loc := Buffer(nextAddress, fill))];
      nextAddress := nextAddress + 1;
      ClaimUsageof(c.size, true, true);
      transfers, running, queued := transfers[id := Transfer(1, true, 0, {})], Copying(id), queued + 1;
      CopyBegun(s0, SwapInChunk(id, fill), id);
      var synchronized, copied := CopyMem(id);
      es := [SwapInChunk(id, fill)] + copied;
    }

    lemma SwappedHasCopy(id: nat)
      requires Valid() && id in chunks
      ensures chunks[id].status.Swapped? ==> chunks[id].swapBuf != []
    {
      hide SpaceOk, TransfersOk, DataOk, BooksOk;
      ShapeAt(g, chunks, id);
    }

    /** extendSwap: page files are added at the end, as far as there is disk space for them. */
    method ExtendSwap(size: nat, freeDiskSpace: nat, fill: Bytes) returns (success: bool, ghost es: seq<Event>)
      requires Valid() && running.Idle? && |fill| == Pad(size, g.page)
      modifies this`disk, files
      ensures Valid() && fresh(files.locs - old(files.locs))
      ensures success <==> Pad(size, g.page) <= freeDiskSpace
      ensures State() == Run(g, old(State()), es)
      ensures if success then exists n: nat :: es == [Event.ExtendSwap(n, fill)] && Times(n, g.page) == |fill| else es == []
    {
      hide Inv, Pages.PageFiles.Valid, Run, Extend;
      ghost var s0 := State();
      es := [];
      RunNothing(g, s0);
      success := files.ExtendSwap(size, freeDiskSpace);
      if success {
        disk := disk + fill;
        ghost var n: nat :| Times(n, g.page) == |fill| && files.space == Extend(g, s0.space, n);
        es := [Event.ExtendSwap(n, fill)];
        KeepsExtendSwap(g, s0, n, fill);
        RunOne(g, s0, Event.ExtendSwap(n, fill));
      }
    }
  }

  /** Other chunks have lost no more than their disk copies, chunk id keeps its size and its uses. */
  ghost predicate SameBut(before: Chunks, after: Chunks, id: nat) {
    && id in before && after.Keys == before.Keys
    && after[id].size == before[id].size && after[id].useCnt == before[id].useCnt
    && forall i :: i in before && i != id ==> after[i].(swapBuf := before[i].swapBuf) == before[i]
  }

  /** Chunk id has been put on its way out of RAM, or if bytes is zero, nothing has happened to it. */
  ghost predicate LeftRam(before: System, after: System, id: nat, bytes: nat) {
    && SameBut(before.chunks, after.chunks, id)
    && after.memoryMax == before.memoryMax && after.memoryUsed <= before.memoryUsed
    && after.memoryUsed - after.memoryToBeFreed == before.memoryUsed - before.memoryToBeFreed - bytes
    && if bytes > 0 then after.chunks[id].status.Out()
       else after.chunks[id].status == before.chunks[id].status && after.transfers == before.transfers
  }

  /** pfmalloc throws when this chunk is swapped out. */
  ghost predicate ThrownAt(g: Layout, st: System, id: nat) {
    && Enabled(g, st, SwapOutChunk(id))
    && var c := st.chunks[id];
       c.size <= st.swapFree && c.swapBuf == [] && Lifecycle.Pfmalloc(g, st, c.size, id).outcome.Thrown?
  }

  ghost predicate SwapOutEvents(es: seq<Event>, id: nat) {
    es == [SwapOutChunk(id)] || exists n: nat :: es == [SwapOutChunk(id)] + Scheduling(n)
  }

  /** The parts 0 to n - 1. */
  ghost function FirstParts(n: nat): set<nat> {
    if n == 0 then {} else FirstParts(n - 1) + {n - 1}
  }

  // ---------------------------------------------------------------- runs

  /** The events of copyMem for n parts. */
  ghost function Scheduling(n: nat): seq<Event> {
    seq(n, i => Schedule) + [EndCopy]
  }

  lemma RunNothing(g: Layout, st: System)
    ensures Run(g, st, []) == st
  {
  }

  lemma RunOne(g: Layout, st: System, e: Event)
    requires Enabled(g, st, e)
    ensures Run(g, st, [e]) == Step(g, st, e)
  {
    hide Step, Enabled;
    assert [e][1..] == [];
  }

  lemma {:induction false} RunAppend(g: Layout, st: System, es: seq<Event>, fs: seq<Event>)
    ensures Run(g, st, es + fs) == Run(g, Run(g, st, es), fs)
    decreases |es|
  {
    hide Step, Enabled;
    if es == [] {
      assert es + fs == fs;
    } else {
      assert (es + fs)[1..] == es[1..] + fs;
      RunAppend(g, if Enabled(g, st, es[0]) then Step(g, st, es[0]) else st, es[1..], fs);
    }
  }
}
