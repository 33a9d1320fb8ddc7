/**
 The file swap is a correct store: seen from outside it behaves like the synchronous dummy swap, in
 which a chunk's bytes lie either in a RAM buffer or in a swap buffer.
 */
module Refinement {
  import opened Ordered
  import opened PageSpace
  import opened PageChains
  import opened Disk
  import opened Ownership
  import opened ChunkStatus
  import opened Lifecycle
  import opened SwapInvariant
  import opened Invariant
  import opened Preservation
  import opened Arrivals
  import opened Reachable

  // ---------------------------------------------------------------- the dummy swap as a value

  datatype Place = InRam | InSwap

  datatype Kept = Kept(place: Place, data: Bytes)

  type Store = map<nat, Kept>

  datatype StoreEvent =
    | Create(id: nat, data: Bytes)
    | Overwrite(id: nat, data: Bytes)
    | Delete(id: nat)
    | PutOut(id: nat)
    | FetchIn(id: nat)

  ghost function StoreStep(d: Store, e: StoreEvent): Store {
    match e
    case Create(id, data) => d[id := Kept(InRam, data)]
    case Overwrite(id, data) => if id in d then d[id := Kept(d[id].place, data)] else d
    case Delete(id) => d - {id}
    case PutOut(id) => if id in d then d[id := Kept(InSwap, d[id].data)] else d
    case FetchIn(id) => if id in d then d[id := Kept(InRam, d[id].data)] else d
  }

  ghost function StoreRun(d: Store, es: seq<StoreEvent>): Store
    decreases |es|
  {
    if es == [] then d else StoreRun(StoreStep(d, es[0]), es[1..])
  }

  // ---------------------------------------------------------------- abstraction

  /** A chunk's bytes: in the buffer as long as that is complete, otherwise what reading its parts would
      give. */
  ghost function Content(u: Parts, disk: Bytes, c: Chunk): Bytes {
    if c.status.Resident() || c.status.SwapOut? then (if c.loc.Buffer? then c.loc.data else [])
    else if Fits(disk, u, c.swapBuf) then OnDisk(disk, u, c.swapBuf) else []
  }

  ghost function Seen(u: Parts, disk: Bytes, c: Chunk): Kept {
    Kept(if c.status.Swapped? || c.status.SwapOut? then InSwap else InRam, Content(u, disk, c))
  }

  ghost function Abs(st: System): Store {
    map id | id in st.chunks :: Seen(Used(st.space), st.disk, st.chunks[id])
  }

  /** Whether swapOut takes the chunk. */
  ghost predicate Taken(g: Layout, st: System, id: nat)
    requires Enabled(g, st, SwapOutChunk(id))
  {
    var c := st.chunks[id];
    c.size <= st.swapFree && (c.swapBuf != [] || Pfmalloc(g, st, c.size, id).outcome.Stored?)
  }

  /** What the dummy swap does while the file swap takes this step: usually nothing. */
  ghost function Visible(g: Layout, st: System, e: Event): seq<StoreEvent>
    requires Enabled(g, st, e)
  {
    match e
    case Mmalloc(id, sizereq, fill) => [Create(id, fill)]
    case Mfree(id) => [Delete(id)]
    case Write(id, data) => [Overwrite(id, data)]
    case SwapOutChunk(id) => if Taken(g, st, id) then [PutOut(id)] else []
    case SwapInChunk(id, fill) => [FetchIn(id)]
    case _ => []
  }

  ghost function Trace(g: Layout, st: System, es: seq<Event>): seq<StoreEvent>
    decreases |es|
  {
    if es == [] then []
    else if Enabled(g, st, es[0]) then Visible(g, st, es[0]) + Trace(g, Step(g, st, es[0]), es[1..])
    else Trace(g, st, es[1..])
  }

  // ---------------------------------------------------------------- one step

  /** The bytes of a chunk stay as long as its buffer, its blocks and their bytes do. */
  lemma ContentKept(u: Parts, u': Parts, disk: Bytes, disk': Bytes, c: Chunk)
    requires c.swapBuf != [] ==> Fits(disk, u, c.swapBuf) && Fits(disk', u', c.swapBuf)
    requires forall k: nat :: k in c.swapBuf ==> u[k] == u'[k] && PartBytes(disk, u, k) == PartBytes(disk', u', k)
    ensures Content(u, disk, c) == Content(u', disk', c)
  {
    if c.swapBuf != [] {
      OnDiskKept(disk, disk', u, u', c.swapBuf);
    }
  }

  /** Everything but chunk id looks the same. */
  ghost predicate OthersSeen(st: System, st': System, id: nat) {
    && (forall i :: i in st.chunks && i != id ==> i in st'.chunks)
    && (forall i :: i in st'.chunks && i != id ==> i in st.chunks)
    && forall i :: i in st.chunks && i != id ==>
         Seen(Used(st.space), st.disk, st.chunks[i]) == Seen(Used(st'.space), st'.disk, st'.chunks[i])
  }

  lemma AbsSet(st: System, st': System, id: nat)
    requires OthersSeen(st, st', id)
    ensures id in st'.chunks ==> Abs(st') == Abs(st)[id := Seen(Used(st'.space), st'.disk, st'.chunks[id])]
    ensures id !in st'.chunks ==> Abs(st') == Abs(st) - {id}
    ensures id in st.chunks && id in st'.chunks ==>
              (Seen(Used(st'.space), st'.disk, st'.chunks[id]) == Seen(Used(st.space), st.disk, st.chunks[id]) ==>
                 Abs(st') == Abs(st))
  {
  }

  /** A step that touches neither space nor disk. */
  lemma OnlyChunk(st: System, st': System, id: nat, c: Chunk)
    requires st'.space == st.space && st'.disk == st.disk && st'.chunks == st.chunks[id := c]
    ensures OthersSeen(st, st', id)
  {
  }

  lemma OthersAfterDrop(g: Layout, st: System, st': System, id: nat)
    requires Inv(g, st) && id in st.chunks
    requires st'.space == DropCopy(g, st, id).space && st'.disk == st.disk
    requires forall i :: i != id ==> (i in st.chunks <==> i in st'.chunks) && (i in st.chunks ==> st.chunks[i] == st'.chunks[i])
    ensures OthersSeen(st, st', id)
  {
    hide Valid, ShapesOk, TransfersOk, BooksOk, ReleaseChain, Seen;
    var u, u', own := Used(st.space), Used(st'.space), Own(st.chunks);
    if st.chunks[id].swapBuf != [] {
      SpaceDropped(g, st.space, st.disk, st.chunks, id);
    }
    forall i | i in st.chunks && i != id
      ensures Seen(u, st.disk, st.chunks[i]) == Seen(u', st'.disk, st'.chunks[i])
    {
      if st.chunks[i].swapBuf != [] {
        assert i in own && own[i] == st.chunks[i].swapBuf;
        assert CopyOk(u, st.disk, st.chunks[i], st.transfers, i);
        OthersKept(u, u', own, id, i);
      }
      SeenKept(u, u', st.disk, st.disk, st.chunks[i]);
    }
  }

  lemma SeenKept(u: Parts, u': Parts, disk: Bytes, disk': Bytes, c: Chunk)
    requires c.swapBuf != [] ==> Fits(disk, u, c.swapBuf) && Fits(disk', u', c.swapBuf)
    requires forall k: nat :: k in c.swapBuf ==> u[k] == u'[k] && PartBytes(disk, u, k) == PartBytes(disk', u', k)
    ensures Seen(u, disk, c) == Seen(u', disk', c)
  {
    ContentKept(u, u', disk, disk', c);
  }

  // ---------------------------------------------------------------- steps of the user

  lemma RefinesMmalloc(g: Layout, st: System, id: nat, sizereq: nat, fill: Bytes)
    requires Inv(g, st) && Enabled(g, st, Mmalloc(id, sizereq, fill))
    ensures Abs(Step(g, st, Mmalloc(id, sizereq, fill))) == StoreStep(Abs(st), Create(id, fill))
  {
    hide Inv;
    var st' := Step(g, st, Mmalloc(id, sizereq, fill));
    OnlyChunk(st, st', id, st'.chunks[id]);
    AbsSet(st, st', id);
  }

  lemma RefinesMfree(g: Layout, st: System, id: nat)
    requires Inv(g, st) && Enabled(g, st, Mfree(id))
    ensures Abs(Step(g, st, Mfree(id))) == StoreStep(Abs(st), Delete(id))
  {
    hide Inv, Seen, ReleaseChain, Overhead, Used;
    var st' := Step(g, st, Mfree(id));
    OthersAfterDrop(g, st, st', id);
    AbsSet(st, st', id);
  }

  /** Taking or giving back a use shows nothing. */
  lemma RefinesQuiet(st: System, id: nat, c: Chunk)
    requires id in st.chunks && c.swapBuf == st.chunks[id].swapBuf && c.loc == st.chunks[id].loc
    requires c.status == st.chunks[id].status || (c.status.Resident() && st.chunks[id].status.Resident())
    ensures Abs(WithChunk(st, id, c)) == Abs(st)
  {
    OnlyChunk(st, WithChunk(st, id, c), id, c);
    AbsSet(st, WithChunk(st, id, c), id);
  }

  lemma RefinesUse(g: Layout, st: System, id: nat, write: bool, n: nat, fallThrough: bool)
    requires Inv(g, st) && id in st.chunks && st.chunks[id].status.Resident()
    ensures Abs(Use(g, WithChunk(st, id, st.chunks[id].(useCnt := n)), id, write, fallThrough)) == Abs(st)
  {
    hide Inv, Seen, ReleaseChain, Overhead, Used;
    var c := st.chunks[id];
    var st1 := WithChunk(st, id, c.(useCnt := n));
    if c.status.InUseWrite? && !fallThrough {
      RefinesQuiet(st, id, c.(useCnt := n));
    } else if write {
      var st' := Use(g, st1, id, write, fallThrough);
      assert st'.space == DropCopy(g, st, id).space;
      OthersAfterDrop(g, st, st', id);
      AbsSet(st, st', id);
      SeenResident(st, st', id);
    } else {
      RefinesQuiet(st, id, c.(useCnt := n, status := InUseRead));
      assert WithChunk(st1, id, c.(useCnt := n, status := InUseRead)) == WithChunk(st, id, c.(useCnt := n, status := InUseRead));
    }
  }

  lemma SeenResident(st: System, st': System, id: nat)
    requires id in st.chunks && id in st'.chunks && st'.chunks[id].loc == st.chunks[id].loc
    requires st.chunks[id].status.Resident() && st'.chunks[id].status.Resident()
    ensures Seen(Used(st'.space), st'.disk, st'.chunks[id]) == Seen(Used(st.space), st.disk, st.chunks[id])
  {
  }

  lemma RefinesWrite(g: Layout, st: System, id: nat, data: Bytes)
    requires Inv(g, st) && Enabled(g, st, Write(id, data))
    ensures Abs(Step(g, st, Write(id, data))) == StoreStep(Abs(st), Overwrite(id, data))
  {
    hide Inv;
    var st' := Step(g, st, Write(id, data));
    OnlyChunk(st, st', id, st'.chunks[id]);
    AbsSet(st, st', id);
  }

  // ---------------------------------------------------------------- steps of the swap

  lemma {:induction false} RefinesCleaning(g: Layout, st: System, minimum: nat, x: int, bytes: nat)
    requires Inv(g, st)
    ensures Abs(CleanFrom(g, st, minimum, x, bytes).st) == Abs(st)
    decreases |CachedAbove(st, x)|
  {
    hide Inv, DropCopy, Abs;
    if (minimum == 0 || bytes < minimum) && CachedAbove(st, x) != {} {
      var id := Least(CachedAbove(st, x));
      assert id in CachedAbove(st, x);
      KeepsDropCopy(g, st, id);
      RefinesDrop(g, st, id);
      CleaningEnds(g, st, x, id);
      RefinesCleaning(g, DropCopy(g, st, id), minimum, id, bytes + st.chunks[id].size);
    }
  }

  lemma RefinesDrop(g: Layout, st: System, id: nat)
    requires Inv(g, st) && id in st.chunks && Cached(st.chunks[id])
    ensures Abs(DropCopy(g, st, id)) == Abs(st)
  {
    hide Inv, Seen, ReleaseChain, Overhead, Used;
    var st' := DropCopy(g, st, id);
    OthersAfterDrop(g, st, st', id);
    AbsSet(st, st', id);
    SeenResident(st, st', id);
  }

  /** Storing a chunk in free space leaves what is seen of the others. */
  lemma OthersAfterStore(g: Layout, st: System, st': System, id: nat, a: Allocation)
    requires Inv(g, st) && id in st.chunks && st.chunks[id].swapBuf == []
    requires Placed(g, st.space, st.chunks[id].size, id, a) && st'.space == a.space && st'.disk == st.disk
    requires id in st'.chunks && st'.chunks == st.chunks[id := st'.chunks[id]] && st'.chunks[id].swapBuf == a.chain
    requires st'.chunks[id].size == st.chunks[id].size
    ensures OthersSeen(st, st', id)
  {
    hide Valid, ShapesOk, TransfersOk, BooksOk, Seen, FreeBytes;
    var u, u', own := Used(st.space), Used(st'.space), Own(st.chunks);
    SpaceStored(g, st.space, st.disk, st.chunks, id, st'.chunks[id], a);
    forall i | i in st.chunks && i != id
      ensures Seen(u, st.disk, st.chunks[i]) == Seen(u', st'.disk, st'.chunks[i])
    {
      if st.chunks[i].swapBuf != [] {
        assert CopyOk(u, st.disk, st.chunks[i], st.transfers, i);
      }
      SeenKept(u, u', st.disk, st.disk, st.chunks[i]);
    }
  }

  /** The shortcut puts out what is already there. */
  lemma RefinesShortcut(g: Layout, st: System, id: nat)
    requires Inv(g, st) && Enabled(g, st, SwapOutChunk(id)) && st.chunks[id].swapBuf != []
    ensures var c := st.chunks[id];
            Abs(WithChunk(st, id, c.(status := Swapped, loc := NoBuffer))) == StoreStep(Abs(st), PutOut(id))
  {
    hide SpaceOk, ShapesOk, TransfersOk, BooksOk;
    var c := st.chunks[id];
    var st' := WithChunk(st, id, c.(status := Swapped, loc := NoBuffer));
    assert CopyOk(Used(st.space), st.disk, c, st.transfers, id);
    OnlyChunk(st, st', id, st'.chunks[id]);
    AbsSet(st, st', id);
  }

  lemma RefinesStored(g: Layout, st: System, st': System, id: nat, a: Allocation)
    requires Inv(g, st) && id in st.chunks && st.chunks[id].status.Allocated? && st.chunks[id].swapBuf == []
    requires Placed(g, st.space, st.chunks[id].size, id, a) && st'.space == a.space && st'.disk == st.disk
    requires st'.chunks == st.chunks[id := st.chunks[id].(status := SwapOut, swapBuf := a.chain)]
    ensures Abs(st') == StoreStep(Abs(st), PutOut(id))
  {
    hide Inv, Placed, Used;
    OthersAfterStore(g, st, st', id, a);
    AbsSet(st, st', id);
  }

  /** The counters play no role in what is seen. */
  lemma SameSeen(st: System, st': System)
    requires st'.chunks == st.chunks && st'.space == st.space && st'.disk == st.disk
    ensures Abs(st') == Abs(st)
  {
  }

  lemma RefinesSwapOut(g: Layout, st: System, id: nat)
    requires Inv(g, st) && Enabled(g, st, SwapOutChunk(id))
    ensures Abs(SwapOutStep(g, st, id)) == if Taken(g, st, id) then StoreStep(Abs(st), PutOut(id)) else Abs(st)
  {
    hide Inv, Valid, Pfmalloc, Placed, PlaceChain, Seen, Used, Abs;
    var c, st' := st.chunks[id], SwapOutStep(g, st, id);
    if c.size <= st.swapFree {
      if c.swapBuf != [] {
        RefinesShortcut(g, st, id);
        SameSeen(WithChunk(st, id, c.(status := Swapped, loc := NoBuffer)), st');
      } else {
        var from, a := PfmallocFrom(g, st, c.size, id);
        if from != st {
          RefinesCleaning(g, st, c.size - FreeBytes(st.space), -1, 0);
        }
        if Pfmalloc(g, st, c.size, id).outcome.Stored? {
          PlacedFrom(from, a);
          assert st' == BeginCopy(ClaimSwap(WithChunk(PlaceChain(from, a).st, id, c.(status := SwapOut, swapBuf := a.chain)), c.size)
                                  .(memoryToBeFreed := st.memoryToBeFreed + c.size), id);
          RefinesStored(g, from, st', id, a);
        }
      }
    }
  }


  // ---------------------------------------------------------------- copying

  lemma RefinesSwapIn(g: Layout, st: System, id: nat, fill: Bytes)
    requires Inv(g, st) && Enabled(g, st, SwapInChunk(id, fill))
    ensures Abs(Step(g, st, SwapInChunk(id, fill))) == StoreStep(Abs(st), FetchIn(id))
  {
    hide Inv;
    var st' := Step(g, st, SwapInChunk(id, fill));
    OnlyChunk(st, st', id, st'.chunks[id]);
    AbsSet(st, st', id);
  }

  /** The end of a transfer shows nothing: by then buffer and disk agree. */
  lemma RefinesCountDown(g: Layout, st: System, id: nat, t: Transfer)
    requires Pending(g, st, id, t) && id in st.chunks
    ensures Abs(CountDown(st, id, t)) == Abs(st)
  {
    hide SpaceOk, ShapesOk, DataOk, BooksOk, Used, OnDisk, Fits;
    var st' := CountDown(st, id, t);
    if st.transfers[id].tracker == 1 {
      NothingOutstanding(g, st, id, t);
      OnlyChunk(st, st', id, st'.chunks[id]);
      AbsSet(st, st', id);
    } else {
      SameSeen(st, st');
    }
  }

  lemma RefinesEndCopy(g: Layout, st: System)
    requires Inv(g, st) && Enabled(g, st, EndCopy)
    ensures Abs(Step(g, st, EndCopy)) == Abs(st)
  {
    hide Pending, CountDown, SpaceOk, ShapesOk, DataOk, BooksOk, Used;
    var id := st.running.id;
    var t := st.transfers[id].(guarded := false);
    EndCopyPending(g, st);
    RefinesCountDown(g, st, id, t);
    SameSeen(CountDown(st, id, t), Step(g, st, EndCopy));
  }

  lemma RefinesArrive(g: Layout, st: System, id: nat, p: nat)
    requires Inv(g, st) && Enabled(g, st, Arrive(id, p))
    ensures Abs(Step(g, st, Arrive(id, p))) == Abs(st)
  {
    hide Pending, CountDown, Inv, MovePart, Seen, Used;
    var st', t := MovePart(st, id, p), st.transfers[id].(inFlight := st.transfers[id].inFlight - {p});
    ArrivePending(g, st, id, p);
    RefinesCountDown(g, st', id, t);
    SameSeen(CountDown(st', id, t), Step(g, st, Arrive(id, p)));
    MovePartShape(g, st, id, p);
    OthersAfterMove(g, st, id, p);
    OwnAfterMove(g, st, id, p);
    AbsSet(st, st', id);
  }

  lemma OwnAfterMove(g: Layout, st: System, id: nat, p: nat)
    requires Inv(g, st) && id in st.transfers && PartInBounds(st, id, p)
    ensures var st' := MovePart(st, id, p);
            id in st'.chunks
            && Seen(Used(st'.space), st'.disk, st'.chunks[id]) == Seen(Used(st.space), st.disk, st.chunks[id])
  {
    hide SpaceOk, ShapesOk, DataOk, BooksOk, Used, OnDisk;
    TransferAt(g, st, id);
    MovePartShape(g, st, id, p);
  }

  lemma OthersAfterMove(g: Layout, st: System, id: nat, p: nat)
    requires Inv(g, st) && id in st.transfers && PartInBounds(st, id, p)
    ensures OthersSeen(st, MovePart(st, id, p), id)
  {
    hide Inv, MovePart, Seen, Used;
    MovePartShape(g, st, id, p);
    var st' := MovePart(st, id, p);
    forall i | i in st.chunks && i != id
      ensures Seen(Used(st.space), st.disk, st.chunks[i]) == Seen(Used(st'.space), st'.disk, st'.chunks[i])
    {
      OtherBytesKept(g, st, id, p, i);
      SeenKept(Used(st.space), Used(st.space), st.disk, st'.disk, st.chunks[i]);
    }
  }

  // ---------------------------------------------------------------- whole runs

  lemma RefinesExtendSwap(g: Layout, st: System, files: nat, fill: Bytes)
    requires Inv(g, st) && Enabled(g, st, ExtendSwap(files, fill))
    ensures Abs(Step(g, st, ExtendSwap(files, fill))) == Abs(st)
  {
    hide Valid, Partition, ShapesOk, TransfersOk, BooksOk, Seen, Used, Extend;
    var st', u := Step(g, st, ExtendSwap(files, fill)), Used(st.space);
    SpaceExtended(g, st.space, st.disk, st.chunks, files, fill);
    forall i | i in st.chunks
      ensures Seen(u, st.disk, st.chunks[i]) == Seen(u, st'.disk, st.chunks[i])
    {
      if st.chunks[i].swapBuf != [] {
        assert CopyOk(u, st.disk, st.chunks[i], st.transfers, i);
        LongerDisk(u, st.disk, fill, st.chunks[i].swapBuf);
      }
      SeenKept(u, u, st.disk, st'.disk, st.chunks[i]);
    }
  }

  lemma LongerDisk(u: Parts, disk: Bytes, fill: Bytes, ks: seq<nat>)
    requires Fits(disk, u, ks)
    ensures Fits(disk + fill, u, ks)
    ensures forall k: nat :: k in ks ==> PartBytes(disk, u, k) == PartBytes(disk + fill, u, k)
  {
    forall k: nat | k in ks
      ensures k in u && k + u[k].size <= |disk + fill| && PartBytes(disk, u, k) == PartBytes(disk + fill, u, k)
    {
      assert k + u[k].size <= |disk|;
    }
  }

  lemma StoreOne(d: Store, e: StoreEvent)
    ensures StoreRun(d, [e]) == StoreStep(d, e)
  {
    assert [e][1..] == [];
  }

  /** One step of the file swap is what the dummy swap does in the events that can be seen. */
  lemma RefinesStep(g: Layout, st: System, e: Event)
    requires Inv(g, st) && Enabled(g, st, e)
    ensures Abs(Step(g, st, e)) == StoreRun(Abs(st), Visible(g, st, e))
  {
    hide Inv, Abs, StoreStep, Use;
    match e
    case Mmalloc(id, sizereq, fill) => RefinesMmalloc(g, st, id, sizereq, fill); StoreOne(Abs(st), Create(id, fill));
    case Mfree(id) => RefinesMfree(g, st, id); StoreOne(Abs(st), Delete(id));
    case SetUse(id, write) => RefinesUse(g, st, id, write, st.chunks[id].useCnt + 1, false);
    case BeginUse(id) => RefinesQuiet(st, id, st.chunks[id].(useCnt := st.chunks[id].useCnt + 1));
    case FinishUse(id, write) => RefinesFinishUse(g, st, id, write);
    case UnsetUse(id, times) => RefinesUnsetUse(st, id, times);
    case Write(id, data) => RefinesWrite(g, st, id, data); StoreOne(Abs(st), Overwrite(id, data));
    case SwapOutChunk(id) => RefinesSwapOut(g, st, id); StoreOne(Abs(st), PutOut(id));
    case SwapInChunk(id, fill) => RefinesSwapIn(g, st, id, fill); StoreOne(Abs(st), FetchIn(id));
    case Schedule => SameSeen(st, Step(g, st, e));
    case EndCopy => RefinesEndCopy(g, st);
    case Arrive(id, part) => RefinesArrive(g, st, id, part);
    case Cleanup(minimum) => RefinesCleaning(g, st, minimum, -1, 0);
    case ExtendSwap(files, fill) => RefinesExtendSwap(g, st, files, fill);
    case SetLimit(limit) => SameSeen(st, Step(g, st, e));
  }

  lemma RefinesFinishUse(g: Layout, st: System, id: nat, write: bool)
    requires Inv(g, st) && Enabled(g, st, FinishUse(id, write))
    ensures Abs(Use(g, st, id, write, true)) == Abs(st)
  {
    hide Inv, Use, Abs;
    var c := st.chunks[id];
    assert WithChunk(st, id, c.(useCnt := c.useCnt)) == st by { assert st.chunks[id := c] == st.chunks; }
    RefinesUse(g, st, id, write, c.useCnt, true);
  }

  lemma RefinesUnsetUse(st: System, id: nat, times: nat)
    requires id in st.chunks && times <= st.chunks[id].useCnt
    ensures var c := st.chunks[id].(useCnt := st.chunks[id].useCnt - times);
            Abs(WithChunk(st, id, if c.status.Resident() && c.useCnt == 0 then c.(status := Allocated) else c)) == Abs(st)
  {
    hide Abs;
    var c := st.chunks[id].(useCnt := st.chunks[id].useCnt - times);
    RefinesQuiet(st, id, if c.status.Resident() && c.useCnt == 0 then c.(status := Allocated) else c);
  }

  lemma {:induction false} StoreRunSplit(d: Store, es: seq<StoreEvent>, fs: seq<StoreEvent>)
    ensures StoreRun(d, es + fs) == StoreRun(StoreRun(d, es), fs)
    decreases |es|
  {
    if es == [] {
      assert es + fs == fs;
    } else {
      assert (es + fs)[1..] == es[1..] + fs;
      StoreRunSplit(StoreStep(d, es[0]), es[1..], fs);
    }
  }

  /** The file swap refines the dummy swap over every run, whatever the order of arrivals. */
  lemma {:induction false} RefinesRun(g: Layout, st: System, es: seq<Event>)
    requires Inv(g, st)
    ensures Abs(Run(g, st, es)) == StoreRun(Abs(st), Trace(g, st, es))
    decreases |es|
  {
    hide Inv, Abs, Step, Enabled, Visible, StoreStep;
    if es != [] {
      if Enabled(g, st, es[0]) {
        KeepsStep(g, st, es[0]);
        RefinesStep(g, st, es[0]);
        RefinesRun(g, Step(g, st, es[0]), es[1..]);
        StoreRunSplit(Abs(st), Visible(g, st, es[0]), Trace(g, Step(g, st, es[0]), es[1..]));
      } else {
        RefinesRun(g, st, es[1..]);
      }
    }
  }

  /** The event neither writes to the chunk nor frees it. */
  ghost predicate Spares(e: Event, id: nat) {
    match e
    case Mfree(i) => i != id
    case Write(i, data) => i != id
    case _ => true
  }

  lemma SparedStep(g: Layout, st: System, e: Event, id: nat)
    requires Enabled(g, st, e) && Spares(e, id) && id in st.chunks
    ensures var d := StoreRun(Abs(st), Visible(g, st, e));
            id in d && d[id].data == Abs(st)[id].data
  {
    hide Pfmalloc, Content;
    if Visible(g, st, e) != [] {
      StoreOne(Abs(st), Visible(g, st, e)[0]);
      assert Visible(g, st, e) == [Visible(g, st, e)[0]];
    }
  }

  /** A chunk that is neither written nor freed keeps its bytes through every run: however often it is
      swapped out and in meanwhile, and however its disk copy is cut into parts. */
  lemma {:induction false} BytesSurvive(g: Layout, st: System, es: seq<Event>, id: nat)
    requires Inv(g, st) && id in st.chunks && forall e :: e in es ==> Spares(e, id)
    ensures id in Run(g, st, es).chunks && Abs(Run(g, st, es))[id].data == Abs(st)[id].data
    decreases |es|
  {
    hide Inv, Seen, Step, Enabled, Visible, StoreStep;
    if es != [] {
      assert Spares(es[0], id);
      assert forall e :: e in es[1..] ==> e in es;
      if Enabled(g, st, es[0]) {
        KeepsStep(g, st, es[0]);
        RefinesStep(g, st, es[0]);
        SparedStep(g, st, es[0], id);
        assert id in Abs(Step(g, st, es[0]));
        BytesSurvive(g, Step(g, st, es[0]), es[1..], id);
      } else {
        BytesSurvive(g, st, es[1..], id);
      }
    }
  }

  /** What a user finds: the bytes in the buffer are the ones that were there when it was last written. */
  lemma ReadsBack(g: Layout, st: System, es: seq<Event>, id: nat)
    requires Inv(g, st) && id in st.chunks && st.chunks[id].status.Resident()
    requires forall e :: e in es ==> Spares(e, id)
    requires id in Run(g, st, es).chunks ==> Run(g, st, es).chunks[id].status.Resident()
    ensures var st' := Run(g, st, es);
            id in st'.chunks && st'.chunks[id].loc.Buffer? && st.chunks[id].loc.Buffer?
            && st'.chunks[id].loc.data == st.chunks[id].loc.data
  {
    hide SpaceOk, TransfersOk, DataOk, BooksOk, Used, Run;
    BytesSurvive(g, st, es, id);
    KeepsRun(g, st, es);
    ShapeAt(g, st.chunks, id);
    ShapeAt(g, Run(g, st, es).chunks, id);
  }
}
