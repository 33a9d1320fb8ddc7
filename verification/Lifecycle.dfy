/**
 The life of chunks between RAM and swap files as a machine that takes one atomic step at a time:
 user calls made under stateChangeMutex, the steps of a copyMem call, and arrivals of asynchronous
 I/O in any order.
 */
module Lifecycle {
  import opened ChunkStatus
  import opened Numbers
  import opened Ordered
  import opened PageSpace
  import opened PageChains
  import opened Disk

  // ---------------------------------------------------------------- state

  datatype Buffer = NoBuffer | Buffer(address: nat, data: Bytes)

  /** swapBuf lists the offsets of the parts the chunk owns in the swap files; [] is the null pointer. */
  datatype Chunk = Chunk(status: MemoryStatus, useCnt: nat, size: nat, loc: Buffer, swapBuf: seq<nat>)

  /** A copyMem call and the I/O it has scheduled: the shared tracker, whether copyMem still holds its
      own count on it, how many parts have been scheduled, and which of these have not arrived yet. */
  datatype Transfer = Transfer(tracker: int, guarded: bool, scheduled: nat, inFlight: set<nat>)

  /** Whether the mutex is held by a copyMem call that is still scheduling. */
  datatype Running = Idle | Copying(id: nat)

  datatype System = System(
    memoryMax: int, memoryUsed: int, memorySwapped: int, memoryToBeFreed: int,
    swapFree: int, swapUsed: int, queued: int,
    chunks: map<nat, Chunk>, transfers: map<nat, Transfer>, running: Running,
    space: Space, disk: Bytes, nextAddress: nat)

  datatype Event =
    | Mmalloc(id: nat, sizereq: nat, fill: Bytes)
    | Mfree(id: nat)
    | SetUse(id: nat, write: bool)
    | BeginUse(id: nat)
    | FinishUse(id: nat, write: bool)
    | UnsetUse(id: nat, times: nat)
    | Write(id: nat, data: Bytes)
    | SwapOutChunk(id: nat)
    | SwapInChunk(id: nat, fill: Bytes)
    | Schedule
    | EndCopy
    | Arrive(id: nat, part: nat)
    | Cleanup(minimum: nat)
    | ExtendSwap(files: nat, fill: Bytes)
    | SetLimit(limit: nat)

  // ---------------------------------------------------------------- bookkeeping

  /** managedMemory::claimUsageof for RAM bytes. */
  ghost function ClaimRam(st: System, bytes: int): System {
    st.(memoryUsed := st.memoryUsed + bytes)
  }

  /** managedSwap::claimUsageof for swap bytes: the manager's and the swap's books together. */
  ghost function ClaimSwap(st: System, bytes: int): System {
    st.(memorySwapped := st.memorySwapped + bytes, swapFree := st.swapFree - bytes, swapUsed := st.swapUsed + bytes)
  }

  ghost function WithChunk(st: System, id: nat, c: Chunk): System {
    st.(chunks := st.chunks[id := c])
  }

  ghost function OverheadOf(s: Space, ks: seq<nat>): int {
    if Offsets(ks) <= Used(s).Keys then Overhead(Used(s), ks) else 0
  }

  // ---------------------------------------------------------------- the disk copy of a chunk

  /** pffree of a chunk's parts; the chunk forgets them. */
  ghost function DropCopy(g: Layout, st: System, id: nat): System
    requires id in st.chunks
  {
    var c := st.chunks[id];
    if c.swapBuf == [] then st
    else
      WithChunk(st, id, c.(swapBuf := []))
      .(space := ReleaseChain(g, st.space, c.swapBuf), swapFree := st.swapFree + OverheadOf(st.space, c.swapBuf))
  }

  ghost predicate Cached(c: Chunk) {
    c.status.Resident() && c.swapBuf != []
  }

  ghost function CachedAbove(st: System, x: int): set<nat> {
    set id | id in st.chunks && x < id && Cached(st.chunks[id])
  }

  datatype Cleaned = Cleaned(st: System, bytes: nat)

  /** cleanupCachedElements: drop disk copies of resident chunks in the order of their ids until minimum
      bytes have been dropped, or all if minimum is zero. */
  ghost function CleanFrom(g: Layout, st: System, minimum: nat, x: int, bytes: nat): Cleaned
    decreases |CachedAbove(st, x)|
  {
    if (minimum == 0 || bytes < minimum) && CachedAbove(st, x) != {} then
      var id := Least(CachedAbove(st, x));
      var next := DropCopy(g, st, id);
      CleaningEnds(g, st, x, id);
      CleanFrom(g, next, minimum, id, bytes + st.chunks[id].size)
    else
      Cleaned(st, bytes)
  }

  lemma CleaningEnds(g: Layout, st: System, x: int, id: nat)
    requires IsLeast(CachedAbove(st, x), id)
    ensures CachedAbove(DropCopy(g, st, id), id) < CachedAbove(st, x)
    ensures |CachedAbove(DropCopy(g, st, id), id)| < |CachedAbove(st, x)|
  {
    assert id in CachedAbove(st, x) && id !in CachedAbove(DropCopy(g, st, id), id);
    ProperSubsetSize(CachedAbove(DropCopy(g, st, id), id), CachedAbove(st, x));
  }

  // ---------------------------------------------------------------- pfmalloc with its last resort

  datatype Outcome = Stored | NoRoom | Thrown

  datatype Placement = Placement(st: System, chain: seq<nat>, outcome: Outcome)

  ghost function PlaceChain(st: System, a: Allocation): Placement {
    Placement(st.(space := a.space, swapFree := st.swapFree - OverheadOf(a.space, a.chain)), a.chain, Stored)
  }

  /** pfmalloc: first fit, else scattered, else after dropping cached copies. Without any free block it
      gives up at once. */
  ghost function Pfmalloc(g: Layout, st: System, size: nat, id: nat): Placement
    requires Valid(g, st.space) && 0 < size
  {
    if Fitting(st.space, 0) == {} then Placement(st, [], NoRoom)
    else if size <= FreeBytes(st.space) then PlaceChain(st, Alloc(g, st.space, size, id))
    else
      var missing := size - FreeBytes(st.space);
      var cleaned := CleanFrom(g, st, missing, -1, 0);
      if cleaned.bytes > missing && Valid(g, cleaned.st.space) && size <= FreeBytes(cleaned.st.space) then
        PlaceChain(cleaned.st, Scatter(g, cleaned.st.space, size, id))
      else
        Placement(cleaned.st, [], Thrown)
  }

  // ---------------------------------------------------------------- copying

  /** copyMem begins: a tracker with copyMem's own count on it. */
  ghost function BeginCopy(st: System, id: nat): System {
    st.(transfers := st.transfers[id := Transfer(1, true, 0, {})], running := Copying(id), queued := st.queued + 1)
  }

  /** completeTransactionOn, with the transfer forgotten. */
  ghost function Complete(st: System, id: nat): System
    requires id in st.chunks
  {
    var c := st.chunks[id];
    var st' := st.(transfers := st.transfers - {id});
    match c.status
    case SwapIn =>
      ClaimSwap(WithChunk(st', id, c.(status := if c.useCnt == 0 then Allocated else InUseRead)), -(c.size as int))
    case SwapOut =>
      ClaimRam(WithChunk(st', id, c.(status := Swapped, loc := NoBuffer)), -(c.size as int))
      .(memoryToBeFreed := st.memoryToBeFreed - c.size)
    case _ => st'
  }

  /** The tracker is decremented; whoever takes it to zero completes the transfer. */
  ghost function CountDown(st: System, id: nat, t: Transfer): System
    requires id in st.chunks
  {
    if t.tracker == 1 then Complete(st, id)
    else st.(transfers := st.transfers[id := t.(tracker := t.tracker - 1)])
  }

  /** The buffer and the disk area of a part. */
  ghost predicate PartInBounds(st: System, id: nat, part: nat) {
    && id in st.chunks && part < |st.chunks[id].swapBuf|
    && Fits(st.disk, Used(st.space), st.chunks[id].swapBuf)
    && Offsets(st.chunks[id].swapBuf) <= Used(st.space).Keys
    && st.chunks[id].loc.Buffer?
    && ChainSize(Used(st.space), st.chunks[id].swapBuf) == |st.chunks[id].loc.data|
  }

  /** The bytes of one part go to disk or come from there. */
  ghost function MovePart(st: System, id: nat, part: nat): System
    requires PartInBounds(st, id, part)
  {
    var c, u := st.chunks[id], Used(st.space);
    var k, off := c.swapBuf[part], PartOffset(u, c.swapBuf, part);
    PartOffsetBounds(u, c.swapBuf, part);
    if c.status.SwapOut? then
      st.(disk := Patch(st.disk, k, c.loc.data[off..off + u[k].size]))
    else
      WithChunk(st, id, c.(loc := c.loc.(data := Patch(c.loc.data, off, PartBytes(st.disk, u, k)))))
  }

  // ---------------------------------------------------------------- steps

  ghost predicate Enabled(g: Layout, st: System, e: Event) {
    match e
    case Mmalloc(id, sizereq, fill) =>
      && st.running.Idle? && id !in st.chunks && sizereq > 0 && |fill| == Pad(sizereq, g.align)
      && Pad(sizereq, g.align) + st.memoryUsed <= st.memoryMax
    case Mfree(id) =>
      st.running.Idle? && id in st.chunks && !st.chunks[id].status.InUse() && id !in st.transfers
    case SetUse(id, write) =>
      st.running.Idle? && id in st.chunks && st.chunks[id].status.Resident()
    case BeginUse(id) =>
      st.running.Idle? && id in st.chunks && !st.chunks[id].status.Resident()
    case FinishUse(id, write) =>
      st.running.Idle? && id in st.chunks && st.chunks[id].status.Resident() && st.chunks[id].useCnt > 0
    case UnsetUse(id, times) =>
      st.running.Idle? && id in st.chunks && 0 < times <= st.chunks[id].useCnt
    case Write(id, data) =>
      && id in st.chunks && st.chunks[id].status.InUse() && st.chunks[id].swapBuf == []
      && |data| == st.chunks[id].size && st.chunks[id].loc.Buffer?
    case SwapOutChunk(id) =>
      && st.running.Idle? && id in st.chunks && st.chunks[id].status.Allocated? && st.chunks[id].useCnt == 0
      && st.chunks[id].size > 0 && Valid(g, st.space)
    case SwapInChunk(id, fill) =>
      && st.running.Idle? && id in st.chunks && st.chunks[id].status.Swapped?
      && |fill| == st.chunks[id].size && st.chunks[id].size + st.memoryUsed <= st.memoryMax
    case Schedule =>
      && st.running.Copying? && st.running.id in st.chunks && st.running.id in st.transfers
      && st.transfers[st.running.id].scheduled < |st.chunks[st.running.id].swapBuf|
    case EndCopy =>
      && st.running.Copying? && st.running.id in st.chunks && st.running.id in st.transfers
      && st.transfers[st.running.id].scheduled == |st.chunks[st.running.id].swapBuf|
    case Arrive(id, part) =>
      id in st.transfers && part in st.transfers[id].inFlight && PartInBounds(st, id, part)
    case Cleanup(minimum) => st.running.Idle?
    case ExtendSwap(files, fill) => st.running.Idle? && |fill| == Times(files, g.page)
    case SetLimit(limit) => st.running.Idle? && st.memoryUsed - st.memoryToBeFreed <= limit
  }

  /** A use of a resident chunk begins: setUse once the chunk is there. fallThrough says that the caller
      had to wait for it. */
  ghost function Use(g: Layout, st: System, id: nat, write: bool, fallThrough: bool): System
    requires id in st.chunks
  {
    var c := st.chunks[id];
    if c.status.InUseWrite? && !fallThrough then st
    else if write then DropCopy(g, WithChunk(st, id, c.(status := InUseWrite)), id)
    else WithChunk(st, id, c.(status := InUseRead))
  }

  /** managedFileSwap::swapOut of one chunk. */
  ghost function SwapOutStep(g: Layout, st: System, id: nat): System
    requires Enabled(g, st, SwapOutChunk(id))
  {
    var c := st.chunks[id];
    if c.size > st.swapFree then st
    else if c.swapBuf != [] then
      ClaimSwap(ClaimRam(WithChunk(st, id, c.(status := Swapped, loc := NoBuffer)), -(c.size as int)), c.size)
    else
      var p := Pfmalloc(g, st, c.size, id);
      if p.outcome.Stored? then
        BeginCopy(ClaimSwap(WithChunk(p.st, id, c.(status := SwapOut, swapBuf := p.chain)), c.size)
                  .(memoryToBeFreed := st.memoryToBeFreed + c.size), id)
      else p.st
  }

  /** mfree of a chunk that it has seen in the given status. Its parts are given back once nothing is in
      flight for them any more; what it has seen may be out of date by then. */
  ghost function MfreeStep(g: Layout, st: System, id: nat, seen: MemoryStatus): System
    requires id in st.chunks
  {
    var c := st.chunks[id];
    var freed := if seen.Allocated? then ClaimRam(st, -(c.size as int)) else st;
    var dropped := DropCopy(g, freed, id);
    var claimed := if c.swapBuf != [] && c.loc.NoBuffer? then ClaimSwap(dropped, -(c.size as int)) else dropped;
    claimed.(chunks := claimed.chunks - {id})
  }

  ghost function Step(g: Layout, st: System, e: Event): System
    requires Enabled(g, st, e)
  {
    match e
    case Mmalloc(id, sizereq, fill) =>
      var size := Pad(sizereq, g.align);
      ClaimRam(WithChunk(st, id, Chunk(Allocated, 0, size, Buffer(st.nextAddress, fill), [])), size)
      .(nextAddress := st.nextAddress + 1)
    case Mfree(id) => MfreeStep(g, st, id, st.chunks[id].status)
    case SetUse(id, write) =>
      Use(g, WithChunk(st, id, st.chunks[id].(useCnt := st.chunks[id].useCnt + 1)), id, write, false)
    case BeginUse(id) =>
      WithChunk(st, id, st.chunks[id].(useCnt := st.chunks[id].useCnt + 1))
    case FinishUse(id, write) => Use(g, st, id, write, true)
    case UnsetUse(id, times) =>
      var c := st.chunks[id].(useCnt := st.chunks[id].useCnt - times);
      WithChunk(st, id, if c.status.Resident() && c.useCnt == 0 then c.(status := Allocated) else c)
    case Write(id, data) =>
      WithChunk(st, id, st.chunks[id].(loc := st.chunks[id].loc.(data := data)))
    case SwapOutChunk(id) => SwapOutStep(g, st, id)
    case SwapInChunk(id, fill) =>
      var c := st.chunks[id];
      BeginCopy(ClaimRam(WithChunk(st, id, c.(status := SwapIn, loc := Buffer(st.nextAddress, fill))), c.size)
                .(nextAddress := st.nextAddress + 1), id)
    case Schedule =>
      var id := st.running.id;
      var t := st.transfers[id];
      st.(transfers := st.transfers[id := Transfer(t.tracker + 1, t.guarded, t.scheduled + 1, t.inFlight + {t.scheduled})],
          queued := st.queued + 1)
    case EndCopy =>
      var id := st.running.id;
      CountDown(st, id, st.transfers[id].(guarded := false)).(running := Idle, queued := st.queued - 1)
    case Arrive(id, part) =>
      var t := st.transfers[id];
      CountDown(MovePart(st, id, part), id, t.(inFlight := t.inFlight - {part})).(queued := st.queued - 1)
    case Cleanup(minimum) => CleanFrom(g, st, minimum, -1, 0).st
    case ExtendSwap(files, fill) =>
      st.(space := Extend(g, st.space, files), disk := st.disk + fill, swapFree := st.swapFree + |fill|)
    case SetLimit(limit) => st.(memoryMax := limit)
  }

  /** A manager with a row of empty page files. */
  ghost function Start(g: Layout, files: nat, disk: Bytes, memoryMax: nat): System {
    System(memoryMax, 0, 0, 0, Times(files, g.page), 0, 0, map[], map[], Idle, Fresh(g, files), disk, 0)
  }

  /** A sequence of events; what cannot happen at its turn is skipped. */
  ghost function Run(g: Layout, st: System, es: seq<Event>): System
    decreases |es|
  {
    if es == [] then st
    else Run(g, if Enabled(g, st, es[0]) then Step(g, st, es[0]) else st, es[1..])
  }
}
