/** A transfer completes exactly once, after its last part has arrived. */
module Completion {
  import opened Numbers
  import opened Totals
  import opened PageSpace
  import opened PageChains
  import opened ChunkStatus
  import opened Lifecycle
  import opened SwapInvariant
  import opened Invariant
  import opened Preservation
  import opened Arrivals
  import opened Reachable

  /** What still has to happen for a transfer: every part that is not scheduled yet has to be scheduled
      and to arrive, every part in flight has to arrive, and copyMem has to take its own count back. */
  ghost function Work(c: Chunk, t: Transfer): int {
    2 * (|c.swapBuf| - t.scheduled) + Load(t)
  }

  /** The step belongs to the transfer of chunk id. */
  ghost predicate Drives(st: System, e: Event, id: nat) {
    match e
    case Schedule => st.running == Copying(id)
    case EndCopy => st.running == Copying(id)
    case Arrive(i, part) => i == id
    case _ => false
  }

  /** The step takes the tracker of chunk id to zero, so that completeTransactionOn runs for it. */
  ghost predicate Completes(st: System, e: Event, id: nat) {
    (e.EndCopy? || e.Arrive?) && Drives(st, e, id) && id in st.transfers && st.transfers[id].tracker == 1
  }

  /** How completeTransactionOn leaves a chunk. */
  ghost function Settled(c: Chunk): MemoryStatus {
    if c.status.SwapOut? then Swapped else if c.useCnt == 0 then Allocated else InUseRead
  }

  lemma DrivenSchedule(g: Layout, st: System)
    requires Inv(g, st) && Enabled(g, st, Schedule)
    ensures var id, st' := st.running.id, Step(g, st, Schedule);
            && id in st'.transfers && st'.chunks == st.chunks
            && Work(st.chunks[id], st'.transfers[id]) == Work(st.chunks[id], st.transfers[id]) - 1
  {
    hide SpaceOk, ShapesOk, DataOk, BooksOk;
    var t := st.transfers[st.running.id];
    TransferAt(g, st, st.running.id);
    assert |t.inFlight + {t.scheduled}| == |t.inFlight| + 1;
  }

  /** Counting down in a state where the bytes have been moved. */
  lemma DrivenCountDown(st: System, id: nat, was: Transfer, t: Transfer)
    requires id in st.chunks && Moving(st.chunks[id]) && TransferOk(st.chunks[id], was)
    requires t.tracker == was.tracker && t.scheduled == was.scheduled && Load(t) == Load(was) - 1
    requires t.inFlight <= was.inFlight && (!t.guarded ==> t.scheduled == |st.chunks[id].swapBuf|)
    ensures var st', c := CountDown(st, id, t), st.chunks[id];
            && id in st'.chunks && (Work(c, was) == 1 <==> was.tracker == 1)
            && if was.tracker == 1 then id !in st'.transfers && st'.chunks[id].status == Settled(c)
               else id in st'.transfers && st'.chunks[id] == c && Work(c, st'.transfers[id]) == Work(c, was) - 1
  {
  }

  lemma DrivenArrive(g: Layout, st: System, id: nat, part: nat)
    requires Inv(g, st) && Enabled(g, st, Arrive(id, part))
    ensures Driven(st, Step(g, st, Arrive(id, part)), Arrive(id, part), id)
  {
    hide SpaceOk, ShapesOk, DataOk, BooksOk, Used, MovePart, CountDown, PartInBounds;
    TransferAt(g, st, id);
    MovePartShape(g, st, id, part);
    var t := st.transfers[id];
    assert |t.inFlight - {part}| == |t.inFlight| - 1;
    DrivenCountDown(MovePart(st, id, part), id, t, t.(inFlight := t.inFlight - {part}));
  }

  lemma DrivenEndCopy(g: Layout, st: System)
    requires Inv(g, st) && Enabled(g, st, EndCopy)
    ensures Driven(st, Step(g, st, EndCopy), EndCopy, st.running.id)
  {
    hide SpaceOk, ShapesOk, DataOk, BooksOk, Used, CountDown;
    var id := st.running.id;
    TransferAt(g, st, id);
    DrivenCountDown(st, id, st.transfers[id], st.transfers[id].(guarded := false));
  }

  /** One unit of work was done; with the last one the transfer is over. Before that the chunk is swapping
      in or out, after it neither. */
  ghost predicate Driven(st: System, st': System, e: Event, id: nat) {
    && id in st.transfers && id in st.chunks && id in st'.chunks && Moving(st.chunks[id])
    && var work := Work(st.chunks[id], st.transfers[id]);
       && work >= 1
       && (Completes(st, e, id) <==> work == 1)
       && if work == 1 then id !in st'.transfers && st'.chunks[id].status == Settled(st.chunks[id])
          else && id in st'.transfers && Work(st'.chunks[id], st'.transfers[id]) == work - 1
               && st'.chunks[id].status == st.chunks[id].status
  }

  /** Other steps leave the transfer alone. */
  ghost predicate Untouched(st: System, st': System, id: nat) {
    && id in st.transfers && id in st'.transfers && st'.transfers[id] == st.transfers[id]
    && id in st.chunks && id in st'.chunks && st'.chunks[id].swapBuf == st.chunks[id].swapBuf
    && st'.chunks[id].status == st.chunks[id].status
  }

  lemma UntouchedSwapOut(g: Layout, st: System, i: nat, id: nat)
    requires Inv(g, st) && id in st.transfers && Enabled(g, st, SwapOutChunk(i))
    ensures Untouched(st, SwapOutStep(g, st, i), id)
  {
    hide SpaceOk, ShapesOk, DataOk, BooksOk, Valid, Pfmalloc, Placed, PlaceChain, Used;
    TransferAt(g, st, id);
    if st.chunks[i].size <= st.swapFree && st.chunks[i].swapBuf == [] {
      var from, a := PfmallocFrom(g, st, st.chunks[i].size, i);
      PlacedFrom(from, a);
      assert id in from.chunks && from.chunks[id] == st.chunks[id];
    }
  }

  lemma UntouchedArrive(g: Layout, st: System, i: nat, part: nat, id: nat)
    requires Inv(g, st) && id in st.transfers && Enabled(g, st, Arrive(i, part)) && i != id
    ensures Untouched(st, Step(g, st, Arrive(i, part)), id)
  {
    hide SpaceOk, ShapesOk, DataOk, BooksOk, Used, MovePart;
    TransferAt(g, st, id);
    MovePartShape(g, st, i, part);
  }

  lemma UntouchedUse(g: Layout, st: System, e: Event, id: nat)
    requires Inv(g, st) && id in st.transfers && Enabled(g, st, e) && (e.SetUse? || e.FinishUse?)
    ensures Untouched(st, Step(g, st, e), id)
  {
    hide SpaceOk, ShapesOk, DataOk, BooksOk, Used, ReleaseChain, Overhead;
    TransferAt(g, st, id);
  }

  lemma UntouchedMfree(g: Layout, st: System, i: nat, id: nat)
    requires Enabled(g, st, Mfree(i))
    requires id in st.transfers && Inv(g, st)
    ensures Untouched(st, Step(g, st, Mfree(i)), id)
  {
    hide SpaceOk, ShapesOk, DataOk, BooksOk, Used, ReleaseChain, Overhead;
    TransferAt(g, st, id);
  }

  lemma UntouchedEndCopy(g: Layout, st: System, id: nat)
    requires Enabled(g, st, EndCopy)
    requires id in st.transfers && st.running.id != id && Inv(g, st)
    ensures Untouched(st, Step(g, st, EndCopy), id)
  {
    hide SpaceOk, ShapesOk, DataOk, BooksOk, Used;
    TransferAt(g, st, id);
  }

  lemma UntouchedStep(g: Layout, st: System, e: Event, id: nat)
    requires Inv(g, st) && id in st.transfers && Enabled(g, st, e) && !Drives(st, e, id)
    ensures Untouched(st, Step(g, st, e), id)
  {
    hide Inv, Used, Use, CleanFrom, MovePart, CountDown, SwapOutStep, MfreeStep, ReleaseChain, Overhead, ShapeOk,
      CopyOk, CopyFits, TransferOk, Extend;
    TransferAt(g, st, id);
    match e
    case EndCopy => UntouchedEndCopy(g, st, id);
    case Mfree(i) => UntouchedMfree(g, st, i, id);
    case SetUse(i, write) => UntouchedUse(g, st, e, id);
    case FinishUse(i, write) => UntouchedUse(g, st, e, id);
    case SwapOutChunk(i) => UntouchedSwapOut(g, st, i, id);
    case Arrive(i, part) => UntouchedArrive(g, st, i, part, id);
    case Cleanup(minimum) => KeepsCleaning(g, st, minimum, -1, 0);
    case _ =>
  }

  /** Each step either does one unit of the transfer's work, or does not concern it. */
  lemma TransferStep(g: Layout, st: System, e: Event, id: nat)
    requires Inv(g, st) && id in st.transfers && Enabled(g, st, e)
    ensures if Drives(st, e, id) then Driven(st, Step(g, st, e), e, id) else Untouched(st, Step(g, st, e), id)
  {
    hide SpaceOk, ShapesOk, DataOk, BooksOk, Used, CountDown, MovePart;
    if Drives(st, e, id) {
      match e
      case Schedule => DrivenSchedule(g, st); TransferAt(g, st, id);
      case EndCopy => DrivenEndCopy(g, st);
      case Arrive(i, part) => DrivenArrive(g, st, id, part);
    } else {
      UntouchedStep(g, st, e, id);
    }
  }

  /** There is always a step that does some of the work: transfers do not get stuck. */
  lemma NotStuck(g: Layout, st: System, id: nat) returns (e: Event)
    requires Inv(g, st) && id in st.transfers
    ensures Enabled(g, st, e) && Drives(st, e, id)
  {
    TransferAt(g, st, id);
    var t := st.transfers[id];
    if t.guarded {
      e := if t.scheduled < |st.chunks[id].swapBuf| then Schedule else EndCopy;
    } else {
      var part :| part in t.inFlight;
      e := Arrive(id, part);
      CopyOnDisk(g, st.space, st.disk, st.chunks[id]);
    }
  }

  // ---------------------------------------------------------------- whole runs

  /** How many steps of the run drive the transfer that is in progress for the chunk. */
  ghost function Drivings(g: Layout, st: System, es: seq<Event>, id: nat): nat
    decreases |es|
  {
    if es == [] || id !in st.transfers then 0
    else if Enabled(g, st, es[0]) then
      (if Drives(st, es[0], id) then 1 else 0) + Drivings(g, Step(g, st, es[0]), es[1..], id)
    else Drivings(g, st, es[1..], id)
  }

  /** The transfer comes to its end during the run. */
  ghost predicate Ends(g: Layout, st: System, es: seq<Event>, id: nat)
    decreases |es|
  {
    id !in st.transfers ||
    (es != [] && if Enabled(g, st, es[0]) then Ends(g, Step(g, st, es[0]), es[1..], id) else Ends(g, st, es[1..], id))
  }

  /** A transfer ends with exactly the last of its steps: whatever the order in which scheduling, arrivals and
      all other steps come, it takes the same number of them. */
  lemma {:induction false} EndsWhenDone(g: Layout, st: System, es: seq<Event>, id: nat)
    requires Inv(g, st) && id in st.transfers && id in st.chunks
    ensures Drivings(g, st, es, id) <= Work(st.chunks[id], st.transfers[id])
    ensures Ends(g, st, es, id) <==> Drivings(g, st, es, id) == Work(st.chunks[id], st.transfers[id])
    ensures !Ends(g, st, es, id) ==>
              var st' := Run(g, st, es);
              id in st'.transfers && id in st'.chunks
              && Work(st'.chunks[id], st'.transfers[id]) == Work(st.chunks[id], st.transfers[id]) - Drivings(g, st, es, id)
    decreases |es|
  {
    hide Inv, Step, Enabled, Drives, Completes;
    WorkLeft(g, st, id);
    if es != [] {
      if Enabled(g, st, es[0]) {
        KeepsStep(g, st, es[0]);
        TransferStep(g, st, es[0], id);
        if id in Step(g, st, es[0]).transfers {
          EndsWhenDone(g, Step(g, st, es[0]), es[1..], id);
        }
      } else {
        EndsWhenDone(g, st, es[1..], id);
      }
    }
  }

  lemma WorkLeft(g: Layout, st: System, id: nat)
    requires Inv(g, st) && id in st.transfers
    ensures id in st.chunks && Work(st.chunks[id], st.transfers[id]) >= 1
  {
    TransferAt(g, st, id);
  }

  /** A chunk of n parts: n times scheduling, n arrivals, and the end of copyMem. */
  lemma WorkOfCopy(g: Layout, st: System, e: Event, id: nat)
    requires Inv(g, st) && Enabled(g, st, e) && id !in st.transfers && id in Step(g, st, e).transfers
    ensures var st' := Step(g, st, e);
            id in st'.chunks && Work(st'.chunks[id], st'.transfers[id]) == 2 * |st'.chunks[id].swapBuf| + 1
  {
    hide SpaceOk, ShapesOk, DataOk, BooksOk, CleanFrom, Pfmalloc, MovePart, ReleaseChain, Overhead;
    if e.Cleanup? { KeepsCleaning(g, st, e.minimum, -1, 0); }
    if e.SwapOutChunk? { SwapOutFrom(g, st, e.id, id); }
    if e.Arrive? { MovePartShape(g, st, e.id, e.part); }
  }

  lemma SwapOutFrom(g: Layout, st: System, i: nat, id: nat)
    requires Inv(g, st) && Enabled(g, st, SwapOutChunk(i)) && id !in st.transfers
    ensures var st' := SwapOutStep(g, st, i);
            id in st'.transfers ==> id == i && i in st'.chunks && st'.transfers[id] == Transfer(1, true, 0, {})
  {
    hide Inv, Valid, Pfmalloc, Placed, PlaceChain;
    if st.chunks[i].size <= st.swapFree && st.chunks[i].swapBuf == [] {
      var from, a := PfmallocFrom(g, st, st.chunks[i].size, i);
      PlacedFrom(from, a);
    }
  }

  /** How often completeTransactionOn runs for the chunk. */
  ghost function Completions(g: Layout, st: System, es: seq<Event>, id: nat): nat
    decreases |es|
  {
    if es == [] then 0
    else if Enabled(g, st, es[0]) then
      (if Completes(st, es[0], id) then 1 else 0) + Completions(g, Step(g, st, es[0]), es[1..], id)
    else Completions(g, st, es[1..], id)
  }

  /** How often copyMem begins to copy the chunk. */
  ghost function Beginnings(g: Layout, st: System, es: seq<Event>, id: nat): nat
    decreases |es|
  {
    if es == [] then 0
    else if Enabled(g, st, es[0]) then
      (if id !in st.transfers && id in Step(g, st, es[0]).transfers then 1 else 0)
      + Beginnings(g, Step(g, st, es[0]), es[1..], id)
    else Beginnings(g, st, es[1..], id)
  }

  ghost function Ongoing(st: System, id: nat): nat { if id in st.transfers then 1 else 0 }

  /** Every transfer that begins completes exactly once, or is still in progress. */
  lemma {:induction false} OncePerTransfer(g: Layout, st: System, es: seq<Event>, id: nat)
    requires Inv(g, st)
    ensures Ongoing(st, id) + Beginnings(g, st, es, id) == Completions(g, st, es, id) + Ongoing(Run(g, st, es), id)
    decreases |es|
  {
    hide Inv, Step, Enabled, Drives;
    if es != [] {
      if Enabled(g, st, es[0]) {
        KeepsStep(g, st, es[0]);
        if id in st.transfers { CompletesNow(g, st, es[0], id); }
        OncePerTransfer(g, Step(g, st, es[0]), es[1..], id);
      } else {
        OncePerTransfer(g, st, es[1..], id);
      }
    }
  }

  lemma CompletesNow(g: Layout, st: System, e: Event, id: nat)
    requires Inv(g, st) && Enabled(g, st, e) && id in st.transfers
    ensures Completes(st, e, id) <==> id !in Step(g, st, e).transfers
  {
    hide Inv, Step, Enabled;
    TransferStep(g, st, e, id);
  }

  // ---------------------------------------------------------------- the queue counter

  ghost function PartsInFlight(t: Transfer): nat { |t.inFlight| }
  ghost function OpenCopy(t: Transfer): nat { if t.guarded then 1 else 0 }

  /** totalSwapActionsQueued is the number of parts in flight, plus one for a copyMem call that is running. */
  lemma QueueCounts(g: Layout, st: System)
    requires Inv(g, st)
    ensures st.queued == Total(st.transfers, PartsInFlight) + if st.running.Copying? then 1 else 0
    ensures st.queued == 0 <==> st.transfers == map[]
  {
    hide SpaceOk, ShapesOk, DataOk;
    TotalAdd(st.transfers, PartsInFlight, OpenCopy, Load);
    var ts := st.transfers;
    if st.running.Copying? {
      TotalSplit(ts, OpenCopy, st.running.id);
      TotalZero(ts - {st.running.id}, OpenCopy);
    } else {
      TotalZero(ts, OpenCopy);
    }
    TotalZero(ts, Load);
    if ts != map[] {
      var id :| id in ts;
      TransferAt(g, st, id);
    }
  }

  // ---------------------------------------------------------------- what is transferred

  lemma {:induction false} ChainAligned(g: Layout, u: Parts, ks: seq<nat>, id: nat, p: nat)
    requires IsChain(u, ks, id) && p < |ks| && Offsets(ks) <= u.Keys && Multiple(ChainSize(u, ks), g.align)
    requires forall k: nat :: k in u ==> Fitted(g, u[k]) && Multiple(u[k].extent, g.align)
    ensures Multiple(u[ks[p]].size, g.align)
  {
    if |ks| == 1 {
      assert ChainSize(u, ks[1..]) == 0;
    } else if p > 0 {
      MultipleSum(u[ks[0]].size, ChainSize(u, ks[1..]), g.align);
      ChainAligned(g, u, ks[1..], id, p - 1);
    }
  }

  /** scheduleCopy rounds the length of a part up to the alignment. That never reaches beyond the part: the
      sizes of all parts are aligned already. */
  lemma TransferLength(g: Layout, st: System, id: nat, p: nat)
    requires Inv(g, st) && id in st.chunks && p < |st.chunks[id].swapBuf|
    ensures st.chunks[id].swapBuf[p] in Used(st.space)
    ensures var n := Used(st.space)[st.chunks[id].swapBuf[p]].size; Pad(n, g.align) == n > 0
  {
    hide TransfersOk, DataOk, BooksOk;
    var u, ks := Used(st.space), st.chunks[id].swapBuf;
    ChainOf(g, st, id);
    forall k: nat | k in u
      ensures Fitted(g, u[k]) && Multiple(u[k].extent, g.align) && u[k].size > 0
    {
      ExtentAligned(g, st.space, k);
    }
    ChainAligned(g, u, ks, id, p);
    assert ks[p] in Offsets(ks);
    PadIsLeast(u[ks[p]].size, g.align);
  }
}
