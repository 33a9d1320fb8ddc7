/** When room can be made in RAM: what could leave it, what cannot, and whether the swap takes what is offered. */
module Capacity {
  import opened Numbers
  import opened Totals
  import opened PageSpace
  import opened PageChains
  import opened Lifecycle
  import opened SwapInvariant
  import opened Invariant
  import opened Preservation
  import opened Arrivals
  import opened Reachable
  import opened Refinement
  import opened Accounting
  import opened FileSwap
  import opened Choosing
  import U = Unloading
  import Cyclic = SwappingOut

  // ---------------------------------------------------------------- what is in RAM

  ghost function IdleSize(c: Chunk): nat { if c.status.Allocated? then c.size else 0 }

  /** Chunks in use or on their way in cannot be swapped out. */
  ghost function StuckSize(c: Chunk): nat { if c.status.InUse() || c.status.SwapIn? then c.size else 0 }

  ghost function IdleBytes(chunks: Chunks): nat { Total(chunks, IdleSize) }

  ghost function StuckBytes(chunks: Chunks): nat { Total(chunks, StuckSize) }

  lemma StayingBytes(st: System)
    requires BooksOk(st)
    ensures st.memoryUsed - st.memoryToBeFreed == IdleBytes(st.chunks) + StuckBytes(st.chunks)
  {
    TotalAdd(st.chunks, LeavingSize, StayingSize, RamSize);
    TotalAdd(st.chunks, IdleSize, StuckSize, StayingSize);
  }

  /** need bytes find a place once all idle chunks are gone, and all of these together fit into the free swap. */
  ghost predicate Movable(st: System, need: nat) {
    need + StuckBytes(st.chunks) <= st.memoryMax && IdleBytes(st.chunks) <= st.swapFree
  }

  /** A chunk that may have to be stored claims the swap that it needs, and what its last part may occupy beyond its data; the copy
      of a chunk in use is in the way of others. */
  ghost function Claim(g: Layout, c: Chunk): nat {
    if c.status.Allocated? then c.size + g.align + g.node
    else if c.status.InUse() && c.swapBuf != [] then c.size
    else if c.status.SwapIn? then g.align + g.node
    else 0
  }

  ghost function ClaimOf(g: Layout): Chunk -> nat { (c: Chunk) => Claim(g, c) }

  /** The same, with so much free swap that the swap can refuse nothing. */
  ghost predicate Roomy(g: Layout, st: System, need: nat) {
    need + StuckBytes(st.chunks) <= st.memoryMax && Total(st.chunks, ClaimOf(g)) <= st.swapFree
  }

  lemma {:induction false} TotalLeast<T>(m: map<nat, T>, f: T -> nat, h: T -> nat)
    requires forall k :: k in m ==> f(m[k]) <= h(m[k])
    ensures Total(m, f) <= Total(m, h)
    decreases |m|
  {
    if m != map[] {
      var j :| j in m;
      TotalSplit(m, f, j);
      TotalSplit(m, h, j);
      TotalLeast(m - {j}, f, h);
    }
  }

  lemma RoomyIsMovable(g: Layout, st: System, need: nat)
    requires Roomy(g, st, need)
    ensures Movable(st, need)
  {
    TotalLeast(st.chunks, IdleSize, ClaimOf(g));
  }

  // ---------------------------------------------------------------- what the swap refuses

  /** The swap refuses an idle chunk that it is offered. */
  ghost predicate RefusedAt(g: Layout, st: System, id: nat) {
    Enabled(g, st, SwapOutChunk(id)) && !Taken(g, st, id)
  }

  /** The step at k of this run offers a chunk, and it is refused. */
  ghost predicate RefusedStep(g: Layout, s0: System, es: seq<Event>, k: nat) {
    k < |es| && es[k].SwapOutChunk? && RefusedAt(g, Run(g, s0, es[..k]), es[k].id)
  }

  ghost predicate ThrownStep(g: Layout, s0: System, es: seq<Event>, k: nat) {
    k < |es| && es[k].SwapOutChunk? && ThrownAt(g, Run(g, s0, es[..k]), es[k].id)
  }

  /** Something is refused in the run es, not before its step from. */
  ghost predicate RefusedIn(g: Layout, s0: System, es: seq<Event>, from: nat) {
    exists k: nat :: from <= k && RefusedStep(g, s0, es, k)
  }

  /** pfmalloc throws in it. */
  ghost predicate ThrownIn(g: Layout, s0: System, es: seq<Event>, from: nat) {
    exists k: nat :: from <= k && ThrownStep(g, s0, es, k)
  }

  lemma RefusedMore(g: Layout, s0: System, es: seq<Event>, fs: seq<Event>, from: nat, at: nat)
    requires es <= fs && from <= at
    ensures RefusedIn(g, s0, es, at) ==> RefusedIn(g, s0, fs, from)
    ensures ThrownIn(g, s0, es, at) ==> ThrownIn(g, s0, fs, from)
  {
    hide RefusedAt, ThrownAt, Run;
    if k: nat :| at <= k && RefusedStep(g, s0, es, k) {
      assert fs[..k] == es[..k];
      assert RefusedStep(g, s0, fs, k);
    }
    if k: nat :| at <= k && ThrownStep(g, s0, es, k) {
      assert fs[..k] == es[..k];
      assert ThrownStep(g, s0, fs, k);
    }
  }

  lemma StepFrom(g: Layout, s0: System, es: seq<Event>, gs: seq<Event>, k: nat)
    ensures RefusedStep(g, s0, es + gs, |es| + k) <==> RefusedStep(g, Run(g, s0, es), gs, k)
    ensures ThrownStep(g, s0, es + gs, |es| + k) <==> ThrownStep(g, Run(g, s0, es), gs, k)
  {
    hide RefusedAt, ThrownAt, Run;
    if k < |gs| {
      assert (es + gs)[..|es| + k] == es + gs[..k];
      RunAppend(g, s0, es, gs[..k]);
    }
  }

  /** The run may as well be counted from where es has led. */
  lemma RefusedFrom(g: Layout, s0: System, es: seq<Event>, gs: seq<Event>, from: nat)
    ensures RefusedIn(g, s0, es + gs, |es| + from) <==> RefusedIn(g, Run(g, s0, es), gs, from)
    ensures ThrownIn(g, s0, es + gs, |es| + from) <==> ThrownIn(g, Run(g, s0, es), gs, from)
  {
    hide RefusedStep, ThrownStep, Run;
    var fs, s1 := es + gs, Run(g, s0, es);
    if k: nat :| |es| + from <= k && RefusedStep(g, s0, fs, k) {
      StepFrom(g, s0, es, gs, k - |es|);
    }
    if k: nat :| |es| + from <= k && ThrownStep(g, s0, fs, k) {
      StepFrom(g, s0, es, gs, k - |es|);
    }
    if k: nat :| from <= k && RefusedStep(g, s1, gs, k) {
      StepFrom(g, s0, es, gs, k);
      var j: nat := |es| + k;
      assert |es| + from <= j && RefusedStep(g, s0, fs, j);
    }
    if k: nat :| from <= k && ThrownStep(g, s1, gs, k) {
      StepFrom(g, s0, es, gs, k);
      var j: nat := |es| + k;
      assert |es| + from <= j && ThrownStep(g, s0, fs, j);
    }
  }

  lemma ThrownIsRefused(g: Layout, s0: System, es: seq<Event>, from: nat)
    ensures ThrownIn(g, s0, es, from) ==> RefusedIn(g, s0, es, from)
  {
    hide Run;
    if k: nat :| from <= k && ThrownStep(g, s0, es, k) {
      assert RefusedStep(g, s0, es, k);
    }
  }

  /** The chunk offered next is refused, or pfmalloc throws. */
  lemma RefusedNow(g: Layout, s0: System, es: seq<Event>, gs: seq<Event>, id: nat)
    requires gs != [] && gs[0] == SwapOutChunk(id)
    ensures RefusedAt(g, Run(g, s0, es), id) ==> RefusedIn(g, s0, es + gs, |es|)
    ensures ThrownAt(g, Run(g, s0, es), id) ==> ThrownIn(g, s0, es + gs, |es|)
  {
    hide RefusedAt, ThrownAt, Run;
    assert (es + gs)[..|es|] == es && (es + gs)[|es|] == SwapOutChunk(id);
    assert RefusedAt(g, Run(g, s0, es), id) ==> RefusedStep(g, s0, es + gs, |es|);
    assert ThrownAt(g, Run(g, s0, es), id) ==> ThrownStep(g, s0, es + gs, |es|);
  }

  // ---------------------------------------------------------------- what is selected

  /** What the first n of the victims weigh. */
  ghost function SizesOf(chunks: Chunks, victims: seq<nat>, n: nat): nat
    requires n <= |victims|
  {
    if n == 0 then 0
    else SizesOf(chunks, victims, n - 1) + if victims[n - 1] in chunks then chunks[victims[n - 1]].size else 0
  }

  lemma {:induction false} ChosenSizes(chunks: Chunks, ids: seq<nat>, ps: seq<nat>, n: nat)
    requires (forall id :: id in ids ==> id in chunks) && n <= |ps| && U.Positions(RingOf(chunks, ids), ps)
    ensures U.Positions(RingOf(chunks, ids), ps[..n]) && U.Bytes(RingOf(chunks, ids), ps[..n]) == SizesOf(chunks, IdsAt(ids, ps), n)
    decreases n
  {
    if n > 0 {
      ChosenSizes(chunks, ids, ps, n - 1);
      Cyclic.BytesAppend(RingOf(chunks, ids), ps[..n - 1], ps[n - 1]);
      assert ps[..n] == ps[..n - 1] + [ps[n - 1]];
    }
  }

  ghost function FirstOf(victims: seq<nat>, n: nat): set<nat>
    requires n <= |victims|
  {
    set q | 0 <= q < n :: victims[q]
  }

  /** The victims and the other idle chunks together are all idle chunks. */
  lemma {:induction false} RestIdle(chunks: Chunks, victims: seq<nat>, n: nat)
    requires n <= |victims| && NoneTwice(victims)
    requires forall id :: id in victims ==> id in chunks && chunks[id].status.Allocated?
    ensures SizesOf(chunks, victims, n) + Total(chunks - FirstOf(victims, n), IdleSize) == IdleBytes(chunks)
    decreases n
  {
    if n == 0 {
      assert chunks - FirstOf(victims, 0) == chunks;
    } else {
      RestIdle(chunks, victims, n - 1);
      var id, rest := victims[n - 1], chunks - FirstOf(victims, n - 1);
      assert id in victims;
      assert FirstOf(victims, n) == FirstOf(victims, n - 1) + {id};
      assert id in rest;
      TotalSplit(rest, IdleSize, id);
      assert rest - {id} == chunks - FirstOf(victims, n);
    }
  }

  /** If all idle chunks fit into the free swap, the selection reaches what they can give. */
  lemma ChoiceReaches(g: Layout, st: System, ids: seq<nat>, aim: nat, free: nat, victims: seq<nat>, planned: nat, minSize: nat)
    requires Inv(g, st) && GreedyChoice(st.chunks, ids, aim, free, victims, planned)
    ensures planned == SizesOf(st.chunks, victims, |victims|) && planned <= IdleBytes(st.chunks)
    ensures minSize <= aim && minSize <= IdleBytes(st.chunks) <= free ==> planned >= minSize
  {
    hide SpaceOk, TransfersOk, DataOk, BooksOk, U.Victims, U.Bytes, IdleSize;
    var chunks := st.chunks;
    var ps := U.Victims(RingOf(chunks, ids), aim, free, 0);
    ChosenSizes(chunks, ids, ps, |ps|);
    assert ps[..|ps|] == ps;
    ChoiceFits(chunks, ids, aim, free, victims, planned);
    RestIdle(chunks, victims, |victims|);
    if planned < minSize <= aim && minSize <= IdleBytes(chunks) <= free {
      var rest := chunks - FirstOf(victims, |victims|);
      forall id | id in rest
        ensures IdleSize(rest[id]) == 0
      {
        NotIdle(g, st, victims, planned, free, id);
      }
      TotalZero(rest, IdleSize);
    }
  }

  lemma NotIdle(g: Layout, st: System, victims: seq<nat>, planned: nat, free: nat, id: nat)
    requires ShapesOk(g, st.chunks) && id in st.chunks - FirstOf(victims, |victims|)
    requires planned + Total(st.chunks - FirstOf(victims, |victims|), IdleSize) == IdleBytes(st.chunks) <= free
    requires forall i :: i in st.chunks && st.chunks[i].status.Allocated? && st.chunks[i].useCnt == 0 && i !in victims ==>
                           st.chunks[i].size + planned > free
    ensures IdleSize(st.chunks[id]) == 0
  {
    ShapeAt(g, st.chunks, id);
    TotalSplit(st.chunks - FirstOf(victims, |victims|), IdleSize, id);
    AmongFirst(victims, id);
  }

  lemma AmongFirst(victims: seq<nat>, id: nat)
    ensures id in victims <==> id in FirstOf(victims, |victims|)
  {
    if id in victims {
      var q :| 0 <= q < |victims| && victims[q] == id;
      assert victims[q] in FirstOf(victims, |victims|);
    }
  }

  // ---------------------------------------------------------------- making room

  /** Steps by which the manager makes room; none brings a chunk in. */
  ghost predicate Making(e: Event) {
    e.SwapOutChunk? || e.Schedule? || e.EndCopy? || e.Arrive? || e.Cleanup? || e.ExtendSwap?
  }

  /** fs goes on from es by such steps. */
  ghost predicate OnlyRoom(es: seq<Event>, fs: seq<Event>) {
    es <= fs && forall k :: |es| <= k < |fs| ==> Making(fs[k])
  }

  lemma OnlyRoomTwice(es: seq<Event>, fs: seq<Event>, gs: seq<Event>)
    requires OnlyRoom(es, fs) && OnlyRoom(fs, gs)
    ensures OnlyRoom(es, gs)
  {
  }

  lemma OnlyRoomMore(es: seq<Event>, gs: seq<Event>)
    requires forall e :: e in gs ==> Making(e)
    ensures OnlyRoom(es, es + gs)
  {
  }

  /** What one chunk counts for, before and after it has changed. */
  lemma SumsFollow(g: Layout, chunks: Chunks, id: nat, c: Chunk)
    requires id in chunks
    ensures StuckBytes(chunks[id := c]) == StuckBytes(chunks) - StuckSize(chunks[id]) + StuckSize(c)
    ensures Total(chunks[id := c], ClaimOf(g)) == Total(chunks, ClaimOf(g)) - Claim(g, chunks[id]) + Claim(g, c)
  {
    TotalUpdate(chunks, StuckSize, id, c);
    TotalUpdate(chunks, ClaimOf(g), id, c);
  }

  /** With so much free swap each idle chunk is taken. */
  lemma RoomyTakes(g: Layout, st: System, need: nat, id: nat)
    requires Inv(g, st) && Roomy(g, st, need) && Enabled(g, st, SwapOutChunk(id))
    ensures Taken(g, st, id) && (st.chunks[id].swapBuf == [] ==> st.chunks[id].size <= FreeBytes(st.space))
  {
    hide SpaceOk, ShapesOk, TransfersOk, DataOk, FreeBytes, Valid;
    var c := st.chunks[id];
    TotalSplit(st.chunks, ClaimOf(g), id);
    TotalSplit(st.chunks, CachedSize, id);
    TotalLeast(st.chunks - {id}, CachedSize, ClaimOf(g));
    if c.swapBuf == [] {
      SomeFree(st.space);
    }
  }

  /** What the new copy of a chunk occupies beyond its data. */
  lemma StoredOverhead(g: Layout, st: System, id: nat)
    requires SpaceOk(g, st.space, st.disk, st.chunks) && id in st.chunks && st.chunks[id].swapBuf != []
    ensures 0 <= OverheadOf(st.space, st.chunks[id].swapBuf) <= g.align + g.node
  {
    var own, u := Own(st.chunks), Used(st.space);
    assert id in own && own[id] == st.chunks[id].swapBuf;
    OverheadIsLast(g, u, own[id], id);
    var last := own[id][|own[id]| - 1];
    assert last in Offsets(own[id]);
    assert Fitted(g, u[last]);
    PadIsLeast(u[last].size, g.align);
  }

  lemma RoomySwapOut(g: Layout, st: System, need: nat, id: nat)
    requires Inv(g, st) && Roomy(g, st, need) && Enabled(g, st, SwapOutChunk(id))
    ensures Roomy(g, SwapOutStep(g, st, id), need)
  {
    hide SpaceOk, ShapesOk, TransfersOk, DataOk, BooksOk, FreeBytes, Valid, Alloc, Fitting;
    RoomyTakes(g, st, need, id);
    KeepsStep(g, st, SwapOutChunk(id));
    var c, st' := st.chunks[id], SwapOutStep(g, st, id);
    SumsFollow(g, st.chunks, id, st'.chunks[id]);
    if c.swapBuf == [] {
      AllocPlaced(g, st.space, c.size, id);
      PlacedNonempty(g, st.space, c.size, id, Alloc(g, st.space, c.size, id));
      StoredOverhead(g, st', id);
    }
  }

  // ---------------------------------------------------------------- room is kept

  /** The end of a transfer: an idle chunk more claims what the free swap has grown by. */
  lemma RoomyComplete(g: Layout, st: System, need: nat, id: nat)
    requires Roomy(g, st, need) && id in st.chunks
    ensures Roomy(g, Complete(st, id), need)
  {
    SumsFollow(g, st.chunks, id, Complete(st, id).chunks[id]);
    assert st.chunks == st.chunks[id := st.chunks[id]];
  }

  lemma RoomyCountDown(g: Layout, st: System, need: nat, id: nat, t: Transfer, st': System)
    requires Roomy(g, st, need) && id in st.chunks
    requires var d := CountDown(st, id, t); st'.chunks == d.chunks && st'.swapFree == d.swapFree && st'.memoryMax == d.memoryMax
    ensures Roomy(g, st', need)
  {
    hide Complete;
    RoomyComplete(g, st, need, id);
    CompleteLimit(st, id);
  }

  lemma CompleteLimit(st: System, id: nat)
    requires id in st.chunks
    ensures Complete(st, id).memoryMax == st.memoryMax
  {
  }

  lemma RoomyMoved(g: Layout, st: System, need: nat, id: nat, part: nat)
    requires Inv(g, st) && id in st.transfers && PartInBounds(st, id, part) && Roomy(g, st, need)
    ensures var st' := MovePart(st, id, part); Roomy(g, st', need) && id in st'.chunks
  {
    hide Inv, MovePart, PartInBounds;
    TransferAt(g, st, id);
    MovePartShape(g, st, id, part);
    var st' := MovePart(st, id, part);
    SumsFollow(g, st.chunks, id, st'.chunks[id]);
  }

  /** Cleaning gives overhead back, and chunks in use no longer hold copies. */
  lemma RoomyCleaned(g: Layout, st: System, need: nat, minimum: nat)
    requires Inv(g, st) && Roomy(g, st, need)
    ensures Roomy(g, CleanFrom(g, st, minimum, -1, 0).st, need)
  {
    hide Inv, CleanFrom;
    var r := CleanFrom(g, st, minimum, -1, 0);
    KeepsCleaning(g, st, minimum, -1, 0);
    CleanedClaims(g, st.chunks, r.st.chunks);
    SwapFreeGrows(g, st, minimum);
  }

  lemma CleanedClaims(g: Layout, a: Chunks, b: Chunks)
    requires a.Keys == b.Keys && forall id :: id in a ==> b[id] == a[id] || (Cached(a[id]) && b[id] == a[id].(swapBuf := []))
    ensures StuckBytes(b) == StuckBytes(a) && Total(b, ClaimOf(g)) <= Total(a, ClaimOf(g))
  {
    TotalNoMore(a, b, ClaimOf(g));
    TotalNoMore(a, b, StuckSize);
    TotalNoMore(b, a, StuckSize);
  }

  lemma {:induction false} TotalNoMore(a: Chunks, b: Chunks, f: Chunk -> nat)
    requires a.Keys == b.Keys && forall k :: k in a ==> f(b[k]) <= f(a[k])
    ensures Total(b, f) <= Total(a, f)
    decreases |a|
  {
    if a == map[] {
      assert b == map[];
    } else {
      var j :| j in a;
      TotalSplit(a, f, j);
      TotalSplit(b, f, j);
      TotalNoMore(a - {j}, b - {j}, f);
    }
  }

  lemma SwapFreeGrows(g: Layout, st: System, minimum: nat)
    requires Inv(g, st)
    ensures CleanFrom(g, st, minimum, -1, 0).st.swapFree >= st.swapFree
  {
    hide SpaceOk, ShapesOk, TransfersOk, DataOk, CleanFrom, FreeBytes;
    KeepsCleaning(g, st, minimum, -1, 0);
    CleaningExact(g, st, minimum, -1, 0);
  }

  /** No step of making room takes away from it. */
  lemma RoomyStep(g: Layout, st: System, need: nat, e: Event)
    requires Inv(g, st) && Enabled(g, st, e) && Making(e) && Roomy(g, st, need)
    ensures Roomy(g, Step(g, st, e), need)
  {
    hide Inv, Roomy, MovePart, PartInBounds, CountDown, CleanFrom, SwapOutStep;
    match e
    case SwapOutChunk(id) => RoomySwapOut(g, st, need, id);
    case Schedule => SameRoom(g, st, Step(g, st, e), need);
    case EndCopy =>
      var id := st.running.id;
      RoomyCountDown(g, st, need, id, st.transfers[id].(guarded := false), Step(g, st, e));
    case Arrive(id, part) =>
      var t := st.transfers[id];
      RoomyMoved(g, st, need, id, part);
      RoomyCountDown(g, MovePart(st, id, part), need, id, t.(inFlight := t.inFlight - {part}), Step(g, st, e));
    case Cleanup(minimum) => RoomyCleaned(g, st, need, minimum);
    case ExtendSwap(files, fill) => SameRoom(g, st, Step(g, st, e), need);
  }

  lemma SameRoom(g: Layout, st: System, st': System, need: nat)
    requires Roomy(g, st, need) && st'.chunks == st.chunks && st'.memoryMax == st.memoryMax && st'.swapFree >= st.swapFree
    ensures Roomy(g, st', need)
  {
  }

  /** While room is made, there stays room, and the swap refuses nothing. */
  lemma {:induction false} RoomyRun(g: Layout, st: System, need: nat, es: seq<Event>)
    requires Inv(g, st) && Roomy(g, st, need) && forall e :: e in es ==> Making(e)
    ensures Roomy(g, Run(g, st, es), need) && !RefusedIn(g, st, es, 0)
    decreases |es|
  {
    hide Inv, Roomy, Step, Enabled, RefusedAt, ThrownAt;
    if es == [] {
      assert !RefusedIn(g, st, es, 0);
    } else {
      var e, rest := es[0], es[1..];
      var st' := if Enabled(g, st, e) then Step(g, st, e) else st;
      assert e in es;
      if Enabled(g, st, e) {
        RoomyStep(g, st, need, e);
        KeepsStep(g, st, e);
      }
      RoomyRun(g, st', need, rest);
      assert es == [e] + rest && Run(g, st, [e]) == st' by { assert [e][1..] == []; }
      FirstTaken(g, st, need, e);
      assert es[..0] == [];
      forall k: nat
        ensures !RefusedStep(g, st, es, k)
      {
        if k > 0 { StepFrom(g, st, [e], rest, k - 1); }
      }
    }
  }

  lemma FirstTaken(g: Layout, st: System, need: nat, e: Event)
    requires Inv(g, st) && Roomy(g, st, need)
    ensures e.SwapOutChunk? ==> !RefusedAt(g, st, e.id)
  {
    hide Inv, Roomy, Enabled, Taken;
    if e.SwapOutChunk? && RefusedAt(g, st, e.id) {
      RoomyTakes(g, st, need, e.id);
    }
  }

  /** The same for the part of a run that goes on from es. */
  lemma StaysRoomy(g: Layout, s0: System, es: seq<Event>, fs: seq<Event>, need: nat)
    requires Inv(g, Run(g, s0, es)) && Roomy(g, Run(g, s0, es), need) && OnlyRoom(es, fs)
    ensures Roomy(g, Run(g, s0, fs), need) && !RefusedIn(g, s0, fs, |es|)
  {
    hide Inv, Roomy, Run, Making;
    var gs := fs[|es|..];
    assert fs == es + gs;
    forall e | e in gs
      ensures Making(e)
    {
      var k :| 0 <= k < |gs| && gs[k] == e;
      assert fs[|es| + k] == e;
    }
    RoomyRun(g, Run(g, s0, es), need, gs);
    RunAppend(g, s0, es, gs);
    RefusedFrom(g, s0, es, gs, 0);
  }
}
