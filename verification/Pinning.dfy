/** A chunk that somebody uses stays where it is. */
module Pinning {
  import opened PageSpace
  import opened PageChains
  import opened Disk
  import opened ChunkStatus
  import opened Lifecycle
  import opened SwapInvariant
  import opened Invariant
  import opened Preservation
  import opened Arrivals
  import opened Reachable

  /** The chunk is in use, and so has a RAM buffer. */
  ghost predicate Held(st: System, id: nat) {
    id in st.chunks && st.chunks[id].status.InUse() && st.chunks[id].loc.Buffer?
  }

  /** The unsetUse that takes the last use off the chunk. */
  ghost predicate GivesUp(st: System, e: Event, id: nat) {
    e.UnsetUse? && e.id == id && id in st.chunks && e.times == st.chunks[id].useCnt
  }

  /** The last use is never given up during the run. */
  ghost predicate StaysInUse(g: Layout, st: System, es: seq<Event>, id: nat)
    decreases |es|
  {
    es == [] ||
    if Enabled(g, st, es[0]) then !GivesUp(st, es[0], id) && StaysInUse(g, Step(g, st, es[0]), es[1..], id)
    else StaysInUse(g, st, es[1..], id)
  }

  /** The chunk sits in the same buffer, no disk copy has appeared, and only a write changes the bytes. */
  ghost predicate SamePlace(st: System, st': System, id: nat)
    requires Held(st, id)
  {
    && Held(st', id)
    && st'.chunks[id].loc.address == st.chunks[id].loc.address
    && (st.chunks[id].swapBuf == [] ==> st'.chunks[id].swapBuf == [])
  }

  /** A successful setUse, immediate or after waiting for the chunk, leaves it in use; if it is for
      writing, no disk copy is left that could go stale. */
  lemma UsePins(g: Layout, st: System, e: Event)
    requires Inv(g, st) && Enabled(g, st, e) && (e.SetUse? || e.FinishUse?)
    ensures var st' := Step(g, st, e);
            Held(st', e.id) && st'.chunks[e.id].useCnt > 0
            && (e.write ==> st'.chunks[e.id].status.InUseWrite? && st'.chunks[e.id].swapBuf == [])
            && st'.chunks[e.id].loc == st.chunks[e.id].loc
  {
    hide SpaceOk, TransfersOk, DataOk, BooksOk, ReleaseChain;
    ShapeAt(g, st.chunks, e.id);
  }

  /** The counters and the other chunks may change, the chunk does not. */
  lemma SameChunk(st: System, st': System, id: nat)
    requires Held(st, id) && id in st'.chunks && (st'.chunks[id] == st.chunks[id] || st'.chunks[id] == st.chunks[id].(swapBuf := []))
    ensures SamePlace(st, st', id)
  {
  }

  lemma HeldSwapOut(g: Layout, st: System, i: nat, id: nat)
    requires Inv(g, st) && Held(st, id) && Enabled(g, st, SwapOutChunk(i))
    ensures SamePlace(st, SwapOutStep(g, st, i), id)
  {
    hide Inv, Valid, Pfmalloc, Placed, PlaceChain;
    var st' := SwapOutStep(g, st, i);
    if st.chunks[i].size <= st.swapFree && st.chunks[i].swapBuf == [] {
      var from, a := PfmallocFrom(g, st, st.chunks[i].size, i);
      PlacedFrom(from, a);
      assert id in from.chunks;
      assert st'.chunks[id] == from.chunks[id];
    }
    SameChunk(st, st', id);
  }

  lemma HeldArrive(g: Layout, st: System, i: nat, part: nat, id: nat)
    requires Inv(g, st) && Held(st, id) && Enabled(g, st, Arrive(i, part))
    ensures SamePlace(st, Step(g, st, Arrive(i, part)), id)
  {
    hide SpaceOk, ShapesOk, DataOk, BooksOk, Used, MovePart;
    TransferAt(g, st, i);
    MovePartShape(g, st, i, part);
    SameChunk(st, Step(g, st, Arrive(i, part)), id);
  }

  lemma HeldUse(g: Layout, st: System, e: Event, id: nat)
    requires Inv(g, st) && Held(st, id) && Enabled(g, st, e) && (e.SetUse? || e.FinishUse?)
    ensures SamePlace(st, Step(g, st, e), id)
  {
    hide SpaceOk, TransfersOk, DataOk, BooksOk, ReleaseChain;
  }

  /** Whatever happens in one step, short of the last unsetUse, the chunk stays. */
  lemma HeldStep(g: Layout, st: System, e: Event, id: nat)
    requires Inv(g, st) && Held(st, id) && Enabled(g, st, e) && !GivesUp(st, e, id)
    ensures SamePlace(st, Step(g, st, e), id)
  {
    hide Inv, Used, Use, SwapOutStep, CountDown, CleanFrom, MovePart, ReleaseChain, Overhead, Extend;
    match e
    case SetUse(i, write) => HeldUse(g, st, e, id);
    case FinishUse(i, write) => HeldUse(g, st, e, id);
    case SwapOutChunk(i) => HeldSwapOut(g, st, i, id);
    case EndCopy => HeldEndCopy(g, st, id);
    case Arrive(i, part) => HeldArrive(g, st, i, part, id);
    case Cleanup(minimum) => KeepsCleaning(g, st, minimum, -1, 0);
    case _ =>
  }

  lemma HeldEndCopy(g: Layout, st: System, id: nat)
    requires Inv(g, st) && Held(st, id) && Enabled(g, st, EndCopy)
    ensures SamePlace(st, Step(g, st, EndCopy), id)
  {
    hide SpaceOk, ShapesOk, DataOk, BooksOk, Used;
    TransferAt(g, st, st.running.id);
    SameChunk(st, Step(g, st, EndCopy), id);
  }

  /** From a successful setUse until its matching unsetUse the chunk stays resident in the same buffer in
      every interleaving, and a chunk that was taken for writing owns no disk copy all the while. */
  lemma {:induction false} Pinned(g: Layout, st: System, es: seq<Event>, id: nat)
    requires Inv(g, st) && Held(st, id) && StaysInUse(g, st, es, id)
    ensures SamePlace(st, Run(g, st, es), id)
    decreases |es|
  {
    hide Inv, Step, Enabled, GivesUp;
    if es != [] {
      if Enabled(g, st, es[0]) {
        KeepsStep(g, st, es[0]);
        HeldStep(g, st, es[0], id);
        Pinned(g, Step(g, st, es[0]), es[1..], id);
      } else {
        Pinned(g, st, es[1..], id);
      }
    }
  }

  /** And all the while nobody can free it, swap it out or start a transfer on it. */
  lemma HeldRefuses(g: Layout, st: System, id: nat, fill: Bytes)
    requires Inv(g, st) && Held(st, id)
    ensures !Enabled(g, st, Mfree(id)) && !Enabled(g, st, SwapOutChunk(id)) && !Enabled(g, st, SwapInChunk(id, fill))
    ensures id !in st.transfers
  {
    hide SpaceOk, DataOk, BooksOk;
  }

  // ---------------------------------------------------------------- a setUse that fails

  /** setUse counts the use before it tries to bring the chunk in, and does not take it back when that
      fails: only BeginUse has happened. */
  ghost predicate Counted(st: System, id: nat) {
    id in st.chunks && st.chunks[id].useCnt > 0
  }

  /** An mfree of the chunk happens during the run. */
  ghost predicate Freed(g: Layout, st: System, es: seq<Event>, id: nat)
    decreases |es|
  {
    es != [] &&
    if Enabled(g, st, es[0]) then es[0] == Mfree(id) || Freed(g, Step(g, st, es[0]), es[1..], id)
    else Freed(g, st, es[1..], id)
  }

  /** How many uses a step adds to those that are counted for the chunk. */
  ghost function UsesBegun(e: Event, id: nat): int {
    match e
    case SetUse(i, write) => if i == id then 1 else 0
    case BeginUse(i) => if i == id then 1 else 0
    case UnsetUse(i, times) => if i == id then -(times as int) else 0
    case _ => 0
  }

  /** The same for a run, in which only steps count that are taken. */
  ghost function UsesOver(g: Layout, st: System, es: seq<Event>, id: nat): int
    decreases |es|
  {
    if es == [] then 0
    else if Enabled(g, st, es[0]) then UsesBegun(es[0], id) + UsesOver(g, Step(g, st, es[0]), es[1..], id)
    else UsesOver(g, st, es[1..], id)
  }

  ghost predicate HasUses(st: System, id: nat, n: int) {
    id in st.chunks && st.chunks[id].useCnt == n
  }

  lemma UsesStep(g: Layout, st: System, e: Event, id: nat)
    requires Inv(g, st) && id in st.chunks && Enabled(g, st, e) && e != Mfree(id)
    ensures HasUses(Step(g, st, e), id, st.chunks[id].useCnt + UsesBegun(e, id))
  {
    hide Inv, Used, SwapOutStep, CountDown, CleanFrom, MovePart, ReleaseChain, Overhead, Extend;
    match e
    case SwapOutChunk(i) => UsesSwapOut(g, st, i, id);
    case EndCopy => UsesEndCopy(g, st, id);
    case Arrive(i, part) => UsesArrive(g, st, i, part, id);
    case Cleanup(minimum) => KeepsCleaning(g, st, minimum, -1, 0);
    case _ =>
  }

  lemma UsesSwapOut(g: Layout, st: System, i: nat, id: nat)
    requires Inv(g, st) && id in st.chunks && Enabled(g, st, SwapOutChunk(i))
    ensures HasUses(SwapOutStep(g, st, i), id, st.chunks[id].useCnt)
  {
    hide Inv, Valid, Pfmalloc, Placed, PlaceChain;
    if st.chunks[i].size <= st.swapFree && st.chunks[i].swapBuf == [] {
      var from, a := PfmallocFrom(g, st, st.chunks[i].size, i);
      PlacedFrom(from, a);
      assert id in from.chunks && from.chunks[id].useCnt == st.chunks[id].useCnt;
    }
  }

  lemma UsesEndCopy(g: Layout, st: System, id: nat)
    requires Inv(g, st) && id in st.chunks && Enabled(g, st, EndCopy)
    ensures HasUses(Step(g, st, EndCopy), id, st.chunks[id].useCnt)
  {
    hide Inv;
  }

  lemma UsesArrive(g: Layout, st: System, i: nat, part: nat, id: nat)
    requires Inv(g, st) && id in st.chunks && Enabled(g, st, Arrive(i, part))
    ensures HasUses(Step(g, st, Arrive(i, part)), id, st.chunks[id].useCnt)
  {
    hide SpaceOk, ShapesOk, DataOk, BooksOk, Used, MovePart;
    MovePartShape(g, st, i, part);
  }

  /** As long as a chunk is not freed, its use count is what it was, and one for each use that was begun, less what was given back:
      a use that fails has been counted like any other. */
  lemma {:induction false} UsesBalance(g: Layout, st: System, es: seq<Event>, id: nat)
    requires Inv(g, st) && id in st.chunks && !Freed(g, st, es, id)
    ensures HasUses(Run(g, st, es), id, st.chunks[id].useCnt + UsesOver(g, st, es, id))
    decreases |es|
  {
    hide Inv, Step, Enabled, UsesBegun;
    if es != [] {
      if Enabled(g, st, es[0]) {
        KeepsStep(g, st, es[0]);
        UsesStep(g, st, es[0], id);
        UsesBalance(g, Step(g, st, es[0]), es[1..], id);
      } else {
        UsesBalance(g, st, es[1..], id);
      }
    }
  }

  lemma CountedStep(g: Layout, st: System, e: Event, id: nat)
    requires Inv(g, st) && Counted(st, id) && Enabled(g, st, e) && !GivesUp(st, e, id) && e != Mfree(id)
    ensures Counted(Step(g, st, e), id)
  {
    hide Inv, Step;
    UsesStep(g, st, e, id);
  }

  /** A use that was counted and never given back keeps the chunk from being swapped out for good. */
  lemma {:induction false} CountedStays(g: Layout, st: System, es: seq<Event>, id: nat)
    requires Inv(g, st) && Counted(st, id) && StaysInUse(g, st, es, id) && !Freed(g, st, es, id)
    ensures Counted(Run(g, st, es), id) && !Enabled(g, Run(g, st, es), SwapOutChunk(id))
    decreases |es|
  {
    hide Inv, Step, GivesUp;
    if es != [] {
      if Enabled(g, st, es[0]) {
        KeepsStep(g, st, es[0]);
        CountedStep(g, st, es[0], id);
        CountedStays(g, Step(g, st, es[0]), es[1..], id);
      } else {
        CountedStays(g, st, es[1..], id);
      }
    }
  }
}
