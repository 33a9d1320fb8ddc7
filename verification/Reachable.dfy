/** The invariant holds in every state that a run can reach. */
module Reachable {
  import opened Numbers
  import opened PageSpace
  import opened PageChains
  import opened Disk
  import opened Lifecycle
  import opened SwapInvariant
  import opened Invariant
  import opened Preservation
  import opened Arrivals

  lemma KeepsExtendSwap(g: Layout, st: System, files: nat, fill: Bytes)
    requires Inv(g, st) && Enabled(g, st, ExtendSwap(files, fill))
    ensures Inv(g, Step(g, st, ExtendSwap(files, fill)))
  {
    hide SpaceOk, ShapesOk, TransfersOk, FreeBytes, Used, CopyOk;
    SpaceExtended(g, st.space, st.disk, st.chunks, files, fill);
    DataExtended(Used(st.space), st.disk, fill, st.chunks, st.transfers);
  }

  /** Bytes that are added behind the end do not change what can be read. */
  lemma DataExtended(u: Parts, disk: Bytes, fill: Bytes, chunks: Chunks, ts: Transfers)
    requires DataOk(u, disk, chunks, ts)
    ensures DataOk(u, disk + fill, chunks, ts)
  {
    hide CopyOk;
    forall i | i in chunks && chunks[i].swapBuf != []
      ensures CopyOk(u, disk + fill, chunks[i], ts, i)
    {
      assert CopyOk(u, disk, chunks[i], ts, i);
      CopyExtended(u, disk, fill, chunks[i], ts, i);
    }
  }

  lemma CopyExtended(u: Parts, disk: Bytes, fill: Bytes, c: Chunk, ts: Transfers, id: nat)
    requires CopyOk(u, disk, c, ts, id)
    ensures CopyOk(u, disk + fill, c, ts, id)
  {
    forall k: nat | k in c.swapBuf
      ensures PartBytes(disk, u, k) == PartBytes(disk + fill, u, k)
    {
      assert k + u[k].size <= |disk|;
    }
    CopyKept(disk, disk + fill, u, u, c, ts, ts, id);
  }

  /** Whatever happens next, the invariant is kept. */
  lemma KeepsStep(g: Layout, st: System, e: Event)
    requires Inv(g, st) && Enabled(g, st, e)
    ensures Inv(g, Step(g, st, e))
  {
    hide Inv;
    match e
    case Mmalloc(id, sizereq, fill) => KeepsMmalloc(g, st, id, sizereq, fill);
    case Mfree(id) => KeepsMfree(g, st, id);
    case SetUse(id, write) => KeepsUse(g, st, id, write, st.chunks[id].useCnt + 1, false);
    case BeginUse(id) => KeepsBeginUse(g, st, id);
    case FinishUse(id, write) => KeepsFinishUse(g, st, id, write);
    case UnsetUse(id, times) => KeepsUnsetUse(g, st, id, times);
    case Write(id, data) => KeepsWrite(g, st, id, data);
    case SwapOutChunk(id) => KeepsSwapOut(g, st, id);
    case SwapInChunk(id, fill) => KeepsSwapIn(g, st, id, fill);
    case Schedule => KeepsSchedule(g, st);
    case EndCopy => KeepsEndCopy(g, st);
    case Arrive(id, part) => KeepsArrive(g, st, id, part);
    case Cleanup(minimum) => KeepsCleaning(g, st, minimum, -1, 0);
    case ExtendSwap(files, fill) => KeepsExtendSwap(g, st, files, fill);
    case SetLimit(limit) => KeepsSetLimit(g, st, limit);
  }

  lemma KeepsFinishUse(g: Layout, st: System, id: nat, write: bool)
    requires Inv(g, st) && Enabled(g, st, FinishUse(id, write))
    ensures Inv(g, Step(g, st, FinishUse(id, write)))
  {
    hide Inv, Use;
    var c := st.chunks[id];
    assert WithChunk(st, id, c.(useCnt := c.useCnt)) == st by { assert st.chunks[id := c] == st.chunks; }
    KeepsUse(g, st, id, write, c.useCnt, true);
  }

  lemma KeepsSetLimit(g: Layout, st: System, limit: nat)
    requires Inv(g, st) && Enabled(g, st, SetLimit(limit))
    ensures Inv(g, Step(g, st, SetLimit(limit)))
  {
    hide SpaceOk, ShapesOk, TransfersOk, DataOk;
  }

  lemma {:induction false} KeepsRun(g: Layout, st: System, es: seq<Event>)
    requires Inv(g, st)
    ensures Inv(g, Run(g, st, es))
    decreases |es|
  {
    hide Inv, Step, Enabled;
    if es != [] {
      if Enabled(g, st, es[0]) {
        KeepsStep(g, st, es[0]);
        KeepsRun(g, Step(g, st, es[0]), es[1..]);
      } else {
        KeepsRun(g, st, es[1..]);
      }
    }
  }

  lemma StartInv(g: Layout, files: nat, disk: Bytes, memoryMax: nat)
    requires |disk| == Times(files, g.page)
    ensures Inv(g, Start(g, files, disk, memoryMax))
  {
    FreshValid(g, files);
    BytesAddUp(g, Fresh(g, files));
  }

  /** Every reachable state satisfies the invariant. */
  lemma ReachableInv(g: Layout, files: nat, disk: Bytes, memoryMax: nat, es: seq<Event>)
    requires |disk| == Times(files, g.page)
    ensures Inv(g, Run(g, Start(g, files, disk, memoryMax), es))
  {
    hide Inv;
    StartInv(g, files, disk, memoryMax);
    KeepsRun(g, Start(g, files, disk, memoryMax), es);
  }
}
