/** Asynchronous copying keeps the invariant, whatever the order of scheduling and arrivals. */
module Arrivals {
  import opened Totals
  import opened PageSpace
  import opened PageChains
  import opened Disk
  import opened Ownership
  import opened ChunkStatus
  import opened Lifecycle
  import opened SwapInvariant
  import opened Invariant
  import opened Preservation

  lemma KeepsSwapIn(g: Layout, st: System, id: nat, fill: Bytes)
    requires Inv(g, st) && Enabled(g, st, SwapInChunk(id, fill))
    ensures Inv(g, Step(g, st, SwapInChunk(id, fill)))
  {
    hide SpaceOk, ShapesOk, TransfersOk, BooksOk, FreeBytes, Used, Fits;
    var c := st.chunks[id];
    var c' := c.(status := SwapIn, loc := Buffer(st.nextAddress, fill));
    var st' := Step(g, st, SwapInChunk(id, fill));
    ShapeAt(g, st.chunks, id);
    NothingNegative(st);
    SpaceSet(g, st.space, st.disk, st.chunks, id, c');
    ShapesSet(g, st.chunks, id, c');
    TransfersBegin(st.chunks, st.transfers, id, c');
    assert CopyOk(Used(st.space), st.disk, c, st.transfers, id);
    DataSet(Used(st.space), st.disk, st.chunks, st.transfers, st'.transfers, id, c');
    BooksSet(st, st', id, c');
  }

  /** A transfer in progress, and what the invariant says of it. */
  lemma TransferAt(g: Layout, st: System, id: nat)
    requires Inv(g, st) && id in st.transfers
    ensures id in st.chunks && Moving(st.chunks[id]) && TransferOk(st.chunks[id], st.transfers[id])
    ensures ShapeOk(g, st.chunks[id]) && CopyOk(Used(st.space), st.disk, st.chunks[id], st.transfers, id)
    ensures CopyFits(Used(st.space), st.chunks[id])
    ensures st.transfers[id].guarded <==> st.running == Copying(id)
  {
  }

  lemma KeepsSchedule(g: Layout, st: System)
    requires Inv(g, st) && Enabled(g, st, Schedule)
    ensures Inv(g, Step(g, st, Schedule))
  {
    hide SpaceOk, ShapesOk, TransfersOk, DataOk, BooksOk, Used;
    var st' := Step(g, st, Schedule);
    TransferAt(g, st, st.running.id);
    TransfersScheduled(st, st');
    DataScheduled(st, st');
    BooksScheduled(st, st');
  }

  lemma BooksScheduled(st: System, st': System)
    requires BooksOk(st) && st' == st.(transfers := st'.transfers, queued := st.queued + 1)
    requires Total(st'.transfers, Load) == Total(st.transfers, Load) + 1
    ensures BooksOk(st')
  {
  }

  ghost predicate Scheduled(st: System, st': System) {
    && st.running.Copying? && st.running.id in st.transfers && st.running.id in st.chunks
    && var id, t := st.running.id, st.transfers[st.running.id];
       && t.scheduled < |st.chunks[id].swapBuf|
       && st'.transfers
       == st.transfers[id := Transfer(t.tracker + 1, t.guarded, t.scheduled + 1, t.inFlight + {t.scheduled})]
  }

  lemma TransfersScheduled(st: System, st': System)
    requires TransfersOk(st.chunks, st.transfers, st.running) && Scheduled(st, st')
    ensures TransfersOk(st.chunks, st'.transfers, st.running)
    ensures Total(st'.transfers, Load) == Total(st.transfers, Load) + 1
  {
    var id, t := st.running.id, st.transfers[st.running.id];
    assert |t.inFlight + {t.scheduled}| == |t.inFlight| + 1;
    TotalUpdate(st.transfers, Load, id, st'.transfers[id]);
  }

  lemma DataScheduled(st: System, st': System)
    requires DataOk(Used(st.space), st.disk, st.chunks, st.transfers) && Scheduled(st, st')
    requires st.running.id in st.chunks && Moving(st.chunks[st.running.id])
    ensures DataOk(Used(st.space), st.disk, st.chunks, st'.transfers)
  {
    hide Used, Fits, PartAgrees;
    var id := st.running.id;
    assert CopyOk(Used(st.space), st.disk, st.chunks[id], st.transfers, id);
    DataSet(Used(st.space), st.disk, st.chunks, st.transfers, st'.transfers, id, st.chunks[id]);
    assert st.chunks[id := st.chunks[id]] == st.chunks;
  }

  /** One count is about to be taken off the tracker of chunk id, leaving t outstanding. The bytes are
      already where they should be. */
  ghost predicate Pending(g: Layout, st: System, id: nat, t: Transfer) {
    && SpaceOk(g, st.space, st.disk, st.chunks) && ShapesOk(g, st.chunks)
    && TransfersOk(st.chunks, st.transfers, st.running) && BooksOk(st)
    && st.memoryUsed - st.memoryToBeFreed <= st.memoryMax
    && id in st.transfers
    && DataOk(Used(st.space), st.disk, st.chunks, st.transfers[id := t])
    && var was := st.transfers[id];
       && Load(t) == Load(was) - 1 && t.tracker == was.tracker && t.scheduled == was.scheduled
       && t.inFlight <= was.inFlight && (t.guarded ==> was.guarded)
       && (!t.guarded ==> t.scheduled == |st.chunks[id].swapBuf|)
  }

  ghost function Released(st: System, id: nat, t: Transfer): Running {
    if id in st.transfers && st.transfers[id].guarded && !t.guarded then Idle else st.running
  }

  /** It was not the last one: the tracker goes down and the transfer goes on. */
  lemma NotYetComplete(g: Layout, st: System, id: nat, t: Transfer)
    requires Pending(g, st, id, t) && st.transfers[id].tracker != 1
    ensures Inv(g, st.(transfers := st.transfers[id := t.(tracker := t.tracker - 1)],
                       running := Released(st, id, t), queued := st.queued - 1))
  {
    hide SpaceOk, ShapesOk, FreeBytes, Used, CopyOk;
    var t' := t.(tracker := t.tracker - 1);
    TotalUpdate(st.transfers, Load, id, t');
    DataTracker(Used(st.space), st.disk, st.chunks, st.transfers[id := t], st.transfers[id := t'], id);
  }

  /** The counters of a transfer do not matter for the bytes, only which parts are outstanding. */
  lemma DataTracker(u: Parts, disk: Bytes, chunks: Chunks, ts: Transfers, ts': Transfers, id: nat)
    requires DataOk(u, disk, chunks, ts) && ts.Keys == ts'.Keys
    requires forall i :: i in ts ==> ts'[i].scheduled == ts[i].scheduled && ts'[i].inFlight == ts[i].inFlight
    ensures DataOk(u, disk, chunks, ts')
  {
    forall i | i in chunks && chunks[i].swapBuf != []
      ensures CopyOk(u, disk, chunks[i], ts', i)
    {
      assert CopyOk(u, disk, chunks[i], ts, i);
    }
  }

  /** When nothing is outstanding any more, RAM and disk hold the same bytes. */
  lemma NothingOutstanding(g: Layout, st: System, id: nat, t: Transfer)
    requires Pending(g, st, id, t) && st.transfers[id].tracker == 1
    ensures id in st.chunks && Moving(st.chunks[id]) && st.chunks[id].loc.Buffer?
    ensures Fits(st.disk, Used(st.space), st.chunks[id].swapBuf)
    ensures st.chunks[id].loc.data == OnDisk(st.disk, Used(st.space), st.chunks[id].swapBuf)
    ensures Load(st.transfers[id]) == 1 && t.inFlight == {} && !t.guarded
  {
    var c := st.chunks[id];
    assert CopyOk(Used(st.space), st.disk, c, st.transfers[id := t], id);
    assert CopyFits(Used(st.space), c) && ShapeOk(g, c);
    PartsMakeWhole(st.disk, Used(st.space), c.swapBuf, c.loc.data);
  }

  lemma TransfersEnd(chunks: Chunks, transfers: Transfers, running: Running, id: nat, c: Chunk, running': Running)
    requires TransfersOk(chunks, transfers, running) && id in transfers && !Moving(c)
    requires running' == if transfers[id].guarded then Idle else running
    ensures TransfersOk(chunks[id := c], transfers - {id}, running')
    ensures Total(transfers - {id}, Load) == Total(transfers, Load) - Load(transfers[id])
  {
    TotalSplit(transfers, Load, id);
  }

  /** The last one completes the transfer. */
  lemma NowComplete(g: Layout, st: System, id: nat, t: Transfer)
    requires Pending(g, st, id, t) && st.transfers[id].tracker == 1
    ensures id in st.chunks
    ensures Inv(g, Complete(st, id).(running := Released(st, id, t), queued := st.queued - 1))
  {
    hide SpaceOk, ShapesOk, TransfersOk, BooksOk, FreeBytes, Used, OnDisk, Fits;
    NothingOutstanding(g, st, id, t);
    ShapeAt(g, st.chunks, id);
    var c, st' := st.chunks[id], Complete(st, id).(running := Released(st, id, t), queued := st.queued - 1);
    var c' := st'.chunks[id];
    SpaceSet(g, st.space, st.disk, st.chunks, id, c');
    ShapesSet(g, st.chunks, id, c');
    TransfersEnd(st.chunks, st.transfers, st.running, id, c', st'.running);
    DataSet(Used(st.space), st.disk, st.chunks, st.transfers[id := t], st'.transfers, id, c');
    BooksSet(st, st', id, c');
  }

  lemma CountsDown(g: Layout, st: System, id: nat, t: Transfer)
    requires Pending(g, st, id, t) && id in st.chunks
    ensures Inv(g, CountDown(st, id, t).(running := Released(st, id, t), queued := st.queued - 1))
  {
    hide Pending, Inv;
    PendingTracker(g, st, id, t);
    if st.transfers[id].tracker == 1 {
      NowComplete(g, st, id, t);
    } else {
      NotYetComplete(g, st, id, t);
    }
  }

  /** Counting down neither looks at nor changes what copyMem call is running. */
  lemma CountDownRunning(st: System, id: nat, t: Transfer)
    requires id in st.chunks && id in st.transfers && (t.guarded <==> st.transfers[id].guarded)
    ensures CountDown(st, id, t).running == st.running == Released(st, id, t)
    ensures CountDown(st, id, t).queued == st.queued
  {
  }

  lemma PendingTracker(g: Layout, st: System, id: nat, t: Transfer)
    requires Pending(g, st, id, t)
    ensures id in st.transfers && st.transfers[id].tracker == t.tracker
  {
  }

  lemma EndCopyPending(g: Layout, st: System)
    requires Inv(g, st) && Enabled(g, st, EndCopy)
    ensures Pending(g, st, st.running.id, st.transfers[st.running.id].(guarded := false))
  {
    hide SpaceOk, ShapesOk, FreeBytes, Used, CopyOk;
    var id := st.running.id;
    var t := st.transfers[id].(guarded := false);
    DataTracker(Used(st.space), st.disk, st.chunks, st.transfers, st.transfers[id := t], id);
  }

  lemma KeepsEndCopy(g: Layout, st: System)
    requires Inv(g, st) && Enabled(g, st, EndCopy)
    ensures Inv(g, Step(g, st, EndCopy))
  {
    hide Pending, SpaceOk, ShapesOk, DataOk, BooksOk, Used, CountDown;
    var id := st.running.id;
    EndCopyPending(g, st);
    TransferAt(g, st, id);
    CountsDown(g, st, id, st.transfers[id].(guarded := false));
  }

  // ---------------------------------------------------------------- arrivals

  /** Part p of the chunk moves: afterwards it agrees, and what agreed before still does. */
  lemma PartWritten(g: Layout, st: System, id: nat, p: nat, q: nat)
    requires Inv(g, st) && id in st.transfers && PartInBounds(st, id, p) && st.chunks[id].status.SwapOut?
    requires q < |st.chunks[id].swapBuf|
    requires q == p || PartAgrees(st.disk, Used(st.space), st.chunks[id].swapBuf, q, st.chunks[id].loc.data)
    ensures var st' := MovePart(st, id, p);
            PartAgrees(st'.disk, Used(st.space), st.chunks[id].swapBuf, q, st.chunks[id].loc.data)
  {
    hide SpaceOk, ShapesOk, TransfersOk, DataOk, BooksOk;
    var c, u, disk' := st.chunks[id], Used(st.space), MovePart(st, id, p).disk;
    PartOffsetBounds(u, c.swapBuf, p);
    PartOffsetBounds(u, c.swapBuf, q);
    var k, off := c.swapBuf[p], PartOffset(u, c.swapBuf, p);
    var data := c.loc.data[off..off + u[k].size];
    if q == p {
      PatchReads(st.disk, k, data, k, k + |data|);
    } else {
      ChainDistinct(g, st, id, p, q);
      PatchApart(g, st.space, st.disk, k, data, c.swapBuf[q]);
    }
  }

  lemma ChainDistinct(g: Layout, st: System, id: nat, p: nat, q: nat)
    requires Inv(g, st) && id in st.chunks && p < |st.chunks[id].swapBuf| && q < |st.chunks[id].swapBuf| && p != q
    ensures st.chunks[id].swapBuf[p] != st.chunks[id].swapBuf[q]
    ensures st.chunks[id].swapBuf[p] in Used(st.space) && st.chunks[id].swapBuf[q] in Used(st.space)
    ensures Valid(g, st.space) && |st.disk| == st.space.size
  {
    var own := Own(st.chunks);
    assert id in own && own[id] == st.chunks[id].swapBuf;
    ChainInside(Used(st.space), own, id);
    assert st.chunks[id].swapBuf[p] in Offsets(own[id]) && st.chunks[id].swapBuf[q] in Offsets(own[id]);
  }

  /** The same for a part that is read into the buffer. */
  lemma PartRead(disk: Bytes, u: Parts, ks: seq<nat>, buffer: Bytes, p: nat, q: nat)
    requires p < |ks| && q < |ks| && Fits(disk, u, ks) && Offsets(ks) <= u.Keys && |buffer| == ChainSize(u, ks)
    requires q == p || PartAgrees(disk, u, ks, q, buffer)
    ensures PartOffset(u, ks, p) + u[ks[p]].size <= |buffer|
    ensures PartAgrees(disk, u, ks, q, Patch(buffer, PartOffset(u, ks, p), PartBytes(disk, u, ks[p])))
  {
    PartOffsetBounds(u, ks, p);
    PartOffsetBounds(u, ks, q);
    if p < q { PartsApart(u, ks, p, q); }
    if q < p { PartsApart(u, ks, q, p); }
    var at := PartOffset(u, ks, q);
    PatchReads(buffer, PartOffset(u, ks, p), PartBytes(disk, u, ks[p]), at, at + u[ks[q]].size);
  }

  /** The bytes of the other chunks' parts stay. */
  lemma OtherBytesKept(g: Layout, st: System, id: nat, p: nat, i: nat)
    requires Inv(g, st) && id in st.transfers && PartInBounds(st, id, p) && i in st.chunks && i != id
    ensures var u, disk', c := Used(st.space), MovePart(st, id, p).disk, st.chunks[i];
            && Fits(st.disk, u, c.swapBuf) && Fits(disk', u, c.swapBuf)
            && forall k: nat :: k in c.swapBuf ==> PartBytes(st.disk, u, k) == PartBytes(disk', u, k)
  {
    hide Valid, ShapesOk, TransfersOk, BooksOk, CopyOk;
    var u, disk', c := Used(st.space), MovePart(st, id, p).disk, st.chunks[i];
    var own := Own(st.chunks);
    if c.swapBuf != [] {
      assert i in own && own[i] == c.swapBuf;
      ChainInside(u, own, i);
      CopyOnDisk(g, st.space, st.disk, c);
    }
    if st.chunks[id].status.SwapOut? {
      PartOffsetBounds(u, st.chunks[id].swapBuf, p);
      var k, off := st.chunks[id].swapBuf[p], PartOffset(u, st.chunks[id].swapBuf, p);
      assert id in own && k in own[id] && k in Offsets(own[id]);
      forall j: nat | j in c.swapBuf
        ensures PartBytes(st.disk, u, j) == PartBytes(disk', u, j)
      {
        assert j in own[i] && j in u;
        assert j != k;
        PatchApart(g, st.space, st.disk, k, st.chunks[id].loc.data[off..off + u[k].size], j);
      }
    }
  }

  /** The other chunks do not notice. */
  lemma OtherCopyKept(g: Layout, st: System, id: nat, p: nat, i: nat)
    requires Inv(g, st) && id in st.transfers && PartInBounds(st, id, p)
    requires i in st.chunks && i != id && st.chunks[i].swapBuf != []
    ensures CopyOk(Used(st.space), MovePart(st, id, p).disk, st.chunks[i], st.transfers, i)
  {
    hide SpaceOk, ShapesOk, TransfersOk, BooksOk, CopyOk, Used, MovePart, Fits, PartBytes;
    var disk', c := MovePart(st, id, p).disk, st.chunks[i];
    assert CopyOk(Used(st.space), st.disk, c, st.transfers, i);
    OtherBytesKept(g, st, id, p, i);
    CopyKept(st.disk, disk', Used(st.space), Used(st.space), c, st.transfers, st.transfers, i);
  }

  lemma OwnCopyMoved(g: Layout, st: System, id: nat, p: nat)
    requires Inv(g, st) && id in st.transfers && p in st.transfers[id].inFlight && PartInBounds(st, id, p)
    ensures var st', t := MovePart(st, id, p), st.transfers[id];
            id in st'.chunks
            && CopyOk(Used(st.space), st'.disk, st'.chunks[id], st.transfers[id := t.(inFlight := t.inFlight - {p})], id)
  {
    hide SpaceOk, ShapesOk, TransfersOk, DataOk, BooksOk, Used, PartAgrees;
    TransferAt(g, st, id);
    var c, u, st', t := st.chunks[id], Used(st.space), MovePart(st, id, p), st.transfers[id];
    forall q: nat | q < t.scheduled && q !in t.inFlight - {p}
      ensures PartAgrees(st'.disk, u, c.swapBuf, q, st'.chunks[id].loc.data)
    {
      if c.status.SwapOut? {
        PartWritten(g, st, id, p, q);
      } else {
        PartRead(st.disk, u, c.swapBuf, c.loc.data, p, q);
      }
    }
  }

  lemma MovedData(g: Layout, st: System, id: nat, p: nat)
    requires Inv(g, st) && id in st.transfers && p in st.transfers[id].inFlight && PartInBounds(st, id, p)
    ensures var st', t := MovePart(st, id, p), st.transfers[id];
            DataOk(Used(st.space), st'.disk, st'.chunks, st.transfers[id := t.(inFlight := t.inFlight - {p})])
  {
    hide Inv, Valid, CopyOk, MovePart;
    TransferAt(g, st, id);
    MovePartShape(g, st, id, p);
    var st', t, u := MovePart(st, id, p), st.transfers[id], Used(st.space);
    var ts' := st.transfers[id := t.(inFlight := t.inFlight - {p})];
    OwnCopyMoved(g, st, id, p);
    forall i | i in st'.chunks && st'.chunks[i].swapBuf != []
      ensures CopyOk(u, st'.disk, st'.chunks[i], ts', i)
    {
      if i != id {
        OtherCopyKept(g, st, id, p, i);
        SameCopy(u, st'.disk, st'.chunks[i], st.transfers, ts', i);
      }
    }
  }

  lemma SameCopy(u: Parts, disk: Bytes, c: Chunk, ts: Transfers, ts': Transfers, id: nat)
    requires CopyOk(u, disk, c, ts, id) && (id in ts ==> id in ts' && ts'[id] == ts[id])
    ensures CopyOk(u, disk, c, ts', id)
  {
  }

  /** Only the disk or the chunk's own buffer changes, and neither changes its length. */
  lemma MovePartShape(g: Layout, st: System, id: nat, p: nat)
    requires Inv(g, st) && id in st.transfers && PartInBounds(st, id, p)
    ensures var st', c := MovePart(st, id, p), st.chunks[id];
            && |st'.disk| == |st.disk|
            && id in st'.chunks && st'.chunks == st.chunks[id := st'.chunks[id]]
            && st' == st.(disk := st'.disk, chunks := st'.chunks)
            && st'.chunks[id] == c.(loc := st'.chunks[id].loc) && st'.chunks[id].loc.Buffer?
            && |st'.chunks[id].loc.data| == |c.loc.data|
            && (c.status.SwapOut? ==> st'.chunks == st.chunks) && (c.status.SwapIn? ==> st'.disk == st.disk)
  {
    hide Inv, Valid;
    TransferAt(g, st, id);
    var c, u := st.chunks[id], Used(st.space);
    PartOffsetBounds(u, c.swapBuf, p);
    assert c.status.SwapOut? ==> st.chunks == st.chunks[id := c];
  }

  lemma ArrivePending(g: Layout, st: System, id: nat, p: nat)
    requires Inv(g, st) && id in st.transfers && p in st.transfers[id].inFlight && PartInBounds(st, id, p)
    ensures var t := st.transfers[id];
            Pending(g, MovePart(st, id, p), id, t.(inFlight := t.inFlight - {p})) && id in MovePart(st, id, p).chunks
  {
    hide SpaceOk, ShapesOk, DataOk, BooksOk, Used, MovePart, CopyOk, FreeBytes;
    TransferAt(g, st, id);
    MovePartShape(g, st, id, p);
    MovedData(g, st, id, p);
    var st', t := MovePart(st, id, p), st.transfers[id];
    var c' := st'.chunks[id];
    SpaceSet(g, st.space, st.disk, st.chunks, id, c');
    SpaceDiskSet(g, st.space, st.disk, st'.disk, st'.chunks);
    ShapesSet(g, st.chunks, id, c');
    TransfersSet(st.chunks, st.transfers, st.running, id, c');
    BooksSet(st, st', id, c');
    assert |t.inFlight - {p}| == |t.inFlight| - 1;
  }

  lemma KeepsArrive(g: Layout, st: System, id: nat, p: nat)
    requires Inv(g, st) && Enabled(g, st, Arrive(id, p))
    ensures Inv(g, Step(g, st, Arrive(id, p)))
  {
    hide Inv, Pending, MovePart, CountDown;
    var t := st.transfers[id];
    ArrivePending(g, st, id, p);
    MovePartShape(g, st, id, p);
    CountDownRunning(MovePart(st, id, p), id, t.(inFlight := t.inFlight - {p}));
    CountsDown(g, MovePart(st, id, p), id, t.(inFlight := t.inFlight - {p}));
  }
}
