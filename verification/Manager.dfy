/** The manager: making room, allocating, using and freeing chunks, with the waits for asynchronous I/O
    that these calls contain. */
module Manager {
  import opened Numbers
  import opened Totals
  import opened PageSpace
  import opened PageChains
  import Pages = PageFiles
  import opened Disk
  import opened ChunkStatus
  import opened Lifecycle
  import opened SwapInvariant
  import opened Invariant
  import opened Preservation
  import opened Arrivals
  import opened Reachable
  import opened Refinement
  import opened Pinning
  import opened Completion
  import opened Accounting
  import opened FileSwap
  import opened Capacity
  import opened Choosing
  import Cyclic = SwappingOut

  // ---------------------------------------------------------------- progress

  /** How many changes of status still lie before a chunk that nobody uses. */
  ghost function Rank(c: Chunk): nat {
    match c.status
    case SwapIn => 3
    case SwapOut => 1
    case Swapped => 0
    case _ => 2
  }

  /** No chunk has moved away from being swapped out, and its size and use count are what they were. */
  ghost predicate Pressed(before: Chunks, after: Chunks) {
    && before.Keys == after.Keys
    && forall id :: id in before ==>
         after[id].size == before[id].size && after[id].useCnt == before[id].useCnt && Rank(after[id]) <= Rank(before[id])
  }

  /** Arrivals bring nothing but the end of a transfer about. */
  ghost predicate Settling(before: Chunks, after: Chunks) {
    && before.Keys == after.Keys
    && forall id :: id in before ==>
         && after[id].swapBuf == before[id].swapBuf
         && (after[id].status == before[id].status || (Moving(before[id]) && after[id].status == Settled(before[id])))
  }

  ghost function Ranks(st: System): nat { Total(st.chunks, Rank) }

  ghost function InFlight(st: System): nat { Total(st.transfers, PartsInFlight) }

  lemma {:induction false} TotalLess(m: Chunks, l: Chunks, f: Chunk -> nat)
    requires m.Keys == l.Keys && forall k :: k in m ==> f(l[k]) <= f(m[k])
    ensures Total(l, f) <= Total(m, f)
    ensures (exists k :: k in m && f(l[k]) < f(m[k])) ==> Total(l, f) < Total(m, f)
    decreases |m|
  {
    if m == map[] {
      assert l == map[];
    } else {
      var j :| j in m;
      TotalSplit(m, f, j);
      TotalSplit(l, f, j);
      TotalLess(m - {j}, l - {j}, f);
      if k :| k in m && f(l[k]) < f(m[k]) {
        assert k == j || k in m - {j};
      }
    }
  }

  /** A chunk on its way out has come closer to the end. */
  lemma RankLeft(before: System, after: System, id: nat, bytes: nat)
    requires LeftRam(before, after, id, bytes) && before.chunks[id].status.Allocated?
    ensures if bytes > 0 then Ranks(after) < Ranks(before)
            else Ranks(after) <= Ranks(before) && InFlight(after) == InFlight(before)
    ensures Pressed(before.chunks, after.chunks)
  {
    TotalLess(before.chunks, after.chunks, Rank);
    if bytes > 0 {
      assert Rank(after.chunks[id]) < Rank(before.chunks[id]);
    }
  }

  lemma PressedTwice(a: Chunks, b: Chunks, c: Chunks)
    requires Pressed(a, b) && Pressed(b, c)
    ensures Pressed(a, c)
  {
  }

  lemma SettlingTwice(a: Chunks, b: Chunks, c: Chunks)
    requires Settling(a, b) && Settling(b, c) && Pressed(a, b)
    ensures Settling(a, c)
  {
  }

  lemma NothingPressed(a: Chunks)
    ensures Pressed(a, a) && Settling(a, a)
  {
  }

  /** What an arrival does to the chunks. */
  lemma ArriveChunks(g: Layout, st: System, id: nat, part: nat)
    requires Inv(g, st) && Enabled(g, st, Arrive(id, part))
    ensures var st' := Step(g, st, Arrive(id, part));
            Pressed(st.chunks, st'.chunks) && Settling(st.chunks, st'.chunks) && Ranks(st') <= Ranks(st)
  {
    hide SpaceOk, ShapesOk, DataOk, BooksOk, MovePart, PartInBounds, Used, Pressed, Settling;
    TransferAt(g, st, id);
    MovePartShape(g, st, id, part);
    var chunks' := Step(g, st, Arrive(id, part)).chunks;
    assert chunks' == st.chunks[id := chunks'[id]];
    OneSettled(st.chunks, id, chunks'[id]);
  }

  lemma OneSettled(chunks: Chunks, id: nat, c: Chunk)
    requires id in chunks && c.size == chunks[id].size && c.useCnt == chunks[id].useCnt && c.swapBuf == chunks[id].swapBuf
    requires c.status == chunks[id].status || (Moving(chunks[id]) && c.status == Settled(chunks[id]))
    ensures Pressed(chunks, chunks[id := c]) && Settling(chunks, chunks[id := c])
    ensures Total(chunks[id := c], Rank) <= Total(chunks, Rank)
  {
    TotalLess(chunks, chunks[id := c], Rank);
  }

  /** An arrival brings the end closer as well. */
  lemma ArriveInFlight(g: Layout, st: System, id: nat, part: nat)
    requires Inv(g, st) && Enabled(g, st, Arrive(id, part))
    ensures var st' := Step(g, st, Arrive(id, part));
            InFlight(st') < InFlight(st) && st'.running == st.running && st'.memoryMax == st.memoryMax
  {
    hide SpaceOk, ShapesOk, DataOk, BooksOk, MovePart, PartInBounds, Used;
    TransferAt(g, st, id);
    MovePartShape(g, st, id, part);
    var st', t := Step(g, st, Arrive(id, part)), st.transfers[id];
    assert |t.inFlight - {part}| == |t.inFlight| - 1;
    TotalSplit(st.transfers, PartsInFlight, id);
    if id in st'.transfers {
      TotalSplit(st'.transfers, PartsInFlight, id);
      assert st'.transfers - {id} == st.transfers - {id};
    } else {
      assert st'.transfers == st.transfers - {id};
    }
  }

  // ---------------------------------------------------------------- what the manager does by itself

  /** Steps that no user has asked for. */
  ghost predicate Internal(e: Event) {
    e.SwapOutChunk? || e.SwapInChunk? || e.Schedule? || e.EndCopy? || e.Arrive? || e.Cleanup? || e.ExtendSwap?
  }

  ghost predicate AllInternal(es: seq<Event>) {
    forall e :: e in es ==> Internal(e)
  }

  /** The manager has come from state s0 by steps of its own. */
  ghost predicate Follows(m: ManagedFileSwap, s0: System, es: seq<Event>)
    reads m, m.files, m.files.locs
  {
    m.Valid() && m.running.Idle? && m.State() == Run(m.g, s0, es) && AllInternal(es)
  }

  /** RAM in use has not grown, and as much of it as before is not leaving. */
  ghost predicate RamKept(before: System, after: System) {
    after.memoryUsed <= before.memoryUsed && after.memoryUsed - after.memoryToBeFreed == before.memoryUsed - before.memoryToBeFreed
  }

  lemma ArriveKeepsRam(g: Layout, st: System, id: nat, part: nat)
    requires Inv(g, st) && Enabled(g, st, Arrive(id, part))
    ensures RamKept(st, Step(g, st, Arrive(id, part)))
  {
    hide SpaceOk, ShapesOk, DataOk, BooksOk, MovePart, PartInBounds, Used;
    TransferAt(g, st, id);
    MovePartShape(g, st, id, part);
  }

  lemma FollowsInv(m: ManagedFileSwap, s0: System, es: seq<Event>)
    requires Follows(m, s0, es)
    ensures Inv(m.g, m.State()) && m.State() == Run(m.g, s0, es)
  {
  }

  lemma FollowsOn(g: Layout, s0: System, s1: System, s2: System, es: seq<Event>, fs: seq<Event>)
    requires s1 == Run(g, s0, es) && s2 == Run(g, s1, fs) && AllInternal(es) && AllInternal(fs)
    ensures s2 == Run(g, s0, es + fs) && AllInternal(es + fs)
  {
    hide Run;
    RunAppend(g, s0, es, fs);
  }

  /** Whatever the manager does by itself, the content of every chunk stays, and a chunk in use stays where
      it is. */
  lemma InternalSteps(g: Layout, st: System, es: seq<Event>, id: nat)
    requires Inv(g, st) && id in st.chunks && AllInternal(es)
    ensures var st' := Run(g, st, es);
            && id in st'.chunks && Abs(st')[id].data == Abs(st)[id].data
            && (Held(st, id) ==> SamePlace(st, st', id))
  {
    hide Inv, Abs, Run;
    assert forall e :: e in es ==> Spares(e, id);
    BytesSurvive(g, st, es, id);
    if Held(st, id) {
      InternalKeepsUse(g, st, es, id);
      Pinned(g, st, es, id);
    }
  }

  lemma {:induction false} InternalKeepsUse(g: Layout, st: System, es: seq<Event>, id: nat)
    requires AllInternal(es)
    ensures StaysInUse(g, st, es, id)
    decreases |es|
  {
    hide Step, Enabled;
    if es != [] {
      assert Internal(es[0]) && AllInternal(es[1..]);
      InternalKeepsUse(g, if Enabled(g, st, es[0]) then Step(g, st, es[0]) else st, es[1..], id);
    }
  }

  // ---------------------------------------------------------------- waiting

  lemma SomethingInFlight(g: Layout, st: System)
    requires Inv(g, st) && st.running.Idle?
    ensures st.queued == InFlight(st)
    ensures st.queued != 0 ==> exists id :: id in st.transfers && st.transfers[id].inFlight != {}
  {
    hide Inv;
    QueueCounts(g, st);
    TotalZero(st.transfers, PartsInFlight);
    if st.queued != 0 {
      var id :| id in st.transfers && PartsInFlight(st.transfers[id]) != 0;
      assert st.transfers[id].inFlight != {};
    }
  }

  /** One of the parts in flight arrives, no matter which. */
  method OneArrival(m: ManagedFileSwap, ghost s0: System, ghost es: seq<Event>) returns (ghost fs: seq<Event>)
    requires Follows(m, s0, es) && m.queued != 0
    modifies m, m.files`swapFree
    ensures Follows(m, s0, fs) && OnlyRoom(es, fs) && RamKept(old(m.State()), m.State())
    ensures Ranks(m.State()) <= old(Ranks(m.State())) && InFlight(m.State()) < old(InFlight(m.State()))
    ensures m.memoryMax == old(m.memoryMax) && Pressed(old(m.chunks), m.chunks) && Settling(old(m.chunks), m.chunks)
  {
    hide Inv, m.Ready, Step, Enabled, Run, Pressed, Settling, Ranks, InFlight, AllInternal, RamKept;
    ghost var s1 := m.State();
    SomethingInFlight(m.g, s1);
    var candidates := set id | id in m.transfers && m.transfers[id].inFlight != {};
    assert candidates != {} by {
      ghost var i :| i in m.transfers && m.transfers[i].inFlight != {};
      assert i in candidates;
    }
    var id :| id in candidates;
    var part :| part in m.transfers[id].inFlight;
    var synchronized := m.AsyncIoArrived(id, part);
    ArriveChunks(m.g, s1, id, part);
    ArriveInFlight(m.g, s1, id, part);
    ArriveKeepsRam(m.g, s1, id, part);
    RunOne(m.g, s1, Arrive(id, part));
    fs := es + [Arrive(id, part)];
    JustInternal(Arrive(id, part));
    FollowsOn(m.g, s0, s1, m.State(), es, [Arrive(id, part)]);
  }

  lemma JustInternal(e: Event)
    requires Internal(e)
    ensures AllInternal([e])
  {
  }

  /** checkForAIO: if anything is pending, wait until at least one part has arrived. */
  method CheckForAIO(m: ManagedFileSwap, ghost s0: System, ghost es: seq<Event>) returns (ghost fs: seq<Event>)
    requires Follows(m, s0, es)
    modifies m, m.files`swapFree
    ensures Follows(m, s0, fs) && OnlyRoom(es, fs) && RamKept(old(m.State()), m.State())
    ensures Ranks(m.State()) <= old(Ranks(m.State())) && InFlight(m.State()) <= old(InFlight(m.State()))
    ensures old(m.queued) != 0 ==> InFlight(m.State()) < old(InFlight(m.State()))
    ensures m.memoryMax == old(m.memoryMax) && Pressed(old(m.chunks), m.chunks) && Settling(old(m.chunks), m.chunks)
  {
    hide Follows, Ranks, InFlight, Pressed, Settling;
    fs := es;
    NothingPressed(m.chunks);
    if m.queued == 0 {
      return;
    }
    fs := OneArrival(m, s0, fs);
    var more: bool := *;
    while more && m.queued != 0
      invariant Follows(m, s0, fs) && OnlyRoom(es, fs) && RamKept(old(m.State()), m.State())
      invariant Ranks(m.State()) <= old(Ranks(m.State())) && InFlight(m.State()) < old(InFlight(m.State()))
      invariant m.memoryMax == old(m.memoryMax) && Pressed(old(m.chunks), m.chunks) && Settling(old(m.chunks), m.chunks)
      decreases InFlight(m.State())
    {
      ghost var before := m.chunks;
      fs := OneArrival(m, s0, fs);
      SettlingTwice(old(m.chunks), before, m.chunks);
      PressedTwice(old(m.chunks), before, m.chunks);
      more := *;
    }
  }

  // ---------------------------------------------------------------- swapping out

  /** Progress since state s1, in which unloaded bytes have been put on their way out. */
  ghost predicate Unloaded(s1: System, st: System, unloaded: nat) {
    && st.memoryMax == s1.memoryMax && st.memoryUsed <= s1.memoryUsed && Pressed(s1.chunks, st.chunks)
    && st.memoryUsed - st.memoryToBeFreed == s1.memoryUsed - s1.memoryToBeFreed - unloaded
    && Ranks(st) <= Ranks(s1)
    && if unloaded > 0 then Ranks(st) < Ranks(s1) else InFlight(st) == InFlight(s1)
  }

  lemma UnloadedMore(s1: System, s2: System, s3: System, id: nat, unloaded: nat, bytes: nat)
    requires Unloaded(s1, s2, unloaded) && LeftRam(s2, s3, id, bytes) && s2.chunks[id].status.Allocated?
    ensures Unloaded(s1, s3, unloaded + bytes)
    ensures forall i :: i in s2.chunks && i != id ==> i in s3.chunks && s3.chunks[i].status == s2.chunks[i].status
  {
    hide Ranks, InFlight;
    RankLeft(s2, s3, id, bytes);
  }

  /** The victims from the i-th on are still idle. */
  ghost predicate StillIdle(chunks: Chunks, victims: seq<nat>, i: nat) {
    forall j: nat :: i <= j < |victims| ==> victims[j] in chunks && chunks[victims[j]].status.Allocated?
  }

  method SwapOutNext(m: ManagedFileSwap, victims: seq<nat>, i: nat, ghost s0: System, ghost s1: System, ghost es: seq<Event>,
                     ghost unloaded: nat)
      returns (bytes: nat, thrown: bool, ghost fs: seq<Event>, ghost gs: seq<Event>)
    requires Follows(m, s0, es) && Unloaded(s1, m.State(), unloaded)
    requires i < |victims| && NoneTwice(victims) && StillIdle(m.chunks, victims, i)
    modifies m, m.files, m.files.locs
    ensures Follows(m, s0, fs) && fresh(m.files.locs - old(m.files.locs))
    ensures Unloaded(s1, m.State(), unloaded + bytes) && StillIdle(m.chunks, victims, i + 1)
    ensures thrown ==> bytes == 0
    ensures fs == es + gs && SwapOutEvents(gs, victims[i]) && OnlyRoom(es, fs)
    ensures (bytes == old(m.chunks[victims[i]].size) && !thrown) || RefusedIn(m.g, s0, fs, |es|)
    ensures thrown ==> ThrownIn(m.g, s0, fs, |es|)
    ensures SameSizes(old(m.chunks), m.chunks)
  {
    hide Inv, m.Ready, Run, Unloaded, AllInternal, Enabled, Taken;
    ghost var s2 := m.State();
    var outcome;
    outcome, bytes, gs := m.SwapOut(victims[i]);
    thrown := outcome.Thrown?;
    OfferAnswered(m.g, s0, es, gs, s2, victims[i]);
    UnloadedMore(s1, s2, m.State(), victims[i], unloaded, bytes);
    InternalSwapOut(gs, victims[i]);
    fs := es + gs;
    FollowsOn(m.g, s0, s2, m.State(), es, gs);
  }

  ghost predicate SameSizes(before: Chunks, after: Chunks) {
    before.Keys == after.Keys && forall id :: id in before ==> after[id].size == before[id].size
  }

  lemma OfferAnswered(g: Layout, s0: System, es: seq<Event>, gs: seq<Event>, st: System, id: nat)
    requires st == Run(g, s0, es) && SwapOutEvents(gs, id) && Enabled(g, st, SwapOutChunk(id))
    ensures OnlyRoom(es, es + gs)
    ensures Taken(g, st, id) || RefusedIn(g, s0, es + gs, |es|)
    ensures ThrownAt(g, st, id) ==> ThrownIn(g, s0, es + gs, |es|) && RefusedIn(g, s0, es + gs, |es|)
  {
    hide Run, Enabled;
    assert gs[0] == SwapOutChunk(id);
    RefusedNow(g, s0, es, gs, id);
    OnlyRoomMore(es, gs);
  }

  lemma InternalSwapOut(es: seq<Event>, id: nat)
    requires SwapOutEvents(es, id)
    ensures AllInternal(es)
  {
  }

  /** The steps taken when the first n of the victims are offered to the swap, one after the other. */
  ghost predicate OffersFirst(es: seq<Event>, victims: seq<nat>, n: nat)
    requires n <= |victims|
    decreases n
  {
    if n == 0 then es == []
    else exists k: nat :: k <= |es| && OffersFirst(es[..k], victims, n - 1) && SwapOutEvents(es[k..], victims[n - 1])
  }

  lemma OffersOneMore(es: seq<Event>, gs: seq<Event>, victims: seq<nat>, n: nat)
    requires n < |victims| && OffersFirst(es, victims, n) && SwapOutEvents(gs, victims[n])
    ensures OffersFirst(es + gs, victims, n + 1)
  {
    hide SwapOutEvents;
    var all, k := es + gs, |es|;
    assert all[..k] == es && all[k..] == gs;
  }

  /** managedFileSwap::swapOut of a list of chunks. */
  method SwapOutList(m: ManagedFileSwap, victims: seq<nat>, ghost s0: System, ghost es: seq<Event>)
      returns (unloaded: nat, thrown: bool, ghost fs: seq<Event>, ghost gs: seq<Event>, ghost offered: nat)
    requires Follows(m, s0, es) && NoneTwice(victims) && StillIdle(m.chunks, victims, 0)
    modifies m, m.files, m.files.locs
    ensures Follows(m, s0, fs) && fresh(m.files.locs - old(m.files.locs))
    ensures Unloaded(old(m.State()), m.State(), unloaded)
    ensures fs == es + gs && offered <= |victims| && OffersFirst(gs, victims, offered) && (!thrown ==> offered == |victims|)
    ensures OnlyRoom(es, fs) && (thrown ==> ThrownIn(m.g, s0, fs, |es|))
    ensures (unloaded == SizesOf(old(m.chunks), victims, |victims|) && !thrown) || RefusedIn(m.g, s0, fs, |es|)
  {
    hide Follows, Unloaded, OffersFirst, SwapOutEvents, RefusedIn, ThrownIn;
    unloaded, thrown, fs, gs := 0, false, es, [];
    NothingOffered(victims);
    var n := 0;
    UnloadedNothing(m.State());
    while n < |victims| && !thrown
      invariant n <= |victims| && Follows(m, s0, fs) && fresh(m.files.locs - old(m.files.locs))
      invariant Unloaded(old(m.State()), m.State(), unloaded) && StillIdle(m.chunks, victims, n)
      invariant fs == es + gs && OffersFirst(gs, victims, n) && SameSizes(old(m.chunks), m.chunks)
      invariant OnlyRoom(es, fs) && (thrown ==> ThrownIn(m.g, s0, fs, |es|))
      invariant (unloaded == SizesOf(old(m.chunks), victims, n) && !thrown) || RefusedIn(m.g, s0, fs, |es|)
    {
      var bytes;
      ghost var hs, was := [], fs;
      bytes, thrown, fs, hs := SwapOutNext(m, victims, n, s0, old(m.State()), fs, unloaded);
      RefusedMore(m.g, s0, fs, fs, |es|, |was|);
      RefusedMore(m.g, s0, was, fs, |es|, |es|);
      OffersOneMore(gs, hs, victims, n);
      assert es + gs + hs == es + (gs + hs);
      gs := gs + hs;
      unloaded := unloaded + bytes;
      n := n + 1;
    }
    offered := n;
  }

  lemma NothingOffered(victims: seq<nat>)
    ensures OffersFirst([], victims, 0)
  {
  }

  lemma UnloadedNothing(st: System)
    ensures Unloaded(st, st, 0)
  {
  }

  lemma UnloadedThen(s1: System, s2: System, s3: System, unloaded: nat)
    requires Unloaded(s1, s2, 0) && Unloaded(s2, s3, unloaded)
    ensures Unloaded(s1, s3, unloaded)
  {
  }

  /** Cleaning the cache and extending the swap leave RAM alone. */
  lemma UnloadedCleaning(g: Layout, st: System, minimum: nat)
    requires Inv(g, st)
    ensures Unloaded(st, CleanFrom(g, st, minimum, -1, 0).st, 0)
  {
    hide Inv, CleanFrom;
    KeepsCleaning(g, st, minimum, -1, 0);
    TotalLess(st.chunks, CleanFrom(g, st, minimum, -1, 0).st.chunks, Rank);
  }

  /** cleanupCachedElements, as a step of the manager. */
  method CleanUp(m: ManagedFileSwap, minimum: nat, ghost s0: System, ghost es: seq<Event>) returns (ghost fs: seq<Event>)
    requires Follows(m, s0, es)
    modifies m`chunks, m.files, m.files.locs
    ensures Follows(m, s0, fs) && fresh(m.files.locs - old(m.files.locs)) && OnlyRoom(es, fs)
    ensures Unloaded(old(m.State()), m.State(), 0) && m.queued == old(m.queued)
    ensures m.memoryUsed == old(m.memoryUsed) && m.memoryToBeFreed == old(m.memoryToBeFreed)
  {
    hide Inv, m.Ready, Run, Unloaded, AllInternal, CleanFrom;
    ghost var s1 := m.State();
    UnloadedCleaning(m.g, s1, minimum);
    var success, bytes := m.CleanupCachedElements(minimum);
    RunOne(m.g, s1, Cleanup(minimum));
    JustInternal(Cleanup(minimum));
    fs := es + [Cleanup(minimum)];
    FollowsOn(m.g, s0, s1, m.State(), es, [Cleanup(minimum)]);
  }

  /** extendSwapByPolicy: the policy may refuse, and there may not be enough disk space. */
  method ExtendSwapByPolicy(m: ManagedFileSwap, minimum: nat, ghost s0: System, ghost es: seq<Event>)
      returns (success: bool, ghost fs: seq<Event>)
    requires Follows(m, s0, es)
    modifies m`disk, m.files
    ensures Follows(m, s0, fs) && fresh(m.files.locs - old(m.files.locs)) && OnlyRoom(es, fs)
    ensures Unloaded(old(m.State()), m.State(), 0)
    ensures if success then m.files.swapFree >= old(m.files.swapFree) + minimum else m.State() == old(m.State())
  {
    hide Inv, m.Ready, Run, AllInternal, InFlight, Pad, Enabled;
    ghost var s1 := m.State();
    success, fs := false, es;
    var refuse: bool, freeDiskSpace: nat := *, *;
    if !refuse {
      var n := RoundUp(minimum, m.g.page);
      ghost var gs;
      PadIsLeast(minimum, m.g.page);
      success, gs := m.ExtendSwap(minimum, freeDiskSpace, seq(n, i => 0));
      ExtendedOnly(m.g, s1, m.State(), gs);
      fs := es + gs;
      FollowsOn(m.g, s0, s1, m.State(), es, gs);
    }
  }

  lemma ExtendedOnly(g: Layout, st: System, st': System, gs: seq<Event>)
    requires st' == Run(g, st, gs)
    requires gs == [] || exists n: nat, fill :: gs == [Event.ExtendSwap(n, fill)]
    ensures AllInternal(gs) && st'.running == st.running && Unloaded(st, st', 0) && forall e :: e in gs ==> Making(e)
    ensures gs == [] ==> st' == st
    ensures gs != [] && st.running.Idle? && |gs[0].fill| == Times(gs[0].files, g.page) ==> st'.swapFree == st.swapFree + |gs[0].fill|
  {
    if gs != [] {
      assert gs[1..] == [];
    }
  }

  /** Bring the free swap up to minSize by cleaning the cache, or by more page files. */
  method FreeSwapFor(m: ManagedFileSwap, minSize: nat, ghost s0: System, ghost es: seq<Event>)
      returns (enough: bool, ghost fs: seq<Event>)
    requires Follows(m, s0, es)
    modifies m, m.files, m.files.locs
    ensures Follows(m, s0, fs) && fresh(m.files.locs - old(m.files.locs)) && OnlyRoom(es, fs)
    ensures Unloaded(old(m.State()), m.State(), 0)
    ensures m.files.swapFree >= 0 && (enough <==> m.files.swapFree >= minSize)
    ensures old(m.files.swapFree) >= minSize ==> fs == es && m.State() == old(m.State())
  {
    hide Follows, Unloaded;
    enough, fs := true, es;
    UnloadedNothing(m.State());
    NoDebt(m, s0, fs);
    if m.files.swapFree < minSize {
      fs := CleanUp(m, minSize - m.files.swapFree, s0, fs);
      NoDebt(m, s0, fs);
      if m.files.swapFree < minSize {
        ghost var s2 := m.State();
        enough, fs := ExtendSwapByPolicy(m, minSize - m.files.swapFree, s0, fs);
        UnloadedThen(old(m.State()), s2, m.State(), 0);
        NoDebt(m, s0, fs);
      }
    }
  }

  /** How a call of swapOut ended. If it got as far as a selection, that was the one of the scheduler's walk over the ring ids,
      and the chunks it names were offered to the swap in turn. */
  datatype Selection =
    | NoSelection
    | Selection(st: System, ids: seq<nat>, aim: nat, free: nat, victims: seq<nat>, planned: nat, offered: nat, es: seq<Event>)

  ghost predicate Selected(g: Layout, s0: System, fs: seq<Event>, sel: Selection) {
    sel.Selection? ==>
      && |sel.es| <= |fs| && fs[|fs| - |sel.es|..] == sel.es && sel.st == Run(g, s0, fs[..|fs| - |sel.es|])
      && sel.free == sel.st.swapFree && GreedyChoice(sel.st.chunks, sel.ids, sel.aim, sel.free, sel.victims, sel.planned)
      && sel.offered <= |sel.victims| && OffersFirst(sel.es, sel.victims, sel.offered)
  }

  lemma NotSelected(g: Layout, s0: System)
    ensures forall fs :: Selected(g, s0, fs, NoSelection)
  {
  }

  lemma MakeSelected(g: Layout, s0: System, before: seq<Event>, fs: seq<Event>, sel: Selection)
    requires sel.Selection? && sel.st == Run(g, s0, before) && fs == before + sel.es && sel.free == sel.st.swapFree
    requires GreedyChoice(sel.st.chunks, sel.ids, sel.aim, sel.free, sel.victims, sel.planned)
    requires sel.offered <= |sel.victims| && OffersFirst(sel.es, sel.victims, sel.offered)
    ensures Selected(g, s0, fs, sel)
  {
    hide Run, GreedyChoice, OffersFirst;
    assert fs[..|before|] == before && fs[|before|..] == sel.es;
  }

  /** cyclicManagedMemory::swapOut as the manager sees it: in which order the ring holds the chunks, how much more than minSize is
      wanted, and whether the swap may be extended is left open. */
  method SwapOutIdle(m: ManagedFileSwap, minSize: nat, ghost s0: System, ghost es: seq<Event>)
      returns (err: Cyclic.SwapErrorCode, thrown: bool, ghost unloaded: nat, ghost fs: seq<Event>, ghost sel: Selection)
    requires Follows(m, s0, es)
    modifies m, m.files, m.files.locs
    ensures Follows(m, s0, fs) && fresh(m.files.locs - old(m.files.locs))
    ensures Unloaded(old(m.State()), m.State(), unloaded)
    ensures !thrown && err.Success? ==> unloaded >= minSize && unloaded > 0
    ensures !thrown && !err.Success? ==> unloaded < minSize || unloaded == 0
    ensures Selected(m.g, s0, fs, sel) && (unloaded > 0 || err.NotEnoughCandidates? ==> sel.Selection?)
    ensures sel.Selection? ==> sel.aim >= minSize && if sel.planned == 0 then sel.offered == 0 else thrown || sel.offered == |sel.victims|
    ensures sel.Selection? ==> (sel.aim == minSize || sel.aim <= sel.free) && minSize <= sel.free
    ensures err.NothingToSwap? <==> old(m.chunks) == map[]
    ensures err.MoreThanTotalRam? <==> old(m.chunks) != map[] && minSize > m.memoryMax
    ensures err.SwapFull? ==> !thrown && m.files.swapFree < minSize
    ensures thrown ==> m.chunks == map[] || ThrownIn(m.g, s0, fs, |es|)
    ensures sel.Selection? ==> (unloaded == sel.planned && !thrown) || RefusedIn(m.g, s0, fs, |es|)
    ensures old(CanUnload(m.State(), minSize)) ==> (!thrown && err.Success?) || RefusedIn(m.g, s0, fs, |es|)
    ensures OnlyRoom(es, fs)
  {
    hide Follows, Unloaded, StillIdle, Run, GreedyChoice, OffersFirst, Selected, RefusedIn, ThrownIn, OnlyRoom, IdleBytes;
    ghost var st := m.State();
    UnloadedNothing(m.State());
    NoIdleBytes(m.chunks);
    OnlyRoomMore(es, []);
    assert es + [] == es;
    sel := NoSelection;
    NotSelected(m.g, s0);
    if m.chunks == map[] {
      return Cyclic.NothingToSwap, true, 0, es, sel;
    }
    if minSize > m.memoryMax {
      return Cyclic.MoreThanTotalRam, false, 0, es, sel;
    }
    var enough;
    enough, fs := FreeSwapFor(m, minSize, s0, es);
    UnloadedProgress(st, m.State(), 0);
    KeysPressed(st.chunks, m.chunks);
    if !enough {
      return Cyclic.SwapFull, false, 0, fs, sel;
    }
    var want: nat := *;
    var aim := Cyclic.Aim(minSize, want, m.files.swapFree);
    var ids, victims, planned := Chosen(m, aim, m.files.swapFree, minSize, s0, fs);
    ghost var s2, before := m.State(), fs;
    sel := Selection(s2, ids, aim, m.files.swapFree, victims, planned, 0, []);
    if planned == 0 {
      NothingOffered(victims);
      assert fs == before + [];
      MakeSelected(m.g, s0, before, fs, sel);
      return Cyclic.NotEnoughCandidates, false, 0, fs, sel;
    }
    var out;
    ghost var gs, offered;
    out, thrown, fs, gs, offered := SwapOutList(m, victims, s0, fs);
    OnlyRoomTwice(es, before, fs);
    RefusedLater(m.g, s0, es, before, fs);
    UnloadedThen(old(m.State()), s2, m.State(), out);
    sel := sel.(offered := offered, es := gs);
    MakeSelected(m.g, s0, before, fs, sel);
    unloaded := out;
    err := if out >= aim || (out > 0 && out >= minSize) then Cyclic.Success else Cyclic.NotEnoughCandidates;
  }

  /** minSize bytes can go out. */
  ghost predicate CanUnload(st: System, minSize: nat) {
    0 < minSize <= st.memoryMax && minSize <= IdleBytes(st.chunks) <= st.swapFree
  }

  lemma NoIdleBytes(chunks: Chunks)
    ensures chunks == map[] ==> IdleBytes(chunks) == 0
  {
  }

  lemma RefusedLater(g: Layout, s0: System, es: seq<Event>, before: seq<Event>, fs: seq<Event>)
    requires OnlyRoom(es, before)
    ensures RefusedIn(g, s0, fs, |before|) ==> RefusedIn(g, s0, fs, |es|)
    ensures ThrownIn(g, s0, fs, |before|) ==> ThrownIn(g, s0, fs, |es|)
  {
    RefusedMore(g, s0, fs, fs, |es|, |before|);
  }

  lemma NoDebt(m: ManagedFileSwap, s0: System, es: seq<Event>)
    requires Follows(m, s0, es)
    ensures m.files.swapFree >= 0 && m.memoryUsed >= 0 && m.memoryToBeFreed >= 0
  {
    hide SpaceOk, ShapesOk, TransfersOk, DataOk, Run;
    NothingNegative(m.State());
  }

  /** The selection, from the chunks as they are. */
  method Chosen(m: ManagedFileSwap, want: nat, swapFree: nat, ghost minSize: nat, ghost s0: System, ghost es: seq<Event>)
      returns (ids: seq<nat>, victims: seq<nat>, planned: nat)
    requires Follows(m, s0, es)
    ensures GreedyChoice(m.chunks, ids, want, swapFree, victims, planned) && m.State() == Run(m.g, s0, es)
    ensures planned == SizesOf(m.chunks, victims, |victims|)
    ensures minSize <= want && minSize <= IdleBytes(m.chunks) <= swapFree ==> planned >= minSize
    ensures NoneTwice(victims) && StillIdle(m.chunks, victims, 0) && (want == 0 ==> planned == 0)
  {
    hide m.Valid, Run, GreedyChoice;
    ids := RingOrder(m.chunks);
    victims, planned := ChooseVictims(m.chunks, ids, want, swapFree);
    ChoiceFits(m.chunks, ids, want, swapFree, victims, planned);
    FollowsInv(m, s0, es);
    ChoiceReaches(m.g, m.State(), ids, want, swapFree, victims, planned, minSize);
  }

  // ---------------------------------------------------------------- making room

  /** Whether somebody is waiting for a chunk to be swapped in, and for which. */
  datatype Requested = Nobody | For(id: nat)

  predicate Arriving(chunks: Chunks, who: Requested) {
    who.For? && who.id in chunks && (chunks[who.id].status.Resident() || chunks[who.id].status.SwapIn?)
  }

  /** Room: there is enough space. AlreadyThere: the chunk has been swapped in meanwhile. Refused: it throws
      because not enough can be swapped out. OutOfSwapSpace: pfmalloc has thrown, or there is no chunk at all. Starved: nothing
      can change any more unless another thread does something. */
  datatype Ensured = Room | AlreadyThere | Refused(err: Cyclic.SwapErrorCode) | OutOfSwapSpace | Starved

  /** Bytes that are leaving RAM are in flight. */
  lemma LeavingInFlight(m: ManagedFileSwap, s0: System, es: seq<Event>)
    requires Follows(m, s0, es) && m.memoryToBeFreed != 0
    ensures m.queued != 0
  {
    hide SpaceOk, ShapesOk, DataOk, Run;
    QueueCounts(m.g, m.State());
    TotalZero(m.chunks, LeavingSize);
    var id :| id in m.chunks && LeavingSize(m.chunks[id]) != 0;
    assert Moving(m.chunks[id]);
  }

  /** The measure goes down when something is unloaded, and does not go up otherwise. */
  lemma UnloadedProgress(s1: System, st: System, unloaded: nat)
    requires Unloaded(s1, st, unloaded)
    ensures Ranks(st) < Ranks(s1) || (Ranks(st) <= Ranks(s1) && InFlight(st) == InFlight(s1) && unloaded == 0)
    ensures st.memoryMax == s1.memoryMax && st.memoryUsed <= s1.memoryUsed && Pressed(s1.chunks, st.chunks)
    ensures st.memoryUsed - st.memoryToBeFreed == s1.memoryUsed - s1.memoryToBeFreed - unloaded
  {
  }

  /** How many bytes are still to be put on their way out so that sizereq bytes can fit. */
  ghost function Missing(st: System, sizereq: nat): int {
    sizereq + st.memoryUsed - st.memoryToBeFreed - st.memoryMax
  }

  lemma MovableUnloads(g: Layout, st: System, sizereq: nat)
    requires Inv(g, st) && Movable(st, sizereq) && Missing(st, sizereq) > 0
    ensures CanUnload(st, Missing(st, sizereq))
  {
    hide SpaceOk, ShapesOk, TransfersOk, DataOk, IdleBytes, StuckBytes;
    StayingBytes(st);
  }

  /** Half way through making room, which began in state st0 after es. Once it has been tried, what could go out is on its way,
      or something was refused. */
  ghost predicate RoomSoFar(g: Layout, s0: System, es: seq<Event>, fs: seq<Event>, st0: System, st: System, sizereq: nat, tried: bool) {
    && OnlyRoom(es, fs) && st.memoryMax == st0.memoryMax && st.memoryUsed <= st0.memoryUsed
    && Missing(st, sizereq) <= Missing(st0, sizereq) && (!tried ==> st == st0)
    && (tried && Movable(st0, sizereq) ==> Missing(st, sizereq) <= 0 || RefusedIn(g, s0, fs, |es|))
  }

  /** The next step was swapping out, or cleaning or waiting, which unloads nothing. */
  lemma RoomOn(g: Layout, s0: System, es: seq<Event>, fs: seq<Event>, gs: seq<Event>, st0: System, st: System, st': System,
               sizereq: nat, tried: bool, unloaded: nat)
    requires RoomSoFar(g, s0, es, fs, st0, st, sizereq, tried) && OnlyRoom(fs, gs)
    requires st'.memoryMax == st.memoryMax && st'.memoryUsed <= st.memoryUsed
    requires st'.memoryUsed - st'.memoryToBeFreed == st.memoryUsed - st.memoryToBeFreed - unloaded
    requires !tried && Movable(st0, sizereq) && Missing(st, sizereq) > 0 ==>
               unloaded >= Missing(st, sizereq) || RefusedIn(g, s0, gs, |fs|)
    ensures RoomSoFar(g, s0, es, gs, st0, st', sizereq, true)
    ensures tried && Movable(st0, sizereq) && Missing(st, sizereq) > 0 ==> RefusedIn(g, s0, gs, |es|)
    ensures RefusedIn(g, s0, gs, |fs|) ==> RefusedIn(g, s0, gs, |es|)
    ensures ThrownIn(g, s0, gs, |fs|) ==> ThrownIn(g, s0, gs, |es|)
  {
    hide RefusedIn, ThrownIn, Movable;
    OnlyRoomTwice(es, fs, gs);
    RefusedMore(g, s0, fs, gs, |es|, |es|);
    RefusedMore(g, s0, gs, gs, |es|, |fs|);
  }

  lemma FirstTry(m: ManagedFileSwap, s0: System, es: seq<Event>, fs: seq<Event>, st0: System, sizereq: nat, tried: bool)
    requires Follows(m, s0, fs) && RoomSoFar(m.g, s0, es, fs, st0, m.State(), sizereq, tried)
    ensures !tried && Movable(st0, sizereq) && Missing(m.State(), sizereq) > 0 ==> CanUnload(m.State(), Missing(m.State(), sizereq))
  {
    hide Movable, CanUnload, Inv;
    FollowsInv(m, s0, fs);
    if !tried && Movable(st0, sizereq) && Missing(m.State(), sizereq) > 0 {
      MovableUnloads(m.g, m.State(), sizereq);
    }
  }

  lemma RoomStarts(g: Layout, s0: System, es: seq<Event>, st: System, sizereq: nat)
    ensures RoomSoFar(g, s0, es, es, st, st, sizereq, false)
  {
  }

  /** What is known when it ends. */
  lemma RoomKnown(g: Layout, s0: System, es: seq<Event>, fs: seq<Event>, st0: System, st: System, sizereq: nat, tried: bool)
    requires RoomSoFar(g, s0, es, fs, st0, st, sizereq, tried)
    ensures OnlyRoom(es, fs) && st.memoryMax == st0.memoryMax && st.memoryUsed <= st0.memoryUsed
    ensures Missing(st, sizereq) <= Missing(st0, sizereq)
    ensures tried && Movable(st0, sizereq) && Missing(st, sizereq) > 0 ==> RefusedIn(g, s0, fs, |es|)
  {
  }

  /** Put on its way out what is missing. */
  method UnloadMissing(m: ManagedFileSwap, sizereq: nat, ghost s0: System, ghost es: seq<Event>, ghost fs: seq<Event>, ghost st0: System,
                       ghost tried: bool)
      returns (err: Cyclic.SwapErrorCode, thrown: bool, ghost gs: seq<Event>)
    requires Follows(m, s0, fs) && RoomSoFar(m.g, s0, es, fs, st0, m.State(), sizereq, tried) && Missing(m.State(), sizereq) > 0
    modifies m, m.files, m.files.locs
    ensures Follows(m, s0, gs) && fresh(m.files.locs - old(m.files.locs))
    ensures RoomSoFar(m.g, s0, es, gs, st0, m.State(), sizereq, true) && Pressed(old(m.chunks), m.chunks) && m.memoryMax == old(m.memoryMax)
    ensures Ranks(m.State()) < old(Ranks(m.State()))
            || (Ranks(m.State()) <= old(Ranks(m.State())) && InFlight(m.State()) == old(InFlight(m.State())))
    ensures thrown ==> m.chunks == map[] || ThrownIn(m.g, s0, gs, |es|)
    ensures thrown && Movable(st0, sizereq) ==> RefusedIn(m.g, s0, gs, |es|)
    ensures !thrown ==> if err.Success? then Ranks(m.State()) < old(Ranks(m.State())) else Missing(m.State(), sizereq) > 0
  {
    hide Follows, Unloaded, Ranks, InFlight, Pressed, Selected, RoomSoFar, OnlyRoom, RefusedIn, ThrownIn, Movable, CanUnload;
    ghost var s1, unloaded, sel := m.State(), 0, NoSelection;
    FirstTry(m, s0, es, fs, st0, sizereq, tried);
    var minSize := sizereq + m.memoryUsed - m.memoryMax - m.memoryToBeFreed;
    assert minSize == Missing(s1, sizereq);
    err, thrown, unloaded, gs, sel := SwapOutIdle(m, minSize, s0, fs);
    UnloadedProgress(s1, m.State(), unloaded);
    RoomOn(m.g, s0, es, fs, gs, st0, s1, m.State(), sizereq, tried, unloaded);
  }

  /** The last resort: drop all cached copies. */
  method CleanCache(m: ManagedFileSwap, sizereq: nat, ghost s0: System, ghost es: seq<Event>, ghost fs: seq<Event>, ghost st0: System)
      returns (ghost gs: seq<Event>)
    requires Follows(m, s0, fs) && RoomSoFar(m.g, s0, es, fs, st0, m.State(), sizereq, true)
    modifies m, m.files, m.files.locs
    ensures Follows(m, s0, gs) && fresh(m.files.locs - old(m.files.locs)) && RoomSoFar(m.g, s0, es, gs, st0, m.State(), sizereq, true)
    ensures Pressed(old(m.chunks), m.chunks) && m.queued == old(m.queued) && m.memoryMax == old(m.memoryMax)
    ensures m.memoryUsed == old(m.memoryUsed) && m.memoryToBeFreed == old(m.memoryToBeFreed)
    ensures Ranks(m.State()) < old(Ranks(m.State()))
            || (Ranks(m.State()) <= old(Ranks(m.State())) && InFlight(m.State()) == old(InFlight(m.State())))
  {
    hide Follows, Unloaded, Ranks, InFlight, Pressed, RoomSoFar, OnlyRoom, RefusedIn, ThrownIn, Movable;
    ghost var s2 := m.State();
    gs := CleanUp(m, 0, s0, fs);
    UnloadedProgress(s2, m.State(), 0);
    RoomOn(m.g, s0, es, fs, gs, st0, s2, m.State(), sizereq, true, 0);
  }

  /** ensureEnoughSpace: swap out and wait until sizereq bytes fit into RAM. As long as no other user step comes
      in between this comes to an end, since every round brings chunks closer to being swapped out, or
      parts to their arrival, or cleans the cache for the first time. If idle chunks could make room, and fit into the free swap, it
      only fails when the swap refuses one of them. */
  method EnsureEnoughSpace(m: ManagedFileSwap, sizereq: nat, who: Requested, outOfSwapIsFatal: bool, ghost s0: System, ghost es: seq<Event>)
      returns (r: Ensured, ghost fs: seq<Event>)
    requires Follows(m, s0, es)
    modifies m, m.files, m.files.locs
    ensures Follows(m, s0, fs) && fresh(m.files.locs - old(m.files.locs)) && OnlyRoom(es, fs)
    ensures m.memoryMax == old(m.memoryMax) && Pressed(old(m.chunks), m.chunks) && m.memoryUsed <= old(m.memoryUsed)
    ensures r.AlreadyThere? <==> Arriving(m.chunks, who) && !r.OutOfSwapSpace? && !r.Refused? && !r.Starved?
    ensures r.Room? ==> sizereq + m.memoryUsed <= m.memoryMax
    ensures r.Refused? ==> outOfSwapIsFatal && sizereq + m.memoryUsed > m.memoryMax && m.memoryToBeFreed == 0
    ensures r.Starved? ==> !outOfSwapIsFatal && sizereq + m.memoryUsed > m.memoryMax && m.queued == 0
    ensures r.OutOfSwapSpace? ==> m.chunks == map[] || ThrownIn(m.g, s0, fs, |es|)
    ensures old(Movable(m.State(), sizereq)) ==> r.Room? || r.AlreadyThere? || RefusedIn(m.g, s0, fs, |es|)
    ensures old(Missing(m.State(), sizereq)) <= 0 ==> r.Room? || r.AlreadyThere?
  {
    hide Follows, Unloaded, Ranks, InFlight, Pressed, Settling, Selected, RoomSoFar, OnlyRoom, RefusedIn, ThrownIn, Movable, CanUnload;
    var cacheCleaned := false;
    fs := es;
    NothingPressed(m.chunks);
    ghost var st0, tried := m.State(), false;
    RoomStarts(m.g, s0, es, st0, sizereq);
    while sizereq + m.memoryUsed > m.memoryMax
      invariant Follows(m, s0, fs) && fresh(m.files.locs - old(m.files.locs))
      invariant m.memoryMax == old(m.memoryMax) && Pressed(old(m.chunks), m.chunks)
      invariant RoomSoFar(m.g, s0, es, fs, st0, m.State(), sizereq, tried) && st0 == old(m.State())
      decreases Ranks(m.State()), InFlight(m.State()), sizereq + m.memoryUsed > m.memoryMax, !cacheCleaned
    {
      ghost var s1 := m.State();
      RoomKnown(m.g, s0, es, fs, st0, s1, sizereq, tried);
      if Arriving(m.chunks, who) {
        return AlreadyThere, fs;
      }
      if sizereq + m.memoryUsed - m.memoryToBeFreed > m.memoryMax {
        var err, thrown;
        err, thrown, fs := UnloadMissing(m, sizereq, s0, es, fs, st0, tried);
        PressedTwice(old(m.chunks), s1.chunks, m.chunks);
        tried := true;
        if thrown {
          RoomKnown(m.g, s0, es, fs, st0, m.State(), sizereq, tried);
          assert old(Missing(m.State(), sizereq)) > 0;
          return OutOfSwapSpace, fs;
        }
        if !err.Success? && m.memoryToBeFreed == 0 {
          RoomKnown(m.g, s0, es, fs, st0, m.State(), sizereq, tried);
          if !cacheCleaned {
            ghost var s2 := m.State();
            fs := CleanCache(m, sizereq, s0, es, fs, st0);
            PressedTwice(old(m.chunks), s2.chunks, m.chunks);
            cacheCleaned := true;
            continue;
          }
          if outOfSwapIsFatal {
            return Refused(err), fs;
          }
          ghost var s2 := m.State();
          fs := CleanCache(m, sizereq, s0, es, fs, st0);
          PressedTwice(old(m.chunks), s2.chunks, m.chunks);
          RoomKnown(m.g, s0, es, fs, st0, m.State(), sizereq, tried);
          if m.queued == 0 {
            return Starved, fs;
          }
        }
      }
      if sizereq + m.memoryUsed > m.memoryMax {
        if m.memoryToBeFreed != 0 {
          LeavingInFlight(m, s0, fs);
        }
        ghost var s2, before := m.State(), fs;
        fs := CheckForAIO(m, s0, fs);
        PressedTwice(old(m.chunks), s2.chunks, m.chunks);
        RoomOn(m.g, s0, es, before, fs, st0, s2, m.State(), sizereq, tried, 0);
        tried := true;
      }
    }
    RoomKnown(m.g, s0, es, fs, st0, m.State(), sizereq, tried);
    r := if Arriving(m.chunks, who) then AlreadyThere else Room;
  }

  // ---------------------------------------------------------------- calls of the user

  /** A step that a user has asked for, after what the manager has done to prepare it. */
  lemma UserStep(g: Layout, s0: System, st: System, es: seq<Event>, e: Event)
    requires Inv(g, st) && st == Run(g, s0, es) && Enabled(g, st, e)
    ensures Inv(g, Step(g, st, e)) && Step(g, st, e) == Run(g, s0, es + [e])
  {
    hide Inv, Run, Step, Enabled;
    KeepsStep(g, st, e);
    RunAppend(g, s0, es, [e]);
    RunOne(g, st, e);
  }

  lemma BeginsHere(m: ManagedFileSwap)
    requires m.Valid() && m.running.Idle?
    ensures Follows(m, m.State(), []) && Inv(m.g, m.State())
  {
  }

  /** mmalloc: the chunk is allocated once there is room for it; otherwise nothing has been booked. It is allocated for sure if idle
      chunks can make room, and there is free swap for each with what its last part may waste. If these fit into the free swap just
      so, it fails only when the swap refuses one of them on the way. */
  method Mmalloc(m: ManagedFileSwap, id: nat, sizereq: nat, outOfSwapIsFatal: bool, fill: Bytes)
      returns (r: Ensured, ghost es: seq<Event>)
    requires m.Valid() && m.running.Idle? && id !in m.chunks && sizereq > 0 && |fill| == Pad(sizereq, m.g.align)
    modifies m, m.files, m.files.locs
    ensures m.Valid() && m.running.Idle? && fresh(m.files.locs - old(m.files.locs)) && AllInternal(es)
    ensures r.Room? ==> m.State() == Run(m.g, old(m.State()), es + [Event.Mmalloc(id, sizereq, fill)])
    ensures r.Room? ==> m.chunks.Keys == old(m.chunks.Keys) + {id}
                        && m.chunks[id].status.Allocated? && m.chunks[id].size == Pad(sizereq, m.g.align)
                        && m.chunks[id].loc.Buffer? && m.chunks[id].loc.data == fill
    ensures !r.Room? ==> m.State() == Run(m.g, old(m.State()), es) && m.chunks.Keys == old(m.chunks.Keys) && !r.AlreadyThere?
    ensures old(Roomy(m.g, m.State(), Pad(sizereq, m.g.align))) ==> r.Room?
    ensures old(Movable(m.State(), Pad(sizereq, m.g.align))) ==> r.Room? || RefusedIn(m.g, old(m.State()), es, 0)
    ensures r.OutOfSwapSpace? ==> m.chunks == map[] || ThrownIn(m.g, old(m.State()), es, 0)
    ensures r.Refused? ==> outOfSwapIsFatal && Pad(sizereq, m.g.align) + m.memoryUsed > m.memoryMax && m.memoryToBeFreed == 0
    ensures r.Starved? ==> !outOfSwapIsFatal && Pad(sizereq, m.g.align) + m.memoryUsed > m.memoryMax && m.queued == 0
  {
    hide Inv, Pages.PageFiles.Valid, Run, AllInternal, Pressed, RefusedIn, ThrownIn, Movable, Roomy, OnlyRoom;
    ghost var s0 := m.State();
    BeginsHere(m);
    RunNothing(m.g, s0);
    var size := RoundUp(sizereq, m.g.align);
    r, es := EnsureEnoughSpace(m, size, Nobody, outOfSwapIsFatal, s0, []);
    RoomyServes(m.g, s0, es, size);
    KeysPressed(old(m.chunks), m.chunks);
    if r.Room? {
      UserStep(m.g, s0, m.State(), es, Event.Mmalloc(id, sizereq, fill));
      m.memoryUsed := m.memoryUsed + size;
      m.chunks := m.chunks[id := Chunk(Allocated, 0, size, Buffer(m.nextAddress, fill), [])];
      m.nextAddress := m.nextAddress + 1;
    }
  }

  lemma RoomyServes(g: Layout, s0: System, es: seq<Event>, need: nat)
    requires Inv(g, s0) && OnlyRoom([], es)
    ensures Roomy(g, s0, need) ==> Movable(s0, need) && !RefusedIn(g, s0, es, 0)
  {
    hide Inv, Run, RefusedIn, Movable, Roomy, OnlyRoom;
    RunNothing(g, s0);
    if Roomy(g, s0, need) {
      RoomyIsMovable(g, s0, need);
      StaysRoomy(g, s0, [], es, need);
    }
  }

  lemma KeysPressed(a: Chunks, b: Chunks)
    requires Pressed(a, b)
    ensures a.Keys == b.Keys
  {
  }

  /** What has to go so that size bytes are left could go, and fits into the free swap. */
  ghost predicate CanShrink(st: System, size: nat) {
    st.memoryUsed - size <= IdleBytes(st.chunks) <= st.swapFree
  }

  lemma ShrinkUnloads(g: Layout, st: System, size: nat)
    requires Inv(g, st) && size < st.memoryUsed && CanShrink(st, size)
    ensures CanUnload(st, st.memoryUsed - size)
  {
    hide SpaceOk, ShapesOk, TransfersOk, DataOk, IdleBytes, StuckBytes;
    StayingBytes(st);
  }

  /** The part of setMemoryLimit that has to make room below the new limit first. */
  method LowerLimit(m: ManagedFileSwap, size: nat) returns (ok: bool, thrown: bool, ghost es: seq<Event>)
    requires m.Valid() && m.running.Idle? && size < m.memoryUsed
    modifies m, m.files, m.files.locs
    ensures m.Valid() && m.running.Idle? && fresh(m.files.locs - old(m.files.locs)) && Pressed(old(m.chunks), m.chunks)
    ensures !thrown ==> m.memoryMax == if ok then size else old(m.memoryMax)
    ensures ok ==> exists before, after :: es == before + [SetLimit(size)] + after && AllInternal(before) && AllInternal(after)
    ensures m.State() == Run(m.g, old(m.State()), es)
    ensures old(CanShrink(m.State(), size)) ==> ok || RefusedIn(m.g, old(m.State()), es, 0)
    ensures old(CanShrink(m.State(), size) && Roomy(m.g, m.State(), 0)) ==> ok
    ensures !ok && thrown ==> m.chunks == map[] || ThrownIn(m.g, old(m.State()), es, 0)
  {
    hide Inv, Pages.PageFiles.Valid, Run, AllInternal, Pressed, Unloaded, Selected, RefusedIn, ThrownIn, Movable, Roomy, OnlyRoom, CanUnload,
      CanShrink;
    ghost var s0 := m.State();
    BeginsHere(m);
    NoDebt(m, s0, []);
    CeilingHolds(m);
    if CanShrink(s0, size) { ShrinkUnloads(m.g, s0, size); }
    var err;
    ghost var unloaded, sel;
    err, thrown, unloaded, es, sel := SwapOutIdle(m, m.memoryUsed - size, s0, []);
    UnloadedProgress(s0, m.State(), unloaded);
    RoomyServes(m.g, s0, es, 0);
    if thrown || !err.Success? {
      return false, thrown, es;
    }
    UserStep(m.g, s0, m.State(), es, SetLimit(size));
    m.memoryMax := size;
    ghost var s2, before := m.State(), es;
    BeginsHere(m);
    ghost var after;
    err, thrown, unloaded, after, sel := SwapOutIdle(m, 0, s2, []);
    ok := true;
    UnloadedProgress(s2, m.State(), unloaded);
    PressedTwice(old(m.chunks), s2.chunks, m.chunks);
    es := before + [SetLimit(size)] + after;
    RunAppend(m.g, s0, before + [SetLimit(size)], after);
  }

  /** setMemoryLimit: false leaves the limit as it was. */
  method SetMemoryLimit(m: ManagedFileSwap, size: nat) returns (ok: bool, thrown: bool, ghost es: seq<Event>)
    requires m.Valid() && m.running.Idle?
    modifies m, m.files, m.files.locs
    ensures m.Valid() && m.running.Idle? && fresh(m.files.locs - old(m.files.locs)) && Pressed(old(m.chunks), m.chunks)
    ensures !thrown ==> m.memoryMax == if ok then size else old(m.memoryMax)
    ensures ok ==> exists before, after :: es == before + [SetLimit(size)] + after && AllInternal(before) && AllInternal(after)
    ensures m.State() == Run(m.g, old(m.State()), es)
    ensures size > old(m.memoryMax) || size >= old(m.memoryUsed) ==> ok && !thrown && m.chunks == old(m.chunks)
    ensures old(CanShrink(m.State(), size)) ==> ok || RefusedIn(m.g, old(m.State()), es, 0)
    ensures old(CanShrink(m.State(), size) && Roomy(m.g, m.State(), 0)) ==> ok
    ensures !ok && thrown ==> m.chunks == map[] || ThrownIn(m.g, old(m.State()), es, 0)
  {
    hide Inv, Pages.PageFiles.Valid, Run, AllInternal, Pressed, Unloaded, Selected, RefusedIn, ThrownIn, Movable, Roomy, OnlyRoom, CanShrink;
    if size <= m.memoryMax && size < m.memoryUsed {
      ok, thrown, es := LowerLimit(m, size);
    } else {
      ghost var s0 := m.State();
      BeginsHere(m);
      NoDebt(m, s0, []);
      CeilingHolds(m);
      NothingPressed(m.chunks);
      assert Enabled(m.g, s0, SetLimit(size));
      UserStep(m.g, s0, s0, [], SetLimit(size));
      m.memoryMax := size;
      ok, thrown, es := true, false, [] + [SetLimit(size)] + [];
      assert es == [] + [SetLimit(size)];
    }
  }

  lemma CeilingHolds(m: ManagedFileSwap)
    requires m.Valid()
    ensures m.memoryUsed - m.memoryToBeFreed <= m.memoryMax
  {
  }

  // ---------------------------------------------------------------- using chunks

  lemma MovingInFlight(m: ManagedFileSwap, s0: System, es: seq<Event>, id: nat)
    requires Follows(m, s0, es) && id in m.chunks && Moving(m.chunks[id])
    ensures m.queued != 0
  {
    hide SpaceOk, ShapesOk, DataOk, Run;
    QueueCounts(m.g, m.State());
  }

  /** waitForSwapout: false if the chunk is not on its way out. */
  method WaitForSwapout(m: ManagedFileSwap, id: nat, ghost s0: System, ghost es: seq<Event>)
      returns (swapped: bool, ghost fs: seq<Event>)
    requires Follows(m, s0, es) && id in m.chunks
    modifies m, m.files`swapFree
    ensures Follows(m, s0, fs) && m.memoryMax == old(m.memoryMax)
    ensures Pressed(old(m.chunks), m.chunks) && Settling(old(m.chunks), m.chunks)
    ensures swapped <==> old(m.chunks[id].status.Out())
    ensures id in m.chunks && (swapped ==> m.chunks[id].status.Swapped?)
    ensures !swapped ==> m.chunks == old(m.chunks)
    ensures OnlyRoom(es, fs) && (old(m.chunks[id].status.Swapped?) ==> m.State() == old(m.State()))
  {
    hide Follows, InFlight, Ranks;
    fs := es;
    NothingPressed(m.chunks);
    if m.chunks[id].status.SwapIn? || m.chunks[id].status.Resident() {
      return false, fs;
    }
    while m.chunks[id].status.SwapOut?
      invariant Follows(m, s0, fs) && m.memoryMax == old(m.memoryMax) && OnlyRoom(es, fs)
      invariant old(m.chunks[id].status.Swapped?) ==> m.State() == old(m.State())
      invariant Pressed(old(m.chunks), m.chunks) && Settling(old(m.chunks), m.chunks)
      decreases InFlight(m.State())
    {
      fs := WaitOnce(m, id, old(m.chunks), s0, fs);
    }
    swapped := m.chunks[id].status.Swapped?;
  }

  /** One turn of a wait for a chunk that swaps in or out. */
  method WaitOnce(m: ManagedFileSwap, id: nat, ghost before: Chunks, ghost s0: System, ghost es: seq<Event>) returns (ghost fs: seq<Event>)
    requires Follows(m, s0, es) && id in m.chunks && Moving(m.chunks[id])
    requires Pressed(before, m.chunks) && Settling(before, m.chunks)
    modifies m, m.files`swapFree
    ensures Follows(m, s0, fs) && m.memoryMax == old(m.memoryMax)
    ensures Pressed(before, m.chunks) && Settling(before, m.chunks) && OnlyRoom(es, fs)
    ensures InFlight(m.State()) < old(InFlight(m.State()))
  {
    hide Follows, InFlight, Ranks, Pressed, Settling;
    ghost var mid := m.chunks;
    MovingInFlight(m, s0, es, id);
    fs := CheckForAIO(m, s0, es);
    SettlingTwice(before, mid, m.chunks);
    PressedTwice(before, mid, m.chunks);
  }

  /** waitForSwapin: false if the chunk is not there and not on its way. */
  method WaitForSwapin(m: ManagedFileSwap, id: nat, ghost s0: System, ghost es: seq<Event>)
      returns (there: bool, ghost fs: seq<Event>)
    requires Follows(m, s0, es) && id in m.chunks
    modifies m, m.files`swapFree
    ensures Follows(m, s0, fs) && m.memoryMax == old(m.memoryMax)
    ensures Pressed(old(m.chunks), m.chunks) && Settling(old(m.chunks), m.chunks)
    ensures there <==> !old(m.chunks[id].status.Out())
    ensures id in m.chunks && (there <==> m.chunks[id].status.Resident())
    ensures !there ==> fs == es && m.State() == old(m.State())
  {
    hide Follows, InFlight, Ranks;
    fs := es;
    NothingPressed(m.chunks);
    if m.chunks[id].status.SwapOut? || m.chunks[id].status.Swapped? {
      return false, fs;
    }
    while m.chunks[id].status.SwapIn?
      invariant Follows(m, s0, fs) && m.memoryMax == old(m.memoryMax)
      invariant Pressed(old(m.chunks), m.chunks) && Settling(old(m.chunks), m.chunks)
      decreases InFlight(m.State())
    {
      fs := WaitOnce(m, id, old(m.chunks), s0, fs);
    }
    there := m.chunks[id].status.Resident();
  }

  /** Sizes and use counts are what they were. */
  ghost predicate UsesKept(before: Chunks, after: Chunks) {
    && before.Keys == after.Keys
    && forall id :: id in before ==> after[id].size == before[id].size && after[id].useCnt == before[id].useCnt
  }

  lemma UsesKeptTwice(a: Chunks, b: Chunks, c: Chunks)
    requires UsesKept(a, b) && UsesKept(b, c)
    ensures UsesKept(a, c)
  {
  }

  lemma PressedKeepsUses(a: Chunks, b: Chunks)
    requires Pressed(a, b)
    ensures UsesKept(a, b) && a.Keys == b.Keys
    ensures forall id :: id in a && a[id].status.Swapped? ==> b[id].status.Swapped?
  {
  }

  /** Load one chunk if it is swapped and there is room for it. */
  method LoadIfItFits(m: ManagedFileSwap, id: nat, ghost s0: System, ghost es: seq<Event>) returns (bytes: nat, ghost fs: seq<Event>)
    requires Follows(m, s0, es) && id in m.chunks
    modifies m, m.files`swapFree
    ensures Follows(m, s0, fs) && UsesKept(old(m.chunks), m.chunks)
    ensures id in m.chunks && forall i :: i in old(m.chunks) && i != id ==> m.chunks[i] == old(m.chunks[i])
    ensures if old(m.chunks[id].status.Swapped? && m.chunks[id].size + m.memoryUsed <= m.memoryMax)
            then m.chunks[id].status.SwapIn? && bytes == m.chunks[id].size else m.chunks == old(m.chunks) && bytes == 0
  {
    hide Inv, m.Ready, Run, AllInternal, Enabled;
    ghost var s1 := m.State();
    bytes, fs := 0, es;
    if m.chunks[id].status.Swapped? && m.chunks[id].size + m.memoryUsed <= m.memoryMax {
      ghost var gs;
      bytes, gs := m.SwapIn(id, seq(m.chunks[id].size, i => 0));
      InternalSwapIn(gs, id);
      fs := es + gs;
      FollowsOn(m.g, s0, s1, m.State(), es, gs);
    }
  }

  lemma InternalSwapIn(es: seq<Event>, id: nat)
    requires exists fill, n: nat :: es == [SwapInChunk(id, fill)] + Scheduling(n)
    ensures AllInternal(es)
  {
  }

  /** What swapIn knows when it returns: the chunk is there or on its way, or it has been given up. */
  ghost predicate Tried(m: ManagedFileSwap, s0: System, es: seq<Event>, before: Chunks)
    reads m, m.files, m.files.locs
  {
    Follows(m, s0, es) && UsesKept(before, m.chunks)
  }

  /** There is no room for size bytes, and nothing is leaving RAM any more, or nothing is pending at all. */
  ghost predicate OutOfRoom(st: System, size: nat, outOfSwapIsFatal: bool) {
    size + st.memoryUsed > st.memoryMax && if outOfSwapIsFatal then st.memoryToBeFreed == 0 else st.queued == 0
  }

  /** ensureEnoughSpace on behalf of a chunk that is to be swapped in. */
  method RoomFor(m: ManagedFileSwap, id: nat, size: nat, outOfSwapIsFatal: bool, ghost before: Chunks, ghost s0: System, ghost es: seq<Event>)
      returns (room: bool, there: bool, ghost fs: seq<Event>)
    requires Tried(m, s0, es, before) && id in m.chunks && m.chunks[id].status.Swapped?
    modifies m, m.files, m.files.locs
    ensures Tried(m, s0, fs, before) && fresh(m.files.locs - old(m.files.locs)) && id in m.chunks
    ensures m.chunks[id].status.Swapped? && !there && m.memoryMax == old(m.memoryMax) && m.chunks[id].size == old(m.chunks[id].size)
    ensures room ==> size + m.memoryUsed <= m.memoryMax
    ensures OnlyRoom(es, fs) && m.memoryUsed <= old(m.memoryUsed)
    ensures !room ==> ThrownIn(m.g, s0, fs, |es|) || OutOfRoom(m.State(), size, outOfSwapIsFatal)
    ensures old(Missing(m.State(), size)) <= 0 ==> room
    ensures old(Roomy(m.g, m.State(), size)) ==> room
  {
    hide Follows, Pressed, UsesKept, Ranks, InFlight, ThrownIn, RefusedIn, Roomy, Movable, OnlyRoom;
    ghost var mid, st := m.chunks, m.State();
    FollowsInv(m, s0, es);
    var r;
    r, fs := EnsureEnoughSpace(m, size, For(id), outOfSwapIsFatal, s0, es);
    RoomyServesOn(m.g, s0, es, fs, st, size);
    PressedKeepsUses(mid, m.chunks);
    PressedSizes(mid, m.chunks, id);
    UsesKeptTwice(before, mid, m.chunks);
    room, there := r.Room?, r.AlreadyThere?;
  }

  lemma RoomyServesOn(g: Layout, s0: System, es: seq<Event>, fs: seq<Event>, st: System, need: nat)
    requires Inv(g, st) && st == Run(g, s0, es) && OnlyRoom(es, fs)
    ensures Roomy(g, st, need) ==> Movable(st, need) && !RefusedIn(g, s0, fs, |es|) && !ThrownIn(g, s0, fs, |es|) && Roomy(g, Run(g, s0, fs), need)
  {
    hide Inv, Run, RefusedIn, ThrownIn, Movable, Roomy, OnlyRoom;
    if Roomy(g, st, need) {
      RoomyIsMovable(g, st, need);
      StaysRoomy(g, s0, es, fs, need);
      ThrownIsRefused(g, s0, fs, |es|);
    }
  }

  /** The guesses of cyclicManagedMemory::swapIn: more swapped chunks, as long as there is room. */
  method LoadGuesses(m: ManagedFileSwap, id: nat, ghost before: Chunks, ghost s0: System, ghost es: seq<Event>)
      returns (ghost fs: seq<Event>)
    requires Tried(m, s0, es, before) && id in m.chunks
    modifies m, m.files`swapFree
    ensures Tried(m, s0, fs, before) && id in m.chunks && m.chunks[id] == old(m.chunks[id])
  {
    hide Follows, UsesKept;
    fs := es;
    var guesses := set i | i in m.chunks && m.chunks[i].status.Swapped? && i != id;
    var more: bool := *;
    while more && guesses != {}
      invariant Tried(m, s0, fs, before) && id in m.chunks && m.chunks[id] == old(m.chunks[id])
      invariant forall i :: i in guesses ==> i in m.chunks && i != id
      decreases guesses
    {
      ghost var mid := m.chunks;
      var i :| i in guesses;
      guesses := guesses - {i};
      var bytes;
      bytes, fs := LoadIfItFits(m, i, s0, fs);
      SameKeys(mid, m.chunks);
      UsesKeptTwice(before, mid, m.chunks);
      more := *;
    }
  }

  lemma SameKeys(a: Chunks, b: Chunks)
    requires UsesKept(a, b)
    ensures a.Keys == b.Keys
  {
  }

  /** Whether swapIn reads ahead; if so, how many bytes it wants to read, and how many it asks swapOut for if these do not fit. */
  datatype ReadAhead = Alone | Ahead(target: nat, more: nat)

  /** What swapIn makes room for is at least the chunk itself. */
  predicate Covers(p: ReadAhead, size: nat) { p.Alone? || (size <= p.target && size <= p.more) }

  /** swapIn does not swap out anything first. */
  ghost predicate Direct(p: ReadAhead, st: System) { p.Alone? || p.target + st.memoryUsed <= st.memoryMax }

  /** When a chunk of this size is brought in that was swapped out in state st0, after es; st is the state after fs. If what swapIn
      makes room for covers the chunk, it fails only when pfmalloc throws, or when there is no room and none is coming; not if
      idle chunks can make room and the swap has space for them. A read-ahead target that fits although the chunk does not
      makes it fail. */
  ghost predicate Attempted(g: Layout, s0: System, es: seq<Event>, fs: seq<Event>, st0: System, st: System, size: nat, p: ReadAhead,
                            outOfSwapIsFatal: bool, there: bool) {
    && (!there && Covers(p, size) ==> OnlyRoom(es, fs) && (ThrownIn(g, s0, fs, |es|) || OutOfRoom(st, size, outOfSwapIsFatal)))
    && (Covers(p, size) && Roomy(g, st0, size) ==> there)
    && (size + st0.memoryUsed <= st0.memoryMax && Covers(p, size) ==> there || ThrownIn(g, s0, fs, |es|))
    && (size + st0.memoryUsed <= st0.memoryMax && Direct(p, st0) ==> there)
    && (size + st0.memoryUsed > st0.memoryMax && p.Ahead? && Direct(p, st0) ==> !there)
  }

  /** cyclicManagedMemory::swapIn as the manager sees it: which chunks are read ahead is left open. False stands for an exception or for
      a wait that nobody ends. */
  method SwapInRequested(m: ManagedFileSwap, id: nat, p: ReadAhead, outOfSwapIsFatal: bool, ghost s0: System, ghost es: seq<Event>)
      returns (ok: bool, ghost fs: seq<Event>)
    requires Follows(m, s0, es) && id in m.chunks && !m.chunks[id].status.SwapOut?
    modifies m, m.files, m.files.locs
    ensures Tried(m, s0, fs, old(m.chunks)) && fresh(m.files.locs - old(m.files.locs)) && id in m.chunks
    ensures old(m.chunks[id].status.Swapped?) ==> m.chunks[id].status.Swapped? || m.chunks[id].status.SwapIn?
    ensures !old(m.chunks[id].status.Swapped?) ==> ok && m.chunks == old(m.chunks)
    ensures !ok ==> m.chunks[id].status.Swapped?
    ensures old(m.chunks[id].status.Swapped?) ==>
              Attempted(m.g, s0, es, fs, old(m.State()), m.State(), old(m.chunks[id].size), p, outOfSwapIsFatal, m.chunks[id].status.SwapIn?)
  {
    hide Follows, UsesKept, ThrownIn, RefusedIn, Roomy, OnlyRoom, OutOfRoom, Run, Inv, Attempted;
    fs := es;
    ghost var before, st0 := m.chunks, m.State();
    NothingKept(before);
    if m.chunks[id].status.Resident() || m.chunks[id].status.SwapIn? {
      return true, fs;
    }
    var bytes, size: nat := 0, m.chunks[id].size;
    ok, fs := RoomToRead(m, id, p, outOfSwapIsFatal, before, s0, fs);
    if !ok {
      NotAttempted(m.g, s0, es, fs, st0, m.State(), size, p, outOfSwapIsFatal);
      return;
    }
    ghost var mid, fits := m.chunks, size + m.memoryUsed <= m.memoryMax;
    bytes, fs := LoadIfItFits(m, id, s0, fs);
    UsesKeptTwice(before, mid, m.chunks);
    ok := p.Ahead? || bytes == size;
    if p.Ahead? {
      fs := LoadGuesses(m, id, before, s0, fs);
    }
    LoadAttempted(m.g, s0, es, fs, st0, m.State(), size, p, outOfSwapIsFatal, fits);
  }

  /** Swap out what has to go before a chunk is read; nothing if swapIn thinks that what it wants to read fits. */
  method RoomToRead(m: ManagedFileSwap, id: nat, p: ReadAhead, outOfSwapIsFatal: bool, ghost before: Chunks, ghost s0: System,
                    ghost es: seq<Event>)
      returns (ok: bool, ghost fs: seq<Event>)
    requires Tried(m, s0, es, before) && id in m.chunks && m.chunks[id].status.Swapped?
    modifies m, m.files, m.files.locs
    ensures Tried(m, s0, fs, before) && fresh(m.files.locs - old(m.files.locs)) && id in m.chunks
    ensures m.chunks[id].status.Swapped? && m.chunks[id].size == old(m.chunks[id].size) && m.memoryMax == old(m.memoryMax)
    ensures m.memoryUsed <= old(m.memoryUsed) && (p.Ahead? && old(Direct(p, m.State())) ==> ok && m.State() == old(m.State()))
    ensures ok && !(p.Ahead? && old(Direct(p, m.State()))) && Covers(p, m.chunks[id].size) ==> m.chunks[id].size + m.memoryUsed <= m.memoryMax
    ensures !ok ==> OnlyRoom(es, fs) && (ThrownIn(m.g, s0, fs, |es|) || OutOfRoom(m.State(), m.chunks[id].size, outOfSwapIsFatal))
    ensures old(Roomy(m.g, m.State(), m.chunks[id].size)) ==> ok
    ensures old(m.chunks[id].size + m.memoryUsed <= m.memoryMax) ==> ok || (!old(Direct(p, m.State())) && ThrownIn(m.g, s0, fs, |es|))
  {
    hide Follows, UsesKept, ThrownIn, RefusedIn, Roomy, OnlyRoom, OutOfRoom, Run, Inv;
    ok, fs := true, es;
    Ceiling(m, s0, es);
    if p.Ahead? && p.target + m.memoryUsed > m.memoryMax {
      ok, fs := RoomForMore(m, id, p.more, outOfSwapIsFatal, before, s0, fs);
    } else if p.Alone? {
      var there;
      ok, there, fs := RoomFor(m, id, m.chunks[id].size, outOfSwapIsFatal, before, s0, fs);
    }
  }

  lemma NotAttempted(g: Layout, s0: System, es: seq<Event>, fs: seq<Event>, st0: System, st: System, size: nat, p: ReadAhead,
                     outOfSwapIsFatal: bool)
    requires OnlyRoom(es, fs) && (ThrownIn(g, s0, fs, |es|) || OutOfRoom(st, size, outOfSwapIsFatal))
    requires !Roomy(g, st0, size) && (p.Alone? || !Direct(p, st0))
    requires size + st0.memoryUsed <= st0.memoryMax ==> !Direct(p, st0) && ThrownIn(g, s0, fs, |es|)
    ensures Attempted(g, s0, es, fs, st0, st, size, p, outOfSwapIsFatal, false)
  {
    hide OnlyRoom, ThrownIn, OutOfRoom, Roomy;
  }

  /** fits says that the chunk did fit once room had been made. */
  lemma LoadAttempted(g: Layout, s0: System, es: seq<Event>, fs: seq<Event>, st0: System, st: System, size: nat, p: ReadAhead,
                      outOfSwapIsFatal: bool, fits: bool)
    requires if p.Ahead? && Direct(p, st0) then fits <==> size + st0.memoryUsed <= st0.memoryMax else Covers(p, size) ==> fits
    requires size + st0.memoryUsed <= st0.memoryMax ==> fits
    ensures Attempted(g, s0, es, fs, st0, st, size, p, outOfSwapIsFatal, fits)
  {
    hide OnlyRoom, ThrownIn, OutOfRoom, Roomy;
  }

  lemma NothingKept(a: Chunks)
    ensures UsesKept(a, a)
  {
  }

  /** Room for the chunk and its guesses, or else for the chunk alone. */
  method RoomForMore(m: ManagedFileSwap, id: nat, more: nat, outOfSwapIsFatal: bool, ghost before: Chunks, ghost s0: System,
                     ghost es: seq<Event>)
      returns (ok: bool, ghost fs: seq<Event>)
    requires Tried(m, s0, es, before) && id in m.chunks && m.chunks[id].status.Swapped?
    modifies m, m.files, m.files.locs
    ensures Tried(m, s0, fs, before) && fresh(m.files.locs - old(m.files.locs)) && id in m.chunks
    ensures m.chunks[id].status.Swapped? && m.chunks[id].size == old(m.chunks[id].size) && m.memoryMax == old(m.memoryMax)
    ensures OnlyRoom(es, fs) && m.memoryUsed <= old(m.memoryUsed)
    ensures ok && m.chunks[id].size <= more ==> m.chunks[id].size + m.memoryUsed <= m.memoryMax
    ensures !ok ==> ThrownIn(m.g, s0, fs, |es|) || OutOfRoom(m.State(), m.chunks[id].size, outOfSwapIsFatal)
    ensures old(Roomy(m.g, m.State(), m.chunks[id].size)) ==> ok
    ensures old(m.chunks[id].size + m.memoryUsed <= m.memoryMax) ==> ok || ThrownIn(m.g, s0, fs, |es|)
  {
    hide Follows, UsesKept, ThrownIn, RefusedIn, Roomy, Movable, OnlyRoom, OutOfRoom, Run, Inv;
    var success, thrown, there;
    success, thrown, fs := UnloadForMore(m, id, more, before, s0, es);
    if thrown {
      return false, fs;
    }
    var target := more;
    ghost var mid := fs;
    if !success {
      target := m.chunks[id].size;
      ok, there, fs := RoomFor(m, id, target, outOfSwapIsFatal, before, s0, fs);
      ChainRoom(m.g, s0, es, mid, fs);
      if !ok {
        return;
      }
      Ceiling(m, s0, fs);
      mid := fs;
    }
    ok, there, fs := RoomFor(m, id, target, outOfSwapIsFatal, before, s0, fs);
    ChainRoom(m.g, s0, es, mid, fs);
  }

  /** The swapOut with which swapIn begins when it cannot read as much as it wants to. */
  method UnloadForMore(m: ManagedFileSwap, id: nat, more: nat, ghost before: Chunks, ghost s0: System, ghost es: seq<Event>)
      returns (success: bool, thrown: bool, ghost fs: seq<Event>)
    requires Tried(m, s0, es, before) && id in m.chunks && m.chunks[id].status.Swapped?
    modifies m, m.files, m.files.locs
    ensures Tried(m, s0, fs, before) && fresh(m.files.locs - old(m.files.locs)) && id in m.chunks
    ensures m.chunks[id].status.Swapped? && m.chunks[id].size == old(m.chunks[id].size) && m.memoryMax == old(m.memoryMax)
    ensures OnlyRoom(es, fs) && m.memoryUsed <= old(m.memoryUsed) && 0 <= m.memoryToBeFreed
    ensures (thrown ==> ThrownIn(m.g, s0, fs, |es|)) && (success && !thrown ==> Missing(m.State(), more) <= 0)
    ensures old(Roomy(m.g, m.State(), m.chunks[id].size)) ==> !thrown && Roomy(m.g, m.State(), m.chunks[id].size)
  {
    hide Follows, UsesKept, Unloaded, Pressed, Ranks, InFlight, Selected, ThrownIn, RefusedIn, Roomy, Movable, OnlyRoom, CanUnload, Run, Inv;
    ghost var s1, size := m.State(), m.chunks[id].size;
    Ceiling(m, s0, es);
    var err;
    ghost var unloaded, sel;
    err, thrown, unloaded, fs, sel := SwapOutIdle(m, more, s0, es);
    success := err.Success?;
    UnloadedProgress(s1, m.State(), unloaded);
    RoomyServesOn(m.g, s0, es, fs, s1, size);
    PressedKeepsUses(s1.chunks, m.chunks);
    PressedSizes(s1.chunks, m.chunks, id);
    UsesKeptTwice(before, s1.chunks, m.chunks);
    Ceiling(m, s0, fs);
  }

  lemma PressedSizes(a: Chunks, b: Chunks, id: nat)
    requires Pressed(a, b) && id in a
    ensures id in b && b[id].size == a[id].size
  {
  }

  lemma Ceiling(m: ManagedFileSwap, s0: System, es: seq<Event>)
    requires Follows(m, s0, es)
    ensures Inv(m.g, m.State()) && m.State() == Run(m.g, s0, es)
    ensures 0 <= m.memoryToBeFreed && m.memoryUsed - m.memoryToBeFreed <= m.memoryMax
  {
    hide SpaceOk, ShapesOk, TransfersOk, DataOk, Run;
    NothingNegative(m.State());
  }

  lemma ChainRoom(g: Layout, s0: System, es: seq<Event>, fs: seq<Event>, gs: seq<Event>)
    requires OnlyRoom(es, fs) && OnlyRoom(fs, gs)
    ensures OnlyRoom(es, gs) && (ThrownIn(g, s0, gs, |fs|) ==> ThrownIn(g, s0, gs, |es|))
  {
    RefusedMore(g, s0, gs, gs, |es|, |fs|);
  }

  lemma SameSize(m: ManagedFileSwap, s0: System, es: seq<Event>, before: Chunks, id: nat)
    requires UsesKept(before, m.chunks) && id in before
    ensures id in m.chunks && m.chunks[id].size == before[id].size
  {
  }

  /** The end of setUse, once the chunk is there. fallThrough says that the caller had to wait for it. */
  method TakeUse(m: ManagedFileSwap, id: nat, write: bool, ghost fallThrough: bool)
    requires m.Ready() && m.Linked(id) && m.chunks[id].status.Resident()
    requires fallThrough ==> !m.chunks[id].status.InUseWrite?
    modifies m`chunks, m.files, m.files.locs
    ensures m.Ready() && fresh(m.files.locs - old(m.files.locs))
    ensures m.State() == Use(m.g, old(m.State()), id, write, fallThrough)
  {
    hide Pages.PageFiles.Valid, IsChain, DropCopy;
    if !m.chunks[id].status.InUseWrite? {
      if write {
        m.chunks := m.chunks[id := m.chunks[id].(status := InUseWrite)];
        m.InvalidateCacheFor(id);
      } else {
        m.chunks := m.chunks[id := m.chunks[id].(status := InUseRead)];
      }
    }
  }

  /** What a successful setUse gives: the chunk in use, and in its buffer the bytes that it had before. */
  ghost predicate Delivered(before: System, after: System, id: nat, write: bool) {
    && Held(after, id) && id in before.chunks
    && after.chunks[id].useCnt == before.chunks[id].useCnt + 1
    && after.chunks[id].loc.data == Abs(before)[id].data
    && (write ==> after.chunks[id].status.InUseWrite? && after.chunks[id].swapBuf == [])
  }

  /** setUse of a chunk that is there. */
  method SetUseResident(m: ManagedFileSwap, id: nat, write: bool) returns (ghost es: seq<Event>)
    requires m.Valid() && m.running.Idle? && id in m.chunks && m.chunks[id].status.Resident()
    modifies m`chunks, m.files, m.files.locs
    ensures m.Valid() && fresh(m.files.locs - old(m.files.locs)) && es == [Event.SetUse(id, write)]
    ensures m.State() == Run(m.g, old(m.State()), es) && Delivered(old(m.State()), m.State(), id, write)
    ensures m.running.Idle?
  {
    hide Inv, Pages.PageFiles.Valid, IsChain, Run, Use, Abs;
    ghost var s0 := m.State();
    m.LinkedChunk(id);
    es := [Event.SetUse(id, write)];
    RunNothing(m.g, s0);
    UserStep(m.g, s0, s0, [], Event.SetUse(id, write));
    assert [] + [Event.SetUse(id, write)] == es;
    UseResult(m.g, s0, Event.SetUse(id, write));
    m.chunks := m.chunks[id := m.chunks[id].(useCnt := m.chunks[id].useCnt + 1)];
    TakeUse(m, id, write, false);
  }

  lemma UseResult(g: Layout, st: System, e: Event)
    requires Inv(g, st) && Enabled(g, st, e) && (e.SetUse? || e.FinishUse?)
    ensures var st' := Step(g, st, e);
            && Held(st', e.id) && e.id in st.chunks && st'.running == st.running
            && (e.write ==> st'.chunks[e.id].status.InUseWrite? && st'.chunks[e.id].swapBuf == [])
            && st'.chunks[e.id].useCnt == st.chunks[e.id].useCnt + (if e.SetUse? then 1 else 0)
            && st'.chunks[e.id].loc.data == Abs(st)[e.id].data
            && st'.chunks.Keys == st.chunks.Keys
  {
    hide SpaceOk, TransfersOk, DataOk, BooksOk, ReleaseChain, Overhead;
    UsePins(g, st, e);
    ShapeAt(g, st.chunks, e.id);
  }

  /** How a use of a chunk that was not there in state s0 has ended after es, in state st. */
  ghost predicate Served(g: Layout, s0: System, es: seq<Event>, st: System, id: nat, p: ReadAhead, outOfSwapIsFatal: bool, ok: bool) {
    && id in s0.chunks
    && var c := s0.chunks[id];
       && (c.status.SwapIn? ==> ok)
       && (Roomy(g, s0, c.size) && Covers(p, c.size) ==> ok)
       && (c.status.Swapped? && c.size + s0.memoryUsed <= s0.memoryMax ==>
             (Direct(p, s0) ==> ok) && (Covers(p, c.size) ==> ok || ThrownIn(g, s0, es, 0)))
       && (!ok && Covers(p, c.size) ==> ThrownIn(g, s0, es, 0) || OutOfRoom(st, c.size, outOfSwapIsFatal))
       && (c.status.Swapped? && c.size + s0.memoryUsed > s0.memoryMax && p.Ahead? && Direct(p, s0) ==> !ok)
  }

  /** What BringIn says of the state s1 in which the use is counted. */
  ghost predicate Brought(g: Layout, s1: System, mid: seq<Event>, st: System, id: nat, p: ReadAhead, outOfSwapIsFatal: bool, ok: bool) {
    && id in s1.chunks
    && if s1.chunks[id].status.SwapIn? then ok
       else exists fs, st' :: Prepared(g, s1, [], fs, s1, st', id, p, outOfSwapIsFatal)
                              && (ok <==> !st'.chunks[id].status.Swapped?) && (!ok ==> fs == mid && st' == st)
  }

  lemma ServedAway(g: Layout, s0: System, s1: System, mid: seq<Event>, es: seq<Event>, st: System, id: nat, p: ReadAhead,
                   outOfSwapIsFatal: bool, ok: bool)
    requires Enabled(g, s0, BeginUse(id)) && s1 == Step(g, s0, BeginUse(id)) && Brought(g, s1, mid, st, id, p, outOfSwapIsFatal, ok)
    requires [BeginUse(id)] + mid <= es
    ensures Served(g, s0, es, st, id, p, outOfSwapIsFatal, ok)
  {
    hide ThrownIn, RefusedIn, Roomy, OutOfRoom, Run;
    RunOne(g, s0, BeginUse(id));
    RefusedFrom(g, s0, [BeginUse(id)], mid, 0);
    RefusedMore(g, s0, [BeginUse(id)] + mid, es, 0, 1);
    CountedRoomy(g, s0, id);
  }

  lemma ServedThen(g: Layout, s0: System, es: seq<Event>, st: System, st': System, id: nat, p: ReadAhead, outOfSwapIsFatal: bool)
    requires Served(g, s0, es, st, id, p, outOfSwapIsFatal, true)
    ensures Served(g, s0, es, st', id, p, outOfSwapIsFatal, true)
  {
  }

  lemma CountedRoomy(g: Layout, st: System, id: nat)
    requires Enabled(g, st, BeginUse(id))
    ensures id in st.chunks && (Roomy(g, st, st.chunks[id].size) ==> Roomy(g, Step(g, st, BeginUse(id)), st.chunks[id].size))
  {
    SumsFollow(g, st.chunks, id, st.chunks[id].(useCnt := st.chunks[id].useCnt + 1));
  }

  /** setUse of a chunk that has to be brought in first. The use is counted before that and stays counted if
      it does not work out. */
  method SetUseAway(m: ManagedFileSwap, id: nat, write: bool, p: ReadAhead, outOfSwapIsFatal: bool)
      returns (ok: bool, ghost es: seq<Event>, ghost mid: seq<Event>)
    requires m.Valid() && m.running.Idle? && id in m.chunks && !m.chunks[id].status.Resident()
    modifies m, m.files, m.files.locs
    ensures m.Valid() && m.running.Idle? && fresh(m.files.locs - old(m.files.locs)) && AllInternal(mid)
    ensures es == [BeginUse(id)] + mid + if ok then [FinishUse(id, write)] else []
    ensures m.State() == Run(m.g, old(m.State()), es)
    ensures ok ==> Delivered(old(m.State()), m.State(), id, write)
    ensures !ok ==> id in m.chunks && m.chunks[id].status.Swapped? && m.chunks[id].useCnt == old(m.chunks[id].useCnt) + 1
    ensures Served(m.g, old(m.State()), es, m.State(), id, p, outOfSwapIsFatal, ok)
  {
    hide Inv, Pages.PageFiles.Valid, IsChain, Run, Use, Abs, AllInternal, UsesKept, Pressed, Settling, Content, Prepared, Served;
    ghost var s0 := m.State();
    RunNothing(m.g, s0);
    UserStep(m.g, s0, s0, [], BeginUse(id));
    m.chunks := m.chunks[id := m.chunks[id].(useCnt := m.chunks[id].useCnt + 1)];
    ghost var s1 := m.State();
    ok, mid := BringIn(m, id, p, outOfSwapIsFatal);
    KeptAt(s1.chunks, m.chunks, id);
    AfterBegin(m.g, s0, s1, m.State(), id, mid);
    if !ok {
      es := [BeginUse(id)] + mid + [];
      assert es == [BeginUse(id)] + mid;
      ServedAway(m.g, s0, s1, mid, es, m.State(), id, p, outOfSwapIsFatal, ok);
      return;
    }
    ghost var s2 := m.State();
    ServedAway(m.g, s0, s1, mid, [BeginUse(id)] + mid + [FinishUse(id, write)], s2, id, p, outOfSwapIsFatal, ok);
    es := [BeginUse(id)] + mid + [FinishUse(id, write)];
    UserStep(m.g, s0, m.State(), [BeginUse(id)] + mid, FinishUse(id, write));
    UseResult(m.g, m.State(), FinishUse(id, write));
    m.LinkedChunk(id);
    TakeUse(m, id, write, true);
    ServedThen(m.g, s0, es, s2, m.State(), id, p, outOfSwapIsFatal);
  }

  /** What the counted use and the manager's own steps leave of the chunk's bytes. */
  lemma AfterBegin(g: Layout, s0: System, s1: System, s2: System, id: nat, mid: seq<Event>)
    requires Inv(g, s0) && Enabled(g, s0, BeginUse(id)) && s1 == Step(g, s0, BeginUse(id))
    requires s2 == Run(g, s1, mid) && AllInternal(mid)
    ensures s2 == Run(g, s0, [BeginUse(id)] + mid) && id in s0.chunks
    ensures id in s2.chunks && Abs(s2)[id].data == Abs(s0)[id].data
  {
    hide Inv, Run, Content, Step;
    RunOne(g, s0, BeginUse(id));
    RunAppend(g, s0, [BeginUse(id)], mid);
    KeepsStep(g, s0, BeginUse(id));
    CountedOnly(g, s0, id);
    InternalSteps(g, s1, mid, id);
  }

  lemma KeptAt(a: Chunks, b: Chunks, id: nat)
    requires UsesKept(a, b) && id in a
    ensures id in b && b[id].useCnt == a[id].useCnt && b[id].size == a[id].size
  {
  }

  lemma CountedOnly(g: Layout, st: System, id: nat)
    requires Enabled(g, st, BeginUse(id))
    ensures var st' := Step(g, st, BeginUse(id));
            id in st'.chunks && id in st.chunks && Abs(st')[id].data == Abs(st)[id].data
            && st'.chunks[id].useCnt == st.chunks[id].useCnt + 1
  {
  }

  /** prepareUse of a chunk that is swapped out, or on its way there. */
  method PrepareUse(m: ManagedFileSwap, id: nat, p: ReadAhead, outOfSwapIsFatal: bool, ghost s0: System, ghost es: seq<Event>)
      returns (ok: bool, ghost fs: seq<Event>)
    requires Follows(m, s0, es) && id in m.chunks && m.chunks[id].status.Out()
    modifies m, m.files, m.files.locs
    ensures Follows(m, s0, fs) && fresh(m.files.locs - old(m.files.locs))
    ensures UsesKept(old(m.chunks), m.chunks) && id in m.chunks
    ensures m.chunks[id].status.Swapped? || (ok && m.chunks[id].status.SwapIn?)
    ensures Prepared(m.g, s0, es, fs, old(m.State()), m.State(), id, p, outOfSwapIsFatal)
  {
    hide Follows, UsesKept, Pressed, Settling, Attempted, ThrownIn, RefusedIn, Roomy, Movable, OnlyRoom, Prepared, Run, Inv;
    ghost var before, st0 := m.chunks, m.State();
    FollowsInv(m, s0, es);
    var swapped;
    swapped, fs := WaitForSwapout(m, id, s0, es);
    PressedKeepsUses(before, m.chunks);
    ghost var mid, st1, gs := m.chunks, m.State(), fs;
    FollowsInv(m, s0, fs);
    RoomyServesOn(m.g, s0, es, gs, st0, before[id].size);
    SameSize(m, s0, gs, before, id);
    ok, fs := SwapInRequested(m, id, p, outOfSwapIsFatal, s0, fs);
    UsesKeptTwice(before, mid, m.chunks);
    MakePrepared(m.g, s0, es, gs, fs, st0, st1, m.State(), id, p, outOfSwapIsFatal, before[id].size, m.chunks[id].status.SwapIn?);
  }

  /** The same when the chunk may still be on its way out in state st0. */
  ghost predicate Prepared(g: Layout, s0: System, es: seq<Event>, fs: seq<Event>, st0: System, st: System, id: nat, p: ReadAhead,
                           outOfSwapIsFatal: bool) {
    && id in st0.chunks && id in st.chunks
    && var size, there := st0.chunks[id].size, !st.chunks[id].status.Swapped?;
       && (!there && Covers(p, size) ==> ThrownIn(g, s0, fs, |es|) || OutOfRoom(st, size, outOfSwapIsFatal))
       && (Covers(p, size) && Roomy(g, st0, size) ==> there)
       && (st0.chunks[id].status.Swapped? ==>
             && (size + st0.memoryUsed <= st0.memoryMax && Covers(p, size) ==> there || ThrownIn(g, s0, fs, |es|))
             && (size + st0.memoryUsed <= st0.memoryMax && Direct(p, st0) ==> there)
             && (size + st0.memoryUsed > st0.memoryMax && p.Ahead? && Direct(p, st0) ==> !there))
  }

  lemma MakePrepared(g: Layout, s0: System, es: seq<Event>, gs: seq<Event>, fs: seq<Event>, st0: System, st1: System, st: System, id: nat,
                     p: ReadAhead, outOfSwapIsFatal: bool, size: nat, there: bool)
    requires id in st0.chunks && id in st.chunks && st0.chunks[id].size == size && there == !st.chunks[id].status.Swapped?
    requires Attempted(g, s0, gs, fs, st1, st, size, p, outOfSwapIsFatal, there) && OnlyRoom(es, gs)
    requires Roomy(g, st0, size) ==> Roomy(g, st1, size)
    requires st0.chunks[id].status.Swapped? ==> st1 == st0
    ensures Prepared(g, s0, es, fs, st0, st, id, p, outOfSwapIsFatal)
  {
    hide ThrownIn, RefusedIn, Roomy, OutOfRoom;
    RefusedMore(g, s0, fs, fs, |es|, |gs|);
  }

  /** What setUse does to bring the chunk in. */
  method BringIn(m: ManagedFileSwap, id: nat, p: ReadAhead, outOfSwapIsFatal: bool) returns (ok: bool, ghost es: seq<Event>)
    requires m.Valid() && m.running.Idle? && id in m.chunks && !m.chunks[id].status.Resident() && m.chunks[id].useCnt > 0
    modifies m, m.files, m.files.locs
    ensures Follows(m, old(m.State()), es) && fresh(m.files.locs - old(m.files.locs))
    ensures UsesKept(old(m.chunks), m.chunks) && id in m.chunks
    ensures if ok then m.chunks[id].status.Resident() && !m.chunks[id].status.InUseWrite? else m.chunks[id].status.Swapped?
    ensures Brought(m.g, old(m.State()), es, m.State(), id, p, outOfSwapIsFatal, ok)
  {
    hide m.Valid, Follows, UsesKept, Pressed, Inv, Prepared;
    ghost var s0, before := m.State(), m.chunks;
    BeginsHere(m);
    es := [];
    NothingKept(before);
    ghost var mid, fs, st := m.chunks, es, s0;
    if m.chunks[id].status.Out() {
      ok, es := PrepareUse(m, id, p, outOfSwapIsFatal, s0, es);
      mid, fs, st := m.chunks, es, m.State();
      PreparedIds(m.g, s0, [], fs, s0, st, id, p, outOfSwapIsFatal);
      if !ok {
        return;
      }
    }
    ok, es := WaitForSwapin(m, id, s0, es);
    PressedKeepsUses(mid, m.chunks);
    UsesKeptTwice(before, mid, m.chunks);
  }

  lemma PreparedIds(g: Layout, s0: System, es: seq<Event>, fs: seq<Event>, st0: System, st: System, id: nat, p: ReadAhead,
                    outOfSwapIsFatal: bool)
    requires Prepared(g, s0, es, fs, st0, st, id, p, outOfSwapIsFatal)
    ensures id in st0.chunks && id in st.chunks
  {
  }

  /** setUse. A chunk that is there or coming is always delivered, and so is one that is out, if idle chunks can make room for it and
      there is free swap for each of these with what its last part may waste. A chunk on disk that fits into RAM is delivered unless
      pfmalloc throws, and in any case if swapIn swaps out nothing first. The use fails only if pfmalloc throws or there is no room
      and none is coming; or if swapIn reads ahead and asks for less than the chunk itself. */
  method SetUse(m: ManagedFileSwap, id: nat, write: bool, p: ReadAhead, outOfSwapIsFatal: bool) returns (ok: bool, ghost es: seq<Event>)
    requires m.Valid() && m.running.Idle? && id in m.chunks
    modifies m, m.files, m.files.locs
    ensures m.Valid() && m.running.Idle? && fresh(m.files.locs - old(m.files.locs))
    ensures m.State() == Run(m.g, old(m.State()), es)
    ensures old(m.chunks[id].status.Resident()) ==> ok && es == [Event.SetUse(id, write)]
    ensures !old(m.chunks[id].status.Resident()) ==>
              exists mid :: AllInternal(mid) && es == [BeginUse(id)] + mid + if ok then [FinishUse(id, write)] else []
    ensures ok ==> Delivered(old(m.State()), m.State(), id, write)
    ensures !ok ==> id in m.chunks && m.chunks[id].status.Swapped? && m.chunks[id].useCnt == old(m.chunks[id].useCnt) + 1
    ensures old(m.chunks[id].status.SwapIn?) ==> ok
    ensures old(Roomy(m.g, m.State(), m.chunks[id].size)) && Covers(p, old(m.chunks[id].size)) ==> ok
    ensures old(m.chunks[id].status.Swapped? && m.chunks[id].size + m.memoryUsed <= m.memoryMax) ==>
              && (old(Direct(p, m.State())) ==> ok)
              && (Covers(p, old(m.chunks[id].size)) ==> ok || ThrownIn(m.g, old(m.State()), es, 0))
    ensures !ok && Covers(p, old(m.chunks[id].size)) ==>
              ThrownIn(m.g, old(m.State()), es, 0) || OutOfRoom(m.State(), old(m.chunks[id].size), outOfSwapIsFatal)
    ensures old(m.chunks[id].status.Swapped? && m.chunks[id].size + m.memoryUsed > m.memoryMax && p.Ahead? && Direct(p, m.State())) ==> !ok
  {
    hide m.Valid, Run, AllInternal, Delivered, ThrownIn, Roomy, OutOfRoom;
    if m.chunks[id].status.Resident() {
      ok := true;
      es := SetUseResident(m, id, write);
    } else {
      ghost var mid;
      ok, es, mid := SetUseAway(m, id, write, p, outOfSwapIsFatal);
    }
  }

  /** unsetUse; false if it throws because fewer uses are counted, or none are to be given back. */
  method UnsetUse(m: ManagedFileSwap, id: nat, times: nat) returns (ok: bool)
    requires m.Valid() && m.running.Idle? && id in m.chunks
    modifies m`chunks
    ensures m.Valid() && m.running.Idle?
    ensures ok <==> 0 < times <= old(m.chunks[id].useCnt)
    ensures ok ==> m.State() == Run(m.g, old(m.State()), [Event.UnsetUse(id, times)])
    ensures ok ==> m.chunks.Keys == old(m.chunks.Keys) && m.chunks[id].useCnt == old(m.chunks[id].useCnt) - times
                   && (m.chunks[id].status.InUse() <==> old(m.chunks[id].status.InUse()) && m.chunks[id].useCnt > 0)
    ensures !ok ==> m.State() == old(m.State())
  {
    hide Inv, Pages.PageFiles.Valid, Run;
    if times == 0 || m.chunks[id].useCnt < times {
      return false;
    }
    KeepsUnsetUse(m.g, m.State(), id, times);
    RunOne(m.g, m.State(), Event.UnsetUse(id, times));
    InUseResident(m, id);
    ok := true;
    var c := m.chunks[id].(useCnt := m.chunks[id].useCnt - times);
    if c.status.InUse() {
      c := c.(status := if c.useCnt == 0 then Allocated else c.status);
    }
    m.chunks := m.chunks[id := c];
  }

  lemma InUseResident(m: ManagedFileSwap, id: nat)
    requires m.Valid() && id in m.chunks && m.chunks[id].useCnt > 0
    ensures !m.chunks[id].status.Allocated?
  {
    hide SpaceOk, TransfersOk, DataOk, BooksOk;
    ShapeAt(m.g, m.chunks, id);
  }

  // ---------------------------------------------------------------- freeing chunks

  /** pffree waits until nothing is in flight for the parts of the chunk. */
  method WaitForParts(m: ManagedFileSwap, id: nat, ghost s0: System) returns (ghost es: seq<Event>)
    requires m.Valid() && m.running.Idle? && id in m.chunks && s0 == m.State()
    modifies m, m.files`swapFree
    ensures Follows(m, s0, es) && id in m.chunks && id !in m.transfers
    ensures m.chunks[id].size == old(m.chunks[id].size)
    ensures MayHaveSeen(m.chunks[id], old(m.chunks[id].status))
  {
    hide m.Valid, Run, AllInternal, InFlight, Ranks;
    BeginsHere(m);
    es := [];
    NothingPressed(m.chunks);
    while m.chunks[id].status.SwapIn? || m.chunks[id].status.SwapOut?
      invariant Follows(m, s0, es) && Pressed(old(m.chunks), m.chunks) && Settling(old(m.chunks), m.chunks)
      decreases InFlight(m.State())
    {
      es := WaitOnce(m, id, old(m.chunks), s0, es);
    }
    Waited(m, s0, es, old(m.chunks), id);
  }

  lemma Waited(m: ManagedFileSwap, s0: System, es: seq<Event>, before: Chunks, id: nat)
    requires Inv(m.g, s0) && s0.chunks == before && Follows(m, s0, es)
    requires Pressed(before, m.chunks) && Settling(before, m.chunks)
    requires id in m.chunks && !Moving(m.chunks[id])
    ensures id !in m.transfers && id in before && MayHaveSeen(m.chunks[id], before[id].status)
  {
    hide SpaceOk, DataOk, BooksOk, Run;
    ShapeAt(m.g, before, id);
  }

  /** What is left when a chunk has been taken out of the books and its parts have been given back. */
  method Discard(m: ManagedFileSwap, id: nat, seen: MemoryStatus)
    requires m.Valid() && id in m.chunks && id !in m.transfers
    modifies m`chunks, m`memoryUsed, m`memorySwapped, m`swapUsed, m.files, m.files.locs
    ensures m.Ready() && fresh(m.files.locs - old(m.files.locs))
    ensures m.State() == MfreeStep(m.g, old(m.State()), id, seen)
  {
    hide Inv, Pages.PageFiles.Valid, IsChain, Overhead, ReleaseChain;
    m.LinkedChunk(id);
    var c := m.chunks[id];
    if seen.Allocated? {
      m.ClaimUsageof(c.size, true, false);
    }
    if c.swapBuf != [] {
      m.InvalidateCacheFor(id);
      if c.loc.NoBuffer? {
        m.ClaimUsageof(c.size, false, false);
      }
    }
    m.chunks := m.chunks - {id};
  }

  lemma DiscardKeeps(g: Layout, st: System, id: nat, seen: MemoryStatus)
    requires Inv(g, st) && st.running.Idle? && id in st.chunks && id !in st.transfers
    requires MayHaveSeen(st.chunks[id], seen) && !seen.InUse() && !seen.SwapIn?
    ensures Enabled(g, st, Event.Mfree(id)) && MfreeStep(g, st, id, seen) == Step(g, st, Event.Mfree(id))
  {
    hide Inv, DropCopy;
  }

  /** mfree; false if it throws because the chunk is in use. A chunk that is on its way in is waited for, but
      its size then stays in memory_used for good. */
  method Mfree(m: ManagedFileSwap, id: nat) returns (ok: bool, ghost es: seq<Event>)
    requires m.Valid() && m.running.Idle? && id in m.chunks
    modifies m, m.files, m.files.locs
    ensures m.Ready() && fresh(m.files.locs - old(m.files.locs)) && m.running.Idle? && AllInternal(es)
    ensures ok <==> !old(m.chunks[id].status.InUse())
    ensures !ok ==> m.State() == old(m.State()) && es == []
    ensures ok ==> id !in m.chunks
    ensures ok && !old(m.chunks[id].status.SwapIn?) ==>
              m.Valid() && m.State() == Run(m.g, old(m.State()), es + [Event.Mfree(id)])
    ensures ok && old(m.chunks[id].status.SwapIn?) ==>
              m.memoryUsed == Total(m.chunks, RamSize) + old(m.chunks[id].size)
  {
    hide Inv, Pages.PageFiles.Valid, Run, AllInternal, MayHaveSeen, MfreeStep;
    ghost var s0 := m.State();
    es := [];
    BeginsHere(m);
    if m.chunks[id].status.InUse() {
      return false, es;
    }
    ok := true;
    var seen := m.chunks[id].status;
    es := WaitForParts(m, id, s0);
    ghost var s1 := m.State();
    MfreeLeak(m.g, s1, id, seen);
    if !seen.SwapIn? {
      DiscardKeeps(m.g, s1, id, seen);
      UserStep(m.g, s0, s1, es, Event.Mfree(id));
    }
    Discarded(m.g, s1, id, seen);
    Discard(m, id, seen);
  }

  lemma Discarded(g: Layout, st: System, id: nat, seen: MemoryStatus)
    requires id in st.chunks
    ensures id !in MfreeStep(g, st, id, seen).chunks && MfreeStep(g, st, id, seen).running == st.running
  {
  }

  // ---------------------------------------------------------------- the end

  /** waitForCleanExit: afterwards no chunk swaps in or out any more. */
  method WaitForCleanExit(m: ManagedFileSwap) returns (ghost es: seq<Event>)
    requires m.Valid() && m.running.Idle?
    modifies m, m.files`swapFree
    ensures Follows(m, old(m.State()), es) && Settling(old(m.chunks), m.chunks)
    ensures m.queued == 0 && m.transfers == map[] && forall id :: id in m.chunks ==> !Moving(m.chunks[id])
  {
    hide Follows, Pressed, Settling, InFlight, Ranks;
    BeginsHere(m);
    es := [];
    NothingPressed(m.chunks);
    while m.queued != 0
      invariant Follows(m, old(m.State()), es) && Pressed(old(m.chunks), m.chunks) && Settling(old(m.chunks), m.chunks)
      decreases InFlight(m.State())
    {
      ghost var before := m.chunks;
      es := CheckForAIO(m, old(m.State()), es);
      SettlingTwice(old(m.chunks), before, m.chunks);
      PressedTwice(old(m.chunks), before, m.chunks);
    }
    AllSettled(m, old(m.State()), es);
  }

  lemma AllSettled(m: ManagedFileSwap, s0: System, es: seq<Event>)
    requires Follows(m, s0, es) && m.queued == 0
    ensures m.transfers == map[] && forall id :: id in m.chunks ==> !Moving(m.chunks[id])
  {
    hide SpaceOk, ShapesOk, DataOk, Run;
    QueueCounts(m.g, m.State());
  }
}
