/** Inputs for which the program does not keep what one would hope for; the general conditions are proved
    beside the operations themselves. */
module Corners {
  import opened Numbers
  import opened Ordered
  import opened Totals
  import opened PageSpace
  import opened PageAlloc
  import opened PageChains
  import opened Disk
  import opened ChunkStatus
  import opened Lifecycle
  import opened SwapInvariant
  import opened Invariant
  import opened Ownership
  import opened Reachable
  import opened Accounting

  // ---------------------------------------------------------------- page files

  /** Asking for no bytes takes the free block out of the map. */
  lemma EmptyRequest()
    ensures var g, s := Geometry(8, 4, 1), Space(8, map[0 := Block(8, 8, Free, Nothing)]);
            g.Sane() && Tiled(g, s) && !Tiled(g, Carve(g, s, 0, 0, End, Owner(1)))
  {
    var g, s := Geometry(8, 4, 1), Space(8, map[0 := Block(8, 8, Free, Nothing)]);
    assert Multiple(8, 4) && Multiple(8, 8) && Multiple(0, 8);
    assert !Multiple(1, 8) && !Multiple(2, 8) && !Multiple(3, 8) && !Multiple(4, 8) && !Multiple(5, 8) && !Multiple(6, 8) && !Multiple(7, 8);
    CarveZero(g, s, 0, 0, 1);
  }

  /** A page file of eight bytes, four of them used by chunk 0. */
  const G: Layout := Geometry(8, 1, 1)
  const HalfUsed := Space(8, map[0 := Block(4, 4, End, Owner(0)), 4 := Block(4, 4, Free, Nothing)])

  lemma HalfUsedValid()
    ensures Valid(G, HalfUsed) && FreeBytes(HalfUsed) == 4 && Used(HalfUsed) == map[0 := HalfUsed.blocks[0]]
  {
    var s := HalfUsed;
    assert Multiple(8, 8) && Multiple(0, 8) && Multiple(4, 1) && Multiple(0, 1) && Pad(4, 1) == 4;
    assert !Multiple(1, 8) && !Multiple(2, 8) && !Multiple(3, 8) && !Multiple(4, 8) && !Multiple(5, 8) && !Multiple(6, 8) && !Multiple(7, 8);
    assert Stop(s, 0) == 4 && Stop(s, 4) == 8;
    TotalSplit(s.blocks, FreeExtent, 0);
    var rest := s.blocks - {0};
    assert rest == map[4 := Block(4, 4, Free, Nothing)];
    TotalSplit(rest, FreeExtent, 4);
    assert rest - {4} == map[];
  }

  const ZEROS: Bytes := [0, 0, 0, 0, 0, 0, 0, 0]

  /** With this page file any chunks will do of which chunk 0 has four bytes, and only chunk 0 a copy. */
  lemma HalfUsedSpace(chunks: Chunks)
    requires 0 in chunks && chunks[0].swapBuf == [0] && chunks[0].size == 4 && forall id :: id in chunks && id != 0 ==> chunks[id].swapBuf == []
    ensures SpaceOk(G, HalfUsed, ZEROS, chunks) && Total(Used(HalfUsed), DataSize) == 4
    ensures Fits(ZEROS, Used(HalfUsed), [0]) && OnDisk(ZEROS, Used(HalfUsed), [0]) == ZEROS[..4]
  {
    hide Valid, FreeBytes;
    HalfUsedValid();
    var u, own := Used(HalfUsed), Own(chunks);
    assert own == map[0 := [0]];
    assert [0][1..] == [];
    assert Offsets([0]) == {0} && ChainSize(u, [0]) == 4;
    assert IsChain(u, [0], 0);
    assert 0 in own && 0 in own[0];
    assert Owned(own, 0);
    TotalSplit(u, DataSize, 0);
    assert u - {0} == map[];
    assert OnDisk(ZEROS, u, []) == [];
    assert PartBytes(ZEROS, u, 0) == ZEROS[0..4];
  }

  /** The sums over one chunk, and over two. */
  lemma SumsOfOne(a: Chunk, f: Chunk -> nat)
    ensures Total(map[0 := a], f) == f(a)
  {
    TotalSplit(map[0 := a], f, 0);
    assert map[0 := a] - {0} == map[];
  }

  lemma SumsOfTwo(a: Chunk, b: Chunk, f: Chunk -> nat)
    ensures Total(map[0 := a, 1 := b], f) == f(a) + f(b)
  {
    TotalSplit(map[0 := a, 1 := b], f, 1);
    assert map[0 := a, 1 := b] - {1} == map[0 := a];
    SumsOfOne(a, f);
  }

  /** A manager with a cached chunk 0 of four bytes and a chunk 1 of eight. */
  const CACHED := Chunk(Allocated, 0, 4, Buffer(0, ZEROS[..4]), [0])
  const LARGE := Chunk(Allocated, 0, 8, Buffer(1, ZEROS), [])
  const FULL := System(12, 12, 0, 0, 8, 0, 0, map[0 := CACHED, 1 := LARGE], map[], Idle, HalfUsed, ZEROS, 2)

  lemma AnySize(n: nat)
    ensures Multiple(n, 1)
  {
    PadIsLeast(n, 1);
  }

  lemma FullInv()
    ensures Inv(G, FULL)
  {
    hide FreeBytes, Valid, Used, SpaceOk, Multiple;
    HalfUsedValid();
    HalfUsedSpace(FULL.chunks);
    AnySize(4);
    AnySize(8);
    SumsOfTwo(CACHED, LARGE, RamSize);
    SumsOfTwo(CACHED, LARGE, LeavingSize);
    SumsOfTwo(CACHED, LARGE, SwapSize);
    SumsOfTwo(CACHED, LARGE, CachedSize);
    SumsOfTwo(CACHED, LARGE, CopySize);
    TotalZero(FULL.transfers, Load);
  }

  ghost predicate TwoChunks(st: System) {
    && st.chunks.Keys == {0, 1} && st.space == HalfUsed
    && st.chunks[0].status.Allocated? && st.chunks[0].size == 4 && st.chunks[0].swapBuf == [0]
    && st.chunks[1].status.Allocated? && st.chunks[1].size == 8 && st.chunks[1].swapBuf == []
  }

  /** Storing chunk 1 fails, although dropping the copy of chunk 0 has just made room for it. */
  lemma JustEnoughFails()
    ensures Inv(G, FULL) && Valid(G, FULL.space) && 8 <= FULL.swapFree
    ensures var p := Pfmalloc(G, FULL, 8, 1); p.outcome.Thrown? && FreeBytes(p.st.space) == 8
  {
    hide FreeBytes, Valid, ReleaseChain, Inv;
    FullInv();
    HalfUsedValid();
    assert TwoChunks(FULL);
    assert 4 in Fitting(FULL.space, 0);
    assert CachedAbove(FULL, -1) == {0};
    assert Least({0}) == 0;
    CleanOnce(FULL);
    DropOnce();
  }

  lemma CleanOnce(st: System)
    requires TwoChunks(st)
    ensures CleanFrom(G, st, 4, -1, 0) == Cleaned(DropCopy(G, st, 0), 4)
  {
    hide DropCopy;
    assert CachedAbove(st, -1) == {0};
    assert Least({0}) == 0;
    CleaningEnds(G, st, -1, 0);
    assert CleanFrom(G, DropCopy(G, st, 0), 4, 0, 4) == Cleaned(DropCopy(G, st, 0), 4);
  }

  lemma DropOnce()
    ensures FreeBytes(ReleaseChain(G, HalfUsed, [0])) == 8
  {
    hide ReleaseChain, Valid;
    HalfUsedValid();
    var t := ReleaseChain(G, HalfUsed, [0]);
    assert Offsets([0]) == {0};
    ReleaseChainValid(G, HalfUsed, [0]);
    assert Used(t) == map[];
    BytesAddUp(G, t);
  }

  // ---------------------------------------------------------------- life cycle

  /** A chunk of four bytes on its way in, all of it in flight. */
  const COMING := Chunk(SwapIn, 0, 4, Buffer(0, ZEROS[..4]), [0])
  const LOADING := System(4, 4, 4, 0, 4, 4, 1, map[0 := COMING], map[0 := Transfer(1, false, 1, {0})], Idle, HalfUsed, ZEROS, 1)

  lemma LoadingInv()
    ensures Inv(G, LOADING)
  {
    hide FreeBytes, Valid, Used, SpaceOk, Multiple;
    HalfUsedValid();
    HalfUsedSpace(LOADING.chunks);
    AnySize(4);
    SumsOfOne(COMING, RamSize);
    SumsOfOne(COMING, LeavingSize);
    SumsOfOne(COMING, SwapSize);
    SumsOfOne(COMING, CachedSize);
    SumsOfOne(COMING, CopySize);
    TotalSplit(LOADING.transfers, Load, 0);
    assert LOADING.transfers - {0} == map[];
  }

  /** It is freed; its part arrives; then it is gone, but its four bytes stay booked. */
  lemma FreedOnItsWayIn()
    ensures Inv(G, LOADING) && Enabled(G, LOADING, Arrive(0, 0))
    ensures var st := Step(G, LOADING, Arrive(0, 0));
            && Inv(G, st) && 0 in st.chunks && 0 !in st.transfers
            && var st' := MfreeStep(G, st, 0, SwapIn); st'.chunks == map[] && st'.memoryUsed == 4 && !BooksOk(st')
  {
    hide ReleaseChain, Overhead, OverheadOf, Inv, MovePart, MfreeStep, BooksOk, PartInBounds;
    LoadingInv();
    LoadingArrives();
    KeepsStep(G, LOADING, Arrive(0, 0));
    var st := Step(G, LOADING, Arrive(0, 0));
    MfreeLeak(G, st, 0, SwapIn);
    MfreeFields(G, st, 0, SwapIn);
    assert st.chunks - {0} == map[];
    assert Total(map[], RamSize) == 0;
  }

  lemma LoadingArrives()
    ensures PartInBounds(LOADING, 0, 0)
    ensures var st := Step(G, LOADING, Arrive(0, 0));
            && st.chunks.Keys == {0} && st.chunks[0].status.Allocated? && st.chunks[0].size == 4 && st.chunks[0].swapBuf == [0]
            && st.transfers == map[] && st.memoryUsed == 4
  {
    hide Valid, FreeBytes;
    HalfUsedValid();
    HalfUsedSpace(LOADING.chunks);
    assert [0][1..] == [];
    assert Offsets([0]) == {0} && ChainSize(Used(HalfUsed), [0]) == 4;
    PartOffsetBounds(Used(HalfUsed), [0], 0);
    assert LOADING.transfers - {0} == map[];
  }

  /** RAM is full of a chunk in use, and another chunk is on disk. */
  const ONDISK := Chunk(Swapped, 0, 4, NoBuffer, [0])
  const BUSY := Chunk(InUseWrite, 1, 8, Buffer(1, ZEROS), [])
  const CROWDED := System(8, 8, 4, 0, 4, 4, 0, map[0 := ONDISK, 1 := BUSY], map[], Idle, HalfUsed, ZEROS, 2)

  lemma CrowdedInv()
    ensures Inv(G, CROWDED)
  {
    hide FreeBytes, Valid, Used, SpaceOk, Multiple;
    HalfUsedValid();
    HalfUsedSpace(CROWDED.chunks);
    AnySize(4);
    AnySize(8);
    SumsOfTwo(ONDISK, BUSY, RamSize);
    SumsOfTwo(ONDISK, BUSY, LeavingSize);
    SumsOfTwo(ONDISK, BUSY, SwapSize);
    SumsOfTwo(ONDISK, BUSY, CachedSize);
    SumsOfTwo(ONDISK, BUSY, CopySize);
    TotalZero(CROWDED.transfers, Load);
  }

  const WAITING := CROWDED.(chunks := CROWDED.chunks[0 := ONDISK.(useCnt := 1)])

  /** A use of chunk 0 begins, but it can neither come in nor can room be made for it. The use fails, and stays counted. */
  lemma FailedUse()
    ensures Inv(G, CROWDED) && Enabled(G, CROWDED, BeginUse(0)) && Step(G, CROWDED, BeginUse(0)) == WAITING
    ensures Inv(G, WAITING) && WAITING.transfers == map[] && WAITING.chunks[0] == ONDISK.(useCnt := 1)
    ensures forall fill :: !Enabled(G, WAITING, SwapInChunk(0, fill))
    ensures forall id :: !Enabled(G, WAITING, SwapOutChunk(id))
  {
    hide Inv, Valid;
    CrowdedInv();
    KeepsStep(G, CROWDED, BeginUse(0));
  }
}
