/**
 pfmalloc and pffree on whole chunks: a chunk's data lies in one block, or is scattered over a chain
 of blocks.
 */
module PageChains {
  import opened Numbers
  import opened Ordered
  import opened Totals
  import opened PageSpace
  import opened PageAlloc

  // ---------------------------------------------------------------- chains

  /** Blocks by global offset. */
  type Parts = map<nat, Block>

  ghost predicate Ascending(ks: seq<nat>) {
    forall i: nat, j: nat :: i < j < |ks| ==> ks[i] < ks[j]
  }

  ghost function Offsets(ks: seq<nat>): set<nat> {
    set k | k in ks
  }

  /** ks are the global offsets of the parts that hold chunk id, in order: parts linked one to the
      next, the last one marked as end and naming the chunk. Offsets ascend, so there is no cycle. */
  ghost predicate IsChain(u: Parts, ks: seq<nat>, id: nat) {
    && ks != [] && ks[0] in u
    && if |ks| == 1 then
         u[ks[0]].status == End && u[ks[0]].link == Owner(id)
       else
         && u[ks[0]].status == Part && u[ks[0]].link == Next(ks[1]) && ks[0] < ks[1]
         && IsChain(u, ks[1..], id)
  }

  /** Bytes of data in a chain. */
  ghost function ChainSize(u: Parts, ks: seq<nat>): nat
    requires Offsets(ks) <= u.Keys
  {
    if ks == [] then 0 else u[ks[0]].size + ChainSize(u, ks[1..])
  }

  /** Bytes lost to padding and to rests that are not worth a node. */
  ghost function Overhead(u: Parts, ks: seq<nat>): int
    requires Offsets(ks) <= u.Keys
  {
    if ks == [] then 0 else u[ks[0]].extent - u[ks[0]].size + Overhead(u, ks[1..])
  }

  lemma {:induction false} ChainAscends(u: Parts, ks: seq<nat>, id: nat)
    requires IsChain(u, ks, id)
    ensures Ascending(ks) && Offsets(ks) <= u.Keys
  {
    if |ks| > 1 {
      ChainAscends(u, ks[1..], id);
      assert ks == [ks[0]] + ks[1..];
    }
  }

  /** A chain only depends on its own blocks. */
  lemma {:induction false} ChainKept(u: Parts, v: Parts, ks: seq<nat>, id: nat)
    requires IsChain(u, ks, id)
    requires forall k: nat :: k in ks ==> k in u && k in v && u[k] == v[k]
    ensures IsChain(v, ks, id)
  {
    if |ks| > 1 {
      ChainKept(u, v, ks[1..], id);
    }
  }

  lemma {:induction false} ChainSizeKept(u: Parts, v: Parts, ks: seq<nat>)
    requires forall k: nat :: k in ks ==> k in u && k in v && u[k] == v[k]
    ensures Offsets(ks) <= u.Keys && Offsets(ks) <= v.Keys && ChainSize(u, ks) == ChainSize(v, ks)
    ensures Overhead(u, ks) == Overhead(v, ks)
  {
    if ks != [] {
      ChainSizeKept(u, v, ks[1..]);
    }
  }

  /** Only the last part of a chain occupies more than its data. */
  lemma {:induction false} OverheadIsLast(g: Layout, u: Parts, ks: seq<nat>, id: nat)
    requires IsChain(u, ks, id) && forall k: nat :: k in u ==> Fitted(g, u[k])
    ensures Offsets(ks) <= u.Keys && var last := ks[|ks| - 1]; Overhead(u, ks) == u[last].extent - u[last].size
    ensures Overhead(u, ks) >= 0
  {
    ChainAscends(u, ks, id);
    if |ks| > 1 {
      OverheadIsLast(g, u, ks[1..], id);
    } else {
      assert Overhead(u, ks[1..]) == 0;
      PadIsLeast(u[ks[0]].size, g.align);
    }
  }

  /** The link of the first part leads to the second. */
  lemma SecondPart(u: Parts, ks: seq<nat>, id: nat)
    requires IsChain(u, ks, id)
    ensures |ks| > 1 ==> u[ks[0]].status == Part && u[ks[0]].link == Next(ks[1]) && ks[0] < ks[1] && ks[1] in u
    ensures |ks| == 1 ==> u[ks[0]].status == End
  {
    if |ks| > 1 {
      assert ks[1..][0] == ks[1];
    }
  }

  /** The head of a chain can be taken away. */
  lemma ChainTail(u: Parts, v: Parts, ks: seq<nat>, id: nat)
    requires IsChain(u, ks, id) && v == u - {ks[0]}
    ensures Offsets(ks) <= u.Keys && Offsets(ks[1..]) <= v.Keys
    ensures Overhead(v, ks[1..]) == Overhead(u, ks[1..])
    ensures |ks| > 1 ==> IsChain(v, ks[1..], id)
  {
    ChainAscends(u, ks, id);
    forall k: nat | k in ks[1..]
      ensures k in u && k in v && u[k] == v[k]
    {
      var i :| 0 <= i < |ks[1..]| && ks[1..][i] == k;
      assert ks[0] < ks[i + 1];
    }
    ChainSizeKept(u, v, ks[1..]);
    if |ks| > 1 {
      ChainKept(u, v, ks[1..], id);
    }
  }

  /** A chain of n bytes for chunk id has been added, and nothing else has changed. */
  ghost predicate Stored(before: Parts, after: Parts, ks: seq<nat>, n: nat, id: nat) {
    && IsChain(after, ks, id)
    && Offsets(ks) <= after.Keys && ChainSize(after, ks) == n
    && Offsets(ks) !! before.Keys
    && after - Offsets(ks) == before
  }

  lemma StoredOne(before: Parts, after: Parts, k: nat, n: nat, id: nat)
    requires k !in before && k in after && after == before[k := after[k]]
    requires after[k].status == End && after[k].link == Owner(id) && after[k].size == n
    ensures Stored(before, after, [k], n, id)
  {
    assert Offsets([k]) == {k};
    assert [k][1..] == [];
    UpdateUndone(before, k, after[k]);
  }

  lemma StoredMore(before: Parts, mid: Parts, after: Parts, k: nat, ks: seq<nat>, n: nat, id: nat)
    requires k !in before && k in mid && mid == before[k := mid[k]]
    requires Stored(mid, after, ks, n, id)
    requires mid[k].status == Part && mid[k].link == Next(ks[0]) && k < ks[0]
    ensures Stored(before, after, [k] + ks, n + mid[k].size, id)
  {
    assert ([k] + ks)[1..] == ks;
    assert Offsets([k] + ks) == {k} + Offsets(ks);
    assert k in after - Offsets(ks);
    assert k in after && after[k] == mid[k];
    assert after - ({k} + Offsets(ks)) == (after - Offsets(ks)) - {k};
    UpdateUndone(before, k, mid[k]);
  }

  // ---------------------------------------------------------------- pfmalloc

  /** Free blocks that could take n bytes in one piece. */
  ghost function Fitting(s: Space, n: nat): set<nat> {
    set k | k in s.blocks && s.blocks[k].status.Free? && n <= s.blocks[k].extent
  }

  /** free_space.begin(). */
  ghost function FirstFree(s: Space): (k: nat)
    requires Fitting(s, 0) != {}
    ensures IsFree(s, k)
  {
    Least(Fitting(s, 0))
  }

  ghost function SecondFree(s: Space): (k: nat)
    requires Fitting(s, 0) != {} && Fitting(s, 0) != {FirstFree(s)}
    ensures IsFree(s, k) && FirstFree(s) < k
  {
    assert Fitting(s, 0) - {FirstFree(s)} != {};
    Least(Fitting(s, 0) - {FirstFree(s)})
  }

  lemma SomeFree(s: Space)
    requires 0 < FreeBytes(s)
    ensures Fitting(s, 0) != {}
  {
    TotalZero(s.blocks, FreeExtent);
    var j: nat :| j in s.blocks && FreeExtent(s.blocks[j]) != 0;
    assert j in Fitting(s, 0);
  }

  /** Once more is needed than the first free block can give, there is a second one. */
  lemma AnotherFree(s: Space, n: nat)
    requires Fitting(s, 0) != {} && s.blocks[FirstFree(s)].extent < n <= FreeBytes(s)
    ensures Fitting(s, 0) != {FirstFree(s)}
  {
    var k := FirstFree(s);
    TotalSplit(s.blocks, FreeExtent, k);
    TotalZero(s.blocks - {k}, FreeExtent);
    var j: nat :| j in s.blocks - {k} && FreeExtent((s.blocks - {k})[j]) != 0;
    assert j in Fitting(s, 0) && j != k;
  }

  /** Free bytes below offset x: what has been counted when the walk over the free map arrives there. */
  ghost function FreeUnder(s: Space, x: nat): nat {
    Total((map k | k in s.blocks && s.blocks[k].status.Free? && k < x :: s.blocks[k]), Extent)
  }

  lemma FreeUnderFirst(s: Space, k: nat)
    requires IsLeast(Fitting(s, 0), k)
    ensures FreeUnder(s, k) == 0
  {
    var m := map j | j in s.blocks && s.blocks[j].status.Free? && j < k :: s.blocks[j];
    assert forall j: nat :: j in m ==> j in Fitting(s, 0);
    assert m == map[];
  }

  lemma FreeUnderStep(s: Space, k: nat, n: nat)
    requires IsFree(s, k) && IsLeast(Above(Fitting(s, 0), k), n)
    ensures FreeUnder(s, n) == FreeUnder(s, k) + s.blocks[k].extent
  {
    var m := map j | j in s.blocks && s.blocks[j].status.Free? && j < n :: s.blocks[j];
    var l := map j | j in s.blocks && s.blocks[j].status.Free? && j < k :: s.blocks[j];
    assert k < n by { assert n in Above(Fitting(s, 0), k); }
    assert forall j: nat :: j in m && k < j ==> j in Above(Fitting(s, 0), k);
    TotalSplit(m, Extent, k);
    assert m - {k} == l;
  }

  lemma FreeUnderLast(s: Space, k: nat)
    requires IsFree(s, k) && Above(Fitting(s, 0), k) == {}
    ensures FreeBytes(s) == FreeUnder(s, k) + s.blocks[k].extent
  {
    var m := map j | j in s.blocks && s.blocks[j].status.Free? :: s.blocks[j];
    var l := map j | j in s.blocks && s.blocks[j].status.Free? && j < k :: s.blocks[j];
    TotalWhere(s.blocks, FreeExtent, m, Extent);
    assert forall j: nat :: j in m ==> j in Fitting(s, 0) && j !in Above(Fitting(s, 0), k);
    TotalSplit(m, Extent, k);
    assert m - {k} == l;
  }

  lemma {:induction false} TotalMonotone(m: map<nat, Block>, l: map<nat, Block>, f: Block -> nat)
    requires forall k: nat :: k in l ==> k in m && l[k] == m[k]
    ensures Total(l, f) <= Total(m, f)
    decreases |m|
  {
    if m != map[] {
      var j :| j in m;
      TotalSplit(m, f, j);
      TotalMonotone(m - {j}, l - {j}, f);
      if j in l {
        TotalSplit(l, f, j);
      } else {
        assert l - {j} == l;
      }
    } else {
      assert l == map[];
    }
  }

  /** Nothing that is counted exceeds the free bytes. */
  lemma FreeUnderBound(s: Space, k: nat)
    requires IsFree(s, k)
    ensures FreeUnder(s, k) + s.blocks[k].extent <= FreeBytes(s)
  {
    var m := map j | j in s.blocks && s.blocks[j].status.Free? :: s.blocks[j];
    var l := map j | j in s.blocks && s.blocks[j].status.Free? && j < k :: s.blocks[j];
    TotalWhere(s.blocks, FreeExtent, m, Extent);
    TotalSplit(m, Extent, k);
    TotalMonotone(m - {k}, l, Extent);
  }

  /** Take the whole first free block as a part that continues in the second one. */
  ghost function TakeFirst(g: Layout, s: Space): Space
    requires Fitting(s, 0) != {} && Fitting(s, 0) != {FirstFree(s)}
  {
    var k := FirstFree(s);
    Carve(g, s, k, s.blocks[k].extent, Part, Next(SecondFree(s)))
  }

  lemma TakeFirstValid(g: Layout, s: Space)
    requires Valid(g, s) && Fitting(s, 0) != {} && Fitting(s, 0) != {FirstFree(s)}
    ensures Valid(g, TakeFirst(g, s))
    ensures s.blocks[FirstFree(s)].extent > 0
    ensures TakeFirst(g, s).size == s.size
    ensures FreeBytes(TakeFirst(g, s)) == FreeBytes(s) - s.blocks[FirstFree(s)].extent
    ensures Used(TakeFirst(g, s)) == Used(s)[FirstFree(s) := TakeFirst(g, s).blocks[FirstFree(s)]]
    ensures Fitting(TakeFirst(g, s), 0) == Fitting(s, 0) - {FirstFree(s)}
    ensures TakeFirst(g, s).blocks == s.blocks[FirstFree(s) :=
              Block(s.blocks[FirstFree(s)].extent, s.blocks[FirstFree(s)].extent, Part, Next(SecondFree(s)))]
  {
    var k := FirstFree(s);
    var extent := s.blocks[k].extent;
    CarveValid(g, s, k, extent, Part, Next(SecondFree(s)));
    CarveShape(g, s, k, extent, Part, Next(SecondFree(s)));
    ExtentAligned(g, s, k);
    TotalUpdate(s.blocks, FreeExtent, k, Block(extent, extent, Part, Next(SecondFree(s))));
  }

  datatype Allocation = Allocation(space: Space, chain: seq<nat>)

  /** Fill free blocks from the lowest offset upwards until n bytes are placed. */
  ghost function Scatter(g: Layout, s: Space, n: nat, id: nat): Allocation
    requires Valid(g, s) && 0 < n <= FreeBytes(s)
    decreases n
  {
    SomeFree(s);
    var k := FirstFree(s);
    if n <= s.blocks[k].extent then
      Allocation(Carve(g, s, k, n, End, Owner(id)), [k])
    else
      AnotherFree(s, n);
      TakeFirstValid(g, s);
      var rest := Scatter(g, TakeFirst(g, s), n - s.blocks[k].extent, id);
      Allocation(rest.space, [k] + rest.chain)
  }

  /** pfmalloc once there is enough free space: the lowest block that fits, or else scattered. */
  ghost function Alloc(g: Layout, s: Space, n: nat, id: nat): Allocation
    requires Valid(g, s) && 0 < n <= FreeBytes(s)
  {
    if Fitting(s, n) != {} then
      var k := Least(Fitting(s, n));
      Allocation(Carve(g, s, k, n, End, Owner(id)), [k])
    else
      Scatter(g, s, n, id)
  }

  /** What pfmalloc promises: the state stays valid, the result is a chain of exactly n bytes in
      space that was free, and nothing else in use has changed. */
  ghost predicate Placed(g: Layout, s: Space, n: nat, id: nat, r: Allocation) {
    && Valid(g, r.space) && r.space.size == s.size
    && Stored(Used(s), Used(r.space), r.chain, n, id)
    && Offsets(r.chain) <= Fitting(s, 0)
  }

  lemma CarvePlaced(g: Layout, s: Space, n: nat, id: nat, k: nat)
    requires Valid(g, s) && IsFree(s, k) && 0 < n <= s.blocks[k].extent
    ensures Placed(g, s, n, id, Allocation(Carve(g, s, k, n, End, Owner(id)), [k]))
  {
    var t := Carve(g, s, k, n, End, Owner(id));
    CarveValid(g, s, k, n, End, Owner(id));
    StoredOne(Used(s), Used(t), k, n, id);
    assert Offsets([k]) == {k};
  }

  lemma {:induction false} ScatterPlaced(g: Layout, s: Space, n: nat, id: nat)
    requires Valid(g, s) && 0 < n <= FreeBytes(s)
    ensures Placed(g, s, n, id, Scatter(g, s, n, id))
    ensures Fitting(s, 0) != {} && Scatter(g, s, n, id).chain[0] == FirstFree(s)
    decreases n
  {
    hide Valid, Placed;
    SomeFree(s);
    var k := FirstFree(s);
    if n <= s.blocks[k].extent {
      CarvePlaced(g, s, n, id, k);
    } else {
      AnotherFree(s, n);
      TakeFirstValid(g, s);
      var t, m := TakeFirst(g, s), n - s.blocks[k].extent;
      ScatterPlaced(g, t, m, id);
      var r := Scatter(g, t, m, id);
      assert FirstFree(t) == Least(Fitting(s, 0) - {k});
      ScatterStep(g, s, m, id, r);
      assert Scatter(g, s, n, id) == Allocation(r.space, [k] + r.chain);
    }
  }

  lemma ScatterStep(g: Layout, s: Space, n: nat, id: nat, r: Allocation)
    requires Valid(g, s) && Fitting(s, 0) != {} && Fitting(s, 0) != {FirstFree(s)}
    requires Placed(g, TakeFirst(g, s), n, id, r)
    requires r.chain[0] == Least(Fitting(s, 0) - {FirstFree(s)})
    ensures Placed(g, s, n + s.blocks[FirstFree(s)].extent, id, Allocation(r.space, [FirstFree(s)] + r.chain))
  {
    var k, t := FirstFree(s), TakeFirst(g, s);
    TakeFirstValid(g, s);
    StoredMore(Used(s), Used(t), Used(r.space), k, r.chain, n, id);
    assert Offsets([k] + r.chain) == {k} + Offsets(r.chain);
  }

  /** Whenever the free bytes suffice allocation succeeds, in one piece exactly if some block fits,
      and then at the lowest such offset. */
  lemma AllocPlaced(g: Layout, s: Space, n: nat, id: nat)
    requires Valid(g, s) && 0 < n <= FreeBytes(s)
    ensures Placed(g, s, n, id, Alloc(g, s, n, id))
    ensures |Alloc(g, s, n, id).chain| == 1 <==> Fitting(s, n) != {}
    ensures Fitting(s, n) != {} ==> IsLeast(Fitting(s, n), Alloc(g, s, n, id).chain[0])
  {
    if Fitting(s, n) != {} {
      CarvePlaced(g, s, n, id, Least(Fitting(s, n)));
    } else {
      ScatterPlaced(g, s, n, id);
      assert FirstFree(s) !in Fitting(s, n);
      AnotherFree(s, n);
    }
  }

  // ---------------------------------------------------------------- pffree

  /** pffree: give back the parts of a chain one after the other. */
  ghost function ReleaseChain(g: Layout, s: Space, ks: seq<nat>): Space
    decreases |ks|
  {
    if ks == [] || ks[0] !in s.blocks then s else ReleaseChain(g, Release(g, s, ks[0]), ks[1..])
  }

  lemma {:induction false} ReleaseChainValid(g: Layout, s: Space, ks: seq<nat>)
    requires Valid(g, s) && Offsets(ks) <= Used(s).Keys
    requires forall i: nat, j: nat :: i < j < |ks| ==> ks[i] != ks[j]
    ensures Valid(g, ReleaseChain(g, s, ks)) && ReleaseChain(g, s, ks).size == s.size
    ensures Used(ReleaseChain(g, s, ks)) == Used(s) - Offsets(ks)
    decreases |ks|
  {
    if ks != [] {
      var k, rest := ks[0], ks[1..];
      assert k in Offsets(ks);
      assert InUse(s, k);
      ReleaseValid(g, s, k);
      assert Offsets(ks) == {k} + Offsets(rest);
      assert k !in Offsets(rest);
      ReleaseChainValid(g, Release(g, s, k), rest);
      RemovalsCommute(Used(s), {k}, Offsets(rest));
    }
  }

  /** Freeing an allocation undoes it exactly, however it was scattered. */
  lemma FreeUndoesAlloc(g: Layout, s: Space, n: nat, id: nat)
    requires Valid(g, s) && 0 < n <= FreeBytes(s)
    ensures ReleaseChain(g, Alloc(g, s, n, id).space, Alloc(g, s, n, id).chain) == s
  {
    var r := Alloc(g, s, n, id);
    AllocPlaced(g, s, n, id);
    ChainAscends(Used(r.space), r.chain, id);
    ReleaseChainValid(g, r.space, r.chain);
    Canonical(g, ReleaseChain(g, r.space, r.chain), s);
  }

  /** Two chains may be freed in either order. */
  lemma FreesCommute(g: Layout, s: Space, a: seq<nat>, b: seq<nat>)
    requires Valid(g, s) && Offsets(a) <= Used(s).Keys && Offsets(b) <= Used(s).Keys
    requires Ascending(a) && Ascending(b) && Offsets(a) !! Offsets(b)
    ensures ReleaseChain(g, ReleaseChain(g, s, a), b) == ReleaseChain(g, ReleaseChain(g, s, b), a)
  {
    ReleaseChainValid(g, s, a);
    ReleaseChainValid(g, s, b);
    ReleaseChainValid(g, ReleaseChain(g, s, a), b);
    ReleaseChainValid(g, ReleaseChain(g, s, b), a);
    RemovalsCommute(Used(s), Offsets(a), Offsets(b));
    Canonical(g, ReleaseChain(g, ReleaseChain(g, s, a), b), ReleaseChain(g, ReleaseChain(g, s, b), a));
  }
}
