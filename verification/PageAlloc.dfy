/**
 What taking space from the page files and giving it back does to the value of PageSpace: the
 splitting of allocInFree and the merging of pffree.
 */
module PageAlloc {
  import opened Numbers
  import opened Ordered
  import opened Totals
  import opened PageSpace

  // ---------------------------------------------------------------- splitting and joining

  /** t is s with block k cut in two at m. */
  ghost predicate SplitOf(s: Space, t: Space, k: nat, m: nat) {
    && s.size == t.size
    && k in s.blocks && k < m < Stop(s, k) && m !in s.blocks
    && (forall j :: j in t.blocks <==> j in s.blocks || j == m)
    && Stop(t, k) == m && Stop(t, m) == Stop(s, k)
    && forall j :: j in s.blocks && j != k ==> t.blocks[j].extent == s.blocks[j].extent
  }

  lemma SplitTiled(g: Layout, s: Space, t: Space, k: nat, m: nat)
    requires Tiled(g, s) && SplitOf(s, t, k, m) && Multiple(m, g.align)
    ensures Tiled(g, t)
  {
    forall j: nat | j in t.blocks
      ensures Boundary(t, Stop(t, j)) && j < t.size && t.blocks[j].extent > 0 && Multiple(j, g.align)
    {
      SplitClosed(g, s, t, k, m, j);
    }
    forall i: nat, j: nat | i in t.blocks && j in t.blocks && i < j
      ensures Stop(t, i) <= j
    {
      SplitDisjoint(g, s, t, k, m, i, j);
    }
  }

  lemma SplitClosed(g: Layout, s: Space, t: Space, k: nat, m: nat, j: nat)
    requires Tiled(g, s) && SplitOf(s, t, k, m) && Multiple(m, g.align) && j in t.blocks
    ensures Boundary(t, Stop(t, j)) && j < t.size && t.blocks[j].extent > 0 && Multiple(j, g.align)
  {
    if j == m || j == k {
      assert Boundary(s, Stop(s, k));
    } else {
      assert Boundary(s, Stop(s, j));
    }
  }

  lemma SplitDisjoint(g: Layout, s: Space, t: Space, k: nat, m: nat, i: nat, j: nat)
    requires Tiled(g, s) && SplitOf(s, t, k, m) && i in t.blocks && j in t.blocks && i < j
    ensures Stop(t, i) <= j
  {
    if i == m {
      assert Stop(s, k) <= j;
    } else if j == m {
      assert i == k || i < k;
      assert i < k ==> Stop(s, i) <= k;
    } else {
      assert Stop(s, i) <= j;
    }
  }

  lemma UnsplitTiled(g: Layout, s: Space, t: Space, k: nat, m: nat)
    requires Tiled(g, t) && SplitOf(s, t, k, m) && !Multiple(m, g.page)
    ensures Tiled(g, s)
  {
    forall j: nat | j in s.blocks
      ensures Boundary(s, Stop(s, j)) && j < s.size && s.blocks[j].extent > 0 && Multiple(j, g.align)
    {
      UnsplitClosed(g, s, t, k, m, j);
    }
    forall i: nat, j: nat | i in s.blocks && j in s.blocks && i < j
      ensures Stop(s, i) <= j
    {
      assert Stop(t, i) <= j;
      assert m < j ==> Stop(t, m) <= j;
    }
  }

  lemma UnsplitClosed(g: Layout, s: Space, t: Space, k: nat, m: nat, j: nat)
    requires Tiled(g, t) && SplitOf(s, t, k, m) && j in s.blocks
    ensures Boundary(s, Stop(s, j)) && j < s.size && s.blocks[j].extent > 0 && Multiple(j, g.align)
  {
    assert Boundary(t, Stop(t, j)) && Boundary(t, Stop(t, m));
    assert j < k ==> Stop(t, j) <= k;
    assert m < j ==> Stop(t, m) <= j;
  }

  lemma SameExtentsTiled(g: Layout, s: Space, t: Space)
    requires Tiled(g, s) && s.size == t.size && s.blocks.Keys == t.blocks.Keys
    requires forall k :: k in s.blocks ==> s.blocks[k].extent == t.blocks[k].extent
    ensures Tiled(g, t)
  {
    forall k: nat | k in t.blocks
      ensures Boundary(t, Stop(t, k))
    {
      assert Boundary(s, Stop(s, k));
    }
    forall i: nat, j: nat | i in t.blocks && j in t.blocks && i < j
      ensures Stop(t, i) <= j
    {
      assert Stop(s, i) <= j;
    }
  }

  // ---------------------------------------------------------------- allocInFree

  ghost function FreeBlock(extent: nat): Block { Block(extent, extent, Free, Nothing) }

  /** allocInFree: take want bytes at the start of a free block; the rest stays free unless it is too
      small to be worth a node. */
  ghost function Carve(g: Layout, s: Space, k: nat, want: nat, status: Status, link: Link): Space
    requires IsFree(s, k)
  {
    var extent := s.blocks[k].extent;
    var padded := Pad(want, g.align);
    if extent < padded + g.node then
      s.(blocks := s.blocks[k := Block(extent, want, status, link)])
    else
      s.(blocks := s.blocks[k + padded := Block(extent - padded, extent - padded, Free, Nothing)]
                           [k := Block(padded, want, status, link)])
  }

  ghost predicate Carvable(s: Space, k: nat, want: nat, status: Status, link: Link) {
    && IsFree(s, k) && 0 < want <= s.blocks[k].extent
    && match status
       case Free => false
       case Part => link.Next? && want == s.blocks[k].extent
       case End => link.Owner?
  }

  lemma CarveShape(g: Layout, s: Space, k: nat, want: nat, status: Status, link: Link)
    requires Tiled(g, s) && Carvable(s, k, want, status, link)
    ensures want <= Pad(want, g.align) <= s.blocks[k].extent
    ensures Multiple(want, g.align) ==> Pad(want, g.align) == want
    ensures s.blocks[k].extent >= Pad(want, g.align) + g.node ==>
              SplitOf(s, Carve(g, s, k, want, status, link), k, k + Pad(want, g.align))
    ensures Multiple(k + Pad(want, g.align), g.align)
  {
    ExtentAligned(g, s, k);
    PadIsLeast(want, g.align);
    MultipleSum(k, Pad(want, g.align), g.align);
    var m := k + Pad(want, g.align);
    assert m in s.blocks && k < m ==> Stop(s, k) <= m;
  }

  /** A block at offset into file does not reach beyond that file. */
  lemma FileEnd(g: Layout, s: Space, k: nat, file: nat, offset: nat)
    requires Tiled(g, s) && k in s.blocks && offset < g.page && Times(file, g.page) + offset == k
    ensures offset + s.blocks[k].extent <= g.page
    ensures Multiple(k, g.page) <==> offset == 0
  {
    TimesMultiple(file, g.page);
    MultipleSum(Times(file, g.page), offset, g.page);
    MultipleSum(Times(file, g.page), g.page, g.page);
    NoFileCrossing(g, s, k, Times(file, g.page) + g.page);
  }

  /** The blocks of a carved space, spelled out. */
  lemma CarveBlocks(g: Layout, s: Space, k: nat, want: nat, status: Status, link: Link)
    requires Valid(g, s) && Carvable(s, k, want, status, link)
    ensures s.blocks[k].size == s.blocks[k].extent
    ensures var padded, extent, t := Pad(want, g.align), s.blocks[k].extent, Carve(g, s, k, want, status, link);
            && 0 < want <= padded <= extent
            && t.size == s.size && k in t.blocks && t.blocks[k].size == want && t.blocks[k].status == status
            && t.blocks[k].link == link
            && if extent - padded < g.node then
                 t.blocks == s.blocks[k := t.blocks[k]] && t.blocks[k].extent == extent
               else
                 && k + padded !in s.blocks && t.blocks[k].extent == padded
                 && t.blocks == s.blocks[k + padded := FreeBlock(extent - padded)][k := t.blocks[k]]
  {
    CarveShape(g, s, k, want, status, link);
  }

  lemma CarveTiled(g: Layout, s: Space, k: nat, want: nat, status: Status, link: Link)
    requires Tiled(g, s) && Carvable(s, k, want, status, link)
    ensures Tiled(g, Carve(g, s, k, want, status, link))
  {
    var t := Carve(g, s, k, want, status, link);
    CarveShape(g, s, k, want, status, link);
    if s.blocks[k].extent >= Pad(want, g.align) + g.node {
      SplitTiled(g, s, t, k, k + Pad(want, g.align));
    } else {
      SameExtentsTiled(g, s, t);
    }
  }

  /** Carving keeps the tiling exactly if something is asked for, or the block is too small to be split: a
      request for zero bytes makes the offsets of the piece and of the rest equal, and the piece
      replaces the rest in the map. */
  lemma CarveZero(g: Layout, s: Space, k: nat, want: nat, id: nat)
    requires Tiled(g, s) && IsFree(s, k) && want <= s.blocks[k].extent
    ensures Tiled(g, Carve(g, s, k, want, End, Owner(id))) <==> want > 0 || s.blocks[k].extent < g.node
  {
    var t := Carve(g, s, k, want, End, Owner(id));
    if want > 0 {
      CarveTiled(g, s, k, want, End, Owner(id));
    } else if s.blocks[k].extent < g.node {
      SameExtentsTiled(g, s, t);
    } else {
      assert t.blocks[k].extent == 0;
    }
  }

  lemma CarveCoalesced(g: Layout, s: Space, k: nat, want: nat, status: Status, link: Link)
    requires Valid(g, s) && Carvable(s, k, want, status, link)
    ensures Coalesced(g, Carve(g, s, k, want, status, link))
  {
    var t := Carve(g, s, k, want, status, link);
    CarveShape(g, s, k, want, status, link);
    var m := k + Pad(want, g.align);
    forall j: nat | IsFree(t, j) && IsFree(t, Stop(t, j))
      ensures Multiple(Stop(t, j), g.page)
    {
      assert j != k && Stop(t, j) != k;
      if SplitOf(s, t, k, m) && j == m {
        assert Stop(t, m) == Stop(s, k);
        assert IsFree(s, Stop(s, k));
      } else {
        assert IsFree(s, j) && Stop(s, j) == Stop(t, j);
        assert SplitOf(s, t, k, m) ==> Stop(s, j) != m by {
          assert j < k ==> Stop(s, j) <= k;
          assert k < j ==> Stop(s, k) <= j;
        }
        assert IsFree(s, Stop(s, j));
      }
    }
  }

  lemma CarveValid(g: Layout, s: Space, k: nat, want: nat, status: Status, link: Link)
    requires Valid(g, s) && Carvable(s, k, want, status, link)
    ensures Valid(g, Carve(g, s, k, want, status, link))
    ensures Used(Carve(g, s, k, want, status, link))
         == Used(s)[k := Carve(g, s, k, want, status, link).blocks[k]]
  {
    var t := Carve(g, s, k, want, status, link);
    CarveShape(g, s, k, want, status, link);
    CarveTiled(g, s, k, want, status, link);
    CarveCoalesced(g, s, k, want, status, link);
    assert status.Part? ==> Multiple(want, g.align) by { ExtentAligned(g, s, k); }
    UsedChanged(s, t, k);
  }

  // ---------------------------------------------------------------- pffree

  ghost function MarkFree(s: Space, k: nat): Space
    requires k in s.blocks
  {
    s.(blocks := s.blocks[k := FreeBlock(s.blocks[k].extent)])
  }

  /** Block k swallows its successor. */
  ghost function Join(s: Space, k: nat): Space
    requires k in s.blocks && Stop(s, k) in s.blocks
  {
    var n := Stop(s, k);
    s.(blocks := (s.blocks - {n})[k := FreeBlock(s.blocks[k].extent + s.blocks[n].extent)])
  }

  lemma JoinTiled(g: Layout, s: Space, k: nat)
    requires Tiled(g, s) && IsFree(s, k) && IsFree(s, Stop(s, k)) && !Multiple(Stop(s, k), g.page)
    ensures Tiled(g, Join(s, k)) && Used(Join(s, k)) == Used(s)
  {
    var t := Join(s, k);
    assert s.blocks.Keys == t.blocks.Keys + {Stop(s, k)};
    UnsplitTiled(g, t, s, k, Stop(s, k));
    assert Used(t) == Used(s);
  }

  ghost predicate FreeBefore(g: Layout, s: Space, k: nat, p: nat) {
    IsFree(s, p) && Stop(s, p) == k && !Multiple(k, g.page)
  }

  ghost function LeftEdge(g: Layout, s: Space, k: nat): (lo: nat)
    ensures lo == k || FreeBefore(g, s, k, lo)
    ensures (exists p: nat :: FreeBefore(g, s, k, p)) ==> FreeBefore(g, s, k, lo)
  {
    if exists p: nat :: FreeBefore(g, s, k, p) then
      var p: nat :| FreeBefore(g, s, k, p); p
    else k
  }

  /** Merge with the free block before, if there is one in the same file. */
  ghost function MergeLeft(g: Layout, s: Space, k: nat): Space
    requires k in s.blocks
  {
    var lo := LeftEdge(g, s, k);
    if FreeBefore(g, s, k, lo) then Join(s, lo) else s
  }

  /** Merge with the free block behind, if there is one in the same file. */
  ghost function MergeRight(g: Layout, s: Space, k: nat): Space
    requires k in s.blocks
  {
    if IsFree(s, Stop(s, k)) && !Multiple(Stop(s, k), g.page) then Join(s, k) else s
  }

  /** One round of pffree. */
  ghost function Release(g: Layout, s: Space, k: nat): Space
    requires k in s.blocks
  {
    var s0 := MarkFree(s, k);
    MergeRight(g, MergeLeft(g, s0, k), LeftEdge(g, s0, k))
  }

  /** Only pairs with block k on one side may still be waiting to be merged. */
  ghost predicate CoalescedBut(g: Layout, s: Space, k: nat, left: bool) {
    forall j: nat {:trigger IsFree(s, Stop(s, j))} ::
      IsFree(s, j) && IsFree(s, Stop(s, j)) && j != k && (left ==> Stop(s, j) != k) ==> Multiple(Stop(s, j), g.page)
  }

  lemma MarkFreeTiled(g: Layout, s: Space, k: nat)
    requires Valid(g, s) && InUse(s, k)
    ensures Tiled(g, MarkFree(s, k)) && Used(MarkFree(s, k)) == Used(s) - {k}
    ensures CoalescedBut(g, MarkFree(s, k), k, true)
  {
    var t := MarkFree(s, k);
    SameExtentsTiled(g, s, t);
    forall j: nat | IsFree(t, j) && IsFree(t, Stop(t, j)) && j != k && Stop(t, j) != k
      ensures Multiple(Stop(t, j), g.page)
    {
      assert IsFree(s, Stop(s, j));
    }
    UsedChanged(s, t, k);
  }

  lemma MergeLeftTiled(g: Layout, s: Space, k: nat)
    requires Tiled(g, s) && IsFree(s, k) && CoalescedBut(g, s, k, true)
    ensures Tiled(g, MergeLeft(g, s, k)) && Used(MergeLeft(g, s, k)) == Used(s)
    ensures IsFree(MergeLeft(g, s, k), LeftEdge(g, s, k))
    ensures CoalescedBut(g, MergeLeft(g, s, k), LeftEdge(g, s, k), false)
  {
    var t, lo := MergeLeft(g, s, k), LeftEdge(g, s, k);
    if FreeBefore(g, s, k, lo) {
      JoinTiled(g, s, lo);
    }
    forall j: nat | IsFree(t, j) && IsFree(t, Stop(t, j)) && j != lo
      ensures Multiple(Stop(t, j), g.page)
    {
      assert IsFree(s, j) && Stop(s, j) == Stop(t, j) && IsFree(s, Stop(s, j));
      assert j == k ==> lo == k;
      assert Stop(s, j) == k ==> FreeBefore(g, s, k, j) || Multiple(k, g.page);
    }
  }

  lemma MergeRightTiled(g: Layout, s: Space, k: nat)
    requires Tiled(g, s) && IsFree(s, k) && CoalescedBut(g, s, k, false)
    ensures Tiled(g, MergeRight(g, s, k)) && Used(MergeRight(g, s, k)) == Used(s)
    ensures Coalesced(g, MergeRight(g, s, k))
  {
    var t, n := MergeRight(g, s, k), Stop(s, k);
    if IsFree(s, n) && !Multiple(n, g.page) {
      JoinTiled(g, s, k);
      forall j: nat | IsFree(t, j) && IsFree(t, Stop(t, j))
        ensures Multiple(Stop(t, j), g.page)
      {
        if j == k {
          assert Stop(t, k) == Stop(s, n);
          assert IsFree(s, Stop(s, n));
        } else {
          assert Stop(t, j) == Stop(s, j) && IsFree(s, Stop(s, j));
        }
      }
    }
  }

  /** Freeing keeps the files tiled and the free space merged, and takes out just the freed block. */
  lemma ReleaseValid(g: Layout, s: Space, k: nat)
    requires Valid(g, s) && InUse(s, k)
    ensures Valid(g, Release(g, s, k))
    ensures Used(Release(g, s, k)) == Used(s) - {k}
  {
    var s0 := MarkFree(s, k);
    MarkFreeTiled(g, s, k);
    MergeLeftTiled(g, s0, k);
    MergeRightTiled(g, MergeLeft(g, s0, k), LeftEdge(g, s0, k));
    ReleaseFitted(g, s, k);
  }

  /** The state between the two merges. */
  lemma ReleaseSteps(g: Layout, s: Space, k: nat)
    requires Valid(g, s) && InUse(s, k)
    ensures var s0 := MarkFree(s, k);
            var lo, s1 := LeftEdge(g, s0, k), MergeLeft(g, s0, k);
            && Tiled(g, s1) && IsFree(s1, lo) && (forall j: nat :: j in s1.blocks ==> Fitted(g, s1.blocks[j]))
            && Release(g, s, k) == MergeRight(g, s1, lo) && s1.size == s.size
            && (forall j: nat :: InUse(s, j) && j != k <==> InUse(s1, j))
    ensures Valid(g, Release(g, s, k)) && Release(g, s, k).size == s.size
    ensures forall j: nat :: InUse(s, j) && j != k <==> InUse(Release(g, s, k), j)
  {
    var s0 := MarkFree(s, k);
    MarkFreeTiled(g, s, k);
    MergeLeftTiled(g, s0, k);
    ReleaseValid(g, s, k);
    var s1 := MergeLeft(g, s0, k);
    assert forall j: nat :: j in s0.blocks ==> Fitted(g, s0.blocks[j]);
    forall j: nat
      ensures InUse(s, j) && j != k <==> InUse(s1, j)
      ensures InUse(s, j) && j != k <==> InUse(Release(g, s, k), j)
    {
      assert InUse(s, j) <==> j in Used(s);
      assert InUse(s1, j) <==> j in Used(s1);
      assert InUse(Release(g, s, k), j) <==> j in Used(Release(g, s, k));
    }
  }

  lemma ReleaseUsed(g: Layout, s: Space, k: nat)
    requires Valid(g, s) && InUse(s, k)
    ensures Used(Release(g, s, k)) == Used(s) - {k}
  {
    ReleaseValid(g, s, k);
  }

  lemma ReleaseFitted(g: Layout, s: Space, k: nat)
    requires (forall j :: j in s.blocks ==> Fitted(g, s.blocks[j])) && k in s.blocks
    ensures forall j :: j in Release(g, s, k).blocks ==> Fitted(g, Release(g, s, k).blocks[j])
  {
    var s0 := MarkFree(s, k);
    var s1 := MergeLeft(g, s0, k);
    assert forall j :: j in s0.blocks ==> Fitted(g, s0.blocks[j]);
    assert forall j :: j in s1.blocks ==> Fitted(g, s1.blocks[j]);
  }

  /** Giving back a block that has just been carved restores the space: merging is the inverse of
      splitting. */
  lemma ReleaseUndoesCarve(g: Layout, s: Space, k: nat, want: nat, status: Status, link: Link)
    requires Valid(g, s) && Carvable(s, k, want, status, link)
    ensures InUse(Carve(g, s, k, want, status, link), k)
    ensures Release(g, Carve(g, s, k, want, status, link), k) == s
  {
    var t := Carve(g, s, k, want, status, link);
    CarveValid(g, s, k, want, status, link);
    ReleaseValid(g, t, k);
    UpdateUndone(Used(s), k, t.blocks[k]);
    Canonical(g, Release(g, t, k), s);
  }

  // ---------------------------------------------------------------- neighbours in the ordered map

  /** The next key is where the block stops. */
  lemma StopIsNext(g: Layout, s: Space, k: nat)
    requires Tiled(g, s) && k in s.blocks
    ensures Stop(s, k) in s.blocks ==> IsLeast(Above(s.blocks.Keys, k), Stop(s, k))
    ensures Stop(s, k) !in s.blocks ==> Stop(s, k) == s.size && Above(s.blocks.Keys, k) == {}
  {
    assert Boundary(s, Stop(s, k));
    assert forall j: nat :: j in Above(s.blocks.Keys, k) ==> j in s.blocks && Stop(s, k) <= j;
  }

  /** The previous key is the block that stops here; it is merged with exactly if it is free and k is
      not the start of a file. */
  lemma PreviousIsLeft(g: Layout, s: Space, k: nat)
    requires Tiled(g, s) && k in s.blocks
    ensures Multiple(k, g.page) ==> LeftEdge(g, s, k) == k
    ensures !Multiple(k, g.page) ==> Under(s.blocks.Keys, k) != {}
    ensures forall p: nat :: !Multiple(k, g.page) && IsGreatest(Under(s.blocks.Keys, k), p) ==>
              Stop(s, p) == k && LeftEdge(g, s, k) == if IsFree(s, p) then p else k
  {
    if !Multiple(k, g.page) {
      var q := Predecessor(g, s, k);
      assert q in Under(s.blocks.Keys, k);
      forall p: nat | IsGreatest(Under(s.blocks.Keys, k), p)
        ensures Stop(s, p) == k && LeftEdge(g, s, k) == if IsFree(s, p) then p else k
      {
        assert p == q;
        assert IsFree(s, p) ==> FreeBefore(g, s, k, p);
        var lo := LeftEdge(g, s, k);
        assert FreeBefore(g, s, k, lo) ==> lo in Under(s.blocks.Keys, k);
      }
    }
  }
}
