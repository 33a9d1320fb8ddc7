/** The page file locations and the ordered maps of managedFileSwap, updated in place. */
module PageFiles {
  import opened Numbers
  import opened Ordered
  import opened PageSpace
  import opened PageAlloc
  import opened PageChains

  /** A location in a page file. The pointer to the next part in the union glob_off_next is
      represented by that part's global offset, its key in all_space: the object found there does not
      change as long as the part is in use. */
  class PageFileLocation {
    var file: nat
    var offset: nat
    var size: nat
    var link: Link
    var status: Status

    constructor (file: nat, offset: nat, size: nat)
      ensures this.file == file && this.offset == offset && this.size == size
      ensures link == Nothing && status == Free
    {
      this.file, this.offset, this.size := file, offset, size;
      link, status := Nothing, Free;
    }

    /** This location sits at global offset k and has the data size of block b. */
    ghost predicate Sits(g: Layout, k: nat, b: Block)
      reads this
    {
      offset < g.page && Times(file, g.page) + offset == k && size == b.size
    }

    /** This location has the state and, if in use, the link of block b. */
    ghost predicate Mirrors(b: Block)
      reads this
    {
      status == b.status && (status.Free? || link == b.link)
    }

    constructor Copy(other: PageFileLocation)
      ensures file == other.file && offset == other.offset && size == other.size
      ensures link == other.link && status == other.status
    {
      file, offset, size := other.file, other.offset, other.size;
      link, status := other.link, other.status;
    }
  }

  class PageFiles {
    const g: Layout
    var allSpace: map<nat, PageFileLocation>
    var freeSpace: map<nat, PageFileLocation>
    var pageFileNumber: nat
    var swapSize: nat
    var swapFree: int

    ghost var space: Space
    /** Every location that was ever put into the maps. */
    ghost var locs: set<PageFileLocation>

    method DetermineGlobalOffset(loc: PageFileLocation) returns (off: nat)
      ensures off == Times(loc.file, g.page) + loc.offset
    {
      TimesIsProduct(loc.file, g.page);
      off := loc.file * g.page + loc.offset;
    }

    /** The locations in all_space sit where they are filed and represent the blocks of s; those at the
        offsets in todo have not got their state and link yet. */
    ghost predicate Filed(s: Space, todo: set<nat>)
      reads this`allSpace, this`locs, locs
    {
      && allSpace.Keys == s.blocks.Keys
      && (forall k: nat :: k in allSpace ==> allSpace[k] in locs && allSpace[k].Sits(g, k, s.blocks[k]))
      && (forall k: nat :: k in allSpace && k !in todo ==> allSpace[k].Mirrors(s.blocks[k]))
    }

    /** free_space holds exactly the free entries of all_space, the same objects; nothing is said of the
        offsets in todo. */
    ghost predicate FreeListed(s: Space, todo: set<nat>)
      reads this`allSpace, this`freeSpace
    {
      && (forall k: nat :: k !in todo ==> (k in freeSpace <==> IsFree(s, k)))
      && (forall k: nat :: k !in todo && k in freeSpace ==> k in allSpace && freeSpace[k] == allSpace[k])
    }

    ghost predicate Tied(s: Space, todo: set<nat>)
      reads this`allSpace, this`freeSpace, this`locs, this`swapSize, locs
    {
      s.size == swapSize && Filed(s, todo) && FreeListed(s, todo)
    }

    ghost predicate Valid()
      reads this, locs
    {
      PageSpace.Valid(g, space) && Tied(space, {}) && swapSize == Times(pageFileNumber, g.page)
    }

    /** A free block and its location. */
    lemma FreeLocation(k: nat, loc: PageFileLocation, todo: set<nat>)
      requires PageSpace.Valid(g, space) && Tied(space, todo) && k !in todo
      requires IsFree(space, k) && allSpace[k] == loc
      ensures loc.Sits(g, k, space.blocks[k]) && loc.status.Free? && loc in locs
      ensures loc.offset + space.blocks[k].extent <= g.page && loc.size == space.blocks[k].extent
      ensures space.size == swapSize && allSpace.Keys == space.blocks.Keys
    {
      FileEnd(g, space, k, loc.file, loc.offset);
    }

    /** Take the block at offset k out of the free map. */
    method Unlist(k: nat, ghost todo: set<nat>)
      requires Tied(space, todo)
      modifies this`freeSpace
      ensures Tied(space, todo + {k}) && freeSpace == old(freeSpace) - {k}
    {
      freeSpace := freeSpace - {k};
    }

    /** Use a whole free location for size bytes. */
    method TakeWhole(freeChunk: PageFileLocation, size: nat, ghost k: nat, ghost t: Space, ghost todo: set<nat>)
      requires Tied(space, todo) && k in todo && IsFree(space, k) && allSpace[k] == freeChunk
      requires t.size == space.size && k in t.blocks && t.blocks == space.blocks[k := t.blocks[k]]
      requires t.blocks[k].size == size && !t.blocks[k].status.Free?
      modifies this`space, freeChunk
      ensures space == t && Tied(t, todo)
      ensures freeChunk.file == old(freeChunk.file) && freeChunk.offset == old(freeChunk.offset)
    {
      ghost var s := space;
      freeChunk.size := size;
      space := t;
      forall j: nat | j in allSpace && j != k
        ensures allSpace[j].Sits(g, j, t.blocks[j]) && (j !in todo ==> allSpace[j].Mirrors(t.blocks[j]))
      {
        assert old(allSpace[j].Sits(g, j, s.blocks[j])) && old(freeChunk.Sits(g, k, s.blocks[k]));
      }
    }

    /** The assignments that cut paddedSize bytes off the front of a free location. */
    method CutFront(freeChunk: PageFileLocation, formerFreeOff: nat, size: nat, paddedSize: nat)
      returns (neu: PageFileLocation)
      requires paddedSize <= freeChunk.size && freeChunk in locs
      requires formerFreeOff == Times(freeChunk.file, g.page) + freeChunk.offset
      modifies this`allSpace, this`freeSpace, this`locs, freeChunk
      ensures fresh(neu) && locs == old(locs) + {neu}
      ensures neu.file == old(freeChunk.file) && neu.offset == old(freeChunk.offset) && neu.size == size
      ensures neu.status == old(freeChunk.status) && neu.link == old(freeChunk.link)
      ensures freeChunk.file == old(freeChunk.file) && freeChunk.offset == old(freeChunk.offset) + paddedSize
      ensures freeChunk.size == old(freeChunk.size) - paddedSize && freeChunk.status == old(freeChunk.status)
      ensures freeSpace == old(freeSpace)[formerFreeOff + paddedSize := freeChunk]
      ensures allSpace == old(allSpace)[formerFreeOff + paddedSize := freeChunk][formerFreeOff := neu]
    {
      neu := new PageFileLocation.Copy(freeChunk);
      freeChunk.offset := freeChunk.offset + paddedSize;
      freeChunk.size := freeChunk.size - paddedSize;
      freeChunk.link := Nothing;
      var newFreeLoc := DetermineGlobalOffset(freeChunk);
      freeSpace := freeSpace[newFreeLoc := freeChunk];
      neu.size := size;
      allSpace := allSpace[newFreeLoc := freeChunk];
      allSpace := allSpace[formerFreeOff := neu];
      locs := locs + {neu};
    }

    /** The front of the free location at k has been cut off and has become the location neu. */
    twostate predicate FrontCut(s: Space, t: Space, k: nat, padded: nat, new neu: PageFileLocation, todo: set<nat>)
      reads this, locs, neu
    {
      && old(Tied(s, todo)) && k in todo && IsFree(s, k)
      && var loc := old(allSpace[k]);
         && loc in locs && 0 < padded < old(loc.size) && old(loc.offset) + padded < g.page
         && loc.file == old(loc.file) && loc.offset == old(loc.offset) + padded
         && loc.size == old(loc.size) - padded && loc.status.Free?
         && k + padded !in s.blocks && k + padded !in todo
         && t.size == s.size == swapSize && k in t.blocks && !t.blocks[k].status.Free?
         && t.blocks == s.blocks[k + padded := FreeBlock(old(loc.size) - padded)][k := t.blocks[k]]
         && freeSpace == old(freeSpace)[k + padded := loc]
         && allSpace == old(allSpace)[k + padded := loc][k := neu]
         && locs == old(locs) + {neu} && neu !in old(locs) && neu.Sits(g, k, t.blocks[k])
         && forall l :: l in old(locs) && l != loc ==> unchanged(l)
    }

    twostate lemma CutOne(new s: Space, new t: Space, new k: nat, new padded: nat, new neu: PageFileLocation, new todo: set<nat>, new j: nat)
      requires FrontCut(s, t, k, padded, neu, todo) && j in allSpace
      ensures j in t.blocks && allSpace[j] in locs && allSpace[j].Sits(g, j, t.blocks[j])
      ensures j !in todo ==> allSpace[j].Mirrors(t.blocks[j])
    {
      hide FreeListed;
      assert old(allSpace[k].Sits(g, k, s.blocks[k]));
      if j != k && j != k + padded {
        AsFiled(s, k, j, todo);
      }
    }

    /** After the front of a free location has been cut off, the objects represent the split space. */
    twostate lemma CutTied(new s: Space, new t: Space, new k: nat, new padded: nat, new neu: PageFileLocation, new todo: set<nat>)
      requires FrontCut(s, t, k, padded, neu, todo)
      ensures Filed(t, todo)
    {
      assert allSpace.Keys == t.blocks.Keys;
      hide Tied;
      forall j: nat | j in allSpace
        ensures allSpace[j] in locs && allSpace[j].Sits(g, j, t.blocks[j]) && (j !in todo ==> allSpace[j].Mirrors(t.blocks[j]))
      {
        CutOne(s, t, k, padded, neu, todo, j);
      }
    }

    /** A location that is not the one at k has not been touched. */
    twostate lemma AsFiled(new s: Space, new k: nat, new j: nat, new todo: set<nat>)
      requires old(Filed(s, todo)) && k in s.blocks && j in s.blocks && j != k && j in allSpace
      requires k in old(allSpace) && allSpace[j] == old(allSpace[j])
      requires forall l :: l in old(locs) && l != old(allSpace[k]) ==> unchanged(l)
      ensures allSpace[j].Sits(g, j, s.blocks[j]) && (j !in todo ==> allSpace[j].Mirrors(s.blocks[j])) && allSpace[j] in old(locs)
    {
      assert old(allSpace[j].Sits(g, j, s.blocks[j])) && old(allSpace[k].Sits(g, k, s.blocks[k]));
    }

    twostate lemma CutListed(new s: Space, new t: Space, new k: nat, new padded: nat, new neu: PageFileLocation, new todo: set<nat>)
      requires old(Tied(s, todo)) && k in todo && IsFree(s, k)
      requires var loc := old(allSpace[k]);
               && k + padded !in s.blocks && k + padded !in todo && 0 < padded < s.blocks[k].extent
               && k in t.blocks && !t.blocks[k].status.Free?
               && t.blocks == s.blocks[k + padded := FreeBlock(s.blocks[k].extent - padded)][k := t.blocks[k]]
               && freeSpace == old(freeSpace)[k + padded := loc]
               && allSpace == old(allSpace)[k + padded := loc][k := neu]
      ensures FreeListed(t, todo)
    {
    }

    /** Split a free location: the new one holds size bytes, the old one what remains behind them. */
    method TakeFront(freeChunk: PageFileLocation, k: nat, size: nat, paddedSize: nat,
                     ghost t: Space, ghost todo: set<nat>)
      returns (neu: PageFileLocation)
      requires Tied(space, todo) && k in todo && IsFree(space, k)
      requires k in allSpace && allSpace[k] == freeChunk && freeChunk in locs && freeChunk.Sits(g, k, space.blocks[k])
      requires 0 < paddedSize < freeChunk.size == space.blocks[k].extent && freeChunk.offset + paddedSize < g.page
      requires k + paddedSize !in space.blocks && k + paddedSize !in todo && freeChunk.status.Free?
      requires t.size == space.size == swapSize
      requires k in t.blocks && t.blocks[k].size == size && !t.blocks[k].status.Free?
      requires t.blocks == space.blocks[k + paddedSize := FreeBlock(freeChunk.size - paddedSize)][k := t.blocks[k]]
      modifies this`allSpace, this`freeSpace, this`locs, this`space, freeChunk
      ensures fresh(neu) && locs == old(locs) + {neu}
      ensures space == t && Tied(t, todo)
      ensures allSpace == old(allSpace)[k + paddedSize := freeChunk][k := neu]
      ensures freeSpace == old(freeSpace)[k + paddedSize := freeChunk]
    {
      hide Filed, FreeListed;
      ghost var s := space;
      neu := CutFront(freeChunk, k, size, paddedSize);
      space := t;
      CutTied(s, t, k, paddedSize, neu, todo);
      CutListed(s, t, k, paddedSize, neu, todo);
    }

    /** Take size bytes at the start of a free block. The caller sets status and link. */
    method AllocInFree(freeChunk: PageFileLocation, size: nat,
                       ghost k: nat, ghost status: Status, ghost link: Link, ghost todo: set<nat>)
      returns (neu: PageFileLocation?)
      requires PageSpace.Valid(g, space) && Tied(space, todo) && k !in todo && todo <= space.blocks.Keys
      requires Carvable(space, k, size, status, link) && allSpace[k] == freeChunk
      modifies this`allSpace, this`freeSpace, this`swapFree, this`space, this`locs, freeChunk
      ensures neu != null && (neu == freeChunk || fresh(neu)) && locs == old(locs) + {neu}
      ensures space == Carve(g, old(space), k, size, status, link)
      ensures Tied(space, todo + {k}) && k in allSpace && allSpace[k] == neu && k !in freeSpace
      ensures forall j: nat :: j in old(allSpace) && j != k ==> j in allSpace && allSpace[j] == old(allSpace[j])
      ensures swapFree == old(swapFree) - (space.blocks[k].extent - size)
      ensures forall j: nat :: j in old(space).blocks && j !in old(freeSpace) ==> j !in freeSpace
    {
      hide PageSpace.Valid, Tied, Carve, Pad;
      FreeLocation(k, freeChunk, todo);
      CarveBlocks(g, space, k, size, status, link);
      var formerFreeOff := DetermineGlobalOffset(freeChunk);
      Unlist(formerFreeOff, todo);

      var paddedSize := RoundUp(size, g.align);
      if paddedSize != size {
        if paddedSize > freeChunk.size {
          assert false;
          return null;
        }
        swapFree := swapFree - (paddedSize - size);
      }

      ghost var t := Carve(g, space, k, size, status, link);
      if freeChunk.size - paddedSize < g.node {
        swapFree := swapFree - (freeChunk.size - paddedSize);
        TakeWhole(freeChunk, size, k, t, todo + {k});
        neu := freeChunk;
      } else {
        neu := TakeFront(freeChunk, formerFreeOff, size, paddedSize, t, todo + {k});
      }
    }

    // -------------------------------------------------------------- giving space back

    lemma UsedLocation(k: nat, loc: PageFileLocation)
      requires Valid() && InUse(space, k) && allSpace[k] == loc
      ensures loc.Sits(g, k, space.blocks[k]) && loc in locs
      ensures loc.status == space.blocks[k].status != Free && loc.link == space.blocks[k].link
      ensures loc.offset == 0 <==> Multiple(k, g.page)
      ensures allSpace.Keys == space.blocks.Keys && space.size == swapSize
      ensures k in MarkFree(space, k).blocks
    {
      FileEnd(g, space, k, loc.file, loc.offset);
    }

    lemma UsedLocations()
      requires Valid()
      ensures forall j: nat :: InUse(space, j) ==> j in allSpace && j !in freeSpace && allSpace[j].status != Free
    {
    }

    /** What the step back in the ordered map finds for a block in use. */
    lemma PreviousLocation(k: nat, loc: PageFileLocation, found: bool, p: nat)
      requires Valid() && InUse(space, k) && allSpace[k] == loc
      requires found <==> Under(allSpace.Keys, k) != {}
      requires found ==> IsGreatest(Under(allSpace.Keys, k), p)
      ensures var lo := LeftEdge(g, MarkFree(space, k), k);
              && (lo != k <==> loc.offset != 0 && found && p in allSpace && allSpace[p].status == Free)
              && (lo != k ==>
                    && lo == p && p in allSpace && p < k && Stop(space, p) == k && IsFree(space, p)
                    && allSpace[p].Sits(g, p, space.blocks[p]) && allSpace[p].size == space.blocks[p].extent
                    && allSpace[p] in locs && allSpace[p] != loc)
    {
      UsedLocation(k, loc);
      MarkFreeTiled(g, space, k);
      PreviousIsLeft(g, MarkFree(space, k), k);
      assert MarkFree(space, k).blocks.Keys == space.blocks.Keys;
    }

    /** The space after merging to the left. */
    lemma MergedLeft(k: nat, lo: nat, t: Space)
      requires PageSpace.Valid(g, space) && InUse(space, k)
      requires lo == LeftEdge(g, MarkFree(space, k), k) && t == MergeLeft(g, MarkFree(space, k), k)
      ensures Tiled(g, t) && t.size == space.size && IsFree(t, lo)
      ensures lo == k ==> t.blocks == space.blocks[k := FreeBlock(space.blocks[k].extent)]
      ensures lo != k ==>
                && IsFree(space, lo) && Stop(space, lo) == k
                && t.blocks == (space.blocks - {k})[lo := FreeBlock(space.blocks[lo].extent + space.blocks[k].extent)]
      ensures Stop(t, lo) == Stop(space, k)
      ensures Stop(t, lo) in t.blocks ==> IsLeast(Above(t.blocks.Keys, lo), Stop(t, lo))
      ensures Stop(t, lo) !in t.blocks ==> Stop(t, lo) == t.size && Above(t.blocks.Keys, lo) == {}
    {
      MarkFreeTiled(g, space, k);
      MergeLeftTiled(g, MarkFree(space, k), k);
      StopIsNext(g, t, lo);
    }

    /** Block k has been merged into the block at lo, or lo is k itself. */
    twostate lemma JoinedFiled(new s: Space, new t: Space, new k: nat, new lo: nat)
      requires old(Filed(s, {})) && old(FreeListed(s, {})) && k in s.blocks && lo in s.blocks
      requires !s.blocks[k].status.Free? && IsFree(t, lo) && (lo != k ==> IsFree(s, lo))
      requires t.blocks == (if lo == k then s.blocks else s.blocks - {k})[lo := t.blocks[lo]]
      requires allSpace == (if lo == k then old(allSpace) else old(allSpace) - {k})
      requires freeSpace == old(freeSpace) && locs == old(locs) && allSpace[lo] == old(allSpace[lo])
      requires allSpace[lo].size == t.blocks[lo].size
      requires allSpace[lo].file == old(allSpace[lo].file) && allSpace[lo].offset == old(allSpace[lo].offset)
      requires forall l :: l in locs && l != allSpace[lo] ==> unchanged(l)
      ensures Filed(t, {lo}) && FreeListed(t, {lo})
    {
      forall j: nat | j in allSpace && j != lo
        ensures allSpace[j].Sits(g, j, t.blocks[j]) && allSpace[j].Mirrors(t.blocks[j])
      {
        assert old(allSpace[j].Sits(g, j, s.blocks[j])) && old(allSpace[lo].Sits(g, lo, s.blocks[lo]));
      }
    }

    /** Padding and slack behind the data become free space again. */
    method TakeUpUnusable(pagePtr: PageFileLocation, size: nat)
      modifies this`swapFree, pagePtr`size
      ensures pagePtr.size == size && swapFree == old(swapFree) + size - old(pagePtr.size)
    {
      if pagePtr.size != size {
        swapFree := swapFree + size - pagePtr.size;
        pagePtr.size := size;
      }
    }

    /** The block at lo stops where the next entry of the map begins; what it did not hold is taken up. */
    method TakeUpBehind(pagePtr: PageFileLocation, ghost t: Space, ghost lo: nat) returns (goff: nat, hasNext: bool, nextOff: nat)
      requires Times(pagePtr.file, g.page) + pagePtr.offset == lo && allSpace.Keys == t.blocks.Keys && t.size == swapSize
      requires lo in t.blocks
      requires Stop(t, lo) in t.blocks ==> IsLeast(Above(t.blocks.Keys, lo), Stop(t, lo))
      requires Stop(t, lo) !in t.blocks ==> Stop(t, lo) == t.size && Above(t.blocks.Keys, lo) == {}
      modifies this`swapFree, pagePtr`size
      ensures goff == lo && nextOff == Stop(t, lo) && (hasNext <==> Stop(t, lo) in t.blocks)
      ensures pagePtr.size == t.blocks[lo].extent && swapFree == old(swapFree) + t.blocks[lo].extent - old(pagePtr.size)
    {
      goff := DetermineGlobalOffset(pagePtr);
      hasNext, nextOff := After(allSpace.Keys, goff);
      if !hasNext {
        nextOff := swapSize;
      }
      TakeUpUnusable(pagePtr, nextOff - goff);
    }

    /** First half of a round of pffree: merge with free space before, then take up what lies unused
        behind the data. */
    method JoinPrevious(loc: PageFileLocation, ghost k: nat)
      returns (pagePtr: PageFileLocation, goff: nat, hasNext: bool, nextOff: nat)
      requires Valid() && InUse(space, k) && allSpace[k] == loc
      modifies this`allSpace, this`swapFree, this`space, locs
      ensures goff == LeftEdge(g, MarkFree(old(space), k), k) && space == MergeLeft(g, MarkFree(old(space), k), k)
      ensures Filed(space, {goff}) && FreeListed(space, {goff}) && goff in allSpace && allSpace[goff] == pagePtr
      ensures hasNext <==> Stop(space, goff) in space.blocks
      ensures nextOff == Stop(space, goff)
      ensures swapFree == old(swapFree) + old(space.blocks[k].extent) - old(space.blocks[k].size)
      ensures forall j: nat :: j in old(allSpace) && j != k ==> j in allSpace && allSpace[j] == old(allSpace[j])
    {
      hide PageSpace.Valid, Filed, FreeListed, MergeLeft, LeftEdge, MarkFree, Tiled;
      UsedLocation(k, loc);
      goff := DetermineGlobalOffset(loc);
      var found, prevOff := Before(allSpace.Keys, goff);
      ghost var s := space;
      PreviousLocation(k, loc, found, prevOff);
      ghost var lo := LeftEdge(g, MarkFree(s, k), k);
      ghost var t := MergeLeft(g, MarkFree(s, k), k);
      MergedLeft(k, lo, t);
      space := t;

      pagePtr := loc;
      if loc.offset != 0 && found && allSpace[prevOff].status == Free {
        pagePtr := allSpace[prevOff];
        pagePtr.size := pagePtr.size + loc.size;
        allSpace := allSpace - {goff};
      }
      assert allSpace.Keys == t.blocks.Keys;
      goff, hasNext, nextOff := TakeUpBehind(pagePtr, t, lo);
      JoinedFiled(s, t, k, lo);
    }

    /** A location that is not the one at lo has not been touched. */
    twostate lemma StillFiled(new s: Space, new lo: nat, new j: nat)
      requires old(Filed(s, {lo})) && lo in s.blocks && j in s.blocks && j != lo && j in allSpace && lo in allSpace
      requires allSpace[j] == old(allSpace[j]) && allSpace[lo] == old(allSpace[lo]) && locs == old(locs)
      requires forall l :: l in locs && l != allSpace[lo] ==> unchanged(l)
      ensures allSpace[j].Sits(g, j, s.blocks[j]) && allSpace[j].Mirrors(s.blocks[j]) && allSpace[j] in locs
    {
      assert old(allSpace[j].Sits(g, j, s.blocks[j])) && old(allSpace[lo].Sits(g, lo, s.blocks[lo]));
    }

    /** The free block at lo has swallowed its free successor at n, or n is lo's own offset. */
    twostate lemma SwallowedFiled(new s: Space, new t: Space, new lo: nat, new n: nat)
      requires old(Filed(s, {lo})) && old(FreeListed(s, {lo})) && IsFree(s, lo) && IsFree(s, n) && IsFree(t, lo)
      requires t.blocks == (if n == lo then s.blocks else s.blocks - {n})[lo := t.blocks[lo]]
      requires allSpace == (if n == lo then old(allSpace) else old(allSpace) - {n})
      requires freeSpace == (if n == lo then old(freeSpace) else old(freeSpace) - {n})[lo := allSpace[lo]]
      requires locs == old(locs) && allSpace[lo].size == t.blocks[lo].size && allSpace[lo].status.Free?
      requires allSpace[lo].file == old(allSpace[lo].file) && allSpace[lo].offset == old(allSpace[lo].offset)
      requires forall l :: l in locs && l != allSpace[lo] ==> unchanged(l)
      ensures Filed(t, {}) && FreeListed(t, {})
    {
      hide FreeListed;
      SwallowedListed(s, t, lo, n);
      forall j: nat | j in allSpace && j != lo
        ensures allSpace[j].Sits(g, j, t.blocks[j]) && allSpace[j].Mirrors(t.blocks[j]) && allSpace[j] in locs
      {
        StillFiled(s, lo, j);
      }
    }

    twostate lemma SwallowedListed(new s: Space, new t: Space, new lo: nat, new n: nat)
      requires old(FreeListed(s, {lo})) && IsFree(s, lo) && IsFree(s, n) && IsFree(t, lo)
      requires t.blocks == (if n == lo then s.blocks else s.blocks - {n})[lo := t.blocks[lo]]
      requires lo in allSpace && allSpace == (if n == lo then old(allSpace) else old(allSpace) - {n})
      requires freeSpace == (if n == lo then old(freeSpace) else old(freeSpace) - {n})[lo := allSpace[lo]]
      ensures FreeListed(t, {})
    {
    }

    /** What is found behind the free block at lo. */
    lemma NextLocation(lo: nat, n: nat)
      requires Tiled(g, space) && Filed(space, {lo}) && IsFree(space, lo) && n == Stop(space, lo)
      requires forall j: nat :: j in space.blocks ==> Fitted(g, space.blocks[j])
      ensures lo in allSpace && allSpace[lo].size == space.blocks[lo].size == space.blocks[lo].extent
      ensures allSpace[lo] in locs && n != lo
      ensures n in allSpace <==> n in space.blocks
      ensures n in allSpace ==> (allSpace[n].status.Free? <==> IsFree(space, n)) && allSpace[n] in locs
      ensures n in allSpace && IsFree(space, n) ==> allSpace[n].size == space.blocks[n].extent && allSpace[n] != allSpace[lo]
      ensures n in allSpace ==> (allSpace[n].offset == 0 <==> Multiple(n, g.page))
    {
      assert allSpace[lo].Sits(g, lo, space.blocks[lo]);
      if n in allSpace {
        assert allSpace[n].Sits(g, n, space.blocks[n]) && allSpace[n].Mirrors(space.blocks[n]);
        FileEnd(g, space, n, allSpace[n].file, allSpace[n].offset);
      }
    }

    /** Second half of a round of pffree: merge with free space behind, then file as free. */
    method JoinNext(pagePtr: PageFileLocation, goff: nat, hasNext: bool, nextOff: nat)
      requires Tiled(g, space) && Filed(space, {goff}) && FreeListed(space, {goff}) && IsFree(space, goff)
      requires forall j: nat :: j in space.blocks ==> Fitted(g, space.blocks[j])
      requires goff in allSpace && allSpace[goff] == pagePtr
      requires (hasNext <==> Stop(space, goff) in space.blocks) && nextOff == Stop(space, goff)
      modifies this`allSpace, this`freeSpace, this`space, locs
      ensures space == MergeRight(g, old(space), goff)
      ensures Filed(space, {}) && FreeListed(space, {})
      ensures forall j: nat :: j in old(allSpace) && !IsFree(old(space), j) ==> j in allSpace && allSpace[j] == old(allSpace[j])
    {
      hide Tiled, Filed, FreeListed, Fitted;
      NextLocation(goff, nextOff);
      ghost var s := space;
      ghost var joined := hasNext && allSpace[nextOff].offset != 0 && allSpace[nextOff].status == Free;
      if hasNext && allSpace[nextOff].offset != 0 && allSpace[nextOff].status == Free {
        pagePtr.size := pagePtr.size + allSpace[nextOff].size;
        freeSpace := freeSpace - {nextOff};
        allSpace := allSpace - {nextOff};
      }
      pagePtr.status := Free;
      freeSpace := freeSpace[goff := pagePtr];
      space := MergeRight(g, s, goff);
      SwallowedFiled(s, space, goff, if joined then nextOff else goff);
    }

    /** One round of pffree: the location and the free space around it become one free location. */
    method FreePart(pagePtr: PageFileLocation, ghost k: nat)
      requires Valid() && InUse(space, k) && allSpace[k] == pagePtr
      modifies this`allSpace, this`freeSpace, this`swapFree, this`space, locs
      ensures Valid() && space == Release(g, old(space), k)
      ensures swapFree == old(swapFree) + old(space.blocks[k].extent) - old(space.blocks[k].size)
      ensures forall j: nat :: InUse(space, j) ==> j in old(allSpace) && allSpace[j] == old(allSpace[j])
    {
      hide Filed, FreeListed, PageSpace.Valid, Tiled, Release, MergeLeft, MergeRight, MarkFree, LeftEdge;
      ReleaseSteps(g, space, k);
      UsedLocations();
      var cur, goff, hasNext, nextOff := JoinPrevious(pagePtr, k);
      JoinNext(cur, goff, hasNext, nextOff);
    }

    /** Free the first part of a chain; next is the part it was linked to. */
    method FreeHead(cur: PageFileLocation, ghost ks: seq<nat>, ghost id: nat)
      returns (next: PageFileLocation, endIsReached: bool)
      requires Valid() && IsChain(Used(space), ks, id) && ks[0] in allSpace && allSpace[ks[0]] == cur
      modifies this`allSpace, this`freeSpace, this`swapFree, this`space, locs
      ensures Valid() && ks[0] in old(space).blocks && space == Release(g, old(space), ks[0])
      ensures Used(space) == Used(old(space)) - {ks[0]}
      ensures endIsReached <==> |ks| == 1
      ensures !endIsReached ==> ks[1] in allSpace && allSpace[ks[1]] == next
      ensures swapFree == old(swapFree) + Used(old(space))[ks[0]].extent - Used(old(space))[ks[0]].size
      ensures forall j: nat :: InUse(space, j) ==> InUse(old(space), j)
      ensures forall j: nat :: InUse(space, j) ==> j in allSpace && j in old(allSpace) && allSpace[j] == old(allSpace[j])
    {
      hide Filed, FreeListed, PageSpace.Valid, Release;
      ghost var k := ks[0];
      assert InUse(space, k) && k in Used(space);
      UsedLocation(k, cur);
      UsedLocations();
      SecondPart(Used(space), ks, id);
      next := if cur.link.Next? && cur.link.to in allSpace then allSpace[cur.link.to] else cur;
      endIsReached := cur.status == End;
      ReleaseUsed(g, space, k);
      ReleaseSteps(g, space, k);
      FreePart(cur, k);
      UsedLocations();
      assert |ks| > 1 ==> ks[1] in Used(space) && InUse(space, ks[1]);
    }

    /** Give back all parts of a chunk. */
    method Pffree(pagePtr: PageFileLocation, ghost ks: seq<nat>, ghost id: nat)
      requires Valid() && IsChain(Used(space), ks, id) && ks[0] in allSpace && allSpace[ks[0]] == pagePtr
      modifies this`allSpace, this`freeSpace, this`swapFree, this`space, locs
      ensures Valid() && space == ReleaseChain(g, old(space), ks)
      ensures Offsets(ks) <= Used(old(space)).Keys && swapFree == old(swapFree) + Overhead(Used(old(space)), ks)
      ensures forall j: nat :: InUse(space, j) ==> j in allSpace && j in old(allSpace) && allSpace[j] == old(allSpace[j])
    {
      hide Valid, Release;
      ChainAscends(Used(space), ks, id);
      UsedLocations();
      var cur, endIsReached := pagePtr, false;
      ghost var rest := ks;
      while !endIsReached
        invariant Valid() && (endIsReached <==> rest == [])
        invariant rest != [] ==> IsChain(Used(space), rest, id) && rest[0] in allSpace && allSpace[rest[0]] == cur
        invariant ReleaseChain(g, space, rest) == ReleaseChain(g, old(space), ks)
        invariant Offsets(rest) <= Used(space).Keys
        invariant swapFree + Overhead(Used(space), rest) == old(swapFree) + Overhead(Used(old(space)), ks)
        invariant forall j: nat :: InUse(space, j) ==> j in allSpace && j in old(allSpace) && allSpace[j] == old(allSpace[j])
        decreases |rest|
      {
        ghost var u := Used(space);
        cur, endIsReached := FreeHead(cur, rest, id);
        ChainTail(u, Used(space), rest, id);
        rest := rest[1..];
      }
    }

    // -------------------------------------------------------------- finding space

    lemma FreeKeys(todo: set<nat>)
      requires PageSpace.Valid(g, space) && Tied(space, todo)
      requires forall k: nat :: k in todo ==> k !in freeSpace && !IsFree(space, k)
      ensures freeSpace.Keys == Fitting(space, 0) && Fitting(space, 0) <= allSpace.Keys
      ensures forall k: nat :: k in freeSpace ==>
                freeSpace[k] == allSpace[k] && freeSpace[k].size == space.blocks[k].extent && IsFree(space, k)
      ensures forall n: nat, k: nat :: k in Fitting(space, n) <==> k in freeSpace && n <= freeSpace[k].size
    {
      forall k: nat | k in freeSpace
        ensures freeSpace[k] == allSpace[k] && freeSpace[k].size == space.blocks[k].extent
      {
        assert k !in todo;
        assert allSpace[k].Sits(g, k, space.blocks[k]) && Fitted(g, space.blocks[k]);
      }
      assert forall k: nat :: k in freeSpace <==> k in Fitting(space, 0);
    }

    lemma FreeKeysValid()
      requires Valid()
      ensures freeSpace.Keys == Fitting(space, 0) && Fitting(space, 0) <= allSpace.Keys
      ensures forall k: nat :: k in freeSpace ==>
                freeSpace[k] == allSpace[k] && freeSpace[k].size == space.blocks[k].extent && IsFree(space, k)
      ensures forall n: nat, k: nat :: k in Fitting(space, n) <==> k in freeSpace && n <= freeSpace[k].size
      ensures PageSpace.Valid(g, space)
    {
      FreeKeys({});
    }

    /** Walk through the free map for the first location that takes size bytes in one piece. */
    method FirstFit(size: nat) returns (found: bool, it: nat)
      requires Valid()
      ensures found <==> Fitting(space, size) != {}
      ensures found ==> IsLeast(Fitting(space, size), it) && it in freeSpace
    {
      hide Valid;
      FreeKeysValid();
      var more;
      more, it := After(freeSpace.Keys, -1);
      assert forall k: nat :: k in Fitting(space, size) ==> k in Above(freeSpace.Keys, -1);
      found := false;
      while more && !found
        invariant found ==> more
        invariant more ==> it in freeSpace
        invariant more ==> forall k: nat :: k in Fitting(space, size) ==> it <= k
        invariant !more ==> Fitting(space, size) == {}
        invariant found ==> size <= freeSpace[it].size
        decreases if more then |Above(freeSpace.Keys, it)| + 1 else 0, !found
      {
        if freeSpace[it].size >= size {
          found := true;
        } else {
          ghost var was := it;
          assert forall k: nat :: k in Fitting(space, size) ==> k in Above(freeSpace.Keys, it);
          more, it := After(freeSpace.Keys, it);
          FewerAbove(freeSpace.Keys, was, it);
        }
      }
    }

    /** Give a location that has just been taken the state and link of its block. */
    method Label(loc: PageFileLocation, status: Status, link: Link, ghost k: nat, ghost todo: set<nat>)
      requires Tied(space, todo) && k in todo && k in allSpace && allSpace[k] == loc && k !in freeSpace
      requires space.blocks[k].status == status != Free && space.blocks[k].link == link
      modifies loc`status, loc`link
      ensures Tied(space, todo - {k})
    {
      loc.status := status;
      loc.link := link;
      forall j: nat | j in allSpace && j !in todo - {k}
        ensures allSpace[j].Mirrors(space.blocks[j]) && allSpace[j].Sits(g, j, space.blocks[j])
      {
        assert old(allSpace[j].Sits(g, j, space.blocks[j])) && old(loc.Sits(g, k, space.blocks[k]));
        assert j != k ==> old(allSpace[j].Mirrors(space.blocks[j]));
      }
    }

    /** Take size bytes from a free location as the last part of chunk id. */
    method AllocEnd(it: nat, size: nat, id: nat, ghost todo: set<nat>) returns (res: PageFileLocation)
      requires PageSpace.Valid(g, space) && Tied(space, todo) && todo <= space.blocks.Keys
      requires it in freeSpace && it !in todo && 0 < size && IsFree(space, it) && size <= space.blocks[it].extent
      requires freeSpace[it] == allSpace[it]
      modifies this`allSpace, this`freeSpace, this`swapFree, this`space, this`locs, freeSpace[it]
      ensures space == Carve(g, old(space), it, size, End, Owner(id))
      ensures Tied(space, todo) && it in allSpace && allSpace[it] == res
      ensures swapFree == old(swapFree) - (space.blocks[it].extent - size)
      ensures forall j: nat :: j in old(allSpace) && j != it ==> j in allSpace && allSpace[j] == old(allSpace[j])
      ensures forall j: nat :: j in old(space).blocks && j !in old(freeSpace) ==> j !in freeSpace
      ensures fresh(locs - old(locs))
    {
      hide PageSpace.Valid, Carve, Filed, FreeListed, Fitted;
      CarveBlocks(g, space, it, size, End, Owner(id));
      FreeLocation(it, freeSpace[it], todo);
      res := AllocInFree(freeSpace[it], size, it, End, Owner(id), todo);
      Label(res, End, Owner(id), it, todo + {it});
      assert todo + {it} - {it} == todo;
    }

    /** Count free bytes until there are enough for size or the free map has been walked through. */
    method CountFree(size: nat) returns (total: nat)
      requires Valid() && freeSpace != map[]
      ensures total <= FreeBytes(space)
      ensures size <= FreeBytes(space) ==> size <= total
      ensures total < size ==> total == FreeBytes(space)
    {
      hide Valid, PageSpace.Valid, FreeBytes, FreeUnder;
      FreeKeysValid();
      var scanning, it := After(freeSpace.Keys, -1);
      assert Above(freeSpace.Keys, -1) == Fitting(space, 0);
      FreeUnderFirst(space, it);
      total := 0;
      ghost var counted := false;
      while scanning
        invariant scanning || counted
        invariant scanning ==> it in freeSpace && total == FreeUnder(space, it) && Multiple(total, g.align)
        invariant counted ==> total <= FreeBytes(space)
        invariant !scanning ==> size <= total || total == FreeBytes(space)
        decreases if scanning then |Above(freeSpace.Keys, it)| + 1 else 0
      {
        MultipleIsRemainder(total, g.align);
        FreeExtentAligned(it);
        FreeUnderBound(space, it);
        total := total - total % g.align;
        MultipleSum(total, freeSpace[it].size, g.align);
        total := total + freeSpace[it].size;
        counted := true;
        if total < size {
          ghost var was := it;
          scanning, it := After(freeSpace.Keys, it);
          FewerAbove(freeSpace.Keys, was, it);
          if scanning {
            FreeUnderStep(space, was, it);
          } else {
            FreeUnderLast(space, was);
          }
        } else {
          scanning := false;
        }
      }
    }

    lemma FreeExtentAligned(k: nat)
      requires PageSpace.Valid(g, space) && IsFree(space, k)
      ensures Multiple(space.blocks[k].extent, g.align) && space.blocks[k].extent > 0
    {
      ExtentAligned(g, space, k);
    }

    /** Take a whole free location as a part that is continued in the next free one; its link is still
        missing. */
    method AllocPart(it: nat, allocHere: nat, ghost todo: set<nat>) returns (neu: PageFileLocation)
      requires PageSpace.Valid(g, space) && Tied(space, todo) && todo <= space.blocks.Keys
      requires it in freeSpace && it !in todo && freeSpace[it] == allSpace[it]
      requires Fitting(space, 0) != {} && Fitting(space, 0) != {FirstFree(space)} && it == FirstFree(space)
      requires allocHere == space.blocks[it].extent
      modifies this`allSpace, this`freeSpace, this`swapFree, this`space, this`locs, freeSpace[it]
      ensures space == TakeFirst(g, old(space)) && swapFree == old(swapFree)
      ensures Tied(space, todo + {it}) && it in allSpace && allSpace[it] == neu && neu.status == Part && it !in freeSpace
      ensures forall j: nat :: j in old(allSpace) && j != it ==> j in allSpace && allSpace[j] == old(allSpace[j])
      ensures fresh(locs - old(locs)) && neu in locs
      ensures forall j: nat :: j in old(space).blocks && j !in old(freeSpace) ==> j !in freeSpace
    {
      hide PageSpace.Valid, Carve, Filed, FreeListed, Fitted, Fitting, FirstFree, SecondFree, FreeBytes;
      ghost var link := Next(SecondFree(space));
      TakeFirstValid(g, space);
      CarveBlocks(g, space, it, allocHere, Part, link);
      FreeLocation(it, freeSpace[it], todo);
      neu := AllocInFree(freeSpace[it], allocHere, it, Part, link, todo);
      MarkPart(neu, it, todo + {it});
    }

    method MarkPart(loc: PageFileLocation, ghost k: nat, ghost todo: set<nat>)
      requires Tied(space, todo) && k in todo && k in allSpace && allSpace[k] == loc
      modifies loc`status
      ensures Tied(space, todo) && loc.status == Part
    {
      loc.status := Part;
      forall j: nat | j in allSpace
        ensures (j !in todo ==> allSpace[j].Mirrors(space.blocks[j])) && allSpace[j].Sits(g, j, space.blocks[j])
      {
        assert old(allSpace[j].Sits(g, j, space.blocks[j])) && old(loc.Sits(g, k, space.blocks[k]));
        assert j !in todo ==> old(allSpace[j].Mirrors(space.blocks[j]));
      }
    }

    /** The pointer from the former part to the one that has just been taken. */
    method LinkFormer(former: PageFileLocation, to: nat, ghost k: nat, ghost todo: set<nat>)
      requires Tied(space, todo) && k in todo && k in allSpace && allSpace[k] == former && k !in freeSpace
      requires former.status == Part && space.blocks[k].status == Part && space.blocks[k].link == Next(to)
      modifies former`link
      ensures Tied(space, todo - {k})
    {
      former.link := Next(to);
      forall j: nat | j in allSpace && j !in todo - {k}
        ensures allSpace[j].Mirrors(space.blocks[j]) && allSpace[j].Sits(g, j, space.blocks[j])
      {
        assert old(allSpace[j].Sits(g, j, space.blocks[j])) && old(former.Sits(g, k, space.blocks[k]));
        assert j != k ==> old(allSpace[j].Mirrors(space.blocks[j]));
      }
    }

    /** The part that was taken last waits for its link to the first free block. */
    ghost predicate Waiting(former: PageFileLocation?, fk: nat, todo: set<nat>)
      reads this`allSpace, this`freeSpace, this`space, this`locs, former
    {
      if former == null then todo == {}
      else
        && former in locs && todo == {fk} && fk in allSpace && allSpace[fk] == former && fk !in freeSpace && former.status == Part
        && fk in space.blocks && space.blocks[fk].status == Part
        && Fitting(space, 0) != {} && space.blocks[fk].link == Next(FirstFree(space))
    }

    /** One round of the scattering loop, but for the last: the whole first free block becomes a part,
        and the former part is linked to it. */
    method ScatterRound(it: nat, size: nat, former: PageFileLocation?, ghost fk: nat, ghost todo: set<nat>)
      returns (neu: PageFileLocation, left: nat, next: nat)
      requires PageSpace.Valid(g, space) && Tied(space, todo) && Waiting(former, fk, todo)
      requires Fitting(space, 0) != {} && Fitting(space, 0) != {FirstFree(space)}
      requires it == FirstFree(space) && it in freeSpace && freeSpace[it] == allSpace[it]
      requires freeSpace[it].size == space.blocks[it].extent < size <= FreeBytes(space)
      modifies this`allSpace, this`freeSpace, this`swapFree, this`space, this`locs, locs
      ensures PageSpace.Valid(g, space) && space == TakeFirst(g, old(space)) && swapFree == old(swapFree)
      ensures Tied(space, {it}) && Waiting(neu, it, {it}) && neu in locs
      ensures Fitting(space, 0) != {} && next == FirstFree(space) && next in freeSpace && next in allSpace
      ensures freeSpace[next] == allSpace[next] && freeSpace[next].size == space.blocks[next].extent
      ensures left == size - old(space.blocks[it].extent)
      ensures forall j: nat :: j in old(allSpace) && j != it ==> j in allSpace && allSpace[j] == old(allSpace[j])
      ensures fresh(locs - old(locs))
    {
      hide PageSpace.Valid, Tiled, Filed, FreeListed, Fitted, FreeBytes, TakeFirst;
      FreeKeys(todo);
      FreeLocation(it, freeSpace[it], todo);
      TakeFirstValid(g, space);
      FreeExtentAligned(it);
      MultipleIsRemainder(space.blocks[it].extent, g.align);
      assert Above(freeSpace.Keys, it) == Fitting(space, 0) - {it};
      var allocHere := if freeSpace[it].size < size then freeSpace[it].size else size;
      if size > allocHere {
        allocHere := allocHere - allocHere % g.align;
      }
      var hasNext;
      hasNext, next := After(freeSpace.Keys, it);
      neu := AllocPart(it, allocHere, todo);
      left := size - allocHere;
      if former != null {
        LinkFormer(former, it, fk, todo + {it});
        assert todo + {it} - {fk} == {it};
      } else {
        assert todo + {it} == {it};
      }
      FreeKeys({it});
    }

    /** The last round: the rest goes to the front of the first free block. */
    method ScatterEnd(it: nat, size: nat, id: nat, former: PageFileLocation?, ghost fk: nat, ghost todo: set<nat>)
      returns (neu: PageFileLocation)
      requires PageSpace.Valid(g, space) && Tied(space, todo) && Waiting(former, fk, todo)
      requires Fitting(space, 0) != {} && it == FirstFree(space) && it in freeSpace && freeSpace[it] == allSpace[it]
      requires 0 < size <= space.blocks[it].extent
      modifies this`allSpace, this`freeSpace, this`swapFree, this`space, this`locs, locs
      ensures PageSpace.Valid(g, space) && space == Carve(g, old(space), it, size, End, Owner(id))
      ensures Tied(space, {}) && it in allSpace && allSpace[it] == neu
      ensures swapFree == old(swapFree) - (space.blocks[it].extent - size)
      ensures forall j: nat :: j in old(allSpace) && j != it ==> j in allSpace && allSpace[j] == old(allSpace[j])
      ensures it in space.blocks && space.blocks[it].size == size
      ensures forall j: nat :: j in old(space).blocks && j != it ==> j in space.blocks && space.blocks[j] == old(space).blocks[j]
      ensures fresh(locs - old(locs))
    {
      hide PageSpace.Valid, Carve, Filed, FreeListed, Fitting, Fitted;
      FreeLocation(it, freeSpace[it], todo);
      CarveValid(g, space, it, size, End, Owner(id));
      CarveBlocks(g, space, it, size, End, Owner(id));
      neu := AllocEnd(it, size, id, todo);
      if former != null {
        LinkFormer(former, it, fk, todo);
        assert todo - {fk} == {};
      }
    }

    /** The scattering loop has left bytes to place, from the free location it on; ks has been taken. */
    ghost predicate Scattering(s0: Space, all0: map<nat, PageFileLocation>, size: nat, id: nat, start: nat, left: nat, it: nat,
                               former: PageFileLocation?, fk: nat, todo: set<nat>, ks: seq<nat>, res: PageFileLocation)
      reads this`allSpace, this`freeSpace, this`space, this`locs, this`swapSize, locs
    {
      && PageSpace.Valid(g, s0) && 0 < size <= FreeBytes(s0)
      && PageSpace.Valid(g, space) && Tied(space, todo) && (former == null || former in locs) && Waiting(former, fk, todo)
      && 0 < left <= FreeBytes(space) && Fitting(space, 0) != {} && it == FirstFree(space)
      && it in freeSpace && it in allSpace && freeSpace[it] == allSpace[it]
      && freeSpace[it].size == space.blocks[it].extent
      && Scatter(g, s0, size, id) == Allocation(Scatter(g, space, left, id).space, ks + Scatter(g, space, left, id).chain)
      && (if former == null then ks == [] && it == start
          else ks != [] && ks[0] == start && InUse(space, start) && start in allSpace && allSpace[start] == res)
      && forall j: nat :: j in all0 && InUse(s0, j) ==> j != it && j in allSpace && allSpace[j] == all0[j] && InUse(space, j)
    }

    method ScatterStep(it: nat, left: nat, former: PageFileLocation?, res: PageFileLocation, ks: seq<nat>, ghost s0: Space,
                       ghost all0: map<nat, PageFileLocation>, ghost size: nat, ghost id: nat, ghost start: nat,
                       ghost fk: nat, ghost todo: set<nat>)
        returns (it': nat, left': nat, former': PageFileLocation, res': PageFileLocation, ks': seq<nat>)
      requires Scattering(s0, all0, size, id, start, left, it, former, fk, todo, ks, res) && left > freeSpace[it].size
      modifies this`allSpace, this`freeSpace, this`swapFree, this`space, this`locs, locs
      ensures Scattering(s0, all0, size, id, start, left', it', former', it, {it}, ks', res') && left' < left && it' in freeSpace
      ensures swapFree == old(swapFree) && fresh(locs - old(locs))
    {
      hide PageSpace.Valid, Tiled, Carve, Filed, FreeListed, Fitting, Fitted, FreeBytes, TakeFirst;
      AnotherFree(space, left);
      TakeFirstValid(g, space);
      former', left', it' := ScatterRound(it, left, former, fk, todo);
      res' := if former == null then former' else res;
      ks' := ks + [it];
    }

    /** Before anything is taken, the walk stands at the first free location. */
    lemma ScatterBegins(size: nat, id: nat, it: nat, res: PageFileLocation)
      requires Valid() && 0 < size <= FreeBytes(space) && IsLeast(Above(freeSpace.Keys, -1), it)
      ensures it in freeSpace && Scattering(space, allSpace, size, id, it, size, it, null, 0, {}, [], res)
    {
      hide PageSpace.Valid, Tiled, Carve, Filed, FreeListed, Fitted, FreeBytes, TakeFirst, Scatter;
      SomeFree(space);
      FreeKeysValid();
      FreeOrUsed();
      assert Above(freeSpace.Keys, -1) == Fitting(space, 0);
      assert it in Fitting(space, 0);
    }

    lemma SomethingFree(size: nat)
      requires Valid() && 0 < size <= FreeBytes(space)
      ensures Above(freeSpace.Keys, -1) != {}
    {
      hide PageSpace.Valid, Filed, FreeListed, FreeBytes;
      SomeFree(space);
      FreeKeysValid();
      assert Above(freeSpace.Keys, -1) == Fitting(space, 0);
    }

    lemma FreeOrUsed()
      requires Valid()
      ensures forall it: nat, j: nat :: it in freeSpace && InUse(space, j) ==> j != it && j in allSpace
    {
    }

    /** The rest fits into one free location. */
    method ScatterLast(it: nat, left: nat, former: PageFileLocation?, res: PageFileLocation, ks: seq<nat>, ghost s0: Space,
                       ghost all0: map<nat, PageFileLocation>, ghost size: nat, id: nat, ghost start: nat,
                       ghost fk: nat, ghost todo: set<nat>)
        returns (res': PageFileLocation, ks': seq<nat>)
      requires Scattering(s0, all0, size, id, start, left, it, former, fk, todo, ks, res) && left <= freeSpace[it].size
      modifies this`allSpace, this`freeSpace, this`swapFree, this`space, this`locs, locs
      ensures PageSpace.Valid(g, s0) && 0 < size <= FreeBytes(s0) && Allocation(space, ks') == Scatter(g, s0, size, id)
      ensures PageSpace.Valid(g, space) && Tied(space, {}) && ks' != [] && ks'[0] in allSpace && allSpace[ks'[0]] == res'
      ensures ks'[|ks'| - 1] in space.blocks && var last := space.blocks[ks'[|ks'| - 1]];
              swapFree == old(swapFree) - (last.extent - last.size)
      ensures forall j: nat :: j in all0 && InUse(s0, j) ==> j in allSpace && allSpace[j] == all0[j]
      ensures fresh(locs - old(locs))
    {
      hide PageSpace.Valid, Tiled, Carve, Filed, FreeListed, Fitting, Fitted, FreeBytes, TakeFirst;
      var neu := ScatterEnd(it, left, id, former, fk, todo);
      ks' := ks + [it];
      res' := if former == null then neu else res;
    }

    /** Distribute size bytes over the free locations, lowest offset first. */
    method ScatterOver(size: nat, id: nat) returns (res: PageFileLocation, ks: seq<nat>)
      requires Valid() && 0 < size <= FreeBytes(space)
      modifies this`allSpace, this`freeSpace, this`swapFree, this`space, this`locs, locs
      ensures PageSpace.Valid(g, old(space)) && Allocation(space, ks) == Scatter(g, old(space), size, id)
      ensures Valid() && ks != [] && ks[0] in allSpace && allSpace[ks[0]] == res
      ensures ks[|ks| - 1] in space.blocks && var last := space.blocks[ks[|ks| - 1]];
              swapFree == old(swapFree) - (last.extent - last.size)
      ensures forall j: nat :: j in old(allSpace) && InUse(old(space), j) ==> j in allSpace && allSpace[j] == old(allSpace[j])
      ensures fresh(locs - old(locs))
    {
      hide Scattering, Scatter, Tied, PageSpace.Valid, FreeBytes;
      SomethingFree(size);
      var left: nat, former: PageFileLocation? := size, null;
      var more, it := After(freeSpace.Keys, -1);
      ghost var fk, todo, start := 0, {}, it;
      assert it in freeSpace by { assert it in Above(freeSpace.Keys, -1); }
      ks := [];
      res := freeSpace[it];
      ScatterBegins(size, id, it, res);
      while left > freeSpace[it].size
        invariant it in freeSpace
        invariant Scattering(old(space), old(allSpace), size, id, start, left, it, former, fk, todo, ks, res)
        invariant swapFree == old(swapFree) && fresh(locs - old(locs))
        decreases left
      {
        ghost var k := it;
        it, left, former, res, ks := ScatterStep(it, left, former, res, ks, old(space), old(allSpace), size, id, start, fk, todo);
        fk, todo := k, {k};
      }
      res, ks := ScatterLast(it, left, former, res, ks, old(space), old(allSpace), size, id, start, fk, todo);
    }

    /** Use the first location that takes size bytes in one piece. */
    method PlaceAt(it: nat, size: nat, id: nat) returns (res: PageFileLocation)
      requires Valid() && 0 < size && IsLeast(Fitting(space, size), it)
      modifies this`allSpace, this`freeSpace, this`swapFree, this`space, this`locs, locs
      ensures Valid() && space == Carve(g, old(space), it, size, End, Owner(id))
      ensures it in allSpace && allSpace[it] == res && it in space.blocks
      ensures swapFree == old(swapFree) - (space.blocks[it].extent - space.blocks[it].size)
      ensures forall j: nat :: j in old(allSpace) && InUse(old(space), j) ==> j in allSpace && allSpace[j] == old(allSpace[j])
      ensures fresh(locs - old(locs))
    {
      hide PageSpace.Valid, Carve, Filed, FreeListed, Fitted;
      FreeKeysValid();
      assert it in Fitting(space, size);
      FreeLocation(it, freeSpace[it], {});
      CarveValid(g, space, it, size, End, Owner(id));
      CarveBlocks(g, space, it, size, End, Owner(id));
      res := AllocEnd(it, size, id, {});
    }

    // -------------------------------------------------------------- page files

    /** One page file more, free from start to end. */
    method AddPageFile()
      requires PageSpace.Valid(g, space) && Filed(space, {}) && FreeListed(space, {})
      requires space.size == Times(pageFileNumber, g.page)
      modifies this`allSpace, this`freeSpace, this`pageFileNumber, this`space, this`locs
      ensures PageSpace.Valid(g, space) && Filed(space, {}) && FreeListed(space, {})
      ensures space.size == Times(pageFileNumber, g.page) && pageFileNumber == old(pageFileNumber) + 1
      ensures space == AddFile(g, old(space)) && fresh(locs - old(locs))
      ensures forall j: nat :: j in old(allSpace) ==> j in allSpace && allSpace[j] == old(allSpace[j])
    {
      hide PageSpace.Valid, Tiled, Filed, FreeListed;
      AddFileValid(g, space);
      TimesIsProduct(pageFileNumber, g.page);
      ghost var s := space;
      var pfloc := new PageFileLocation(pageFileNumber, 0, g.page);
      freeSpace := freeSpace[pageFileNumber * g.page := pfloc];
      allSpace := allSpace[pageFileNumber * g.page := pfloc];
      locs := locs + {pfloc};
      space := AddFile(g, space);
      pageFileNumber := pageFileNumber + 1;
      FileFiled(s, pfloc);
      FileListed(s, pfloc);
    }

    twostate lemma FileFiled(new s: Space, new pfloc: PageFileLocation)
      requires old(Filed(s, {})) && s.size !in s.blocks && pfloc.Sits(g, s.size, AddFile(g, s).blocks[s.size])
      requires pfloc.status == Free && allSpace == old(allSpace)[s.size := pfloc] && locs == old(locs) + {pfloc}
      requires forall l :: l in old(locs) ==> unchanged(l)
      ensures Filed(AddFile(g, s), {})
      ensures forall j: nat :: j in old(allSpace) ==> j in allSpace && allSpace[j] == old(allSpace[j])
    {
      forall j: nat | j in allSpace && j != s.size
        ensures allSpace[j].Sits(g, j, s.blocks[j]) && allSpace[j].Mirrors(s.blocks[j])
      {
        assert old(allSpace[j].Sits(g, j, s.blocks[j]));
      }
    }

    twostate lemma FileListed(new s: Space, new pfloc: PageFileLocation)
      requires old(FreeListed(s, {})) && s.size !in s.blocks
      requires allSpace == old(allSpace)[s.size := pfloc] && freeSpace == old(freeSpace)[s.size := pfloc]
      ensures FreeListed(AddFile(g, s), {})
    {
    }

    lemma EmptyValid(g: Layout)
      ensures PageSpace.Valid(g, Space(0, map[]))
    {
    }

    /** A row of files page files. */
    constructor (g: Layout, files: nat)
      ensures this.g == g && Valid() && fresh(locs) && pageFileNumber == files
      ensures space == Fresh(g, files) && swapFree == swapSize == Times(files, g.page)
    {
      hide PageSpace.Valid, AddFile;
      this.g := g;
      allSpace, freeSpace, pageFileNumber := map[], map[], 0;
      swapSize, swapFree := files * g.page, files * g.page;
      space, locs := Space(0, map[]), {};
      new;
      EmptyValid(g);
      TimesIsProduct(files, g.page);
      for n := 0 to files
        invariant PageSpace.Valid(g, space) && Filed(space, {}) && FreeListed(space, {}) && fresh(locs)
        invariant space == Fresh(g, n) && pageFileNumber == n && space.size == Times(n, g.page)
        invariant swapFree == swapSize == Times(files, g.page)
      {
        AddPageFile();
      }
    }

    /** Open more page files; size is rounded up to whole files. */
    method ExtendSwap(size: nat, freeDiskSpace: nat) returns (success: bool)
      requires Valid()
      modifies this`allSpace, this`freeSpace, this`pageFileNumber, this`space, this`locs, this`swapFree, this`swapSize
      ensures Valid() && fresh(locs - old(locs))
      ensures success <==> Pad(size, g.page) <= freeDiskSpace
      ensures !success ==> space == old(space) && swapFree == old(swapFree)
      ensures success ==> exists files: nat :: Times(files, g.page) == Pad(size, g.page) && space == Extend(g, old(space), files)
      ensures success ==> swapFree == old(swapFree) + Pad(size, g.page) && swapSize == old(swapSize) + Pad(size, g.page)
      ensures forall j: nat :: j in old(allSpace) ==> j in allSpace && allSpace[j] == old(allSpace[j])
    {
      hide PageSpace.Valid, AddFile, Filed, FreeListed, Pad;
      var rounded := RoundUp(size, g.page);
      if rounded > freeDiskSpace {
        return false;
      }
      var files := rounded / g.page;
      QuotientTimes(rounded, g.page, size);
      for n := 0 to files
        invariant PageSpace.Valid(g, space) && Filed(space, {}) && FreeListed(space, {}) && fresh(locs - old(locs))
        invariant space == Extend(g, old(space), n) && pageFileNumber == old(pageFileNumber) + n
        invariant space.size == Times(pageFileNumber, g.page) == old(space).size + Times(n, g.page)
        invariant swapFree == old(swapFree) && swapSize == old(swapSize)
        invariant forall j: nat :: j in old(allSpace) ==> j in allSpace && allSpace[j] == old(allSpace[j])
      {
        AddPageFile();
      }
      swapFree := swapFree + rounded;
      swapSize := swapSize + rounded;
      success := true;
    }
  }
}
