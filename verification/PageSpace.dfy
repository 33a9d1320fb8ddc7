/**
 The page files as a value: which stretch of the global offset range [0, size) belongs to which
 block.  The page file location objects and the two ordered maps of managedFileSwap are tied to this
 value in PageFiles; what they keep invariant is proved here.
 */
module PageSpace {
  import opened Numbers
  import opened Ordered
  import opened Totals

  /** pageFileSize, memoryAlignment and sizeof(pageFileLocation). */
  datatype Geometry = Geometry(page: nat, align: nat, node: nat) {
    predicate Sane() {
      page > 0 && align > 0 && node > 0 && Multiple(page, align)
    }
  }

  type Layout = g: Geometry | g.Sane() witness Geometry(1, 1, 1)

  datatype Status = Free | Part | End

  /** The union glob_off_next: the next part of a chain, or the chunk that a final part belongs to. */
  datatype Link = Nothing | Next(to: nat) | Owner(id: nat)

  /** extent is the distance to the next block, size the bytes of data. */
  datatype Block = Block(extent: nat, size: nat, status: Status, link: Link)

  datatype Space = Space(size: nat, blocks: map<nat, Block>)

  ghost function Stop(s: Space, k: nat): nat
    requires k in s.blocks
  {
    k + s.blocks[k].extent
  }

  ghost predicate IsFree(s: Space, k: nat) {
    k in s.blocks && s.blocks[k].status.Free?
  }

  ghost predicate Boundary(s: Space, x: nat) {
    x in s.blocks || x == s.size
  }

  ghost predicate Bounded(g: Layout, s: Space) {
    forall k :: k in s.blocks ==> k < s.size && s.blocks[k].extent > 0 && Multiple(k, g.align)
  }

  /** Every block stops where the next one begins, or at the end of the swap. */
  ghost predicate Closed(s: Space) {
    forall k {:trigger Boundary(s, Stop(s, k))} :: k in s.blocks ==> Boundary(s, Stop(s, k))
  }

  ghost predicate Disjoint(s: Space) {
    forall j, k {:trigger Stop(s, j), s.blocks[k]} {:trigger Stop(s, j), k in s.blocks} ::
      j in s.blocks && k in s.blocks && j < k ==> Stop(s, j) <= k
  }

  /** Every page file begins with a block. */
  ghost predicate FilesStart(g: Layout, s: Space) {
    forall k: nat {:trigger Multiple(k, g.page)} :: k < s.size && Multiple(k, g.page) ==> k in s.blocks
  }

  /** The blocks tile [0, size) without gap or overlap and without crossing a file boundary. */
  ghost predicate Tiled(g: Layout, s: Space) {
    && Multiple(s.size, g.page)
    && Bounded(g, s)
    && Closed(s)
    && Disjoint(s)
    && FilesStart(g, s)
  }

  /** Data and extent of one block: free blocks and whole parts are exact, a final part leaves less
      than a node of unusable rest behind its padding. */
  predicate Fitted(g: Layout, b: Block) {
    match b.status
    case Free => b.size == b.extent && b.link == Nothing
    case Part => b.size == b.extent && b.link.Next?
    case End => 0 < b.size && Pad(b.size, g.align) <= b.extent < Pad(b.size, g.align) + g.node && b.link.Owner?
  }

  /** No two free neighbours within one file. */
  ghost predicate Coalesced(g: Layout, s: Space) {
    forall k: nat {:trigger IsFree(s, Stop(s, k))} :: IsFree(s, k) && IsFree(s, Stop(s, k)) ==> Multiple(Stop(s, k), g.page)
  }

  ghost predicate Valid(g: Layout, s: Space) {
    && Tiled(g, s)
    && (forall k :: k in s.blocks ==> Fitted(g, s.blocks[k]))
    && Coalesced(g, s)
  }

  ghost predicate InUse(s: Space, k: nat) {
    k in s.blocks && !s.blocks[k].status.Free?
  }

  /** The blocks that hold data. */
  ghost function Used(s: Space): map<nat, Block> {
    map k | k in s.blocks && !s.blocks[k].status.Free? :: s.blocks[k]
  }

  /** How a change of one block shows in the map of used blocks. */
  lemma UsedChanged(s: Space, t: Space, k: nat)
    requires forall j: nat :: j != k ==> (InUse(s, j) <==> InUse(t, j)) && (InUse(s, j) ==> s.blocks[j] == t.blocks[j])
    ensures InUse(t, k) ==> Used(t) == Used(s)[k := t.blocks[k]]
    ensures !InUse(t, k) ==> Used(t) == Used(s) - {k}
  {
  }

  // ---------------------------------------------------------------- tiling

  lemma GreatestBelow(keys: set<nat>, x: nat) returns (m: nat)
    requires exists k :: k in keys && k < x
    ensures m in keys && m < x && forall k :: k in keys && k < x ==> k <= m
  {
    var j :| j in keys && j < x;
    assert j in Under(keys, x);
    GreatestExists(Under(keys, x));
    m :| IsGreatest(Under(keys, x), m);
    assert forall k :: k in keys && k < x ==> k in Under(keys, x);
  }

  /** Every boundary but the first is where a block stops: this is what stepping back one entry in
      the ordered map finds. */
  lemma Predecessor(g: Layout, s: Space, x: nat) returns (p: nat)
    requires Tiled(g, s) && Boundary(s, x) && x > 0
    ensures p in s.blocks && Stop(s, p) == x
    ensures forall k :: k in s.blocks && k < x ==> k <= p
  {
    assert Multiple(0, g.page);
    assert 0 in s.blocks;
    p := GreatestBelow(s.blocks.Keys, x);
    assert Boundary(s, Stop(s, p));
  }

  lemma ExtentAligned(g: Layout, s: Space, k: nat)
    requires Tiled(g, s) && k in s.blocks
    ensures Multiple(s.blocks[k].extent, g.align) && Multiple(s.size, g.align)
  {
    MultipleTransitive(s.size, g.page, g.align);
    assert Boundary(s, Stop(s, k));
    MultipleSum(k, s.blocks[k].extent, g.align);
  }

  /** Each byte of the swap lies in exactly one block. */
  lemma EachByteInOneBlock(g: Layout, s: Space, x: nat)
    requires Tiled(g, s) && x < s.size
    ensures exists k :: k in s.blocks && k <= x < Stop(s, k)
    ensures forall j, k :: j in s.blocks && k in s.blocks && j <= x < Stop(s, j) && k <= x < Stop(s, k) ==> j == k
  {
    assert Multiple(0, g.page);
    assert 0 in s.blocks;
    var p := GreatestBelow(s.blocks.Keys, x + 1);
    assert Boundary(s, Stop(s, p));
  }

  /** No block crosses from one page file into the next. */
  lemma NoFileCrossing(g: Layout, s: Space, k: nat, start: nat)
    requires Tiled(g, s) && k in s.blocks && Multiple(start, g.page)
    ensures !(k < start < Stop(s, k))
  {
    assert Boundary(s, Stop(s, k));
  }

  // ---------------------------------------------------------------- byte counts

  ghost function Extent(b: Block): nat { b.extent }
  ghost function FreeExtent(b: Block): nat { if b.status.Free? then b.extent else 0 }
  ghost function UsedExtent(b: Block): nat { if b.status.Free? then 0 else b.extent }

  ghost function FreeBytes(s: Space): nat { Total(s.blocks, FreeExtent) }
  ghost function UsedBytes(s: Space): nat { Total(Used(s), Extent) }

  ghost function Below(s: Space, x: nat): map<nat, Block> {
    map k | k in s.blocks && k < x :: s.blocks[k]
  }

  lemma {:induction false} BytesBelow(g: Layout, s: Space, x: nat)
    requires Tiled(g, s) && Boundary(s, x)
    ensures Total(Below(s, x), Extent) == x
  {
    if x == 0 {
      assert Below(s, x) == map[];
    } else {
      var p := Predecessor(g, s, x);
      BytesBelow(g, s, p);
      assert Below(s, x) - {p} == Below(s, p);
      TotalSplit(Below(s, x), Extent, p);
    }
  }

  /** Free bytes and the extents of the blocks in use add up to the swap size. */
  lemma BytesAddUp(g: Layout, s: Space)
    requires Tiled(g, s)
    ensures FreeBytes(s) + UsedBytes(s) == s.size
  {
    BytesBelow(g, s, s.size);
    assert Below(s, s.size) == s.blocks;
    TotalAdd(s.blocks, FreeExtent, UsedExtent, Extent);
    TotalWhere(s.blocks, UsedExtent, Used(s), Extent);
  }

  // ---------------------------------------------------------------- canonical form

  lemma FreeStartsAgree(g: Layout, s: Space, t: Space, k: nat)
    requires Valid(g, s) && Valid(g, t) && s.size == t.size && Used(s) == Used(t)
    requires IsFree(s, k)
    ensures IsFree(t, k)
  {
    if !Multiple(k, g.page) {
      var p := Predecessor(g, s, k);
      assert !IsFree(s, p) by { assert IsFree(s, Stop(s, p)); }
      assert p in Used(s);
      assert p in Used(t) && t.blocks[p] == s.blocks[p];
      assert Boundary(t, Stop(t, p));
    }
    assert k in t.blocks && k !in Used(s);
  }

  lemma ExtentsAgree(g: Layout, s: Space, t: Space, k: nat)
    requires Tiled(g, s) && Tiled(g, t) && s.size == t.size && s.blocks.Keys == t.blocks.Keys && k in s.blocks
    ensures s.blocks[k].extent == t.blocks[k].extent
  {
    assert Boundary(s, Stop(s, k)) && Boundary(t, Stop(t, k));
    assert Stop(s, k) in t.blocks ==> Stop(t, k) <= Stop(s, k);
    assert Stop(t, k) in s.blocks ==> Stop(s, k) <= Stop(t, k);
  }

  /** The free blocks are determined by the blocks in use: the state has no memory of the order in
      which blocks were taken and given back. */
  lemma Canonical(g: Layout, s: Space, t: Space)
    requires Valid(g, s) && Valid(g, t) && s.size == t.size
    requires Used(s) == Used(t)
    ensures s == t
  {
    forall k
      ensures k in s.blocks <==> k in t.blocks
    {
      if k in s.blocks {
        if IsFree(s, k) { FreeStartsAgree(g, s, t, k); } else { assert k in Used(s); }
      }
      if k in t.blocks {
        if IsFree(t, k) { FreeStartsAgree(g, t, s, k); } else { assert k in Used(t); }
      }
    }
    forall k: nat | k in s.blocks
      ensures s.blocks[k] == t.blocks[k]
    {
      ExtentsAgree(g, s, t, k);
      if IsFree(s, k) {
        FreeStartsAgree(g, s, t, k);
        assert Fitted(g, s.blocks[k]) && Fitted(g, t.blocks[k]);
      } else {
        assert k in Used(s);
        assert k in Used(t);
        assert Used(s)[k] == Used(t)[k];
      }
    }
    assert s.blocks == t.blocks;
  }

  // ---------------------------------------------------------------- page files

  /** One more page file at the end, free from start to end. */
  ghost function AddFile(g: Layout, s: Space): Space {
    Space(s.size + g.page, s.blocks[s.size := Block(g.page, g.page, Free, Nothing)])
  }

  /** The loop of extendSwap, and from nothing the one of the constructor. */
  ghost function Extend(g: Layout, s: Space, files: nat): Space {
    if files == 0 then s else AddFile(g, Extend(g, s, files - 1))
  }

  ghost function Fresh(g: Layout, files: nat): Space {
    Extend(g, Space(0, map[]), files)
  }

  lemma AddFileTiled(g: Layout, s: Space)
    requires Tiled(g, s)
    ensures Tiled(g, AddFile(g, s))
  {
    var t := AddFile(g, s);
    MultipleSum(s.size, g.page, g.page);
    MultipleTransitive(s.size, g.page, g.align);
    forall k: nat | k in t.blocks
      ensures Boundary(t, Stop(t, k))
    {
      if k in s.blocks { assert Boundary(s, Stop(s, k)); }
    }
    forall j: nat, k: nat | j in t.blocks && k in t.blocks && j < k
      ensures Stop(t, j) <= k
    {
      assert j in s.blocks && Boundary(s, Stop(s, j));
    }
    forall k: nat | k < t.size && Multiple(k, g.page)
      ensures k in t.blocks
    {
      if s.size < k { MultipleGap(s.size, k, g.page); }
    }
  }

  lemma AddFileValid(g: Layout, s: Space)
    requires Valid(g, s)
    ensures Valid(g, AddFile(g, s)) && Used(AddFile(g, s)) == Used(s) && s.size !in s.blocks
  {
    var t := AddFile(g, s);
    AddFileTiled(g, s);
    forall k: nat | IsFree(t, k) && IsFree(t, Stop(t, k))
      ensures Multiple(Stop(t, k), g.page)
    {
      assert k in s.blocks;
      assert IsFree(s, Stop(s, k)) || Stop(s, k) == s.size;
    }
    assert Used(t) == Used(s);
  }

  lemma {:induction false} ExtendValid(g: Layout, s: Space, files: nat)
    requires Valid(g, s)
    ensures Valid(g, Extend(g, s, files)) && Used(Extend(g, s, files)) == Used(s)
    ensures Extend(g, s, files).size == s.size + Times(files, g.page)
  {
    if files > 0 {
      ExtendValid(g, s, files - 1);
      AddFileValid(g, Extend(g, s, files - 1));
    }
  }

  lemma FreshValid(g: Layout, files: nat)
    ensures Valid(g, Fresh(g, files)) && Used(Fresh(g, files)) == map[]
    ensures Fresh(g, files).size == Times(files, g.page)
  {
    assert Used(Space(0, map[])) == map[];
    ExtendValid(g, Space(0, map[]), files);
  }

  /** When nothing is in use any more, whatever happened before, each file is one full free block. */
  lemma AllFreedIsFresh(g: Layout, s: Space, files: nat)
    requires Valid(g, s) && Used(s) == map[] && s.size == Times(files, g.page)
    ensures s == Fresh(g, files)
  {
    FreshValid(g, files);
    Canonical(g, s, Fresh(g, files));
  }
}
