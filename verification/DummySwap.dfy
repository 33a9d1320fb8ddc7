/** The swap that keeps swapped chunks in another stretch of RAM, updated in place: the simple store that
    Refinement compares the file swap with. */
module DummySwap {
  import opened ChunkStatus
  import opened Disk
  import opened Refinement
  import opened Totals

  class ManagedMemoryChunk {
    const size: nat
    var status: MemoryStatus
    var locPtr: array?<bv8>
    var swapBuf: array?<bv8>

    constructor (size: nat, data: Bytes)
      requires |data| == size
      ensures this.size == size && status.Allocated? && Shaped() && Seen() == Kept(InRam, data)
      ensures fresh(locPtr) && swapBuf == null
    {
      this.size, status, swapBuf := size, Allocated, null;
      var buf := new bv8[size](i requires 0 <= i < |data| => data[i]);
      locPtr := buf;
      new;
      assert locPtr[..] == data;
    }

    /** Either all of the chunk lies in RAM, or all of it in the swap. */
    ghost predicate Shaped()
      reads this
    {
      if status.Resident() then locPtr != null && locPtr.Length == size
      else status.Swapped? && swapBuf != null && swapBuf.Length == size
    }

    ghost function Buffer(): (b: array<bv8>)
      reads this
      requires Shaped()
    {
      if status.Resident() then locPtr else swapBuf
    }

    ghost function Seen(): Kept
      requires Shaped()
      reads this, Buffer()
    {
      Kept(if status.Swapped? then InSwap else InRam, Buffer()[..])
    }
  }

  /** What is seen of the chunks, by their place in the list. */
  ghost predicate AllShaped(all: seq<ManagedMemoryChunk>)
    reads all
  {
    forall i: nat :: i < |all| ==> all[i].Shaped()
  }

  ghost function Buffers(all: seq<ManagedMemoryChunk>): set<array<bv8>>
    requires AllShaped(all)
    reads all
  {
    set i: nat | i < |all| :: all[i].Buffer()
  }

  ghost function View(all: seq<ManagedMemoryChunk>): Store
    requires AllShaped(all)
    reads all, Buffers(all)
  {
    map i: nat | i < |all| :: all[i].Seen()
  }

  ghost predicate Distinct(all: seq<ManagedMemoryChunk>) {
    forall i: nat, j: nat :: i < j < |all| ==> all[i] != all[j]
  }

  /** The view changes only at the place of the chunk that has changed. */
  twostate lemma ViewChanged(all: seq<ManagedMemoryChunk>, new k: nat)
    requires k < |all| && Distinct(all) && old(AllShaped(all)) && all[k].Shaped()
    requires forall i: nat :: i < |all| && i != k ==> unchanged(all[i]) && unchanged(all[i].Buffer())
    ensures AllShaped(all) && View(all) == old(View(all))[k := all[k].Seen()]
  {
    forall i: nat | i < |all|
      ensures all[i].Shaped() && (i != k ==> all[i].Seen() == old(all[i].Seen()))
    {
      assert i != k ==> old(all[i].Shaped());
    }
  }

  /** memcpy into a new buffer. */
  method CopyOf(from: array<bv8>) returns (buf: array<bv8>)
    ensures fresh(buf) && buf.Length == from.Length && buf[..] == from[..]
  {
    buf := new bv8[from.Length];
    forall i | 0 <= i < from.Length {
      buf[i] := from[i];
    }
  }

  ghost function SwapBytes(k: Kept): nat { if k.place.InSwap? then |k.data| else 0 }
  ghost function RamBytes(k: Kept): nat { if k.place.InRam? then |k.data| else 0 }

  /** How the two sums follow a chunk that changes places. */
  lemma Moved(d: Store, k: nat, to: Place)
    requires k in d && d[k].place != to
    ensures var d', n := d[k := Kept(to, d[k].data)], |d[k].data|;
            && Total(d', SwapBytes) == Total(d, SwapBytes) + (if to.InSwap? then n else -n)
            && Total(d', RamBytes) == Total(d, RamBytes) - (if to.InSwap? then n else -n)
  {
    TotalUpdate(d, SwapBytes, k, Kept(to, d[k].data));
    TotalUpdate(d, RamBytes, k, Kept(to, d[k].data));
  }

  /** What a list swaps out: each chunk for which there still is room when its turn comes. */
  ghost function Puts(d: Store, used: int, capacity: nat, ks: seq<nat>): seq<StoreEvent>
    requires forall k :: k in ks ==> k in d
    decreases |ks|
  {
    if ks == [] then []
    else if |d[ks[0]].data| + used <= capacity then [PutOut(ks[0])] + Puts(d, used + |d[ks[0]].data|, capacity, ks[1..])
    else Puts(d, used, capacity, ks[1..])
  }

  ghost function Fetches(ks: seq<nat>): seq<StoreEvent> {
    if ks == [] then [] else [FetchIn(ks[0])] + Fetches(ks[1..])
  }

  class ManagedDummySwap {
    const swapSize: nat
    var swapFree: int
    var swapUsed: int
    /** The manager's side of the books. */
    var memoryUsed: int
    var memorySwapped: int

    constructor (size: nat)
      ensures swapSize == swapFree == size && swapUsed == memoryUsed == memorySwapped == 0
      ensures Valid([])
    {
      swapSize, swapFree, swapUsed, memoryUsed, memorySwapped := size, size, 0, 0, 0;
    }

    /** The books agree with where the chunks are, and the swap is not overbooked. */
    ghost predicate Balanced(d: Store)
      reads this
    {
      && swapUsed == memorySwapped == Total(d, SwapBytes) <= swapSize
      && memoryUsed == Total(d, RamBytes)
      && swapFree + swapUsed == swapSize
    }

    ghost predicate Valid(all: seq<ManagedMemoryChunk>)
      reads this, all, if AllShaped(all) then Buffers(all) else {}
    {
      Distinct(all) && AllShaped(all) && Balanced(View(all))
    }

    /** managedSwap::claimUsageof. */
    method ClaimUsageof(bytes: nat, rambytes: bool, used: bool)
      modifies this
      ensures var n := if used then bytes else -(bytes as int);
              if rambytes then memoryUsed == old(memoryUsed) + n && unchanged(`memorySwapped, `swapFree, `swapUsed)
              else memorySwapped == old(memorySwapped) + n && swapUsed == old(swapUsed) + n && swapFree == old(swapFree) - n
                   && unchanged(`memoryUsed)
    {
      var n := if used then bytes else -(bytes as int);
      if rambytes {
        memoryUsed := memoryUsed + n;
      } else {
        memorySwapped, swapFree, swapUsed := memorySwapped + n, swapFree - n, swapUsed + n;
      }
    }

    /** The books have followed a chunk to the other side. */
    twostate lemma StillBalanced(new d: Store, new k: nat, new to: Place)
      requires old(Balanced(d)) && k in d && d[k].place != to
      requires var n := if to.InSwap? then |d[k].data| else -(|d[k].data| as int);
               && memoryUsed == old(memoryUsed) - n && memorySwapped == old(memorySwapped) + n
               && swapUsed == old(swapUsed) + n && swapFree == old(swapFree) - n && (to.InSwap? ==> swapUsed <= swapSize)
      ensures Balanced(d[k := Kept(to, d[k].data)])
    {
      Moved(d, k, to);
    }

    /** swapOut of one chunk: refused exactly if it would overfill the swap. */
    method SwapOut(chunk: ManagedMemoryChunk, ghost all: seq<ManagedMemoryChunk>, ghost k: nat) returns (bytes: nat)
      requires Valid(all) && k < |all| && all[k] == chunk && chunk.status.Resident()
      modifies this, chunk
      ensures Valid(all)
      ensures swapUsed == old(swapUsed) + bytes
      ensures bytes == if chunk.size + old(swapUsed) <= swapSize then chunk.size else 0
      ensures View(all) == if chunk.size + old(swapUsed) <= swapSize then StoreStep(old(View(all)), PutOut(k)) else old(View(all))
      ensures forall i: nat :: i < |all| && i != k ==> unchanged(all[i])
    {
      hide Balanced;
      if chunk.size + swapUsed > swapSize {
        return 0;
      }
      ghost var d := View(all);
      assert d[k] == chunk.Seen();
      var buf := CopyOf(chunk.locPtr);
      chunk.swapBuf := buf;
      chunk.locPtr := null;
      chunk.status := Swapped;
      ClaimUsageof(chunk.size, false, true);
      ClaimUsageof(chunk.size, true, false);
      ViewChanged(all, k);
      StillBalanced(d, k, InSwap);
      bytes := chunk.size;
    }

    /** swapIn of one chunk. */
    method SwapIn(chunk: ManagedMemoryChunk, ghost all: seq<ManagedMemoryChunk>, ghost k: nat) returns (bytes: nat)
      requires Valid(all) && k < |all| && all[k] == chunk && chunk.status.Swapped?
      modifies this, chunk
      ensures Valid(all) && bytes == chunk.size && View(all) == StoreStep(old(View(all)), FetchIn(k))
      ensures swapUsed == old(swapUsed) - bytes
      ensures forall i: nat :: i < |all| && i != k ==> unchanged(all[i])
    {
      hide Balanced;
      ghost var d := View(all);
      assert d[k] == chunk.Seen();
      var buf := CopyOf(chunk.swapBuf);
      chunk.locPtr := buf;
      chunk.swapBuf := null;
      chunk.status := Allocated;
      ClaimUsageof(chunk.size, false, false);
      ClaimUsageof(chunk.size, true, true);
      ViewChanged(all, k);
      StillBalanced(d, k, InRam);
      bytes := chunk.size;
    }

    /** A list of chunks and where they stand among all chunks. */
    ghost predicate Listed(all: seq<ManagedMemoryChunk>, chunklist: seq<ManagedMemoryChunk>, ks: seq<nat>) {
      && |ks| == |chunklist|
      && (forall i: nat :: i < |ks| ==> ks[i] < |all| && all[ks[i]] == chunklist[i])
      && (forall i: nat, j: nat :: i < j < |ks| ==> ks[i] != ks[j])
    }

    /** The list from the n-th chunk on still has to be swapped out. */
    ghost predicate Putting(all: seq<ManagedMemoryChunk>, chunklist: seq<ManagedMemoryChunk>, ks: seq<nat>, n: nat,
                            d0: Store, used0: int, sum: nat)
      reads this, all, if AllShaped(all) then Buffers(all) else {}
    {
      && Valid(all) && n <= |ks| && Listed(all, chunklist, ks)
      && (forall i: nat :: n <= i < |ks| ==> chunklist[i].status.Resident())
      && d0.Keys == View(all).Keys && (forall i :: i in d0 ==> d0[i].data == View(all)[i].data)
      && swapUsed == used0 + sum
      && StoreRun(d0, Puts(d0, used0, swapSize, ks)) == StoreRun(View(all), Puts(d0, swapUsed, swapSize, ks[n..]))
    }

    method PutNext(chunklist: seq<ManagedMemoryChunk>, n: nat, ghost all: seq<ManagedMemoryChunk>, ghost ks: seq<nat>,
                   ghost d0: Store, ghost used0: int, ghost sum: nat) returns (bytes: nat)
      requires n < |chunklist| && Putting(all, chunklist, ks, n, d0, used0, sum)
      modifies this, chunklist[n]
      ensures Putting(all, chunklist, ks, n + 1, d0, used0, sum + bytes)
    {
      hide Balanced;
      assert ks[n..][0] == ks[n] && ks[n..][1..] == ks[n + 1..];
      ghost var k, d := ks[n], View(all);
      assert d[k] == chunklist[n].Seen();
      bytes := SwapOut(chunklist[n], all, k);
    }

    /** swapOut of a list of chunks. */
    method SwapOutList(chunklist: seq<ManagedMemoryChunk>, ghost all: seq<ManagedMemoryChunk>, ghost ks: seq<nat>)
        returns (swapped: nat)
      requires Valid(all) && Listed(all, chunklist, ks) && forall c :: c in chunklist ==> c.status.Resident()
      modifies this, chunklist
      ensures Valid(all) && swapUsed == old(swapUsed) + swapped
      ensures View(all) == StoreRun(old(View(all)), Puts(old(View(all)), old(swapUsed), swapSize, ks))
    {
      hide Balanced, AllShaped;
      swapped := 0;
      assert ks[0..] == ks;
      for n := 0 to |chunklist|
        invariant Putting(all, chunklist, ks, n, old(View(all)), old(swapUsed), swapped)
      {
        var bytes := PutNext(chunklist, n, all, ks, old(View(all)), old(swapUsed), swapped);
        swapped := swapped + bytes;
      }
      assert ks[|ks|..] == [];
    }

    /** The list from the n-th chunk on still has to be swapped in. */
    ghost predicate Fetching(all: seq<ManagedMemoryChunk>, chunklist: seq<ManagedMemoryChunk>, ks: seq<nat>, n: nat,
                             d0: Store, used0: int, sum: nat)
      reads this, all, if AllShaped(all) then Buffers(all) else {}
    {
      && Valid(all) && n <= |ks| && Listed(all, chunklist, ks)
      && (forall i: nat :: n <= i < |ks| ==> chunklist[i].status.Swapped?)
      && swapUsed == used0 - sum
      && StoreRun(d0, Fetches(ks)) == StoreRun(View(all), Fetches(ks[n..]))
    }

    method FetchNext(chunklist: seq<ManagedMemoryChunk>, n: nat, ghost all: seq<ManagedMemoryChunk>, ghost ks: seq<nat>,
                     ghost d0: Store, ghost used0: int, ghost sum: nat) returns (bytes: nat)
      requires n < |chunklist| && Fetching(all, chunklist, ks, n, d0, used0, sum)
      modifies this, chunklist[n]
      ensures Fetching(all, chunklist, ks, n + 1, d0, used0, sum + bytes)
    {
      hide Balanced;
      assert ks[n..][0] == ks[n] && ks[n..][1..] == ks[n + 1..];
      bytes := SwapIn(chunklist[n], all, ks[n]);
    }

    /** swapIn of a list of chunks. */
    method SwapInList(chunklist: seq<ManagedMemoryChunk>, ghost all: seq<ManagedMemoryChunk>, ghost ks: seq<nat>)
        returns (swapped: nat)
      requires Valid(all) && Listed(all, chunklist, ks) && forall c :: c in chunklist ==> c.status.Swapped?
      modifies this, chunklist
      ensures Valid(all) && swapUsed == old(swapUsed) - swapped
      ensures View(all) == StoreRun(old(View(all)), Fetches(ks))
    {
      hide Balanced, AllShaped;
      swapped := 0;
      assert ks[0..] == ks;
      for n := 0 to |chunklist|
        invariant Fetching(all, chunklist, ks, n, old(View(all)), old(swapUsed), swapped)
      {
        var bytes := FetchNext(chunklist, n, all, ks, old(View(all)), old(swapUsed), swapped);
        swapped := swapped + bytes;
      }
      assert ks[|ks|..] == [];
    }

    /** swapDelete: a swapped chunk gives its place up; the books are those of the store without it. */
    method SwapDelete(chunk: ManagedMemoryChunk, ghost all: seq<ManagedMemoryChunk>, ghost k: nat)
      requires Valid(all) && k < |all| && all[k] == chunk
      modifies this, chunk
      ensures swapUsed == memorySwapped == Total(StoreStep(old(View(all)), Delete(k)), SwapBytes)
      ensures swapFree + swapUsed == swapSize && memoryUsed == old(memoryUsed)
      ensures old(chunk.status.Swapped?) ==> chunk.swapBuf == null
      ensures !old(chunk.status.Swapped?) ==> unchanged(chunk) && Valid(all)
    {
      ghost var d := View(all);
      assert d[k] == chunk.Seen();
      TotalSplit(d, SwapBytes, k);
      if chunk.status.Swapped? {
        ClaimUsageof(chunk.size, false, false);
        chunk.swapBuf := null;
      }
    }
  }
}
