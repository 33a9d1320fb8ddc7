/** How the manager's chunks are selected for swapping out: by the walk over the scheduler's ring. */
module Choosing {
  import opened ChunkStatus
  import opened Sections
  import opened SwapInvariant
  import U = Unloading
  import Cyclic = SwappingOut

  ghost predicate NoneTwice(ids: seq<nat>) {
    forall i: nat, j: nat :: i < j < |ids| ==> ids[i] != ids[j]
  }

  /** The ids of all chunks, in the order of the scheduler's ring when it is read such that counterActive is the last. */
  ghost predicate RingIds(chunks: Chunks, ids: seq<nat>) {
    NoneTwice(ids) && forall id :: id in ids <==> id in chunks
  }

  /** What the ring shows of these chunks; the flag of chunks that were loaded on a guess has no part in the selection. */
  ghost function RingOf(chunks: Chunks, ids: seq<nat>): (es: seq<Entry>)
    requires forall id :: id in ids ==> id in chunks
    ensures |es| == |ids|
    ensures forall i :: 0 <= i < |ids| ==> var c := chunks[ids[i]]; es[i] == Entry(ids[i], c.status, c.size, c.useCnt, false)
  {
    seq(|ids|, i requires 0 <= i < |ids| => var c := chunks[ids[i]]; Entry(ids[i], c.status, c.size, c.useCnt, false))
  }

  ghost function IdsAt(ids: seq<nat>, ps: seq<nat>): (r: seq<nat>)
    requires forall q :: 0 <= q < |ps| ==> ps[q] < |ids|
    ensures |r| == |ps| && forall q :: 0 <= q < |ps| ==> r[q] == ids[ps[q]]
  {
    seq(|ps|, q requires 0 <= q < |ps| => ids[ps[q]])
  }

  /** The victims are those of the scheduler's walk. */
  ghost predicate GreedyChoice(chunks: Chunks, ids: seq<nat>, want: nat, swapFree: nat, victims: seq<nat>, planned: nat) {
    && RingIds(chunks, ids)
    && var es := RingOf(chunks, ids); var ps := U.Victims(es, want, swapFree, 0);
       U.Positions(es, ps) && victims == IdsAt(ids, ps) && planned == U.Bytes(es, ps)
  }

  /** The selection of cyclicManagedMemory::swapOut, over the chunks in the order of the ring. */
  method ChooseVictims(chunks: Chunks, ids: seq<nat>, want: nat, swapFree: nat) returns (victims: seq<nat>, planned: nat)
    requires RingIds(chunks, ids)
    ensures GreedyChoice(chunks, ids, want, swapFree, victims, planned)
  {
    hide U.Victims, Cyclic.Walked, U.Bytes;
    victims, planned := [], 0;
    ghost var es := RingOf(chunks, ids);
    var k: nat := |ids|;
    ghost var ps: seq<nat> := [];
    Cyclic.WalkStart(es, want, swapFree);
    while planned < want && k > 0
      invariant k <= |ids| && Cyclic.Walked(es, want, swapFree, k, ps, planned)
      invariant |ps| == |victims| && forall q :: 0 <= q < |ps| ==> ps[q] < |ids| && victims[q] == ids[ps[q]]
    {
      Cyclic.WalkOn(es, want, swapFree, k, ps, planned);
      k := k - 1;
      var c := chunks[ids[k]];
      if c.status == Allocated && planned + c.size <= swapFree && c.useCnt == 0 {
        planned := planned + c.size;
        victims := victims + [ids[k]];
        ps := ps + [k];
      }
    }
    Cyclic.WalkEnds(es, want, swapFree, k, ps, planned);
    Cyclic.WalkShape(es, want, swapFree, k, ps, planned);
    assert victims == IdsAt(ids, ps);
  }

  /** The choice is one of idle chunks, each once; it fits into the free swap; and it falls short of what is wanted only if
      no other idle chunk would fit as well. */
  lemma ChoiceFits(chunks: Chunks, ids: seq<nat>, want: nat, swapFree: nat, victims: seq<nat>, planned: nat)
    requires GreedyChoice(chunks, ids, want, swapFree, victims, planned)
    ensures NoneTwice(victims) && forall id :: id in victims ==> id in chunks && chunks[id].status.Allocated?
    ensures planned <= swapFree && (victims == [] ==> planned == 0) && (want == 0 ==> planned == 0)
    ensures planned < want ==>
              forall id :: id in chunks && chunks[id].status.Allocated? && chunks[id].useCnt == 0 && id !in victims ==>
                             chunks[id].size + planned > swapFree
  {
    hide U.Victims, U.Bytes;
    var es := RingOf(chunks, ids);
    var ps := U.Victims(es, want, swapFree, 0);
    U.VictimsShape(es, want, swapFree, 0);
    U.VictimsFit(es, want, swapFree, 0);
    Cyclic.NothingTaken(es);
    forall id | id in chunks && chunks[id].status.Allocated? && chunks[id].useCnt == 0 && id !in victims && planned < want
      ensures chunks[id].size + planned > swapFree
    {
      var i :| 0 <= i < |ids| && ids[i] == id;
      U.VictimsGreedy(es, want, swapFree, 0, i);
      U.AboveIsLess(es, ps, i);
      assert i in ps ==> id in victims;
    }
    if want == 0 { NothingWanted(es, want, swapFree); }
  }

  lemma NothingWanted(es: seq<Entry>, want: nat, swapFree: nat)
    requires want == 0
    ensures U.Victims(es, want, swapFree, 0) == []
  {
  }

  /** The ring shows the chunks. */
  ghost predicate Shows(r: seq<Entry>, chunks: Chunks) {
    forall e :: e in r ==> e.id in chunks && var c := chunks[e.id]; e.status == c.status && e.size == c.size && e.useCnt == c.useCnt
  }

  ghost function IdsOf(r: seq<Entry>): (ids: seq<nat>)
    ensures |ids| == |r| && forall i :: 0 <= i < |r| ==> ids[i] == r[i].id
  {
    seq(|r|, i requires 0 <= i < |r| => r[i].id)
  }

  /** The flag of chunks that were loaded on a guess has no part in the selection. */
  lemma {:induction false} SameVictims(r: seq<Entry>, es: seq<Entry>, want: nat, free: nat, sum: nat)
    requires |es| == |r| && forall i :: 0 <= i < |r| ==> es[i] == r[i].(preemptive := es[i].preemptive)
    ensures U.Victims(es, want, free, sum) == U.Victims(r, want, free, sum)
    decreases |r|
  {
    if r != [] && sum < want {
      var e := U.Last(r);
      SameVictims(U.Front(r), U.Front(es), want, free, if U.Idle(e) && sum + e.size <= free then sum + e.size else sum);
    }
  }

  /** What the manager chooses is what the scheduler selects on its ring: the chunks at the positions that swapOut marks, in the
      order in which it puts them on its list. */
  lemma ManagerFollowsRing(chunks: Chunks, v: Schedule, want: nat, free: nat, victims: seq<nat>, planned: nat)
    requires v.counter < |v.ring| && Shows(Cyclic.Turned(v.ring, v.counter), chunks)
    requires GreedyChoice(chunks, IdsOf(Cyclic.Turned(v.ring, v.counter)), want, free, victims, planned)
    ensures var r := Cyclic.Turned(v.ring, v.counter);
            var ps := U.Victims(r, want, free, 0);
            && U.Positions(r, ps) && |victims| == |ps| && forall q :: 0 <= q < |ps| ==> victims[q] == r[ps[q]].id
  {
    hide U.Victims, Cyclic.Turned;
    var r := Cyclic.Turned(v.ring, v.counter);
    var es := RingOf(chunks, IdsOf(r));
    forall i | 0 <= i < |r|
      ensures es[i] == r[i].(preemptive := es[i].preemptive)
    {
      assert r[i] in r;
    }
    SameVictims(r, es, want, free, 0);
  }

  /** The ring holds each chunk once; in which order is left open. */
  method RingOrder(chunks: Chunks) returns (ids: seq<nat>)
    ensures RingIds(chunks, ids)
  {
    ids := [];
    var rest := chunks.Keys;
    while rest != {}
      invariant NoneTwice(ids) && forall id :: id in chunks <==> id in ids || id in rest
      invariant forall id :: id in ids ==> id !in rest
      decreases rest
    {
      var id :| id in rest;
      ids := ids + [id];
      rest := rest - {id};
    }
  }
}
