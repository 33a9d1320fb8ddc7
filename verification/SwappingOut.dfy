/** cyclicManagedMemory::swapOut on the ring: count, select, hand over to the swap, reorder. */
module SwappingOut {
  import opened ChunkStatus
  import opened Ring
  import opened Sections
  import opened Scheduler
  import opened Filtering
  import opened Unloading

  // ---------------------------------------------------------------- walking

  /** The ring read so that counterActive comes last: walking back from there means going down in this. */
  ghost function Turned<T>(s: seq<T>, c: nat): seq<T>
    requires c < |s|
  {
    s[c + 1..] + s[..c + 1]
  }

  lemma TurnedCycle(s: seq<CyclicAtime>, c: nat)
    requires Cycle(s) && c < |s|
    ensures Cycle(Turned(s, c)) && |Turned(s, c)| == |s| && Last(Turned(s, c)) == s[c]
    ensures forall e :: e in Turned(s, c) <==> e in s
  {
    assert s == s[..c + 1] + s[c + 1..];
    CycleTurn(s[..c + 1], s[c + 1..]);
  }

  /** One step back. */
  lemma BackOne(r: seq<CyclicAtime>, k: nat)
    requires Cycle(r) && 0 < k <= |r|
    ensures r[k - 1].prev == if k > 1 then r[k - 2] else Last(r)
    ensures r[k - 1].prev.next == r[k - 1]
  {
    assert k > 1 ==> Joined(r[k - 2], r[k - 1]);
  }

  lemma NotEmpty(r: seq<CyclicAtime>)
    requires Cycle(r)
    ensures r != []
  {
  }

  lemma {:induction false} BytesAppend(es: seq<Entry>, ps: seq<nat>, p: nat)
    requires Positions(es, ps) && p < |es|
    ensures Positions(es, ps + [p]) && Bytes(es, ps + [p]) == Bytes(es, ps) + es[p].size
    decreases |ps|
  {
    if ps == [] {
      assert [p][1..] == [] && ps + [p] == [p];
    } else {
      assert (ps + [p])[1..] == ps[1..] + [p];
      BytesAppend(es, ps[1..], p);
    }
  }

  /** The walk has come down to k, having selected ps. */
  ghost predicate Walked(es: seq<Entry>, target: nat, free: nat, k: nat, ps: seq<nat>, sum: nat) {
    && k <= |es| && Positions(es, ps) && sum == Bytes(es, ps)
    && Victims(es, target, free, 0) == ps + Victims(es[..k], target, free, sum)
  }

  lemma WalkStart(es: seq<Entry>, target: nat, free: nat)
    ensures Walked(es, target, free, |es|, [], 0)
  {
    assert es[..|es|] == es;
  }

  predicate Fitting(e: Entry, free: nat, sum: nat) { Idle(e) && sum + e.size <= free }

  lemma WalkOn(es: seq<Entry>, target: nat, free: nat, k: nat, ps: seq<nat>, sum: nat)
    requires Walked(es, target, free, k, ps, sum) && 0 < k && sum < target
    ensures if Fitting(es[k - 1], free, sum) then Walked(es, target, free, k - 1, ps + [k - 1], sum + es[k - 1].size)
            else Walked(es, target, free, k - 1, ps, sum)
  {
    assert Front(es[..k]) == es[..k - 1] && Last(es[..k]) == es[k - 1];
    BytesAppend(es, ps, k - 1);
    var rest := Victims(es[..k - 1], target, free, sum + es[k - 1].size);
    assert ps + ([k - 1] + rest) == ps + [k - 1] + rest;
  }

  lemma WalkEnds(es: seq<Entry>, target: nat, free: nat, k: nat, ps: seq<nat>, sum: nat)
    requires Walked(es, target, free, k, ps, sum) && (sum >= target || k == 0)
    ensures Victims(es, target, free, 0) == ps
  {
    assert ps + [] == ps;
  }

  /** First round: how many chunks, and how many bytes. */
  method CountVictims(counterActive: CyclicAtime, allelements: nat, target: nat, free: nat, ghost r: seq<CyclicAtime>)
      returns (unload: nat, unloadSize: nat)
    requires Cycle(r) && r != [] && Last(r) == counterActive && allelements == |r|
    ensures var ps := Victims(Snaps(r), target, free, 0);
            Positions(Snaps(r), ps) && unload == |ps| && unloadSize == Bytes(Snaps(r), ps)
  {
    hide Cycle, Victims, Snaps, Walked;
    NotEmpty(r);
    ghost var es := Snaps(r);
    var countPos, passed := counterActive, 0;
    unload, unloadSize := 0, 0;
    ghost var k, ps: seq<nat> := |r|, [];
    WalkStart(es, target, free);
    while unloadSize < target
      invariant 0 < k == allelements - passed <= |r| && countPos == r[k - 1]
      invariant Walked(es, target, free, k, ps, unloadSize) && unload == |ps|
      decreases k
    {
      passed := passed + 1;
      WalkOn(es, target, free, k, ps, unloadSize);
      if countPos.chunk.status == Allocated && unloadSize + countPos.chunk.size <= free && countPos.chunk.useCnt == 0 {
        unloadSize, unload := unloadSize + countPos.chunk.size, unload + 1;
        ps := ps + [k - 1];
      }
      k := k - 1;
      if passed == allelements {
        break;
      }
      BackOne(r, k + 1);
      countPos := countPos.prev;
    }
    WalkEnds(es, target, free, k, ps, unloadSize);
    WalkShape(es, target, free, k, ps, unloadSize);
    assert Snaps(r) == es;
    assert Victims(es, target, free, 0) == ps;
  }

  lemma WalkShape(es: seq<Entry>, target: nat, free: nat, k: nat, ps: seq<nat>, sum: nat)
    requires Walked(es, target, free, k, ps, sum)
    ensures Positions(es, ps) && sum == Bytes(es, ps)
  {
  }

  // ---------------------------------------------------------------- second round

  /** The selected chunks carry the flag no longer. */
  ghost function Stripped(es: seq<Entry>, ps: seq<nat>): (w: seq<Entry>)
    ensures |w| == |es|
    ensures forall i :: 0 <= i < |es| ==> w[i] == if i in ps then es[i].(preemptive := false) else es[i]
  {
    seq(|es|, i requires 0 <= i < |es| => if i in ps then es[i].(preemptive := false) else es[i])
  }

  lemma StrippedNext(es: seq<Entry>, ps: seq<nat>, p: nat)
    requires p < |es|
    ensures Stripped(es, ps + [p]) == Stripped(es, ps)[p := es[p].(preemptive := false)]
  {
  }

  /** fromPos has been selected. */
  method TakeVictim(m: CyclicManagedMemory, fromPos: CyclicAtime, was: bool, ghost r: seq<CyclicAtime>, ghost i: nat)
      returns (reset: bool)
    requires OwnChunks(r) && i < |r| && r[i] == fromPos
    requires m.active in r && (m.preemptiveStart != null ==> m.preemptiveStart in r)
    modifies m`active, m`preemptiveBytes, fromPos.chunk`preemptiveLoaded
    ensures Snaps(r) == old(Snaps(r))[i := old(Snap(fromPos)).(preemptive := false)]
    ensures m.preemptiveBytes - Guessed(Snaps(r)) == old(m.preemptiveBytes) - old(Guessed(Snaps(r)))
    ensures m.active == if old(m.active) == fromPos then fromPos.prev else old(m.active)
    ensures reset == (was || m.preemptiveStart == fromPos)
  {
    hide Guessed;
    reset := was;
    SameElement(r, i);
    GuessedSet(Snaps(r), i, Snap(fromPos).(preemptive := false));
    if fromPos.chunk.preemptiveLoaded {
      fromPos.chunk.preemptiveLoaded := false;
      m.preemptiveBytes := m.preemptiveBytes - fromPos.chunk.size;
    }
    SnapsSet(r, i);
    if m.preemptiveStart != null && fromPos.chunk == m.preemptiveStart.chunk {
      reset := true;
    }
    if m.active.chunk == fromPos.chunk {
      m.active := m.active.prev;
    }
  }

  lemma SameElement(r: seq<CyclicAtime>, i: nat)
    requires OwnChunks(r) && i < |r|
    ensures forall e :: e in r ==> (e.chunk == r[i].chunk <==> e == r[i])
  {
    forall e | e in r
      ensures e.chunk == r[i].chunk <==> e == r[i]
    {
      var j :| 0 <= j < |r| && r[j] == e;
      assert j < i || i < j || j == i;
    }
  }

  /** What has been selected so far is the beginning of the selection. */
  lemma WalkPrefix(es: seq<Entry>, target: nat, free: nat, k: nat, qs: seq<nat>, sum: nat, ps: seq<nat>)
    requires Walked(es, target, free, k, qs, sum) && ps == Victims(es, target, free, 0)
    ensures |qs| <= |ps| && qs == ps[..|qs|]
  {
  }

  /** The first elements of the list are the chunks at ps. */
  ghost predicate Lists(list: array<ManagedMemoryChunk?>, r: seq<CyclicAtime>, ps: seq<nat>)
    reads list
  {
    |ps| <= list.Length && forall q :: 0 <= q < |ps| ==> ps[q] < |r| && list[q] == r[ps[q]].chunk
  }

  /** Where in the walk active stands when it was at a and has given way to each selected chunk that it stood on. */
  ghost function Yielded(qs: seq<nat>, a: nat, n: nat): (x: nat)
    requires a < n
    ensures x < n
  {
    if qs == [] then a
    else
      var x := Yielded(Front(qs), a, n);
      if Last(qs) != x then x else if x > 0 then x - 1 else n - 1
  }

  lemma {:induction false} YieldedNot(qs: seq<nat>, a: nat, n: nat)
    requires a < n && a !in qs
    ensures Yielded(qs, a, n) == a
  {
    if qs != [] {
      assert forall q :: q in Front(qs) ==> q in qs;
      assert Last(qs) in qs;
      YieldedNot(Front(qs), a, n);
    }
  }

  /** It stands on the first chunk, from a on, that was not selected; or, if there is none, at the end. */
  lemma {:induction false} YieldedIs(qs: seq<nat>, a: nat, n: nat)
    requires a < n && Descending(qs)
    ensures var x := Yielded(qs, a, n);
            || (x <= a && x !in qs && forall p: nat :: x < p <= a ==> p in qs)
            || (x == n - 1 && forall p: nat :: p <= a ==> p in qs)
    decreases |qs|
  {
    if qs != [] {
      var d, q := Front(qs), Last(qs);
      DescendingFront(qs);
      YieldedIs(d, a, n);
      assert 0 in d ==> q < 0;
    }
  }

  lemma DescendingFront(qs: seq<nat>)
    requires Descending(qs) && qs != []
    ensures Descending(Front(qs)) && (forall p :: p in Front(qs) ==> Last(qs) < p) && forall p :: p in qs <==> p in Front(qs) || p == Last(qs)
  {
    assert qs == Front(qs) + [Last(qs)];
  }

  lemma YieldedMore(qs: seq<nat>, i: nat, a: nat, n: nat)
    requires a < n
    ensures var x := Yielded(qs, a, n); Yielded(qs + [i], a, n) == if i != x then x else if x > 0 then x - 1 else n - 1
  {
    assert Front(qs + [i]) == qs;
  }

  /** What the second round leaves when it has selected qs: only flags have changed, active has given way, and it is
      known whether the guesses began with a selected chunk. */
  ghost predicate Selected(m: CyclicManagedMemory, r: seq<CyclicAtime>, es: seq<Entry>, qs: seq<nat>, a: nat, bytes: int, reset: bool)
    reads m, ChunksOf(r)`status, ChunksOf(r)`useCnt, ChunksOf(r)`preemptiveLoaded
  {
    && Snaps(r) == Stripped(es, qs)
    && m.preemptiveBytes - Guessed(Snaps(r)) == bytes - Guessed(es)
    && a < |r| && m.active == r[Yielded(qs, a, |r|)]
    && (m.preemptiveStart != null ==> m.preemptiveStart in r)
    && (reset <==> HasTaken(r, qs, m.preemptiveStart))
  }

  /** Whether e is among the selected elements. */
  ghost predicate HasTaken(r: seq<CyclicAtime>, qs: seq<nat>, e: CyclicAtime?) {
    exists q :: 0 <= q < |qs| && qs[q] < |r| && r[qs[q]] == e
  }

  lemma TakenOneMore(r: seq<CyclicAtime>, qs: seq<nat>, i: nat, e: CyclicAtime?)
    requires i < |r|
    ensures HasTaken(r, qs + [i], e) <==> HasTaken(r, qs, e) || r[i] == e
  {
    var ps := qs + [i];
    if HasTaken(r, qs, e) {
      var q :| 0 <= q < |qs| && qs[q] < |r| && r[qs[q]] == e;
      assert ps[q] == qs[q];
    }
    if r[i] == e {
      assert ps[|qs|] == i;
    }
    if HasTaken(r, ps, e) {
      var q :| 0 <= q < |ps| && ps[q] < |r| && r[ps[q]] == e;
      assert q < |qs| ==> ps[q] == qs[q];
    }
  }

  lemma NothingSelected(m: CyclicManagedMemory, r: seq<CyclicAtime>, a: nat)
    requires a < |r| && m.active == r[a] && (m.preemptiveStart != null ==> m.preemptiveStart in r)
    ensures Selected(m, r, Snaps(r), [], a, m.preemptiveBytes, false)
  {
    assert Stripped(Snaps(r), []) == Snaps(r);
  }

  method SelectOne(m: CyclicManagedMemory, fromPos: CyclicAtime, was: bool, ghost r: seq<CyclicAtime>, ghost es: seq<Entry>,
                   ghost qs: seq<nat>, ghost i: nat, ghost a: nat, ghost bytes: int)
      returns (reset: bool)
    requires OwnChunks(r) && Distinct(r) && i < |r| && r[i] == fromPos && |es| == |r|
    requires fromPos.prev == if i > 0 then r[i - 1] else Last(r)
    requires Selected(m, r, es, qs, a, bytes, was)
    modifies m`active, m`preemptiveBytes, fromPos.chunk`preemptiveLoaded
    ensures Selected(m, r, es, qs + [i], a, bytes, reset)
  {
    hide Guessed, Snaps, OwnChunks, Distinct, Yielded, HasTaken, Stripped;
    StrippedNext(es, qs, i);
    YieldedMore(qs, i, a, |r|);
    SameIndex(r, i, Yielded(qs, a, |r|));
    TakenOneMore(r, qs, i, m.preemptiveStart);
    reset := TakeVictim(m, fromPos, was, r, i);
  }

  lemma SameIndex(r: seq<CyclicAtime>, i: nat, j: nat)
    requires Distinct(r) && i < |r| && j < |r|
    ensures r[i] == r[j] <==> i == j
  {
  }

  /** At fromPos, with qs selected: the chunk there is what the old snapshot says but for its flag. */
  lemma AsBefore(r: seq<CyclicAtime>, es: seq<Entry>, qs: seq<nat>, k: nat)
    requires |es| == |r| && Snaps(r) == Stripped(es, qs) && k < |r|
    ensures var c := r[k].chunk;
            c.status == es[k].status && c.size == es[k].size && c.useCnt == es[k].useCnt
  {
    assert Snap(r[k]) == Stripped(es, qs)[k];
  }

  lemma TakenNext(es: seq<Entry>, target: nat, free: nat, k: nat, qs: seq<nat>, sum: nat, ps: seq<nat>)
    requires Walked(es, target, free, k, qs, sum) && 0 < k && sum < target && Fitting(es[k - 1], free, sum)
    requires ps == Victims(es, target, free, 0)
    ensures |qs| < |ps| && ps[|qs|] == k - 1 && k - 1 !in qs
    ensures qs == ps[..|qs|] && qs + [k - 1] == ps[..|qs| + 1]
  {
    hide Victims;
    WalkOn(es, target, free, k, qs, sum);
    WalkPrefix(es, target, free, k - 1, qs + [k - 1], sum + es[k - 1].size, ps);
    VictimsShape(es, target, free, 0);
    assert (qs + [k - 1])[|qs|] == k - 1;
    forall i | 0 <= i < |qs|
      ensures qs[i] != k - 1
    {
      assert ps[i] == (qs + [k - 1])[i];
    }
  }

  /** Half way through the second round: the walk stands at k, and what it has selected is in the list. */
  ghost predicate Filling(m: CyclicManagedMemory, list: array<ManagedMemoryChunk?>, r: seq<CyclicAtime>, es: seq<Entry>,
                          ps: seq<nat>, a: nat, bytes: int, target: nat, free: nat,
                          k: nat, qs: seq<nat>, size: nat, reset: bool)
    reads m, list, ChunksOf(r)`status, ChunksOf(r)`useCnt, ChunksOf(r)`preemptiveLoaded
  {
    && k <= |r| == |es| && |ps| <= list.Length && ps == Victims(es, target, free, 0)
    && Walked(es, target, free, k, qs, size) && |qs| <= |ps| && qs == ps[..|qs|]
    && Selected(m, r, es, qs, a, bytes, reset) && Lists(list, r, qs)
    && (size >= target ==> qs != [] && Last(qs) == k)
  }

  method FillOne(m: CyclicManagedMemory, list: array<ManagedMemoryChunk?>, fromPos: CyclicAtime, elem: nat, was: bool,
                 ghost r: seq<CyclicAtime>, ghost es: seq<Entry>, ghost ps: seq<nat>, ghost a: nat, ghost bytes: int,
                 ghost target: nat, ghost free: nat, ghost k: nat, ghost qs: seq<nat>, ghost size: nat)
      returns (reset: bool)
    requires 0 < k <= |r| && |es| == |r| && size < target && Fitting(es[k - 1], free, size)
    requires OwnChunks(r) && Distinct(r) && r[k - 1] == fromPos && elem == |qs|
    requires fromPos.prev == if k > 1 then r[k - 2] else Last(r)
    requires Filling(m, list, r, es, ps, a, bytes, target, free, k, qs, size, was)
    modifies m`active, m`preemptiveBytes, fromPos.chunk`preemptiveLoaded, list
    ensures var q: nat := k - 1; Filling(m, list, r, es, ps, a, bytes, target, free, q, qs + [q], size + es[q].size, reset)
  {
    hide Victims, Snaps, Selected, OwnChunks, Distinct, Bytes, Walked;
    WalkOn(es, target, free, k, qs, size);
    TakenNext(es, target, free, k, qs, size, ps);
    list[elem] := fromPos.chunk;
    reset := SelectOne(m, fromPos, was, r, es, qs, k - 1, a, bytes);
  }

  /** The loop of the second round. */
  method FillList(m: CyclicManagedMemory, list: array<ManagedMemoryChunk?>, unloadSize: nat, free: nat, allelements: nat,
                  ghost r: seq<CyclicAtime>, ghost ps: seq<nat>, ghost a: nat)
      returns (fromPos: CyclicAtime, reset: bool)
    requires Cycle(r) && r != [] && OwnChunks(r) && allelements == |r| && m.counterActive == Last(r)
    requires a < |r| && m.active == r[a] && (m.preemptiveStart != null ==> m.preemptiveStart in r)
    requires ps == Victims(Snaps(r), unloadSize, free, 0) && Positions(Snaps(r), ps) && unloadSize == Bytes(Snaps(r), ps) > 0
    requires |ps| <= list.Length
    modifies m`active, m`preemptiveBytes, ChunksOf(r)`preemptiveLoaded, list
    ensures Lists(list, r, ps) && ps != []
    ensures Selected(m, r, old(Snaps(r)), ps, a, old(m.preemptiveBytes), reset)
    ensures fromPos == if Last(ps) > 0 then r[Last(ps) - 1] else Last(r)
  {
    hide Cycle, Filling, Snaps, OwnChunks, Distinct, Victims, Bytes;
    ghost var es, bytes := Snaps(r), m.preemptiveBytes;
    fromPos, reset := m.counterActive, false;
    var passed, size, elem: nat := 0, 0, 0;
    ghost var k: nat, qs: seq<nat> := |r|, [];
    FillingStart(m, list, r, ps, a, unloadSize, free);
    while size < unloadSize && passed != allelements
      invariant k == allelements - passed && fromPos == (if k > 0 then r[k - 1] else Last(r))
      invariant Filling(m, list, r, es, ps, a, bytes, unloadSize, free, k, qs, size, reset) && elem == |qs|
    {
      passed := passed + 1;
      BackOne(r, k);
      FillingChunk(m, list, r, es, ps, a, bytes, unloadSize, free, k, qs, size, reset);
      if fromPos.chunk.status == Allocated && size + fromPos.chunk.size <= free && fromPos.chunk.useCnt == 0 {
        CycleParts(r, k - 1);
        reset := FillOne(m, list, fromPos, elem, reset, r, es, ps, a, bytes, unloadSize, free, k, qs, size);
        qs := qs + [k - 1];
        elem := elem + 1;
        size := size + fromPos.chunk.size;
      }
      k := k - 1;
      fromPos := fromPos.prev;
    }
    FillingEnds(m, list, r, es, ps, a, bytes, unloadSize, free, k, qs, size, reset);
  }

  /** Second round: fill the list. Of the chunks cs that the first round has counted it takes the first ones, up to the last that
      is not empty, which are all bytes that were counted. */
  method FillVictims(m: CyclicManagedMemory, list: array<ManagedMemoryChunk?>, unloadSize: nat, free: nat, allelements: nat,
                     ghost r: seq<CyclicAtime>, ghost cs: seq<nat>, ghost target: nat, ghost a: nat)
      returns (fromPos: CyclicAtime, reset: bool, ghost ps: seq<nat>)
    requires Cycle(r) && r != [] && OwnChunks(r) && allelements == |r| && m.counterActive == Last(r)
    requires a < |r| && m.active == r[a] && (m.preemptiveStart != null ==> m.preemptiveStart in r)
    requires cs == Victims(Snaps(r), target, free, 0) && Positions(Snaps(r), cs) && unloadSize == Bytes(Snaps(r), cs) > 0
    requires list.Length == |cs|
    modifies m`active, m`preemptiveBytes, ChunksOf(r)`preemptiveLoaded, list
    ensures ps == Victims(old(Snaps(r)), unloadSize, free, 0) && ps <= cs
    ensures Positions(old(Snaps(r)), cs) && Positions(old(Snaps(r)), ps) && Bytes(old(Snaps(r)), ps) == unloadSize
    ensures cs != [] && Last(cs) < |r| && (ps == cs <==> old(Snaps(r))[Last(cs)].size > 0)
    ensures Lists(list, r, ps) && ps != []
    ensures Selected(m, r, old(Snaps(r)), ps, a, old(m.preemptiveBytes), reset)
    ensures fromPos == if Last(ps) > 0 then r[Last(ps) - 1] else Last(r)
  {
    hide Cycle, Snaps, OwnChunks, Victims, Bytes, Lists, Selected;
    ghost var es := Snaps(r);
    ps := Victims(es, unloadSize, free, 0);
    SecondPass(es, target, free, 0);
    PassesAgree(es, target, free, 0);
    NothingTaken(es);
    fromPos, reset := FillList(m, list, unloadSize, free, allelements, r, ps, a);
  }

  lemma NothingTaken(es: seq<Entry>)
    ensures Bytes(es, []) == 0
  {
  }

  lemma FillingStart(m: CyclicManagedMemory, list: array<ManagedMemoryChunk?>, r: seq<CyclicAtime>, ps: seq<nat>, a: nat,
                     target: nat, free: nat)
    requires a < |r| && m.active == r[a] && (m.preemptiveStart != null ==> m.preemptiveStart in r)
    requires ps == Victims(Snaps(r), target, free, 0) && |ps| <= list.Length && target > 0
    ensures Filling(m, list, r, Snaps(r), ps, a, m.preemptiveBytes, target, free, |r|, [], 0, false)
  {
    WalkStart(Snaps(r), target, free);
    NothingSelected(m, r, a);
  }

  /** What the loop sees at fromPos, and what happens if it is not taken. */
  lemma FillingChunk(m: CyclicManagedMemory, list: array<ManagedMemoryChunk?>, r: seq<CyclicAtime>, es: seq<Entry>, ps: seq<nat>,
                     a: nat, bytes: int, target: nat, free: nat, k: nat, qs: seq<nat>, size: nat, reset: bool)
    requires Filling(m, list, r, es, ps, a, bytes, target, free, k, qs, size, reset) && 0 < k && size < target
    ensures k <= |r| == |es|
    ensures var c := r[k - 1].chunk; c.status == es[k - 1].status && c.size == es[k - 1].size && c.useCnt == es[k - 1].useCnt
    ensures !Fitting(es[k - 1], free, size) ==> Filling(m, list, r, es, ps, a, bytes, target, free, k - 1, qs, size, reset)
  {
    hide Victims, Bytes, Lists;
    AsBefore(r, es, qs, k - 1);
    WalkOn(es, target, free, k, qs, size);
  }

  lemma FillingEnds(m: CyclicManagedMemory, list: array<ManagedMemoryChunk?>, r: seq<CyclicAtime>, es: seq<Entry>, ps: seq<nat>,
                    a: nat, bytes: int, target: nat, free: nat, k: nat, qs: seq<nat>, size: nat, reset: bool)
    requires Filling(m, list, r, es, ps, a, bytes, target, free, k, qs, size, reset) && (size >= target || k == 0)
    requires Positions(es, ps) && target == Bytes(es, ps) > 0
    ensures qs == ps != [] && Lists(list, r, ps) && Selected(m, r, es, ps, a, bytes, reset) && Last(ps) == k
  {
    hide Victims, Selected, Lists;
    WalkEnds(es, target, free, k, qs, size);
    WalkShape(es, target, free, k, qs, size);
  }

  lemma CycleParts(r: seq<CyclicAtime>, i: nat)
    requires Cycle(r) && i < |r|
    ensures Distinct(r) && r[i].prev in r
  {
    if i > 0 { assert Joined(r[i - 1], r[i]); }
  }

  // ---------------------------------------------------------------- the swap's part

  /** Only what the swap may do to the chunks at ps has been done: their status has changed. */
  ghost predicate OnlyStatus(es: seq<Entry>, w: seq<Entry>, ps: seq<nat>) {
    && |w| == |es|
    && forall i :: 0 <= i < |es| ==> w[i] == if i in ps then es[i].(status := w[i].status) else es[i]
  }

  /** The bytes that have gone out, or are on their way. */
  ghost function OutBytes(w: seq<Entry>, ps: seq<nat>): nat
    requires Positions(w, ps)
  {
    if ps == [] then 0
    else OutBytes(w, ps[..|ps| - 1]) + if w[Last(ps)].status.Out() then w[Last(ps)].size else 0
  }

  /** How the swap answers when it is offered one chunk after the other. */
  type Answers = f: nat -> MemoryStatus | forall n :: f(n).Allocated? || f(n).Out() witness (n: nat) => Swapped

  lemma OutBytesKept(w: seq<Entry>, w': seq<Entry>, ps: seq<nat>)
    requires Positions(w, ps) && Positions(w', ps) && forall q :: 0 <= q < |ps| ==> w[ps[q]] == w'[ps[q]]
    ensures OutBytes(w, ps) == OutBytes(w', ps)
  {
    if ps != [] {
      OutBytesKept(w, w', ps[..|ps| - 1]);
    }
  }

  /** One more chunk has been offered. */
  lemma OfferedOne(es: seq<Entry>, w: seq<Entry>, ps: seq<nat>, n: nat, status: MemoryStatus)
    requires n < |ps| && Positions(es, ps) && Distinct(ps) && OnlyStatus(es, w, ps[..n])
    ensures var w' := w[ps[n] := w[ps[n]].(status := status)];
            && w[ps[n]] == es[ps[n]] && OnlyStatus(es, w', ps[..n + 1]) && Positions(w, ps) && Positions(w', ps)
            && OutBytes(w', ps[..n + 1]) == OutBytes(w, ps[..n]) + if status.Out() then es[ps[n]].size else 0
  {
    assert ps[n] !in ps[..n];
    assert ps[..n + 1] == ps[..n] + [ps[n]];
    var w' := w[ps[n] := w[ps[n]].(status := status)];
    OutBytesKept(w, w', ps[..n]);
    assert ps[..n + 1][..n] == ps[..n];
  }

  /** managedSwap::swapOut of a list: each chunk in turn is taken, at once or later, or refused. */
  method OfferToSwap(list: array<ManagedMemoryChunk?>, answer: Answers, ghost r: seq<CyclicAtime>, ghost ps: seq<nat>)
      returns (bytes: nat)
    requires OwnChunks(r) && Lists(list, r, ps) && list.Length == |ps| && Distinct(ps) && Positions(Snaps(r), ps)
    requires forall q :: 0 <= q < |ps| ==> Snaps(r)[ps[q]].status.Allocated?
    modifies ChunksOf(r)`status
    ensures OnlyStatus(old(Snaps(r)), Snaps(r), ps) && bytes == OutBytes(Snaps(r), ps)
  {
    hide OwnChunks, Snaps, Distinct, OutBytes, OnlyStatus;
    ghost var es := Snaps(r);
    bytes := 0;
    NothingOffered(es);
    for n := 0 to list.Length
      invariant OnlyStatus(es, Snaps(r), ps[..n]) && Positions(Snaps(r), ps[..n]) && bytes == OutBytes(Snaps(r), ps[..n])
    {
      var c := list[n];
      ghost var w := Snaps(r);
      OfferedOne(es, w, ps, n, answer(n));
      assert Snap(r[ps[n]]) == w[ps[n]];
      label L:
      if !answer(n).Allocated? {
        c.status := answer(n);
        bytes := bytes + c.size;
      }
      SnapsSet@L(r, ps[n]);
    }
    assert ps[..list.Length] == ps;
  }

  lemma NothingOffered(es: seq<Entry>)
    ensures OnlyStatus(es, es, []) && OutBytes(es, []) == 0
  {
  }

  // ---------------------------------------------------------------- reordering the ring

  const NOT_ALLOWED: seq<MemoryStatus> := [SwapOut, Swapped]

  ghost function GoneOut(s: seq<CyclicAtime>): set<CyclicAtime>
    reads ChunksOf(s)`status, ChunksOf(s)`preemptiveLoaded
  {
    Separated(s, NOT_ALLOWED, Ignored)
  }

  lemma ArcsOfWalk(r: seq<CyclicAtime>, k: nat)
    requires Cycle(r) && k < |r|
    ensures Cycle(r[k..] + r[..k]) && Last(r[k..]) == Last(r) && r[k..] != []
    ensures Last(r).next == r[0] && (r[0] == r[k] <==> k == 0) && r[k].prev == (if k > 0 then Last(r[..k]) else Last(r))
    ensures Distinct(r[k..] + r[..k])
  {
    assert r == r[..k] + r[k..];
    CycleTurn(r[..k], r[k..]);
    assert k > 0 ==> Joined(r[k - 1], r[k]);
  }

  /** The pieces do not overlap. */
  lemma PiecesDistinct(seg: seq<CyclicAtime>, rest: seq<CyclicAtime>, sel: set<CyclicAtime>)
    requires Distinct(seg + rest)
    ensures var k, s := Except(seg, sel), Only(seg, sel);
            && Distinct(rest + k + s) && Elements(k) <= Elements(seg) && Elements(s) <= Elements(seg)
  {
    var k, s := Except(seg, sel), Only(seg, sel);
    DistinctConcat(seg, rest);
    OnlyElements(seg, sel);
    OnlyDistinct(seg, sel);
    Inside(k, seg);
    Inside(s, seg);
    DistinctConcat(rest, k);
    forall x | x in rest + k
      ensures x !in s
    {
      assert x in k ==> x in Elements(k);
      assert x in s ==> x in Elements(s);
    }
    DistinctConcat(rest + k, s);
  }

  /** What has gone out is put back behind what has not. */
  method PutBack(filtered: Chain, pos: CyclicAtime, ghost s: seq<CyclicAtime>, ghost t: seq<CyclicAtime>, ghost all: set<CyclicAtime>)
    requires Cycle(s) && s != [] && s[0] == pos && Path(t) && t != [] && Distinct(s + t) && filtered == ChainOf(t)
    requires Elements(s) + Elements(t) <= all
    modifies all`next, all`prev
    ensures Cycle(s + t) && filtered.from.prev == Last(s)
  {
    assert forall x :: x in s ==> x in Elements(s);
    assert forall x :: x in t ==> x in Elements(t);
    InsertBefore(pos, filtered, s, t);
    CycleArcs(s, t);
  }

  /** Nothing is left but what has gone out. */
  method CloseGone(filtered: Chain, ghost t: seq<CyclicAtime>, ghost all: set<CyclicAtime>)
    requires Path(t) && t != [] && Distinct(t) && filtered == ChainOf(t) && Elements(t) <= all
    modifies all`next, all`prev
    ensures Cycle(t)
  {
    assert t[0] in Elements(t) && Last(t) in Elements(t);
    Connect(filtered.to, filtered.from);
    ArcKept(t);
    Ringed(t);
  }

  lemma KeptTurns(kept: seq<CyclicAtime>, rest: seq<CyclicAtime>)
    requires Cycle(kept + rest) && kept != []
    ensures Cycle(rest + kept) && Last(rest + kept) == Last(kept)
    ensures rest == [] ==> Last(kept).next == kept[0]
  {
    CycleTurn(kept, rest);
    assert rest == [] ==> kept + rest == kept;
  }

  /** The reordering at the end of swapOut. The walk went from counterActive back to last, which is element k of r. */
  method Reorder(m: CyclicManagedMemory, last: CyclicAtime, ghost r: seq<CyclicAtime>, ghost k: nat)
    requires Cycle(r) && k < |r| && r[k] == last && m.counterActive == Last(r) && Only(r[k..], GoneOut(r[k..])) != []
    modifies r`next, r`prev, m`counterActive
    ensures var sel := old(GoneOut(r[k..]));
            var kept, gone := Except(r[k..], sel), Only(r[k..], sel);
            && Cycle(r[..k] + kept + gone)
            && m.counterActive == if kept != [] then Last(kept) else if k > 0 then Last(r[..k]) else m.active
  {
    hide Cycle, Path, Distinct, Only, Except;
    ghost var seg, rest := r[k..], r[..k];
    ghost var sel := GoneOut(seg);
    ghost var kept, gone := Except(seg, sel), Only(seg, sel);
    ghost var all := Elements(r);
    ArcsOfWalk(r, k);
    PiecesDistinct(seg, rest, sel);
    SlicesInside(r, k);
    ElementsConcat(rest, kept);
    var after := m.counterActive.next;
    var cyclic := after == last;
    var possiblyContaminated := Chain(last, m.counterActive);
    m.counterActive := last.prev;
    var remaining, filtered := FilterChain(possiblyContaminated, NOT_ALLOWED, Ignored, seg, rest);
    if remaining.from == null {
      assert kept + rest == rest && rest + kept == rest;
      PutBackAll(m, filtered, after, cyclic, rest, gone, all);
    } else {
      PutBackBehind(m, remaining, filtered, after, cyclic, rest, kept, gone, all);
    }
  }

  /** All that was looked at has gone out. */
  method PutBackAll(m: CyclicManagedMemory, filtered: Chain, after: CyclicAtime, cyclic: bool,
                    ghost rest: seq<CyclicAtime>, ghost gone: seq<CyclicAtime>, ghost all: set<CyclicAtime>)
    requires rest != [] ==> Cycle(rest) && after == rest[0]
    requires Path(gone) && gone != [] && Distinct(rest + gone) && filtered == ChainOf(gone) && (cyclic <==> rest == [])
    requires Elements(rest) + Elements(gone) <= all
    modifies all`next, all`prev, m`counterActive
    ensures Cycle(rest + gone) && m.counterActive == if cyclic then m.active else old(m.counterActive)
  {
    hide Cycle, Path, Distinct;
    if !cyclic {
      PutBack(filtered, after, rest, gone, all);
    } else {
      assert rest + gone == gone;
      CloseGone(filtered, gone, all);
      m.counterActive := m.active;
    }
  }

  /** Some elements have stayed; what has gone out goes behind them. */
  method PutBackBehind(m: CyclicManagedMemory, remaining: Chain, filtered: Chain, first: CyclicAtime, cyclic: bool,
                       ghost rest: seq<CyclicAtime>, ghost kept: seq<CyclicAtime>, ghost gone: seq<CyclicAtime>, ghost all: set<CyclicAtime>)
    requires kept != [] && Cycle(kept + rest) && remaining == ChainOf(kept) && (cyclic <==> rest == []) && (rest != [] ==> first == rest[0])
    requires Path(gone) && gone != [] && Distinct(rest + kept + gone) && filtered == ChainOf(gone)
    requires Elements(rest + kept) + Elements(gone) <= all
    modifies all`next, all`prev, m`counterActive
    ensures Cycle(rest + kept + gone) && m.counterActive == Last(kept)
  {
    hide Cycle, Path, Distinct;
    KeptTurns(kept, rest);
    var after := first;
    if cyclic {
      after := remaining.to.next;
    }
    PutBack(filtered, after, rest + kept, gone, all);
    m.counterActive := filtered.from.prev;
  }

  lemma SlicesInside(r: seq<CyclicAtime>, k: nat)
    requires k <= |r|
    ensures Elements(r[..k]) <= Elements(r) && Elements(r[k..]) <= Elements(r)
    ensures forall x :: x in r[..k] || x in r[k..] ==> x in r
    ensures k > 0 ==> r[..k][0] == r[0]
  {
  }

  // ---------------------------------------------------------------- the cursors afterwards

  ghost function IndexOf(s: seq<CyclicAtime>, x: CyclicAtime?): (i: nat)
    requires x in s
    ensures i < |s| && s[i] == x
  {
    var i: nat :| i < |s| && s[i] == x;
    i
  }

  /** The ring read from x. */
  ghost function From(s: seq<CyclicAtime>, x: CyclicAtime?): (t: seq<CyclicAtime>)
    requires x in s
    ensures t != [] && t[0] == x && |t| == |s|
  {
    s[IndexOf(s, x)..] + s[..IndexOf(s, x)]
  }

  lemma FromCycle(s: seq<CyclicAtime>, x: CyclicAtime?)
    requires Cycle(s) && x in s
    ensures Cycle(From(s, x)) && forall e :: e in From(s, x) <==> e in s
  {
    var i := IndexOf(s, x);
    assert s == s[..i] + s[i..];
    CycleTurn(s[..i], s[i..]);
  }

  lemma OwnChunksOf(s: seq<CyclicAtime>, t: seq<CyclicAtime>)
    requires OwnChunks(s) && Distinct(t) && forall e :: e in t ==> e in s
    ensures OwnChunks(t)
  {
    forall i, j | 0 <= i < j < |t|
      ensures t[i].chunk != t[j].chunk
    {
      assert t[i] in t && t[j] in t;
      var p :| 0 <= p < |s| && s[p] == t[i];
      var q :| 0 <= q < |s| && s[q] == t[j];
      assert p < q || q < p;
    }
  }

  /** The ring is read from active again. */
  ghost method Reread(m: CyclicManagedMemory, s: seq<CyclicAtime>)
    requires Cycle(s) && OwnChunks(s) && m.active in s && m.counterActive in s
    requires m.preemptiveStart != null ==> m.preemptiveStart in s
    modifies m`ring, m`counterAt, m`startAt
    ensures m.Valid() && m.ring == From(s, m.active) && forall e :: e in m.ring <==> e in s
  {
    var t := From(s, m.active);
    FromCycle(s, m.active);
    CycleDistinct(t);
    OwnChunksOf(s, t);
    hide Cycle, OwnChunks, Distinct, From;
    m.ring, m.counterAt, m.startAt := t, IndexOf(t, m.counterActive),
      if m.preemptiveStart == null then |t| else IndexOf(t, m.preemptiveStart);
    CycleKept(t);
  }

  lemma CycleDistinct(s: seq<CyclicAtime>)
    requires Cycle(s)
    ensures Distinct(s)
  {
  }

  lemma {:induction false} FlaggedEndAt(es: seq<Entry>, i: nat)
    requires i <= |es| && (forall k :: i <= k < |es| ==> es[k].preemptive) && (i > 0 ==> !es[i - 1].preemptive)
    ensures FlaggedEnd(es) == |es| - i
    decreases |es|
  {
    if i < |es| {
      FlaggedEndAt(Front(es), i);
    }
  }

  ghost function StartOf(t: seq<CyclicAtime>, es: seq<Entry>): CyclicAtime?
    requires |es| == |t|
  {
    if FlaggedEnd(es) == 0 then null else t[|t| - FlaggedEnd(es)]
  }

  /** Where the guesses begin: walk back from active as long as the flag is seen. */
  method FindStart(active: CyclicAtime, ghost t: seq<CyclicAtime>, ghost es: seq<Entry>) returns (start: CyclicAtime?)
    requires Cycle(t) && t != [] && t[0] == active && es == Snaps(t) && exists i :: 0 <= i < |t| && !es[i].preemptive
    ensures start == StartOf(t, es)
  {
    hide Cycle, Snaps, FlaggedEnd;
    var cur := active;
    ghost var i: nat := |t|;
    NeighbourBack(t, i);
    while cur.prev.chunk.preemptiveLoaded
      invariant 0 < i <= |t| && cur == (if i == |t| then t[0] else t[i]) && cur.prev == t[i - 1]
      invariant forall k :: i <= k < |t| ==> es[k].preemptive
      decreases i
    {
      assert es[i - 1] == Snap(t[i - 1]);
      cur := cur.prev;
      i := i - 1;
      if i == 0 {
        assert forall k :: 0 <= k < |t| ==> es[k].preemptive;
      }
      NeighbourBack(t, i);
    }
    assert es[i - 1] == Snap(t[i - 1]);
    FlaggedEndAt(es, i);
    if i < |t| { StartApart(t, i); }
    start := if cur == active then null else cur;
  }

  lemma StartApart(t: seq<CyclicAtime>, i: nat)
    requires Cycle(t) && 0 < i < |t|
    ensures t[i] != t[0]
  {
  }

  lemma NeighbourBack(t: seq<CyclicAtime>, i: nat)
    requires Cycle(t) && 0 < i <= |t|
    ensures (if i == |t| then t[0] else t[i]).prev == t[i - 1]
  {
    if i < |t| { assert Joined(t[i - 1], t[i]); }
  }

  // ---------------------------------------------------------------- swapOut

  /** The selected chunks have been offered to the swap: they carry no flag, and their status may be another. */
  ghost predicate MarkedAt(es: seq<Entry>, w: seq<Entry>, ps: seq<nat>) {
    && |w| == |es|
    && forall i :: 0 <= i < |es| ==>
         w[i] == if i in ps then es[i].(status := w[i].status, preemptive := false) else es[i]
  }

  ghost predicate Weighted(es: seq<Entry>) {
    forall i :: 0 <= i < |es| ==> es[i].size > 0
  }

  lemma NoVictims(es: seq<Entry>, ps: seq<nat>)
    requires Weighted(es) && Positions(es, ps)
    ensures Bytes(es, ps) == 0 <==> ps == []
  {
    if ps != [] { LastWeighs(es, ps); }
  }

  /** Both rounds. */
  method Select(m: CyclicManagedMemory, allelements: nat, target: nat, free: nat,
                ghost r: seq<CyclicAtime>, ghost a: nat, ghost ps: seq<nat>)
      returns (unloadlist: array<ManagedMemoryChunk?>, last: CyclicAtime?, reset: bool)
    requires Cycle(r) && r != [] && OwnChunks(r) && allelements == |r| && m.counterActive == Last(r)
    requires a < |r| && m.active == r[a] && (m.preemptiveStart != null ==> m.preemptiveStart in r)
    requires ps == Victims(Snaps(r), target, free, 0) && Weighted(Snaps(r))
    modifies m`active, m`preemptiveBytes, ChunksOf(r)`preemptiveLoaded
    ensures Positions(Snaps(r), ps) && (last == null <==> ps == [])
    ensures ps != [] ==> last == r[Last(ps)]
    ensures Selected(m, r, old(Snaps(r)), ps, a, old(m.preemptiveBytes), reset)
    ensures unloadlist.Length == |ps| && Lists(unloadlist, r, ps) && fresh(unloadlist)
  {
    hide Cycle, Snaps, OwnChunks, Victims, Bytes, Guessed, OutBytes, Selected, Weighted, HasTaken;
    ghost var es := Snaps(r);
    var unload, unloadSize := CountVictims(m.counterActive, allelements, target, free, r);
    NoVictims(es, ps);
    unloadlist := new ManagedMemoryChunk?[unload];
    if unloadSize == 0 {
      NothingSelected(m, r, a);
      return unloadlist, null, false;
    }
    VictimsShape(es, target, free, 0);
    LastHasBytes(es, ps);
    var fromPos;
    ghost var taken;
    fromPos, reset, taken := FillVictims(m, unloadlist, unloadSize, free, allelements, r, ps, target, a);
    NextOfWalk(r, Last(ps));
    last := fromPos.next;
  }

  lemma LastHasBytes(es: seq<Entry>, ps: seq<nat>)
    requires Weighted(es) && Positions(es, ps) && ps != []
    ensures Last(ps) < |es| && es[Last(ps)].size > 0
  {
  }

  /** The walk has gone one step too far. */
  lemma NextOfWalk(r: seq<CyclicAtime>, k: nat)
    requires Cycle(r) && k < |r|
    ensures (if k > 0 then r[k - 1] else Last(r)).next == r[k]
  {
    BackOne(r, k + 1);
  }

  /** Both rounds and the swap's answers. */
  method Unload(m: CyclicManagedMemory, allelements: nat, target: nat, free: nat, answer: Answers,
                ghost r: seq<CyclicAtime>, ghost a: nat, ghost ps: seq<nat>)
      returns (last: CyclicAtime?, reset: bool, bytes: nat)
    requires Cycle(r) && r != [] && OwnChunks(r) && allelements == |r| && m.counterActive == Last(r)
    requires a < |r| && m.active == r[a] && (m.preemptiveStart != null ==> m.preemptiveStart in r)
    requires ps == Victims(Snaps(r), target, free, 0) && Weighted(Snaps(r))
    modifies m`active, m`preemptiveBytes, ChunksOf(r)`preemptiveLoaded, ChunksOf(r)`status
    ensures Positions(Snaps(r), ps) && (last == null <==> ps == []) && (ps != [] ==> last == r[Last(ps)])
    ensures bytes == OutBytes(Snaps(r), ps) && MarkedAt(old(Snaps(r)), Snaps(r), ps)
    ensures m.active in r && (a !in ps ==> m.active == r[a]) && m.active == r[Yielded(ps, a, |r|)]
    ensures m.preemptiveBytes - Guessed(Snaps(r)) == old(m.preemptiveBytes) - old(Guessed(Snaps(r)))
    ensures reset <==> HasTaken(r, ps, m.preemptiveStart)
  {
    hide Cycle, Snaps, OwnChunks, Victims, Bytes, Guessed, OutBytes, Selected, MarkedAt, OnlyStatus, Weighted;
    ghost var es, was := Snaps(r), m.preemptiveBytes;
    var unloadlist;
    unloadlist, last, reset := Select(m, allelements, target, free, r, a, ps);
    ghost var mid := Snaps(r);
    SelectedFacts(m, r, es, ps, a, was, reset);
    VictimsShape(es, target, free, 0);
    StrippedIdle(es, mid, ps);
    bytes := OfferToSwap(unloadlist, answer, r, ps);
    OfferedMarks(es, mid, Snaps(r), ps);
  }

  lemma SelectedFacts(m: CyclicManagedMemory, r: seq<CyclicAtime>, es: seq<Entry>, ps: seq<nat>, a: nat, bytes: int, reset: bool)
    requires Selected(m, r, es, ps, a, bytes, reset)
    ensures Snaps(r) == Stripped(es, ps) && m.preemptiveBytes - Guessed(Snaps(r)) == bytes - Guessed(es)
    ensures a < |r| && m.active == r[Yielded(ps, a, |r|)] && m.active in r && (a !in ps ==> m.active == r[a])
    ensures reset <==> HasTaken(r, ps, m.preemptiveStart)
  {
    if a !in ps { YieldedNot(ps, a, |r|); }
  }

  lemma OfferedMarks(es: seq<Entry>, mid: seq<Entry>, w: seq<Entry>, ps: seq<nat>)
    requires mid == Stripped(es, ps) && OnlyStatus(mid, w, ps)
    ensures MarkedAt(es, w, ps) && Guessed(w) == Guessed(mid)
  {
    GuessedStatus(mid, w);
  }

  lemma StrippedIdle(es: seq<Entry>, mid: seq<Entry>, ps: seq<nat>)
    requires mid == Stripped(es, ps) && Positions(es, ps) && forall i :: i in ps ==> i < |es| && Idle(es[i])
    ensures Descending(ps) ==> Distinct(ps)
    ensures Positions(mid, ps) && forall q :: 0 <= q < |ps| ==> mid[ps[q]].status.Allocated?
  {
  }

  /** A status does not weigh. */
  lemma {:induction false} GuessedStatus(es: seq<Entry>, w: seq<Entry>)
    requires |w| == |es| && forall i :: 0 <= i < |es| ==> w[i].preemptive == es[i].preemptive && w[i].size == es[i].size
    ensures Guessed(w) == Guessed(es)
    decreases |es|
  {
    if es != [] {
      GuessedStatus(es[..|es| - 1], w[..|w| - 1]);
    }
  }

  /** If the guesses began with a selected chunk, they begin elsewhere now. */
  method ResetStart(m: CyclicManagedMemory, reset: bool, ghost s: seq<CyclicAtime>)
    requires Cycle(s) && s != [] && m.active in s && (m.preemptiveStart != null ==> m.preemptiveStart in s)
    requires exists i :: 0 <= i < |s| && !Snaps(s)[i].preemptive
    modifies m`preemptiveStart
    ensures m.preemptiveStart != null ==> m.preemptiveStart in s
    ensures m.preemptiveStart == if reset then StartOf(From(s, m.active), old(Snaps(From(s, m.active)))) else old(m.preemptiveStart)
  {
    hide Cycle, Snaps, FlaggedEnd, From, StartOf;
    if reset {
      FromCycle(s, m.active);
      FromUnflagged(s, m.active);
      var t := From(s, m.active);
      StartInside(t, Snaps(t));
      m.preemptiveStart := FindStart(m.active, t, Snaps(t));
    }
  }

  ghost function NextIn(s: seq<CyclicAtime>, x: CyclicAtime): CyclicAtime
    requires x in s
  {
    if |s| > 1 then From(s, x)[1] else x
  }

  /** Where active goes when it stood on was: from a guess to the next one, from what has gone out to counterActive. */
  ghost function ActiveAfter(s: seq<CyclicAtime>, was: CyclicAtime, counterActive: CyclicAtime): CyclicAtime
    requires was in s
    reads was.chunk`status, was.chunk`preemptiveLoaded
  {
    if was.chunk.preemptiveLoaded then NextIn(s, was) else if was.chunk.status.Out() then counterActive else was
  }

  lemma NextIs(s: seq<CyclicAtime>, x: CyclicAtime)
    requires Cycle(s) && x in s
    ensures x.next == NextIn(s, x) && x.next in s
  {
    NextInside(s, x);
    FromCycle(s, x);
    var t := From(s, x);
    if |t| > 1 {
      assert Joined(t[0], t[1]);
    }
  }

  /** active leaves what has gone out or was loaded on a guess. */
  method MoveActive(m: CyclicManagedMemory, ghost s: seq<CyclicAtime>)
    requires Cycle(s) && m.active in s && m.counterActive in s
    modifies m`active
    ensures m.active in s && m.active == ActiveAfter(s, old(m.active), m.counterActive)
  {
    hide Cycle, NextIn;
    NextIs(s, m.active);
    if m.active.chunk.preemptiveLoaded {
      m.active := m.active.next;
    } else if m.active.chunk.status.Out() {
      m.active := m.counterActive;
    }
  }

  /** active leaves what has gone out or was loaded on a guess, and preemptiveStart what was selected. */
  method Settle(m: CyclicManagedMemory, reset: bool, ghost s: seq<CyclicAtime>)
    requires Cycle(s) && s != [] && OwnChunks(s) && m.active in s && m.counterActive in s
    requires m.preemptiveStart != null ==> m.preemptiveStart in s
    requires exists i :: 0 <= i < |s| && !Snaps(s)[i].preemptive
    modifies m`active, m`preemptiveStart, m`ring, m`counterAt, m`startAt
    ensures m.Valid() && (forall e :: e in m.ring <==> e in s)
    ensures m.active in s && m.active == ActiveAfter(s, old(m.active), m.counterActive) && m.ring == From(s, m.active)
    ensures m.preemptiveStart == if reset then StartOf(m.ring, Snaps(m.ring)) else old(m.preemptiveStart)
  {
    hide Cycle, OwnChunks, Snaps, FlaggedEnd, From, StartOf, NextIn;
    ghost var w := Snaps(s);
    MoveActive(m, s);
    assert Snaps(s) == w;
    ghost var now := m.active;
    ghost var u := Snaps(From(s, now));
    ResetStart(m, reset, s);
    assert Snaps(From(s, now)) == u;
    Reread(m, s);
    assert Snaps(From(s, now)) == u;
  }

  lemma NextInside(s: seq<CyclicAtime>, x: CyclicAtime?)
    requires Cycle(s) && x in s
    ensures x.next in s
  {
    var i :| 0 <= i < |s| && s[i] == x;
    if i + 1 < |s| { assert Joined(s[i], s[i + 1]); }
  }

  lemma StartInside(t: seq<CyclicAtime>, es: seq<Entry>)
    requires |es| == |t|
    ensures StartOf(t, es) != null ==> StartOf(t, es) in t
  {
  }

  lemma FromUnflagged(s: seq<CyclicAtime>, x: CyclicAtime?)
    requires Cycle(s) && x in s && exists i :: 0 <= i < |s| && !Snaps(s)[i].preemptive
    ensures exists i :: 0 <= i < |From(s, x)| && !Snaps(From(s, x))[i].preemptive
  {
    var i :| 0 <= i < |s| && !Snaps(s)[i].preemptive;
    FromCycle(s, x);
    assert s[i] in s;
    var j :| 0 <= j < |From(s, x)| && From(s, x)[j] == s[i];
    assert Snaps(From(s, x))[j] == Snap(s[i]);
  }

  datatype SwapErrorCode = Success | MoreThanTotalRam | SwapFull | NotEnoughCandidates | NothingToSwap

  /** What swapOut aims at: at least minSize, more if that brings RAM use down to what is wanted and the swap can take it. */
  function Aim(minSize: nat, want: nat, swapFree: nat): nat {
    var least := if want < minSize then minSize else want;
    if least > swapFree then minSize else least
  }

  lemma TurnedStart(s: seq<CyclicAtime>, c: nat)
    requires c < |s|
    ensures var r := Turned(s, c); |r| == |s| && r != [] && r[|s| - 1 - c] == s[0] && Last(r) == s[c]
  {
  }

  /** A selected chunk is found unflagged in any reading of the ring. */
  lemma SomeUnflagged(r: seq<CyclicAtime>, s: seq<CyclicAtime>, p: nat)
    requires p < |r| && !Snaps(r)[p].preemptive && forall e :: e in r ==> e in s
    ensures exists i :: 0 <= i < |s| && !Snaps(s)[i].preemptive
  {
    assert r[p] in r;
    var i :| 0 <= i < |s| && s[i] == r[p];
    assert Snaps(s)[i] == Snap(r[p]) == Snaps(r)[p];
  }

  /** The ring after the selected chunks have been offered: reorder it unless the swap has taken nothing, and read it from
      where active is now. */
  method Rearrange(m: CyclicManagedMemory, last: CyclicAtime, reset: bool, bytes: nat, ghost r: seq<CyclicAtime>, ghost k: nat,
                   ghost all: set<CyclicAtime>)
    requires Elements(r) <= all
    requires Cycle(r) && r != [] && OwnChunks(r) && k < |r| && r[k] == last && m.counterActive == Last(r) && m.active in r
    requires m.preemptiveStart != null ==> m.preemptiveStart in r
    requires !Snaps(r)[k].preemptive && (bytes > 0 ==> Only(r[k..], GoneOut(r[k..])) != [])
    modifies all`next, all`prev, m`counterActive, m`active, m`preemptiveStart, m`ring, m`counterAt, m`startAt
    ensures m.Valid() && (forall e :: e in m.ring <==> e in r)
    ensures bytes == 0 ==> m.ring == From(r, old(m.active)) && unchanged(m`counterActive) && unchanged(m`preemptiveStart)
    ensures var was, sel := old(m.active), old(GoneOut(r[k..]));
            var kept, s := Except(r[k..], sel), r[..k] + Except(r[k..], sel) + Only(r[k..], sel);
            bytes > 0 ==>
              && was in s && m.counterActive == (if kept != [] then Last(kept) else if k > 0 then Last(r[..k]) else was)
              && m.active in s && m.active == ActiveAfter(s, was, m.counterActive) && m.ring == From(s, m.active)
              && m.preemptiveStart == if reset then StartOf(m.ring, Snaps(m.ring)) else old(m.preemptiveStart)
  {
    hide Cycle, OwnChunks, Snaps, From, StartOf, Only, Except, NextIn;
    CycleSame(r);
    if bytes == 0 {
      Reread(m, r);
      return;
    }
    ghost var sel := GoneOut(r[k..]);
    ghost var kept := Except(r[k..], sel);
    ghost var s := r[..k] + kept + Only(r[k..], sel);
    SameElements(r, k, sel);
    ghost var es := Snaps(s);
    SomeUnflagged(r, s, k);
    assert forall x :: x in r ==> x in Elements(r);
    Reorder(m, last, r, k);
    CycleDistinct(s);
    OwnChunksOf(r, s);
    SnapsKept(s);
    Settle(m, reset, s);
  }

  lemma CycleSame(r: seq<CyclicAtime>)
    requires Cycle(r)
    ensures Last(r) in r
  {
  }

  lemma SameElements(r: seq<CyclicAtime>, k: nat, sel: set<CyclicAtime>)
    requires k < |r|
    ensures var s := r[..k] + Except(r[k..], sel) + Only(r[k..], sel);
            && (forall e :: e in s <==> e in r) && s != []
            && (Except(r[k..], sel) != [] ==> Last(Except(r[k..], sel)) in s)
            && (k > 0 ==> Last(r[..k]) in s)
  {
    var kept, gone := Except(r[k..], sel), Only(r[k..], sel);
    OnlyElements(r[k..], sel);
    assert r == r[..k] + r[k..];
    forall e
      ensures e in r[..k] + kept + gone <==> e in r
    {
      assert e in r[k..] <==> e in Elements(r[k..]);
      assert e in kept <==> e in Elements(kept);
      assert e in gone <==> e in Elements(gone);
    }
    assert r[k] in r;
  }
}
