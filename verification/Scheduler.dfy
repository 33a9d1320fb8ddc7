/** cyclicManagedMemory: the scheduler on its doubly linked ring. */
module Scheduler {
  import opened ChunkStatus
  import opened Ring
  import opened Sections

  // ---------------------------------------------------------------- what the ring shows

  function Snap(e: CyclicAtime): Entry
    reads e.chunk`status, e.chunk`useCnt, e.chunk`preemptiveLoaded
  {
    Entry(e.chunk.id, e.chunk.status, e.chunk.size, e.chunk.useCnt, e.chunk.preemptiveLoaded)
  }

  ghost function ChunksOf(s: seq<CyclicAtime>): set<ManagedMemoryChunk> {
    set e | e in s :: e.chunk
  }

  ghost function Snaps(s: seq<CyclicAtime>): (r: seq<Entry>)
    reads ChunksOf(s)`status, ChunksOf(s)`useCnt, ChunksOf(s)`preemptiveLoaded
    ensures |r| == |s| && forall i :: 0 <= i < |s| ==> r[i] == Snap(s[i])
  {
    if s == [] then [] else Snaps(s[..|s| - 1]) + [Snap(s[|s| - 1])]
  }

  ghost predicate OwnChunks(s: seq<CyclicAtime>) {
    forall i, j :: 0 <= i < j < |s| ==> s[i].chunk != s[j].chunk
  }

  lemma SnapsAre(s: seq<CyclicAtime>, es: seq<Entry>)
    requires |es| == |s| && forall i :: 0 <= i < |s| ==> es[i] == Snap(s[i])
    ensures Snaps(s) == es
  {
  }

  lemma SnapsConcat(a: seq<CyclicAtime>, b: seq<CyclicAtime>)
    ensures Snaps(a + b) == Snaps(a) + Snaps(b)
  {
    hide Snaps;
    SnapsAre(a + b, Snaps(a) + Snaps(b));
  }

  lemma SnapsOne(x: CyclicAtime)
    ensures Snaps([x]) == [Snap(x)]
  {
    hide Snaps;
    SnapsAre([x], [Snap(x)]);
  }

  /** No chunk has changed. */
  twostate lemma SnapsKept(s: seq<CyclicAtime>)
    requires forall c :: c in ChunksOf(s) ==>
               c.status == old(c.status) && c.useCnt == old(c.useCnt) && c.preemptiveLoaded == old(c.preemptiveLoaded)
    ensures Snaps(s) == old(Snaps(s))
  {
    hide Snaps;
    forall j | 0 <= j < |s|
      ensures Snap(s[j]) == old(Snap(s[j]))
    {
      assert s[j].chunk in ChunksOf(s);
    }
    SnapsAre(s, old(Snaps(s)));
  }

  /** Only what chunk i shows has changed. */
  twostate lemma SnapsSet(s: seq<CyclicAtime>, new i: nat)
    requires OwnChunks(s) && i < |s|
    requires forall c :: c in ChunksOf(s) && c != s[i].chunk ==>
               c.status == old(c.status) && c.useCnt == old(c.useCnt) && c.preemptiveLoaded == old(c.preemptiveLoaded)
    ensures Snaps(s) == old(Snaps(s))[i := Snap(s[i])]
  {
    hide Snaps;
    forall j | 0 <= j < |s| && j != i
      ensures Snap(s[j]) == old(Snap(s[j]))
    {
      assert s[j].chunk in ChunksOf(s) && (j < i || i < j);
    }
    SnapsAre(s, old(Snaps(s))[i := Snap(s[i])]);
  }

  lemma OwnChunksFront(e: CyclicAtime, s: seq<CyclicAtime>)
    requires OwnChunks(s) && e.chunk !in ChunksOf(s)
    ensures OwnChunks([e] + s)
  {
    var t := [e] + s;
    forall i, j | 0 <= i < j < |t|
      ensures t[i].chunk != t[j].chunk
    {
      if i == 0 { assert s[j - 1] in s; } else { assert s[i - 1].chunk != s[j - 1].chunk; }
    }
  }

  lemma NotYetIn(s: seq<CyclicAtime>, chunk: ManagedMemoryChunk, e: CyclicAtime)
    requires chunk !in ChunksOf(s) && e.chunk == chunk
    ensures e !in s
  {
  }

  // ---------------------------------------------------------------- links

  /** The inner links of a path have not been touched. */
  twostate predicate InnerKept(s: seq<CyclicAtime>)
    reads s`next, s`prev
  {
    forall i, j {:trigger s[i], s[j]} :: 0 <= i && j == i + 1 && j < |s| ==>
      s[i].next == old(s[i].next) && s[j].prev == old(s[j].prev)
  }

  twostate lemma ArcKept(s: seq<CyclicAtime>)
    requires old(Path(s)) && InnerKept(s)
    ensures Path(s)
  {
    forall i, j {:trigger s[i], s[j]} | 0 <= i && j == i + 1 && j < |s|
      ensures Joined(s[i], s[j])
    {
      assert old(Joined(s[i], s[j]));
    }
  }

  twostate lemma CycleKept(s: seq<CyclicAtime>)
    requires old(Cycle(s)) && forall x :: x in s ==> x.next == old(x.next) && x.prev == old(x.prev)
    ensures Cycle(s)
  {
    ArcKept(s);
  }

  /** Element i has been taken out of the ring and put in front. */
  twostate lemma MovedToFront(s: seq<CyclicAtime>, new i: nat)
    requires 0 < i < |s| - 1 && Distinct(s) && old(Path(s[..i])) && old(Path(s[i + 1..]))
    requires InnerKept(s[..i]) && InnerKept(s[i + 1..])
    requires Joined(s[i - 1], s[i + 1]) && Joined(s[|s| - 1], s[i]) && Joined(s[i], s[0])
    ensures Cycle([s[i]] + s[..i] + s[i + 1..])
  {
    var p, e, y := s[..i], s[i], s[i + 1..];
    assert s == p + [e] + y;
    ArcKept(p);
    ArcKept(y);
    DistinctConcat(p + [e], y);
    DistinctConcat(p, [e]);
    DistinctConcat([e], p);
    DistinctConcat([e] + p, y);
    PathJoin([e], p);
    CycleArcs([e] + p, y);
  }

  /** Element i has been taken out of the ring. */
  twostate lemma Unhooked(s: seq<CyclicAtime>, new i: nat)
    requires i < |s| && |s| > 1 && Distinct(s) && old(Path(s[..i])) && old(Path(s[i + 1..]))
    requires InnerKept(s[..i]) && InnerKept(s[i + 1..])
    requires 0 < i < |s| - 1 ==> Joined(s[i - 1], s[i + 1])
    requires var r := s[..i] + s[i + 1..]; Joined(r[|r| - 1], r[0])
    ensures Cycle(s[..i] + s[i + 1..])
  {
    var p, e, y := s[..i], s[i], s[i + 1..];
    assert s == p + [e] + y;
    ArcKept(p);
    ArcKept(y);
    DistinctConcat(p + [e], y);
    DistinctConcat(p, [e]);
    DistinctConcat(p, y);
    PathJoin(p, y);
  }

  /** A new element has been put in front. */
  twostate lemma Hooked(new e: CyclicAtime, s: seq<CyclicAtime>)
    requires old(Path(s)) && InnerKept(s) && Distinct(s) && e !in s
    requires if s == [] then Joined(e, e) else Joined(s[|s| - 1], e) && Joined(e, s[0])
    ensures Cycle([e] + s)
  {
    ArcKept(s);
    DistinctConcat([e], s);
    PathJoin([e], s);
  }

  /** The arcs before and after element i. */
  lemma ArcsAround(s: seq<CyclicAtime>, i: nat)
    requires Cycle(s) && i < |s|
    ensures var p, y := s[..i], s[i + 1..];
            && s == p + [s[i]] + y && Distinct(p + [s[i]] + y) && Path(p) && Path(y)
            && (i > 0 ==> s[0] == p[0] && s[i].prev == p[i - 1])
            && (i + 1 < |s| ==> s[i].next == y[0] && s[0].prev == y[|y| - 1])
            && (i + 1 == |s| ==> s[0].prev == s[i] && s[i].next == s[0])
            && (s[0].next == s[i] <==> i == 1 || |s| == 1) && (s[0].prev == s[i] <==> i + 1 == |s|)
  {
    var p, y := s[..i], s[i + 1..];
    assert s == (p + [s[i]]) + y;
    assert |s| > 1 ==> Joined(s[0], s[1]);
    PathSplit(p + [s[i]], y);
    PathSplit(p, [s[i]]);
  }

  /** The second element goes to the front; there are more than two. */
  method RelinkSecond(active: CyclicAtime, element: CyclicAtime, ghost s: seq<CyclicAtime>)
    requires Cycle(s) && |s| > 2 && s[0] == active && s[1] == element
    modifies s`next, s`prev
    ensures Cycle([element] + Without(s, 1))
  {
    hide Cycle, Path;
    ArcsAround(s, 1);
    var before := active.prev;
    var after := element.next;
    Connect(before, element);
    Connect(element, active);
    Connect(active, after);
    MovedToFront(s, 1);
    assert [element] + s[..1] + s[2..] == [element] + Without(s, 1);
  }

  /** Element i goes to the front; it is neither among the first two nor the last. */
  method RelinkInner(active: CyclicAtime, element: CyclicAtime, ghost s: seq<CyclicAtime>, ghost i: nat)
    requires Cycle(s) && 1 < i < |s| - 1 && s[0] == active && s[i] == element
    modifies s`next, s`prev
    ensures Cycle([element] + Without(s, i))
  {
    hide Cycle, Path, Distinct;
    ghost var p, y := s[..i], s[i + 1..];
    ArcsAround(s, i);
    var oldplaceBefore := element.prev;
    var oldplaceAfter := element.next;
    var before := active.prev;
    var after := active;
    Connect(oldplaceBefore, oldplaceAfter);
    Connect(before, element);
    Connect(element, after);
    MovedToFront(s, i);
    assert [element] + p + y == [element] + Without(s, i);
  }

  /** Element i goes to the front. */
  method LinkFirst(active: CyclicAtime, element: CyclicAtime, ghost s: seq<CyclicAtime>, ghost i: nat)
    requires Cycle(s) && 0 < i < |s| && s[0] == active && s[i] == element
    modifies s`next, s`prev
    ensures Cycle([element] + Without(s, i))
  {
    hide Cycle, Path, Distinct;
    ArcsAround(s, i);
    if active.prev == element {
      assert s == s[..i] + [element];
      CycleTurn(s[..i], [element]);
      assert [element] + s[..i] == [element] + Without(s, i);
      return;
    }
    if active.next == element {
      RelinkSecond(active, element, s);
      return;
    }
    RelinkInner(active, element, s, i);
  }

  /** Where the elements are when element i has gone to the front. */
  lemma FrontAt<T>(s: seq<T>, i: nat)
    requires i < |s|
    ensures |[s[i]] + Without(s, i)| == |s|
    ensures forall j {:trigger s[j]} :: 0 <= j < |s| && j != i ==> ([s[i]] + Without(s, i))[if j < i then j + 1 else j] == s[j]
  {
  }

  lemma MovedParts(v: Schedule, i: nat)
    requires 0 < i < |v.ring| && v.counter != i
    ensures MovedFirst(v, i) == Schedule([v.ring[i]] + Without(v.ring, i), if v.counter < i then v.counter + 1 else v.counter,
                                         if v.start < i then v.start + 1 else v.start, v.bytes)
  {
  }

  lemma SnapsWithout(s: seq<CyclicAtime>, i: nat)
    requires i < |s|
    ensures Snaps(Without(s, i)) == Without(Snaps(s), i)
  {
    hide Snaps;
    SnapsAre(Without(s, i), Without(Snaps(s), i));
  }

  lemma RemovedParts(v: Schedule, i: nat)
    requires i < |v.ring|
    ensures Removed(v, i) == Schedule(Without(v.ring, i), Removed(v, i).counter, Removed(v, i).start, v.bytes)
  {
  }

  lemma SnapsMoved(s: seq<CyclicAtime>, i: nat)
    requires i < |s|
    ensures Snaps([s[i]] + Without(s, i)) == [Snaps(s)[i]] + Without(Snaps(s), i)
  {
    hide Snaps, Without;
    SnapsConcat([s[i]], Without(s, i));
    SnapsOne(s[i]);
    SnapsWithout(s, i);
  }

  /** Element i leaves a ring of more than one. */
  method Unlink(element: CyclicAtime, ghost s: seq<CyclicAtime>, ghost i: nat)
    requires Cycle(s) && i < |s| && |s| > 1 && s[i] == element
    modifies s`next, s`prev
    ensures Cycle(Without(s, i)) && element.next == old(element.next) && element.prev == old(element.prev)
  {
    ArcsAround(s, i);
    ghost var p, y := s[..i], s[i + 1..];
    RestArcs(s, i);
    hide Cycle, Path, Distinct;
    if element.next == element.prev {
      var remaining := element.next;
      remaining.prev := remaining;
      remaining.next := remaining;
    } else {
      element.next.prev := element.prev;
      element.prev.next := element.next;
    }
    Unhooked(s, i);
    assert p + y == Without(s, i);
  }

  /** The neighbours of element i, and that it is not among the rest. */
  lemma RestArcs(s: seq<CyclicAtime>, i: nat)
    requires Cycle(s) && i < |s| && |s| > 1
    ensures var p, y := s[..i], s[i + 1..];
            && s[i].next == (if y != [] then y[0] else p[0]) && s[i].prev == (if p != [] then p[|p| - 1] else y[|y| - 1])
            && s[i].next != s[i] && s[i].prev != s[i]
            && (s[i].next == s[i].prev <==> |s| == 2)
  {
    ArcsAround(s, i);
  }

  lemma OwnChunksMoved(s: seq<CyclicAtime>, i: nat)
    requires OwnChunks(s) && i < |s|
    ensures OwnChunks(Without(s, i)) && OwnChunks([s[i]] + Without(s, i))
  {
    var t := Without(s, i);
    assert forall j :: 0 <= j < i ==> t[j] == s[j];
    assert forall j :: i <= j < |t| ==> t[j] == s[j + 1];
    OwnChunksFront(s[i], t);
  }

  class CyclicManagedMemory {
    /** The element that was used last. */
    var active: CyclicAtime?
    /** The last element of the section that is worked with. */
    var counterActive: CyclicAtime?
    /** The first element that was loaded on a guess. */
    var preemptiveStart: CyclicAtime?
    var preemptiveBytes: int
    /** All elements, read from active along next, and where counterActive and preemptiveStart are in it. */
    ghost var ring: seq<CyclicAtime>
    ghost var counterAt: nat
    ghost var startAt: nat

    ghost predicate CursorsOk()
      reads `active, `counterActive, `preemptiveStart, `ring, `counterAt, `startAt
    {
      && startAt <= |ring|
      && if ring == [] then active == null && counterActive == null && preemptiveStart == null && counterAt == 0
         else
           && active == ring[0] && counterAt < |ring| && counterActive == ring[counterAt]
           && preemptiveStart == if startAt < |ring| then ring[startAt] else null
    }

    ghost predicate Valid()
      reads this, ring`next, ring`prev
    {
      CursorsOk() && (ring == [] || (Cycle(ring) && OwnChunks(ring)))
    }

    ghost function View(): Schedule
      reads this, ChunksOf(ring)`status, ChunksOf(ring)`useCnt, ChunksOf(ring)`preemptiveLoaded
    {
      Schedule(Snaps(ring), counterAt, startAt, preemptiveBytes)
    }

    constructor ()
      ensures Valid() && ring == [] && Normal(View())
    {
      active, counterActive, preemptiveStart, preemptiveBytes := null, null, null, 0;
      ring, counterAt, startAt := [], 0, 0;
    }

    /** neu goes between the last and the first element. */
    method HookIn(neu: CyclicAtime)
      requires Valid() && neu !in ring && neu.prev == neu.next == neu
      modifies neu`next, neu`prev, ring`next, ring`prev
      ensures CursorsOk() && View() == old(View()) && Cycle([neu] + ring)
      ensures ring != [] ==> (counterActive == active <==> counterAt == 0)
    {
      if active != null {
        PathSplit(ring, []);
        var before := active.prev;
        var after := active;
        Connect(before, neu);
        Connect(neu, after);
      }
      Hooked(neu, ring);
    }

    /** The cursors follow a new first element. */
    method CursorsFirst(neu: CyclicAtime)
      requires CursorsOk()
      modifies `active, `counterActive, `ring, `counterAt, `startAt
      ensures CursorsOk() && ring == [neu] + old(ring) && startAt == old(startAt) + 1
      ensures var was := old(counterActive);
              counterAt == if was == null || (was == old(active) && was.chunk.status.Out()) then 0 else old(counterAt) + 1
    {
      ghost var counter := counterAt + 1;
      if active == null {
        counterActive, counter := neu, 0;
      }
      if counterActive == active && (counterActive.chunk.status == Swapped || counterActive.chunk.status == SwapOut) {
        counterActive, counter := neu, 0;
      }
      active := neu;
      ring, counterAt, startAt := [neu] + ring, counter, startAt + 1;
    }

    method PutFirst(neu: CyclicAtime)
      requires CursorsOk() && Cycle([neu] + ring) && OwnChunks([neu] + ring)
      requires ring != [] ==> (counterActive == active <==> counterAt == 0)
      modifies `active, `counterActive, `ring, `counterAt, `startAt
      ensures Valid() && ring == [neu] + old(ring)
      ensures View() == Registered(old(View()), Snap(neu))
    {
      ghost var v, r := View(), [neu] + ring;
      assert ring == [] <==> counterActive == null;
      assert counterActive != null && counterActive == active ==> Snap(counterActive) == v.ring[0];
      hide Cycle, OwnChunks, CursorsOk, Snaps;
      label L:
      CursorsFirst(neu);
      CycleKept@L(r);
      SnapsAre(r, [Snap(neu)] + v.ring);
    }

    /** schedulerRegister */
    method SchedulerRegister(chunk: ManagedMemoryChunk) returns (neu: CyclicAtime)
      requires Valid() && chunk !in ChunksOf(ring)
      modifies this, ring`next, ring`prev
      ensures Valid() && fresh(neu) && neu.chunk == chunk && ring == [neu] + old(ring)
      ensures View() == Registered(old(View()), Snap(neu))
    {
      hide Cycle, Snaps, CursorsOk;
      neu := new CyclicAtime(chunk);
      NotYetIn(ring, chunk, neu);
      HookIn(neu);
      OwnChunksFront(neu, ring);
      PutFirst(neu);
    }

    // ---------------------------------------------------------------- touch

    lemma Parts()
      requires Valid()
      ensures ring == [] <==> counterActive == null
      ensures preemptiveStart != null ==> ring != [] && startAt < |ring|
    {
    }

    lemma Assembled()
      requires CursorsOk() && Cycle(ring) && OwnChunks(ring)
      ensures Valid()
    {
    }

    lemma Neighbours(i: nat)
      requires Valid() && i < |ring|
      ensures ring[i].next == (if i + 1 < |ring| then ring[i + 1] else ring[0])
      ensures ring[i].prev == (if i > 0 then ring[i - 1] else ring[|ring| - 1])
      ensures Cycle(ring) && OwnChunks(ring) && CursorsOk()
      ensures active == ring[0] && counterAt < |ring| && counterActive == ring[counterAt] && startAt <= |ring|
      ensures preemptiveStart == if startAt < |ring| then ring[startAt] else null
      ensures counterActive == ring[i] <==> counterAt == i
      ensures preemptiveStart != null ==> (preemptiveStart.chunk == ring[i].chunk <==> startAt == i)
      ensures (active == ring[i] <==> i == 0) && (ring[i].next == active <==> i + 1 == |ring|)
    {
    }

    /** The element carries the flag no longer. */
    method DropFlag(element: CyclicAtime, ghost i: nat)
      requires Valid() && i < |ring| && ring[i] == element
      modifies `preemptiveBytes, element.chunk`preemptiveLoaded
      ensures Valid() && View() == Unflagged(old(View()), i)
    {
      hide Cycle, OwnChunks, Snaps, Valid;
      Neighbours(i);
      if element.chunk.preemptiveLoaded {
        preemptiveBytes := preemptiveBytes - element.chunk.size;
        element.chunk.preemptiveLoaded := false;
      }
      SnapsSet(ring, i);
      CycleKept(ring);
      Assembled();
    }

    /** The guesses do not begin with the element. */
    method LeaveStart(element: CyclicAtime, ghost i: nat)
      requires Valid() && i < |ring| && ring[i] == element
      modifies `preemptiveStart, `startAt
      ensures Valid() && View() == StartAfter(old(View()), i)
    {
      hide Cycle, OwnChunks, Snaps, Valid;
      Neighbours(i);
      if preemptiveStart != null && preemptiveStart.chunk == element.chunk {
        if preemptiveStart.next == active {
          preemptiveStart := null;
        } else {
          preemptiveStart := preemptiveStart.next;
        }
        startAt := i + 1;
      }
      SnapsKept(ring);
      CycleKept(ring);
      Assembled();
    }

    /** counterActive does not stay on an element that leaves. */
    method StepBack(element: CyclicAtime, ghost i: nat)
      requires Valid() && 0 < i < |ring| && ring[i] == element
      modifies `counterActive, `counterAt
      ensures Valid()
      ensures View() == old(View()).(counter := if old(counterAt) == i then i - 1 else old(counterAt))
    {
      hide Cycle, OwnChunks, Snaps;
      Neighbours(i);
      if counterActive == element {
        counterActive, counterAt := counterActive.prev, i - 1;
      }
    }

    /** The ring is read from a new active element. */
    method SetActive(element: CyclicAtime, ghost r: seq<CyclicAtime>, ghost counter: nat, ghost start: nat)
      requires counter < |r| && start <= |r| && r[0] == element && Cycle(r) && OwnChunks(r)
      requires counterActive == r[counter] && preemptiveStart == if start < |r| then r[start] else null
      modifies `active, `ring, `counterAt, `startAt
      ensures Valid() && ring == r && counterAt == counter && startAt == start
    {
      hide Cycle, OwnChunks;
      active, ring, counterAt, startAt := element, r, counter, start;
      CycleKept(r);
    }

    /** What has to be read from element i once it is in front. */
    lemma FirstMoved(i: nat, r: seq<CyclicAtime>)
      requires CursorsOk() && 0 < i < |ring| && counterAt != i && startAt != i && r == [ring[i]] + Without(ring, i)
      ensures var v := MovedFirst(View(), i);
              && v.ring == Snaps(r) && v.counter < |r| && v.start <= |r| && v.bytes == preemptiveBytes
              && counterActive == r[v.counter] && preemptiveStart == if v.start < |r| then r[v.start] else null
    {
      hide Snaps, Without, MovedFirst;
      SnapsMoved(ring, i);
      FrontAt(ring, i);
      MovedParts(View(), i);
    }

    /** The cursors follow element i to the front. */
    method SetFirst(element: CyclicAtime, ghost i: nat, ghost r: seq<CyclicAtime>)
      requires CursorsOk() && 0 < i < |ring| && counterAt != i && startAt != i
      requires ring[i] == element && r == [element] + Without(ring, i) && Cycle(r) && OwnChunks(r)
      modifies `active, `ring, `counterAt, `startAt
      ensures Valid() && ring == r
      ensures View() == MovedFirst(old(View()), i)
    {
      hide Cycle, OwnChunks, Snaps, Without, MovedFirst, CursorsOk, Valid;
      FirstMoved(i, r);
      ghost var v := MovedFirst(View(), i);
      SetActive(element, r, v.counter, v.start);
      SnapsKept(r);
    }

    method GoFirst(element: CyclicAtime, ghost i: nat)
      requires Valid() && 0 < i < |ring| && ring[i] == element && counterAt != i && startAt != i
      modifies `active, `ring, `counterAt, `startAt, ring`next, ring`prev
      ensures Valid() && ring == [element] + Without(old(ring), i)
      ensures View() == MovedFirst(old(View()), i)
    {
      hide Cycle, OwnChunks, Snaps, Without, MovedFirst;
      Neighbours(i);
      OwnChunksMoved(ring, i);
      LinkFirst(active, element, ring, i);
      SnapsKept(ring);
      SetFirst(element, i, [element] + Without(ring, i));
    }

    method MoveFirst(element: CyclicAtime, ghost i: nat)
      requires Valid() && 0 < i < |ring| && ring[i] == element && startAt != i
      modifies `active, `counterActive, `ring, `counterAt, `startAt, ring`next, ring`prev
      ensures Valid() && ring == [element] + Without(old(ring), i)
      ensures View() == MovedFirst(old(View()), i)
    {
      hide Cycle, OwnChunks, Snaps, Without;
      StepBack(element, i);
      GoFirst(element, i);
    }

    /** touch: move to the front. */
    method Touch(element: CyclicAtime, ghost i: nat)
      requires Valid() && i < |ring| && ring[i] == element
      modifies this, ring`next, ring`prev, element.chunk`preemptiveLoaded
      ensures Valid() && ring == [element] + Without(old(ring), i)
      ensures View() == Touched(old(View()), i)
    {
      hide Cycle, OwnChunks, Snaps;
      Neighbours(i);
      DropFlag(element, i);
      LeaveStart(element, i);
      if active == element {
        return;
      }
      MoveFirst(element, i);
    }

    // ---------------------------------------------------------------- schedulerDelete

    /** Element i has been unlinked; the cursors leave it. */
    method LeaveElement(element: CyclicAtime, ghost i: nat, ghost r: seq<CyclicAtime>)
      requires CursorsOk() && i < |ring| && |ring| > 1 && ring[i] == element && startAt != i
      requires r == Without(ring, i) && Cycle(r) && OwnChunks(r)
      requires element.next == (if i + 1 < |ring| then ring[i + 1] else ring[0])
      requires element.prev == (if i > 0 then ring[i - 1] else ring[|ring| - 1])
      requires (active == element <==> i == 0) && (counterActive == element <==> counterAt == i)
      modifies `active, `counterActive, `ring, `counterAt, `startAt
      ensures Valid() && ring == r
      ensures counterAt == Removed(old(View()), i).counter && startAt == Removed(old(View()), i).start
    {
      hide Cycle, OwnChunks, Snaps;
      ghost var v := Removed(View(), i);
      if active == element {
        active := element.next;
      }
      if counterActive == element {
        counterActive := element.prev;
      }
      ring, counterAt, startAt := r, v.counter, v.start;
      CycleKept(r);
    }

    method DropElement(element: CyclicAtime, ghost i: nat, ghost r: seq<CyclicAtime>)
      requires CursorsOk() && i < |ring| && |ring| > 1 && ring[i] == element && startAt != i
      requires r == Without(ring, i) && Cycle(r) && OwnChunks(r)
      requires element.next == (if i + 1 < |ring| then ring[i + 1] else ring[0])
      requires element.prev == (if i > 0 then ring[i - 1] else ring[|ring| - 1])
      requires (active == element <==> i == 0) && (counterActive == element <==> counterAt == i)
      modifies `active, `counterActive, `ring, `counterAt, `startAt
      ensures Valid() && ring == r && View() == Removed(old(View()), i)
    {
      hide Cycle, OwnChunks, Snaps, Without, Removed, CursorsOk, Valid;
      SnapsWithout(ring, i);
      RemovedParts(View(), i);
      LeaveElement(element, i, r);
      SnapsKept(r);
    }

    method UnlinkElement(element: CyclicAtime, ghost i: nat)
      requires Valid() && i < |ring| && |ring| > 1 && ring[i] == element && startAt != i
      modifies `active, `counterActive, `ring, `counterAt, `startAt, ring`next, ring`prev
      ensures Valid() && ring == Without(old(ring), i)
      ensures View() == Removed(old(View()), i)
    {
      hide Cycle, OwnChunks, Snaps, Without, Removed;
      Neighbours(i);
      OwnChunksMoved(ring, i);
      Unlink(element, ring, i);
      SnapsKept(ring);
      DropElement(element, i, Without(ring, i));
    }

    /** The last element goes. */
    method EmptyRing()
      requires Valid() && |ring| == 1 && startAt == 1
      modifies `active, `counterActive, `ring, `counterAt, `startAt
      ensures Valid() && View() == Removed(old(View()), 0) && ring == []
    {
      active, counterActive := null, null;
      ring, counterAt, startAt := [], 0, 0;
    }

    method RemoveElement(element: CyclicAtime, ghost i: nat)
      requires Valid() && i < |ring| && ring[i] == element && startAt != i
      modifies `active, `counterActive, `ring, `counterAt, `startAt, ring`next, ring`prev
      ensures Valid() && ring == Without(old(ring), i)
      ensures View() == Removed(old(View()), i)
    {
      hide Cycle, OwnChunks, Snaps, Removed, View;
      Neighbours(i);
      if element.next == element {
        EmptyRing();
        return;
      }
      UnlinkElement(element, i);
    }

    /** schedulerDelete */
    method SchedulerDelete(element: CyclicAtime, ghost i: nat)
      requires Valid() && i < |ring| && ring[i] == element
      modifies this, ring`next, ring`prev, element.chunk`preemptiveLoaded
      ensures Valid() && ring == Without(old(ring), i)
      ensures View() == Deleted(old(View()), i)
    {
      hide Cycle, OwnChunks, Without, Removed;
      if element.chunk.status == Swapped || element.chunk.status == SwapOut {
      } else {
        DropFlag(element, i);
      }
      LeaveStart(element, i);
      RemoveElement(element, i);
    }
  }
}
