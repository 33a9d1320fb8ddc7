/** The doubly linked cycle of cyclicManagedMemory: elements with mutual links, seen as sequences. */
module Ring {
  import opened ChunkStatus

  /** What the scheduler looks at in a chunk. */
  class ManagedMemoryChunk {
    const id: nat
    const size: nat
    var status: MemoryStatus
    var useCnt: nat
    var preemptiveLoaded: bool

    constructor (id: nat, size: nat, status: MemoryStatus, useCnt: nat)
      ensures this.id == id && this.size == size && this.status == status && this.useCnt == useCnt
      ensures !preemptiveLoaded
    {
      this.id, this.size, this.status, this.useCnt, preemptiveLoaded := id, size, status, useCnt, false;
    }
  }

  class CyclicAtime {
    var prev: CyclicAtime
    var next: CyclicAtime
    const chunk: ManagedMemoryChunk

    constructor (chunk: ManagedMemoryChunk)
      ensures this.chunk == chunk && prev == this && next == this
    {
      this.chunk, prev, next := chunk, this, this;
    }
  }

  // ---------------------------------------------------------------- sequences

  ghost predicate Distinct<T>(s: seq<T>) {
    forall i, j :: 0 <= i < j < |s| ==> s[i] != s[j]
  }

  ghost function Elements<T>(s: seq<T>): set<T> {
    set x | x in s
  }

  lemma ElementsConcat<T>(a: seq<T>, b: seq<T>)
    ensures Elements(a + b) == Elements(a) + Elements(b)
  {
  }

  lemma DistinctConcat<T>(a: seq<T>, b: seq<T>)
    ensures Distinct(a + b) <==> Distinct(a) && Distinct(b) && forall x :: x in a ==> x !in b
  {
    if Distinct(a + b) {
      forall i, j | 0 <= i < j < |a|
        ensures a[i] != a[j]
      {
        assert (a + b)[i] != (a + b)[j];
      }
      forall i, j | 0 <= i < j < |b|
        ensures b[i] != b[j]
      {
        assert (a + b)[|a| + i] != (a + b)[|a| + j];
      }
      forall i, j | 0 <= i < |a| && 0 <= j < |b|
        ensures a[i] != b[j]
      {
        assert (a + b)[i] != (a + b)[|a| + j];
      }
    }
    if Distinct(a) && Distinct(b) && forall x :: x in a ==> x !in b {
      forall i, j | 0 <= i < j < |a + b|
        ensures (a + b)[i] != (a + b)[j]
      {
        if i < |a| && j >= |a| {
          assert a[i] in a && b[j - |a|] in b;
        }
      }
    }
  }

  /** The elements of s that are in p, in their order. */
  ghost function Only<T>(s: seq<T>, p: set<T>): seq<T> {
    if s == [] then [] else Only(s[..|s| - 1], p) + if s[|s| - 1] in p then [s[|s| - 1]] else []
  }

  /** And those that are not. */
  ghost function Except<T>(s: seq<T>, p: set<T>): seq<T> {
    if s == [] then [] else Except(s[..|s| - 1], p) + if s[|s| - 1] in p then [] else [s[|s| - 1]]
  }

  lemma OnlyStep<T>(s: seq<T>, x: T, p: set<T>)
    ensures Only(s + [x], p) == Only(s, p) + if x in p then [x] else []
    ensures Except(s + [x], p) == Except(s, p) + if x in p then [] else [x]
  {
    assert (s + [x])[..|s|] == s;
  }

  /** x stands before y. */
  ghost predicate Before<T>(s: seq<T>, x: T, y: T) {
    exists i: nat, j: nat :: i < j < |s| && s[i] == x && s[j] == y
  }

  lemma BeforeMore<T>(s: seq<T>, z: T, x: T, y: T)
    ensures Before(s, x, y) ==> Before(s + [z], x, y)
    ensures x in s ==> Before(s + [z], x, z)
  {
    var t := s + [z];
    if i: nat, j: nat :| i < j < |s| && s[i] == x && s[j] == y {
      assert t[i] == x && t[j] == y;
    }
    if x in s {
      var i: nat :| i < |s| && s[i] == x;
      assert t[i] == x && t[|s|] == z;
    }
  }

  /** The division is stable: on both sides elements stand in the order in which they stood before. */
  lemma {:induction false} PartitionStable<T>(s: seq<T>, p: set<T>, x: T, y: T)
    requires Before(s, x, y)
    ensures x in p && y in p ==> Before(Only(s, p), x, y)
    ensures x !in p && y !in p ==> Before(Except(s, p), x, y)
    decreases |s|
  {
    hide Only, Except;
    var z, r := s[|s| - 1], s[..|s| - 1];
    assert s == r + [z];
    OnlyStep(r, z, p);
    OnlyElements(r, p);
    BeforeLast(r, z, x, y);
    if Before(r, x, y) {
      PartitionStable(r, p, x, y);
    }
    BeforeMore(Only(r, p), z, x, y);
    BeforeMore(Except(r, p), z, x, y);
    assert Only(r, p) + [] == Only(r, p) && Except(r, p) + [] == Except(r, p);
    assert x in r ==> x in Elements(r);
    assert forall e :: e in Elements(Only(r, p)) <==> e in Only(r, p);
    assert forall e :: e in Elements(Except(r, p)) <==> e in Except(r, p);
  }

  lemma BeforeLast<T>(r: seq<T>, z: T, x: T, y: T)
    requires Before(r + [z], x, y)
    ensures Before(r, x, y) || (x in r && y == z)
  {
    var t := r + [z];
    var i: nat, j: nat :| i < j < |t| && t[i] == x && t[j] == y;
    assert r[i] == x;
    assert j < |r| ==> r[j] == y;
  }

  lemma {:induction false} OnlyElements<T>(s: seq<T>, p: set<T>)
    ensures Elements(Only(s, p)) == Elements(s) * p && Elements(Except(s, p)) == Elements(s) - p
    ensures Elements(Only(s, p)) + Elements(Except(s, p)) == Elements(s)
    ensures |Only(s, p)| + |Except(s, p)| == |s|
  {
    if s != [] {
      var x, r := s[|s| - 1], s[..|s| - 1];
      OnlyElements(r, p);
      assert s == r + [x];
      ElementsConcat(r, [x]);
      ElementsConcat(Only(r, p), [x]);
      ElementsConcat(Except(r, p), [x]);
      assert Elements([x]) == {x};
      assert Elements<T>([]) == {};
      assert Only(r, p) + [] == Only(r, p) && Except(r, p) + [] == Except(r, p);
    }
  }

  lemma {:induction false} OnlyDistinct<T>(s: seq<T>, p: set<T>)
    requires Distinct(s)
    ensures Distinct(Only(s, p)) && Distinct(Except(s, p))
  {
    if s != [] {
      var x, r := s[|s| - 1], s[..|s| - 1];
      assert s == r + [x];
      DistinctConcat(r, [x]);
      OnlyDistinct(r, p);
      OnlyElements(r, p);
      assert x !in Elements(r);
      assert x !in Elements(Only(r, p)) && x !in Elements(Except(r, p));
      DistinctConcat(Only(r, p), [x]);
      DistinctConcat(Except(r, p), [x]);
    }
  }

  // ---------------------------------------------------------------- links

  ghost predicate Joined(a: CyclicAtime, b: CyclicAtime)
    reads a`next, b`prev
  {
    a.next == b && b.prev == a
  }

  /** Each element is linked to the following one, in both directions. */
  ghost predicate Path(s: seq<CyclicAtime>)
    reads s`next, s`prev
  {
    forall i, j {:trigger s[i], s[j]} :: 0 <= i && j == i + 1 && j < |s| ==> Joined(s[i], s[j])
  }

  /** The elements of s form one cycle. */
  ghost predicate Cycle(s: seq<CyclicAtime>)
    reads s`next, s`prev
  {
    s != [] && Distinct(s) && Path(s) && Joined(s[|s| - 1], s[0])
  }

  lemma PathSplit(a: seq<CyclicAtime>, b: seq<CyclicAtime>)
    requires Path(a + b)
    ensures Path(a) && Path(b) && (a != [] && b != [] ==> Joined(a[|a| - 1], b[0]))
  {
    var s := a + b;
    forall i, j {:trigger a[i], a[j]} | 0 <= i && j == i + 1 && j < |a|
      ensures Joined(a[i], a[j])
    {
      assert s[i] == a[i] && s[j] == a[j];
    }
    forall i, j {:trigger b[i], b[j]} | 0 <= i && j == i + 1 && j < |b|
      ensures Joined(b[i], b[j])
    {
      assert s[|a| + i] == b[i] && s[|a| + j] == b[j];
    }
    if a != [] && b != [] {
      assert s[|a| - 1] == a[|a| - 1] && s[|a|] == b[0];
    }
  }

  lemma PathJoin(a: seq<CyclicAtime>, b: seq<CyclicAtime>)
    requires Path(a) && Path(b) && (a != [] && b != [] ==> Joined(a[|a| - 1], b[0]))
    ensures Path(a + b)
  {
    var s := a + b;
    forall i, j {:trigger s[i], s[j]} | 0 <= i && j == i + 1 && j < |s|
      ensures Joined(s[i], s[j])
    {
      if j < |a| {
        assert s[i] == a[i] && s[j] == a[j];
      } else if i >= |a| {
        assert s[i] == b[i - |a|] && s[j] == b[j - |a|];
      }
    }
  }

  /** A cycle of two arcs, with its four links. */
  lemma CycleArcs(a: seq<CyclicAtime>, b: seq<CyclicAtime>)
    requires a != [] && b != []
    ensures Cycle(a + b) <==> Distinct(a + b) && Path(a) && Path(b) && Joined(a[|a| - 1], b[0]) && Joined(b[|b| - 1], a[0])
  {
    if Path(a + b) { PathSplit(a, b); }
    if Path(a) && Path(b) && Joined(a[|a| - 1], b[0]) { PathJoin(a, b); }
  }

  /** It does not matter where reading a cycle begins. */
  lemma CycleTurn(a: seq<CyclicAtime>, b: seq<CyclicAtime>)
    requires Cycle(a + b)
    ensures Cycle(b + a)
  {
    if a == [] {
      assert b + a == a + b;
    } else if b == [] {
      assert b + a == a + b;
    } else {
      CycleArcs(a, b);
      CycleArcs(b, a);
      DistinctConcat(a, b);
      DistinctConcat(b, a);
    }
  }

  /** MUTUAL_CONNECT */
  method Connect(a: CyclicAtime, b: CyclicAtime)
    modifies a`next, b`prev
    ensures Joined(a, b)
  {
    a.next := b;
    b.prev := a;
  }
}
