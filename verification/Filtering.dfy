/** filterChain and insertBefore: taking elements out of a run of the ring and putting them back elsewhere. */
module Filtering {
  import opened ChunkStatus
  import opened Ring
  import opened Scheduler

  /** First and last element of a run that is not empty. */
  datatype Chain = Chain(from: CyclicAtime?, to: CyclicAtime?)

  ghost function ChainOf(s: seq<CyclicAtime>): Chain {
    if s == [] then Chain(null, null) else Chain(s[0], s[|s| - 1])
  }

  datatype Flag = Ignored | Wanted(value: bool)

  /** Whether filterChain takes the chunk out. */
  predicate Separates(c: ManagedMemoryChunk, statuses: seq<MemoryStatus>, flag: Flag)
    reads c`status, c`preemptiveLoaded
  {
    c.status in statuses || (flag.Wanted? && c.preemptiveLoaded == flag.value)
  }

  ghost function Separated(s: seq<CyclicAtime>, statuses: seq<MemoryStatus>, flag: Flag): set<CyclicAtime>
    reads ChunksOf(s)`status, ChunksOf(s)`preemptiveLoaded
  {
    set e | e in s && Separates(e.chunk, statuses, flag)
  }

  method SeparateThis(c: ManagedMemoryChunk, statuses: seq<MemoryStatus>, flag: Flag) returns (separate: bool)
    ensures separate == Separates(c, statuses, flag)
  {
    var n := 0;
    while n < |statuses|
      invariant n <= |statuses| && c.status !in statuses[..n]
    {
      if c.status == statuses[n] {
        return true;
      }
      n := n + 1;
    }
    assert statuses[..n] == statuses;
    separate := flag.Wanted? && c.preemptiveLoaded == flag.value;
  }

  lemma Apart<T>(a: seq<T>, b: seq<T>)
    requires forall x :: x in a ==> x !in b
    ensures forall i, j :: 0 <= i < |a| && 0 <= j < |b| ==> a[i] != b[j]
  {
    forall i, j | 0 <= i < |a| && 0 <= j < |b|
      ensures a[i] != b[j]
    {
      assert a[i] in a && b[j] in b;
    }
  }

  // ---------------------------------------------------------------- insertBefore

  /** The runs before and from position n on have been joined to a ring. */
  twostate lemma Inserted(w: seq<CyclicAtime>, new n: nat)
    requires 0 < n < |w| && Distinct(w) && old(Path(w[..n])) && old(Path(w[n..]))
    requires InnerKept(w[..n]) && InnerKept(w[n..])
    requires Joined(w[n - 1], w[n]) && Joined(w[|w| - 1], w[0])
    ensures Cycle(w)
  {
    ArcKept(w[..n]);
    ArcKept(w[n..]);
    assert w == w[..n] + w[n..];
    DistinctConcat(w[..n], w[n..]);
    CycleArcs(w[..n], w[n..]);
  }

  /** The run t goes in front of the first element of the ring s. */
  method InsertBefore(pos: CyclicAtime, separated: Chain, ghost s: seq<CyclicAtime>, ghost t: seq<CyclicAtime>)
    requires Cycle(s) && s[0] == pos && Path(t) && Distinct(s + t) && separated == ChainOf(t)
    modifies s`next, s`prev, t`next, t`prev
    ensures Cycle(s + t)
  {
    if separated.from == null {
      assert s + t == s;
      return;
    }
    PathSplit(s, []);
    assert s + [] == s;
    DistinctConcat(s, t);
    Apart(s, t);
    var before := pos.prev;
    var after := pos;
    hide Cycle, Path;
    Connect(before, separated.from);
    Connect(separated.to, after);
    assert (s + t)[..|s|] == s && (s + t)[|s|..] == t;
    Inserted(s + t, |s|);
  }

  // ---------------------------------------------------------------- cutting a run out

  lemma ThreeArcs(a: seq<CyclicAtime>, p: seq<CyclicAtime>, b: seq<CyclicAtime>)
    requires a != [] && p != [] && Cycle(a + p + b)
    ensures Path(a) && Path(p) && Path(b) && p[0].prev == a[|a| - 1]
    ensures (if b == [] then a[0] else b[0]).prev == p[|p| - 1]
    ensures Distinct(a + b) && Distinct(a + p + b) && (b != [] ==> Joined(b[|b| - 1], a[0]))
  {
    PathSplit(a + p, b);
    PathSplit(a, p);
    DistinctConcat(a + p, b);
    DistinctConcat(a, p);
    DistinctConcat(a, b);
    assert b == [] ==> a + p + b == a + p;
  }

  /** What came before and behind the cut has been joined to a ring. */
  twostate lemma CutOut(w: seq<CyclicAtime>, new n: nat)
    requires 0 < n <= |w| && Distinct(w) && old(Path(w[..n])) && old(Path(w[n..]))
    requires InnerKept(w[..n]) && InnerKept(w[n..])
    requires Joined(w[n - 1], if n == |w| then w[0] else w[n]) && (n < |w| ==> Joined(w[|w| - 1], w[0]))
    ensures Cycle(w)
  {
    ArcKept(w[..n]);
    ArcKept(w[n..]);
    PathJoin(w[..n], w[n..]);
    assert w == w[..n] + w[n..];
  }

  /** The run from position n on has been appended to the run before it. */
  twostate lemma Appended(w: seq<CyclicAtime>, new n: nat)
    requires n <= |w| && old(Path(w[..n])) && old(Path(w[n..]))
    requires InnerKept(w[..n]) && InnerKept(w[n..])
    requires 0 < n < |w| ==> Joined(w[n - 1], w[n])
    ensures Path(w)
  {
    ArcKept(w[..n]);
    ArcKept(w[n..]);
    PathJoin(w[..n], w[n..]);
    assert w == w[..n] + w[n..];
  }

  /** The links around the run p between a and b, and behind s, are redirected. */
  method CutLinks(cur: CyclicAtime, sepaStart: CyclicAtime, was: Chain, ghost a: seq<CyclicAtime>, ghost p: seq<CyclicAtime>,
                  ghost b: seq<CyclicAtime>, ghost s: seq<CyclicAtime>, ghost all: set<CyclicAtime>)
      returns (separated: Chain)
    requires Elements(a) + Elements(p) + Elements(b) + Elements(s) <= all
    requires a != [] && p != [] && sepaStart == p[0] && cur == if b == [] then a[0] else b[0]
    requires p[0].prev == a[|a| - 1] && cur.prev == p[|p| - 1] && (b != [] ==> Joined(b[|b| - 1], a[0]))
    requires Distinct(a + p + b) && Distinct(s) && forall x :: x in s ==> x !in a && x !in p && x !in b
    requires was == ChainOf(s)
    modifies all`next, all`prev
    ensures InnerKept(a) && InnerKept(b) && InnerKept(p) && InnerKept(s)
    ensures Joined(a[|a| - 1], cur) && (b != [] ==> Joined(b[|b| - 1], a[0])) && (s != [] ==> Joined(s[|s| - 1], p[0]))
    ensures separated == ChainOf(s + p) && (s + p)[0].prev == old((s + p)[0].prev)
  {
    DistinctConcat(a + p, b);
    DistinctConcat(a, p);
    Apart(a, p);
    assert forall x :: x in a || x in p ==> x in a + p;
    Apart(a, b);
    Apart(p, b);
    Apart(s, a);
    Apart(s, p);
    Apart(s, b);
    assert a[0] in Elements(a) && a[|a| - 1] in Elements(a) && p[0] in Elements(p);
    assert b != [] ==> b[0] in Elements(b);
    assert s != [] ==> s[|s| - 1] in Elements(s);
    var newTo := cur.prev;
    var before := sepaStart.prev;
    Connect(before, cur);
    if was.from == null {
      separated := Chain(sepaStart, newTo);
    } else {
      Connect(was.to, sepaStart);
      separated := Chain(was.from, newTo);
    }
  }

  /** The run p between a and b is cut out of the ring and appended to what has been cut out already. */
  method CutRun(cur: CyclicAtime, sepaStart: CyclicAtime, was: Chain, ghost a: seq<CyclicAtime>, ghost p: seq<CyclicAtime>,
                ghost b: seq<CyclicAtime>, ghost s: seq<CyclicAtime>, ghost all: set<CyclicAtime>)
      returns (separated: Chain)
    requires Elements(a) + Elements(p) + Elements(b) + Elements(s) <= all
    requires a != [] && p != [] && Cycle(a + p + b) && sepaStart == p[0] && cur == if b == [] then a[0] else b[0]
    requires Path(s) && Distinct(s) && was == ChainOf(s) && forall x :: x in s ==> x !in a && x !in p && x !in b
    modifies all`next, all`prev
    ensures Cycle(a + b) && Path(s + p) && separated == ChainOf(s + p) && (s + p)[0].prev == old((s + p)[0].prev)
  {
    hide Cycle, Path, InnerKept, Distinct;
    ThreeArcs(a, p, b);
    separated := CutLinks(cur, sepaStart, was, a, p, b, s, all);
    TwoParts(a, b);
    TwoParts(s, p);
    CutOut(a + b, |a|);
    Appended(s + p, |s|);
  }

  lemma TwoParts<T>(a: seq<T>, b: seq<T>)
    ensures (a + b)[..|a|] == a && (a + b)[|a|..] == b
    ensures a != [] ==> (a + b)[|a| - 1] == a[|a| - 1] && (a + b)[0] == a[0]
    ensures b != [] ==> (a + b)[|a|] == b[0] && (a + b)[|a + b| - 1] == b[|b| - 1]
  {
  }

  // ---------------------------------------------------------------- filterChain

  /** Half way through: the first i elements of seg have been divided into k, which is still in the ring, the run p that
      is to be cut out next, and s, which has been cut out. */
  ghost predicate Halfway(end: CyclicAtime, seg: seq<CyclicAtime>, i: nat, sel: set<CyclicAtime>,
                          k: seq<CyclicAtime>, p: seq<CyclicAtime>, s: seq<CyclicAtime>)
    reads {end}`next, {end}`prev, seg`next, seg`prev, k`next, k`prev, p`next, p`prev, s`next, s`prev
  {
    && i <= |seg| && Distinct([end] + seg)
    && k == Except(seg[..i], sel) && s + p == Only(seg[..i], sel)
    && Cycle([end] + k + p + seg[i..]) && Path(s) && (s != [] ==> Within(s[0].prev, end, seg, sel))
  }

  /** What was in front of the first element that has been cut out; the link still leads there. */
  ghost predicate Within(x: CyclicAtime, end: CyclicAtime, seg: seq<CyclicAtime>, sel: set<CyclicAtime>) {
    x == end || (x in seg && x !in sel)
  }

  /** The element after the run. */
  ghost function At(end: CyclicAtime, seg: seq<CyclicAtime>, i: nat): CyclicAtime
    requires i <= |seg|
  {
    if i < |seg| then seg[i] else end
  }

  /** What has been cut out is apart from what is still in the ring. */
  lemma HalfwayApart(end: CyclicAtime, seg: seq<CyclicAtime>, i: nat, sel: set<CyclicAtime>,
                     k: seq<CyclicAtime>, p: seq<CyclicAtime>, s: seq<CyclicAtime>)
    requires Halfway(end, seg, i, sel, k, p, s)
    ensures Distinct(s) && forall x :: x in s ==> x !in [end] + k && x !in p && x !in seg[i..]
    ensures Elements(k) <= Elements(seg) && Elements(p) <= Elements(seg) && Elements(s) <= Elements(seg)
  {
    DistinctConcat([end], seg);
    assert seg == seg[..i] + seg[i..];
    DistinctConcat(seg[..i], seg[i..]);
    OnlyElements(seg[..i], sel);
    OnlyDistinct(seg[..i], sel);
    DistinctConcat(s, p);
    ElementsConcat(s, p);
    forall x | x in s
      ensures x in seg && x !in [end] + k && x !in p && x !in seg[i..]
    {
      assert x in Elements(s) && x in Elements(seg[..i]);
      assert x in k ==> x in Elements(k);
    }
    forall x | x in k || x in p
      ensures x in seg
    {
      assert x in Elements(k) || x in Elements(p);
      assert x in Elements(seg[..i]);
    }
  }

  /** Another element that belongs to the run. */
  lemma HalfwayTake(end: CyclicAtime, seg: seq<CyclicAtime>, i: nat, sel: set<CyclicAtime>,
                    k: seq<CyclicAtime>, p: seq<CyclicAtime>, s: seq<CyclicAtime>)
    requires Halfway(end, seg, i, sel, k, p, s) && i < |seg| && seg[i] in sel
    ensures Halfway(end, seg, i + 1, sel, k, p + [seg[i]], s)
  {
    assert seg[..i + 1] == seg[..i] + [seg[i]];
    OnlyStep(seg[..i], seg[i], sel);
    assert Except(seg[..i], sel) + [] == Except(seg[..i], sel);
    assert s + (p + [seg[i]]) == s + p + [seg[i]];
    assert [end] + k + p + seg[i..] == [end] + k + (p + [seg[i]]) + seg[i + 1..];
  }

  /** An element that stays, when nothing is to be cut out before it. */
  lemma HalfwayKeep(end: CyclicAtime, seg: seq<CyclicAtime>, i: nat, sel: set<CyclicAtime>,
                    k: seq<CyclicAtime>, s: seq<CyclicAtime>)
    requires Halfway(end, seg, i, sel, k, [], s) && i < |seg| && seg[i] !in sel
    ensures Halfway(end, seg, i + 1, sel, k + [seg[i]], [], s)
  {
    assert seg[..i + 1] == seg[..i] + [seg[i]];
    OnlyStep(seg[..i], seg[i], sel);
    assert Only(seg[..i], sel) + [] == Only(seg[..i], sel);
    assert [end] + k + [] + seg[i..] == [end] + (k + [seg[i]]) + [] + seg[i + 1..];
  }

  /** The run has been cut out. */
  lemma HalfwayCut(end: CyclicAtime, seg: seq<CyclicAtime>, i: nat, sel: set<CyclicAtime>,
                   k: seq<CyclicAtime>, p: seq<CyclicAtime>, s: seq<CyclicAtime>)
    requires i <= |seg| && Distinct([end] + seg)
    requires k == Except(seg[..i], sel) && s + p == Only(seg[..i], sel)
    requires Cycle([end] + k + seg[i..]) && Path(s + p) && (s + p != [] ==> Within((s + p)[0].prev, end, seg, sel))
    ensures Halfway(end, seg, i, sel, k, [], s + p)
  {
    assert [end] + k + [] + seg[i..] == [end] + k + seg[i..];
    assert s + p + [] == s + p;
  }

  /** The element after the one that was dealt with last. */
  lemma HalfwayNext(end: CyclicAtime, seg: seq<CyclicAtime>, i: nat, sel: set<CyclicAtime>,
                    k: seq<CyclicAtime>, p: seq<CyclicAtime>, s: seq<CyclicAtime>, last: CyclicAtime)
    requires Halfway(end, seg, i, sel, k, p, s) && last == ([end] + k + p)[|k| + |p|]
    ensures last.next == At(end, seg, i)
  {
    PathSplit([end] + k + p, seg[i..]);
    if i == |seg| {
      assert [end] + k + p + seg[i..] == [end] + k + p;
    }
  }

  /** Everything has been dealt with. */
  lemma HalfwayDone(end: CyclicAtime, seg: seq<CyclicAtime>, sel: set<CyclicAtime>,
                    k: seq<CyclicAtime>, s: seq<CyclicAtime>, rest: seq<CyclicAtime>)
    requires Halfway(end, seg, |seg|, sel, k, [], s) && Distinct(seg + rest)
    ensures k == Except(seg, sel) && s == Only(seg, sel) && Cycle([end] + k) && Distinct(k + rest) && Path(s)
    ensures forall x :: x in k ==> x in seg
    ensures forall x :: x in s ==> x !in k && x !in rest
    ensures s != [] ==> Within(s[0].prev, end, seg, sel)
  {
    HalfwayApart(end, seg, |seg|, sel, k, [], s);
    Inside(s, seg);
    assert forall x :: x in k ==> x in [end] + k;
    assert seg[..|seg|] == seg && s + [] == s && [end] + k + [] + seg[|seg|..] == [end] + k;
    OnlyElements(seg, sel);
    DistinctConcat(seg, rest);
    OnlyDistinct(seg, sel);
    Inside(k, seg);
    DistinctConcat(k, rest);
  }

  /** The run is cut out in front of cur; the rest of the ring is not touched. */
  method CutSelected(cur: CyclicAtime, sepaStart: CyclicAtime, was: Chain, ghost end: CyclicAtime, ghost seg: seq<CyclicAtime>,
                     ghost i: nat, ghost sel: set<CyclicAtime>, ghost k: seq<CyclicAtime>, ghost p: seq<CyclicAtime>,
                     ghost s: seq<CyclicAtime>, ghost rest: seq<CyclicAtime>)
      returns (separated: Chain)
    requires Halfway(end, seg, i, sel, k, p, s) && p != [] && sepaStart == p[0] && was == ChainOf(s)
    requires cur == At(end, seg, i) && Path(rest) && forall x :: x in rest ==> x !in [end] + seg
    modifies {end}`next, {end}`prev, seg`next, seg`prev
    ensures Halfway(end, seg, i, sel, k, [], s + p) && separated == ChainOf(s + p)
    ensures Path(rest)
  {
    hide Cycle, Path, Distinct, Only, Except, Within;
    HalfwayApart(end, seg, i, sel, k, p, s);
    FirstWithin(end, seg, i, sel, k, p, s);
    SliceInside(seg, i);
    ElementsConcat([end], k);
    assert Elements([end]) == {end};
    separated := CutRun(cur, sepaStart, was, [end] + k, p, seg[i..], s, {end} + Elements(seg));
    HalfwayCut(end, seg, i, sel, k, p, s);
    Apart(rest, [end] + seg);
    Untouched(rest, [end] + seg);
    ArcKept(rest);
  }

  lemma FirstWithin(end: CyclicAtime, seg: seq<CyclicAtime>, i: nat, sel: set<CyclicAtime>,
                    k: seq<CyclicAtime>, p: seq<CyclicAtime>, s: seq<CyclicAtime>)
    requires Halfway(end, seg, i, sel, k, p, s) && p != []
    ensures Within((s + p)[0].prev, end, seg, sel)
  {
    hide Cycle, Path, Distinct;
    HalfwayApart(end, seg, i, sel, k, p, s);
    ThreeArcs([end] + k, p, seg[i..]);
    OnlyElements(seg[..i], sel);
    assert k != [] ==> k[|k| - 1] in Elements(k);
  }

  lemma SliceInside(s: seq<CyclicAtime>, i: nat)
    requires i <= |s|
    ensures Elements(s[i..]) <= Elements(s)
  {
  }

  /** A run that is apart from all that has been touched. */
  twostate lemma Untouched(s: seq<CyclicAtime>, new t: seq<CyclicAtime>)
    requires forall i, j :: 0 <= i < |s| && 0 <= j < |t| ==> s[i] != t[j]
    requires forall i :: 0 <= i < |s| && s[i] !in t ==> s[i].next == old(s[i].next) && s[i].prev == old(s[i].prev)
    ensures InnerKept(s)
  {
    forall i | 0 <= i < |s|
      ensures s[i] !in t
    {
    }
  }

  lemma Inside(a: seq<CyclicAtime>, b: seq<CyclicAtime>)
    requires Elements(a) <= Elements(b)
    ensures forall x :: x in a ==> x in b
  {
    forall x | x in a
      ensures x in b
    {
      assert x in Elements(a);
    }
  }

  /** The sentinel closes the run to a ring of its own. */
  method Close(toFilter: Chain, end: CyclicAtime, ghost seg: seq<CyclicAtime>, ghost rest: seq<CyclicAtime>, ghost sel: set<CyclicAtime>)
    requires seg != [] && Cycle(seg + rest) && toFilter == ChainOf(seg) && end !in seg && end !in rest
    modifies {end}`next, {end}`prev, seg`next, seg`prev
    ensures Halfway(end, seg, 0, sel, [], [], []) && Path(rest)
  {
    CycleArcsOrAll(seg, rest);
    Apart(seg, rest);
    Connect(toFilter.to, end);
    Connect(end, toFilter.from);
    ArcKept(seg);
    ArcKept(rest);
    DistinctConcat([end], seg);
    PathJoin([end], seg);
    assert [end] + [] + [] + seg[0..] == [end] + seg;
  }

  lemma CycleArcsOrAll(seg: seq<CyclicAtime>, rest: seq<CyclicAtime>)
    requires seg != [] && Cycle(seg + rest)
    ensures Path(seg) && Path(rest) && Distinct(seg) && Distinct(rest) && Distinct(seg + rest)
    ensures forall x :: x in seg ==> x !in rest
    ensures seg[|seg| - 1].next == seg[0] <==> rest == []
    ensures seg[0].prev == (seg + rest)[|seg + rest| - 1] && seg[|seg| - 1].next == (if rest == [] then seg[0] else rest[0])
  {
    PathSplit(seg, rest);
    DistinctConcat(seg, rest);
    if rest == [] { assert seg + rest == seg; } else { assert seg[0] in seg && rest[0] in rest; }
  }

  /** Without the sentinel, what was kept goes back between the two ends of the rest. */
  method Reopen(kept: Chain, before: CyclicAtime, after: CyclicAtime, cyclic: bool, ghost end: CyclicAtime,
                ghost k: seq<CyclicAtime>, ghost rest: seq<CyclicAtime>, ghost all: set<CyclicAtime>)
    requires Elements(k) + Elements(rest) <= all
    requires Cycle([end] + k) && Path(rest) && Distinct(k + rest) && kept == ChainOf(k)
    requires cyclic == (rest == []) && (rest != [] ==> before == rest[|rest| - 1] && after == rest[0])
    modifies all`next, all`prev
    ensures k + rest != [] ==> Cycle(k + rest)
  {
    assert k != [] ==> k[0] in Elements(k) && k[|k| - 1] in Elements(k);
    assert rest != [] ==> rest[0] in Elements(rest) && rest[|rest| - 1] in Elements(rest);
    PathSplit([end], k);
    DistinctConcat(k, rest);
    Apart(k, rest);
    hide Cycle;
    if kept.to != null {
      if !cyclic {
        Connect(before, kept.from);
        Connect(kept.to, after);
        assert (k + rest)[..|k|] == k && (k + rest)[|k|..] == rest;
        Inserted(k + rest, |k|);
      } else {
        Connect(kept.to, kept.from);
        ArcKept(k);
        assert k + rest == k;
        Ringed(k);
      }
    } else {
      if !cyclic {
        Connect(before, after);
        ArcKept(rest);
        assert k + rest == rest;
        Ringed(rest);
      }
    }
  }

  lemma Ringed(s: seq<CyclicAtime>)
    requires s != [] && Distinct(s) && Path(s) && Joined(s[|s| - 1], s[0])
    ensures Cycle(s)
  {
  }

  /** The scan of filterChain has come to cur: where its cursors stand. */
  ghost predicate Scanning(end: CyclicAtime, seg: seq<CyclicAtime>, rest: seq<CyclicAtime>, i: nat, sel: set<CyclicAtime>,
                           k: seq<CyclicAtime>, p: seq<CyclicAtime>, s: seq<CyclicAtime>,
                           cur: CyclicAtime, sepaStart: CyclicAtime?, valid: Chain, separated: Chain)
    reads {end}`next, {end}`prev, seg`next, seg`prev, k`next, k`prev, p`next, p`prev, s`next, s`prev, rest`next, rest`prev
  {
    && i <= |seg| && Halfway(end, seg, i, sel, k, p, s) && Path(rest)
    && cur == At(end, seg, i) && sepaStart == (if p == [] then null else p[0])
    && separated == ChainOf(s) && valid == ChainOf(k)
  }

  /** One element of the run is looked at. */
  method ScanOne(cur: CyclicAtime, sepaStart: CyclicAtime?, valid: Chain, separated: Chain, statuses: seq<MemoryStatus>, flag: Flag,
                 ghost end: CyclicAtime, ghost seg: seq<CyclicAtime>, ghost rest: seq<CyclicAtime>, ghost i: nat,
                 ghost sel: set<CyclicAtime>, ghost k: seq<CyclicAtime>, ghost p: seq<CyclicAtime>, ghost s: seq<CyclicAtime>)
      returns (next: CyclicAtime, sepaStart': CyclicAtime?, valid': Chain, separated': Chain,
               ghost k': seq<CyclicAtime>, ghost p': seq<CyclicAtime>, ghost s': seq<CyclicAtime>)
    requires Scanning(end, seg, rest, i, sel, k, p, s, cur, sepaStart, valid, separated) && cur != end
    requires sel == Separated(seg, statuses, flag) && forall x :: x in rest ==> x !in [end] + seg
    modifies {end}`next, {end}`prev, seg`next, seg`prev
    ensures i < |seg| && Scanning(end, seg, rest, i + 1, sel, k', p', s', next, sepaStart', valid', separated')
  {
    hide Cycle, Path, Distinct, Only, Except, Halfway;
    sepaStart', valid', separated', k', p', s' := sepaStart, valid, separated, k, p, s;
    var separateThis := SeparateThis(cur.chunk, statuses, flag);
    if separateThis {
      if sepaStart == null {
        sepaStart' := cur;
      }
      HalfwayTake(end, seg, i, sel, k, p, s);
      p' := p + [cur];
    } else {
      valid' := Chain(if valid.from == null then cur else valid.from, cur);
      if sepaStart != null {
        separated' := CutSelected(cur, sepaStart, separated, end, seg, i, sel, k, p, s, rest);
        s', p' := s + p, [];
        sepaStart' := null;
      }
      HalfwayKeep(end, seg, i, sel, k, s');
      k' := k + [cur];
    }
    HalfwayNext(end, seg, i + 1, sel, k', p', s', cur);
    next := cur.next;
  }

  lemma ScanEnds(end: CyclicAtime, seg: seq<CyclicAtime>, i: nat)
    requires i <= |seg| && Distinct([end] + seg)
    ensures At(end, seg, i) == end ==> i == |seg|
  {
    assert i < |seg| ==> ([end] + seg)[0] != ([end] + seg)[i + 1];
  }

  /**
   filterChain: the run seg of the ring is divided, in place and in order, into the elements that are selected and those
   that are not. The latter stay where they are, the rest of the ring is left alone, the former come out as a run of their own.
   */
  method FilterChain(toFilter: Chain, statuses: seq<MemoryStatus>, flag: Flag, ghost seg: seq<CyclicAtime>, ghost rest: seq<CyclicAtime>)
      returns (remaining: Chain, separated: Chain)
    requires seg != [] && Cycle(seg + rest) && toFilter == ChainOf(seg)
    modifies seg`next, seg`prev, rest`next, rest`prev
    ensures var sel := old(Separated(seg, statuses, flag));
            && remaining == ChainOf(Except(seg, sel)) && separated == ChainOf(Only(seg, sel)) && Path(Only(seg, sel))
            && (Except(seg, sel) + rest != [] ==> Cycle(Except(seg, sel) + rest))
            && (Only(seg, sel) != [] ==> fresh(Only(seg, sel)[0].prev) || (Only(seg, sel)[0].prev in seg && Only(seg, sel)[0].prev !in sel))
  {
    hide Cycle, Path, Distinct, Only, Except, Halfway;
    ghost var sel := Separated(seg, statuses, flag);
    CycleArcsOrAll(seg, rest);
    var cur: CyclicAtime := toFilter.from;
    var sepaStart: CyclicAtime? := null;
    separated := Chain(null, null);
    var end := new CyclicAtime(toFilter.from.chunk);
    var after := toFilter.to.next;
    var before := toFilter.from.prev;
    var cyclic := after == toFilter.from;
    var valid := Chain(null, null);
    Close(toFilter, end, seg, rest, sel);
    assert forall x :: x in rest ==> x !in [end] + seg;
    ghost var i, k: seq<CyclicAtime>, p: seq<CyclicAtime>, s: seq<CyclicAtime> := 0, [], [], [];
    while cur != end
      invariant Scanning(end, seg, rest, i, sel, k, p, s, cur, sepaStart, valid, separated)
      decreases |seg| - i
    {
      cur, sepaStart, valid, separated, k, p, s :=
        ScanOne(cur, sepaStart, valid, separated, statuses, flag, end, seg, rest, i, sel, k, p, s);
      i := i + 1;
    }
    ScanEnds(end, seg, i);
    if sepaStart != null {
      separated := CutSelected(cur, sepaStart, separated, end, seg, i, sel, k, p, s, rest);
      s, p := s + p, [];
    }
    HalfwayDone(end, seg, sel, k, s, rest);
    Finish(valid, before, after, cyclic, end, k, s, rest, Elements(k) + Elements(rest));
    remaining := valid;
  }

  /** The rest is closed to a ring again; what has been cut out is left alone. */
  method Finish(kept: Chain, before: CyclicAtime, after: CyclicAtime, cyclic: bool, ghost end: CyclicAtime,
                ghost k: seq<CyclicAtime>, ghost s: seq<CyclicAtime>, ghost rest: seq<CyclicAtime>, ghost all: set<CyclicAtime>)
    requires all == Elements(k) + Elements(rest)
    requires Cycle([end] + k) && Path(rest) && Distinct(k + rest) && kept == ChainOf(k) && Path(s)
    requires cyclic == (rest == []) && (rest != [] ==> before == rest[|rest| - 1] && after == rest[0])
    requires forall x :: x in s ==> x !in k && x !in rest
    modifies all`next, all`prev
    ensures (k + rest != [] ==> Cycle(k + rest)) && Path(s) && (s != [] ==> s[0].prev == old(s[0].prev))
  {
    hide Cycle, Path, Distinct;
    assert forall x :: x in s ==> x !in all;
    label L:
    Reopen(kept, before, after, cyclic, end, k, rest, all);
    ArcKept@L(s);
  }
}
