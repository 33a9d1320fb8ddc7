/** cyclicManagedMemory::swapIn with reading ahead, on the ring: select, load, sort what has come in to where it belongs. */
module ReadingAhead {
  import opened ChunkStatus
  import opened Ring
  import opened Sections
  import opened Scheduler
  import opened Filtering
  import opened Unloading
  import opened SwappingOut
  import opened SwapOutOrder
  import opened Decaying
  import opened SwappingIn
  import opened AheadOrder

  // ---------------------------------------------------------------- putting back what has come in

  const JUST_SWAPPED_IN: seq<MemoryStatus> := [SwapIn, Allocated, InUseRead, InUseWrite]

  ghost function ComeIn(s: seq<CyclicAtime>): set<CyclicAtime>
    reads ChunksOf(s)`status, ChunksOf(s)`preemptiveLoaded
  {
    Separated(s, JUST_SWAPPED_IN, Ignored)
  }

  lemma ComeInIs(s: seq<CyclicAtime>)
    ensures forall e :: e in s ==> (e in ComeIn(s) <==> !e.chunk.status.Out())
  {
  }

  /** The positions in the run t from j on form a ring of their own. */
  lemma InnerRing(t: seq<CyclicAtime>, j: nat)
    requires j < |t| && Distinct(t) && Path(t[j..]) && Joined(Last(t), t[j])
    ensures Cycle(t[j..])
  {
    assert t == t[..j] + t[j..];
    DistinctConcat(t[..j], t[j..]);
  }

  /** The ring read from pos, where it ends, and that it is apart from t. */
  lemma FromBase(base: seq<CyclicAtime>, pos: CyclicAtime, t: seq<CyclicAtime>)
    requires Cycle(base) && pos in base && Distinct(base + t)
    ensures var s := From(base, pos);
            && s != [] && s[0] == pos && Cycle(s) && Path(s) && pos.prev == Last(s) && Distinct(s + t) && Elements(s) == Elements(base)
            && forall x :: x in s ==> x !in t
  {
    hide Cycle, Path, Distinct, From;
    FromCycle(base, pos);
    FromApart(base, pos, t);
    CycleLinks(From(base, pos));
    DistinctConcat(From(base, pos), t);
  }

  lemma CycleLinks(s: seq<CyclicAtime>)
    requires Cycle(s)
    ensures s != [] && Path(s) && s[0].prev == Last(s)
  {
  }

  /** insertBefore. In front of the first element of the ring s this gives one ring; at position j inside the run itself the run
      is closed from there on to a ring of its own. */
  method InsertAnywhere(pos: CyclicAtime, separated: Chain, ghost outside: bool, ghost s: seq<CyclicAtime>, ghost t: seq<CyclicAtime>,
                        ghost j: nat, ghost all: set<CyclicAtime>)
    requires Path(t) && t != [] && Distinct(s + t) && separated == ChainOf(t)
    requires outside ==> Cycle(s) && s[0] == pos
    requires !outside ==> j + 1 < |t| && t[j] == pos && (j == 0 ==> pos.prev !in t)
    requires Elements(s) + Elements(t) <= all && pos.prev in all
    modifies all`next, all`prev
    ensures outside ==> Cycle(s + t)
    ensures !outside ==> Cycle(t[j..])
  {
    hide Path, Cycle, Distinct;
    DistinctConcat(s, t);
    assert t[0] in Elements(t) && Last(t) in Elements(t);
    assert !outside ==> pos in Elements(t);
    if outside {
      CycleLinks(s);
      TwoParts(s, t);
      assert pos in Elements(s) && Last(s) in Elements(s);
    } else {
      PathBack(t, j);
    }
    AllApart(s + t);
    AllApart(t);
    var before := pos.prev;
    var after := pos;
    label L:
    Connect(before, separated.from);
    Connect(separated.to, after);
    if outside {
      JoinedOutside@L(s + t, |s|);
    } else {
      JoinedInside@L(t, j);
    }
  }

  lemma PathBack(t: seq<CyclicAtime>, j: nat)
    requires Path(t) && j < |t|
    ensures j > 0 ==> t[j].prev == t[j - 1]
  {
    assert j > 0 ==> Joined(t[j - 1], t[j]);
  }

  lemma AllApart(s: seq<CyclicAtime>)
    requires Distinct(s)
    ensures forall i, j {:trigger s[i], s[j]} :: 0 <= i < |s| && 0 <= j < |s| && s[i] == s[j] ==> i == j
  {
  }

  /** Two arcs, the second put in behind the first. */
  twostate lemma JoinedOutside(w: seq<CyclicAtime>, new n: nat)
    requires 0 < n < |w| && Distinct(w) && old(Path(w[..n])) && old(Path(w[n..]))
    requires Joined(w[n - 1], w[n]) && Joined(w[|w| - 1], w[0])
    requires forall i {:trigger w[i]} :: 0 <= i < |w| && i != n - 1 && i != |w| - 1 ==> w[i].next == old(w[i].next)
    requires forall i {:trigger w[i]} :: 0 <= i < |w| && i != 0 && i != n ==> w[i].prev == old(w[i].prev)
    ensures Cycle(w)
  {
    hide Cycle, Path, Distinct;
    Filtering.Inserted(w, n);
  }

  twostate lemma JoinedInside(t: seq<CyclicAtime>, new j: nat)
    requires j + 1 < |t| && Distinct(t) && old(Path(t)) && Joined(Last(t), t[j])
    requires forall i {:trigger t[i]} :: j <= i < |t| - 1 ==> t[i].next == old(t[i].next)
    requires forall i {:trigger t[i]} :: j < i < |t| ==> t[i].prev == old(t[i].prev)
    ensures Cycle(t[j..])
  {
    hide Cycle, Path;
    OldPathFrom(t, j);
    forall q, p {:trigger t[j..][q], t[j..][p]} | 0 <= q && p == q + 1 && p < |t[j..]|
      ensures t[j..][q].next == old(t[j..][q].next) && t[j..][p].prev == old(t[j..][p].prev)
    {
      assert t[j..][q] == t[j + q] && t[j..][p] == t[j + p];
    }
    ArcKept(t[j..]);
    InnerRing(t, j);
  }

  twostate lemma OldPathFrom(t: seq<CyclicAtime>, new j: nat)
    requires old(Path(t)) && j < |t|
    ensures old(Path(t[j..]))
  {
    forall q, p {:trigger t[j..][q], t[j..][p]} | 0 <= q && p == q + 1 && p < |t[j..]|
      ensures old(Joined(t[j..][q], t[j..][p]))
    {
      assert t[j..][q] == t[j + q] && t[j..][p] == t[j + p];
    }
  }

  lemma FromApart(base: seq<CyclicAtime>, pos: CyclicAtime, t: seq<CyclicAtime>)
    requires Distinct(base + t) && pos in base
    ensures Distinct(From(base, pos) + t) && Elements(From(base, pos)) == Elements(base)
  {
    var i := IndexOf(base, pos);
    assert base == base[..i] + base[i..];
    DistinctConcat(base, t);
    DistinctConcat(base[..i], base[i..]);
    DistinctConcat(base[i..], base[..i]);
    ElementsConcat(base[..i], base[i..]);
    ElementsConcat(base[i..], base[..i]);
    assert forall x :: x in From(base, pos) <==> x in base;
    DistinctConcat(From(base, pos), t);
  }

  ghost function NewStart(was: CyclicAtime?, gone: seq<CyclicAtime>): CyclicAtime?
    requires gone != []
    reads gone[0].chunk`preemptiveLoaded
  {
    if was != null then was else if gone[0].chunk.preemptiveLoaded then gone[0] else null
  }

  /** Where active stands when the requested chunk is taken out. */
  ghost function Aside(was: CyclicAtime, element: CyclicAtime, seg: seq<CyclicAtime>, rest: seq<CyclicAtime>): CyclicAtime
    requires seg != []
  {
    if was == element then (rest + seg)[0] else was
  }

  lemma RequestedLast(seg: seq<CyclicAtime>, sel: set<CyclicAtime>)
    requires seg != [] && Last(seg) in sel
    ensures Only(seg, sel) != [] && Last(Only(seg, sel)) == Last(seg)
  {
    assert seg == seg[..|seg| - 1] + [Last(seg)];
    OnlyStep(seg[..|seg| - 1], Last(seg), sel);
  }

  /** What is known of the pieces before anything is moved. */
  lemma PiecesReady(seg: seq<CyclicAtime>, rest: seq<CyclicAtime>, sel: set<CyclicAtime>, was: CyclicAtime)
    requires Cycle(seg + rest) && seg != [] && Last(seg) in sel && was in seg + rest
    ensures var kept, gone, a := Except(seg, sel), Only(seg, sel), Aside(was, Last(seg), seg, rest);
            && Last(seg).next == (rest + seg)[0] && (Last(seg).next == seg[0] <==> rest == [])
            && gone != [] && Last(gone) == Last(seg) && Distinct(kept + rest + gone) && Distinct(kept + gone) && Distinct(gone)
            && Elements(kept + rest) + Elements(gone) == Elements(seg + rest)
            && (rest != [] && a !in gone ==> a in kept + rest)
            && (rest != [] && a in gone ==> a == was && a != Last(gone))
            && (forall x :: x in gone ==> x in sel) && (forall x :: x in seg ==> x in Elements(seg + rest))
            && (forall x :: x in rest ==> x in Elements(seg + rest))
  {
    hide Cycle, Only, Except;
    RingParts(seg, rest);
    RequestedLast(seg, sel);
    OnlyElements(seg, sel);
    OnlyDistinct(seg, sel);
    var kept, gone := Except(seg, sel), Only(seg, sel);
    PiecesDistinct(seg, rest, sel);
    DistinctConcat(rest + kept, gone);
    DistinctConcat(rest, kept);
    DistinctConcat(kept, rest);
    DistinctConcat(kept + rest, gone);
    DistinctConcat(kept, gone);
    ElementsConcat(kept, rest);
    ElementsConcat(seg, rest);
    assert forall x :: x in gone <==> x in Elements(gone);
    assert forall x :: x in kept <==> x in Elements(kept);
    assert Elements(kept + rest) + Elements(gone) == Elements(seg + rest);
    assert rest != [] && was in gone ==> was != Last(seg) || Aside(was, Last(seg), seg, rest) in rest;
    assert rest != [] ==> rest[0] in rest;
  }

  lemma RingParts(seg: seq<CyclicAtime>, rest: seq<CyclicAtime>)
    requires Cycle(seg + rest) && seg != []
    ensures Distinct(seg + rest) && Distinct(seg) && Last(seg).next == (rest + seg)[0] && (Last(seg).next == seg[0] <==> rest == [])
    ensures forall x :: x in seg ==> x !in rest
  {
    CycleArcsOrAll(seg, rest);
  }

  method PutInFront(pos: CyclicAtime, filtered: Chain, ghost base: seq<CyclicAtime>, ghost gone: seq<CyclicAtime>, ghost all: set<CyclicAtime>)
      returns (ghost j: nat)
    requires Cycle(base) && Path(gone) && gone != [] && Distinct(base + gone) && filtered == ChainOf(gone)
    requires pos in base || (pos in gone && pos != Last(gone))
    requires gone[0].prev !in gone && gone[0].prev in all && Elements(base) + Elements(gone) <= all
    modifies all`next, all`prev
    ensures pos in base ==> Cycle(From(base, pos) + gone)
    ensures pos in gone ==> j + 1 < |gone| && gone[j] == pos && Cycle(gone[j..])
  {
    hide Cycle, Path, Distinct, From;
    DistinctConcat(base, gone);
    j := 0;
    ghost var outside, s := pos in base, base;
    if outside {
      FromBase(base, pos, gone);
      s := From(base, pos);
      assert Last(s) in Elements(s);
    } else {
      j := FindInside(gone, pos);
      PathBack(gone, j);
      assert j > 0 ==> gone[j - 1] in Elements(gone);
    }
    InsertAnywhere(pos, filtered, outside, s, gone, j, all);
  }

  /** The end of swapIn, but for touch: what has come in is taken out of the run and put in front of active. If active has come in
      itself, is not the requested chunk, and is not in a run of the whole ring, what has come in from there on becomes a ring
      of its own. */
  method Reinsert(m: CyclicManagedMemory, readEl: CyclicAtime, element: CyclicAtime, activeInList: bool,
                  ghost seg: seq<CyclicAtime>, ghost rest: seq<CyclicAtime>, ghost sel: set<CyclicAtime>)
      returns (ghost j: nat)
    requires Cycle(seg + rest) && seg != [] && readEl == seg[0] && element == Last(seg) && m.active in seg + rest
    requires sel == ComeIn(seg) && element in sel && (m.active == element ==> activeInList)
    modifies Elements(seg + rest)`next, Elements(seg + rest)`prev, m`active, m`counterActive, m`preemptiveStart
    ensures var kept, gone, a := Except(seg, sel), Only(seg, sel), Aside(old(m.active), element, seg, rest);
            && gone != [] && m.active == a && m.preemptiveStart == NewStart(old(m.preemptiveStart), gone)
            && m.counterActive == (if rest == [] then readEl else old(m.counterActive))
            && (rest == [] ==> Cycle(kept + gone))
            && (rest != [] && a !in gone ==> a in kept + rest && Cycle(From(kept + rest, a) + gone))
            && (rest != [] && a in gone ==> j + 1 < |gone| && gone[j] == a && Cycle(gone[j..]) && Last(gone) == element)
  {
    hide Cycle, Path, Distinct, Only, Except, From;
    ghost var kept, gone, all := Except(seg, sel), Only(seg, sel), Elements(seg + rest);
    PiecesReady(seg, rest, sel, m.active);
    j := 0;
    if activeInList {
      if m.active == element {
        m.active := m.active.next;
      }
    }
    var after := element.next;
    var cyclic := after == readEl;
    var remaining, filtered := FilterChain(Chain(readEl, element), JUST_SWAPPED_IN, Ignored, seg, rest);
    if m.preemptiveStart == null {
      m.preemptiveStart := filtered.from;
      if m.preemptiveStart != null && !m.preemptiveStart.chunk.preemptiveLoaded {
        m.preemptiveStart := null;
      }
    }
    j := PutLoaded(m, readEl, remaining, filtered, cyclic, kept, rest, gone, all + {gone[0].prev});
  }

  method PutLoaded(m: CyclicManagedMemory, readEl: CyclicAtime, remaining: Chain, filtered: Chain, cyclic: bool,
                   ghost kept: seq<CyclicAtime>, ghost rest: seq<CyclicAtime>, ghost gone: seq<CyclicAtime>, ghost all: set<CyclicAtime>)
      returns (ghost j: nat)
    requires kept + rest != [] ==> Cycle(kept + rest)
    requires Path(gone) && gone != [] && Distinct(kept + rest + gone) && remaining == ChainOf(kept) && filtered == ChainOf(gone)
    requires cyclic <==> rest == []
    requires rest != [] ==> m.active in kept + rest || (m.active in gone && m.active != Last(gone))
    requires gone[0].prev !in gone && gone[0].prev in all && Elements(kept + rest) + Elements(gone) <= all
    modifies all`next, all`prev, m`counterActive
    ensures m.counterActive == if rest == [] then readEl else old(m.counterActive)
    ensures rest == [] ==> Cycle(kept + gone)
    ensures rest != [] && m.active in kept + rest ==> Cycle(From(kept + rest, m.active) + gone)
    ensures rest != [] && m.active in gone ==> j + 1 < |gone| && gone[j] == m.active && Cycle(gone[j..])
  {
    hide Cycle, Path, Distinct, From;
    j := 0;
    if !cyclic {
      TwoParts(kept, rest);
      j := PutInFront(m.active, filtered, kept + rest, gone, all);
    } else {
      assert kept + rest == kept;
      m.counterActive := readEl;
      CloseWhole(remaining, filtered, kept, gone, all);
    }
  }

  lemma FindInside(t: seq<CyclicAtime>, x: CyclicAtime?) returns (j: nat)
    requires x in t && Last(t) != x
    ensures j + 1 < |t| && t[j] == x
  {
    j :| 0 <= j < |t| && t[j] == x;
  }

  /** The run was the whole ring: what has come in goes behind what has not. */
  method CloseWhole(remaining: Chain, filtered: Chain, ghost kept: seq<CyclicAtime>, ghost gone: seq<CyclicAtime>, ghost all: set<CyclicAtime>)
    requires kept != [] ==> Cycle(kept)
    requires Path(gone) && gone != [] && Distinct(kept + gone) && remaining == ChainOf(kept) && filtered == ChainOf(gone)
    requires Elements(kept) + Elements(gone) <= all
    modifies all`next, all`prev
    ensures Cycle(kept + gone)
  {
    hide Cycle, Path, Distinct;
    if remaining.from != null {
      SpliceIn(remaining.from, filtered, kept, gone, all);
    } else {
      assert kept + gone == gone;
      CloseGone(filtered, gone, all);
    }
  }

  /** The run is not the whole ring, and active, which is not the requested chunk, has come in with it. */
  ghost predicate Torn(was: CyclicAtime, seg: seq<CyclicAtime>, rest: seq<CyclicAtime>, sel: set<CyclicAtime>) {
    rest != [] && seg != [] && was != Last(seg) && was in Only(seg, sel)
  }

  /** The ring afterwards. */
  ghost function Resorted(seg: seq<CyclicAtime>, rest: seq<CyclicAtime>, sel: set<CyclicAtime>, a: CyclicAtime): seq<CyclicAtime> {
    var kept, gone := Except(seg, sel), Only(seg, sel);
    if rest == [] then kept + gone
    else if a in kept + rest then From(kept + rest, a) + gone
    else []
  }

  lemma ResortedElements(seg: seq<CyclicAtime>, rest: seq<CyclicAtime>, sel: set<CyclicAtime>, was: CyclicAtime)
    requires Cycle(seg + rest) && seg != [] && Last(seg) in sel && was in seg + rest && !Torn(was, seg, rest, sel)
    ensures var a := Aside(was, Last(seg), seg, rest);
            var t := Resorted(seg, rest, sel, a);
            && t != [] && Elements(t) == Elements(seg + rest) && a in t && (forall x :: x in t <==> x in seg + rest)
            && (rest != [] ==> a in Except(seg, sel) + rest && a !in Only(seg, sel) && t[0] == a)
            && Only(seg, sel) != [] && Only(seg, sel)[0] in t
  {
    hide Cycle, Only, Except, From, Distinct;
    PiecesReady(seg, rest, sel, was);
    var a, kept, gone := Aside(was, Last(seg), seg, rest), Except(seg, sel), Only(seg, sel);
    var t := Resorted(seg, rest, sel, a);
    if rest == [] {
      assert kept + rest == kept && rest + seg == seg;
      ElementsConcat(kept, gone);
      assert a in seg + rest;
    } else {
      FromApart(kept + rest, a, gone);
      ElementsConcat(From(kept + rest, a), gone);
    }
    assert gone[0] in Elements(gone);
    Inside(t, seg + rest);
    Inside(seg + rest, t);
  }

  /** What has come in has been put back, and the ring is read again; or active has been torn out of it. */
  method InsertAndRead(m: CyclicManagedMemory, readEl: CyclicAtime, element: CyclicAtime, activeInList: bool,
                       ghost seg: seq<CyclicAtime>, ghost rest: seq<CyclicAtime>, ghost sel: set<CyclicAtime>)
      returns (ghost j: nat)
    requires Cycle(seg + rest) && OwnChunks(seg + rest) && seg != [] && readEl == seg[0] && element == Last(seg)
    requires m.active in seg + rest && m.counterActive in seg + rest && (m.preemptiveStart != null ==> m.preemptiveStart in seg + rest)
    requires sel == ComeIn(seg) && element in sel && (m.active == element ==> activeInList)
    modifies Elements(seg + rest)`next, Elements(seg + rest)`prev, m`active, m`counterActive, m`preemptiveStart, m`ring, m`counterAt, m`startAt
    ensures Only(seg, sel) != []
    ensures var gone, a := Only(seg, sel), Aside(old(m.active), element, seg, rest);
            && m.active == a && m.preemptiveStart == NewStart(old(m.preemptiveStart), gone)
            && m.counterActive == if rest == [] then readEl else old(m.counterActive)
    ensures !Torn(old(m.active), seg, rest, sel) ==>
              var a := Aside(old(m.active), element, seg, rest);
              && a in Resorted(seg, rest, sel, a) && m.Valid() && m.ring == From(Resorted(seg, rest, sel, a), a)
              && (forall x :: x in m.ring <==> x in seg + rest)
    ensures Torn(old(m.active), seg, rest, sel) ==>
              var gone := Only(seg, sel); j + 1 < |gone| && gone[j] == old(m.active) && Cycle(gone[j..]) && Last(gone) == element
  {
    hide Cycle, Path, Distinct, Only, Except, From, OwnChunks, Resorted;
    ghost var was: CyclicAtime := m.active;
    PiecesReady(seg, rest, sel, was);
    if !Torn(was, seg, rest, sel) { ResortedElements(seg, rest, sel, was); }
    label L:
    j := Reinsert(m, readEl, element, activeInList, seg, rest, sel);
    if !Torn(was, seg, rest, sel) {
      ghost var a := Aside(was, element, seg, rest);
      ghost var t := Resorted(seg, rest, sel, a);
      ResortedCycle(seg, rest, sel, was);
      CycleDistinct(t);
      Inside(t, seg + rest);
      OwnChunksOf(seg + rest, t);
      assert readEl in seg + rest;
      Reread(m, t);
    }
  }

  lemma ResortedCycle(seg: seq<CyclicAtime>, rest: seq<CyclicAtime>, sel: set<CyclicAtime>, was: CyclicAtime)
    requires seg != [] && !Torn(was, seg, rest, sel)
    requires var kept, gone, a := Except(seg, sel), Only(seg, sel), Aside(was, Last(seg), seg, rest);
             && (rest == [] ==> Cycle(kept + gone))
             && (rest != [] ==> a in kept + rest && Cycle(From(kept + rest, a) + gone))
    ensures Cycle(Resorted(seg, rest, sel, Aside(was, Last(seg), seg, rest)))
  {
  }

  // ---------------------------------------------------------------- the torn ring

  lemma NextWithin(d: seq<CyclicAtime>, x: CyclicAtime)
    requires Cycle(d) && x in d
    ensures x.next in d
  {
    NextInside(d, x);
  }

  lemma {:induction false} StaysWithin(d: seq<CyclicAtime>, t: seq<CyclicAtime>, k: nat)
    requires Cycle(d) && Cycle(t) && k < |t| && t[0] in d
    ensures t[k] in d
  {
    if k > 0 {
      StaysWithin(d, t, k - 1);
      NextWithin(d, t[k - 1]);
      assert Joined(t[k - 1], t[k]);
    }
  }

  /** A ring of some of the elements leaves no ring of all of them. */
  lemma NoOtherRing(d: seq<CyclicAtime>, all: seq<CyclicAtime>, x: CyclicAtime)
    requires Cycle(d) && x in all && x !in d && forall y :: y in d ==> y in all
    ensures forall q: seq<CyclicAtime> :: Elements(q) == Elements(all) ==> !Cycle(q)
  {
    forall q: seq<CyclicAtime> | Elements(q) == Elements(all) && Cycle(q)
      ensures false
    {
      hide Cycle;
      CycleLinks(d);
      assert d[0] in Elements(all);
      assert d[0] in q;
      FromCycle(q, d[0]);
      var t := From(q, d[0]);
      assert x in Elements(q);
      assert x in q;
      var k :| 0 <= k < |t| && t[k] == x;
      StaysWithin(d, t, k);
      assert false;
    }
  }

  /** touch, when the requested chunk is right in front of active: only cursors and the flag change. */
  method TouchBehind(m: CyclicManagedMemory, element: CyclicAtime)
    requires m.active != null && m.active != element && m.active.prev == element && m.counterActive != null
    modifies m`preemptiveBytes, m`preemptiveStart, m`counterActive, m`active, element.chunk`preemptiveLoaded
  {
    if element.chunk.preemptiveLoaded {
      m.preemptiveBytes := m.preemptiveBytes - element.chunk.size;
      element.chunk.preemptiveLoaded := false;
    }
    if m.preemptiveStart != null && m.preemptiveStart.chunk == element.chunk {
      if m.preemptiveStart.next == m.active {
        m.preemptiveStart := null;
      } else {
        m.preemptiveStart := m.preemptiveStart.next;
      }
    }
    if m.counterActive == element {
      m.counterActive := m.counterActive.prev;
    }
    m.active := element;
    if m.counterActive.chunk.status == Swapped {
      m.counterActive := m.active;
    }
  }

  // ---------------------------------------------------------------- selecting, on the ring read from behind oldBorder

  /** Where position i of the ring is when it is read from behind position b. */
  ghost function FromBorder(n: nat, b: nat, i: nat): nat
    requires b < n && i < n
  {
    if i > b then i - b - 1 else i + n - b - 1
  }

  lemma BorderAt<T>(s: seq<T>, b: nat, i: nat)
    requires b < |s| && i < |s|
    ensures var n, e := |s|, FromBorder(|s|, b, i);
            && e < n == |Turned(s, b)| && Turned(s, b)[e] == s[i] && ToRing(n, b, e) == i && (e == n - 1 <==> i == b)
            && Last(Turned(s, b)) == s[b]
  {
  }

  lemma RunFacts(t: seq<CyclicAtime>, e: nat)
    requires Cycle(t) && e < |t|
    ensures var r := t[..e + 1];
            && Run(r, Last(t)) && Last(r) == t[e] && Last(t).next == r[0] && |r| == e + 1 && (Last(r) == Last(t) <==> e + 1 == |t|)
  {
    var r := t[..e + 1];
    forall q {:trigger r[q]} | 0 < q < |r|
      ensures r[q].prev == r[q - 1]
    {
      assert Joined(t[q - 1], t[q]);
    }
  }

  lemma RunChunks(t: seq<CyclicAtime>, e: nat)
    requires OwnChunks(t) && e < |t|
    ensures OwnChunks(t[..e + 1]) && ChunksOf(t[..e + 1]) <= ChunksOf(t)
    ensures forall p :: e < p < |t| ==> t[p].chunk in ChunksOf(t) && t[p].chunk !in ChunksOf(t[..e + 1])
  {
    forall p | e < p < |t|
      ensures t[p].chunk in ChunksOf(t) && t[p].chunk !in ChunksOf(t[..e + 1])
    {
      forall x | x in t[..e + 1]
        ensures x.chunk != t[p].chunk
      {
        var q :| 0 <= q <= e && t[q] == x;
      }
    }
  }

  /** Behind the requested chunk nothing has changed. */
  twostate lemma OutsideRun(t: seq<CyclicAtime>, new e: nat, new out: set<ManagedMemoryChunk>)
    requires OwnChunks(t) && e < |t| && out == ChunksOf(t) - ChunksOf(t[..e + 1])
    requires forall c :: c in out ==>
               c.status == old(c.status) && c.useCnt == old(c.useCnt) && c.preemptiveLoaded == old(c.preemptiveLoaded)
    ensures forall p :: e < p < |t| ==> Snap(t[p]) == old(Snap(t[p]))
  {
    hide OwnChunks, ChunksOf;
    RunChunks(t, e);
    forall p | e < p < |t|
      ensures Snap(t[p]) == old(Snap(t[p]))
    {
      assert t[p].chunk in out;
    }
  }

  lemma SpliceSnaps(t: seq<CyclicAtime>, ts: seq<Entry>, e: nat)
    requires |ts| == |t| && e < |t| && forall p :: e < p < |t| ==> Snap(t[p]) == ts[p]
    ensures Snaps(t) == Snaps(t[..e + 1]) + ts[e + 1..] && Snaps(t)[..e + 1] == Snaps(t[..e + 1])
  {
    hide Snaps;
    SnapsCut(t, e + 1);
    var w := Snaps(t);
    assert w == w[..e + 1] + w[e + 1..];
    assert w[e + 1..] == ts[e + 1..];
  }

  /** The run up to the requested chunk, which is element e, has been selected from and asked for; ts and w are what the ring
      showed before and shows now, read from behind oldBorder. */
  ghost predicate Chosen(ts: seq<Entry>, w: seq<Entry>, e: nat, g: Budget, ps: seq<nat>, vol: nat) {
    && e < |ts| == |w|
    && var es := ts[..e + 1];
       && ps == Picks(es, g, 0, 0) && Positions(es, ps) && Distinct(ps) && ps != [] && ps[0] == e && vol == Bytes(es, ps)
       && (forall p :: p in ps ==> PickEnd(es, g, 0, 0) <= p <= e && es[p].status.Swapped?)
       && w == w[..e + 1] + ts[e + 1..] && OnlyStatus(Flagged(es, ps), w[..e + 1], ps)
  }

  lemma PicksOfRun(es: seq<Entry>, g: Budget)
    requires Leading(es, g)
    ensures var ps, q := Picks(es, g, 0, 0), PickEnd(es, g, 0, 0);
            && Positions(es, ps) && Distinct(ps) && ps != [] && ps[0] == |es| - 1 && q < |es|
            && forall p :: p in ps ==> q <= p < |es| && es[p].status.Swapped?
  {
    PicksShape(es, g, 0, 0);
    RequestedFirst(es, g);
  }

  lemma FlaggedSwapped(es: seq<Entry>, mid: seq<Entry>, ps: seq<nat>)
    requires mid == Flagged(es, ps) && Positions(es, ps) && forall p :: p in ps ==> p < |es| && es[p].status.Swapped?
    ensures Positions(mid, ps) && forall q :: 0 <= q < |ps| ==> mid[ps[q]].status.Swapped?
  {
  }

  /** Both passes and the swap's answers, for the run. */
  method FetchRun(active: CyclicAtime?, element: CyclicAtime, border: CyclicAtime, g: Budget, answer: Fetches, ghost r: seq<CyclicAtime>,
                  ghost es: seq<Entry>, ghost ps: seq<nat>, ghost out: set<ManagedMemoryChunk>)
      returns (readEl: CyclicAtime, activeInList: bool, vol: nat)
    requires out !! ChunksOf(r)
    requires Run(r, border) && OwnChunks(r) && Last(r) == element && border.next == r[0] && es == Snaps(r) && Leading(es, g)
    requires ps == Picks(es, g, 0, 0) && Positions(es, ps) && Distinct(ps) && forall p :: p in ps ==> p < |es| && es[p].status.Swapped?
    modifies ChunksOf(r)`status, ChunksOf(r)`preemptiveLoaded
    ensures OnlyStatus(Flagged(es, ps), Snaps(r), ps) && vol == Bytes(es, ps)
    ensures |es| == |r| && PickEnd(es, g, 0, 0) < |r| && readEl == r[PickFrom(es, g, Last(r) == border)]
    ensures activeInList <==> active in r[PickEnd(es, g, 0, 0)..]
    ensures forall c :: c in out ==> c.status == old(c.status) && c.useCnt == old(c.useCnt) && c.preemptiveLoaded == old(c.preemptiveLoaded)
  {
    hide OwnChunks, Snaps, Picks, PickEnd, Flagged, Bytes, Distinct, OnlyStatus, Run, Leading, Lists, ChunksOf, PickFrom;
    var number;
    number, vol := CountPicks(element, border, g, r);
    SnapsLength(r);
    var chunks;
    chunks, readEl, activeInList := ListPicks(active, element, border, g, number, r, es);
    ghost var mid := Snaps(r);
    FlaggedSwapped(es, mid, ps);
    FetchFromSwap(chunks, answer, r, ps);
  }

  /** Both passes and the swap's answers, in the ring. */
  method FetchPicks(m: CyclicManagedMemory, element: CyclicAtime, border: CyclicAtime, g: Budget, answer: Fetches,
                    ghost t: seq<CyclicAtime>, ghost e: nat)
      returns (readEl: CyclicAtime, activeInList: bool, vol: nat, ghost ps: seq<nat>)
    requires Cycle(t) && OwnChunks(t) && e < |t| && t[e] == element && Last(t) == border
    requires element.chunk.status.Swapped? && 0 < element.chunk.size && element.chunk.size + g.used <= g.max
    modifies ChunksOf(t)`status, ChunksOf(t)`preemptiveLoaded
    ensures Chosen(old(Snaps(t)), Snaps(t), e, g, ps, vol)
    ensures var es := old(Snaps(t))[..e + 1];
            var lo := PickFrom(es, g, e + 1 == |t|);
            && |es| == e + 1 && lo <= e && readEl == t[lo] && PickEnd(es, g, 0, 0) <= e
            && (activeInList <==> m.active in t[PickEnd(es, g, 0, 0)..e + 1])
  {
    hide Cycle, OwnChunks, Snaps, Picks, PickEnd, Flagged, Bytes, Distinct, OnlyStatus, Run, Leading, ChunksOf, PickFrom, Chosen;
    ghost var r, ts := t[..e + 1], Snaps(t);
    ghost var es, out := Snaps(r), ChunksOf(t) - ChunksOf(r);
    RunFacts(t, e);
    RunChunks(t, e);
    SnapsCut(t, e + 1);
    RunLeads(r, g);
    PicksOfRun(es, g);
    SnapsLength(t);
    ps := Picks(es, g, 0, 0);
    label L:
    readEl, activeInList, vol := FetchRun(m.active, element, border, g, answer, r, es, ps, out);
    OutsideRun@L(t, e, out);
    SpliceSnaps(t, ts, e);
    MakeChosen(ts, Snaps(t), e, g, ps, vol);
    RunSlice(t, e, PickEnd(es, g, 0, 0));
    FromWithin(es, g, e + 1 == |t|);
  }

  lemma RunSlice<T>(t: seq<T>, e: nat, q: nat)
    requires q <= e < |t|
    ensures t[..e + 1][q..] == t[q..e + 1] && forall k {:trigger t[k]} :: 0 <= k <= e ==> t[..e + 1][k] == t[k]
  {
  }

  lemma FromWithin(es: seq<Entry>, g: Budget, whole: bool)
    ensures PickFrom(es, g, whole) <= PickEnd(es, g, 0, 0)
  {
  }

  lemma MakeChosen(ts: seq<Entry>, w: seq<Entry>, e: nat, g: Budget, ps: seq<nat>, vol: nat)
    requires e < |ts| == |w| && w == w[..e + 1] + ts[e + 1..]
    requires var es := ts[..e + 1];
             && ps == Picks(es, g, 0, 0) && Positions(es, ps) && Distinct(ps) && ps != [] && ps[0] == |es| - 1 && vol == Bytes(es, ps)
             && (forall p :: p in ps ==> PickEnd(es, g, 0, 0) <= p < |es| && es[p].status.Swapped?)
             && OnlyStatus(Flagged(es, ps), w[..e + 1], ps)
    ensures Chosen(ts, w, e, g, ps, vol)
  {
  }

  lemma RunLeads(r: seq<CyclicAtime>, g: Budget)
    requires r != [] && Last(r).chunk.status.Swapped? && 0 < Last(r).chunk.size && Last(r).chunk.size + g.used <= g.max
    ensures Leading(Snaps(r), g)
  {
    assert Last(Snaps(r)) == Snap(Last(r));
  }

  // ---------------------------------------------------------------- what has been asked for, by position in the ring

  lemma ChosenAsked(r: seq<Entry>, w: seq<Entry>, b: nat, i: nat, g: Budget, ps: seq<nat>, vol: nat)
    requires b < |r| == |w| && i < |r| && Chosen(Turned(r, b), Turned(w, b), FromBorder(|r|, b, i), g, ps, vol) && !w[i].status.Out()
    ensures Asked(r, w, VictimSet(|r|, b, ps), i)
  {
    hide Picks, PickEnd, Bytes, Distinct, Turned, VictimSet, ToRing, FromBorder, OnlyStatus, Flagged;
    var e, ts, tw, vs := FromBorder(|r|, b, i), Turned(r, b), Turned(w, b), VictimSet(|r|, b, ps);
    BorderAt(r, b, i);
    forall k: nat | k < |r|
      ensures k in vs <==> FromBorder(|r|, b, k) in ps
      ensures if k in vs then r[k].status.Swapped? && w[k] == r[k].(status := w[k].status, preemptive := k != i) else w[k] == r[k]
    {
      var p := FromBorder(|r|, b, k);
      BorderAt(r, b, k);
      BorderAt(w, b, k);
      InVictimSet(|r|, b, ps, p);
      ChosenOne(ts, tw, e, g, ps, vol, p);
      assert p == e <==> k == i;
    }
    assert FromBorder(|r|, b, i) in ps;
    assert i in vs;
  }

  lemma ChosenOne(ts: seq<Entry>, tw: seq<Entry>, e: nat, g: Budget, ps: seq<nat>, vol: nat, p: nat)
    requires Chosen(ts, tw, e, g, ps, vol) && p < |ts|
    ensures |tw| == |ts| && e in ps && forall q :: q in ps ==> q < |ts|
    ensures if p in ps then ts[p].status.Swapped? && tw[p] == ts[p].(status := tw[p].status, preemptive := p != e) else tw[p] == ts[p]
  {
    hide Picks, PickEnd, Bytes, Distinct;
    assert ps[0] in ps;
    var es := ts[..e + 1];
    if p <= e {
      assert es[p] == ts[p] && tw[..e + 1][p] == tw[p];
    } else {
      assert tw[p] == (tw[..e + 1] + ts[e + 1..])[p];
    }
  }

  lemma {:induction false} GuessedFlagged(es: seq<Entry>, ps: seq<nat>)
    requires Positions(es, ps) && Distinct(ps) && ps != [] && forall p :: p in ps ==> p < |es| && !es[p].preemptive
    ensures Guessed(Flagged(es, ps)) == Guessed(es) + Bytes(es, ps) - es[ps[0]].size
    decreases |ps|
  {
    hide Guessed, Bytes;
    var d, p := ps[..|ps| - 1], ps[|ps| - 1];
    assert ps == d + [p];
    DistinctConcat(d, [p]);
    FlaggedNext(es, d, p);
    GuessedSet(Flagged(es, d), p, es[p].(preemptive := d != []));
    BytesAppend(es, d, p);
    if d == [] {
      NoFlags(es);
      NoBytes(es);
    } else {
      GuessedFlagged(es, d);
    }
  }

  lemma StatusWeighs(es: seq<Entry>, w: seq<Entry>, ps: seq<nat>)
    requires OnlyStatus(es, w, ps)
    ensures Guessed(w) == Guessed(es)
  {
    GuessedStatus(es, w);
  }

  lemma ChosenGuessed(ts: seq<Entry>, tw: seq<Entry>, e: nat, g: Budget, ps: seq<nat>, vol: nat)
    requires Chosen(ts, tw, e, g, ps, vol) && forall k :: 0 <= k < |ts| && ts[k].status.Swapped? ==> !ts[k].preemptive
    ensures e < |ts| && Guessed(tw) == Guessed(ts) + vol - ts[e].size
  {
    hide Picks, PickEnd, Guessed, Bytes, OnlyStatus, Flagged, Distinct;
    var es, wr := ts[..e + 1], tw[..e + 1];
    assert forall p :: p in ps ==> p < |es| && es[p] == ts[p];
    GuessedFlagged(es, ps);
    StatusWeighs(Flagged(es, ps), wr, ps);
    assert ts == es + ts[e + 1..];
    GuessedConcat(es, ts[e + 1..]);
    GuessedConcat(wr, ts[e + 1..]);
  }

  /** What was read ahead is booked as such. */
  lemma ChosenBytes(r: seq<Entry>, w: seq<Entry>, b: nat, i: nat, g: Budget, ps: seq<nat>, vol: nat)
    requires b < |r| == |w| && i < |r| && Chosen(Turned(r, b), Turned(w, b), FromBorder(|r|, b, i), g, ps, vol)
    requires forall k :: 0 <= k < |r| && r[k].status.Swapped? ==> !r[k].preemptive
    ensures Guessed(w) == Guessed(r) + vol - r[i].size
  {
    hide Guessed, FromBorder, Chosen;
    BorderAt(r, b, i);
    var ts := Turned(r, b);
    forall p: nat | p < |ts| && ts[p].status.Swapped?
      ensures !ts[p].preemptive
    {
      TurnedAt(r, b, p);
    }
    ChosenGuessed(ts, Turned(w, b), FromBorder(|r|, b, i), g, ps, vol);
    GuessedTurned(r, b);
    GuessedTurned(w, b);
  }

  // ---------------------------------------------------------------- active outside of what is sorted

  /** Taking out what has come in leaves what has gone out. */
  lemma {:induction false} OnlyIsExcept<T>(s: seq<T>, p: set<T>, q: set<T>)
    requires forall x :: x in s ==> (x in p <==> x !in q)
    ensures Only(s, p) == Except(s, q) && Except(s, p) == Only(s, q)
    decreases |s|
  {
    if s != [] {
      assert forall x :: x in s[..|s| - 1] ==> x in s;
      OnlyIsExcept(s[..|s| - 1], p, q);
    }
  }

  /** The ring afterwards, read from active: what has come in is at the end. */
  ghost function InsertedRing(s: seq<CyclicAtime>, lo: nat, i: nat, sel: set<CyclicAtime>): seq<CyclicAtime>
    requires lo <= i < |s|
  {
    s[..lo] + Except(s[lo..i + 1], sel) + s[i + 1..] + Only(s[lo..i + 1], sel)
  }

  lemma InsertedShows(s: seq<CyclicAtime>, lo: nat, i: nat, sel: set<CyclicAtime>)
    requires lo <= i < |s| && !s[i].chunk.status.Out() && forall x :: x in s[lo..i + 1] ==> (x in sel <==> !x.chunk.status.Out())
    ensures var w := Snaps(s);
            var d := w[lo..i];
            && Snaps(InsertedRing(s, lo, i, sel)) == w[..lo] + Outs(d) + w[i + 1..] + Kept(d) + [w[i]]
            && |Only(s[lo..i + 1], sel)| == |Kept(d)| + 1 && |InsertedRing(s, lo, i, sel)| == |s|
  {
    hide Snaps, Only, Except, Kept, Outs;
    var w, seg := Snaps(s), s[lo..i + 1];
    GoneOutIs(seg);
    OnlyIsExcept(seg, sel, GoneOut(seg));
    SnapsParted(seg, GoneOut(seg));
    SnapsSlice(s, lo, i + 1);
    SnapsCut(s, lo);
    SnapsCut(s, i + 1);
    SnapsFour(s[..lo], Except(seg, sel), s[i + 1..], Only(seg, sel));
    assert w[lo..i + 1] == w[lo..i] + [w[i]];
    KeptStep(w[lo..i], w[i]);
    assert Outs(w[lo..i]) + [] == Outs(w[lo..i]);
    SnapsLength(Only(seg, sel));
    OnlyElements(seg, sel);
    assert w[..lo] + Outs(w[lo..i]) + w[i + 1..] + (Kept(w[lo..i]) + [w[i]]) == w[..lo] + Outs(w[lo..i]) + w[i + 1..] + Kept(w[lo..i]) + [w[i]];
  }

  lemma InsertedCursors(s: seq<CyclicAtime>, lo: nat, i: nat, sel: set<CyclicAtime>)
    requires 0 < lo <= i < |s| && Only(s[lo..i + 1], sel) != []
    ensures var t, f := InsertedRing(s, lo, i, sel), Only(s[lo..i + 1], sel);
            && |t| == |s| && |f| <= |s| && t[0] == s[0] && (forall p :: 0 <= p < lo ==> t[p] == s[p])
            && (forall p :: i < p < |s| ==> t[p - |f|] == s[p]) && t[|s| - |f|] == f[0] && Last(t) == Last(f)
  {
    hide Only, Except;
    OnlyElements(s[lo..i + 1], sel);
  }

  /** What has come in shows as what was kept, with the requested chunk last. */
  lemma ComeInShows(s: seq<CyclicAtime>, lo: nat, i: nat, sel: set<CyclicAtime>)
    requires lo <= i < |s| && !s[i].chunk.status.Out()
    requires forall x :: x in s[lo..i + 1] ==> (x in sel <==> !x.chunk.status.Out())
    ensures var f, w := Only(s[lo..i + 1], sel), Snaps(s);
            Snaps(f) == Kept(w[lo..i]) + [w[i]] && |f| == |Kept(w[lo..i])| + 1 && Last(f) == s[i]
  {
    hide Snaps, Kept, Outs, Only, Except;
    var seg, w := s[lo..i + 1], Snaps(s);
    GoneOutIs(seg);
    OnlyIsExcept(seg, sel, GoneOut(seg));
    SnapsParted(seg, GoneOut(seg));
    SnapsSlice(s, lo, i + 1);
    assert w[lo..i + 1] == w[lo..i] + [w[i]];
    KeptStep(w[lo..i], w[i]);
    SnapsLength(Only(seg, sel));
    assert seg == s[lo..i] + [s[i]];
    assert s[i] in seg;
    OnlyStep(s[lo..i], s[i], sel);
  }

  /** The run and the rest of the ring, by position, when oldBorder is in front of the requested chunk. */
  lemma OutsidePieces<T>(s: seq<T>, b: nat, i: nat, lo: nat)
    requires b < i < |s| && lo <= i - b - 1
    ensures var t, e, k := Turned(s, b), i - b - 1, b + 1 + lo;
            e < |t| == |s| && t[lo..e + 1] == s[k..i + 1] && t[e + 1..] + t[..lo] == s[i + 1..] + s[..k]
  {
    var t, e, k := Turned(s, b), i - b - 1, b + 1 + lo;
    assert t[lo..e + 1] == s[k..i + 1];
    assert t[e + 1..] == s[i + 1..] + s[..b + 1] && t[..lo] == s[b + 1..k];
    assert s[..k] == s[..b + 1] + s[b + 1..k];
    assert (s[i + 1..] + s[..b + 1]) + s[b + 1..k] == s[i + 1..] + (s[..b + 1] + s[b + 1..k]);
  }

  lemma ResortedOutside(s: seq<CyclicAtime>, lo: nat, i: nat, sel: set<CyclicAtime>)
    requires 0 < lo <= i < |s| && Distinct(s) && s[i] in sel
    ensures var t := Resorted(s[lo..i + 1], s[i + 1..] + s[..lo], sel, s[0]);
            && t == InsertedRing(s, lo, i, sel) && s[0] in t && (Distinct(t) ==> From(t, s[0]) == t)
            && !Torn(s[0], s[lo..i + 1], s[i + 1..] + s[..lo], sel) && Aside(s[0], s[i], s[lo..i + 1], s[i + 1..] + s[..lo]) == s[0]
  {
    hide Only, Except, Distinct, From;
    var seg, rest := s[lo..i + 1], s[i + 1..] + s[..lo];
    var kept := Except(seg, sel);
    assert s == s[..lo] + (seg + s[i + 1..]);
    DistinctConcat(s[..lo], seg + s[i + 1..]);
    DistinctConcat(seg + s[i + 1..], s[..lo]);
    DistinctConcat(seg, s[i + 1..]);
    assert (seg + s[i + 1..]) + s[..lo] == seg + rest;
    PiecesDistinct(seg, rest, sel);
    DistinctConcat(rest + kept, Only(seg, sel));
    DistinctConcat(rest, kept);
    DistinctConcat(kept, rest);
    assert kept + rest == (kept + s[i + 1..]) + s[..lo];
    FromIs(kept + rest, kept + s[i + 1..], s[..lo]);
    assert s[0] == s[..lo][0] && s[0] in s[..lo] && s[0] in rest;
    assert s[..lo] + (kept + s[i + 1..]) == s[..lo] + kept + s[i + 1..];
    OnlyElements(seg, sel);
    assert s[0] !in Elements(seg);
    assert s[0] !in Elements(Only(seg, sel));
    var t := InsertedRing(s, lo, i, sel);
    assert t == [] + t;
    if Distinct(t) { FromIs(t, [], t); }
    assert s[i] in seg;
  }

  /** Whether the new guesses are the first ones. */
  lemma FirstGuess(s: seq<CyclicAtime>, v: Schedule, w: seq<Entry>, vs: set<nat>, lo: nat, i: nat, sel: set<CyclicAtime>)
    requires Behind(v, w, vs, lo, i) && w == Snaps(s)
    requires forall x :: x in s[lo..i + 1] ==> (x in sel <==> !x.chunk.status.Out())
    ensures var f := Only(s[lo..i + 1], sel);
            && f != [] && (f[0].chunk.preemptiveLoaded <==> Kept(w[lo..i]) != []) && Last(f) == s[i] && |f| == |Kept(w[lo..i])| + 1
  {
    hide Snaps, Kept, Outs, Asked, Guessed, Only, Arranged, AllGone, NoneRefused;
    AskedLast(v.ring, w, vs, i);
    assert w[i] == Snap(s[i]);
    ComeInShows(s, lo, i, sel);
    LoadedPieces(v, w, vs, lo, i);
    var f, k := Only(s[lo..i + 1], sel), Kept(w[lo..i]);
    assert Snaps(f)[0] == Snap(f[0]);
    if k != [] {
      assert k[0] in k;
    }
  }

  lemma AskedLast(r: seq<Entry>, w: seq<Entry>, vs: set<nat>, i: nat)
    requires Asked(r, w, vs, i)
    ensures i < |w| && !w[i].status.Out()
  {
  }

  lemma BehindPlaces(v: Schedule, w: seq<Entry>, vs: set<nat>, lo: nat, i: nat)
    requires Behind(v, w, vs, lo, i)
    ensures v.counter < lo <= i < v.start <= |w| == |v.ring| && !w[i].status.Out()
  {
  }

  /** What the ring shows once the run has been put in front of active and read again. */
  lemma ViewOutside(m: CyclicManagedMemory, s: seq<CyclicAtime>, v: Schedule, w: seq<Entry>, vs: set<nat>, lo: nat, i: nat, sel: set<CyclicAtime>)
    requires m.Valid() && Behind(v, w, vs, lo, i) && w == Snaps(s)
    requires forall x :: x in s[lo..i + 1] ==> (x in sel <==> !x.chunk.status.Out())
    requires m.ring == InsertedRing(s, lo, i, sel) && m.counterActive == s[v.counter] && m.preemptiveBytes == Guessed(w)
    requires Only(s[lo..i + 1], sel) != []
    requires m.preemptiveStart == NewStart(if v.start < |s| then s[v.start] else null, Only(s[lo..i + 1], sel))
    ensures |Kept(w[lo..i])| < v.start && m.View() == InsertedBack(v, w, lo, i)
    ensures |m.ring| == |s| && m.ring[|s| - 1] == s[i]
  {
    hide Snaps, Kept, Outs, Asked, Guessed, Only, Except, InsertedRing, Arranged, AllGone, Behind, m.Valid;
    BehindPlaces(v, w, vs, lo, i);
    LoadedFits(v, w, lo, i);
    assert w[i] == Snap(s[i]);
    InsertedShows(s, lo, i, sel);
    OutsideCursors(s, lo, i, sel, v.counter, v.start);
    FirstGuess(s, v, w, vs, lo, i, sel);
    ViewIs(m, InsertedBack(v, w, lo, i));
  }

  lemma OutsideCursors(s: seq<CyclicAtime>, lo: nat, i: nat, sel: set<CyclicAtime>, counter: nat, start: nat)
    requires counter < lo <= i < start <= |s| && i < |s| && Only(s[lo..i + 1], sel) != []
    ensures var t, f := InsertedRing(s, lo, i, sel), Only(s[lo..i + 1], sel);
            && |t| == |s| && |f| <= |s| && t[counter] == s[counter] && (start < |s| ==> |f| <= start && t[start - |f|] == s[start])
            && t[|s| - |f|] == f[0] && t[|s| - 1] == Last(f)
  {
    hide Only, Except, InsertedRing;
    OnlyElements(s[lo..i + 1], sel);
    InsertedCursors(s, lo, i, sel);
  }

  // ---------------------------------------------------------------- the requested chunk is active itself

  lemma AroundPieces<T>(s: seq<T>, b: nat, lo: nat)
    requires b < |s| && lo <= |s| - 1 - b
    ensures var t, e, p := Turned(s, b), |s| - 1 - b, b + 1 + lo;
            e < |t| == |s| && p <= |s| && t[lo..e + 1] == s[p..] + [s[0]] && t[e + 1..] + t[..lo] == s[1..p]
  {
    var t, e, p := Turned(s, b), |s| - 1 - b, b + 1 + lo;
    assert t[lo..e + 1] == s[p..] + [s[0]];
    assert t[e + 1..] == s[1..b + 1] && t[..lo] == s[b + 1..p];
  }

  /** The ring before active is touched again. */
  ghost function ActiveRing(s: seq<CyclicAtime>, p: nat, sel: set<CyclicAtime>): seq<CyclicAtime>
    requires 0 < p <= |s|
  {
    var kept, come := Except(s[p..], sel), Only(s[p..], sel);
    if |s| == 1 then s
    else if p > 1 || s[1] !in sel then s[1..p] + kept + come + [s[0]]
    else come + [s[0]] + kept
  }

  lemma ActiveParts(s: seq<CyclicAtime>, p: nat, sel: set<CyclicAtime>)
    requires 0 < p <= |s| && s[0] in sel
    ensures var seg := s[p..] + [s[0]];
            Except(seg, sel) == Except(s[p..], sel) && Only(seg, sel) == Only(s[p..], sel) + [s[0]]
  {
    OnlyStep(s[p..], s[0], sel);
    assert Except(s[p..], sel) + [] == Except(s[p..], sel);
  }

  lemma ResortedActive(s: seq<CyclicAtime>, p: nat, sel: set<CyclicAtime>)
    requires 0 < p <= |s| && Distinct(s) && s[0] in sel
    ensures var seg, rest := s[p..] + [s[0]], s[1..p];
            var a := Aside(s[0], s[0], seg, rest);
            var t := Resorted(seg, rest, sel, a);
            && a == (if |s| > 1 then s[1] else s[0]) && a in t && !Torn(s[0], seg, rest, sel) && (rest == [] <==> p == 1)
            && (Distinct(t) ==> From(t, a) == ActiveRing(s, p, sel))
  {
    hide Only, Except, Distinct, From;
    var seg, rest := s[p..] + [s[0]], s[1..p];
    var kept, come := Except(s[p..], sel), Only(s[p..], sel);
    ActiveParts(s, p, sel);
    assert (rest + seg)[0] == if |s| > 1 then s[1] else s[0];
    if p > 1 {
      ActiveBase(s, p, sel);
      FromIs(kept + rest, kept, rest);
      assert rest[0] == s[1];
      var t := rest + kept + (come + [s[0]]);
      assert t == rest + kept + come + [s[0]];
      assert t == [] + t;
      if Distinct(t) { FromIs(t, [], t); }
    } else {
      WholeActive(s, sel);
    }
  }

  lemma ActiveBase(s: seq<CyclicAtime>, p: nat, sel: set<CyclicAtime>)
    requires 1 < p <= |s| && Distinct(s)
    ensures Distinct(Except(s[p..], sel) + s[1..p])
  {
    hide Only, Except;
    assert s == (s[..1] + s[1..p]) + s[p..];
    DistinctConcat(s[..1] + s[1..p], s[p..]);
    DistinctConcat(s[..1], s[1..p]);
    OnlyDistinct(s[p..], sel);
    OnlyElements(s[p..], sel);
    Inside(Except(s[p..], sel), s[p..]);
    DistinctConcat(Except(s[p..], sel), s[1..p]);
  }

  lemma WholeActive(s: seq<CyclicAtime>, sel: set<CyclicAtime>)
    requires s != [] && s[0] in sel
    ensures var kept, come := Except(s[1..], sel), Only(s[1..], sel);
            var t, a := kept + (come + [s[0]]), if |s| > 1 then s[1] else s[0];
            && a in t && (Distinct(t) ==> From(t, a) == ActiveRing(s, 1, sel))
  {
    hide Only, Except, Distinct, From;
    var kept, come := Except(s[1..], sel), Only(s[1..], sel);
    var t := kept + (come + [s[0]]);
    if |s| == 1 {
      NoneSelected(sel);
      assert s[1..] == [] && t == [s[0]] == s;
      assert t == [] + t;
      if Distinct(t) { FromIs(t, [], t); }
    } else if s[1] !in sel {
      FirstOfKept(s[1..], sel);
      assert t == [] + t;
      if Distinct(t) { FromIs(t, [], t); }
      assert s[1..1] == [];
      assert [] + kept + come + [s[0]] == t;
      assert t[0] == s[1];
    } else {
      FirstOfSelected(s[1..], sel);
      assert (come + [s[0]])[0] == s[1];
      assert t[|kept|] == s[1];
      if Distinct(t) { FromIs(t, kept, come + [s[0]]); }
    }
  }

  lemma NoneSelected(sel: set<CyclicAtime>)
    ensures Only<CyclicAtime>([], sel) == [] && Except<CyclicAtime>([], sel) == []
  {
  }

  lemma {:induction false} FirstOfSelected<T>(s: seq<T>, p: set<T>)
    requires s != [] && s[0] in p
    ensures Only(s, p) != [] && Only(s, p)[0] == s[0]
    decreases |s|
  {
    if |s| > 1 {
      FirstOfSelected(s[..|s| - 1], p);
    } else {
      assert s[..0] == [];
    }
  }

  /** What it shows. */
  lemma ActiveShows(s: seq<CyclicAtime>, p: nat, sel: set<CyclicAtime>)
    requires 0 < p <= |s| && forall x :: x in s[p..] ==> (x in sel <==> !x.chunk.status.Out())
    ensures var w := Snaps(s);
            && Snaps(ActiveRing(s, p, sel)) == ActiveInserted(w, p).ring && |ActiveRing(s, p, sel)| == |s| && s != []
            && |Only(s[p..], sel)| == |Kept(w[p..])| && Snaps(Only(s[p..], sel)) == Kept(w[p..])
  {
    hide Snaps, Only, Except, Kept, Outs, Guessed;
    var seg, w := s[p..], Snaps(s);
    GoneOutIs(seg);
    OnlyIsExcept(seg, sel, GoneOut(seg));
    SnapsParted(seg, GoneOut(seg));
    SnapsCut(s, p);
    SnapsSlice(s, 1, p);
    SnapsOne(s[0]);
    SnapsLength(Only(seg, sel));
    SnapsLength(s);
    OnlyElements(seg, sel);
    assert w[0] == Snap(s[0]);
    if |s| > 1 && p == 1 {
      assert s[1] == seg[0] && s[1] in seg && w[1] == Snap(s[1]);
    }
    SnapsFour(s[1..p], Except(seg, sel), Only(seg, sel), [s[0]]);
    SnapsConcat(Only(seg, sel) + [s[0]], Except(seg, sel));
    SnapsConcat(Only(seg, sel), [s[0]]);
  }

  lemma ActiveCursors(s: seq<CyclicAtime>, p: nat, sel: set<CyclicAtime>)
    requires 0 < p <= |s|
    ensures var t, c := ActiveRing(s, p, sel), Only(s[p..], sel);
            && |t| == |s| && |c| < |s|
            && (if |s| == 1 then t[0] == s[0]
                else if p > 1 || s[1] !in sel then t[|s| - 1] == s[0] && (c != [] ==> t[|s| - 1 - |c|] == c[0]) && (p > 1 ==> t[0] == s[1])
                else t[|c|] == s[0] && (c != [] ==> t[0] == c[0]))
  {
    hide Only, Except;
    OnlyElements(s[p..], sel);
  }

  /** And where the cursors are. */
  lemma ViewActive(m: CyclicManagedMemory, s: seq<CyclicAtime>, v: Schedule, w: seq<Entry>, vs: set<nat>, p: nat, sel: set<CyclicAtime>)
    requires m.Valid() && AroundActive(v, w, vs, p) && w == Snaps(s)
    requires forall x :: x in s[p..] ==> (x in sel <==> !x.chunk.status.Out())
    requires m.ring == ActiveRing(s, p, sel) && m.preemptiveBytes == Guessed(w)
    requires m.counterActive == if p > 1 || |s| == 1 then s[0] else s[1]
    requires m.preemptiveStart == NewStart(null, Only(s[p..], sel) + [s[0]])
    ensures m.View() == ActiveInserted(w, p) && ActiveIndex(w, p) < |m.ring| && m.ring[ActiveIndex(w, p)] == s[0]
  {
    hide Snaps, Kept, Outs, Asked, Guessed, Only, Except, ActiveRing, m.Valid;
    ActiveShows(s, p, sel);
    ActiveCursors(s, p, sel);
    ActiveFirstGuess(s, v, w, vs, p, sel);
    if |s| > 1 && p == 1 {
      assert s[1] == s[p..][0] && s[1] in s[p..] && w[1] == Snap(s[1]);
      ActiveSecond(s, sel);
    }
    ViewIs(m, ActiveInserted(w, p));
  }

  lemma ActiveSecond(s: seq<CyclicAtime>, sel: set<CyclicAtime>)
    requires |s| > 1
    ensures ActiveRing(s, 1, sel) != [] && ActiveRing(s, 1, sel)[0] == s[1]
    ensures s[1] in sel ==> Only(s[1..], sel) != [] && Only(s[1..], sel)[0] == s[1]
  {
    hide Only, Except;
    if s[1] in sel {
      FirstOfSelected(s[1..], sel);
    } else {
      FirstOfKept(s[1..], sel);
    }
  }

  lemma ActiveFirstGuess(s: seq<CyclicAtime>, v: Schedule, w: seq<Entry>, vs: set<nat>, p: nat, sel: set<CyclicAtime>)
    requires AroundActive(v, w, vs, p) && w == Snaps(s)
    requires forall x :: x in s[p..] ==> (x in sel <==> !x.chunk.status.Out())
    ensures var c := Only(s[p..], sel);
            && !s[0].chunk.preemptiveLoaded && (c != [] ==> c[0].chunk.preemptiveLoaded) && (c == [] <==> Kept(w[p..]) == [])
  {
    hide Snaps, Kept, Outs, Only, Except;
    var c := Only(s[p..], sel);
    ActiveShows(s, p, sel);
    assert w[0] == Snap(s[0]);
    PiecesOf(v.ring, w, vs, 0, p, |w|);
    assert w[p..|w|] == w[p..];
    if c != [] {
      assert Snaps(c)[0] == Snap(c[0]);
      assert Snaps(c)[0] in Kept(w[p..]);
    }
  }

  // ---------------------------------------------------------------- all together

  /** active, which was not requested, has come in with a run that is not the whole ring. lo is where the run begins, read from
      behind oldBorder. */
  ghost predicate TornAt(w: seq<Entry>, b: nat, i: nat, lo: nat)
    requires b < |w| && i < |w|
  {
    var n, e, a := |w|, FromBorder(|w|, b, i), FromBorder(|w|, b, 0);
    i != 0 && lo <= a <= e && !(lo == 0 && e + 1 == n) && !w[0].status.Out()
  }

  /** The state after the swap has answered, in which the requested chunk has come in. */
  ghost predicate Answered(m: CyclicManagedMemory, s: seq<CyclicAtime>, w: seq<Entry>, b: nat, i: nat, lo: nat,
                           readEl: CyclicAtime, element: CyclicAtime, activeInList: bool)
    reads m, s`next, s`prev, ChunksOf(s)`status, ChunksOf(s)`useCnt, ChunksOf(s)`preemptiveLoaded
  {
    && m.ring == s && m.Valid() && w == Snaps(s) && b < |s| && i < |s|
    && var t, e := Turned(s, b), FromBorder(|s|, b, i);
       && lo <= e < |t| && readEl == t[lo] && element == s[i] && !element.chunk.status.Out()
       && ((lo == 0 && e + 1 == |t|) || (activeInList <==> s[0] in t[lo..e + 1])) && (i == 0 ==> activeInList)
  }

  lemma RunRing(t: seq<CyclicAtime>, lo: nat, e: nat)
    requires Cycle(t) && lo <= e < |t|
    ensures var seg, rest := t[lo..e + 1], t[e + 1..] + t[..lo];
            && Cycle(seg + rest) && seg != [] && seg[0] == t[lo] && Last(seg) == t[e] && (rest == [] <==> lo == 0 && e + 1 == |t|)
            && (forall x :: x in seg + rest <==> x in t) && Elements(seg + rest) == Elements(t)
  {
    hide Cycle;
    var seg, rest := t[lo..e + 1], t[e + 1..] + t[..lo];
    assert t == t[..lo] + t[lo..];
    CycleTurn(t[..lo], t[lo..]);
    assert t[lo..] + t[..lo] == seg + rest;
    ElementsConcat(t[..lo], t[lo..]);
    ElementsConcat(t[lo..], t[..lo]);
    Inside(seg + rest, t);
    Inside(t, seg + rest);
  }

  /** Whether the code finds active in a run that is not the whole ring. */
  lemma TornIs(s: seq<CyclicAtime>, w: seq<Entry>, b: nat, i: nat, lo: nat, sel: set<CyclicAtime>)
    requires Distinct(s) && b < |s| && i < |s| && w == Snaps(s) && Cycle(s)
    requires var t, e := Turned(s, b), FromBorder(|s|, b, i);
             lo <= e < |t| && forall x :: x in t[lo..e + 1] ==> (x in sel <==> !x.chunk.status.Out())
    ensures var t, e := Turned(s, b), FromBorder(|s|, b, i);
            && (Torn(s[0], t[lo..e + 1], t[e + 1..] + t[..lo], sel) <==> TornAt(w, b, i, lo))
            && (s[0] in t[lo..e + 1] <==> lo <= FromBorder(|s|, b, 0) <= e)
  {
    hide Snaps, Only, Except, Cycle, Turned, FromBorder, Distinct;
    var t, e := Turned(s, b), FromBorder(|s|, b, i);
    var seg, rest := t[lo..e + 1], t[e + 1..] + t[..lo];
    BorderAt(s, b, i);
    TurnedCycle(s, b);
    RunRing(t, lo, e);
    ActiveInRun(s, b, i, lo);
    assert w[0] == Snap(s[0]);
    OnlyElements(seg, sel);
    assert s[0] in Only(seg, sel) <==> s[0] in Elements(Only(seg, sel));
    assert s[0] in seg <==> s[0] in Elements(seg);
    assert s[i] == s[0] <==> i == 0 by { AllApart(s); }
  }

  lemma ActiveInRun(s: seq<CyclicAtime>, b: nat, i: nat, lo: nat)
    requires Distinct(s) && b < |s| && i < |s| && lo <= FromBorder(|s|, b, i) < |Turned(s, b)|
    ensures s[0] in Turned(s, b)[lo..FromBorder(|s|, b, i) + 1] <==> lo <= FromBorder(|s|, b, 0) <= FromBorder(|s|, b, i)
  {
    var t, e, a := Turned(s, b), FromBorder(|s|, b, i), FromBorder(|s|, b, 0);
    BorderAt(s, b, 0);
    var seg := t[lo..e + 1];
    if lo <= a <= e {
      assert seg[a - lo] == s[0];
    }
    if s[0] in seg {
      var k :| 0 <= k < |seg| && seg[k] == s[0];
      assert t[lo + k] == t[a];
      TurnedAt(s, b, lo + k);
      AllApart(s);
    }
  }

  /** The requested chunk is touched, and counterActive follows. */
  method TouchLoaded(m: CyclicManagedMemory, element: CyclicAtime, ghost idx: nat)
    requires m.Valid() && idx < |m.ring| && m.ring[idx] == element
    modifies m, m.ring`next, m.ring`prev, element.chunk`preemptiveLoaded
    ensures m.Valid() && m.ring != [] && Elements(m.ring) == old(Elements(m.ring))
    ensures m.View() == Followed(Touched(old(m.View()), idx))
  {
    hide Cycle, OwnChunks, Snaps, Touched, Without, Followed, m.View, m.Valid;
    ghost var t := m.ring;
    m.Touch(element, idx);
    MovedElements(t, idx);
    FollowActive(m);
  }

  lemma MovedElements(s: seq<CyclicAtime>, i: nat)
    requires i < |s|
    ensures Elements([s[i]] + Without(s, i)) == Elements(s)
  {
    assert s == s[..i] + [s[i]] + s[i + 1..];
    ElementsConcat(s[..i] + [s[i]], s[i + 1..]);
    ElementsConcat(s[..i], [s[i]]);
    ElementsConcat([s[i]], Without(s, i));
    ElementsConcat(s[..i], s[i + 1..]);
  }

  /** The run that is sorted, and the rest of the ring. */
  ghost predicate RunAt(s: seq<CyclicAtime>, b: nat, i: nat, lo: nat, seg: seq<CyclicAtime>, rest: seq<CyclicAtime>) {
    && b < |s| && i < |s|
    && var t, e := Turned(s, b), FromBorder(|s|, b, i);
       lo <= e < |t| && seg == t[lo..e + 1] && rest == t[e + 1..] + t[..lo]
  }

  /** What the code knows of the ring when it begins to sort. */
  lemma AnsweredFacts(m: CyclicManagedMemory, s: seq<CyclicAtime>, w: seq<Entry>, b: nat, i: nat, lo: nat,
                      readEl: CyclicAtime, element: CyclicAtime, activeInList: bool)
      returns (seg: seq<CyclicAtime>, rest: seq<CyclicAtime>)
    requires Answered(m, s, w, b, i, lo, readEl, element, activeInList)
    ensures RunAt(s, b, i, lo, seg, rest)
    ensures Cycle(seg + rest) && OwnChunks(seg + rest) && seg != [] && readEl == seg[0] && element == Last(seg) && element in ComeIn(seg)
    ensures (forall x :: x in seg + rest <==> x in s) && Elements(seg + rest) == Elements(s) && Cycle(s)
    ensures forall x :: x in seg ==> (x in ComeIn(seg) <==> !x.chunk.status.Out())
    ensures m.active == s[0] && m.active in seg + rest && m.counterActive in seg + rest
    ensures m.preemptiveStart != null ==> m.preemptiveStart in seg + rest
    ensures (m.active == element <==> i == 0) && (element.next == readEl <==> rest == [])
    ensures (Torn(s[0], seg, rest, ComeIn(seg)) <==> TornAt(w, b, i, lo)) && (rest != [] ==> (activeInList <==> s[0] in seg))
  {
    hide Snaps, Turned, FromBorder, Cycle, OwnChunks, Distinct, Only, Except, ComeIn, TornAt, Torn, m.Valid;
    m.Neighbours(i);
    StartInRing(m);
    seg, rest := RunPieces(s, b, i, lo);
    ComeInIs(seg);
    TornIs(s, w, b, i, lo, ComeIn(seg));
    assert element in seg;
    assert s[0] in s && s[m.counterAt] in s;
  }

  lemma RunPieces(s: seq<CyclicAtime>, b: nat, i: nat, lo: nat) returns (seg: seq<CyclicAtime>, rest: seq<CyclicAtime>)
    requires Cycle(s) && OwnChunks(s) && b < |s| && i < |s| && lo <= FromBorder(|s|, b, i) < |Turned(s, b)|
    ensures RunAt(s, b, i, lo, seg, rest) && Cycle(seg + rest) && OwnChunks(seg + rest) && Distinct(s)
    ensures seg != [] && seg[0] == Turned(s, b)[lo] && Last(seg) == s[i]
    ensures (forall x :: x in seg + rest <==> x in s) && Elements(seg + rest) == Elements(s)
    ensures (Last(seg).next == seg[0] <==> rest == []) && (rest == [] <==> lo == 0 && FromBorder(|s|, b, i) + 1 == |Turned(s, b)|)
  {
    hide Turned, FromBorder, Cycle, OwnChunks, Distinct;
    var t, e := Turned(s, b), FromBorder(|s|, b, i);
    seg, rest := t[lo..e + 1], t[e + 1..] + t[..lo];
    CycleDistinct(s);
    BorderAt(s, b, i);
    TurnedSame(s, b);
    RunRing(t, lo, e);
    CycleDistinct(seg + rest);
    Inside(seg + rest, s);
    OwnChunksOf(s, seg + rest);
    NextAfter(seg, rest);
  }

  lemma NextAfter(seg: seq<CyclicAtime>, rest: seq<CyclicAtime>)
    requires Cycle(seg + rest) && seg != []
    ensures Last(seg).next == seg[0] <==> rest == []
  {
    RingParts(seg, rest);
  }

  /** What has come in has been put back. */
  ghost predicate PutIn(m: CyclicManagedMemory, s: seq<CyclicAtime>, v: Schedule, w: seq<Entry>, i: nat,
                        seg: seq<CyclicAtime>, rest: seq<CyclicAtime>, sel: set<CyclicAtime>)
    reads m, ChunksOf(s)`status, ChunksOf(s)`useCnt, ChunksOf(s)`preemptiveLoaded, ChunksOf(Only(seg, sel))`preemptiveLoaded
  {
    && w == Snaps(s) && i < |s| == |v.ring| && v.counter < |s| && v.start <= |s| && seg != [] && Only(seg, sel) != []
    && var a := Aside(s[0], s[i], seg, rest);
       && a in Resorted(seg, rest, sel, a) && m.ring == From(Resorted(seg, rest, sel, a), a) && Distinct(Resorted(seg, rest, sel, a))
       && m.counterActive == (if rest == [] then seg[0] else s[v.counter])
       && m.preemptiveStart == NewStart(if v.start < |s| then s[v.start] else null, Only(seg, sel))
  }

  /** What is read from the ring before the requested chunk is touched, when active is outside of the run. */
  lemma ReadyOutside(m: CyclicManagedMemory, s: seq<CyclicAtime>, v: Schedule, w: seq<Entry>, vs: set<nat>, b: nat, i: nat, lo: nat, k: nat,
                     seg: seq<CyclicAtime>, rest: seq<CyclicAtime>, sel: set<CyclicAtime>)
    requires b < i && k == b + 1 + lo <= i < |w|
    requires m.Valid() && Distinct(s) && RunAt(s, b, i, lo, seg, rest) && PutIn(m, s, v, w, i, seg, rest, sel)
    requires (forall x :: x in seg ==> (x in sel <==> !x.chunk.status.Out())) && s[i] in seg && !s[i].chunk.status.Out()
    requires Behind(v, w, vs, k, i) && m.preemptiveBytes == Guessed(w)
    ensures |Kept(w[k..i])| < v.start && m.View() == InsertedBack(v, w, k, i)
    ensures |m.ring| == |s| && m.ring[|s| - 1] == s[i]
  {
    hide Snaps, Cycle, Only, Except, From, Kept, Outs, Guessed, Turned, Distinct, Resorted, InsertedRing, InsertedBack, Torn, m.Valid;
    OutsidePieces(s, b, i, lo);
    ResortedOutside(s, k, i, sel);
    ViewOutside(m, s, v, w, vs, k, i, sel);
  }

  /** The same when active was requested. */
  lemma ReadyActive(m: CyclicManagedMemory, s: seq<CyclicAtime>, v: Schedule, w: seq<Entry>, vs: set<nat>, b: nat, lo: nat,
                    seg: seq<CyclicAtime>, rest: seq<CyclicAtime>, sel: set<CyclicAtime>)
    requires m.Valid() && Distinct(s) && RunAt(s, b, 0, lo, seg, rest) && PutIn(m, s, v, w, 0, seg, rest, sel)
    requires (forall x :: x in seg ==> (x in sel <==> !x.chunk.status.Out())) && s[0] in seg && !s[0].chunk.status.Out()
    requires b + 1 + lo <= |w| && AroundActive(v, w, vs, b + 1 + lo) && m.preemptiveBytes == Guessed(w)
    ensures m.View() == ActiveInserted(w, b + 1 + lo)
    ensures ActiveIndex(w, b + 1 + lo) < |m.ring| && m.ring[ActiveIndex(w, b + 1 + lo)] == s[0]
  {
    hide Snaps, Cycle, Only, Except, From, Kept, Outs, Guessed, Turned, Distinct, Resorted, ActiveRing, AroundActive, ActiveInserted,
      ActiveIndex, Torn, m.Valid;
    AroundPieces(s, b, lo);
    ResortedActive(s, b + 1 + lo, sel);
    ActiveParts(s, b + 1 + lo, sel);
    GoneCursors(v, w, vs, b + 1 + lo);
    ViewActive(m, s, v, w, vs, b + 1 + lo, sel);
  }

  lemma GoneCursors(v: Schedule, w: seq<Entry>, vs: set<nat>, p: nat)
    requires AroundActive(v, w, vs, p)
    ensures v.counter == 0 && v.start == |w| && v.ring != []
  {
  }

  /** The run lies behind active, and it is known what the ring shows. */
  ghost predicate SortsBehind(v: Schedule, w: seq<Entry>, vs: set<nat>, b: nat, i: nat, lo: nat) {
    b < i && b + 1 + lo <= i < |w| && Behind(v, w, vs, b + 1 + lo, i)
  }

  /** The run ends in active, which was requested while everything was out. */
  ghost predicate SortsActive(v: Schedule, w: seq<Entry>, vs: set<nat>, b: nat, i: nat, lo: nat) {
    i == 0 && b + 1 + lo <= |w| && AroundActive(v, w, vs, b + 1 + lo)
  }

  /** What is read from the ring in these two cases. */
  ghost function Sorted(v: Schedule, w: seq<Entry>, vs: set<nat>, b: nat, i: nat, lo: nat): Schedule
    requires SortsBehind(v, w, vs, b, i, lo) || SortsActive(v, w, vs, b, i, lo)
  {
    if SortsBehind(v, w, vs, b, i, lo) then
      LoadedFits(v, w, b + 1 + lo, i);
      Followed(Loaded(v, w, b + 1 + lo, i))
    else
      LoadedActive(w, b + 1 + lo)
  }

  /** Where the requested chunk is before it is touched, and what touching it gives. */
  lemma SortedTouched(m: CyclicManagedMemory, s: seq<CyclicAtime>, v: Schedule, w: seq<Entry>, vs: set<nat>, b: nat, i: nat, lo: nat,
                      seg: seq<CyclicAtime>, rest: seq<CyclicAtime>, sel: set<CyclicAtime>)
      returns (idx: nat)
    requires i < |s| == |w| && m.Valid() && Distinct(s) && RunAt(s, b, i, lo, seg, rest) && PutIn(m, s, v, w, i, seg, rest, sel)
    requires (forall x :: x in seg ==> (x in sel <==> !x.chunk.status.Out())) && s[i] in seg && !s[i].chunk.status.Out() && s[i] in m.ring
    ensures idx < |m.ring| && m.ring[idx] == s[i]
    ensures (SortsBehind(v, w, vs, b, i, lo) || SortsActive(v, w, vs, b, i, lo)) && m.preemptiveBytes == Guessed(w) ==>
              Followed(Touched(m.View(), idx)) == Sorted(v, w, vs, b, i, lo)
  {
    hide Snaps, Cycle, Guessed, Kept, Outs, Behind, AroundActive, RunAt, PutIn, Loaded, LoadedActive, InsertedBack, ActiveInserted, ActiveIndex,
      Touched, Followed, m.Valid, m.View;
    if SortsBehind(v, w, vs, b, i, lo) && m.preemptiveBytes == Guessed(w) {
      ReadyOutside(m, s, v, w, vs, b, i, lo, b + 1 + lo, seg, rest, sel);
      BehindRequested(v, w, vs, b + 1 + lo, i);
      InsertedTouched(v, w, b + 1 + lo, i);
      idx := |s| - 1;
    } else if SortsActive(v, w, vs, b, i, lo) && m.preemptiveBytes == Guessed(w) {
      ReadyActive(m, s, v, w, vs, b, lo, seg, rest, sel);
      AroundRequested(v, w, vs, b + 1 + lo);
      ActiveTouched(w, b + 1 + lo);
      idx := ActiveIndex(w, b + 1 + lo);
    } else {
      idx :| 0 <= idx < |m.ring| && m.ring[idx] == s[i];
    }
  }

  lemma BehindRequested(v: Schedule, w: seq<Entry>, vs: set<nat>, lo: nat, i: nat)
    requires Behind(v, w, vs, lo, i)
    ensures v.counter < lo <= i < v.start <= |w| && !w[i].preemptive
  {
  }

  lemma AroundRequested(v: Schedule, w: seq<Entry>, vs: set<nat>, p: nat)
    requires AroundActive(v, w, vs, p)
    ensures !w[0].preemptive && !w[0].status.Out()
  {
  }

  /** What is known after what has come in has been put back. */
  lemma NowPutIn(m: CyclicManagedMemory, s: seq<CyclicAtime>, v: Schedule, w: seq<Entry>, i: nat,
                 seg: seq<CyclicAtime>, rest: seq<CyclicAtime>, sel: set<CyclicAtime>)
    requires w == Snaps(s) && i < |s| == |v.ring| && v.counter < |s| && v.start <= |s| && seg != [] && Only(seg, sel) != [] && Cycle(m.ring)
    requires var a := Aside(s[0], s[i], seg, rest);
             a in Resorted(seg, rest, sel, a) && m.ring == From(Resorted(seg, rest, sel, a), a)
    requires m.counterActive == if rest == [] then seg[0] else s[v.counter]
    requires m.preemptiveStart == NewStart(if v.start < |s| then s[v.start] else null, Only(seg, sel))
    ensures PutIn(m, s, v, w, i, seg, rest, sel)
  {
    hide Snaps, Only, Except, Resorted, Cycle, From;
    var a := Aside(s[0], s[i], seg, rest);
    var t := Resorted(seg, rest, sel, a);
    CycleDistinct(m.ring);
    FromDistinct(t, a);
  }

  lemma FromDistinct(t: seq<CyclicAtime>, a: CyclicAtime)
    requires a in t && Distinct(From(t, a))
    ensures Distinct(t)
  {
    var i := IndexOf(t, a);
    DistinctConcat(t[i..], t[..i]);
    DistinctConcat(t[..i], t[i..]);
    assert t == t[..i] + t[i..];
  }

  lemma TornSeen(was: CyclicAtime, seg: seq<CyclicAtime>, rest: seq<CyclicAtime>, sel: set<CyclicAtime>)
    requires seg != [] && forall x :: x in seg ==> (x in sel <==> !x.chunk.status.Out())
    ensures Torn(was, seg, rest, sel) <==> rest != [] && was in seg && was != Last(seg) && !was.chunk.status.Out()
  {
    OnlyElements(seg, sel);
    assert was in Only(seg, sel) <==> was in Elements(Only(seg, sel));
    assert was in seg <==> was in Elements(seg);
  }

  /** Where active has been torn out, there is no ring of all elements any more. */
  lemma TornApart(s: seq<CyclicAtime>, seg: seq<CyclicAtime>, rest: seq<CyclicAtime>, sel: set<CyclicAtime>, j: nat)
    requires rest != [] && seg != [] && Distinct(seg + rest) && Elements(seg + rest) == Elements(s)
    requires j < |Only(seg, sel)| && Cycle(Only(seg, sel)[j..])
    ensures forall q: seq<CyclicAtime> :: Elements(q) == Elements(s) ==> !Cycle(q)
  {
    hide Only, Cycle;
    var d, x := Only(seg, sel)[j..], rest[0];
    OnlyElements(seg, sel);
    DistinctConcat(seg, rest);
    ElementsConcat(seg, rest);
    assert x in Elements(rest) && x in Elements(s) && x !in seg;
    forall y | y in d
      ensures y in s && y in seg
    {
      assert y in Only(seg, sel);
      assert y in Elements(Only(seg, sel)) && y in Elements(seg) && y in Elements(s);
    }
    NoOtherRing(d, s, x);
  }

  /** touch after that: it makes the requested chunk active, which leaves the links as they are. */
  method TouchTorn(m: CyclicManagedMemory, element: CyclicAtime, ghost s: seq<CyclicAtime>, ghost seg: seq<CyclicAtime>,
                   ghost rest: seq<CyclicAtime>, ghost sel: set<CyclicAtime>, ghost j: nat, ghost d: seq<CyclicAtime>)
    requires rest != [] && seg != [] && Distinct(seg + rest) && Elements(seg + rest) == Elements(s)
    requires j + 1 < |Only(seg, sel)| && Only(seg, sel)[j] == m.active && d == Only(seg, sel)[j..] && Cycle(d)
    requires Last(Only(seg, sel)) == element && m.counterActive != null
    modifies m`preemptiveBytes, m`preemptiveStart, m`counterActive, m`active, element.chunk`preemptiveLoaded
    ensures forall q: seq<CyclicAtime> :: Elements(q) == Elements(s) ==> !Cycle(q)
  {
    hide Cycle, Only, Distinct;
    TornBehind(m, seg, sel, j);
    label L:
    TouchBehind(m, element);
    CycleKept@L(d);
    TornApart(s, seg, rest, sel, j);
  }

  /** touch after anything else. */
  method TouchSorted(m: CyclicManagedMemory, element: CyclicAtime, ghost s: seq<CyclicAtime>, ghost v: Schedule, ghost w: seq<Entry>,
                     ghost vs: set<nat>, ghost b: nat, ghost i: nat, ghost lo: nat,
                     ghost seg: seq<CyclicAtime>, ghost rest: seq<CyclicAtime>, ghost sel: set<CyclicAtime>)
    requires i < |s| == |w| && m.Valid() && Distinct(s) && RunAt(s, b, i, lo, seg, rest) && PutIn(m, s, v, w, i, seg, rest, sel)
    requires (forall x :: x in seg ==> (x in sel <==> !x.chunk.status.Out())) && element == s[i] && s[i] in seg && !s[i].chunk.status.Out()
    requires forall x :: x in m.ring <==> x in s
    modifies m, Elements(s)`next, Elements(s)`prev, element.chunk`preemptiveLoaded
    ensures m.Valid() && m.ring != [] && Elements(m.ring) == Elements(s)
    ensures old(m.preemptiveBytes) == Guessed(w) && (SortsBehind(v, w, vs, b, i, lo) || SortsActive(v, w, vs, b, i, lo)) ==>
              m.View() == Sorted(v, w, vs, b, i, lo)
  {
    hide Snaps, Cycle, OwnChunks, Guessed, RunAt, PutIn, Touched, Followed, Distinct, Sorted, SortsBehind, SortsActive, m.View, m.Valid;
    assert Elements(m.ring) == Elements(s);
    assert s[i] in s;
    ghost var idx := SortedTouched(m, s, v, w, vs, b, i, lo, seg, rest, sel);
    TouchLoaded(m, element, idx);
  }

  /** What has come in is put back. */
  method InsertAnswered(m: CyclicManagedMemory, readEl: CyclicAtime, element: CyclicAtime, activeInList: bool,
                        ghost s: seq<CyclicAtime>, ghost v: Schedule, ghost w: seq<Entry>, ghost b: nat, ghost i: nat, ghost lo: nat)
      returns (torn: bool, ghost seg: seq<CyclicAtime>, ghost rest: seq<CyclicAtime>, ghost sel: set<CyclicAtime>, ghost j: nat)
    requires Answered(m, s, w, b, i, lo, readEl, element, activeInList)
    requires |v.ring| == |s| && v.counter == m.counterAt && v.start == m.startAt
    modifies Elements(s)`next, Elements(s)`prev, m`active, m`counterActive, m`preemptiveStart, m`ring, m`counterAt, m`startAt
    ensures b < |w| && i < |w| == |s| && element == s[i] && (torn <==> TornAt(w, b, i, lo)) && Distinct(s)
    ensures !torn ==>
              && m.Valid() && RunAt(s, b, i, lo, seg, rest) && PutIn(m, s, v, w, i, seg, rest, sel)
              && (forall x :: x in seg ==> (x in sel <==> !x.chunk.status.Out())) && s[i] in seg && !s[i].chunk.status.Out()
              && forall x :: x in m.ring <==> x in s
    ensures torn ==>
              && rest != [] && seg != [] && Distinct(seg + rest) && Elements(seg + rest) == Elements(s) && m.counterActive != null
              && j + 1 < |Only(seg, sel)| && Only(seg, sel)[j] == m.active && Cycle(Only(seg, sel)[j..]) && Last(Only(seg, sel)) == element
  {
    hide Snaps, Cycle, OwnChunks, RunAt, PutIn, Only, Except, Distinct, Resorted, ComeIn, Torn, TornAt, From, Turned, FromBorder, m.View, m.Valid;
    AnsweredAt(m, s, w, b, i, lo, readEl, element, activeInList);
    seg, rest := AnsweredFacts(m, s, w, b, i, lo, readEl, element, activeInList);
    sel := ComeIn(seg);
    TornSeen(s[0], seg, rest, sel);
    CycleDistinct(seg + rest);
    CycleDistinct(s);
    torn := activeInList && m.active != element && element.next != readEl && !m.active.chunk.status.Out();
    label L:
    j := InsertAndRead(m, readEl, element, activeInList, seg, rest, sel);
    SnapsKept@L(s);
    if !torn {
      m.Neighbours(0);
      NowPutIn(m, s, v, w, i, seg, rest, sel);
    }
  }

  /** What has come in is put back and the requested chunk touched. */
  method SortLoaded(m: CyclicManagedMemory, readEl: CyclicAtime, element: CyclicAtime, activeInList: bool,
                    ghost s: seq<CyclicAtime>, ghost v: Schedule, ghost w: seq<Entry>, ghost vs: set<nat>, ghost b: nat, ghost i: nat, ghost lo: nat)
    requires Answered(m, s, w, b, i, lo, readEl, element, activeInList)
    requires |v.ring| == |s| && v.counter == m.counterAt && v.start == m.startAt
    modifies m, Elements(s)`next, Elements(s)`prev, element.chunk`preemptiveLoaded
    ensures b < |w| && i < |w| && |w| == |s|
    ensures !TornAt(w, b, i, lo) ==> m.Valid() && m.ring != [] && Elements(m.ring) == Elements(s)
    ensures TornAt(w, b, i, lo) ==> forall q: seq<CyclicAtime> :: Elements(q) == Elements(s) ==> !Cycle(q)
    ensures old(m.preemptiveBytes) == Guessed(w) && !TornAt(w, b, i, lo) && (SortsBehind(v, w, vs, b, i, lo) || SortsActive(v, w, vs, b, i, lo)) ==>
              m.View() == Sorted(v, w, vs, b, i, lo)
  {
    hide Cycle, Guessed, RunAt, PutIn, Only, Except, Distinct, TornAt, Sorted, SortsBehind, SortsActive, Answered, m.View, m.Valid;
    var torn;
    ghost var seg, rest, sel, j;
    torn, seg, rest, sel, j := InsertAnswered(m, readEl, element, activeInList, s, v, w, b, i, lo);
    if torn {
      TouchTorn(m, element, s, seg, rest, sel, j, Only(seg, sel)[j..]);
    } else {
      TouchSorted(m, element, s, v, w, vs, b, i, lo, seg, rest, sel);
    }
  }

  lemma TornBehind(m: CyclicManagedMemory, seg: seq<CyclicAtime>, sel: set<CyclicAtime>, j: nat)
    requires j + 1 < |Only(seg, sel)| && Only(seg, sel)[j] == m.active && Cycle(Only(seg, sel)[j..])
    ensures m.active.prev == Last(Only(seg, sel)) && m.active != Last(Only(seg, sel))
  {
    var d := Only(seg, sel)[j..];
    CycleLinks(d);
    CycleDistinct(d);
    assert d[0] == m.active && d[|d| - 1] == Last(Only(seg, sel));
  }

  lemma AnsweredAt(m: CyclicManagedMemory, s: seq<CyclicAtime>, w: seq<Entry>, b: nat, i: nat, lo: nat,
                   readEl: CyclicAtime, element: CyclicAtime, activeInList: bool)
    requires Answered(m, s, w, b, i, lo, readEl, element, activeInList)
    ensures b < |s| && i < |s| == |w| && w == Snaps(s) && m.ring == s && m.Valid() && element == s[i] && !element.chunk.status.Out()
    ensures m.counterAt < |s| && m.counterActive == s[m.counterAt] && m.startAt <= |s|
    ensures m.preemptiveStart == if m.startAt < |s| then s[m.startAt] else null
    ensures i == 0 ==> activeInList
  {
    m.Neighbours(0);
  }

  // ---------------------------------------------------------------- swapIn

  /** The positions in the ring of what was selected from the run that is read from behind position b. */
  ghost function Asks(n: nat, b: nat, ps: seq<nat>): set<nat>
    requires b < n
  {
    VictimSet(n, b, ps)
  }

  /** Where the run begins that is sorted, read from behind oldBorder. */
  ghost function RunFrom(r: seq<Entry>, b: nat, i: nat, g: Budget): nat
    requires b < |r| && i < |r|
  {
    BorderAt(r, b, i);
    PickFrom(Turned(r, b)[..FromBorder(|r|, b, i) + 1], g, b == i)
  }

  /** Both passes have selected ps with vol bytes, and the swap has answered. */
  ghost predicate Loading(v: Schedule, w: seq<Entry>, b: nat, i: nat, g: Budget, ps: seq<nat>, vol: nat, lo: nat) {
    && b < |v.ring| && i < |v.ring| == |w| && lo == RunFrom(v.ring, b, i, g) <= FromBorder(|w|, b, i)
    && Chosen(Turned(v.ring, b), Turned(w, b), FromBorder(|w|, b, i), g, ps, vol)
  }

  /** What is read in, and how far the walk from the requested chunk back to oldBorder goes: to the last chunk selected if that
      reaches the target or exactly what may be read ahead, else to the border. A border that is the requested chunk itself, and
      the only one selected, is taken for the end of a whole round. */
  ghost predicate ReadsGreedily(v: Schedule, b: nat, i: nat, g: Budget, ps: seq<nat>, vol: nat, lo: nat) {
    && b < |v.ring| && i < |v.ring| && FromBorder(|v.ring|, b, i) < |v.ring|
    && var r := Turned(v.ring, b)[..FromBorder(|v.ring|, b, i) + 1];
       && GreedyPicks(r, g, ps) && vol == Bytes(r, ps) && ps != []
       && var reached := vol >= g.target || vol - Last(r).size == g.ahead;
          lo == if reached && !(b == i && Last(ps) == |r| - 1) then Last(ps) else 0
  }

  lemma LoadingGreedily(v: Schedule, w: seq<Entry>, b: nat, i: nat, g: Budget, ps: seq<nat>, vol: nat, lo: nat)
    requires Loading(v, w, b, i, g, ps, vol, lo)
    requires v.ring[i].status.Swapped? && 0 < v.ring[i].size && v.ring[i].size + g.used <= g.max
    ensures ReadsGreedily(v, b, i, g, ps, vol, lo)
  {
    hide Picks, PickEnd, Bytes, Distinct, OnlyStatus, Flagged, GreedyPicks, FromBorder, Turned;
    var r := Turned(v.ring, b)[..FromBorder(|v.ring|, b, i) + 1];
    TurnedLength(v.ring, b);
    BorderAt(v.ring, b, i);
    PicksGreedy(r, g);
    PickEndIs(r, g);
  }

  lemma AskedWhere(n: nat, b: nat, ps: seq<nat>, p: nat)
    requires b < n && p in Asks(n, b, ps)
    ensures exists q: nat :: q in ps && q < n && ToRing(n, b, q) == p
  {
  }

  /** The cases in which it is known what the ring shows are reached from an ordered state. */
  lemma LoadingSorts(v: Schedule, w: seq<Entry>, b: nat, i: nat, g: Budget, ps: seq<nat>, vol: nat, lo: nat)
    requires Normal(v) && Loading(v, w, b, i, g, ps, vol, lo) && !w[i].status.Out()
    ensures v.counter <= b < i < v.start ==> SortsBehind(v, w, Asks(|w|, b, ps), b, i, lo)
    ensures AllGone(v) && i == 0 ==> SortsActive(v, w, Asks(|w|, b, ps), b, i, lo)
    ensures (v.counter <= b < i < v.start) || (AllGone(v) && i == 0) ==> !TornAt(w, b, i, lo)
    ensures Guessed(w) == v.bytes + vol - v.ring[i].size
  {
    hide Picks, PickEnd, Bytes, Distinct, Turned, Guessed, OnlyStatus, Flagged, VictimSet;
    var vs := Asks(|w|, b, ps);
    ChosenAsked(v.ring, w, b, i, g, ps, vol);
    OrderedUnflagged(v);
    ChosenBytes(v.ring, w, b, i, g, ps, vol);
    forall p: nat | p in vs
      ensures b < i ==> b + 1 + lo <= p <= i
      ensures i == 0 ==> p == 0 || b + 1 + lo <= p < |w|
    {
      AskedWhere(|w|, b, ps, p);
      var q: nat :| q in ps && q < |w| && ToRing(|w|, b, q) == p;
      FromWithin(Turned(v.ring, b)[..FromBorder(|w|, b, i) + 1], g, b == i);
    }
    OrderedParts(v);
  }

  lemma OrderedParts(v: Schedule)
    requires Normal(v) && v.ring != []
    ensures v.counter < v.start <= |v.ring| && (AllGone(v) ==> v.start == |v.ring|)
  {
  }

  lemma OrderedUnflagged(v: Schedule)
    requires Normal(v)
    ensures forall k :: 0 <= k < |v.ring| && v.ring[k].status.Swapped? ==> !v.ring[k].preemptive
  {
  }

  /** The two cases in which the order is known. */
  ghost predicate ShowsSorted(m: CyclicManagedMemory, v: Schedule, w: seq<Entry>, vs: set<nat>, b: nat, i: nat, lo: nat)
    reads m, ChunksOf(m.ring)`status, ChunksOf(m.ring)`useCnt, ChunksOf(m.ring)`preemptiveLoaded
  {
    && (SortsBehind(v, w, vs, b, i, lo) || SortsActive(v, w, vs, b, i, lo)) && m.View() == Sorted(v, w, vs, b, i, lo)
    && (SortsBehind(v, w, vs, b, i, lo) ==>
          (Normal(m.View()) <==> NoneRefused(w, vs) && !(AllGone(v) && w[0].status.SwapOut?)))
    && (SortsActive(v, w, vs, b, i, lo) ==>
          (Normal(m.View()) <==>
             NoneRefused(w, vs) && if b + lo > 0 then vs == {0} && !Last(w).status.SwapOut? else |w| == 1 || w[1].status.Swapped?))
  }

  lemma SortedOrder(v: Schedule, w: seq<Entry>, vs: set<nat>, b: nat, i: nat, lo: nat)
    requires SortsBehind(v, w, vs, b, i, lo) || SortsActive(v, w, vs, b, i, lo)
    ensures SortsBehind(v, w, vs, b, i, lo) ==>
              (Normal(Sorted(v, w, vs, b, i, lo)) <==> NoneRefused(w, vs) && !(AllGone(v) && w[0].status.SwapOut?))
    ensures SortsActive(v, w, vs, b, i, lo) ==> w != []
    ensures SortsActive(v, w, vs, b, i, lo) ==>
              (Normal(Sorted(v, w, vs, b, i, lo)) <==>
                 NoneRefused(w, vs) && if b + lo > 0 then vs == {0} && !Last(w).status.SwapOut? else |w| == 1 || w[1].status.Swapped?)
  {
    hide Guessed, Kept, Outs, NoneRefused, LoadedActive, Loaded, Followed, Normal, Behind, AroundActive;
    if SortsBehind(v, w, vs, b, i, lo) {
      LoadedKeepsOrder(v, w, vs, b + 1 + lo, i);
    } else {
      ActiveKeepsOrder(v, w, vs, b + 1 + lo);
    }
  }

  lemma LoadingState(m: CyclicManagedMemory, s: seq<CyclicAtime>, v: Schedule, w: seq<Entry>, b: nat, i: nat, g: Budget, ps: seq<nat>,
                     vol: nat, lo: nat, readEl: CyclicAtime, element: CyclicAtime, activeInList: bool,
                     t: seq<CyclicAtime>, e: nat, es: seq<Entry>)
    requires m.ring == s && m.Valid() && w == Snaps(s) && b < |s| && i < |s| == |v.ring| && element == s[i]
    requires t == Turned(s, b) && e == FromBorder(|s|, b, i) < |t| && e < |Turned(v.ring, b)| && es == Turned(v.ring, b)[..e + 1]
    requires Chosen(Turned(v.ring, b), Turned(w, b), e, g, ps, vol)
    requires lo == PickFrom(es, g, e + 1 == |t|) <= e && readEl == t[lo] && PickEnd(es, g, 0, 0) <= e
    requires activeInList <==> s[0] in t[PickEnd(es, g, 0, 0)..e + 1]
    ensures Loading(v, w, b, i, g, ps, vol, lo)
    ensures !element.chunk.status.Out() ==> Answered(m, s, w, b, i, lo, readEl, element, activeInList)
  {
    hide Snaps, Picks, PickEnd, PickFrom, Chosen, Turned, FromBorder, m.Valid;
    BorderAt(s, b, i);
    BorderAt(v.ring, b, i);
    var q := PickEnd(es, g, 0, 0);
    FromEither(es, g, e + 1 == |t|);
    if i == 0 {
      RequestedWithin(t, q, e);
    }
  }

  lemma FromEither(es: seq<Entry>, g: Budget, whole: bool)
    ensures var q := PickEnd(es, g, 0, 0); PickFrom(es, g, whole) == if whole && q + 1 == |es| then 0 else q
  {
  }

  lemma RequestedWithin<T>(t: seq<T>, q: nat, e: nat)
    requires q <= e < |t|
    ensures t[e] in t[q..e + 1]
  {
    assert t[q..e + 1][e - q] == t[e];
  }

  /** The selection, and the swap's answers. */
  method FetchAhead(m: CyclicManagedMemory, element: CyclicAtime, oldBorder: CyclicAtime, g: Budget, answer: Fetches, ghost b: nat, ghost i: nat)
      returns (readEl: CyclicAtime, activeInList: bool, vol: nat, ghost w: seq<Entry>, ghost ps: seq<nat>, ghost lo: nat)
    requires m.Valid() && b < |m.ring| && i < |m.ring| && m.ring[b] == oldBorder && m.ring[i] == element
    requires element.chunk.status.Swapped? && 0 < element.chunk.size && element.chunk.size + g.used <= g.max
    modifies ChunksOf(m.ring)`status, ChunksOf(m.ring)`preemptiveLoaded
    ensures m.Valid() && w == Snaps(m.ring) && |w| == |m.ring| && Loading(old(m.View()), w, b, i, g, ps, vol, lo)
    ensures !element.chunk.status.Out() ==> Answered(m, m.ring, w, b, i, lo, readEl, element, activeInList)
  {
    hide Cycle, OwnChunks, Snaps, Chosen, Loading, Answered, Turned, FromBorder, PickFrom, PickEnd, Picks, m.CursorsOk;
    ghost var v, s := m.View(), m.ring;
    ghost var t, e := Turned(s, b), FromBorder(|s|, b, i);
    m.Neighbours(0);
    TurnedSame(s, b);
    BorderAt(s, b, i);
    SnapsTurned(s, b);
    label L:
    readEl, activeInList, vol, ps := FetchPicks(m, element, oldBorder, g, answer, t, e);
    CycleKept@L(s);
    m.Assembled();
    ghost var es := Turned(v.ring, b)[..e + 1];
    w, lo := Snaps(s), PickFrom(es, g, e + 1 == |t|);
    SnapsTurned(s, b);
    SnapsLength(s);
    LoadingState(m, s, v, w, b, i, g, ps, vol, lo, readEl, element, activeInList, t, e, es);
  }

  /** swapIn with reading ahead, once there is room for the requested chunk: the selection, and where it goes. oldBorder is
      where counterActive stood before room was made. The result is false, in the program an exception, if the swap
      refuses the requested chunk itself. */
  method SwapInAhead(m: CyclicManagedMemory, element: CyclicAtime, oldBorder: CyclicAtime, g: Budget, answer: Fetches, ghost b: nat, ghost i: nat)
      returns (ok: bool, vol: nat, ghost w: seq<Entry>, ghost ps: seq<nat>, ghost lo: nat)
    requires m.Valid() && b < |m.ring| && i < |m.ring| && m.ring[b] == oldBorder && m.ring[i] == element
    requires element.chunk.status.Swapped? && 0 < element.chunk.size && element.chunk.size + g.used <= g.max
    modifies m, Elements(m.ring)`next, Elements(m.ring)`prev, ChunksOf(m.ring)`status, ChunksOf(m.ring)`preemptiveLoaded
    ensures Loading(old(m.View()), w, b, i, g, ps, vol, lo) && (ok <==> !w[i].status.Out())
    ensures ReadsGreedily(old(m.View()), b, i, g, ps, vol, lo)
    ensures !ok ==> m.Valid() && m.ring == old(m.ring) && m.View() == old(m.View()).(ring := w)
    ensures ok && !TornAt(w, b, i, lo) ==> m.Valid() && m.ring != [] && Elements(m.ring) == old(Elements(m.ring))
    ensures ok && TornAt(w, b, i, lo) ==> forall q: seq<CyclicAtime> :: Elements(q) == old(Elements(m.ring)) ==> !Cycle(q)
    ensures var v := old(m.View());
            ok && Normal(v) && ((v.counter <= b < i < v.start) || (AllGone(v) && i == 0)) ==>
              ShowsSorted(m, v, w, Asks(|w|, b, ps), b, i, lo)
  {
    hide Cycle, OwnChunks, Snaps, Normal, Guessed, Loading, Answered, ShowsSorted, TornAt, Asks, AllGone, ReadsGreedily, m.CursorsOk, m.Valid;
    ghost var v, s := m.View(), m.ring;
    var readEl, activeInList;
    m.Neighbours(i);
    readEl, activeInList, vol, w, ps, lo := FetchAhead(m, element, oldBorder, g, answer, b, i);
    assert w[i] == Snap(element);
    LoadingSize(v, w, b, i, g, ps, vol, lo);
    LoadingGreedily(v, w, b, i, g, ps, vol, lo);
    ok := !element.chunk.status.Out();
    if ok {
      assert v.ring[i].size == element.chunk.size;
      FinishLoading(m, readEl, element, activeInList, vol, s, v, w, b, i, g, ps, lo);
    }
  }

  lemma LoadingSize(v: Schedule, w: seq<Entry>, b: nat, i: nat, g: Budget, ps: seq<nat>, vol: nat, lo: nat)
    requires Loading(v, w, b, i, g, ps, vol, lo)
    ensures b < |v.ring| && i < |v.ring| == |w|
  {
  }

  method BookAhead(m: CyclicManagedMemory, vol: nat, ghost s: seq<CyclicAtime>, ghost w: seq<Entry>, ghost b: nat, ghost i: nat, ghost lo: nat,
                   readEl: CyclicAtime, element: CyclicAtime, activeInList: bool)
    requires Answered(m, s, w, b, i, lo, readEl, element, activeInList)
    modifies m`preemptiveBytes
    ensures Answered(m, s, w, b, i, lo, readEl, element, activeInList)
    ensures m.preemptiveBytes == old(m.preemptiveBytes) + vol - element.chunk.size
  {
    hide Cycle, OwnChunks, Snaps, Turned, FromBorder, m.CursorsOk;
    m.Neighbours(i);
    label L:
    m.preemptiveBytes := m.preemptiveBytes + vol - element.chunk.size;
    CycleKept@L(s);
    m.Assembled();
  }

  /** The requested chunk has come in: book what was read ahead, and sort. */
  method FinishLoading(m: CyclicManagedMemory, readEl: CyclicAtime, element: CyclicAtime, activeInList: bool, vol: nat,
                       ghost s: seq<CyclicAtime>, ghost v: Schedule, ghost w: seq<Entry>, ghost b: nat, ghost i: nat, g: Budget,
                       ghost ps: seq<nat>, ghost lo: nat)
    requires Answered(m, s, w, b, i, lo, readEl, element, activeInList) && Loading(v, w, b, i, g, ps, vol, lo)
    requires v.counter == m.counterAt && v.start == m.startAt && v.bytes == m.preemptiveBytes && element.chunk.size == v.ring[i].size
    modifies m, Elements(s)`next, Elements(s)`prev, element.chunk`preemptiveLoaded
    ensures b < |w| && i < |w|
    ensures !TornAt(w, b, i, lo) ==> m.Valid() && m.ring != [] && Elements(m.ring) == Elements(s)
    ensures TornAt(w, b, i, lo) ==> forall q: seq<CyclicAtime> :: Elements(q) == Elements(s) ==> !Cycle(q)
    ensures Normal(v) && ((v.counter <= b < i < v.start) || (AllGone(v) && i == 0)) ==> ShowsSorted(m, v, w, Asks(|w|, b, ps), b, i, lo)
  {
    hide Cycle, OwnChunks, Snaps, Chosen, Normal, Guessed, TornAt, Turned, FromBorder, Sorted, SortsBehind, SortsActive, NoneRefused, Asks, AllGone,
      m.Valid, m.View;
    AnsweredAt(m, s, w, b, i, lo, readEl, element, activeInList);
    assert w[i] == Snap(element);
    ghost var vs := Asks(|w|, b, ps);
    ghost var ordered := Normal(v) && ((v.counter <= b < i < v.start) || (AllGone(v) && i == 0));
    if ordered {
      LoadingSorts(v, w, b, i, g, ps, vol, lo);
      SortedOrder(v, w, vs, b, i, lo);
    }
    BookAhead(m, vol, s, w, b, i, lo, readEl, element, activeInList);
    SortLoaded(m, readEl, element, activeInList, s, v, w, vs, b, i, lo);
  }
}
