/** swapOut as a whole: ring, result and sections. */
module SwapOutOrder {
  import opened Ring
  import opened Sections
  import opened Scheduler
  import opened Filtering
  import opened Unloading
  import opened Yielding
  import opened SwappingOut

  // ---------------------------------------------------------------- the reordered ring, read from active

  /** Where a position of the walk is in the ring. */
  ghost function ToRing(n: nat, c: nat, p: nat): nat
    requires c < n && p < n
  {
    if p < n - 1 - c then p + c + 1 else p - (n - 1 - c)
  }

  ghost function ReorderedRing(s: seq<CyclicAtime>, c: nat, j: nat, sel: set<CyclicAtime>): seq<CyclicAtime>
    requires c < |s| && j < |s|
  {
    if j <= c then s[..j] + Except(s[j..c + 1], sel) + Only(s[j..c + 1], sel) + s[c + 1..]
    else Except(s[..c + 1], sel) + Only(s[j..], sel) + Only(s[..c + 1], sel) + s[c + 1..j] + Except(s[j..], sel)
  }

  lemma {:induction false} OnlyConcat<T>(a: seq<T>, b: seq<T>, p: set<T>)
    ensures Only(a + b, p) == Only(a, p) + Only(b, p) && Except(a + b, p) == Except(a, p) + Except(b, p)
  {
    if b == [] {
      assert a + b == a;
    } else {
      var x, d := b[|b| - 1], b[..|b| - 1];
      assert a + b == (a + d) + [x] && b == d + [x];
      OnlyConcat(a, d, p);
      OnlyStep(a + d, x, p);
      OnlyStep(d, x, p);
    }
  }

  lemma FromIs(s: seq<CyclicAtime>, a: seq<CyclicAtime>, b: seq<CyclicAtime>)
    requires s == a + b && b != [] && Distinct(s)
    ensures b[0] in s && From(s, b[0]) == b + a
  {
    assert s[|a|] == b[0];
    assert IndexOf(s, b[0]) == |a|;
    assert s[|a|..] == b && s[..|a|] == a;
  }

  /** The first of s, when it is not selected, is the first of what is kept. */
  lemma {:induction false} FirstOfKept<T>(s: seq<T>, p: set<T>)
    requires s != [] && s[0] !in p
    ensures Except(s, p) != [] && Except(s, p)[0] == s[0]
    decreases |s|
  {
    if |s| > 1 {
      FirstOfKept(s[..|s| - 1], p);
    } else {
      assert s[..0] == [];
    }
  }

  lemma WalkInside(s: seq<CyclicAtime>, c: nat, k: nat, sel: set<CyclicAtime>)
    requires c < |s| && |s| - 1 - c < k < |s| && Distinct(s)
    requires var r := Turned(s, c); Distinct(r[..k] + Except(r[k..], sel) + Only(r[k..], sel))
    ensures var r, j := Turned(s, c), k - (|s| - 1 - c);
            var t := r[..k] + Except(r[k..], sel) + Only(r[k..], sel);
            s[0] in t && From(t, s[0]) == ReorderedRing(s, c, j, sel)
  {
    hide Only, Except, Distinct, From;
    var r, j := Turned(s, c), k - (|s| - 1 - c);
    var seg := s[j..c + 1];
    assert r[..k] == s[c + 1..] + s[..j] && r[k..] == seg;
    var b := s[..j] + Except(seg, sel) + Only(seg, sel);
    assert r[..k] + Except(seg, sel) + Only(seg, sel) == s[c + 1..] + b;
    assert b[0] == s[0];
    FromIs(s[c + 1..] + b, s[c + 1..], b);
  }

  lemma WalkAround(s: seq<CyclicAtime>, c: nat, k: nat, sel: set<CyclicAtime>)
    requires c < |s| && k < |s| - 1 - c && s[0] !in sel
    requires var r := Turned(s, c); Distinct(r[..k] + Except(r[k..], sel) + Only(r[k..], sel))
    ensures var r, j := Turned(s, c), k + c + 1;
            var t := r[..k] + Except(r[k..], sel) + Only(r[k..], sel);
            && Except(r[k..], sel) == Except(s[j..], sel) + Except(s[..c + 1], sel) && Except(s[..c + 1], sel) != []
            && s[0] in t && From(t, s[0]) == ReorderedRing(s, c, j, sel)
  {
    hide Only, Except, Distinct, From;
    var r, j := Turned(s, c), k + c + 1;
    assert r[..k] == s[c + 1..j] && r[k..] == s[j..] + s[..c + 1];
    OnlyConcat(s[j..], s[..c + 1], sel);
    FirstOfKept(s[..c + 1], sel);
    var k1, k2, s1, s2 := Except(s[j..], sel), Except(s[..c + 1], sel), Only(s[j..], sel), Only(s[..c + 1], sel);
    var m := s[c + 1..j];
    assert m + (k1 + k2) + (s1 + s2) == (m + k1) + (k2 + s1 + s2);
    FromIs((m + k1) + (k2 + s1 + s2), m + k1, k2 + s1 + s2);
    assert (k2 + s1 + s2) + (m + k1) == k2 + s1 + s2 + m + k1;
  }

  // ---------------------------------------------------------------- what it shows

  lemma KeptStep(es: seq<Entry>, e: Entry)
    ensures Kept(es + [e]) == Kept(es) + if e.status.Out() then [] else [e]
    ensures Outs(es + [e]) == Outs(es) + if e.status.Out() then [e] else []
  {
    assert Front(es + [e]) == es;
  }

  lemma SnapsMore(s: seq<CyclicAtime>, t: seq<CyclicAtime>, x: CyclicAtime)
    ensures Snaps(s + t) == Snaps(s) + Snaps(t) && Snaps([x]) == [Snap(x)] && Snaps([]) == []
  {
    SnapsConcat(s, t);
    SnapsOne(x);
  }

  lemma {:induction false} SnapsParted(s: seq<CyclicAtime>, sel: set<CyclicAtime>)
    requires forall e :: e in s ==> (e in sel <==> e.chunk.status.Out())
    ensures Snaps(Except(s, sel)) == Kept(Snaps(s)) && Snaps(Only(s, sel)) == Outs(Snaps(s))
    decreases |s|
  {
    if s == [] {
      NothingParted(sel);
    } else {
      hide Snaps, Kept, Outs, Only, Except;
      var x, d := s[|s| - 1], s[..|s| - 1];
      assert s == d + [x];
      assert forall e :: e in d ==> e in s;
      SnapsParted(d, sel);
      OnlyStep(d, x, sel);
      SnapsMore(d, [x], x);
      KeptStep(Snaps(d), Snap(x));
      SnapsMore(Except(d, sel), if x in sel then [] else [x], x);
      SnapsMore(Only(d, sel), if x in sel then [x] else [], x);
    }
  }

  lemma NothingParted(sel: set<CyclicAtime>)
    ensures Snaps(Except([], sel)) == Kept(Snaps([])) && Snaps(Only([], sel)) == Outs(Snaps([]))
  {
  }

  lemma SnapsSlice(s: seq<CyclicAtime>, i: nat, j: nat)
    requires i <= j <= |s|
    ensures Snaps(s[i..j]) == Snaps(s)[i..j]
  {
    hide Snaps;
    SnapsAre(s[i..j], Snaps(s)[i..j]);
  }

  lemma SnapsCut(s: seq<CyclicAtime>, i: nat)
    requires i <= |s|
    ensures Snaps(s[..i]) == Snaps(s)[..i] && Snaps(s[i..]) == Snaps(s)[i..]
  {
    hide Snaps;
    SnapsAre(s[..i], Snaps(s)[..i]);
    SnapsAre(s[i..], Snaps(s)[i..]);
  }

  lemma ShowsInside(s: seq<CyclicAtime>, c: nat, j: nat, sel: set<CyclicAtime>)
    requires j <= c < |s| && forall e :: e in s[j..c + 1] ==> (e in sel <==> e.chunk.status.Out())
    ensures Snaps(ReorderedRing(s, c, j, sel)) == Reordered(Snaps(s), c, j)
  {
    hide Snaps, Kept, Outs, Only, Except;
    var seg := s[j..c + 1];
    SnapsParted(seg, sel);
    SnapsSlice(s, j, c + 1);
    SnapsCut(s, j);
    SnapsCut(s, c + 1);
    SnapsFour(s[..j], Except(seg, sel), Only(seg, sel), s[c + 1..]);
  }

  lemma ShowsAround(s: seq<CyclicAtime>, c: nat, j: nat, sel: set<CyclicAtime>)
    requires c < j < |s| && forall e :: e in s[j..] || e in s[..c + 1] ==> (e in sel <==> e.chunk.status.Out())
    ensures Snaps(ReorderedRing(s, c, j, sel)) == Reordered(Snaps(s), c, j)
  {
    hide Snaps, Kept, Outs, Only, Except, ReorderedRing, Reordered;
    var front, mid, back := s[..c + 1], s[c + 1..j], s[j..];
    SnapsParted(back, sel);
    SnapsParted(front, sel);
    SnapsCut(s, j);
    SnapsCut(s, c + 1);
    SnapsSlice(s, c + 1, j);
    AroundIs(s, Snaps(s), c, j, sel);
    SnapsFour(Except(front, sel), Only(back, sel), Only(front, sel), mid);
    SnapsConcat(Except(front, sel) + Only(back, sel) + Only(front, sel) + mid, Except(back, sel));
  }

  lemma AroundIs(s: seq<CyclicAtime>, w: seq<Entry>, c: nat, j: nat, sel: set<CyclicAtime>)
    requires c < j < |s| && |w| == |s|
    ensures ReorderedRing(s, c, j, sel) == Except(s[..c + 1], sel) + Only(s[j..], sel) + Only(s[..c + 1], sel) + s[c + 1..j] + Except(s[j..], sel)
    ensures Reordered(w, c, j) == Kept(w[..c + 1]) + Outs(w[j..]) + Outs(w[..c + 1]) + w[c + 1..j] + Kept(w[j..])
  {
  }

  lemma SnapsFour(a: seq<CyclicAtime>, b: seq<CyclicAtime>, c: seq<CyclicAtime>, d: seq<CyclicAtime>)
    ensures Snaps(a + b + c + d) == Snaps(a) + Snaps(b) + Snaps(c) + Snaps(d)
  {
    hide Snaps;
    SnapsConcat(a + b + c, d);
    SnapsConcat(a + b, c);
    SnapsConcat(a, b);
  }

  // ---------------------------------------------------------------- where the cursors are in it

  lemma CursorsInside(s: seq<CyclicAtime>, c: nat, j: nat, sel: set<CyclicAtime>)
    requires 0 < j <= c < |s|
    ensures var t, kept := ReorderedRing(s, c, j, sel), Except(s[j..c + 1], sel);
            && |t| == |s| && j + |kept| - 1 < |t|
            && t[j + |kept| - 1] == (if kept != [] then Last(kept) else s[j - 1])
            && forall i :: c < i < |s| ==> t[i] == s[i]
  {
    hide Only, Except;
    OnlyElements(s[j..c + 1], sel);
  }

  lemma CursorsAround(s: seq<CyclicAtime>, c: nat, j: nat, sel: set<CyclicAtime>)
    requires c < j < |s| && Except(s[..c + 1], sel) != []
    ensures var t, k2 := ReorderedRing(s, c, j, sel), Except(s[..c + 1], sel);
            var d := |k2| + |Only(s[j..], sel)| + |Only(s[..c + 1], sel)|;
            && |t| == |s| && |k2| - 1 < |t| && t[|k2| - 1] == Last(k2)
            && d + j - (c + 1) <= |t| && t[d..d + j - (c + 1)] == s[c + 1..j]
  {
    hide Only, Except;
    OnlyElements(s[j..], sel);
    OnlyElements(s[..c + 1], sel);
  }

  lemma ViewIs(m: CyclicManagedMemory, v: Schedule)
    requires m.Valid() && m.ring != [] && Snaps(m.ring) == v.ring && m.preemptiveBytes == v.bytes
    requires v.counter < |m.ring| && m.counterActive == m.ring[v.counter]
    requires if v.start < |m.ring| then m.preemptiveStart == m.ring[v.start] else v.start == |m.ring| && m.preemptiveStart == null
    ensures m.View() == v
  {
    m.Neighbours(m.counterAt);
  }

  // ---------------------------------------------------------------- the selection, by position in the ring

  ghost function VictimSet(n: nat, c: nat, ps: seq<nat>): set<nat>
    requires c < n
  {
    set p | p in ps && p < n :: ToRing(n, c, p)
  }

  lemma InVictimSet(n: nat, c: nat, ps: seq<nat>, p: nat)
    requires c < n && p < n && forall q :: q in ps ==> q < n
    ensures ToRing(n, c, p) in VictimSet(n, c, ps) <==> p in ps
    ensures ToRing(n, c, p) < n && (ToRing(n, c, p) == 0 <==> p == n - 1 - c)
  {
    if q :| q in ps && q < n && ToRing(n, c, q) == ToRing(n, c, p) {
      assert q == p;
    }
  }

  /** Turned back. */
  lemma TurnedAt<T>(s: seq<T>, c: nat, p: nat)
    requires c < |s| && p < |s|
    ensures Turned(s, c)[p] == s[ToRing(|s|, c, p)]
  {
  }

  lemma MarkedRing(es: seq<Entry>, w: seq<Entry>, c: nat, ps: seq<nat>)
    requires |w| == |es| && c < |es| && MarkedAt(Turned(es, c), Turned(w, c), ps)
    requires forall q :: q in ps ==> q < |es| && Idle(Turned(es, c)[q])
    ensures Marked(es, w, VictimSet(|es|, c, ps))
  {
    forall i | 0 <= i < |es|
      ensures if i in VictimSet(|es|, c, ps) then Idle(es[i]) && w[i] == es[i].(status := w[i].status, preemptive := false) else w[i] == es[i]
    {
      var p := if i > c then i - c - 1 else i + (|es| - 1 - c);
      TurnedAt(es, c, p);
      TurnedAt(w, c, p);
      InVictimSet(|es|, c, ps, p);
      assert ToRing(|es|, c, p) == i;
    }
  }

  lemma SnapsTurned(s: seq<CyclicAtime>, c: nat)
    requires c < |s|
    ensures Snaps(Turned(s, c)) == Turned(Snaps(s), c)
  {
    hide Snaps;
    SnapsCut(s, c + 1);
    SnapsConcat(s[c + 1..], s[..c + 1]);
  }

  lemma GuessedTurned(es: seq<Entry>, c: nat)
    requires c < |es|
    ensures Guessed(Turned(es, c)) == Guessed(es)
  {
    hide Guessed;
    assert es == es[..c + 1] + es[c + 1..];
    GuessedConcat(es[..c + 1], es[c + 1..]);
    GuessedConcat(es[c + 1..], es[..c + 1]);
  }

  /** How far the selection reaches around the ring. */
  lemma Reach(n: nat, c: nat, ps: seq<nat>)
    requires c < n && ps != [] && Last(ps) < n && Descending(ps) && (forall q :: q in ps ==> q < n) && n - 1 - c !in ps
    ensures var vs, j := VictimSet(n, c, ps), ToRing(n, c, Last(ps));
            && j in vs && 0 !in vs && j < n
            && forall i :: i in vs ==> if j <= c then j <= i <= c else i <= c || j <= i < n
  {
    assert Last(ps) in ps;
    InVictimSet(n, c, ps, Last(ps));
    InVictimSet(n, c, ps, n - 1 - c);
    var vs, j := VictimSet(n, c, ps), ToRing(n, c, Last(ps));
    forall i | i in vs
      ensures if j <= c then j <= i <= c else i <= c || j <= i < n
    {
      var p :| p in ps && p < n && ToRing(n, c, p) == i;
      var q :| 0 <= q < |ps| && ps[q] == p;
      assert p >= Last(ps);
    }
  }

  // ---------------------------------------------------------------- all together

  /** The ring that Rearrange leaves when active was not selected, in terms of the ring s before and of what has gone out of
      the part of the walk from k on. */
  ghost predicate Rearranged(m: CyclicManagedMemory, s: seq<CyclicAtime>, c: nat, k: nat, sel: set<CyclicAtime>)
    requires c < |s| && k < |s|
    reads m
  {
    var r := Turned(s, c);
    var kept, t := Except(r[k..], sel), r[..k] + Except(r[k..], sel) + Only(r[k..], sel);
    && Distinct(t) && s[0] in t && m.ring == From(t, s[0])
    && m.counterActive == if kept != [] then Last(kept) else if k > 0 then Last(r[..k]) else s[0]
  }

  lemma RingInside(m: CyclicManagedMemory, s: seq<CyclicAtime>, c: nat, k: nat, sel: set<CyclicAtime>)
    requires c < |s| && |s| - 1 - c < k < |s| && Distinct(s) && Rearranged(m, s, c, k, sel)
    requires forall e :: e in Turned(s, c)[k..] ==> (e in sel <==> e.chunk.status.Out())
    ensures var j, t := k - (|s| - 1 - c), m.ring;
            && 0 < j <= c && |t| == |s| && Snaps(t) == Reordered(Snaps(s), c, j)
            && j + |Kept(Snaps(s)[j..c + 1])| - 1 < |t| && m.counterActive == t[j + |Kept(Snaps(s)[j..c + 1])| - 1]
            && forall i :: c < i < |s| ==> t[i] == s[i]
  {
    hide Only, Except, Distinct, From, Snaps, Kept, Reordered, Outs, Turned, ReorderedRing;
    var j := k - (|s| - 1 - c);
    WalkInside(s, c, k, sel);
    TurnedInside(s, c, k);
    ShowsInside(s, c, j, sel);
    CursorsInside(s, c, j, sel);
    KeptInside(s, c, j, sel);
  }

  lemma TurnedInside(s: seq<CyclicAtime>, c: nat, k: nat)
    requires c < |s| && |s| - 1 - c < k < |s|
    ensures var j, r := k - (|s| - 1 - c), Turned(s, c); 0 < j && |r| == |s| && r[k..] == s[j..c + 1] && Last(r[..k]) == s[j - 1]
  {
  }

  lemma KeptInside(s: seq<CyclicAtime>, c: nat, j: nat, sel: set<CyclicAtime>)
    requires j <= c < |s| && forall e :: e in s[j..c + 1] ==> (e in sel <==> e.chunk.status.Out())
    ensures |Snaps(s)| == |s| && |Kept(Snaps(s)[j..c + 1])| == |Except(s[j..c + 1], sel)|
  {
    hide Only, Except, Snaps, Kept, Outs;
    SnapsParted(s[j..c + 1], sel);
    SnapsSlice(s, j, c + 1);
    SnapsLength(Except(s[j..c + 1], sel));
  }

  /** The pieces of the ring and the pieces of what it shows. */
  lemma PiecesShow(s: seq<CyclicAtime>, c: nat, j: nat, sel: set<CyclicAtime>)
    requires c < j < |s| && forall e :: e in s[j..] || e in s[..c + 1] ==> (e in sel <==> e.chunk.status.Out())
    ensures var es := Snaps(s);
            && |Except(s[..c + 1], sel)| == |Kept(es[..c + 1])| && |Only(s[..c + 1], sel)| == |Outs(es[..c + 1])|
            && |Only(s[j..], sel)| == |Outs(es[j..])|
  {
    hide Only, Except, Snaps, Kept, Outs;
    SnapsParted(s[j..], sel);
    SnapsParted(s[..c + 1], sel);
    SnapsCut(s, j);
    SnapsCut(s, c + 1);
    SnapsLength(Except(s[..c + 1], sel));
    SnapsLength(Only(s[..c + 1], sel));
    SnapsLength(Only(s[j..], sel));
  }

  lemma SnapsLength(s: seq<CyclicAtime>)
    ensures |Snaps(s)| == |s|
  {
  }

  lemma RingAround(m: CyclicManagedMemory, s: seq<CyclicAtime>, c: nat, k: nat, sel: set<CyclicAtime>)
    requires c < |s| && k < |s| - 1 - c && s[0] !in sel && Rearranged(m, s, c, k, sel)
    requires forall e :: e in Turned(s, c)[k..] ==> (e in sel <==> e.chunk.status.Out())
    ensures var j, t, es := k + c + 1, m.ring, Snaps(s);
            var d := |Kept(es[..c + 1])| + |Outs(es[j..])| + |Outs(es[..c + 1])|;
            && c < j < |s| && |t| == |s| && Snaps(t) == Reordered(es, c, j) && Kept(es[..c + 1]) != []
            && |Kept(es[..c + 1])| - 1 < |t| && m.counterActive == t[|Kept(es[..c + 1])| - 1]
            && forall i :: c < i < j ==> d + i - (c + 1) < |t| && t[d + i - (c + 1)] == s[i]
  {
    hide Only, Except, Distinct, From, Snaps, Kept, Reordered, Outs, ReorderedRing;
    var j := k + c + 1;
    WalkAround(s, c, k, sel);
    TurnedPieces(s, c, k);
    ShowsAround(s, c, j, sel);
    CursorsAround(s, c, j, sel);
    PiecesShow(s, c, j, sel);
    LastOfConcat(Except(s[j..], sel), Except(s[..c + 1], sel));
    var es := Snaps(s);
    var d := |Kept(es[..c + 1])| + |Outs(es[j..])| + |Outs(es[..c + 1])|;
    assert d == |Except(s[..c + 1], sel)| + |Only(s[j..], sel)| + |Only(s[..c + 1], sel)|;
    MiddleAt(m.ring, s, d, c + 1, j);
  }

  lemma MiddleAt<T>(t: seq<T>, s: seq<T>, d: nat, lo: nat, hi: nat)
    requires lo <= hi <= |s| && d + hi - lo <= |t| && t[d..d + hi - lo] == s[lo..hi]
    ensures forall i :: lo <= i < hi ==> d + i - lo < |t| && t[d + i - lo] == s[i]
  {
    forall i | lo <= i < hi
      ensures t[d + i - lo] == s[i]
    {
      assert t[d..d + hi - lo][i - lo] == s[lo..hi][i - lo];
    }
  }

  lemma TurnedPieces(s: seq<CyclicAtime>, c: nat, k: nat)
    requires c < |s| && k < |s| - 1 - c
    ensures forall e :: e in s[k + c + 1..] || e in s[..c + 1] ==> e in Turned(s, c)[k..]
  {
    assert Turned(s, c)[k..] == s[k + c + 1..] + s[..c + 1];
  }

  lemma LastOfConcat<T>(a: seq<T>, b: seq<T>)
    requires b != []
    ensures Last(a + b) == Last(b)
  {
  }

  /** Where preemptiveStart is now. */
  ghost predicate StartMoved(m: CyclicManagedMemory, s: seq<CyclicAtime>, start: nat, reset: bool)
    requires start <= |s|
    reads m, ChunksOf(m.ring)`status, ChunksOf(m.ring)`useCnt, ChunksOf(m.ring)`preemptiveLoaded
  {
    m.preemptiveStart == if reset then StartOf(m.ring, Snaps(m.ring)) else if start < |s| then s[start] else null
  }

  lemma ShowsUnloadedInside(m: CyclicManagedMemory, s: seq<CyclicAtime>, v: Schedule, k: nat, sel: set<CyclicAtime>, vs: set<nat>)
    requires v.counter < |s| && |s| - 1 - v.counter < k < |s| && Distinct(s) && Rearranged(m, s, v.counter, k, sel)
    requires forall e :: e in Turned(s, v.counter)[k..] ==> (e in sel <==> e.chunk.status.Out())
    requires m.Valid() && v.counter < v.start <= |s| && v.start !in vs && StartMoved(m, s, v.start, false)
    requires Kept(Snaps(s)[..v.counter + 1]) != [] && m.preemptiveBytes == Guessed(Snaps(s))
    ensures m.View() == Unloaded(v, Snaps(s), vs, k - (|s| - 1 - v.counter), Guessed(Snaps(s)))
  {
    hide Snaps, Guessed, Kept, Outs, Reordered, Distinct, FlaggedEnd, Rearranged, StartOf, Unloaded, Turned, m.Valid;
    RingInside(m, s, v.counter, k, sel);
    var w, j := Snaps(s), k - (|s| - 1 - v.counter);
    UnloadedInside(v, w, vs, j, Guessed(w));
    ViewIs(m, Schedule(Reordered(w, v.counter, j), j + |Kept(w[j..v.counter + 1])| - 1, v.start, Guessed(w)));
  }

  lemma UnloadedInside(v: Schedule, w: seq<Entry>, vs: set<nat>, j: nat, bytes: int)
    requires 0 < j <= v.counter < |w| && v.start !in vs && Kept(w[..v.counter + 1]) != []
    ensures Unloaded(v, w, vs, j, bytes) == Schedule(Reordered(w, v.counter, j), j + |Kept(w[j..v.counter + 1])| - 1, v.start, bytes)
  {
  }

  lemma ShowsUnloadedAround(m: CyclicManagedMemory, s: seq<CyclicAtime>, v: Schedule, k: nat, sel: set<CyclicAtime>, vs: set<nat>,
                            reset: bool)
    requires v.counter < |s| && k < |s| - 1 - v.counter && s[0] !in sel && Rearranged(m, s, v.counter, k, sel)
    requires forall e :: e in Turned(s, v.counter)[k..] ==> (e in sel <==> e.chunk.status.Out())
    requires m.Valid() && v.counter < v.start <= |s| && (reset <==> v.start in vs) && StartMoved(m, s, v.start, reset)
    requires v.start in vs || v.start == |s| || v.start < k + v.counter + 1
    requires m.preemptiveBytes == Guessed(Snaps(s))
    ensures Kept(Snaps(s)[..v.counter + 1]) != []
    ensures m.View() == Unloaded(v, Snaps(s), vs, k + v.counter + 1, Guessed(Snaps(s)))
  {
    hide Snaps, Guessed, Kept, Outs, Reordered, Distinct, FlaggedEnd, Rearranged;
    RingAround(m, s, v.counter, k, sel);
    ViewIs(m, Unloaded(v, Snaps(s), vs, k + v.counter + 1, Guessed(Snaps(s))));
  }

  /** The selection ps, made from the view v, has been offered to the swap; w is what the ring shows then. */
  ghost predicate Offered(v: Schedule, w: seq<Entry>, ps: seq<nat>) {
    && |w| == |v.ring| && v.counter < |w| && Positions(w, ps) && Descending(ps)
    && MarkedAt(Turned(v.ring, v.counter), Turned(w, v.counter), ps)
    && forall p :: p in ps ==> p < |w| && Idle(Turned(v.ring, v.counter)[p])
  }

  /** active stands this far from the end of the walk. */
  ghost function ActiveAt(v: Schedule): int { |v.ring| - 1 - v.counter }

  /** What follows for the sections when active was not selected. */
  lemma OfferedFacts(v: Schedule, w: seq<Entry>, ps: seq<nat>)
    requires Normal(v) && Offered(v, w, ps) && ps != [] && ActiveAt(v) !in ps
    ensures Last(ps) < |w|
    ensures var c, n, k := v.counter, |w|, Last(ps);
            var vs, j := VictimSet(n, c, ps), ToRing(n, c, k);
            && Arranged(v) && Marked(v.ring, w, vs) && j in vs && 0 !in vs && 0 < j < n && k != n - 1 - c
            && (forall i :: i in vs ==> if j <= c then j <= i <= c else i <= c || j <= i < n)
            && (j <= c ==> v.start !in vs) && (c < j ==> v.start in vs || v.start < j)
            && Kept(w[..c + 1]) != [] && !w[0].preemptive && !w[0].status.Out()
            && j == if k > n - 1 - c then k - (n - 1 - c) else k + c + 1
  {
    hide Guessed, Kept, Turned, MarkedAt, Descending, ToRing, VictimSet, Marked, Arranged, AllGone;
    var c, n, k := v.counter, |w|, Last(ps);
    var vs, j := VictimSet(n, c, ps), ToRing(n, c, k);
    assert k in ps;
    TurnedAt(v.ring, c, k);
    ToRingIs(n, c, k);
    InVictimSet(n, c, ps, k);
    MarkedRing(v.ring, w, c, ps);
    Reach(n, c, ps);
    VictimArranged(v, w, vs, j);
    FirstKept(v, w, vs);
  }

  lemma ToRingIs(n: nat, c: nat, k: nat)
    requires c < n && k < n && k != n - 1 - c
    ensures ToRing(n, c, k) == if k > n - 1 - c then k - (n - 1 - c) else k + c + 1
  {
  }

  /** A chunk that was selected was not swapped out, so there is a first section; where the guesses begin. */
  lemma VictimArranged(v: Schedule, w: seq<Entry>, vs: set<nat>, j: nat)
    requires Ordered(v) && v.ring != [] && Marked(v.ring, w, vs) && 0 !in vs && j in vs && 0 < j < |w|
    requires forall i :: i in vs ==> if j <= v.counter then j <= i <= v.counter else i <= v.counter || j <= i < |w|
    ensures Arranged(v) && !w[0].preemptive && !w[0].status.Out()
    ensures (j <= v.counter ==> v.start !in vs) && (v.counter < j ==> v.start in vs || v.start < j)
  {
    assert Idle(v.ring[j]) && !v.ring[j].status.Out();
    assert w[0] == v.ring[0];
  }

  /** The part of that which concerns the cursors. */
  lemma OfferedCursors(v: Schedule, w: seq<Entry>, ps: seq<nat>)
    requires Normal(v) && Offered(v, w, ps) && ps != [] && ActiveAt(v) !in ps
    ensures var c, n, k, vs := v.counter, |w|, Last(ps), VictimSet(|w|, v.counter, ps);
            && c < n && k < n && k != n - 1 - c && c < v.start <= n && Kept(w[..c + 1]) != [] && !w[0].status.Out()
            && ToRing(n, c, k) == (if k > n - 1 - c then k - (n - 1 - c) else k + c + 1) && 0 < ToRing(n, c, k) < n
            && (k > n - 1 - c ==> v.start !in vs)
            && (k < n - 1 - c ==> v.start in vs || v.start < k + c + 1)
  {
    hide Guessed, Kept, Offered, VictimSet, Marked, Arranged, Normal, ToRing;
    OfferedFacts(v, w, ps);
    ArrangedCursors(v);
    OfferedLength(v, w, ps);
  }

  lemma OfferedLength(v: Schedule, w: seq<Entry>, ps: seq<nat>)
    requires Offered(v, w, ps)
    ensures |w| == |v.ring|
  {
  }

  lemma FinalView(m: CyclicManagedMemory, s: seq<CyclicAtime>, v: Schedule, ps: seq<nat>, reset: bool)
    requires Normal(v) && Offered(v, Snaps(s), ps) && ps != [] && ActiveAt(v) !in ps && Distinct(s) && |s| == |v.ring|
    requires Last(ps) < |s| && Rearranged(m, s, v.counter, Last(ps), GoneOut(Turned(s, v.counter)[Last(ps)..]))
    requires m.Valid() && v.start <= |s| && (reset <==> v.start in VictimSet(|s|, v.counter, ps))
    requires StartMoved(m, s, v.start, reset) && m.preemptiveBytes == Guessed(Snaps(s))
    ensures var vs, j := VictimSet(|s|, v.counter, ps), ToRing(|s|, v.counter, Last(ps));
            && v.counter < |s| && 0 < j < |s| && Kept(Snaps(s)[..v.counter + 1]) != []
            && m.View() == Unloaded(v, Snaps(s), vs, j, Guessed(Snaps(s)))
  {
    hide Snaps, Guessed, Kept, Rearranged, StartMoved, Offered, VictimSet, Marked, Arranged, Unloaded, Distinct, Normal,
      Turned, GoneOut, ToRing, Separated, m.Valid;
    var c, k := v.counter, Last(ps);
    OfferedCursors(v, Snaps(s), ps);
    TurnedLength(s, c);
    var sel, vs := GoneOut(Turned(s, c)[k..]), VictimSet(|s|, c, ps);
    GoneOutIs(Turned(s, c)[k..]);
    if k > |s| - 1 - c {
      ShowsUnloadedInside(m, s, v, k, sel, vs);
    } else {
      FirstNotGone(s, sel);
      ShowsUnloadedAround(m, s, v, k, sel, vs, reset);
    }
  }

  lemma TurnedLength<T>(s: seq<T>, c: nat)
    requires c < |s|
    ensures |Turned(s, c)| == |s|
  {
  }

  lemma GoneOutIs(s: seq<CyclicAtime>)
    ensures forall e :: e in s ==> (e in GoneOut(s) <==> e.chunk.status.Out())
    ensures forall e :: e in GoneOut(s) ==> e in s && e.chunk.status.Out()
  {
  }

  twostate lemma GoneOutKept(s: seq<CyclicAtime>)
    requires forall c :: c in ChunksOf(s) ==> c.status == old(c.status)
    ensures GoneOut(s) == old(GoneOut(s))
  {
    assert forall e :: e in s ==> e.chunk in ChunksOf(s);
  }

  lemma ArrangedCursors(v: Schedule)
    requires Arranged(v)
    ensures v.counter < v.start <= |v.ring|
  {
  }

  lemma FirstNotGone(s: seq<CyclicAtime>, sel: set<CyclicAtime>)
    requires s != [] && !Snaps(s)[0].status.Out() && forall e :: e in sel ==> e.chunk.status.Out()
    ensures s[0] !in sel
  {
    assert Snaps(s)[0] == Snap(s[0]);
  }

  // ---------------------------------------------------------------- when active was selected

  /** The first position that was not selected, going back from active, or that of counterActive. */
  ghost function YieldAt(n: nat, c: nat, ps: seq<nat>): nat
    requires c < n
  {
    var x := Yielded(ps, n - 1 - c, n);
    if x < n - 1 - c then x + c + 1 else c
  }

  lemma OfferedYield(v: Schedule, w: seq<Entry>, ps: seq<nat>)
    requires Normal(v) && Offered(v, w, ps) && ps != [] && ActiveAt(v) in ps
    ensures var c, n, k := v.counter, |w|, Last(ps);
            |v.ring| == n && c < n && k <= n - 1 - c && WithActive(v, w, VictimSet(n, c, ps), k + c + 1, YieldAt(n, c, ps))
  {
    hide Guessed, Turned, MarkedAt, VictimSet, Marked, Yielded;
    var c, n, k := v.counter, |w|, Last(ps);
    var a, j, y, x, vs := n - 1 - c, k + c + 1, YieldAt(n, c, ps), Yielded(ps, n - 1 - c, n), VictimSet(n, c, ps);
    assert k in ps;
    var q :| 0 <= q < |ps| && ps[q] == a;
    assert k <= a;
    ActiveIdle(v, ps);
    MarkedRing(v.ring, w, c, ps);
    YieldedIs(ps, a, n);
    InVictimSet(n, c, ps, a);
    if k < a { InVictimSet(n, c, ps, k); }
    forall i | i in vs
      ensures i <= c || j <= i < n
    {
      VictimFrom(n, c, ps, i);
    }
    forall i: nat | c < i < n
      ensures i in vs <==> i - c - 1 in ps
    {
      InVictimSet(n, c, ps, i - c - 1);
    }
  }

  lemma YieldTurned<T>(w: seq<T>, c: nat, ps: seq<nat>)
    requires c < |w| && Descending(ps) && |w| - 1 - c in ps
    ensures |Turned(w, c)| == |w| && Turned(w, c)[Yielded(ps, |w| - 1 - c, |w|)] == w[YieldAt(|w|, c, ps)]
  {
    hide Yielded;
    YieldedIs(ps, |w| - 1 - c, |w|);
    TurnedAt(w, c, Yielded(ps, |w| - 1 - c, |w|));
  }

  lemma ActiveIdle(v: Schedule, ps: seq<nat>)
    requires Ordered(v) && v.ring != [] && v.counter < |v.ring| && ActiveAt(v) in ps
    requires forall p :: p in ps ==> p < |v.ring| && Idle(Turned(v.ring, v.counter)[p])
    ensures Arranged(v) && Idle(v.ring[0])
  {
    TurnedAt(v.ring, v.counter, ActiveAt(v));
  }

  lemma VictimFrom(n: nat, c: nat, ps: seq<nat>, i: nat)
    requires c < n && ps != [] && Descending(ps) && i in VictimSet(n, c, ps) && Last(ps) <= n - 1 - c
    ensures i <= c || Last(ps) + c + 1 <= i < n
  {
    var p :| p in ps && p < n && ToRing(n, c, p) == i;
    var q :| 0 <= q < |ps| && ps[q] == p;
    assert p >= Last(ps);
  }

  /** The ring read from active then, in terms of the ring s before. */
  ghost function YieldRing(s: seq<CyclicAtime>, c: nat, j: nat, y: nat, start: nat, sel: set<CyclicAtime>): seq<CyclicAtime>
    requires c < j <= |s| && j <= y + 1 <= |s|
  {
    var gone, rest := Only(s[j..], sel) + Only(s[..c + 1], sel), s[c + 1..j];
    if start <= y then (Except(s[y + 1..], sel) + Except(s[..c + 1], sel)) + gone + rest + Except(s[j..y + 1], sel)
    else Whole(Except(s[j..], sel) + Except(s[..c + 1], sel), gone + rest)
  }

  lemma SnapsWhole(k: seq<CyclicAtime>, g: seq<CyclicAtime>)
    ensures Snaps(Whole(k, g)) == Whole(Snaps(k), Snaps(g))
  {
    hide Snaps;
    SnapsLength(k);
    SnapsLength(g);
    if k != [] {
      SnapsCut(k, |k| - 1);
      SnapsOne(Last(k));
      SnapsConcat([Last(k)] + g, Front(k));
      SnapsConcat([Last(k)], g);
    } else if g != [] {
      SnapsCut(g, |g| - 1);
      SnapsOne(Last(g));
      SnapsConcat([Last(g)], Front(g));
    } else {
      SnapsEmpty();
    }
  }

  lemma SnapsEmpty()
    ensures Snaps([]) == []
  {
  }

  lemma YieldShows(s: seq<CyclicAtime>, v: Schedule, vs: set<nat>, j: nat, y: nat, sel: set<CyclicAtime>)
    requires v.counter < j <= |s| && j <= y + 1 <= |s|
    requires forall e :: e in s[j..] || e in s[..v.counter + 1] ==> (e in sel <==> e.chunk.status.Out())
    ensures Snaps(YieldRing(s, v.counter, j, y, v.start, sel)) == Yield(v, Snaps(s), vs, j, y).ring
    ensures |Except(s[y + 1..], sel)| == |Kept(Snaps(s)[y + 1..])| && |Except(s[..v.counter + 1], sel)| == |Kept(Snaps(s)[..v.counter + 1])|
    ensures |Only(s[j..], sel)| == |Outs(Snaps(s)[j..])| && |Only(s[..v.counter + 1], sel)| == |Outs(Snaps(s)[..v.counter + 1])|
  {
    hide Snaps, Kept, Outs, Only, Except, Guessed, FlaggedEnd, Whole;
    var c, w := v.counter, Snaps(s);
    BackMembers(s, j, y);
    SnapsParted(s[j..], sel);
    SnapsParted(s[..c + 1], sel);
    SnapsParted(s[y + 1..], sel);
    SnapsParted(s[j..y + 1], sel);
    SnapsCut(s, j);
    SnapsCut(s, c + 1);
    SnapsCut(s, y + 1);
    SnapsSlice(s, c + 1, j);
    SnapsSlice(s, j, y + 1);
    SnapsLength(Except(s[y + 1..], sel));
    SnapsLength(Except(s[..c + 1], sel));
    SnapsLength(Only(s[j..], sel));
    SnapsLength(Only(s[..c + 1], sel));
    SnapsConcat(Only(s[j..], sel), Only(s[..c + 1], sel));
    if v.start <= y {
      SnapsConcat(Except(s[y + 1..], sel), Except(s[..c + 1], sel));
      SnapsFour(Except(s[y + 1..], sel) + Except(s[..c + 1], sel), Only(s[j..], sel) + Only(s[..c + 1], sel), s[c + 1..j], Except(s[j..y + 1], sel));
    } else {
      SnapsConcat(Except(s[j..], sel), Except(s[..c + 1], sel));
      SnapsConcat(Only(s[j..], sel) + Only(s[..c + 1], sel), s[c + 1..j]);
      SnapsWhole(Except(s[j..], sel) + Except(s[..c + 1], sel), Only(s[j..], sel) + Only(s[..c + 1], sel) + s[c + 1..j]);
    }
  }

  lemma BackMembers<T>(s: seq<T>, j: nat, y: nat)
    requires j <= y + 1 <= |s|
    ensures forall e :: e in s[y + 1..] || e in s[j..y + 1] ==> e in s[j..]
  {
    assert s[j..] == s[j..y + 1] + s[y + 1..];
  }

  /** The ring as the reordering leaves it. */
  ghost function Pushed(s: seq<CyclicAtime>, c: nat, j: nat, sel: set<CyclicAtime>): seq<CyclicAtime>
    requires c < j <= |s|
  {
    s[c + 1..j] + (Except(s[j..], sel) + Except(s[..c + 1], sel)) + (Only(s[j..], sel) + Only(s[..c + 1], sel))
  }

  lemma PushedIs(s: seq<CyclicAtime>, c: nat, k: nat, sel: set<CyclicAtime>)
    requires c < |s| && k <= |s| - 1 - c
    ensures var r, j := Turned(s, c), k + c + 1;
            && k < |r| && r[..k] == s[c + 1..j] && Except(r[k..], sel) == Except(s[j..], sel) + Except(s[..c + 1], sel)
            && Only(r[k..], sel) == Only(s[j..], sel) + Only(s[..c + 1], sel)
            && r[..k] + Except(r[k..], sel) + Only(r[k..], sel) == Pushed(s, c, j, sel)
            && forall e :: e in s[j..] || e in s[..c + 1] ==> e in r[k..]
  {
    hide Only, Except;
    var r, j := Turned(s, c), k + c + 1;
    assert r[..k] == s[c + 1..j];
    assert r[k..] == s[j..] + s[..c + 1];
    OnlyConcat(s[j..], s[..c + 1], sel);
  }

  /** A guess has been left at y: active goes to what follows it now. */
  lemma YieldPastRing(s: seq<CyclicAtime>, c: nat, j: nat, y: nat, sel: set<CyclicAtime>)
    requires c < j <= y + 1 <= |s| && c < y && s[y] !in sel && Distinct(Pushed(s, c, j, sel))
    requires Only(s[j..], sel) + Only(s[..c + 1], sel) != []
    ensures var t := Pushed(s, c, j, sel);
            && s[y] in t && NextIn(t, s[y]) in t && From(t, NextIn(t, s[y])) == YieldRing(s, c, j, y, y, sel)
    ensures Except(s[j..], sel) == Except(s[j..y + 1], sel) + Except(s[y + 1..], sel)
    ensures s[c + 1..j] + Except(s[j..y + 1], sel) != [] && Last(s[c + 1..j] + Except(s[j..y + 1], sel)) == s[y]
  {
    hide Only, Except, Distinct, From;
    var a, worked, gone := Except(s[y + 1..], sel), Except(s[..c + 1], sel), Only(s[j..], sel) + Only(s[..c + 1], sel);
    var rest, kept := s[c + 1..j], Except(s[j..y + 1], sel);
    assert s[j..] == s[j..y + 1] + s[y + 1..];
    OnlyConcat(s[j..y + 1], s[y + 1..], sel);
    LastUnselected(s, j, y, sel);
    var front, b := rest + kept, a + worked + gone;
    assert j == y + 1 ==> front == rest;
    assert Pushed(s, c, j, sel) == front + b;
    assert front == Front(front) + [s[y]];
    assert front + b == Front(front) + ([s[y]] + b);
    FromIs(front + b, Front(front), [s[y]] + b);
    FromIs(front + b, front, b);
    assert b + front == (a + worked) + gone + rest + kept;
  }

  lemma LastUnselected(s: seq<CyclicAtime>, j: nat, y: nat, sel: set<CyclicAtime>)
    requires j <= y + 1 <= |s| && s[y] !in sel
    ensures if j <= y then Except(s[j..y + 1], sel) != [] && Last(Except(s[j..y + 1], sel)) == s[y] else Except(s[j..y + 1], sel) == []
  {
    if j <= y {
      assert s[j..y + 1] == s[j..y] + [s[y]];
      OnlyStep(s[j..y], s[y], sel);
    } else {
      assert s[j..y + 1] == [];
    }
  }

  /** Where counterActive is then. */
  ghost function CounterLeft(s: seq<CyclicAtime>, c: nat, j: nat, sel: set<CyclicAtime>): CyclicAtime
    requires c < j <= |s|
  {
    var kept := Except(s[j..], sel) + Except(s[..c + 1], sel);
    if kept != [] then Last(kept) else if j > c + 1 then s[j - 1] else s[c]
  }

  /** No guess is left: active goes to counterActive. */
  lemma YieldWholeRing(s: seq<CyclicAtime>, c: nat, j: nat, sel: set<CyclicAtime>)
    requires c < j <= |s| && Distinct(Pushed(s, c, j, sel)) && Only(s[j..], sel) + Only(s[..c + 1], sel) != []
    ensures var t, x := Pushed(s, c, j, sel), CounterLeft(s, c, j, sel);
            && x in t
            && From(t, x) == Whole(Except(s[j..], sel) + Except(s[..c + 1], sel), Only(s[j..], sel) + Only(s[..c + 1], sel) + s[c + 1..j])
  {
    hide Only, Except, Distinct, From, Whole;
    var kept, gone, rest := Except(s[j..], sel) + Except(s[..c + 1], sel), Only(s[j..], sel) + Only(s[..c + 1], sel), s[c + 1..j];
    if kept != [] {
      FromLastKept(rest, kept, gone);
    } else if j > c + 1 {
      FromLastOfRest(rest, kept, gone);
      assert Last(rest) == s[j - 1];
    } else {
      CounterGone(s, c, sel);
      FromLastGone(rest, kept, gone);
    }
  }

  lemma FromLastKept(rest: seq<CyclicAtime>, kept: seq<CyclicAtime>, gone: seq<CyclicAtime>)
    requires Distinct(rest + kept + gone) && kept != []
    ensures var t := rest + kept + gone; Last(kept) in t && From(t, Last(kept)) == Whole(kept, gone + rest)
  {
    hide Distinct, From;
    assert kept == Front(kept) + [Last(kept)];
    assert rest + kept + gone == (rest + Front(kept)) + ([Last(kept)] + gone);
    FromIs(rest + kept + gone, rest + Front(kept), [Last(kept)] + gone);
    assert ([Last(kept)] + gone) + (rest + Front(kept)) == [Last(kept)] + (gone + rest) + Front(kept);
  }

  lemma FromLastOfRest(rest: seq<CyclicAtime>, kept: seq<CyclicAtime>, gone: seq<CyclicAtime>)
    requires Distinct(rest + kept + gone) && kept == [] && rest != []
    ensures var t := rest + kept + gone; Last(rest) in t && From(t, Last(rest)) == Whole(kept, gone + rest)
  {
    hide Distinct, From;
    assert rest == Front(rest) + [Last(rest)];
    assert rest + kept + gone == Front(rest) + ([Last(rest)] + gone);
    FromIs(rest + kept + gone, Front(rest), [Last(rest)] + gone);
    assert Front(gone + rest) == gone + Front(rest);
    assert ([Last(rest)] + gone) + Front(rest) == [Last(rest)] + (gone + Front(rest));
  }

  lemma FromLastGone(rest: seq<CyclicAtime>, kept: seq<CyclicAtime>, gone: seq<CyclicAtime>)
    requires Distinct(rest + kept + gone) && kept == [] && rest == [] && gone != []
    ensures var t := rest + kept + gone; Last(gone) in t && From(t, Last(gone)) == Whole(kept, gone + rest)
  {
    hide Distinct, From;
    assert rest + kept + gone == gone && gone + rest == gone;
    assert gone == Front(gone) + [Last(gone)];
    FromIs(gone, Front(gone), [Last(gone)]);
  }

  lemma CounterGone(s: seq<CyclicAtime>, c: nat, sel: set<CyclicAtime>)
    requires c < |s| && Except(s[..c + 1], sel) == []
    ensures Only(s[..c + 1], sel) != [] && Last(Only(s[..c + 1], sel)) == s[c]
  {
    assert s[..c + 1] == s[..c] + [s[c]];
    OnlyStep(s[..c], s[c], sel);
  }

  lemma {:induction false} NoneFlagged(es: seq<Entry>)
    requires forall e :: e in es ==> !e.preemptive
    ensures FlaggedEnd(es) == 0
  {
    if es != [] {
      assert Last(es) in es;
    }
  }

  /** What the ring shows when a guess was left in front of active. */
  lemma YieldPastView(m: CyclicManagedMemory, s: seq<CyclicAtime>, v: Schedule, w: seq<Entry>, vs: set<nat>, j: nat, y: nat, sel: set<CyclicAtime>,
                      reset: bool)
    requires m.Valid() && WithActive(v, w, vs, j, y) && v.start <= y && j <= y + 1 && w == Snaps(s) && v.counter < j <= |s|
    requires forall e :: e in s[j..] || e in s[..v.counter + 1] ==> (e in sel <==> e.chunk.status.Out())
    requires m.ring == YieldRing(s, v.counter, j, y, v.start, sel) && m.counterActive == CounterLeft(s, v.counter, j, sel)
    requires Except(s[j..], sel) == Except(s[j..y + 1], sel) + Except(s[y + 1..], sel)
    requires s[v.counter + 1..j] + Except(s[j..y + 1], sel) != []
    requires v.start <= |s| && (reset <==> v.start in vs) && StartMoved(m, s, v.start, reset) && m.preemptiveBytes == Guessed(w)
    ensures m.View() == Yield(v, w, vs, j, y)
  {
    hide Snaps, Kept, Outs, Only, Except, Guessed, FlaggedEnd, WithActive, YieldRing, CounterLeft, m.Valid;
    WithActivePlaces(v, w, vs, j, y);
    YieldBytes(v, w, vs, j, y);
    YieldShows(s, v, vs, j, y, sel);
    SnapsLength(m.ring);
    YieldPastCursors(s, v.counter, j, y, v.start, sel);
    ViewIs(m, Yield(v, w, vs, j, y));
  }

  lemma YieldPastCursors(s: seq<CyclicAtime>, c: nat, j: nat, y: nat, start: nat, sel: set<CyclicAtime>)
    requires c < j <= y + 1 <= |s| && c < start <= j && start <= y
    requires Except(s[j..], sel) == Except(s[j..y + 1], sel) + Except(s[y + 1..], sel)
    requires s[c + 1..j] + Except(s[j..y + 1], sel) != []
    ensures var t, a := YieldRing(s, c, j, y, start, sel), |Except(s[y + 1..], sel)| + |Except(s[..c + 1], sel)|;
            var d := a + |Only(s[j..], sel)| + |Only(s[..c + 1], sel)|;
            && t != [] && (if a > 0 then a - 1 < |t| && t[a - 1] == CounterLeft(s, c, j, sel) else Last(t) == CounterLeft(s, c, j, sel))
            && (start < j ==> d + start - (c + 1) < |t| && t[d + start - (c + 1)] == s[start])
  {
    hide Only, Except;
    var kept, rest := Except(s[j..y + 1], sel), s[c + 1..j];
    var a, gone := Except(s[y + 1..], sel) + Except(s[..c + 1], sel), Only(s[j..], sel) + Only(s[..c + 1], sel);
    assert Except(s[j..], sel) + Except(s[..c + 1], sel) == kept + a;
    PastAt(a, gone, rest, kept, if start < j then start - (c + 1) else 0);
  }

  lemma PastAt<T>(a: seq<T>, gone: seq<T>, rest: seq<T>, kept: seq<T>, i: nat)
    requires rest + kept != []
    ensures var t := a + gone + rest + kept;
            && t != [] && (if a != [] then t[|a| - 1] == Last(a) == Last(kept + a) else Last(t) == Last(rest + kept))
            && (kept != [] ==> Last(rest + kept) == Last(kept)) && (kept == [] ==> rest + kept == rest && kept + a == a)
            && (i < |rest| ==> |a| + |gone| + i < |t| && t[|a| + |gone| + i] == rest[i])
  {
  }

  /** What it shows when none was left. */
  lemma YieldWholeView(m: CyclicManagedMemory, s: seq<CyclicAtime>, v: Schedule, w: seq<Entry>, vs: set<nat>, j: nat, y: nat, sel: set<CyclicAtime>,
                       reset: bool)
    requires m.Valid() && WithActive(v, w, vs, j, y) && y < v.start && j <= y + 1 && w == Snaps(s) && v.counter < j <= |s|
    requires forall e :: e in s[j..] || e in s[..v.counter + 1] ==> (e in sel <==> e.chunk.status.Out())
    requires m.ring == YieldRing(s, v.counter, j, y, v.start, sel) && m.ring != [] && m.counterActive == m.ring[0]
    requires v.start <= |s| && (reset <==> v.start in vs) && StartMoved(m, s, v.start, reset) && m.preemptiveBytes == Guessed(w)
    ensures m.View() == Yield(v, w, vs, j, y)
  {
    hide Snaps, Kept, Outs, Only, Except, Guessed, FlaggedEnd, WithActive, Whole, YieldRing, m.Valid;
    WithActivePlaces(v, w, vs, j, y);
    YieldBytes(v, w, vs, j, y);
    YieldShows(s, v, vs, j, y, sel);
    SnapsLength(m.ring);
    WholeUnflagged(v, w, vs, j, y);
    NoneFlagged(Snaps(m.ring));
    ViewIs(m, Yield(v, w, vs, j, y));
  }

  lemma WholeUnflagged(v: Schedule, w: seq<Entry>, vs: set<nat>, j: nat, y: nat)
    requires WithActive(v, w, vs, j, y) && y < v.start && j <= y + 1
    ensures forall e :: e in Yield(v, w, vs, j, y).ring ==> !e.preemptive
  {
    hide Kept, Outs, WithActive, Guessed;
    WithActivePlaces(v, w, vs, j, y);
    YieldPieces(v, w, vs, j, y);
    BackKept(v, w, vs, j, y);
    var k, g := Kept(w[j..]) + Kept(w[..v.counter + 1]), Outs(w[j..]) + Outs(w[..v.counter + 1]) + w[v.counter + 1..j];
    forall e | e in Whole(k, g)
      ensures !e.preemptive
    {
      assert e in k || e in g;
      assert e in k ==> e in Kept(w[j..]) || e in Kept(w[..v.counter + 1]);
      assert e in g ==> e in Outs(w[j..]) || e in Outs(w[..v.counter + 1]) || e in w[v.counter + 1..v.start];
      assert e in Kept(w[j..]) ==> Working(e);
      assert e in Kept(w[..v.counter + 1]) ==> Working(e);
      assert e in Outs(w[j..]) ==> Gone(e);
      assert e in Outs(w[..v.counter + 1]) ==> Gone(e);
      assert e in w[v.counter + 1..v.start] ==> Gone(e);
    }
  }

  lemma BackKept(v: Schedule, w: seq<Entry>, vs: set<nat>, j: nat, y: nat)
    requires WithActive(v, w, vs, j, y) && y < v.start && v.start == j
    ensures forall e :: e in Kept(w[j..]) ==> Working(e)
  {
    SelectedBack(v, w, vs, j, y, j, |w|);
    assert w[j..|w|] == w[j..];
  }

  /** Which cursor active follows. */
  lemma YieldedTo(s: seq<CyclicAtime>, v: Schedule, w: seq<Entry>, vs: set<nat>, j: nat, y: nat, t: seq<CyclicAtime>, sel: set<CyclicAtime>)
    requires WithActive(v, w, vs, j, y) && w == Snaps(s) && s[y] in t && v.counter < j <= |s|
    requires forall e :: e in s[j..] || e in s[..v.counter + 1] ==> (e in sel <==> e.chunk.status.Out())
    ensures v.start <= y ==> !s[y].chunk.status.Out() && ActiveAfter(t, s[y], CounterLeft(s, v.counter, j, sel)) == NextIn(t, s[y])
    ensures y < v.start ==> ActiveAfter(t, s[y], CounterLeft(s, v.counter, j, sel)) == CounterLeft(s, v.counter, j, sel)
  {
    hide Snaps, Only, Except, NextIn;
    WithActivePlaces(v, w, vs, j, y);
    assert w[y] == Snap(s[y]);
    if v.start <= y {
      assert w[y] == v.ring[y];
      assert j <= y ==> s[j..][y - j] == s[y];
    } else if y == v.counter {
      assert !w[y].preemptive;
      assert s[..v.counter + 1][v.counter] == s[y];
      CounterStays(s, v.counter, j, sel);
    } else {
      assert w[y] == v.ring[y] && Gone(w[y]);
    }
  }

  lemma CounterStays(s: seq<CyclicAtime>, c: nat, j: nat, sel: set<CyclicAtime>)
    requires c < j <= |s|
    ensures s[c] !in sel ==> CounterLeft(s, c, j, sel) == s[c]
  {
    assert s[..c + 1] == s[..c] + [s[c]];
    OnlyStep(s[..c], s[c], sel);
  }

  /** What the ring shows of a selection with active in it. */
  ghost predicate ShowsYielded(m: CyclicManagedMemory, v: Schedule, w: seq<Entry>, ps: seq<nat>)
    reads m, ChunksOf(m.ring)`status, ChunksOf(m.ring)`useCnt, ChunksOf(m.ring)`preemptiveLoaded
  {
    && ps != [] && v.counter < |w|
    && var vs, j, y := VictimSet(|w|, v.counter, ps), Last(ps) + v.counter + 1, YieldAt(|w|, v.counter, ps);
       && WithActive(v, w, vs, j, y) && v.counter < j <= |w| && j <= y + 1 <= |w|
       && m.View() == Yield(v, w, vs, j, y)
  }

  /** What Rearrange leaves, when active was selected and something has gone out. */
  lemma AfterYielding(m: CyclicManagedMemory, s: seq<CyclicAtime>, v: Schedule, r: seq<CyclicAtime>, ps: seq<nat>, was: CyclicAtime, reset: bool)
    requires v.counter < |s| == |v.ring| && r == Turned(s, v.counter) && Distinct(r) && |r| == |s| && m.Valid()
    requires Normal(v) && Offered(v, Snaps(s), ps) && ps != [] && ActiveAt(v) in ps && Last(ps) < |r|
    requires v.start <= |s| && (reset <==> v.start in VictimSet(|s|, v.counter, ps)) && StartMoved(m, s, v.start, reset)
    requires m.preemptiveBytes == Guessed(Snaps(s)) && was == r[Yielded(ps, |s| - 1 - v.counter, |s|)]
    requires var k, sel := Last(ps), GoneOut(r[Last(ps)..]);
             var kept, t := Except(r[k..], sel), r[..k] + Except(r[k..], sel) + Only(r[k..], sel);
             && Only(r[k..], sel) != [] && was in t && m.counterActive == (if kept != [] then Last(kept) else if k > 0 then Last(r[..k]) else was)
             && m.active in t && m.active == ActiveAfter(t, was, m.counterActive) && m.ring == From(t, m.active)
    ensures ShowsYielded(m, v, Snaps(s), ps)
  {
    hide Snaps, Guessed, Offered, VictimSet, Turned, Distinct, Normal, Except, Only, From, GoneOut, StartMoved, WithActive, NextIn, Kept, Outs,
      Yielded, YieldAt, Pushed, YieldRing, CounterLeft, Yield, ActiveAfter, m.Valid;
    var k, sel, w, y := Last(ps), GoneOut(r[Last(ps)..]), Snaps(s), YieldAt(|s|, v.counter, ps);
    var vs := VictimSet(|s|, v.counter, ps);
    SnapsLength(s);
    YieldReady(s, v, w, ps);
    PiecesPushed(s, v, w, vs, k, y, sel);
    YieldedView(m, s, v, w, vs, k + v.counter + 1, y, sel, reset);
  }

  /** What is known of the selection before anything is sorted. */
  lemma YieldReady(s: seq<CyclicAtime>, v: Schedule, w: seq<Entry>, ps: seq<nat>)
    requires v.counter < |s| == |v.ring| == |w| && Normal(v) && Offered(v, w, ps) && ps != [] && ActiveAt(v) in ps
    ensures var c, k, y := v.counter, Last(ps), YieldAt(|s|, v.counter, ps);
            && k <= |s| - 1 - c && c < k + c + 1 <= y + 1 <= |s|
            && WithActive(v, w, VictimSet(|s|, c, ps), k + c + 1, y)
            && |Turned(s, c)| == |s| && Turned(s, c)[Yielded(ps, |s| - 1 - c, |s|)] == s[y]
  {
    hide Guessed, Offered, VictimSet, Turned, Normal, WithActive, Kept, Outs, Yielded, YieldAt, Descending;
    var c := v.counter;
    OfferedYield(v, w, ps);
    OfferedDescending(v, w, ps);
    YieldTurned(s, c, ps);
    WithActivePlaces(v, w, VictimSet(|s|, c, ps), Last(ps) + c + 1, YieldAt(|s|, c, ps));
  }

  /** The pieces into which the ring has been sorted, and where counterActive was left. */
  lemma PiecesPushed(s: seq<CyclicAtime>, v: Schedule, w: seq<Entry>, vs: set<nat>, k: nat, y: nat, sel: set<CyclicAtime>)
    requires v.counter < |s| && k <= |s| - 1 - v.counter && w == Snaps(s) && WithActive(v, w, vs, k + v.counter + 1, y) && y < |s|
    requires Distinct(Turned(s, v.counter)) && |Turned(s, v.counter)| == |s| && sel == GoneOut(Turned(s, v.counter)[k..])
    ensures var r, j := Turned(s, v.counter), k + v.counter + 1;
            && (forall e :: e in s[j..] || e in s[..v.counter + 1] ==> (e in sel <==> e.chunk.status.Out()))
            && (forall e :: e in sel ==> e.chunk.status.Out()) && Distinct(Pushed(s, v.counter, j, sel))
            && Only(r[k..], sel) == Only(s[j..], sel) + Only(s[..v.counter + 1], sel)
            && r[..k] + Except(r[k..], sel) + Only(r[k..], sel) == Pushed(s, v.counter, j, sel)
            && CounterLeft(s, v.counter, j, sel) ==
                 if Except(r[k..], sel) != [] then Last(Except(r[k..], sel)) else if k > 0 then Last(r[..k]) else s[y]
  {
    hide Snaps, Guessed, Turned, Distinct, Except, Only, GoneOut, WithActive, Kept, Outs, Pushed, CounterLeft;
    PushedIs(s, v.counter, k, sel);
    PiecesApart(s, Turned(s, v.counter), k, sel);
    GoneOutIs(Turned(s, v.counter)[k..]);
    CounterIs(s, v, w, vs, k + v.counter + 1, y, sel);
  }

  lemma YieldedView(m: CyclicManagedMemory, s: seq<CyclicAtime>, v: Schedule, w: seq<Entry>, vs: set<nat>, j: nat, y: nat, sel: set<CyclicAtime>,
                    reset: bool)
    requires m.Valid() && WithActive(v, w, vs, j, y) && w == Snaps(s) && v.counter < j <= y + 1 <= |s|
    requires forall e :: e in s[j..] || e in s[..v.counter + 1] ==> (e in sel <==> e.chunk.status.Out())
    requires forall e :: e in sel ==> e.chunk.status.Out()
    requires Distinct(Pushed(s, v.counter, j, sel)) && Only(s[j..], sel) + Only(s[..v.counter + 1], sel) != []
    requires var t := Pushed(s, v.counter, j, sel);
             && s[y] in t && m.counterActive == CounterLeft(s, v.counter, j, sel)
             && m.active in t && m.active == ActiveAfter(t, s[y], m.counterActive) && m.ring == From(t, m.active)
    requires v.start <= |s| && (reset <==> v.start in vs) && StartMoved(m, s, v.start, reset) && m.preemptiveBytes == Guessed(w)
    ensures m.View() == Yield(v, w, vs, j, y)
  {
    hide Snaps, Guessed, Distinct, Except, Only, From, StartMoved, WithActive, NextIn, Kept, Outs, Pushed, YieldRing, CounterLeft, Yield,
      ActiveAfter, m.Valid;
    YieldedTo(s, v, w, vs, j, y, Pushed(s, v.counter, j, sel), sel);
    WithActivePlaces(v, w, vs, j, y);
    if v.start <= y {
      LeftUnselected(s, v, w, vs, j, y, sel);
      YieldPastRing(s, v.counter, j, y, sel);
      SameYieldRing(s, v.counter, j, y, v.start, sel);
      YieldPastView(m, s, v, w, vs, j, y, sel, reset);
    } else {
      YieldWholeRing(s, v.counter, j, sel);
      WholeYieldRing(s, v.counter, j, y, v.start, sel);
      YieldWholeView(m, s, v, w, vs, j, y, sel, reset);
    }
  }

  lemma OfferedDescending(v: Schedule, w: seq<Entry>, ps: seq<nat>)
    requires Offered(v, w, ps)
    ensures Descending(ps)
  {
  }

  lemma SameYieldRing(s: seq<CyclicAtime>, c: nat, j: nat, y: nat, start: nat, sel: set<CyclicAtime>)
    requires c < j <= y + 1 <= |s| && start <= y
    ensures YieldRing(s, c, j, y, start, sel) == YieldRing(s, c, j, y, y, sel)
  {
  }

  lemma WholeYieldRing(s: seq<CyclicAtime>, c: nat, j: nat, y: nat, start: nat, sel: set<CyclicAtime>)
    requires c < j <= y + 1 <= |s| && y < start
    ensures YieldRing(s, c, j, y, start, sel) ==
              Whole(Except(s[j..], sel) + Except(s[..c + 1], sel), Only(s[j..], sel) + Only(s[..c + 1], sel) + s[c + 1..j])
  {
  }

  /** Where counterActive was left, in terms of the ring. */
  lemma CounterIs(s: seq<CyclicAtime>, v: Schedule, w: seq<Entry>, vs: set<nat>, j: nat, y: nat, sel: set<CyclicAtime>)
    requires WithActive(v, w, vs, j, y) && w == Snaps(s) && v.counter < j <= |s|
    requires forall e :: e in s[j..] || e in s[..v.counter + 1] ==> (e in sel <==> e.chunk.status.Out())
    ensures var kept, rest := Except(s[j..], sel) + Except(s[..v.counter + 1], sel), s[v.counter + 1..j];
            (if kept != [] then Last(kept) else if j > v.counter + 1 then Last(rest) else s[y]) == CounterLeft(s, v.counter, j, sel)
  {
    hide Snaps, Only, Except;
    WithActivePlaces(v, w, vs, j, y);
    AllSelected(s[j..], sel);
    if j == v.counter + 1 && v.counter < y {
      assert w[y] == v.ring[y] && w[y] == Snap(s[y]);
      assert s[j..][y - j] == s[y];
    }
  }

  lemma AllSelected(s: seq<CyclicAtime>, sel: set<CyclicAtime>)
    ensures Except(s, sel) == [] ==> forall e :: e in s ==> e in sel
  {
    OnlyElements(s, sel);
    forall e | e in s && e !in sel
      ensures Except(s, sel) != []
    {
      assert e in Elements(s);
      assert e in Elements(Except(s, sel));
    }
  }

  /** The guess that was left has not gone out. */
  lemma LeftUnselected(s: seq<CyclicAtime>, v: Schedule, w: seq<Entry>, vs: set<nat>, j: nat, y: nat, sel: set<CyclicAtime>)
    requires WithActive(v, w, vs, j, y) && v.start <= y && w == Snaps(s) && v.counter < j <= |s|
    requires forall e :: e in sel ==> e.chunk.status.Out()
    ensures s[y] !in sel && v.counter < y
  {
    hide Snaps;
    WithActivePlaces(v, w, vs, j, y);
    assert w[y] == v.ring[y] && w[y] == Snap(s[y]);
  }

  /** The ring read from where active has gone, when nothing has been moved. */
  lemma TurnedFrom(s: seq<CyclicAtime>, c: nat, y: nat)
    requires c <= y < |s| && Distinct(Turned(s, c))
    ensures s[y] in Turned(s, c) && From(Turned(s, c), s[y]) == s[y..] + s[..y]
  {
    hide Distinct, From;
    var r := Turned(s, c);
    if y == c {
      assert r == (s[c + 1..] + s[..c]) + [s[c]];
      FromIs(r, s[c + 1..] + s[..c], [s[c]]);
      assert [s[c]] + (s[c + 1..] + s[..c]) == s[c..] + s[..c];
    } else {
      assert r == s[c + 1..y] + (s[y..] + s[..c + 1]);
      FromIs(r, s[c + 1..y], s[y..] + s[..c + 1]);
      assert (s[y..] + s[..c + 1]) + s[c + 1..y] == s[y..] + s[..y];
    }
  }

  lemma YieldRefusedShows(m: CyclicManagedMemory, s: seq<CyclicAtime>, v: Schedule, r: seq<CyclicAtime>, y: nat)
    requires v.counter <= y < |s| && r == Turned(s, v.counter) && Distinct(r) && m.Valid() && s[y] in r && m.ring == From(r, s[y])
    requires m.counterActive == Last(r) && v.start <= |s| && m.preemptiveStart == (if v.start < |s| then s[v.start] else null)
    requires m.preemptiveBytes - Guessed(Snaps(s)) == v.bytes - Guessed(v.ring)
    ensures m.View() == YieldRefused(v, Snaps(s), y)
  {
    hide Snaps, Guessed, Distinct, From, Turned, m.Valid;
    TurnedStart(s, v.counter);
    TurnedFrom(s, v.counter, y);
    SnapsLength(s);
    SnapsCut(s, y);
    SnapsConcat(s[y..], s[..y]);
    ViewIs(m, YieldRefused(v, Snaps(s), y));
  }

  // ---------------------------------------------------------------- the method

  lemma OutMeansGone(r: seq<CyclicAtime>, ps: seq<nat>, k: nat)
    requires Positions(Snaps(r), ps) && ps != [] && Descending(ps) && k == Last(ps) < |r| && OutBytes(Snaps(r), ps) > 0
    ensures Only(r[k..], GoneOut(r[k..])) != []
  {
    hide Snaps, OutBytes, Only, GoneOut;
    var q := SomeOut(Snaps(r), ps);
    var p := ps[q];
    assert p >= k;
    hide Descending, Positions;
    assert Snaps(r)[p] == Snap(r[p]);
    MemberFrom(r, k, p);
    GoneMember(r[k..], r[p]);
  }

  lemma MemberFrom<T>(s: seq<T>, k: nat, p: nat)
    requires k <= p < |s|
    ensures s[p] in s[k..]
  {
    assert s[k..][p - k] == s[p];
  }

  lemma GoneMember(s: seq<CyclicAtime>, e: CyclicAtime)
    requires e in s && e.chunk.status.Out()
    ensures Only(s, GoneOut(s)) != []
  {
    OnlyElements(s, GoneOut(s));
    assert e in Elements(s) && e in GoneOut(s);
    assert e in Elements(Only(s, GoneOut(s)));
  }

  lemma {:induction false} SomeOut(w: seq<Entry>, ps: seq<nat>) returns (q: nat)
    requires Positions(w, ps) && OutBytes(w, ps) > 0
    ensures q < |ps| && w[ps[q]].status.Out()
    decreases |ps|
  {
    if w[Last(ps)].status.Out() {
      q := |ps| - 1;
    } else {
      q := SomeOut(w, ps[..|ps| - 1]);
    }
  }

  /** The last one selected carries no flag. */
  lemma LastMarked(es: seq<Entry>, w: seq<Entry>, ps: seq<nat>)
    requires MarkedAt(es, w, ps) && Positions(w, ps) && ps != []
    ensures Last(ps) < |w| && !w[Last(ps)].preemptive
  {
    assert Last(ps) in ps;
  }

  /** Whether the guesses began with a selected chunk, by position. */
  lemma ResetIs(s: seq<CyclicAtime>, c: nat, ps: seq<nat>, start: nat, x: CyclicAtime?)
    requires c < |s| && Distinct(s) && start <= |s| && x == if start < |s| then s[start] else null
    requires forall q :: 0 <= q < |ps| ==> ps[q] < |s|
    ensures HasTaken(Turned(s, c), ps, x) <==> start in VictimSet(|s|, c, ps)
  {
    var r := Turned(s, c);
    if q :| 0 <= q < |ps| && ps[q] < |r| && r[ps[q]] == x {
      TurnedAt(s, c, ps[q]);
      assert ps[q] in ps;
      assert ToRing(|s|, c, ps[q]) == start;
    }
    if start in VictimSet(|s|, c, ps) {
      var p :| p in ps && p < |s| && ToRing(|s|, c, p) == start;
      var q :| 0 <= q < |ps| && ps[q] == p;
      TurnedAt(s, c, p);
      assert r[ps[q]] == x;
    }
  }

  /** What the rounds of swapOut have done before anything is reordered. */
  lemma AfterUnload(v: Schedule, w: seq<Entry>, ps: seq<nat>, aim: nat, free: nat)
    requires |w| == |v.ring| && v.counter < |w| && ps == Victims(Turned(v.ring, v.counter), aim, free, 0)
    requires MarkedAt(Turned(v.ring, v.counter), Turned(w, v.counter), ps)
    ensures Offered(v, w, ps)
  {
    TurnedLength(v.ring, v.counter);
    VictimsShape(Turned(v.ring, v.counter), aim, free, 0);
  }

  lemma TurnedSame(s: seq<CyclicAtime>, c: nat)
    requires Cycle(s) && OwnChunks(s) && c < |s|
    ensures var r := Turned(s, c);
            && Cycle(r) && r != [] && |r| == |s| && OwnChunks(r) && ChunksOf(r) == ChunksOf(s) && Elements(r) == Elements(s)
            && (forall e :: e in r <==> e in s) && r[|s| - 1 - c] == s[0] && Last(r) == s[c]
  {
    var r := Turned(s, c);
    TurnedCycle(s, c);
    TurnedStart(s, c);
    CycleDistinct(r);
    OwnChunksOf(s, r);
    forall x | x in ChunksOf(s)
      ensures x in ChunksOf(r)
    {
      var e :| e in s && e.chunk == x;
      assert e in r;
    }
    forall x | x in ChunksOf(r)
      ensures x in ChunksOf(s)
    {
      var e :| e in r && e.chunk == x;
      assert e in s;
    }
  }

  lemma WeightedTurned(es: seq<Entry>, c: nat)
    requires c < |es| && Weighted(es)
    ensures Weighted(Turned(es, c))
  {
  }

  /** Selecting and offering, on the ring as it is read from behind counterActive. */
  method OfferTurned(m: CyclicManagedMemory, allelements: nat, aim: nat, swapFree: nat, answer: Answers, ghost s: seq<CyclicAtime>, ghost c: nat)
      returns (last: CyclicAtime?, reset: bool, unloaded: nat, ghost ps: seq<nat>)
    requires m.Valid() && s == m.ring != [] && c == m.counterAt && allelements == |s| && Weighted(Snaps(s))
    modifies m`active, m`preemptiveBytes, ChunksOf(m.ring)`status, ChunksOf(m.ring)`preemptiveLoaded
    ensures c < |s| && Cycle(s)
    ensures var r, es := Turned(s, c), old(Snaps(Turned(s, c)));
            && |r| == |s| && ps == Victims(es, aim, swapFree, 0) && MarkedAt(es, Snaps(r), ps)
            && Positions(Snaps(r), ps) && unloaded == OutBytes(Snaps(r), ps)
            && m.preemptiveBytes - Guessed(Snaps(r)) == old(m.preemptiveBytes) - Guessed(es)
            && (last == null <==> ps == []) && (ps != [] ==> Last(ps) < |r| && last == r[Last(ps)])
            && (reset <==> HasTaken(r, ps, m.preemptiveStart))
    ensures m.active in s && (|s| - 1 - c !in ps ==> m.active == s[0]) && m.active == Turned(s, c)[Yielded(ps, |s| - 1 - c, |s|)]
  {
    hide Cycle, OwnChunks, Snaps, Guessed, Victims, MarkedAt, OutBytes, Turned, Distinct, Weighted, HasTaken;
    ghost var r, a: nat := Turned(s, c), |s| - 1 - c;
    m.Neighbours(0);
    TurnedSame(s, c);
    SnapsTurned(s, c);
    WeightedTurned(Snaps(s), c);
    StartInRing(m);
    ps := Victims(Snaps(r), aim, swapFree, 0);
    last, reset, unloaded := Unload(m, allelements, aim, swapFree, answer, r, a, ps);
    CycleKept(s);
    PositionsBelow(Snaps(r), ps);
  }

  /** Selecting and offering, in terms of the view. */
  method OfferVictims(m: CyclicManagedMemory, allelements: nat, aim: nat, swapFree: nat, answer: Answers)
      returns (last: CyclicAtime?, reset: bool, unloaded: nat, ghost ps: seq<nat>)
    requires m.Valid() && m.ring != [] && allelements == |m.ring| && Weighted(Snaps(m.ring))
    modifies m`active, m`preemptiveBytes, ChunksOf(m.ring)`status, ChunksOf(m.ring)`preemptiveLoaded
    ensures var v := old(m.View()); v.counter < |v.ring| && ps == Victims(Turned(v.ring, v.counter), aim, swapFree, 0)
    ensures AfterOffer(m, m.ring, old(m.View()), ps, last, reset, unloaded)
  {
    hide Cycle, OwnChunks, Snaps, Guessed, Victims, MarkedAt, OutBytes, Turned, Weighted, HasTaken, Positions, AfterOffer, Yielded;
    ghost var v, s, c := m.View(), m.ring, m.counterAt;
    StartInRing(m);
    m.Neighbours(0);
    SnapsTurned(s, c);
    last, reset, unloaded, ps := OfferTurned(m, allelements, aim, swapFree, answer, s, c);
    MakeAfterOffer(m, s, v, ps, last, reset, unloaded, aim, swapFree);
  }

  /** The selection has been offered, seen from the ring as it is. */
  ghost predicate AfterOffer(m: CyclicManagedMemory, s: seq<CyclicAtime>, v: Schedule, ps: seq<nat>, last: CyclicAtime?, reset: bool, unloaded: nat)
    reads m, ChunksOf(s)`status, ChunksOf(s)`useCnt, ChunksOf(s)`preemptiveLoaded
  {
    && v.counter < |s| == |v.ring| == |Turned(s, v.counter)| && v.start <= |s|
    && var w, r := Snaps(s), Turned(s, v.counter);
       && v.counter < |w| && Offered(v, w, ps) && Positions(Turned(w, v.counter), ps) && unloaded == OutBytes(Turned(w, v.counter), ps)
       && m.preemptiveBytes - Guessed(w) == v.bytes - Guessed(v.ring)
       && m.active in s && (ActiveAt(v) !in ps ==> m.active == s[0]) && m.active == r[Yielded(ps, |s| - 1 - v.counter, |s|)]
       && (last == null <==> ps == []) && (ps != [] ==> Last(ps) < |s| && last == r[Last(ps)])
       && (reset <==> v.start in VictimSet(|s|, v.counter, ps))
  }

  lemma MakeAfterOffer(m: CyclicManagedMemory, s: seq<CyclicAtime>, v: Schedule, ps: seq<nat>, last: CyclicAtime?, reset: bool, unloaded: nat,
                       aim: nat, free: nat)
    requires v.counter < |s| == |v.ring| == |Turned(s, v.counter)| && v.start <= |s| && Cycle(s)
    requires ps == Victims(Turned(v.ring, v.counter), aim, free, 0)
    requires var r, es := Turned(s, v.counter), Turned(v.ring, v.counter);
             && MarkedAt(es, Snaps(r), ps) && Positions(Snaps(r), ps) && unloaded == OutBytes(Snaps(r), ps)
             && m.preemptiveBytes - Guessed(Snaps(r)) == v.bytes - Guessed(es)
             && (last == null <==> ps == []) && (ps != [] ==> Last(ps) < |r| && last == r[Last(ps)])
             && (reset <==> HasTaken(r, ps, m.preemptiveStart))
    requires m.active in s && (|s| - 1 - v.counter !in ps ==> m.active == s[0])
    requires m.active == Turned(s, v.counter)[Yielded(ps, |s| - 1 - v.counter, |s|)]
    requires m.preemptiveStart == if v.start < |s| then s[v.start] else null
    ensures AfterOffer(m, s, v, ps, last, reset, unloaded)
  {
    hide Cycle, Snaps, Guessed, Offered, VictimSet, OutBytes, Turned, Distinct, Positions, Yielded, HasTaken, MarkedAt, Victims;
    var c, w := v.counter, Snaps(s);
    SnapsLength(s);
    SnapsTurned(s, c);
    GuessedTurned(v.ring, c);
    GuessedTurned(w, c);
    TurnedLength(w, c);
    AfterUnload(v, w, ps, aim, free);
    PositionsBelow(Turned(w, c), ps);
    CycleDistinct(s);
    ResetIs(s, c, ps, v.start, m.preemptiveStart);
  }

  lemma PositionsBelow(w: seq<Entry>, ps: seq<nat>)
    requires Positions(w, ps)
    ensures (forall q :: 0 <= q < |ps| ==> ps[q] < |w|) && (ps != [] ==> Last(ps) < |w|)
  {
  }

  lemma StartInRing(m: CyclicManagedMemory)
    requires m.Valid() && m.ring != []
    ensures m.preemptiveStart != null ==> m.preemptiveStart in m.ring
    ensures m.preemptiveStart == if m.startAt < |m.ring| then m.ring[m.startAt] else null
    ensures m.startAt <= |m.ring|
  {
  }

  /** The ring shows what the sections say of this selection. */
  ghost predicate ShowsUnloaded(m: CyclicManagedMemory, v: Schedule, w: seq<Entry>, ps: seq<nat>)
    reads m, ChunksOf(m.ring)`status, ChunksOf(m.ring)`useCnt, ChunksOf(m.ring)`preemptiveLoaded
  {
    && ps != [] && v.counter < |w| && Last(ps) < |w|
    && var vs, j := VictimSet(|w|, v.counter, ps), ToRing(|w|, v.counter, Last(ps));
       && 0 < j < |w| && Kept(w[..v.counter + 1]) != []
       && m.View() == Unloaded(v, w, vs, j, Guessed(w))
  }

  lemma BeforeRearranging(s: seq<CyclicAtime>, v: Schedule, ps: seq<nat>)
    requires v.counter < |s| && Offered(v, Snaps(s), ps) && ps != []
    ensures var r, k := Turned(s, v.counter), Last(ps);
            && |Turned(Snaps(s), v.counter)| == |s| && Positions(Turned(Snaps(s), v.counter), ps)
            && k < |r| && !Snaps(r)[k].preemptive
            && (OutBytes(Turned(Snaps(s), v.counter), ps) > 0 ==> Only(r[k..], GoneOut(r[k..])) != [])
  {
    hide Snaps, OutBytes, Only, GoneOut, Turned, MarkedAt, Descending, Positions;
    var r, k, w := Turned(s, v.counter), Last(ps), Snaps(s);
    SnapsTurned(s, v.counter);
    TurnedLength(s, v.counter);
    TurnedLength(w, v.counter);
    SamePositions(w, Turned(w, v.counter), ps);
    LastMarked(Turned(v.ring, v.counter), Turned(w, v.counter), ps);
    if OutBytes(Snaps(r), ps) > 0 {
      OutMeansGone(r, ps, k);
    }
  }

  lemma SamePositions(a: seq<Entry>, b: seq<Entry>, ps: seq<nat>)
    requires |a| == |b| && Positions(a, ps)
    ensures Positions(b, ps)
  {
  }

  lemma ActiveStays(s: seq<CyclicAtime>, v: Schedule, ps: seq<nat>)
    requires Normal(v) && Offered(v, Snaps(s), ps) && ps != [] && ActiveAt(v) !in ps && s != []
    ensures !s[0].chunk.preemptiveLoaded && !s[0].chunk.status.Out()
  {
    OfferedFacts(v, Snaps(s), ps);
    assert Snaps(s)[0] == Snap(s[0]);
  }

  lemma NothingOut(w: seq<Entry>)
    ensures OutBytes(w, []) == 0
  {
  }

  /** The state between offering and rearranging. */
  ghost predicate Between(m: CyclicManagedMemory, s: seq<CyclicAtime>, v: Schedule, r: seq<CyclicAtime>, ps: seq<nat>, reset: bool)
    reads m, s`next, s`prev, r`next, r`prev, ChunksOf(s)`status, ChunksOf(s)`useCnt, ChunksOf(s)`preemptiveLoaded
  {
    && v.counter < |s| == |v.ring| && r == Turned(s, v.counter) && Cycle(r) && r != [] && OwnChunks(r) && Distinct(s)
    && Distinct(r) && Elements(r) == Elements(s)
    && |r| == |s| && m.counterActive == Last(r) && m.active in r && (ActiveAt(v) !in ps ==> m.active == s[0])
    && m.active == r[Yielded(ps, |s| - 1 - v.counter, |s|)]
    && v.start <= |s| && m.preemptiveStart == (if v.start < |s| then s[v.start] else null)
    && (reset <==> v.start in VictimSet(|s|, v.counter, ps))
    && Offered(v, Snaps(s), ps) && m.preemptiveBytes - Guessed(Snaps(s)) == v.bytes - Guessed(v.ring)
  }

  lemma BetweenFacts(m: CyclicManagedMemory, s: seq<CyclicAtime>, v: Schedule, r: seq<CyclicAtime>, ps: seq<nat>, reset: bool, bytes: nat)
    requires Between(m, s, v, r, ps, reset) && ps != []
    requires Positions(Turned(Snaps(s), v.counter), ps) && bytes == OutBytes(Turned(Snaps(s), v.counter), ps)
    ensures var k := Last(ps); k < |r| && !Snaps(r)[k].preemptive && (bytes > 0 ==> Only(r[k..], GoneOut(r[k..])) != [])
    ensures m.preemptiveStart != null ==> m.preemptiveStart in r
    ensures forall e :: e in r <==> e in s
    ensures Normal(v) && ActiveAt(v) !in ps ==> m.active == s[0] && !m.active.chunk.preemptiveLoaded && !m.active.chunk.status.Out()
  {
    BeforeRearranging(s, v, ps);
    Inside(r, s);
    Inside(s, r);
    if Normal(v) && ActiveAt(v) !in ps {
      ActiveStays(s, v, ps);
    }
  }

  /** What Rearrange leaves, when active was not selected and something has gone out. */
  lemma AfterRearranging(m: CyclicManagedMemory, s: seq<CyclicAtime>, v: Schedule, r: seq<CyclicAtime>, k: nat, ps: seq<nat>, reset: bool)
    requires v.counter < |s| == |v.ring| && r == Turned(s, v.counter) && Distinct(r) && Distinct(s) && m.Valid()
    requires Normal(v) && Offered(v, Snaps(s), ps) && ps != [] && ActiveAt(v) !in ps && k == Last(ps) < |r|
    requires v.start <= |s| && (reset <==> v.start in VictimSet(|s|, v.counter, ps)) && StartMoved(m, s, v.start, reset)
    requires m.preemptiveBytes == Guessed(Snaps(s))
    requires var kept, t := Except(r[k..], GoneOut(r[k..])), r[..k] + Except(r[k..], GoneOut(r[k..])) + Only(r[k..], GoneOut(r[k..]));
             && s[0] in t && m.ring == From(t, s[0])
             && m.counterActive == if kept != [] then Last(kept) else if k > 0 then Last(r[..k]) else s[0]
    ensures ShowsUnloaded(m, v, Snaps(s), ps)
  {
    hide Cycle, OwnChunks, Snaps, Guessed, Offered, VictimSet, ToRing, Turned, Distinct, Normal, Except, Only, From, GoneOut,
      Unloaded, Kept, StartMoved;
    TurnedLength(s, v.counter);
    PiecesApart(s, r, k, GoneOut(r[k..]));
    FinalView(m, s, v, ps, reset);
  }

  /** What the ring shows after swapOut, in each of its cases. */
  ghost predicate ShowsSwapOut(m: CyclicManagedMemory, v: Schedule, w: seq<Entry>, ps: seq<nat>, unloaded: nat)
    requires v.counter < |w|
    reads m, ChunksOf(m.ring)`status, ChunksOf(m.ring)`useCnt, ChunksOf(m.ring)`preemptiveLoaded
  {
    var y := YieldAt(|w|, v.counter, ps);
    if ActiveAt(v) !in ps then
      if unloaded > 0 then Normal(v) ==> ShowsUnloaded(m, v, w, ps) else m.View() == Refused(v, w)
    else
      Normal(v) ==>
        if unloaded > 0 then ShowsYielded(m, v, w, ps) else v.counter <= y < |w| && m.View() == YieldRefused(v, w, y)
  }

  method Reposition(m: CyclicManagedMemory, last: CyclicAtime, reset: bool, bytes: nat, ghost s: seq<CyclicAtime>, ghost v: Schedule,
                    ghost r: seq<CyclicAtime>, ghost ps: seq<nat>)
    requires Between(m, s, v, r, ps, reset) && ps != [] && Last(ps) < |r| && r[Last(ps)] == last
    requires Positions(Turned(Snaps(s), v.counter), ps) && bytes == OutBytes(Turned(Snaps(s), v.counter), ps)
    modifies Elements(s)`next, Elements(s)`prev, m`counterActive, m`active, m`preemptiveStart, m`ring, m`counterAt, m`startAt
    ensures m.Valid() && (forall e :: e in m.ring <==> e in s)
    ensures Snaps(s) == old(Snaps(s))
    ensures ShowsSwapOut(m, v, Snaps(s), ps, bytes)
  {
    hide Cycle, OwnChunks, Snaps, Guessed, Victims, Offered, VictimSet, ToRing, Descending, OutBytes, Turned, Distinct, NextIn,
      Normal, Except, Only, From, StartOf, GoneOut, Unloaded, Kept, ShowsUnloaded, ShowsYielded, Positions, Marked, MarkedAt, Yielded, YieldAt;
    BetweenFacts(m, s, v, r, ps, reset, bytes);
    ghost var w, k := Snaps(s), Last(ps);
    ghost var was: CyclicAtime := m.active;
    label L:
    Rearrange(m, last, reset, bytes, r, k, Elements(s));
    SnapsKept@L(s);
    if bytes > 0 && Normal(v) && ActiveAt(v) !in ps {
      GoneOutKept@L(r[k..]);
      NormalBytes(v);
      AfterRearranging(m, s, v, r, k, ps, reset);
    }
    if bytes == 0 && ActiveAt(v) !in ps {
      RefusedShows(m, s, v, r);
    }
    if bytes > 0 && Normal(v) && ActiveAt(v) in ps {
      GoneOutKept@L(r[k..]);
      NormalBytes(v);
      AfterYielding(m, s, v, r, ps, was, reset);
    }
    if bytes == 0 && Normal(v) && ActiveAt(v) in ps {
      YieldedWhere(s, v, w, ps);
      YieldRefusedShows(m, s, v, r, YieldAt(|s|, v.counter, ps));
    }
  }

  lemma YieldedWhere(s: seq<CyclicAtime>, v: Schedule, w: seq<Entry>, ps: seq<nat>)
    requires Normal(v) && Offered(v, w, ps) && ps != [] && ActiveAt(v) in ps && v.counter < |s| == |w|
    ensures |Turned(s, v.counter)| == |s| && v.counter <= YieldAt(|s|, v.counter, ps) < |s|
    ensures Turned(s, v.counter)[Yielded(ps, |s| - 1 - v.counter, |s|)] == s[YieldAt(|s|, v.counter, ps)]
  {
    hide Turned, Yielded, Offered, Normal, YieldAt, Descending;
    OfferedLength(v, w, ps);
    OfferedDescending(v, w, ps);
    YieldTurned(s, v.counter, ps);
    YieldWithin(|s|, v.counter, ps);
  }

  lemma YieldWithin(n: nat, c: nat, ps: seq<nat>)
    requires c < n
    ensures c <= YieldAt(n, c, ps) < n
  {
  }

  /** swapOut returns early when the swap has taken nothing: flags have been cleared, but nothing has moved. */
  ghost function Refused(v: Schedule, w: seq<Entry>): Schedule {
    Schedule(w, v.counter, v.start, v.bytes - Guessed(v.ring) + Guessed(w))
  }

  lemma TurnedBack(s: seq<CyclicAtime>, c: nat)
    requires c < |s| && Distinct(Turned(s, c))
    ensures From(Turned(s, c), s[0]) == s
  {
    hide Distinct, From;
    FromIs(Turned(s, c), s[c + 1..], s[..c + 1]);
    assert s[..c + 1] + s[c + 1..] == s;
  }

  lemma RefusedShows(m: CyclicManagedMemory, s: seq<CyclicAtime>, v: Schedule, r: seq<CyclicAtime>)
    requires v.counter < |s| && r == Turned(s, v.counter) && Distinct(r) && m.Valid() && m.ring == From(r, s[0])
    requires m.counterActive == Last(r) && v.start <= |s| && m.preemptiveStart == (if v.start < |s| then s[v.start] else null)
    requires m.preemptiveBytes - Guessed(Snaps(s)) == v.bytes - Guessed(v.ring)
    ensures m.View() == Refused(v, Snaps(s))
  {
    hide Snaps, Guessed, Distinct, From, Turned;
    TurnedStart(s, v.counter);
    TurnedBack(s, v.counter);
    ViewIs(m, Refused(v, Snaps(s)));
  }

  /** The order is kept then exactly if none of the selected chunks had been loaded on a guess. */
  lemma RefusedKeepsOrder(v: Schedule, w: seq<Entry>, vs: set<nat>)
    requires Normal(v) && Marked(v.ring, w, vs) && forall i :: i in vs ==> i < |w| && !w[i].status.Out()
    ensures Normal(Refused(v, w)) <==> forall i :: i in vs ==> !v.ring[i].preemptive
  {
    hide Guessed;
    if forall i :: i in vs ==> !v.ring[i].preemptive {
      assert forall i {:trigger w[i]} :: 0 <= i < |w| ==> w[i].preemptive == v.ring[i].preemptive && w[i].status.Out() == v.ring[i].status.Out();
    } else {
      var i :| i in vs && v.ring[i].preemptive;
      assert v.start <= i;
      assert !w[i].preemptive && !w[i].status.Out();
    }
  }

  lemma NormalBytes(v: Schedule)
    requires Normal(v)
    ensures v.bytes == Guessed(v.ring)
  {
  }

  lemma PiecesApart(s: seq<CyclicAtime>, r: seq<CyclicAtime>, k: nat, sel: set<CyclicAtime>)
    requires k < |r| && Distinct(r)
    ensures Distinct(r[..k] + Except(r[k..], sel) + Only(r[k..], sel))
  {
    assert r == r[..k] + r[k..];
    DistinctConcat(r[..k], r[k..]);
    DistinctConcat(r[k..], r[..k]);
    PiecesDistinct(r[k..], r[..k], sel);
  }

  lemma BetweenHolds(m: CyclicManagedMemory, s: seq<CyclicAtime>, v: Schedule, ps: seq<nat>, reset: bool)
    requires Cycle(s) && s != [] && OwnChunks(s) && v.counter < |s| == |v.ring| && v.start <= |s|
    requires m.counterActive == s[v.counter] && m.active in s && (ActiveAt(v) !in ps ==> m.active == s[0])
    requires |Turned(s, v.counter)| == |s| && m.active == Turned(s, v.counter)[Yielded(ps, |s| - 1 - v.counter, |s|)]
    requires m.preemptiveStart == (if v.start < |s| then s[v.start] else null)
    requires (reset <==> v.start in VictimSet(|s|, v.counter, ps)) && Offered(v, Snaps(s), ps)
    requires m.preemptiveBytes - Guessed(Snaps(s)) == v.bytes - Guessed(v.ring)
    ensures Between(m, s, v, Turned(s, v.counter), ps, reset)
  {
    hide Snaps, Offered, VictimSet, Guessed, Turned, Distinct, Cycle, OwnChunks, Yielded;
    TurnedSame(s, v.counter);
    CycleDistinct(s);
    CycleDistinct(Turned(s, v.counter));
  }

  lemma NothingShown(m: CyclicManagedMemory, v: Schedule, w: seq<Entry>)
    requires v.counter < |w| && m.View() == Refused(v, w)
    ensures ShowsSwapOut(m, v, w, [], 0)
  {
  }

  /** The ring as the walk goes back through it. */
  ghost function Walked(s: seq<CyclicAtime>, c: nat): seq<CyclicAtime> {
    if c < |s| then Turned(s, c) else s
  }

  /** The selection has been offered: either there was none and nothing has changed, or the ring is to be sorted. */
  ghost predicate OfferState(m: CyclicManagedMemory, s: seq<CyclicAtime>, v: Schedule, ps: seq<nat>, last: CyclicAtime?, reset: bool, unloaded: nat)
    reads m, m.ring`next, m.ring`prev, s`next, s`prev, Walked(s, v.counter)`next, Walked(s, v.counter)`prev
    reads ChunksOf(s)`status, ChunksOf(s)`useCnt, ChunksOf(s)`preemptiveLoaded
  {
    && v.counter < |v.ring| == |s| && m.ring == s
    && var w, r := Snaps(s), Walked(s, v.counter);
       && Offered(v, w, ps) && v.counter < |w| && Positions(Turned(w, v.counter), ps) && unloaded == OutBytes(Turned(w, v.counter), ps)
       && if last == null then ps == [] && unloaded == 0 && m.Valid() && m.View() == Refused(v, w)
          else ps != [] && Between(m, s, v, r, ps, reset) && Last(ps) < |r| && r[Last(ps)] == last
  }

  lemma MakeOfferState(m: CyclicManagedMemory, s: seq<CyclicAtime>, v: Schedule, ps: seq<nat>, last: CyclicAtime?, reset: bool, unloaded: nat)
    requires s != [] && m.ring == s && Cycle(s) && OwnChunks(s) && m.counterAt == v.counter < |s| && m.startAt == v.start <= |s|
    requires m.counterActive == s[v.counter] && m.preemptiveStart == (if v.start < |s| then s[v.start] else null)
    requires AfterOffer(m, s, v, ps, last, reset, unloaded)
    ensures OfferState(m, s, v, ps, last, reset, unloaded)
  {
    hide Cycle, OwnChunks, Snaps, Guessed, Offered, VictimSet, OutBytes, Turned, Distinct, Between, Positions, Yielded;
    SnapsLength(s);
    NothingOut(Turned(Snaps(s), v.counter));
    if last == null {
      m.Assembled();
    } else {
      BetweenHolds(m, s, v, ps, reset);
    }
  }

  /** Selecting and offering. */
  method OfferBetween(m: CyclicManagedMemory, allelements: nat, aim: nat, swapFree: nat, answer: Answers)
      returns (last: CyclicAtime?, reset: bool, unloaded: nat, ghost ps: seq<nat>)
    requires m.Valid() && m.ring != [] && allelements == |m.ring| && Weighted(Snaps(m.ring))
    modifies m`active, m`preemptiveBytes, ChunksOf(m.ring)`status, ChunksOf(m.ring)`preemptiveLoaded
    ensures var v := old(m.View()); v.counter < |v.ring| && ps == Victims(Turned(v.ring, v.counter), aim, swapFree, 0)
    ensures OfferState(m, m.ring, old(m.View()), ps, last, reset, unloaded)
  {
    hide Cycle, OwnChunks, Snaps, Guessed, Victims, Offered, VictimSet, ToRing, Descending, OutBytes, Turned, Distinct,
      Weighted, Between, Positions, ActiveAt, MarkedAt, Kept, Yielded, OfferState, AfterOffer, m.CursorsOk;
    ghost var v, s := m.View(), m.ring;
    m.Neighbours(0);
    label L:
    last, reset, unloaded, ps := OfferVictims(m, allelements, aim, swapFree, answer);
    CycleKept@L(s);
    TurnedLength(s, v.counter);
    MakeOfferState(m, s, v, ps, last, reset, unloaded);
  }

  /** Selecting, offering and rearranging; active may have been selected. */
  method UnloadAndRearrange(m: CyclicManagedMemory, allelements: nat, aim: nat, swapFree: nat, answer: Answers)
      returns (unloaded: nat, ghost ps: seq<nat>)
    requires m.Valid() && m.ring != [] && allelements == |m.ring| && Weighted(Snaps(m.ring))
    modifies m, m.ring`next, m.ring`prev, ChunksOf(m.ring)`status, ChunksOf(m.ring)`preemptiveLoaded
    ensures m.Valid() && (forall e :: e in m.ring <==> e in old(m.ring))
    ensures var v, w := old(m.View()), Snaps(old(m.ring));
            && v.counter < |v.ring| == |w| && ps == Victims(Turned(v.ring, v.counter), aim, swapFree, 0)
            && Offered(v, w, ps) && Positions(Turned(w, v.counter), ps) && unloaded == OutBytes(Turned(w, v.counter), ps)
            && ShowsSwapOut(m, v, w, ps, unloaded)
  {
    hide Cycle, OwnChunks, Snaps, Guessed, Victims, Offered, VictimSet, ToRing, Descending, OutBytes, Turned, Distinct,
      Weighted, ShowsSwapOut, Normal, Between, Positions, ActiveAt, MarkedAt, Unloaded, Kept, Yielded, Refused, m.CursorsOk, m.Valid;
    ghost var v, s := m.View(), m.ring;
    var last, reset;
    last, reset, unloaded, ps := OfferBetween(m, allelements, aim, swapFree, answer);
    SnapsLength(s);
    if last == null {
      NothingShown(m, v, Snaps(s));
      return;
    }
    Reposition(m, last, reset, unloaded, s, v, Turned(s, v.counter), ps);
  }

  /** ps is the greedy selection for goal bytes: going from the end of r, a chunk is selected exactly if it is idle, what was selected
      before it is still less than the goal, and it fits into the free swap with that. So the goal is reached unless each idle chunk
      that is left over would exceed the free swap. */
  ghost predicate SelectsFor(r: seq<Entry>, ps: seq<nat>, goal: nat, swapFree: nat) {
    && Positions(r, ps) && Bytes(r, ps) <= swapFree
    && (forall i: nat :: i < |r| ==>
          var above := BytesAbove(r, ps, i);
          i in ps <==> r[i].status.Allocated? && r[i].useCnt == 0 && above < goal && above + r[i].size <= swapFree)
    && (Bytes(r, ps) >= goal ||
        forall i: nat :: i < |r| && r[i].status.Allocated? && r[i].useCnt == 0 && i !in ps ==> Bytes(r, ps) + r[i].size > swapFree)
  }

  lemma VictimsFor(r: seq<Entry>, goal: nat, swapFree: nat)
    ensures SelectsFor(r, Victims(r, goal, swapFree, 0), goal, swapFree)
  {
    hide Victims, Bytes, BytesAbove;
    var ps := Victims(r, goal, swapFree, 0);
    VictimsFit(r, goal, swapFree, 0);
    forall i: nat | i < |r|
      ensures var above := BytesAbove(r, ps, i);
              && above <= Bytes(r, ps)
              && (i in ps <==> r[i].status.Allocated? && r[i].useCnt == 0 && above < goal && above + r[i].size <= swapFree)
    {
      VictimsGreedy(r, goal, swapFree, 0, i);
      AboveIsLess(r, ps, i);
    }
  }

  /** swapOut: the checks before, the selection, and the result. swapFree is the free swap after cached copies have been
      dropped and the swap has been extended, want is how far RAM use is above its target. */
  method SwapOut(m: CyclicManagedMemory, allelements: nat, minSize: nat, memoryMax: nat, swapFree: nat, want: nat, answer: Answers)
      returns (err: SwapErrorCode, unloaded: nat, ghost ps: seq<nat>)
    requires m.Valid() && allelements == |m.ring| && Weighted(Snaps(m.ring))
    modifies m, m.ring`next, m.ring`prev, ChunksOf(m.ring)`status, ChunksOf(m.ring)`preemptiveLoaded
    ensures m.Valid() && (forall e :: e in m.ring <==> e in old(m.ring))
    ensures err.NothingToSwap? <==> old(m.ring) == []
    ensures err.MoreThanTotalRam? <==> old(m.ring) != [] && minSize > memoryMax
    ensures err.SwapFull? <==> old(m.ring) != [] && minSize <= memoryMax && swapFree < minSize
    ensures err.Success? ==> unloaded > 0
    ensures err.Success? || err.NotEnoughCandidates? ==>
              var v, w := old(m.View()), Snaps(old(m.ring));
              && (err.Success? <==> unloaded > 0 && unloaded >= minSize)
              && v.counter < |v.ring| == |w| && ps == Victims(Turned(v.ring, v.counter), Aim(minSize, want, swapFree), swapFree, 0)
              && Offered(v, w, ps) && Positions(Turned(w, v.counter), ps) && unloaded == OutBytes(Turned(w, v.counter), ps)
              && ShowsSwapOut(m, v, w, ps, unloaded)
    ensures err.Success? || err.NotEnoughCandidates? ==>
              var v := old(m.View());
              SelectsFor(Turned(v.ring, v.counter), ps, if minSize < want <= swapFree then want else minSize, swapFree)
    ensures !err.Success? && !err.NotEnoughCandidates? ==> m.View() == old(m.View()) && m.ring == old(m.ring)
  {
    hide Cycle, OwnChunks, Snaps, Guessed, Victims, Offered, Descending, OutBytes, Turned, Distinct, Weighted, ShowsUnloaded,
      Normal, Positions, SelectsFor;
    ghost var v := m.View();
    unloaded, ps := 0, [];
    m.Parts();
    if m.counterActive == null {
      return NothingToSwap, 0, [];
    }
    if minSize > memoryMax {
      return MoreThanTotalRam, 0, [];
    }
    if swapFree < minSize {
      return SwapFull, 0, [];
    }
    var memSwap := if want < minSize then minSize else want;
    memSwap := if memSwap > swapFree then minSize else memSwap;
    unloaded, ps := UnloadAndRearrange(m, allelements, memSwap, swapFree, answer);
    VictimsFor(Turned(v.ring, v.counter), memSwap, swapFree);
    err := if unloaded > 0 && (unloaded >= memSwap || unloaded >= minSize) then Success else NotEnoughCandidates;
  }

  // ---------------------------------------------------------------- and its order

  /** Some selected chunk has gone out exactly if some bytes have. */
  lemma BytesOut(v: Schedule, w: seq<Entry>, ps: seq<nat>)
    requires Offered(v, w, ps) && Weighted(w) && Positions(Turned(w, v.counter), ps)
    ensures var vs := VictimSet(|w|, v.counter, ps);
            OutBytes(Turned(w, v.counter), ps) > 0 <==> exists i :: i in vs && i < |w| && w[i].status.Out()
  {
    hide Turned, OutBytes, MarkedAt, VictimSet, Descending;
    var c, t := v.counter, Turned(w, v.counter);
    TurnedLength(w, c);
    if OutBytes(t, ps) > 0 {
      var q := SomeOut(t, ps);
      var p := ps[q];
      TurnedAt(w, c, p);
      InVictimSet(|w|, c, ps, p);
      assert p in ps;
    }
    if i :| i in VictimSet(|w|, c, ps) && i < |w| && w[i].status.Out() {
      VictimIsSelected(|w|, c, ps, i);
      var p :| p in ps && p < |w| && ToRing(|w|, c, p) == i;
      TurnedAt(w, c, p);
      var q :| 0 <= q < |ps| && ps[q] == p;
      WeightedTurned(w, c);
      OneOut(t, ps, q);
    }
  }

  lemma VictimIsSelected(n: nat, c: nat, ps: seq<nat>, i: nat)
    requires c < n && i in VictimSet(n, c, ps)
    ensures exists p :: p in ps && p < n && ToRing(n, c, p) == i
  {
  }

  lemma {:induction false} OneOut(w: seq<Entry>, ps: seq<nat>, q: nat)
    requires Positions(w, ps) && Weighted(w) && q < |ps| && w[ps[q]].status.Out()
    ensures OutBytes(w, ps) > 0
    decreases |ps|
  {
    if q < |ps| - 1 {
      assert ps[..|ps| - 1][q] == ps[q];
      OneOut(w, ps[..|ps| - 1], q);
    }
  }

  /** Whether swapOut keeps the order. With active not selected: exactly if no selected guess was refused. With active selected and
      something gone out: as YieldKeepsOrder says. If nothing has gone out then only if active was the only chunk. */
  ghost predicate KeepsOrder(v: Schedule, w: seq<Entry>, ps: seq<nat>)
    requires v.counter < |w| && ps != []
  {
    var c, vs, j, y := v.counter, VictimSet(|w|, v.counter, ps), Last(ps) + v.counter + 1, YieldAt(|w|, v.counter, ps);
    if ActiveAt(v) !in ps then
      forall i :: i in vs && i < |v.ring| && i < |w| && v.ring[i].preemptive ==> w[i].status.Out()
    else if exists i :: i in vs && i < |w| && w[i].status.Out() then
      && c < j <= |w| && j <= y + 1 <= |w|
      && if v.start <= y then Kept(w[y + 1..]) + Kept(w[..c + 1]) != [] && forall z :: j <= z < y && z in vs ==> w[z].status.Out()
         else |Kept(w[j..]) + Kept(w[..c + 1])| <= 1
    else
      |w| == 1
  }

  /** swapOut keeps the order exactly then. */
  lemma SwapOutKeepsOrder(m: CyclicManagedMemory, v: Schedule, w: seq<Entry>, ps: seq<nat>, unloaded: nat)
    requires Normal(v) && Offered(v, w, ps) && Weighted(w) && Positions(Turned(w, v.counter), ps) && ps != []
    requires unloaded == OutBytes(Turned(w, v.counter), ps) && ShowsSwapOut(m, v, w, ps, unloaded)
    ensures Normal(m.View()) <==> KeepsOrder(v, w, ps)
  {
    hide Normal, Guessed, OutBytes, Turned, VictimSet, Kept, Outs, Unloaded, Yield, YieldRefused, Refused, Weighted, Positions, Marked, WithActive,
      YieldAt, m.View;
    BytesOut(v, w, ps);
    OfferedLength(v, w, ps);
    if ActiveAt(v) !in ps {
      PlainKeepsOrder(v, w, ps);
    } else {
      OfferedYield(v, w, ps);
      var c, vs, j, y := v.counter, VictimSet(|w|, v.counter, ps), Last(ps) + v.counter + 1, YieldAt(|w|, v.counter, ps);
      if unloaded > 0 {
        YieldKeepsOrder(v, w, vs, j, y);
      } else {
        YieldRefusedOrder(v, w, vs, j, y);
      }
    }
  }

  lemma PlainKeepsOrder(v: Schedule, w: seq<Entry>, ps: seq<nat>)
    requires Normal(v) && Offered(v, w, ps) && ps != [] && ActiveAt(v) !in ps
    ensures var c, n, k := v.counter, |w|, Last(ps);
            var vs, j := VictimSet(n, c, ps), ToRing(n, c, k);
            && k < n && 0 < j < n && Kept(w[..c + 1]) != []
            && (Normal(Unloaded(v, w, vs, j, Guessed(w))) <==> KeepsOrder(v, w, ps))
            && ((forall i :: i in vs && i < |w| ==> !w[i].status.Out()) ==> (Normal(Refused(v, w)) <==> KeepsOrder(v, w, ps)))
  {
    hide Guessed, Kept, Outs, Unloaded, Refused, VictimSet, ToRing, Turned, Offered, Normal, Arranged;
    OfferedFacts(v, w, ps);
    OfferedCursors(v, w, ps);
    OfferedLength(v, w, ps);
    var c, n, k := v.counter, |w|, Last(ps);
    var vs, j := VictimSet(n, c, ps), ToRing(n, c, k);
    UnloadKeepsOrder(v, w, vs, j);
    if forall i :: i in vs && i < |w| ==> !w[i].status.Out() {
      SelectedBelow(v.ring, w, vs, c, j);
      RefusedKeepsOrder(v, w, vs);
    }
  }

  lemma SelectedBelow(r: seq<Entry>, w: seq<Entry>, vs: set<nat>, c: nat, j: nat)
    requires |r| == |w| && c < |w| && j < |w| && forall i :: i in vs ==> if j <= c then j <= i <= c else i <= c || j <= i < |w|
    ensures forall i :: i in vs ==> i < |w|
  {
  }
}
