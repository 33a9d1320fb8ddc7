/** What swapOut selects, and what its reordering does to the sections. */
module Unloading {
  import opened ChunkStatus
  import opened Sections

  // ---------------------------------------------------------------- selection

  /** A chunk that may be swapped out. */
  predicate Idle(e: Entry) { e.status.Allocated? && e.useCnt == 0 }

  function Last<T>(s: seq<T>): T
    requires s != []
  {
    s[|s| - 1]
  }

  function Front<T>(s: seq<T>): seq<T>
    requires s != []
  {
    s[..|s| - 1]
  }

  /** The positions in r that swapOut selects. It walks r from the end, taking idle chunks as long as less than
      target bytes have been selected and skipping what would exceed the free swap. */
  ghost function Victims(r: seq<Entry>, target: nat, free: nat, sum: nat): seq<nat> {
    if r == [] || sum >= target then []
    else if Idle(Last(r)) && sum + Last(r).size <= free then
      [|r| - 1] + Victims(Front(r), target, free, sum + Last(r).size)
    else Victims(Front(r), target, free, sum)
  }

  ghost predicate Positions(r: seq<Entry>, ps: seq<nat>) {
    forall i :: 0 <= i < |ps| ==> ps[i] < |r|
  }

  ghost function Bytes(r: seq<Entry>, ps: seq<nat>): nat
    requires Positions(r, ps)
  {
    if ps == [] then 0 else r[ps[0]].size + Bytes(r, ps[1..])
  }

  /** What has been selected at positions above i. */
  ghost function BytesAbove(r: seq<Entry>, ps: seq<nat>, i: nat): nat
    requires Positions(r, ps)
  {
    if ps == [] then 0 else (if ps[0] > i then r[ps[0]].size else 0) + BytesAbove(r, ps[1..], i)
  }

  ghost predicate Descending(ps: seq<nat>) {
    forall i, j :: 0 <= i < j < |ps| ==> ps[i] > ps[j]
  }

  lemma {:induction false} AboveIsLess(es: seq<Entry>, ps: seq<nat>, i: nat)
    requires Positions(es, ps)
    ensures BytesAbove(es, ps, i) <= Bytes(es, ps)
    decreases |ps|
  {
    if ps != [] {
      AboveIsLess(es, ps[1..], i);
    }
  }

  lemma VictimsStep(r: seq<Entry>, target: nat, free: nat, sum: nat)
    requires r != []
    ensures var takes := Idle(Last(r)) && sum + Last(r).size <= free;
            Victims(r, target, free, sum) ==
              if sum >= target then []
              else if takes then [|r| - 1] + Victims(Front(r), target, free, sum + Last(r).size)
              else Victims(Front(r), target, free, sum)
  {
  }

  ghost predicate Shaped(r: seq<Entry>, ps: seq<nat>) {
    Positions(r, ps) && Descending(ps) && forall i :: i in ps ==> i < |r| && Idle(r[i])
  }

  lemma ShapedMore(r: seq<Entry>, ps: seq<nat>)
    requires r != [] && Shaped(Front(r), ps)
    ensures Shaped(r, ps) && (Idle(Last(r)) ==> Shaped(r, [|r| - 1] + ps))
  {
    forall i | i in ps
      ensures i < |r| && Idle(r[i])
    {
      assert Front(r)[i] == r[i];
    }
  }

  lemma {:induction false} VictimsShaped(r: seq<Entry>, target: nat, free: nat, sum: nat)
    ensures Shaped(r, Victims(r, target, free, sum))
    decreases |r|
  {
    hide Victims, Idle;
    if r == [] {
      NothingToTake(target, free, sum);
    } else {
      VictimsStep(r, target, free, sum);
      var next := if Idle(Last(r)) && sum + Last(r).size <= free then sum + Last(r).size else sum;
      VictimsShaped(Front(r), target, free, next);
      ShapedMore(r, Victims(Front(r), target, free, next));
    }
  }

  lemma NothingToTake(target: nat, free: nat, sum: nat)
    ensures Victims([], target, free, sum) == []
  {
  }

  lemma VictimsShape(r: seq<Entry>, target: nat, free: nat, sum: nat)
    ensures Positions(r, Victims(r, target, free, sum)) && Descending(Victims(r, target, free, sum))
    ensures forall i :: i in Victims(r, target, free, sum) ==> i < |r| && Idle(r[i])
  {
    hide Victims, Idle;
    VictimsShaped(r, target, free, sum);
  }

  lemma {:induction false} BytesShorter(r: seq<Entry>, ps: seq<nat>, i: nat)
    requires r != [] && Positions(Front(r), ps)
    ensures Positions(r, ps) && Bytes(r, ps) == Bytes(Front(r), ps) && BytesAbove(r, ps, i) == BytesAbove(Front(r), ps, i)
    ensures i >= |r| - 1 ==> BytesAbove(r, ps, i) == 0
    decreases |ps|
  {
    if ps != [] {
      BytesShorter(r, ps[1..], i);
    }
  }

  lemma BytesAboveCons(r: seq<Entry>, p: nat, ps: seq<nat>, i: nat)
    requires p < |r| && Positions(r, ps)
    ensures Positions(r, [p] + ps)
    ensures BytesAbove(r, [p] + ps, i) == (if p > i then r[p].size else 0) + BytesAbove(r, ps, i)
    ensures i in [p] + ps <==> i == p || i in ps
  {
    assert ([p] + ps)[1..] == ps;
  }

  /** The selection is greedy: a chunk is selected exactly if it is idle, what was selected before it is still too
      little, and it still fits into the free swap. */
  lemma {:induction false} VictimsGreedy(r: seq<Entry>, target: nat, free: nat, sum: nat, i: nat)
    requires i < |r|
    ensures var ps := Victims(r, target, free, sum);
            && Positions(r, ps)
            && (i in ps <==> Idle(r[i]) && sum + BytesAbove(r, ps, i) < target && sum + BytesAbove(r, ps, i) + r[i].size <= free)
    decreases |r|
  {
    hide Victims, BytesAbove, Bytes, Idle;
    VictimsShape(r, target, free, sum);
    VictimsStep(r, target, free, sum);
    if sum < target {
      var takes := Idle(Last(r)) && sum + Last(r).size <= free;
      var next := if takes then sum + Last(r).size else sum;
      var ps := Victims(Front(r), target, free, next);
      VictimsShape(Front(r), target, free, next);
      BytesShorter(r, ps, i);
      BytesAboveCons(r, |r| - 1, ps, i);
      if i < |r| - 1 {
        VictimsGreedy(Front(r), target, free, next, i);
        assert Front(r)[i] == r[i];
      }
    }
  }

  /** What is selected fits into the free swap; it is less than the target only if no more could be selected. */
  lemma {:induction false} VictimsFit(r: seq<Entry>, target: nat, free: nat, sum: nat)
    requires sum <= free
    ensures Positions(r, Victims(r, target, free, sum)) && sum + Bytes(r, Victims(r, target, free, sum)) <= free
    decreases |r|
  {
    VictimsShape(r, target, free, sum);
    if r != [] && sum < target {
      var takes := Idle(Last(r)) && sum + Last(r).size <= free;
      var ps := Victims(Front(r), target, free, if takes then sum + Last(r).size else sum);
      VictimsFit(Front(r), target, free, if takes then sum + Last(r).size else sum);
      BytesShorter(r, ps, 0);
    }
  }

  lemma BytesCons(r: seq<Entry>, p: nat, ps: seq<nat>)
    requires p < |r| && Positions(r, ps)
    ensures Positions(r, [p] + ps) && Bytes(r, [p] + ps) == r[p].size + Bytes(r, ps)
    ensures Last([p] + ps) == if ps == [] then p else Last(ps)
  {
    assert ([p] + ps)[1..] == ps;
  }

  /** Whether the second pass agrees is settled without the last element, which is selected. */
  lemma AgreesTaken(r: seq<Entry>, free: nat, sum: nat, ps: seq<nat>)
    requires r != [] && Idle(Last(r)) && sum + Last(r).size <= free && Positions(Front(r), ps)
    requires var next := sum + Last(r).size;
             Victims(Front(r), next + Bytes(Front(r), ps), free, next) == ps <==> ps == [] || Front(r)[Last(ps)].size > 0
    ensures var qs := [|r| - 1] + ps;
            Positions(r, qs) && (Victims(r, sum + Bytes(r, qs), free, sum) == qs <==> r[Last(qs)].size > 0)
  {
    hide Victims, Bytes;
    var qs := [|r| - 1] + ps;
    BytesShorter(r, ps, 0);
    BytesCons(r, |r| - 1, ps);
    VictimsStep(r, sum + Bytes(r, qs), free, sum);
    if ps != [] {
      LastWeighs(Front(r), ps);
      assert r[Last(ps)] == Front(r)[Last(ps)];
      assert Victims(r, sum + Bytes(r, qs), free, sum) == qs ==> qs[1..] == ps;
    } else {
      NoneTaken(r, free, sum);
      NoneTaken(Front(r), free, sum + Last(r).size);
    }
    VictimsTail(r, sum + Bytes(r, qs), free, sum, ps);
  }

  lemma VictimsTail(r: seq<Entry>, target: nat, free: nat, sum: nat, ps: seq<nat>)
    requires r != [] && Idle(Last(r)) && sum + Last(r).size <= free
    ensures Victims(r, target, free, sum) == [|r| - 1] + ps <==>
              sum < target && Victims(Front(r), target, free, sum + Last(r).size) == ps
  {
    var vs := Victims(Front(r), target, free, sum + Last(r).size);
    assert ([|r| - 1] + vs)[1..] == vs && ([|r| - 1] + ps)[1..] == ps;
  }

  /** The same when the last element is passed over. */
  lemma AgreesSkipped(r: seq<Entry>, free: nat, sum: nat, ps: seq<nat>)
    requires r != [] && !(Idle(Last(r)) && sum + Last(r).size <= free) && Positions(Front(r), ps)
    requires Victims(Front(r), sum + Bytes(Front(r), ps), free, sum) == ps <==> ps == [] || Front(r)[Last(ps)].size > 0
    ensures Positions(r, ps) && (Victims(r, sum + Bytes(r, ps), free, sum) == ps <==> ps == [] || r[Last(ps)].size > 0)
  {
    hide Victims, Bytes;
    BytesShorter(r, ps, 0);
    VictimsStep(r, sum + Bytes(r, ps), free, sum);
    if ps != [] {
      LastWeighs(Front(r), ps);
      assert r[Last(ps)] == Front(r)[Last(ps)];
    } else {
      NoneTaken(r, free, sum);
    }
  }

  /** The filling pass is run with the sum of the counting pass as its target. It selects the same chunks exactly if the last
      one selected is not empty. */
  lemma {:induction false} PassesAgree(r: seq<Entry>, target: nat, free: nat, sum: nat)
    ensures var ps := Victims(r, target, free, sum);
            && Positions(r, ps)
            && (Victims(r, sum + Bytes(r, ps), free, sum) == ps <==> ps == [] || r[Last(ps)].size > 0)
    decreases |r|
  {
    hide Bytes, BytesAbove, Idle;
    NoneTaken(r, free, sum);
    if r != [] && sum < target {
      var takes := Idle(Last(r)) && sum + Last(r).size <= free;
      var next := if takes then sum + Last(r).size else sum;
      var ps := Victims(Front(r), target, free, next);
      PassesAgree(Front(r), target, free, next);
      if takes {
        AgreesTaken(r, free, sum, ps);
      } else {
        AgreesSkipped(r, free, sum, ps);
      }
    }
  }

  /** One step of both passes. */
  lemma SecondPassStep(r: seq<Entry>, free: nat, sum: nat, cs: seq<nat>, ps: seq<nat>)
    requires r != [] && Positions(Front(r), cs) && Positions(Front(r), ps) && ps <= cs && Bytes(Front(r), ps) == Bytes(Front(r), cs)
    requires var takes := Idle(Last(r)) && sum + Last(r).size <= free; var next := if takes then sum + Last(r).size else sum;
             ps == Victims(Front(r), next + Bytes(Front(r), cs), free, next)
    ensures var takes := Idle(Last(r)) && sum + Last(r).size <= free; var all := if takes then [|r| - 1] + cs else cs;
            && Positions(r, all)
            && var some := Victims(r, sum + Bytes(r, all), free, sum);
               some <= all && Positions(r, some) && Bytes(r, some) == Bytes(r, all)
  {
    hide Victims, Bytes, BytesAbove, Idle, Positions;
    BytesShorter(r, cs, 0);
    BytesShorter(r, ps, 0);
    var all, more := cs, ps;
    if Idle(Last(r)) && sum + Last(r).size <= free {
      BytesCons(r, |r| - 1, cs);
      BytesCons(r, |r| - 1, ps);
      all, more := [|r| - 1] + cs, [|r| - 1] + ps;
    }
    NoneTaken(r, free, sum);
    if Bytes(r, all) > 0 {
      VictimsStep(r, sum + Bytes(r, all), free, sum);
      assert more <= all;
    }
  }

  /** The filling pass stops where the bytes of the counting pass are reached: it selects the first of the same chunks. */
  lemma {:induction false} SecondPass(r: seq<Entry>, target: nat, free: nat, sum: nat)
    ensures var cs := Victims(r, target, free, sum);
            && Positions(r, cs)
            && var ps := Victims(r, sum + Bytes(r, cs), free, sum);
               ps <= cs && Positions(r, ps) && Bytes(r, ps) == Bytes(r, cs)
    decreases |r|
  {
    hide Bytes, BytesAbove, Idle, Victims;
    NoneTaken(r, free, sum);
    if r == [] {
      NothingToTake(target, free, sum);
    } else {
      VictimsStep(r, target, free, sum);
      if sum < target {
        var takes := Idle(Last(r)) && sum + Last(r).size <= free;
        var next := if takes then sum + Last(r).size else sum;
        var cs := Victims(Front(r), target, free, next);
        SecondPass(Front(r), target, free, next);
        SecondPassStep(r, free, sum, cs, Victims(Front(r), next + Bytes(Front(r), cs), free, next));
      }
    }
  }

  lemma NoneTaken(r: seq<Entry>, free: nat, sum: nat)
    ensures Positions(r, []) && Bytes(r, []) == 0 && Victims(r, sum, free, sum) == []
  {
  }

  lemma {:induction false} LastWeighs(r: seq<Entry>, ps: seq<nat>)
    requires ps != [] && Positions(r, ps)
    ensures Bytes(r, ps) >= r[Last(ps)].size
    decreases |ps|
  {
    if |ps| > 1 {
      LastWeighs(r, ps[1..]);
    }
  }

  // ---------------------------------------------------------------- reordering

  ghost function Kept(s: seq<Entry>): seq<Entry> {
    if s == [] then [] else Kept(Front(s)) + if Last(s).status.Out() then [] else [Last(s)]
  }

  ghost function Outs(s: seq<Entry>): seq<Entry> {
    if s == [] then [] else Outs(Front(s)) + if Last(s).status.Out() then [Last(s)] else []
  }

  /** How many elements at the end carry the flag. */
  ghost function FlaggedEnd(s: seq<Entry>): (n: nat)
    ensures n <= |s|
  {
    if s == [] || !Last(s).preemptive then 0 else 1 + FlaggedEnd(Front(s))
  }

  /** The selected chunks have lost their flag and have been offered to the swap, which may have refused some. */
  ghost predicate Marked(r: seq<Entry>, w: seq<Entry>, vs: set<nat>) {
    && |w| == |r|
    && forall i :: 0 <= i < |r| ==>
         if i in vs then Idle(r[i]) && w[i] == r[i].(status := w[i].status, preemptive := false) else w[i] == r[i]
  }

  /** The ring after reordering, read from an active element that was not selected. The walk has gone from c back to
      j, past the beginning if c < j: what has gone out there follows what has not. */
  ghost function Reordered(w: seq<Entry>, c: nat, j: nat): seq<Entry>
    requires c < |w| && j < |w|
  {
    if j <= c then w[..j] + Kept(w[j..c + 1]) + Outs(w[j..c + 1]) + w[c + 1..]
    else Kept(w[..c + 1]) + Outs(w[j..]) + Outs(w[..c + 1]) + w[c + 1..j] + Kept(w[j..])
  }

  ghost function Unloaded(v: Schedule, w: seq<Entry>, vs: set<nat>, j: nat, bytes: int): Schedule
    requires v.counter < |w| && j < |w| && (0 < j || Kept(w[j..v.counter + 1]) != []) && Kept(w[..v.counter + 1]) != []
  {
    var c, r := v.counter, Reordered(w, v.counter, j);
    var worked := if j <= c then j + |Kept(w[j..c + 1])| else |Kept(w[..c + 1])|;
    var start := if v.start in vs then |r| - FlaggedEnd(r)
                 else if v.start < |w| && c < j && c < v.start then |Kept(w[..c + 1])| + |Outs(w[j..])| + |Outs(w[..c + 1])| + v.start - (c + 1)
                 else v.start;
    Schedule(r, worked - 1, start, bytes)
  }

  lemma {:induction false} Parted(s: seq<Entry>)
    ensures |Kept(s)| + |Outs(s)| == |s| && Guessed(Kept(s)) + Guessed(Outs(s)) == Guessed(s)
  {
    if s != [] {
      var x, k, o := Last(s), Kept(Front(s)), Outs(Front(s));
      Parted(Front(s));
      if x.status.Out() { GuessedNext(o, x); } else { GuessedNext(k, x); }
      assert k + [] == k && o + [] == o;
    }
  }

  lemma {:induction false} OutsAll(d: seq<Entry>)
    requires forall x :: x in d ==> x.status.Out()
    ensures Kept(d) == [] && Outs(d) == d
  {
    if d != [] {
      OutsAll(Front(d));
      assert d == Front(d) + [Last(d)];
    }
  }

  lemma GuessedNext(s: seq<Entry>, x: Entry)
    ensures Guessed(s + [x]) == Guessed(s) + if x.preemptive then x.size else 0
  {
    assert (s + [x])[..|s|] == s;
  }

  lemma {:induction false} PartedMembers(s: seq<Entry>, e: Entry)
    ensures e in Kept(s) <==> e in s && !e.status.Out()
    ensures e in Outs(s) <==> e in s && e.status.Out()
  {
    if s != [] {
      PartedMembers(Front(s), e);
      assert e in s <==> e in Front(s) || e == Last(s);
    }
  }

  /** Three sections one after the other. */
  lemma ArrangedFrom(a: seq<Entry>, b: seq<Entry>, c: seq<Entry>, bytes: int)
    requires a != [] && (forall e :: e in a ==> Working(e)) && (forall e :: e in b ==> Gone(e)) && (forall e :: e in c ==> Guess(e))
    ensures Arranged(Schedule(a + b + c, |a| - 1, |a| + |b|, bytes))
  {
    var r := a + b + c;
    forall k | 0 <= k < |r|
      ensures if k < |a| then Working(r[k]) else if k < |a| + |b| then Gone(r[k]) else Guess(r[k])
    {
      if k < |a| { assert r[k] == a[k]; }
      else if k < |a| + |b| { assert r[k] == b[k - |a|]; }
      else { assert r[k] == c[k - |a| - |b|]; }
    }
  }

  /** The guesses at the end are all that carries the flag there. */
  lemma {:induction false} FlaggedEndIs(a: seq<Entry>, c: seq<Entry>)
    requires a != [] && !Last(a).preemptive && forall e :: e in c ==> e.preemptive
    ensures FlaggedEnd(a + c) == |c|
    decreases |c|
  {
    if c == [] {
      assert a + c == a;
    } else {
      assert Front(a + c) == a + Front(c) && Last(a + c) == Last(c);
      FlaggedEndIs(a, Front(c));
    }
  }

  /** The elements of s that have not gone out, and those that have, when none carries the flag. */
  lemma PartedPlain(s: seq<Entry>)
    requires forall e :: e in s ==> !e.preemptive
    ensures forall e :: e in Kept(s) ==> Working(e)
    ensures forall e :: e in Outs(s) ==> Gone(e)
    ensures (exists e :: e in s && !e.status.Out()) ==> Kept(s) != []
  {
    forall e | e in Kept(s)
      ensures Working(e)
    {
      PartedMembers(s, e);
    }
    forall e | e in Outs(s)
      ensures Gone(e)
    {
      PartedMembers(s, e);
    }
    if e :| e in s && !e.status.Out() {
      PartedMembers(s, e);
    }
  }

  lemma MarkedSize(r: seq<Entry>, w: seq<Entry>, vs: set<nat>)
    requires Marked(r, w, vs)
    ensures |w| == |r|
  {
  }

  lemma SlicePlain(v: Schedule, w: seq<Entry>, vs: set<nat>, lo: nat, hi: nat)
    requires Arranged(v) && Marked(v.ring, w, vs) && lo <= hi <= v.counter + 1
    ensures forall e :: e in w[lo..hi] ==> !e.preemptive
    ensures forall e :: e in w[lo..hi] ==> Working(e) || Gone(e)
  {
    forall e | e in w[lo..hi]
      ensures !e.preemptive
    {
      var i :| 0 <= i < hi - lo && w[lo..hi][i] == e;
      assert w[lo + i] == e;
    }
  }

  /** What was not selected still stands where it stood. */
  lemma SliceUntouched(v: Schedule, w: seq<Entry>, vs: set<nat>, lo: nat, hi: nat)
    requires Arranged(v) && Marked(v.ring, w, vs) && lo <= hi <= |w| && forall i :: i in vs ==> i < lo || hi <= i
    ensures forall e :: e in w[lo..hi] ==> e in v.ring[lo..hi]
    ensures hi <= v.counter + 1 ==> forall e :: e in w[lo..hi] ==> Working(e)
    ensures v.counter < lo && hi <= v.start ==> forall e :: e in w[lo..hi] ==> Gone(e)
    ensures v.start <= lo ==> forall e :: e in w[lo..hi] ==> Guess(e)
  {
    forall e | e in w[lo..hi]
      ensures e in v.ring[lo..hi]
      ensures hi <= v.counter + 1 ==> Working(e)
      ensures v.counter < lo && hi <= v.start ==> Gone(e)
      ensures v.start <= lo ==> Guess(e)
    {
      var i :| 0 <= i < hi - lo && w[lo..hi][i] == e;
      assert w[lo + i] == e == v.ring[lo + i] == v.ring[lo..hi][i];
    }
  }

  lemma GuessedFour(a: seq<Entry>, b: seq<Entry>, c: seq<Entry>, d: seq<Entry>)
    ensures Guessed(a + b + c + d) == Guessed(a) + Guessed(b) + Guessed(c) + Guessed(d)
  {
    hide Guessed;
    GuessedConcat(a + b + c, d);
    GuessedConcat(a + b, c);
    GuessedConcat(a, b);
  }

  lemma InsideIs(w: seq<Entry>, c: nat, j: nat)
    requires j <= c < |w|
    ensures Reordered(w, c, j) == w[..j] + Kept(w[j..c + 1]) + Outs(w[j..c + 1]) + w[c + 1..]
  {
  }

  lemma InsideBytes(w: seq<Entry>, c: nat, j: nat)
    requires j <= c < |w|
    ensures Guessed(Reordered(w, c, j)) == Guessed(w)
  {
    hide Guessed, Kept, Outs, Reordered;
    var seg := w[j..c + 1];
    InsideIs(w, c, j);
    Parted(seg);
    assert w == w[..j] + seg + w[c + 1..];
    GuessedConcat(w[..j] + seg, w[c + 1..]);
    GuessedConcat(w[..j], seg);
    GuessedFour(w[..j], Kept(seg), Outs(seg), w[c + 1..]);
  }

  /** What the walk leaves behind when it has not gone past the beginning. */
  lemma UnloadInside(v: Schedule, w: seq<Entry>, vs: set<nat>, j: nat)
    requires Arranged(v) && Marked(v.ring, w, vs) && 0 < j <= v.counter && forall i :: i in vs ==> j <= i <= v.counter
    ensures Kept(w[..v.counter + 1]) != []
    ensures Normal(Unloaded(v, w, vs, j, Guessed(w)))
  {
    FirstKept(v, w, vs);
    InsideSections(v, w, vs, j);
    InsideBytes(w, v.counter, j);
    hide Guessed, Kept, Outs, Reordered, Arranged;
    assert Unloaded(v, w, vs, j, Guessed(w)).ring == Reordered(w, v.counter, j);
  }

  lemma FirstKept(v: Schedule, w: seq<Entry>, vs: set<nat>)
    requires Arranged(v) && Marked(v.ring, w, vs) && 0 !in vs
    ensures Kept(w[..v.counter + 1]) != []
  {
    assert w[0] in w[..v.counter + 1];
    PartedMembers(w[..v.counter + 1], w[0]);
  }

  lemma InsideSections(v: Schedule, w: seq<Entry>, vs: set<nat>, j: nat)
    requires Arranged(v) && Marked(v.ring, w, vs) && 0 < j <= v.counter && forall i :: i in vs ==> j <= i <= v.counter
    requires Kept(w[..v.counter + 1]) != []
    ensures Arranged(Unloaded(v, w, vs, j, Guessed(w)))
  {
    hide Guessed, Kept, Outs, Unloaded, Reordered, Marked;
    var c := v.counter;
    assert |w| == |v.ring| by { MarkedSize(v.ring, w, vs); }
    var seg := w[j..c + 1];
    SlicePlain(v, w, vs, j, c + 1);
    SliceUntouched(v, w, vs, 0, j);
    SliceUntouched(v, w, vs, c + 1, v.start);
    SliceUntouched(v, w, vs, v.start, |w|);
    PartedPlain(seg);
    Parted(seg);
    ArrangedFrom(w[0..j] + Kept(seg), Outs(seg) + w[c + 1..v.start], w[v.start..|w|], Guessed(w));
    Regroup(w[0..j], Kept(seg), Outs(seg), w[c + 1..v.start], w[v.start..|w|]);
    Tail(w, c + 1, v.start);
    InsideCursors(v, w, vs, j);
  }

  lemma InsideCursors(v: Schedule, w: seq<Entry>, vs: set<nat>, j: nat)
    requires Arranged(v) && |w| == |v.ring| && 0 < j <= v.counter && (forall i :: i in vs ==> j <= i <= v.counter)
    requires Kept(w[..v.counter + 1]) != []
    ensures var c, seg, t := v.counter, w[j..v.counter + 1], Unloaded(v, w, vs, j, Guessed(w));
            t.ring == w[0..j] + Kept(seg) + Outs(seg) + w[c + 1..] && t.counter == j + |Kept(seg)| - 1 && t.start == v.start
  {
    assert w[..j] == w[0..j];
  }

  lemma Regroup<T>(a: seq<T>, b: seq<T>, c: seq<T>, d: seq<T>, e: seq<T>)
    ensures a + b + c + (d + e) == (a + b) + (c + d) + e
  {
  }

  lemma Tail<T>(s: seq<T>, i: nat, k: nat)
    requires i <= k <= |s|
    ensures s[i..] == s[i..k] + s[k..|s|]
  {
  }

  // ---------------------------------------------------------------- past the beginning

  /** The walk has gone past the beginning, down to a guess. */
  ghost predicate Around(v: Schedule, w: seq<Entry>, vs: set<nat>, j: nat) {
    && Arranged(v) && Marked(v.ring, w, vs) && v.counter < j < |w| && j in vs && 0 !in vs
    && forall i :: i in vs ==> i <= v.counter || j <= i < |w|
  }

  /** No chunk that was loaded on a guess has been refused. */
  ghost predicate GuessesTaken(v: Schedule, w: seq<Entry>, vs: set<nat>) {
    forall i :: i in vs && i < |v.ring| && i < |w| && v.ring[i].preemptive ==> w[i].status.Out()
  }

  lemma AroundFacts(v: Schedule, w: seq<Entry>, vs: set<nat>, j: nat)
    requires Around(v, w, vs, j)
    ensures |w| == |v.ring| && v.counter < v.start <= j && (v.start in vs <==> v.start == j)
    ensures forall e :: e in Outs(w[j..]) ==> Gone(e)
    ensures GuessesTaken(v, w, vs) ==> forall e :: e in Kept(w[j..]) ==> Guess(e)
    ensures !GuessesTaken(v, w, vs) ==> exists e :: e in Kept(w[j..]) && !e.preemptive && !e.status.Out()
  {
    forall e | e in Outs(w[j..])
      ensures Gone(e)
    {
      PartedMembers(w[j..], e);
      var i :| 0 <= i < |w[j..]| && w[j..][i] == e;
      assert w[j + i] == e;
    }
    if GuessesTaken(v, w, vs) {
      forall e | e in Kept(w[j..])
        ensures Guess(e)
      {
        PartedMembers(w[j..], e);
        var i :| 0 <= i < |w[j..]| && w[j..][i] == e;
        assert w[j + i] == e;
      }
    } else {
      var i :| i in vs && i < |v.ring| && v.ring[i].preemptive && !w[i].status.Out();
      assert i >= j && w[i] == w[j..][i - j];
      PartedMembers(w[j..], w[i]);
    }
  }

  lemma AroundParts(v: Schedule, w: seq<Entry>, vs: set<nat>, j: nat)
    requires Around(v, w, vs, j) && Kept(w[..v.counter + 1]) != []
    ensures v.counter < v.start <= j <= |w|
    ensures var c, t := v.counter, Unloaded(v, w, vs, j, Guessed(w));
            var done := Kept(w[..c + 1]) + (Outs(w[j..]) + Outs(w[..c + 1]) + w[c + 1..v.start]);
            && t.ring == done + (w[v.start..j] + Kept(w[j..])) && t.counter == |Kept(w[..c + 1])| - 1
            && t.start == if v.start == j then |t.ring| - FlaggedEnd(t.ring) else |done|
  {
    hide Marked, Arranged, Kept, Outs, Guessed, FlaggedEnd;
    AroundFacts(v, w, vs, j);
    var c := v.counter;
    MiddleOf(w, c + 1, v.start, j);
    RegroupFive(Kept(w[..c + 1]), Outs(w[j..]), Outs(w[..c + 1]), w[c + 1..v.start], w[v.start..j], Kept(w[j..]));
  }

  lemma MiddleOf<T>(s: seq<T>, i: nat, k: nat, j: nat)
    requires i <= k <= j <= |s|
    ensures s[i..j] == s[i..k] + s[k..j]
  {
  }

  lemma RegroupFive<T>(a: seq<T>, b: seq<T>, c: seq<T>, d: seq<T>, e: seq<T>, f: seq<T>)
    ensures a + b + c + (d + e) + f == a + (b + c + d) + (e + f)
  {
  }

  lemma AroundSections(v: Schedule, w: seq<Entry>, vs: set<nat>, j: nat)
    requires Around(v, w, vs, j) && Kept(w[..v.counter + 1]) != [] && GuessesTaken(v, w, vs)
    ensures Arranged(Unloaded(v, w, vs, j, Guessed(w)))
  {
    hide Guessed, Kept, Outs, Unloaded, Reordered, Marked, FlaggedEnd;
    var c := v.counter;
    AroundFacts(v, w, vs, j);
    AroundParts(v, w, vs, j);
    SlicePlain(v, w, vs, 0, c + 1);
    assert w[..c + 1] == w[0..c + 1];
    PartedPlain(w[..c + 1]);
    SliceUntouched(v, w, vs, c + 1, v.start);
    SliceUntouched(v, w, vs, v.start, j);
    var a, b, d := Kept(w[..c + 1]), Outs(w[j..]) + Outs(w[..c + 1]) + w[c + 1..v.start], w[v.start..j] + Kept(w[j..]);
    ArrangedFrom(a, b, d, Guessed(w));
    if v.start == j {
      assert d == Kept(w[j..]);
      assert Last(a + b) in a || Last(a + b) in b;
      FlaggedEndIs(a + b, d);
    }
  }

  lemma AroundBytes(w: seq<Entry>, c: nat, j: nat)
    requires c < j < |w|
    ensures Guessed(Reordered(w, c, j)) == Guessed(w)
  {
    hide Guessed, Kept, Outs;
    var a, m, d := w[..c + 1], w[c + 1..j], w[j..];
    Parted(a);
    Parted(d);
    assert w == a + m + d;
    GuessedConcat(a + m, d);
    GuessedConcat(a, m);
    GuessedFour(Kept(a), Outs(d), Outs(a), m);
    GuessedConcat(Kept(a) + Outs(d) + Outs(a) + m, Kept(d));
  }

  /** A refused guess stands behind the first section without its flag, where it does not belong. */
  lemma AroundRefused(v: Schedule, w: seq<Entry>, vs: set<nat>, j: nat)
    requires Around(v, w, vs, j) && Kept(w[..v.counter + 1]) != [] && !GuessesTaken(v, w, vs)
    ensures !Ordered(Unloaded(v, w, vs, j, Guessed(w)))
  {
    hide Guessed, Kept, Outs, Unloaded, Reordered, Marked, FlaggedEnd;
    AroundFacts(v, w, vs, j);
    AroundParts(v, w, vs, j);
    var t := Unloaded(v, w, vs, j, Guessed(w));
    var k1 := Kept(w[j..]);
    var e :| e in k1 && !e.preemptive && !e.status.Out();
    var i :| 0 <= i < |k1| && k1[i] == e;
    var q := |t.ring| - |k1| + i;
    assert t.ring[q] == e;
  }

  lemma UnloadAround(v: Schedule, w: seq<Entry>, vs: set<nat>, j: nat)
    requires Around(v, w, vs, j)
    ensures Kept(w[..v.counter + 1]) != []
    ensures Normal(Unloaded(v, w, vs, j, Guessed(w))) <==> GuessesTaken(v, w, vs)
  {
    FirstKept(v, w, vs);
    AroundBytes(w, v.counter, j);
    hide Guessed, Kept, Outs, Reordered, Arranged, GuessesTaken;
    if GuessesTaken(v, w, vs) {
      AroundSections(v, w, vs, j);
    } else {
      AroundRefused(v, w, vs, j);
    }
  }

  /** swapOut keeps the order if active was not selected, and the swap takes everything that was loaded on a guess; and
      if active was not selected, only then. */
  lemma UnloadKeepsOrder(v: Schedule, w: seq<Entry>, vs: set<nat>, j: nat)
    requires Normal(v) && v.ring != [] && Marked(v.ring, w, vs) && j in vs && 0 !in vs
    requires forall i :: i in vs ==> if j <= v.counter then j <= i <= v.counter else i <= v.counter || j <= i < |w|
    ensures v.counter < |w| && j < |w| && 0 < j && Kept(w[..v.counter + 1]) != []
    ensures Normal(Unloaded(v, w, vs, j, Guessed(w))) <==> GuessesTaken(v, w, vs)
  {
    assert Arranged(v);
    if j <= v.counter {
      UnloadInside(v, w, vs, j);
    } else {
      UnloadAround(v, w, vs, j);
    }
  }
}
