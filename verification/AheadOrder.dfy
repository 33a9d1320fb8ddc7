/** Where the chunks that swapIn has loaded along with the requested one go, and when this keeps the order. */
module AheadOrder {
  import opened Sections
  import opened Unloading

  /** The selected chunks have been asked for: all but the requested one, i, carry the flag, and the swap may have refused some. */
  ghost predicate Asked(r: seq<Entry>, w: seq<Entry>, vs: set<nat>, i: nat) {
    && |w| == |r| && i in vs && i < |w| && !w[i].status.Out()
    && forall p :: 0 <= p < |r| ==>
         if p in vs then r[p].status.Swapped? && w[p] == r[p].(status := w[p].status, preemptive := p != i) else w[p] == r[p]
  }

  ghost predicate NoneRefused(w: seq<Entry>, vs: set<nat>) {
    forall p :: p in vs && p < |w| ==> !w[p].status.Out()
  }

  // ---------------------------------------------------------------- active is outside of what is sorted

  /** The requested chunk goes to the front, what was read ahead to the end. */
  ghost function Loaded(v: Schedule, w: seq<Entry>, lo: nat, i: nat): Schedule
    requires lo <= i < |w| && |Kept(w[lo..i])| <= v.start
  {
    Schedule([w[i]] + w[..lo] + Outs(w[lo..i]) + w[i + 1..] + Kept(w[lo..i]), v.counter + 1, v.start - |Kept(w[lo..i])|, Guessed(w))
  }

  /** What is sorted lies among the swapped chunks, and active in front of it. */
  ghost predicate Behind(v: Schedule, w: seq<Entry>, vs: set<nat>, lo: nat, i: nat) {
    && Ordered(v) && Asked(v.ring, w, vs, i) && v.counter < lo <= i < v.start <= |w| == |v.ring|
    && forall p :: p in vs ==> lo <= p <= i
  }

  lemma LoadedFits(v: Schedule, w: seq<Entry>, lo: nat, i: nat)
    requires lo <= i < |w| && i < v.start
    ensures |Kept(w[lo..i])| < v.start
  {
    Parted(w[lo..i]);
  }

  lemma LoadedPieces(v: Schedule, w: seq<Entry>, vs: set<nat>, lo: nat, i: nat)
    requires Behind(v, w, vs, lo, i)
    ensures Working(w[i]) && |w| == |v.ring|
    ensures forall x :: x in Kept(w[lo..i]) ==> Guess(x)
    ensures NoneRefused(w, vs) ==> forall x :: x in Outs(w[lo..i]) ==> Gone(x)
    ensures !NoneRefused(w, vs) ==> exists x :: x in Outs(w[lo..i]) && x.preemptive
  {
    PiecesOf(v.ring, w, vs, i, lo, i);
    if !NoneRefused(w, vs) {
      var p :| p in vs && p < |w| && w[p].status.Out();
      assert p != i && w[lo..i][p - lo] == w[p];
      PartedMembers(w[lo..i], w[p]);
    }
  }

  /** What was gone before is still gone, or has come in with the flag, or has been refused and carries it. */
  lemma PiecesOf(r: seq<Entry>, w: seq<Entry>, vs: set<nat>, i: nat, lo: nat, hi: nat)
    requires Asked(r, w, vs, i) && lo <= hi <= |w| && (i < lo || hi <= i) && forall q :: lo <= q < hi ==> Gone(r[q])
    ensures forall x :: x in Kept(w[lo..hi]) ==> Guess(x)
    ensures NoneRefused(w, vs) ==> forall x :: x in Outs(w[lo..hi]) ==> Gone(x)
  {
    var d := w[lo..hi];
    forall x | x in Kept(d)
      ensures Guess(x)
    {
      PartedMembers(d, x);
      var q :| 0 <= q < |d| && d[q] == x;
      assert w[lo + q] == x && Gone(r[lo + q]);
    }
    if NoneRefused(w, vs) {
      forall x | x in Outs(d)
        ensures Gone(x)
      {
        PartedMembers(d, x);
        var q :| 0 <= q < |d| && d[q] == x;
        assert w[lo + q] == x && Gone(r[lo + q]);
      }
    }
  }

  lemma SliceAsked(v: Schedule, w: seq<Entry>, vs: set<nat>, i: nat, lo: nat, hi: nat)
    requires Ordered(v) && Asked(v.ring, w, vs, i) && lo <= hi <= |w| && forall p :: p in vs ==> p < lo || hi <= p
    ensures Arranged(v) && hi <= v.counter + 1 ==> forall e :: e in w[lo..hi] ==> Working(e)
    ensures (v.counter < lo || AllGone(v)) && hi <= v.start ==> forall e :: e in w[lo..hi] ==> Gone(e)
    ensures v.start <= lo ==> forall e :: e in w[lo..hi] ==> Guess(e)
  {
    forall e | e in w[lo..hi]
      ensures Arranged(v) && hi <= v.counter + 1 ==> Working(e)
      ensures (v.counter < lo || AllGone(v)) && hi <= v.start ==> Gone(e)
      ensures v.start <= lo ==> Guess(e)
    {
      var q :| 0 <= q < hi - lo && w[lo..hi][q] == e;
      assert w[lo + q] == e == v.ring[lo + q];
    }
  }

  lemma RegroupSix<T>(x: seq<T>, a: seq<T>, b: seq<T>, o: seq<T>, m: seq<T>, d: seq<T>, k: seq<T>)
    ensures x + (a + b) + o + (m + d) + k == (x + a) + (b + o + m) + (d + k)
  {
  }

  lemma LoadedSections(v: Schedule, w: seq<Entry>, vs: set<nat>, lo: nat, i: nat)
    requires Behind(v, w, vs, lo, i) && Arranged(v) && |Kept(w[lo..i])| <= v.start && NoneRefused(w, vs)
    ensures Arranged(Loaded(v, w, lo, i))
  {
    hide Guessed, Kept, Outs, Asked, NoneRefused, Arranged, AllGone;
    LoadedPieces(v, w, vs, lo, i);
    var c, d := v.counter, w[lo..i];
    Parted(d);
    SliceAsked(v, w, vs, i, 0, c + 1);
    SliceAsked(v, w, vs, i, c + 1, lo);
    SliceAsked(v, w, vs, i, i + 1, v.start);
    SliceAsked(v, w, vs, i, v.start, |w|);
    ArrangedFrom([w[i]] + w[0..c + 1], w[c + 1..lo] + Outs(d) + w[i + 1..v.start], w[v.start..|w|] + Kept(d), Guessed(w));
    MiddleOf(w, 0, c + 1, lo);
    Tail(w, i + 1, v.start);
    assert w[..lo] == w[0..lo];
    RegroupSix([w[i]], w[0..c + 1], w[c + 1..lo], Outs(d), w[i + 1..v.start], w[v.start..|w|], Kept(d));
  }

  /** From a state in which everything was out: the requested chunk, then all that still is, then what was read ahead. */
  lemma LoadedFromGone(v: Schedule, w: seq<Entry>, vs: set<nat>, lo: nat, i: nat)
    requires Behind(v, w, vs, lo, i) && AllGone(v) && |Kept(w[lo..i])| <= v.start && NoneRefused(w, vs)
    ensures Arranged(Loaded(v, w, lo, i).(counter := 0))
  {
    hide Guessed, Kept, Outs, Asked, NoneRefused, Arranged;
    LoadedPieces(v, w, vs, lo, i);
    var d := w[lo..i];
    Parted(d);
    SliceAsked(v, w, vs, i, 0, lo);
    SliceAsked(v, w, vs, i, i + 1, |w|);
    ArrangedFrom([w[i]], w[0..lo] + Outs(d) + w[i + 1..|w|], Kept(d), Guessed(w));
    assert w[..lo] == w[0..lo] && w[i + 1..] == w[i + 1..|w|];
    assert [w[i]] + (w[0..lo] + Outs(d) + w[i + 1..|w|]) + Kept(d) == [w[i]] + w[0..lo] + Outs(d) + w[i + 1..|w|] + Kept(d);
  }

  lemma LoadedGuessed(v: Schedule, w: seq<Entry>, lo: nat, i: nat)
    requires lo <= i < |w| && |Kept(w[lo..i])| <= v.start
    ensures Guessed(Loaded(v, w, lo, i).ring) == Guessed(w)
  {
    hide Guessed, Kept, Outs;
    var d := w[lo..i];
    Parted(d);
    assert w == w[..lo] + d + [w[i]] + w[i + 1..];
    GuessedFour(w[..lo], d, [w[i]], w[i + 1..]);
    GuessedFour([w[i]], w[..lo], Outs(d), w[i + 1..]);
    GuessedConcat([w[i]] + w[..lo] + Outs(d) + w[i + 1..], Kept(d));
  }

  /** A chunk that was to be read ahead and has been refused stands among the swapped ones with its flag. */
  lemma LoadedRefused(v: Schedule, w: seq<Entry>, vs: set<nat>, lo: nat, i: nat)
    requires Behind(v, w, vs, lo, i) && |Kept(w[lo..i])| <= v.start && !NoneRefused(w, vs)
    ensures !Ordered(Followed(Loaded(v, w, lo, i)))
  {
    hide Guessed, Kept, Outs, Asked, NoneRefused, Arranged, AllGone, Followed, Loaded;
    LoadedPieces(v, w, vs, lo, i);
    var o, t := Outs(w[lo..i]), Followed(Loaded(v, w, lo, i));
    var x :| x in o && x.preemptive;
    PartedMembers(w[lo..i], x);
    LoadedBytes(v, w, lo, i);
    assert t.ring == [w[i]] + w[..lo] + o + w[i + 1..] + Kept(w[lo..i]) by { LoadedRing(v, w, lo, i); }
    MisplacedEntry(t, x);
  }

  lemma LoadedRing(v: Schedule, w: seq<Entry>, lo: nat, i: nat)
    requires lo <= i < |w| && |Kept(w[lo..i])| <= v.start
    ensures var t := Loaded(v, w, lo, i);
            t.ring == [w[i]] + w[..lo] + Outs(w[lo..i]) + w[i + 1..] + Kept(w[lo..i]) && t.counter == v.counter + 1
  {
  }

  /** A chunk on disk that carries the flag belongs to no section. */
  lemma MisplacedEntry(t: Schedule, x: Entry)
    requires x in t.ring && x.preemptive && x.status.Out()
    ensures !Ordered(t)
  {
    var z :| 0 <= z < |t.ring| && t.ring[z] == x;
    assert !Working(t.ring[z]) && !Gone(t.ring[z]) && !Guess(t.ring[z]);
  }

  /** Where counterActive ends up. */
  lemma LoadedCounter(v: Schedule, w: seq<Entry>, vs: set<nat>, lo: nat, i: nat)
    requires Behind(v, w, vs, lo, i) && |Kept(w[lo..i])| <= v.start
    ensures var t := Loaded(v, w, lo, i);
            && |t.ring| == |w| && t.ring[v.counter + 1] == w[v.counter] == v.ring[v.counter] && t.ring[0] == w[i]
            && Followed(t) == if AllGone(v) && !w[0].status.SwapOut? then t.(counter := 0) else t
  {
    hide Guessed, Kept, Outs, Asked, Loaded, Arranged, AllGone;
    Parted(w[lo..i]);
    LoadedRing(v, w, lo, i);
    CounterUnmoved(v, w, vs, lo, i);
    assert ([w[i]] + w[..lo])[v.counter + 1] == w[v.counter];
  }

  lemma CounterUnmoved(v: Schedule, w: seq<Entry>, vs: set<nat>, lo: nat, i: nat)
    requires Behind(v, w, vs, lo, i)
    ensures w[v.counter] == v.ring[v.counter] && (w[v.counter].status.Swapped? <==> AllGone(v) && !w[0].status.SwapOut?)
  {
    hide Guessed;
    if Arranged(v) { assert Working(v.ring[v.counter]); }
  }

  /** Everything was out, and active was still on its way: counterActive stays with it, behind the chunk that has come in. */
  lemma LoadedBehindLeaving(v: Schedule, w: seq<Entry>, vs: set<nat>, lo: nat, i: nat)
    requires Behind(v, w, vs, lo, i) && |Kept(w[lo..i])| <= v.start && AllGone(v) && w[0].status.SwapOut?
    ensures !Ordered(Followed(Loaded(v, w, lo, i)))
  {
    hide Kept, Outs, Guessed;
    LoadedCounter(v, w, vs, lo, i);
  }

  lemma LoadedBytes(v: Schedule, w: seq<Entry>, lo: nat, i: nat)
    requires lo <= i < |w| && |Kept(w[lo..i])| <= v.start
    ensures var t := Followed(Loaded(v, w, lo, i)); t.bytes == Guessed(w) && t.ring == Loaded(v, w, lo, i).ring && t.ring != []
  {
  }

  /** Reading ahead keeps the order exactly if the swap refuses none of the chunks that were to be read ahead, and if it is not
      the case that everything was out and active is still on its way out. */
  lemma LoadedKeepsOrder(v: Schedule, w: seq<Entry>, vs: set<nat>, lo: nat, i: nat)
    requires Behind(v, w, vs, lo, i)
    ensures |Kept(w[lo..i])| <= v.start
    ensures Normal(Followed(Loaded(v, w, lo, i))) <==> NoneRefused(w, vs) && !(AllGone(v) && w[0].status.SwapOut?)
  {
    LoadedFits(v, w, lo, i);
    LoadedGuessed(v, w, lo, i);
    LoadedCounter(v, w, vs, lo, i);
    LoadedBytes(v, w, lo, i);
    hide Guessed, Kept, Outs, Asked, Loaded, NoneRefused, Followed, Arranged, AllGone;
    if !NoneRefused(w, vs) {
      LoadedRefused(v, w, vs, lo, i);
    } else if Arranged(v) {
      LoadedSections(v, w, vs, lo, i);
      ArrangedNotGone(v);
    } else if w[0].status.SwapOut? {
      LoadedBehindLeaving(v, w, vs, lo, i);
    } else {
      LoadedFromGone(v, w, vs, lo, i);
    }
  }

  lemma ArrangedNotGone(v: Schedule)
    requires Arranged(v)
    ensures !AllGone(v)
  {
    assert Working(v.ring[0]);
  }

  /** Before the requested chunk is touched: it is the last of what was put in front of active. */
  ghost function InsertedBack(v: Schedule, w: seq<Entry>, lo: nat, i: nat): Schedule
    requires lo <= i < |w| && |Kept(w[lo..i])| < v.start
  {
    var d := w[lo..i];
    Schedule(w[..lo] + Outs(d) + w[i + 1..] + Kept(d) + [w[i]], v.counter,
             if v.start < |w| || Kept(d) != [] then v.start - |Kept(d)| - 1 else v.start, Guessed(w))
  }

  lemma InsertedTouched(v: Schedule, w: seq<Entry>, lo: nat, i: nat)
    requires v.counter < lo <= i < v.start <= |w| && |Kept(w[lo..i])| < v.start && !w[i].preemptive
    ensures |InsertedBack(v, w, lo, i).ring| == |w| && Touched(InsertedBack(v, w, lo, i), |w| - 1) == Loaded(v, w, lo, i)
  {
    hide Guessed, Kept, Outs;
    var d := w[lo..i];
    Parted(d);
    var front := w[..lo] + Outs(d) + w[i + 1..] + Kept(d);
    TouchedLast(front, w[i], v.counter, InsertedBack(v, w, lo, i).start, Guessed(w));
    assert [w[i]] + front == [w[i]] + w[..lo] + Outs(d) + w[i + 1..] + Kept(d);
  }

  lemma TouchedLast(front: seq<Entry>, e: Entry, counter: nat, start: nat, bytes: int)
    requires counter <= |front| && start != |front| && !e.preemptive && front != []
    ensures var v := Schedule(front + [e], counter, start, bytes);
            Touched(v, |front|) == Schedule([e] + front, if counter < |front| then counter + 1 else counter,
                                            if start < |front| then start + 1 else start, bytes)
  {
    var n := |front|;
    assert (front + [e])[n := e.(preemptive := false)] == front + [e];
    assert Without(front + [e], n) == front;
  }

  // ---------------------------------------------------------------- the requested chunk is active itself

  /** Everything was out, and active was requested. The run that is sorted reaches from p around to it; if p is 1 this is the
      whole ring. */
  ghost function LoadedActive(w: seq<Entry>, p: nat): Schedule
    requires 0 < p <= |w|
  {
    var n, k, o := |w|, Kept(w[p..]), Outs(w[p..]);
    if p > 1 then
      Schedule([w[0]] + w[1..p] + o + k, if k == [] && Last(w).status.Swapped? then 0 else n - 1, if |k| <= n then n - |k| else 0, Guessed(w))
    else if n == 1 then
      Schedule(w, 0, 1, Guessed(w))
    else if w[1].status.Out() then
      Schedule([w[0]] + o + k, if w[1].status.Swapped? then 0 else 1, if |k| <= n then n - |k| else 0, Guessed(w))
    else
      Schedule([w[0]] + k + o, 1, 1, Guessed(w))
  }

  ghost predicate AroundActive(v: Schedule, w: seq<Entry>, vs: set<nat>, p: nat) {
    && AllGone(v) && Asked(v.ring, w, vs, 0) && 0 < p <= |w| == |v.ring|
    && forall q :: q in vs ==> q == 0 || p <= q < |w|
  }

  lemma ActiveBytes(w: seq<Entry>, p: nat)
    requires 0 < p <= |w|
    ensures var t := LoadedActive(w, p); t.bytes == Guessed(t.ring) && |t.ring| == |w|
  {
    hide Guessed, Kept, Outs;
    var k, o := Kept(w[p..]), Outs(w[p..]);
    Parted(w[p..]);
    assert w == [w[0]] + w[1..p] + w[p..] + [];
    GuessedFour([w[0]], w[1..p], w[p..], []);
    GuessedFour([w[0]], w[1..p], o, k);
    GuessedNone();
    assert w[1..1] == [];
    assert [w[0]] + [] + o + k == [w[0]] + o + k;
    assert [w[0]] + [] + k + o == [w[0]] + k + o;
    GuessedFour([w[0]], [], k, o);
  }

  lemma GuessedNone()
    ensures Guessed([]) == 0
  {
  }

  /** The requested chunk, what is still out, what was read ahead. */
  lemma ActiveSections(v: Schedule, w: seq<Entry>, vs: set<nat>, p: nat)
    requires AroundActive(v, w, vs, p) && NoneRefused(w, vs)
    ensures |Kept(w[p..])| < |w|
    ensures Arranged(Schedule([w[0]] + w[1..p] + Outs(w[p..]) + Kept(w[p..]), 0, |w| - |Kept(w[p..])|, Guessed(w)))
  {
    hide Guessed, Kept, Outs, NoneRefused, Arranged;
    assert forall q :: p <= q < |w| ==> Gone(v.ring[q]);
    PiecesOf(v.ring, w, vs, 0, p, |w|);
    Parted(w[p..]);
    SliceAsked(v, w, vs, 0, 1, p);
    hide Asked, AllGone;
    assert w[p..|w|] == w[p..];
    ArrangedFrom([w[0]], w[1..p] + Outs(w[p..]), Kept(w[p..]), Guessed(w));
    assert [w[0]] + (w[1..p] + Outs(w[p..])) + Kept(w[p..]) == [w[0]] + w[1..p] + Outs(w[p..]) + Kept(w[p..]);
  }

  /** What has been refused still carries its flag, and is out. */
  lemma ActiveRefused(v: Schedule, w: seq<Entry>, vs: set<nat>, p: nat)
    requires AroundActive(v, w, vs, p) && !NoneRefused(w, vs)
    ensures !Ordered(LoadedActive(w, p))
  {
    hide Guessed, Kept, Outs;
    var q :| q in vs && q < |w| && w[q].status.Out();
    var t, o := LoadedActive(w, p), Outs(w[p..]);
    assert w[p..][q - p] == w[q] && w[q].preemptive;
    PartedMembers(w[p..], w[q]);
    assert w[q] in o;
    assert w[q] in t.ring;
    MisplacedEntry(t, w[q]);
  }

  /** When the run is not the whole ring, nothing else may have been read, and the last chunk must not be on its way out. */
  lemma ActivePartly(v: Schedule, w: seq<Entry>, vs: set<nat>, p: nat)
    requires AroundActive(v, w, vs, p) && NoneRefused(w, vs) && p > 1
    ensures Ordered(LoadedActive(w, p)) <==> vs == {0} && !Last(w).status.SwapOut?
  {
    ActiveSections(v, w, vs, p);
    ActiveBytes(w, p);
    OnlyRequested(v, w, vs, p);
    hide Guessed, Kept, Outs, NoneRefused;
    var t, n := LoadedActive(w, p), |w|;
    if Kept(w[p..]) == [] {
      assert t.ring[n - 1] == Last(w);
      if Last(w).status.SwapOut? {
        assert t.counter == n - 1;
      } else {
        assert Last(w).status.Swapped?;
        assert t == Schedule([w[0]] + w[1..p] + Outs(w[p..]) + Kept(w[p..]), 0, n - |Kept(w[p..])|, Guessed(w));
      }
    }
  }

  lemma OnlyRequested(v: Schedule, w: seq<Entry>, vs: set<nat>, p: nat)
    requires AroundActive(v, w, vs, p) && NoneRefused(w, vs) && p > 1
    ensures Kept(w[p..]) == [] <==> vs == {0}
    ensures Kept(w[p..]) == [] ==> Outs(w[p..]) == w[p..] && Last(w).status.Out()
    ensures LoadedActive(w, p).ring[0] == w[0] && !w[0].status.Out()
  {
    if vs == {0} {
      OutsAll(w[p..]);
    } else {
      assert 0 in vs && vs - {0} != {};
      var q :| q in vs - {0};
      assert w[p..][q - p] == w[q];
      PartedMembers(w[p..], w[q]);
    }
  }

  /** When the run is the whole ring, the chunk behind active must be on disk afterwards. */
  lemma ActiveWholly(v: Schedule, w: seq<Entry>, vs: set<nat>)
    requires AroundActive(v, w, vs, 1) && NoneRefused(w, vs)
    ensures Ordered(LoadedActive(w, 1)) <==> |w| == 1 || w[1].status.Swapped?
  {
    var t := LoadedActive(w, 1);
    ActiveBytes(w, 1);
    ActiveSections(v, w, vs, 1);
    assert w[1..1] == [];
    assert [w[0]] + [] + Outs(w[1..]) + Kept(w[1..]) == [w[0]] + Outs(w[1..]) + Kept(w[1..]);
    if |w| > 1 && w[1].status.Out() {
      OutsFirst(w[1..]);
      assert t.ring[1] == w[1];
    } else if |w| == 1 {
      assert w == [w[0]];
    }
  }

  lemma {:induction false} OutsFirst(d: seq<Entry>)
    requires d != [] && d[0].status.Out()
    ensures Outs(d) != [] && Outs(d)[0] == d[0]
    decreases |d|
  {
    if |d| > 1 {
      OutsFirst(Front(d));
    } else {
      assert Front(d) == [];
    }
  }

  /** Loading active itself, when everything was out, keeps the order exactly if nothing was refused and the chunk that ends up
      next to counterActive fits: if only a part of the ring was looked at, active must be the only chunk that is loaded, and the
      last chunk of the ring must not be on its way out; else the chunk behind active must be on disk. */
  lemma ActiveKeepsOrder(v: Schedule, w: seq<Entry>, vs: set<nat>, p: nat)
    requires AroundActive(v, w, vs, p)
    ensures Normal(LoadedActive(w, p)) <==>
              NoneRefused(w, vs) && if p > 1 then vs == {0} && !Last(w).status.SwapOut? else |w| == 1 || w[1].status.Swapped?
  {
    hide Guessed, Kept, Outs, NoneRefused, LoadedActive;
    ActiveBytes(w, p);
    if !NoneRefused(w, vs) {
      ActiveRefused(v, w, vs, p);
    } else if p > 1 {
      ActivePartly(v, w, vs, p);
    } else {
      ActiveWholly(v, w, vs);
    }
  }

  /** Before active is touched again. */
  ghost function ActiveInserted(w: seq<Entry>, p: nat): Schedule
    requires 0 < p <= |w|
  {
    var n, k, o := |w|, Kept(w[p..]), Outs(w[p..]);
    if n == 1 then Schedule(w, 0, 1, Guessed(w))
    else if p > 1 || w[1].status.Out() then
      Schedule(w[1..p] + o + k + [w[0]], if p > 1 then n - 1 else 0, if k != [] && |k| < n then n - 1 - |k| else n, Guessed(w))
    else
      Schedule(k + [w[0]] + o, 0, 0, Guessed(w))
  }

  /** Where the requested chunk is then. */
  ghost function ActiveIndex(w: seq<Entry>, p: nat): nat
    requires 0 < p <= |w|
  {
    if |w| == 1 then 0 else if p > 1 || w[1].status.Out() then |w| - 1 else |Kept(w[p..])|
  }

  /** And after it: active is the first again. */
  lemma ActiveTouched(w: seq<Entry>, p: nat)
    requires 0 < p <= |w| && !w[0].preemptive && !w[0].status.Out()
    ensures ActiveIndex(w, p) < |ActiveInserted(w, p).ring|
    ensures Followed(Touched(ActiveInserted(w, p), ActiveIndex(w, p))) == LoadedActive(w, p)
  {
    hide Guessed, Kept, Outs;
    var n, k, o, u := |w|, Kept(w[p..]), Outs(w[p..]), ActiveInserted(w, p);
    Parted(w[p..]);
    if n == 1 {
      assert w[0 := w[0].(preemptive := false)] == w;
    } else if p > 1 || w[1].status.Out() {
      var front := w[1..p] + o + k;
      TouchedLast(front, w[0], u.counter, u.start, Guessed(w));
      assert [w[0]] + front == [w[0]] + w[1..p] + o + k;
      LastShown(w, p);
    } else {
      KeptFirst(w[1..]);
      TouchedInner(k, w[0], o, Guessed(w));
    }
  }

  /** What stands at the end, behind active, or right behind it. */
  lemma LastShown(w: seq<Entry>, p: nat)
    requires 0 < p <= |w| && 1 < |w|
    ensures var k, o := Kept(w[p..]), Outs(w[p..]);
            && |w[1..p] + o + k| == |w| - 1
            && (p > 1 && k != [] ==> Last(w[1..p] + o + k) in w[p..] && !Last(w[1..p] + o + k).status.Out())
            && (p > 1 && k == [] ==> Last(w[1..p] + o + k) == Last(w))
            && (p == 1 && w[1].status.Out() ==> (w[1..p] + o + k)[0] == w[1])
  {
    hide Kept, Outs;
    var k, o := Kept(w[p..]), Outs(w[p..]);
    Parted(w[p..]);
    if k != [] {
      assert Last(k) in k;
      PartedMembers(w[p..], Last(k));
    } else {
      OutsOnly(w[p..]);
    }
    if p == 1 && w[1].status.Out() {
      OutsFirst(w[1..]);
    }
  }

  lemma {:induction false} OutsOnly(d: seq<Entry>)
    requires Kept(d) == []
    ensures Outs(d) == d
  {
    if d != [] {
      OutsOnly(Front(d));
      assert d == Front(d) + [Last(d)];
    }
  }

  lemma {:induction false} KeptFirst(d: seq<Entry>)
    requires d != [] && !d[0].status.Out()
    ensures Kept(d) != [] && Kept(d)[0] == d[0]
    decreases |d|
  {
    if |d| > 1 {
      KeptFirst(Front(d));
    } else {
      assert Front(d) == [];
    }
  }

  lemma TouchedInner(k: seq<Entry>, e: Entry, o: seq<Entry>, bytes: int)
    requires k != [] && !e.preemptive
    ensures Touched(Schedule(k + [e] + o, 0, 0, bytes), |k|) == Schedule([e] + k + o, 1, 1, bytes)
  {
    var r, n := k + [e] + o, |k|;
    assert r[n := e.(preemptive := false)] == r;
    assert Without(r, n) == k + o;
    assert [e] + (k + o) == [e] + k + o;
  }
}
