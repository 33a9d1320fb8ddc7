/** What swapOut leaves when active itself was selected and has given way. */
module Yielding {
  import opened Sections
  import opened Unloading

  /** Active was selected, and after it what lies in the ring from j on (nothing if j is the length). Going back from active,
      y is the first position that was not selected; it is that of counterActive if everything back to there was. */
  ghost predicate WithActive(v: Schedule, w: seq<Entry>, vs: set<nat>, j: nat, y: nat) {
    && Arranged(v) && Marked(v.ring, w, vs) && 0 in vs && v.counter < j <= |w| && (j < |w| ==> j in vs)
    && (forall i :: i in vs ==> i <= v.counter || j <= i < |w|)
    && v.counter <= y < |w| && (v.counter < y ==> y !in vs) && forall i :: y < i < |w| ==> i in vs
  }

  /** The ring read from the last of what has stayed, or of all that is out if nothing has. */
  ghost function Whole<T>(k: seq<T>, g: seq<T>): seq<T> {
    if k != [] then [Last(k)] + g + Front(k) else if g != [] then [Last(g)] + Front(g) else []
  }

  /** A guess has been left in front of active: active goes to the chunk behind it. Otherwise active goes to counterActive. */
  ghost function Yield(v: Schedule, w: seq<Entry>, vs: set<nat>, j: nat, y: nat): Schedule
    requires v.counter < j <= |w| && j <= y + 1 <= |w|
  {
    var c := v.counter;
    var worked, gone, rest := Kept(w[..c + 1]), Outs(w[j..]) + Outs(w[..c + 1]), w[c + 1..j];
    if v.start <= y then
      var a := Kept(w[y + 1..]) + worked;
      var r := a + gone + rest + Kept(w[j..y + 1]);
      Schedule(r, if a != [] then |a| - 1 else if r == [] then 0 else |r| - 1,
               if v.start in vs then |r| - FlaggedEnd(r) else if c < v.start then |a| + |gone| + v.start - (c + 1) else 0, Guessed(w))
    else
      var r := Whole(Kept(w[j..]) + worked, gone + rest);
      Schedule(r, 0, |r|, Guessed(w))
  }

  lemma WithActivePlaces(v: Schedule, w: seq<Entry>, vs: set<nat>, j: nat, y: nat)
    requires WithActive(v, w, vs, j, y)
    ensures v.counter < v.start <= j <= y + 1 <= |w| == |v.ring| && (v.start in vs <==> v.start == j < |w|)
    ensures y < v.start ==> v.start == j
    ensures !v.ring[0].status.Out()
  {
    assert j < |w| ==> Idle(v.ring[j]);
    if y + 1 < |w| {
      assert y + 1 in vs;
    }
  }

  // ---------------------------------------------------------------- the pieces

  lemma SelectedBack(v: Schedule, w: seq<Entry>, vs: set<nat>, j: nat, y: nat, lo: nat, hi: nat)
    requires WithActive(v, w, vs, j, y) && j <= lo <= hi <= |w|
    ensures forall e :: e in Outs(w[lo..hi]) ==> Gone(e)
    ensures (forall i :: lo <= i < hi ==> i in vs) ==> forall e :: e in Kept(w[lo..hi]) ==> Working(e)
    ensures (forall i :: lo <= i < hi && i in vs ==> w[i].status.Out()) ==> forall e :: e in Kept(w[lo..hi]) ==> Guess(e)
  {
    WithActivePlaces(v, w, vs, j, y);
    forall e | e in Outs(w[lo..hi])
      ensures Gone(e)
    {
      PartedMembers(w[lo..hi], e);
      var q :| 0 <= q < hi - lo && w[lo..hi][q] == e;
      assert w[lo + q] == e;
    }
    forall e | e in Kept(w[lo..hi])
      ensures (forall i :: lo <= i < hi ==> i in vs) ==> Working(e)
      ensures (forall i :: lo <= i < hi && i in vs ==> w[i].status.Out()) ==> Guess(e)
    {
      PartedMembers(w[lo..hi], e);
      var q :| 0 <= q < hi - lo && w[lo..hi][q] == e;
      assert w[lo + q] == e;
    }
  }

  lemma YieldPieces(v: Schedule, w: seq<Entry>, vs: set<nat>, j: nat, y: nat)
    requires WithActive(v, w, vs, j, y)
    ensures j <= y + 1 && v.counter < v.start <= j
    ensures forall e :: e in Kept(w[y + 1..]) || e in Kept(w[..v.counter + 1]) ==> Working(e)
    ensures forall e :: e in Outs(w[j..]) || e in Outs(w[..v.counter + 1]) ==> Gone(e)
    ensures forall e :: e in w[v.counter + 1..v.start] ==> Gone(e)
    ensures forall e :: e in w[v.start..j] ==> Guess(e)
    ensures (forall i :: j <= i < y && i in vs ==> w[i].status.Out()) ==> forall e :: e in Kept(w[j..y + 1]) ==> Guess(e)
  {
    hide Kept, Outs, WithActive;
    WithActivePlaces(v, w, vs, j, y);
    FrontPieces(v, w, vs, j, y);
    BackPieces(v, w, vs, j, y);
  }

  lemma FrontPieces(v: Schedule, w: seq<Entry>, vs: set<nat>, j: nat, y: nat)
    requires WithActive(v, w, vs, j, y) && v.counter < v.start <= j <= |w|
    ensures forall e :: e in Kept(w[..v.counter + 1]) ==> Working(e)
    ensures forall e :: e in Outs(w[..v.counter + 1]) ==> Gone(e)
    ensures forall e :: e in w[v.counter + 1..v.start] ==> Gone(e)
    ensures forall e :: e in w[v.start..j] ==> Guess(e)
  {
    hide Kept, Outs, Arranged, Marked;
    SlicePlain(v, w, vs, 0, v.counter + 1);
    assert w[0..v.counter + 1] == w[..v.counter + 1];
    PartedPlain(w[..v.counter + 1]);
    SliceUntouched(v, w, vs, v.counter + 1, v.start);
    SliceUntouched(v, w, vs, v.start, j);
  }

  lemma BackPieces(v: Schedule, w: seq<Entry>, vs: set<nat>, j: nat, y: nat)
    requires WithActive(v, w, vs, j, y) && j <= y + 1 <= |w|
    ensures forall e :: e in Kept(w[y + 1..]) ==> Working(e)
    ensures forall e :: e in Outs(w[j..]) ==> Gone(e)
    ensures (forall i :: j <= i < y && i in vs ==> w[i].status.Out()) ==> forall e :: e in Kept(w[j..y + 1]) ==> Guess(e)
  {
    hide Kept, Outs, Arranged, Marked;
    SelectedBack(v, w, vs, j, y, y + 1, |w|);
    SelectedBack(v, w, vs, j, y, j, |w|);
    SelectedBack(v, w, vs, j, y, j, y + 1);
    YieldedHere(v, w, vs, j, y);
    assert w[y + 1..|w|] == w[y + 1..] && w[j..|w|] == w[j..];
  }

  lemma YieldedHere(v: Schedule, w: seq<Entry>, vs: set<nat>, j: nat, y: nat)
    requires WithActive(v, w, vs, j, y)
    ensures y in vs ==> y < j
  {
  }

  lemma YieldBytes(v: Schedule, w: seq<Entry>, vs: set<nat>, j: nat, y: nat)
    requires WithActive(v, w, vs, j, y)
    ensures j <= y + 1
    ensures var t := Yield(v, w, vs, j, y); t.bytes == Guessed(t.ring) == Guessed(w) && |t.ring| == |w|
  {
    hide Guessed, Kept, Outs, FlaggedEnd, WithActive;
    WithActivePlaces(v, w, vs, j, y);
    var c := v.counter;
    if v.start <= y {
      PastBytes(w, c, j, y);
    } else {
      WholeBytes(w, c, j);
    }
  }

  lemma AllBytes(w: seq<Entry>, c: nat, j: nat)
    requires c < j <= |w|
    ensures Guessed(w) == Guessed(Kept(w[..c + 1])) + Guessed(Kept(w[j..])) + Guessed(Outs(w[j..]) + Outs(w[..c + 1])) + Guessed(w[c + 1..j])
    ensures |w| == |Kept(w[..c + 1])| + |Kept(w[j..])| + |Outs(w[j..]) + Outs(w[..c + 1])| + |w[c + 1..j]|
  {
    hide Guessed, Kept, Outs;
    var front, mid, back := w[..c + 1], w[c + 1..j], w[j..];
    assert w == front + mid + back;
    GuessedConcat(front + mid, back);
    GuessedConcat(front, mid);
    Parted(front);
    Parted(back);
    GuessedConcat(Outs(back), Outs(front));
  }

  lemma PastBytes(w: seq<Entry>, c: nat, j: nat, y: nat)
    requires c < j <= y + 1 <= |w|
    ensures var gone := Outs(w[j..]) + Outs(w[..c + 1]);
            var r := (Kept(w[y + 1..]) + Kept(w[..c + 1])) + gone + w[c + 1..j] + Kept(w[j..y + 1]);
            Guessed(r) == Guessed(w) && |r| == |w|
  {
    hide Guessed, Kept, Outs;
    AllBytes(w, c, j);
    BackParts(w, j, y);
    GuessedConcat(Kept(w[y + 1..]), Kept(w[..c + 1]));
    GuessedFour(Kept(w[y + 1..]) + Kept(w[..c + 1]), Outs(w[j..]) + Outs(w[..c + 1]), w[c + 1..j], Kept(w[j..y + 1]));
  }

  lemma WholeBytes(w: seq<Entry>, c: nat, j: nat)
    requires c < j <= |w|
    ensures var k, gone, rest := Kept(w[j..]) + Kept(w[..c + 1]), Outs(w[j..]) + Outs(w[..c + 1]), w[c + 1..j];
            Guessed(Whole(k, gone + rest)) == Guessed(w) && |Whole(k, gone + rest)| == |w|
  {
    hide Guessed, Kept, Outs;
    AllBytes(w, c, j);
    var k, gone, rest := Kept(w[j..]) + Kept(w[..c + 1]), Outs(w[j..]) + Outs(w[..c + 1]), w[c + 1..j];
    GuessedConcat(Kept(w[j..]), Kept(w[..c + 1]));
    GuessedConcat(gone, rest);
    if k != [] {
      LastFirst(k);
      GuessedConcat([Last(k)], gone + rest);
      GuessedConcat([Last(k)] + (gone + rest), Front(k));
    } else if gone + rest != [] {
      LastFirst(gone + rest);
      GuessedConcat([Last(gone + rest)], Front(gone + rest));
    }
  }

  lemma LastFirst(s: seq<Entry>)
    requires s != []
    ensures Guessed([Last(s)]) + Guessed(Front(s)) == Guessed(s)
  {
    assert s == Front(s) + [Last(s)];
    GuessedConcat(Front(s), [Last(s)]);
  }

  lemma {:induction false} PartedConcat(a: seq<Entry>, b: seq<Entry>)
    ensures Kept(a + b) == Kept(a) + Kept(b) && Outs(a + b) == Outs(a) + Outs(b)
    decreases |b|
  {
    if b == [] {
      assert a + b == a;
    } else {
      assert Front(a + b) == a + Front(b) && Last(a + b) == Last(b);
      PartedConcat(a, Front(b));
    }
  }

  lemma BackParts(w: seq<Entry>, j: nat, y: nat)
    requires j <= y + 1 <= |w|
    ensures Kept(w[j..]) == Kept(w[j..y + 1]) + Kept(w[y + 1..]) && Guessed(Kept(w[j..])) == Guessed(Kept(w[j..y + 1])) + Guessed(Kept(w[y + 1..]))
    ensures |Kept(w[j..])| == |Kept(w[j..y + 1])| + |Kept(w[y + 1..])|
  {
    hide Guessed, Kept, Outs;
    assert w[j..] == w[j..y + 1] + w[y + 1..];
    PartedConcat(w[j..y + 1], w[y + 1..]);
    GuessedConcat(Kept(w[j..y + 1]), Kept(w[y + 1..]));
  }

  // ---------------------------------------------------------------- a guess is left in front of active

  /** The sections, when whatever was refused lies behind the last guess that is left. */
  lemma PastSections(v: Schedule, w: seq<Entry>, vs: set<nat>, j: nat, y: nat)
    requires WithActive(v, w, vs, j, y) && v.start <= y && j <= y + 1
    requires Kept(w[y + 1..]) + Kept(w[..v.counter + 1]) != [] && forall i :: j <= i < y && i in vs ==> w[i].status.Out()
    ensures Arranged(Yield(v, w, vs, j, y))
  {
    hide Guessed, Kept, Outs, FlaggedEnd, Marked;
    WithActivePlaces(v, w, vs, j, y);
    YieldPieces(v, w, vs, j, y);
    hide WithActive;
    var c := v.counter;
    var a, gone := Kept(w[y + 1..]) + Kept(w[..c + 1]), Outs(w[j..]) + Outs(w[..c + 1]);
    var b, d := gone + w[c + 1..v.start], w[v.start..j] + Kept(w[j..y + 1]);
    ArrangedFrom(a, b, d, Guessed(w));
    MiddleOf(w, c + 1, v.start, j);
    Regroup4(a, gone, w[c + 1..v.start], w[v.start..j], Kept(w[j..y + 1]));
    if v.start in vs {
      assert d == Kept(w[j..y + 1]);
      assert Last(a + b) in a || Last(a + b) in b;
      FlaggedEndIs(a + b, d);
    }
  }

  lemma Regroup4<T>(a: seq<T>, g: seq<T>, m: seq<T>, n: seq<T>, k: seq<T>)
    ensures a + g + (m + n) + k == a + (g + m) + (n + k)
  {
  }

  /** With nothing left to work with, counterActive ends up on a guess. */
  lemma PastNothing(v: Schedule, w: seq<Entry>, vs: set<nat>, j: nat, y: nat)
    requires WithActive(v, w, vs, j, y) && v.start <= y && j <= y + 1 && Kept(w[y + 1..]) + Kept(w[..v.counter + 1]) == []
    ensures !Ordered(Yield(v, w, vs, j, y))
  {
    hide Guessed, Kept, Outs, FlaggedEnd;
    WithActivePlaces(v, w, vs, j, y);
    YieldBytes(v, w, vs, j, y);
    LastLeft(v, w, vs, j, y);
    var t := Yield(v, w, vs, j, y);
    assert t.counter == |t.ring| - 1 && t.ring[|t.ring| - 1] == w[y];
  }

  /** The guess that was left is the last of the ring. */
  lemma LastLeft(v: Schedule, w: seq<Entry>, vs: set<nat>, j: nat, y: nat)
    requires WithActive(v, w, vs, j, y) && v.start <= y && j <= y + 1
    ensures Guess(w[y])
    ensures var r := Yield(v, w, vs, j, y).ring; r != [] && Last(r) == w[y]
  {
    WithActivePlaces(v, w, vs, j, y);
    assert w[y] == v.ring[y];
    if j <= y {
      assert Last(w[j..y + 1]) == w[y];
    } else {
      assert w[j..y + 1] == [] && Last(w[v.counter + 1..j]) == w[y];
    }
  }

  /** A refused guess in front of one that is left belongs to no section. */
  lemma PastRefused(v: Schedule, w: seq<Entry>, vs: set<nat>, j: nat, y: nat, z: nat)
    requires WithActive(v, w, vs, j, y) && v.start <= y && j <= y + 1 && Kept(w[y + 1..]) + Kept(w[..v.counter + 1]) != []
    requires z in vs && j <= z < y && !w[z].status.Out()
    ensures !Ordered(Yield(v, w, vs, j, y))
  {
    hide Guessed, Kept, Outs, FlaggedEnd;
    WithActivePlaces(v, w, vs, j, y);
    var t, k, a := Yield(v, w, vs, j, y), Kept(w[j..y + 1]), Kept(w[y + 1..]) + Kept(w[..v.counter + 1]);
    YieldPieces(v, w, vs, j, y);
    assert w[j..y + 1][z - j] == w[z];
    PartedMembers(w[j..y + 1], w[z]);
    var q :| 0 <= q < |k| && k[q] == w[z];
    var p := |t.ring| - |k| + q;
    assert t.ring[p] == w[z] && t.counter == |a| - 1 < p;
    assert !w[z].preemptive;
    assert t.ring[0] == a[0] && a[0] in a;
    assert Working(t.ring[0]);
  }

  // ---------------------------------------------------------------- no guess is left

  lemma WholeSections(v: Schedule, w: seq<Entry>, vs: set<nat>, j: nat, y: nat)
    requires WithActive(v, w, vs, j, y) && y < v.start && j <= y + 1 && (exists p :: p in vs && p < |w| && w[p].status.Out())
    ensures Ordered(Yield(v, w, vs, j, y)) <==> |Kept(w[j..]) + Kept(w[..v.counter + 1])| <= 1
  {
    hide Guessed, Kept, Outs, WithActive, Whole;
    WithActivePlaces(v, w, vs, j, y);
    YieldPieces(v, w, vs, j, y);
    WholePieces(v, w, vs, j, y);
    var c := v.counter;
    WholeOrder(Kept(w[j..]) + Kept(w[..c + 1]), Outs(w[j..]) + Outs(w[..c + 1]) + w[c + 1..j], Guessed(w));
  }

  lemma WholeOrder(k: seq<Entry>, g: seq<Entry>, bytes: int)
    requires g != [] && (forall e :: e in g ==> Gone(e)) && forall e :: e in k ==> Working(e)
    ensures Ordered(Schedule(Whole(k, g), 0, |Whole(k, g)|, bytes)) <==> |k| <= 1
  {
    if |k| == 0 {
      AllGoneFrom(g, bytes);
    } else if |k| == 1 {
      ArrangedFrom([Last(k)], g, [], bytes);
      assert [Last(k)] + g + [] == [Last(k)] + g + Front(k);
    } else {
      var r := Whole(k, g);
      assert k[|k| - 2] in k && Last(k) in k;
      assert r[|r| - 1] == k[|k| - 2] && r[0] == Last(k);
    }
  }

  lemma WholePieces(v: Schedule, w: seq<Entry>, vs: set<nat>, j: nat, y: nat)
    requires WithActive(v, w, vs, j, y) && y < v.start && (exists p :: p in vs && p < |w| && w[p].status.Out())
    ensures Outs(w[j..]) + Outs(w[..v.counter + 1]) != []
    ensures forall e :: e in Kept(w[j..]) ==> Working(e)
  {
    hide Kept, Outs;
    WithActivePlaces(v, w, vs, j, y);
    SelectedBack(v, w, vs, j, y, j, |w|);
    assert w[j..|w|] == w[j..];
    var p :| p in vs && p < |w| && w[p].status.Out();
    if p <= v.counter {
      assert w[..v.counter + 1][p] == w[p];
      PartedMembers(w[..v.counter + 1], w[p]);
    } else {
      assert w[j..][p - j] == w[p];
      PartedMembers(w[j..], w[p]);
    }
  }

  lemma AllGoneFrom(g: seq<Entry>, bytes: int)
    requires g != [] && forall e :: e in g ==> Gone(e)
    ensures AllGone(Schedule([Last(g)] + Front(g), 0, |g|, bytes))
  {
    var r := [Last(g)] + Front(g);
    forall k | 0 <= k < |r|
      ensures Gone(r[k])
    {
      assert r[k] in g;
    }
  }

  /** swapOut keeps the order, when active was selected and something has gone out, exactly in these cases. If a guess was left
      in front of active, something to work with must be left as well, and no guess further back may have been refused. If none
      was, at most one chunk may have stayed in RAM. */
  lemma YieldKeepsOrder(v: Schedule, w: seq<Entry>, vs: set<nat>, j: nat, y: nat)
    requires WithActive(v, w, vs, j, y) && exists p :: p in vs && p < |w| && w[p].status.Out()
    ensures j <= y + 1
    ensures Normal(Yield(v, w, vs, j, y)) <==>
              if v.start <= y then
                Kept(w[y + 1..]) + Kept(w[..v.counter + 1]) != [] && forall z :: j <= z < y && z in vs ==> w[z].status.Out()
              else
                |Kept(w[j..]) + Kept(w[..v.counter + 1])| <= 1
  {
    hide Guessed, Kept, Outs, Yield, FlaggedEnd, WithActive, Arranged;
    WithActivePlaces(v, w, vs, j, y);
    YieldBytes(v, w, vs, j, y);
    if v.start <= y {
      if Kept(w[y + 1..]) + Kept(w[..v.counter + 1]) == [] {
        PastNothing(v, w, vs, j, y);
      } else if z: nat :| j <= z < y && z in vs && !w[z].status.Out() {
        PastRefused(v, w, vs, j, y, z);
      } else {
        PastSections(v, w, vs, j, y);
      }
    } else {
      WholeSections(v, w, vs, j, y);
    }
  }

  // ---------------------------------------------------------------- the swap has taken nothing

  /** swapOut returns early; active has moved all the same. */
  ghost function YieldRefused(v: Schedule, w: seq<Entry>, y: nat): Schedule
    requires v.counter <= y < |w|
  {
    Schedule(w[y..] + w[..y], if v.counter == y then 0 else |w| - y + v.counter,
             if v.start >= |w| then |w| else if v.start >= y then v.start - y else |w| - y + v.start,
             v.bytes - Guessed(v.ring) + Guessed(w))
  }

  /** The order is lost then, unless there is only one chunk. */
  lemma YieldRefusedOrder(v: Schedule, w: seq<Entry>, vs: set<nat>, j: nat, y: nat)
    requires Normal(v) && WithActive(v, w, vs, j, y) && forall p :: p in vs && p < |w| ==> !w[p].status.Out()
    ensures Normal(YieldRefused(v, w, y)) <==> |w| == 1
  {
    hide Guessed, Kept, Outs;
    WithActivePlaces(v, w, vs, j, y);
    var t := YieldRefused(v, w, y);
    assert w[0].status == v.ring[0].status || !w[0].status.Out();
    if |w| == 1 {
      assert t.ring == w;
    } else if y == v.counter {
      assert t.counter == 0;
      var x := if y + 1 < |w| then w[y + 1] else w[0];
      assert t.ring[1] == x;
      assert !x.status.Out() && !x.preemptive;
    } else {
      assert t.ring[0] == w[y] == v.ring[y];
      assert t.ring[|w| - y] == w[0] && !w[0].status.Out();
    }
  }
}
