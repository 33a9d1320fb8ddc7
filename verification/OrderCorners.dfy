/** Rings, answers of the swap and calls with which the scheduler loses its order, or the ring itself. The general conditions are
    proved beside the operations. */
module OrderCorners {
  import opened ChunkStatus
  import opened Sections
  import opened Unloading
  import opened SwappingOut
  import opened Yielding
  import opened SwapOutOrder
  import opened Decaying
  import opened SwappingIn
  import opened AheadOrder
  import opened ReadingAhead

  function Used(id: nat): Entry { Entry(id, InUseRead, 4, 1, false) }
  function Free(id: nat): Entry { Entry(id, Allocated, 4, 0, false) }
  function OnGuess(id: nat): Entry { Entry(id, Allocated, 4, 0, true) }
  function Disk(id: nat): Entry { Entry(id, Swapped, 4, 0, false) }
  function Leaving(id: nat): Entry { Entry(id, SwapOut, 4, 0, false) }
  function Coming(id: nat, flag: bool): Entry { Entry(id, SwapIn, 4, 0, flag) }
  function StillOut(id: nat): Entry { Entry(id, Swapped, 4, 0, true) }

  lemma Guessed3(a: Entry, b: Entry, c: Entry)
    ensures Guessed([a]) == (if a.preemptive then a.size else 0)
    ensures Guessed([a, b]) == Guessed([a]) + if b.preemptive then b.size else 0
    ensures Guessed([a, b, c]) == Guessed([a, b]) + if c.preemptive then c.size else 0
  {
    assert [a][..0] == [] && [a, b][..1] == [a] && [a, b, c][..2] == [a, b];
  }

  // ---------------------------------------------------------------- schedulerDelete, schedulerRegister

  /** One chunk in RAM, two swapped out: deleting the first leaves active on a swapped chunk, counterActive on
      the other one. */
  lemma DeleteLosesOrder()
    ensures var v := Schedule([Free(1), Disk(2), Disk(3)], 0, 3, 0); Normal(v) && !Normal(Deleted(v, 0))
  {
    var v := Schedule([Free(1), Disk(2), Disk(3)], 0, 3, 0);
    Guessed3(Free(1), Disk(2), Disk(3));
    DeleteKeepsOrder(v, 0);
  }

  /** And a new chunk does not mend it, whatever it is. */
  lemma RegisterAfterLoss(v: Schedule, e: Entry)
    requires Normal(v) && v.ring != [] && LosesSection(v, 0) && Working(e)
    ensures !Normal(Registered(Deleted(v, 0), e))
  {
    var t := Deleted(v, 0);
    DeletedAt(v, 0);
    assert t.ring[0] == v.ring[1] && Registered(t, e).ring[1] == t.ring[0];
    assert !Working(v.ring[1]);
  }

  // ---------------------------------------------------------------- swapOut

  /** One chunk in use and two guesses, which are both offered; the swap takes the second only. */
  lemma RefusedGuess()
    ensures var v := Schedule([Used(1), OnGuess(2), OnGuess(3)], 0, 1, 8);
            var w := [Used(1), Free(2), Disk(3)];
            && Normal(v) && Victims(Turned(v.ring, 0), 8, 9, 0) == [1, 0] && Offered(v, w, [1, 0])
            && VictimSet(3, 0, [1, 0]) == {1, 2} && ToRing(3, 0, 0) == 1
            && Kept(w[..1]) != [] && !Normal(Unloaded(v, w, {1, 2}, 1, Guessed(w)))
  {
    hide Victims, Unloaded, Kept, Guessed;
    var v := Schedule([Used(1), OnGuess(2), OnGuess(3)], 0, 1, 8);
    var w := [Used(1), Free(2), Disk(3)];
    Guessed3(Used(1), OnGuess(2), OnGuess(3));
    assert Turned(v.ring, 0) == [OnGuess(2), OnGuess(3), Used(1)] && Turned(w, 0) == [Free(2), Disk(3), Used(1)];
    TwoGuesses();
    assert ToRing(3, 0, 1) == 2 && ToRing(3, 0, 0) == 1;
    assert forall p :: p in [1, 0] <==> p == 0 || p == 1;
    UnloadKeepsOrder(v, w, {1, 2}, 1);
    assert v.ring[1].preemptive && !w[1].status.Out();
  }

  lemma TwoGuesses()
    ensures Victims([OnGuess(2), OnGuess(3), Used(1)], 8, 9, 0) == [1, 0]
  {
    var t := [OnGuess(2), OnGuess(3), Used(1)];
    assert Front(t) == [OnGuess(2), OnGuess(3)] && Front(Front(t)) == [OnGuess(2)] && Front(Front(Front(t))) == [];
    assert Victims([], 8, 9, 8) == [];
    assert Victims([OnGuess(2)], 8, 9, 4) == [0];
    assert Victims([OnGuess(2), OnGuess(3)], 8, 9, 0) == [1] + [0];
  }

  /** One chunk in use and one guess, which the swap refuses; swapOut returns early. */
  lemma RefusedAll()
    ensures var v := Schedule([Used(1), OnGuess(2)], 0, 1, 4);
            var w := [Used(1), Free(2)];
            && Normal(v) && Victims(Turned(v.ring, 0), 4, 9, 0) == [0] && Offered(v, w, [0]) && !Normal(Refused(v, w))
  {
    var v := Schedule([Used(1), OnGuess(2)], 0, 1, 4);
    var w := [Used(1), Free(2)];
    Guessed3(Used(1), OnGuess(2), Disk(3));
    var t := Turned(v.ring, 0);
    assert t == [OnGuess(2), Used(1)] && Turned(w, 0) == [Free(2), Used(1)];
    assert Front(t) == [OnGuess(2)] && Front(Front(t)) == [];
    assert Victims([OnGuess(2)], 4, 9, 0) == [0];
    assert forall p :: p in [0] <==> p == 0;
    RefusedKeepsOrder(v, w, {1});
    assert v.ring[1].preemptive;
  }

  /** active is swapped out while two other chunks stay: it goes to counterActive, behind the other one. */
  lemma ActiveSwappedOut()
    ensures var v := Schedule([Free(1), Used(2), Used(3)], 2, 3, 0);
            var w := [Disk(1), Used(2), Used(3)];
            && Normal(v) && Victims(Turned(v.ring, 2), 4, 9, 0) == [0] && Offered(v, w, [0])
            && WithActive(v, w, {0}, 3, 2) && Yield(v, w, {0}, 3, 2).ring == [Used(3), Disk(1), Used(2)]
            && !Normal(Yield(v, w, {0}, 3, 2))
  {
    hide Yield, Kept, Outs, Guessed, Victims;
    var v := Schedule([Free(1), Used(2), Used(3)], 2, 3, 0);
    var w := [Disk(1), Used(2), Used(3)];
    Guessed3(Free(1), Used(2), Used(3));
    assert Turned(v.ring, 2) == v.ring && Turned(w, 2) == w;
    OneVictim();
    assert forall p :: p in [0] <==> p == 0;
    assert 0 in {0} && w[0].status.Out();
    YieldKeepsOrder(v, w, {0}, 3, 2);
    TwoKept(v, w);
  }

  lemma OneVictim()
    ensures Victims([Free(1), Used(2), Used(3)], 4, 9, 0) == [0]
  {
    var t := [Free(1), Used(2), Used(3)];
    assert Front(t) == [Free(1), Used(2)] && Front(Front(t)) == [Free(1)] && Front(Front(Front(t))) == [];
    assert Victims([Free(1)], 4, 9, 0) == [0];
  }

  lemma TwoKept(v: Schedule, w: seq<Entry>)
    requires v == Schedule([Free(1), Used(2), Used(3)], 2, 3, 0) && w == [Disk(1), Used(2), Used(3)]
    ensures |Kept(w[3..]) + Kept(w[..3])| == 2 && Yield(v, w, {0}, 3, 2).ring == [Used(3), Disk(1), Used(2)]
  {
    hide Kept, Outs, Guessed;
    KeptTwo();
    assert w[3..] == [] && w[..3] == w && w[3..3] == [];
    assert [] + [Used(2), Used(3)] == [Used(2), Used(3)] && [] + [Disk(1)] + [] == [Disk(1)];
    assert Front([Used(2), Used(3)]) == [Used(2)];
  }

  lemma KeptTwo()
    ensures Kept([Disk(1), Used(2), Used(3)]) == [Used(2), Used(3)] && Outs([Disk(1), Used(2), Used(3)]) == [Disk(1)]
    ensures Kept([]) == [] && Outs([]) == []
  {
    var s := [Disk(1), Used(2), Used(3)];
    assert Front(s) == [Disk(1), Used(2)] && Front(Front(s)) == [Disk(1)] && Front(Front(Front(s))) == [];
    assert Kept([Disk(1)]) == [] && Kept([Disk(1), Used(2)]) == [Used(2)];
    assert Outs([Disk(1)]) == [Disk(1)] && Outs([Disk(1), Used(2)]) == [Disk(1)];
  }

  /** An empty chunk at the end of the selection is counted, but not put on the list. */
  lemma EmptyVictimIsLost()
    ensures var r := [Entry(1, Allocated, 0, 0, false), Free(2)]; Victims(r, 5, 9, 0) == [1, 0] && Victims(r, 4, 9, 0) == [1]
  {
    var r := [Entry(1, Allocated, 0, 0, false), Free(2)];
    assert Front(r) == [r[0]] && Front([r[0]]) == [];
    assert Victims([r[0]], 5, 9, 4) == [0] + Victims([], 5, 9, 4);
  }

  // ---------------------------------------------------------------- decay

  /** A guess that decay offers and the swap refuses. */
  lemma RefusedDecay()
    ensures var v := Schedule([Used(1), OnGuess(2), OnGuess(3)], 0, 1, 8);
            var w := [Used(1), Free(2), OnGuess(3)];
            && Normal(v) && Fading(v.ring, 1, 4, 8, 0) == [1] && FadeEnd(v.ring, 1, 4, 8, 0) == 2
            && Marked(v.ring, w, SetOf([1])) && !AllOut(w, [1]) && !Normal(v.(ring := w))
  {
    var v := Schedule([Used(1), OnGuess(2), OnGuess(3)], 0, 1, 8);
    var w := [Used(1), Free(2), OnGuess(3)];
    Guessed3(Used(1), OnGuess(2), OnGuess(3));
    assert Fading(v.ring, 2, 4, 8, 4) == [] && FadeEnd(v.ring, 2, 4, 8, 4) == 2;
    assert 1 in [1] && !w[1].status.Out();
    assert Offering(v, w, [1], 2);
    ThrownDisorder(v, w, [1], 2);
  }

  // ---------------------------------------------------------------- swapIn

  /** Everything is out, and active is still on its way: loading another chunk then breaks the order. */
  lemma LoadLosesOrder()
    ensures var v := Schedule([Leaving(2), Disk(3)], 0, 2, 0); Normal(v) && !Normal(LoadedAlone(v, 1, SwapIn))
  {
    var v := Schedule([Leaving(2), Disk(3)], 0, 2, 0);
    Guessed3(Leaving(2), Disk(3), Disk(4));
    LoadKeepsOrder(v, 1, SwapIn);
  }

  /** A chunk that was to be read ahead, and which the swap refuses. */
  lemma RefusedAhead()
    ensures var v := Schedule([Used(1), Disk(2), Disk(3)], 0, 3, 0);
            var w := [Used(1), StillOut(2), Coming(3, false)];
            && Normal(v) && Behind(v, w, {1, 2}, 1, 2) && |Kept(w[1..2])| <= 3 && !Normal(Followed(Loaded(v, w, 1, 2)))
  {
    var v := Schedule([Used(1), Disk(2), Disk(3)], 0, 3, 0);
    var w := [Used(1), StillOut(2), Coming(3, false)];
    Guessed3(Used(1), Disk(2), Disk(3));
    assert Arranged(v);
    LoadedKeepsOrder(v, w, {1, 2}, 1, 2);
    assert 1 in {1, 2} && w[1].status.Out();
  }

  /** Everything is out, and active is still on its way. */
  lemma LeavingAhead()
    ensures var v := Schedule([Leaving(1), Disk(2), Disk(3)], 0, 3, 0);
            var w := [Leaving(1), Coming(2, true), Coming(3, false)];
            && Normal(v) && Behind(v, w, {1, 2}, 1, 2) && |Kept(w[1..2])| <= 3 && !Normal(Followed(Loaded(v, w, 1, 2)))
  {
    var v := Schedule([Leaving(1), Disk(2), Disk(3)], 0, 3, 0);
    var w := [Leaving(1), Coming(2, true), Coming(3, false)];
    Guessed3(Leaving(1), Disk(2), Disk(3));
    assert AllGone(v);
    LoadedKeepsOrder(v, w, {1, 2}, 1, 2);
  }

  /** Everything is out, active is requested, and the only other chunk is read ahead with it. */
  lemma ActiveAhead()
    ensures var v := Schedule([Disk(1), Disk(2)], 0, 2, 0);
            var w := [Coming(1, false), Coming(2, true)];
            && Normal(v) && AroundActive(v, w, {0, 1}, 1) && !Normal(LoadedActive(w, 1))
  {
    var v := Schedule([Disk(1), Disk(2)], 0, 2, 0);
    var w := [Coming(1, false), Coming(2, true)];
    Guessed3(Disk(1), Disk(2), Disk(3));
    ActiveKeepsOrder(v, w, {0, 1}, 1);
    assert !w[1].status.Swapped?;
  }

  /** The only chunk in RAM is deleted, then the second of three chunks on disk is requested, and the first, which is active now,
      read ahead with it: active is torn out of the ring, as SwapInAhead says. */
  lemma TornRing()
    ensures var v0 := Schedule([Used(1), Disk(2), Disk(3), Disk(4)], 0, 4, 0);
            var v, w := Deleted(v0, 0), [Coming(2, true), Coming(3, false), Disk(4)];
            var g := Budget(0, 99, 8, 9);
            && Normal(v0) && v == Schedule([Disk(2), Disk(3), Disk(4)], 2, 3, 0)
            && Loading(v, w, 2, 1, g, [1, 0], 8, 0) && TornAt(w, 2, 1, 0)
  {
    hide Loading, Guessed, Without;
    var v0 := Schedule([Used(1), Disk(2), Disk(3), Disk(4)], 0, 4, 0);
    var v, w := Deleted(v0, 0), [Coming(2, true), Coming(3, false), Disk(4)];
    var g := Budget(0, 99, 8, 9);
    DeletedIs(v0, 0);
    FirstAway();
    TornChosen(g);
  }

  lemma FirstAway()
    ensures var r := [Used(1), Disk(2), Disk(3), Disk(4)]; Without(r, 0) == [Disk(2), Disk(3), Disk(4)] && Guessed(r) == 0
  {
    var r := [Used(1), Disk(2), Disk(3), Disk(4)];
    Guessed3(Used(1), Disk(2), Disk(3));
    assert r[..3] == [Used(1), Disk(2), Disk(3)];
  }

  lemma TornChosen(g: Budget)
    requires g == Budget(0, 99, 8, 9)
    ensures Loading(Schedule([Disk(2), Disk(3), Disk(4)], 2, 3, 0), [Coming(2, true), Coming(3, false), Disk(4)], 2, 1, g, [1, 0], 8, 0)
  {
    hide Picks, PickEnd, Bytes;
    var r, w := [Disk(2), Disk(3), Disk(4)], [Coming(2, true), Coming(3, false), Disk(4)];
    var es, ps := [Disk(2), Disk(3)], [1, 0];
    assert Turned(r, 2) == r && Turned(w, 2) == w && r[..2] == es && r[2..] == [Disk(4)];
    TornPicks(g);
    assert forall p :: p in ps <==> p == 0 || p == 1;
    var fs := Flagged(es, ps);
    assert fs[0] == es[0].(preemptive := true) && fs[1] == es[1].(preemptive := false);
    assert w[..2] == [Coming(2, true), Coming(3, false)];
    assert w == w[..2] + r[2..];
  }

  lemma TornPicks(g: Budget)
    requires g == Budget(0, 99, 8, 9)
    ensures var es := [Disk(2), Disk(3)];
            && Picks(es, g, 0, 0) == [1, 0] && PickEnd(es, g, 0, 0) == 0 && Positions(es, [1, 0]) && Bytes(es, [1, 0]) == 8
  {
    var es := [Disk(2), Disk(3)];
    assert Front(es) == [Disk(2)] && Front([Disk(2)]) == [];
    assert Picks([Disk(2)], g, 4, 0) == [0] && PickEnd([Disk(2)], g, 4, 0) == 0;
    assert Picks(es, g, 0, 0) == [1] + [0];
    assert [1, 0][1..] == [0] && [0][1..] == [];
    assert Bytes(es, [0]) == 4;
  }
}
