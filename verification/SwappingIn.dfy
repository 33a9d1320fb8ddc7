/** cyclicManagedMemory::swapIn: what is loaded along with the requested chunk, and where it goes in the ring. */
module SwappingIn {
  import opened ChunkStatus
  import opened Ring
  import opened Sections
  import opened Scheduler
  import opened Unloading
  import opened SwappingOut

  // ---------------------------------------------------------------- one chunk alone

  /** swapIn without reading ahead: the swap has accepted the chunk. */
  method LoadAlone(m: CyclicManagedMemory, element: CyclicAtime, status: MemoryStatus, ghost i: nat)
    requires m.Valid() && i < |m.ring| && m.ring[i] == element && element.chunk.status.Swapped? && !status.Out()
    modifies m, m.ring`next, m.ring`prev, element.chunk`status, element.chunk`preemptiveLoaded
    ensures m.Valid() && m.ring == [element] + Without(old(m.ring), i)
    ensures old(m.View()).counter < |old(m.View()).ring| && i < |old(m.View()).ring| && m.View() == LoadedAlone(old(m.View()), i, status)
  {
    hide Cycle, OwnChunks, Snaps, Touched, Without;
    ghost var v, s := m.View(), m.ring;
    m.Neighbours(i);
    label L:
    element.chunk.status := status;
    SnapsSet(s, i);
    CycleKept@L(s);
    m.Assembled();
    assert m.View() == v.(ring := v.ring[i := v.ring[i].(status := status)]);
    m.Touch(element, i);
    FollowActive(m);
  }

  /** counterActive does not stay on a swapped chunk. */
  method FollowActive(m: CyclicManagedMemory)
    requires m.Valid() && m.ring != []
    modifies m`counterActive, m`counterAt
    ensures m.Valid() && m.ring == old(m.ring)
    ensures m.View() == Followed(old(m.View())) && old(m.View()).counter < |old(m.View()).ring|
  {
    hide Cycle, OwnChunks, Snaps;
    ghost var t := m.View();
    m.Neighbours(m.counterAt);
    assert t.ring[t.counter] == Snap(m.counterActive);
    if m.counterActive.chunk.status == Swapped {
      m.counterActive, m.counterAt := m.active, 0;
    }
  }

  // ---------------------------------------------------------------- selection

  /** What swapIn has to respect: RAM in use and its limit, how much it wants to read, and how much of that may be read ahead. */
  datatype Budget = Budget(used: nat, max: nat, target: nat, ahead: nat)

  predicate Fetched(e: Entry, g: Budget, vol: nat, pre: nat) {
    e.status.Swapped? && vol + e.size + g.used <= g.max && (vol == 0 || pre + e.size <= g.ahead)
  }

  predicate Enough(g: Budget, vol: nat, pre: nat) {
    vol >= g.target || (vol > 0 && pre == g.ahead)
  }

  lemma NoBytes(es: seq<Entry>)
    ensures Bytes(es, []) == 0
  {
  }

  /** The positions in r that swapIn selects, walking from the end; vol and pre are what has been selected, in all and ahead. */
  ghost function Picks(r: seq<Entry>, g: Budget, vol: nat, pre: nat): seq<nat> {
    if r == [] then []
    else
      var e := Last(r);
      if Fetched(e, g, vol, pre) then
        var vol', pre' := vol + e.size, if vol > 0 then pre + e.size else pre;
        [|r| - 1] + if Enough(g, vol', pre') then [] else Picks(Front(r), g, vol', pre')
      else Picks(Front(r), g, vol, pre)
  }

  /** Where the walk stops: at the last one selected if that was enough, else at the end. */
  ghost function PickEnd(r: seq<Entry>, g: Budget, vol: nat, pre: nat): nat {
    if r == [] then 0
    else
      var e := Last(r);
      if Fetched(e, g, vol, pre) then
        var vol', pre' := vol + e.size, if vol > 0 then pre + e.size else pre;
        if Enough(g, vol', pre') then |r| - 1 else PickEnd(Front(r), g, vol', pre')
      else PickEnd(Front(r), g, vol, pre)
  }

  lemma {:induction false} PicksShape(r: seq<Entry>, g: Budget, vol: nat, pre: nat)
    ensures var ps, e := Picks(r, g, vol, pre), PickEnd(r, g, vol, pre);
            && Positions(r, ps) && Descending(ps) && e <= |r| && (r != [] ==> e < |r|)
            && forall p :: p in ps ==> e <= p < |r| && r[p].status.Swapped?
    decreases |r|
  {
    if r != [] {
      var e := Last(r);
      PicksShape(Front(r), g, vol, pre);
      PicksShape(Front(r), g, vol + e.size, if vol > 0 then pre + e.size else pre);
    }
  }

  /** The selection stays within RAM, and what is read ahead, which is all of it but one chunk, within its budget. */
  lemma {:induction false} PicksFit(r: seq<Entry>, g: Budget, vol: nat, pre: nat)
    requires vol + g.used <= g.max && pre <= g.ahead
    ensures var ps := Picks(r, g, vol, pre);
            && Positions(r, ps) && vol + Bytes(r, ps) + g.used <= g.max
            && (vol > 0 ==> pre + Bytes(r, ps) <= g.ahead)
            && (ps != [] ==> exists p :: p in ps && p < |r| && pre + Bytes(r, ps) <= g.ahead + r[p].size)
    decreases |r|
  {
    hide Enough, Descending, Bytes;
    PicksShape(r, g, vol, pre);
    if r == [] {
      NoBytes(r);
    } else {
      var e := Last(r);
      var vol', pre' := vol + e.size, if vol > 0 then pre + e.size else pre;
      if Fetched(e, g, vol, pre) {
        var rest := if Enough(g, vol', pre') then [] else Picks(Front(r), g, vol', pre');
        NoBytes(Front(r));
        if !Enough(g, vol', pre') { PicksFit(Front(r), g, vol', pre'); }
        PicksShape(Front(r), g, vol', pre');
        PickedMore(r, rest);
        PicksFitMore(r, rest, g, vol, pre);
      } else {
        var ps := Picks(Front(r), g, vol, pre);
        PicksFit(Front(r), g, vol, pre);
        BytesShorter(r, ps, 0);
        if p :| p in ps && p < |r| - 1 && pre + Bytes(Front(r), ps) <= g.ahead + Front(r)[p].size {
          assert Front(r)[p] == r[p];
        }
      }
    }
  }

  lemma PickedMore(r: seq<Entry>, rest: seq<nat>)
    requires r != [] && Positions(Front(r), rest)
    ensures var ps := [|r| - 1] + rest;
            Positions(r, ps) && Bytes(r, ps) == Last(r).size + Bytes(Front(r), rest)
  {
    BytesShorter(r, rest, 0);
    assert ([|r| - 1] + rest)[1..] == rest;
  }

  /** One more chunk, of which either nothing had been selected before it, or it counts as read ahead. */
  lemma PicksFitMore(r: seq<Entry>, rest: seq<nat>, g: Budget, vol: nat, pre: nat)
    requires r != [] && Positions(Front(r), rest) && Fetched(Last(r), g, vol, pre)
    requires var vol', pre' := vol + Last(r).size, if vol > 0 then pre + Last(r).size else pre;
             && vol' + Bytes(Front(r), rest) + g.used <= g.max && (vol' > 0 ==> pre' + Bytes(Front(r), rest) <= g.ahead)
             && (rest == [] ==> Bytes(Front(r), rest) == 0)
             && (rest != [] ==> exists p :: p in rest && p < |r| - 1 && pre' + Bytes(Front(r), rest) <= g.ahead + Front(r)[p].size)
    requires pre <= g.ahead
    ensures var ps := [|r| - 1] + rest;
            && Positions(r, ps) && Bytes(r, ps) == Last(r).size + Bytes(Front(r), rest)
            && vol + Bytes(r, ps) + g.used <= g.max && (vol > 0 ==> pre + Bytes(r, ps) <= g.ahead)
            && exists p :: p in ps && p < |r| && pre + Bytes(r, ps) <= g.ahead + r[p].size
  {
    hide Bytes;
    var ps := [|r| - 1] + rest;
    PickedMore(r, rest);
    assert |r| - 1 in ps;
    if vol == 0 && Last(r).size == 0 && rest != [] {
      var p :| p in rest && p < |r| - 1 && pre + Bytes(Front(r), rest) <= g.ahead + Front(r)[p].size;
      assert p in ps && Front(r)[p] == r[p];
    } else {
      assert pre + Bytes(r, ps) <= g.ahead + r[|r| - 1].size;
    }
  }

  /** The requested chunk, which is the last of r, is selected first if it fits into RAM at all. */
  lemma RequestedFirst(r: seq<Entry>, g: Budget)
    requires r != [] && Last(r).status.Swapped? && Last(r).size + g.used <= g.max
    ensures Picks(r, g, 0, 0) != [] && Picks(r, g, 0, 0)[0] == |r| - 1
  {
  }

  /** Whether a chunk is selected, when above and ahead are the bytes selected and read ahead before it, and that is not none. */
  ghost predicate Reads(e: Entry, g: Budget, above: nat, ahead: int) {
    && e.status.Swapped? && above + e.size + g.used <= g.max && ahead + e.size <= g.ahead
    && above < g.target && ahead != g.ahead
  }

  /** What was selected before i, when something had been selected before the walk began. */
  lemma {:induction false} PicksGreedyFrom(r: seq<Entry>, g: Budget, vol: nat, pre: nat, i: nat)
    requires i < |r| && 0 < vol < g.target && pre != g.ahead
    ensures var ps := Picks(r, g, vol, pre);
            Positions(r, ps) && (i in ps <==> Reads(r[i], g, vol + BytesAbove(r, ps, i), pre + BytesAbove(r, ps, i)))
    decreases |r|
  {
    hide Picks, BytesAbove, Bytes;
    var e, f, n := Last(r), Front(r), |r| - 1;
    PicksShape(r, g, vol, pre);
    PicksStep(r, g, vol, pre);
    var takes := Reads(e, g, vol, pre);
    var vol', pre' := if takes then vol + e.size else vol, if takes then pre + e.size else pre;
    var enough := vol' >= g.target || pre' == g.ahead;
    var rest := if enough then [] else Picks(f, g, vol', pre');
    PicksShape(f, g, vol', pre');
    BytesShorter(r, rest, i);
    BytesAboveCons(r, n, rest, i);
    if i == n {
    } else if enough {
      NothingAbove(f, i);
    } else {
      PicksGreedyFrom(f, g, vol', pre', i);
      assert f[i] == r[i];
    }
  }

  lemma PicksStep(r: seq<Entry>, g: Budget, vol: nat, pre: nat)
    requires r != []
    ensures var e := Last(r);
            var takes := e.status.Swapped? && vol + e.size + g.used <= g.max && (vol == 0 || pre + e.size <= g.ahead);
            var vol', pre' := vol + e.size, if vol > 0 then pre + e.size else pre;
            Picks(r, g, vol, pre) ==
              if takes then [|r| - 1] + if vol' >= g.target || (vol' > 0 && pre' == g.ahead) then [] else Picks(Front(r), g, vol', pre')
              else Picks(Front(r), g, vol, pre)
  {
  }

  lemma NothingAbove(r: seq<Entry>, i: nat)
    ensures BytesAbove(r, [], i) == 0
  {
  }

  /** The selection is greedy. The requested chunk, the last of r, is selected. Another one is selected exactly if it is swapped out,
      fits into RAM together with what was selected before it, fits into the read-ahead budget together with what was read
      ahead before it, and if what was selected before it reaches neither the target nor exactly that budget. */
  lemma PicksGreedy(r: seq<Entry>, g: Budget)
    requires r != [] && Last(r).status.Swapped? && 0 < Last(r).size && Last(r).size + g.used <= g.max
    ensures GreedyPicks(r, g, Picks(r, g, 0, 0))
  {
    hide Picks, BytesAbove, Bytes;
    var ps, n := Picks(r, g, 0, 0), |r| - 1;
    var vol := Last(r).size;
    PicksShape(r, g, 0, 0);
    PicksStep(r, g, 0, 0);
    var rest := if vol >= g.target || 0 == g.ahead then [] else Picks(Front(r), g, vol, 0);
    PicksShape(Front(r), g, vol, 0);
    forall i: nat | i < n
      ensures i in ps <==> Reads(r[i], g, BytesAbove(r, ps, i), BytesAbove(r, ps, i) - vol)
    {
      BytesShorter(r, rest, i);
      BytesAboveCons(r, n, rest, i);
      assert Front(r)[i] == r[i];
      if vol >= g.target || 0 == g.ahead {
        NothingAbove(Front(r), i);
      } else {
        PicksGreedyFrom(Front(r), g, vol, 0, i);
      }
    }
  }

  ghost predicate GreedyPicks(r: seq<Entry>, g: Budget, ps: seq<nat>) {
    && r != [] && Positions(r, ps) && |r| - 1 in ps
    && forall i: nat :: i < |r| - 1 ==> (i in ps <==> Reads(r[i], g, BytesAbove(r, ps, i), BytesAbove(r, ps, i) - Last(r).size))
  }

  /** Where the walk stops: at the last chunk selected if what was selected reaches the target or exactly the read-ahead budget. */
  lemma {:induction false} PickEndFrom(r: seq<Entry>, g: Budget, vol: nat, pre: nat)
    requires 0 < vol < g.target && pre != g.ahead
    ensures var ps := Picks(r, g, vol, pre);
            && Positions(r, ps)
            && var reached := vol + Bytes(r, ps) >= g.target || pre + Bytes(r, ps) == g.ahead;
               && (reached ==> ps != []) && PickEnd(r, g, vol, pre) == if reached then Last(ps) else 0
    decreases |r|
  {
    hide Bytes, BytesAbove;
    NoBytes(r);
    if r != [] {
      var e, f := Last(r), Front(r);
      NoBytes(f);
      PicksShape(f, g, vol, pre);
      PicksShape(f, g, vol + e.size, pre + e.size);
      BytesShorter(r, Picks(f, g, vol, pre), 0);
      PickedMore(r, Picks(f, g, vol + e.size, pre + e.size));
      PickedMore(r, []);
      if Fetched(e, g, vol, pre) {
        if !Enough(g, vol + e.size, pre + e.size) {
          PickEndFrom(f, g, vol + e.size, pre + e.size);
        }
      } else {
        PickEndFrom(f, g, vol, pre);
      }
    }
  }

  lemma PickEndIs(r: seq<Entry>, g: Budget)
    requires r != [] && Last(r).status.Swapped? && 0 < Last(r).size && Last(r).size + g.used <= g.max
    ensures var ps := Picks(r, g, 0, 0);
            && Positions(r, ps)
            && var reached := Bytes(r, ps) >= g.target || Bytes(r, ps) - Last(r).size == g.ahead;
               && ps != [] && PickEnd(r, g, 0, 0) == if reached then Last(ps) else 0
  {
    hide Bytes, BytesAbove;
    var vol, f := Last(r).size, Front(r);
    NoBytes(f);
    PicksShape(f, g, vol, 0);
    PickedMore(r, []);
    PickedMore(r, Picks(f, g, vol, 0));
    if !Enough(g, vol, 0) {
      PickEndFrom(f, g, vol, 0);
    }
  }

  // ---------------------------------------------------------------- the two passes

  /** All selected chunks but the first carry the flag. */
  ghost function Flagged(es: seq<Entry>, ps: seq<nat>): (w: seq<Entry>)
    ensures |w| == |es|
    ensures forall i :: 0 <= i < |es| ==> w[i] == if i in ps then es[i].(preemptive := i != ps[0]) else es[i]
  {
    seq(|es|, i requires 0 <= i < |es| => if i in ps then es[i].(preemptive := i != ps[0]) else es[i])
  }

  lemma FlaggedNext(es: seq<Entry>, ps: seq<nat>, p: nat)
    requires p < |es| && p !in ps
    ensures Flagged(es, ps + [p]) == Flagged(es, ps)[p := es[p].(preemptive := ps != [])]
  {
    assert (ps + [p])[0] == if ps == [] then p else ps[0];
    assert forall i :: i in ps + [p] <==> i in ps || i == p;
  }

  /** The requested chunk, at the end of the run, has at least one byte, is swapped out, and fits into RAM. */
  ghost predicate Leading(es: seq<Entry>, g: Budget) {
    es != [] && Last(es).status.Swapped? && 0 < Last(es).size && Last(es).size + g.used <= g.max
  }

  /** The walk has come down to k; once it is done nothing more is selected. The requested chunk was the first. */
  ghost predicate Walking(es: seq<Entry>, g: Budget, k: nat, qs: seq<nat>, vol: nat, pre: nat, done: bool) {
    && k <= |es| && (forall q :: q in qs ==> k <= q < |es|) && (if qs == [] then vol == 0 && k == |es| && !done else vol > 0)
    && Positions(es, qs) && vol == Bytes(es, qs)
    && Picks(es, g, 0, 0) == qs + (if done then [] else Picks(es[..k], g, vol, pre))
    && PickEnd(es, g, 0, 0) == if done then k else PickEnd(es[..k], g, vol, pre)
  }

  lemma WalkingOn(es: seq<Entry>, g: Budget, k: nat, qs: seq<nat>, vol: nat, pre: nat)
    requires Walking(es, g, k, qs, vol, pre, false) && 0 < k && Leading(es, g)
    ensures var e := es[k - 1];
            var vol', pre' := vol + e.size, if vol > 0 then pre + e.size else pre;
            && k - 1 !in qs
            && if Fetched(e, g, vol, pre) then Walking(es, g, k - 1, qs + [k - 1], vol', pre', Enough(g, vol', pre'))
               else Walking(es, g, k - 1, qs, vol, pre, false)
  {
    assert Front(es[..k]) == es[..k - 1] && Last(es[..k]) == es[k - 1];
    var e := es[k - 1];
    var vol', pre' := vol + e.size, if vol > 0 then pre + e.size else pre;
    var rest := if Enough(g, vol', pre') then [] else Picks(es[..k - 1], g, vol', pre');
    assert qs + ([k - 1] + rest) == (qs + [k - 1]) + rest;
    BytesAppend(es, qs, k - 1);
  }

  lemma WalkingEnds(es: seq<Entry>, g: Budget, k: nat, qs: seq<nat>, vol: nat, pre: nat, done: bool)
    requires Walking(es, g, k, qs, vol, pre, done) && (done || k == 0)
    ensures Picks(es, g, 0, 0) == qs && PickEnd(es, g, 0, 0) == k && Positions(es, qs) && vol == Bytes(es, qs)
  {
    assert qs + [] == qs;
  }

  /** What both passes keep. r is the run from behind oldBorder to the requested chunk. */
  ghost predicate PickLoop(r: seq<CyclicAtime>, es: seq<Entry>, fs: seq<nat>, border: CyclicAtime, g: Budget, k: nat, qs: seq<nat>,
                           vol: nat, pre: nat, cur: CyclicAtime, done: bool)
    reads ChunksOf(r)`status, ChunksOf(r)`useCnt, ChunksOf(r)`preemptiveLoaded
  {
    && |es| == |r| && Leading(es, g) && Walking(es, g, k, qs, vol, pre, done) && Snaps(r) == Flagged(es, fs)
    && if done then k < |r| && cur == r[k] else cur == if k > 0 then r[k - 1] else border
  }

  /** The run hangs together, and border is right before it; only the requested chunk can be the border itself. */
  ghost predicate Run(r: seq<CyclicAtime>, border: CyclicAtime)
    reads r`next, r`prev
  {
    && r != [] && r[0].prev == border && (forall i :: 0 <= i < |r| - 1 ==> r[i] != border)
    && forall i {:trigger r[i]} :: 0 < i < |r| ==> r[i].prev == r[i - 1]
  }

  lemma PickAt(r: seq<CyclicAtime>, es: seq<Entry>, fs: seq<nat>, border: CyclicAtime, g: Budget, k: nat, qs: seq<nat>,
               vol: nat, pre: nat, cur: CyclicAtime)
    requires PickLoop(r, es, fs, border, g, k, qs, vol, pre, cur, false) && 0 < k
    ensures k <= |r| == |es| && cur == r[k - 1]
    ensures cur.chunk.status == es[k - 1].status && cur.chunk.size == es[k - 1].size
  {
    assert Snap(r[k - 1]) == Flagged(es, fs)[k - 1];
  }

  /** A selected chunk carries the flag unless it is the first. */
  method SetFlag(c: ManagedMemoryChunk, flag: bool, ghost r: seq<CyclicAtime>, ghost es: seq<Entry>, ghost qs: seq<nat>, ghost k: nat)
    requires OwnChunks(r) && k < |r| && r[k].chunk == c && |es| == |r| && Snaps(r) == Flagged(es, qs) && k !in qs && flag == (qs != [])
    modifies c`preemptiveLoaded
    ensures Snaps(r) == Flagged(es, qs + [k])
  {
    hide Snaps, OwnChunks;
    FlaggedNext(es, qs, k);
    c.preemptiveLoaded := flag;
    SnapsSet(r, k);
  }

  /** One chunk of the first pass. */
  method PickOne(was: CyclicAtime, g: Budget, vol: nat, pre: nat, number: nat, ghost r: seq<CyclicAtime>, ghost es: seq<Entry>,
                 ghost border: CyclicAtime, ghost k: nat, ghost qs: seq<nat>)
      returns (cur: CyclicAtime, vol': nat, pre': nat, number': nat, done: bool, ghost qs': seq<nat>)
    requires PickLoop(r, es, qs, border, g, k, qs, vol, pre, was, false) && 0 < k && number == |qs|
    requires Run(r, border) && OwnChunks(r)
    modifies ChunksOf(r)`preemptiveLoaded
    ensures PickLoop(r, es, qs', border, g, k - 1, qs', vol', pre', cur, done) && number' == |qs'|
  {
    hide OwnChunks, Snaps, Walking, Leading, Enough, Flagged;
    PickAt(r, es, qs, border, g, k, qs, vol, pre, was);
    WalkingOn(es, g, k, qs, vol, pre);
    WalkingVol(es, g, k, qs, vol, pre, false);
    InChunksOf(r, k - 1);
    cur, vol', pre', number', done, qs' := was, vol, pre, number, false, qs;
    if vol + was.chunk.size + g.used <= g.max && was.chunk.status == Swapped && (vol == 0 || pre + was.chunk.size <= g.ahead) {
      SetFlag(was.chunk, vol > 0, r, es, qs, k - 1);
      number', qs' := number + 1, qs + [k - 1];
      if vol > 0 {
        pre' := pre + was.chunk.size;
      }
      vol' := vol + was.chunk.size;
      done := Enough(g, vol', pre');
    }
    if !done {
      cur := was.prev;
    }
  }

  lemma InChunksOf(s: seq<CyclicAtime>, k: nat)
    requires k < |s|
    ensures s[k].chunk in ChunksOf(s)
  {
  }

  lemma WalkingVol(es: seq<Entry>, g: Budget, k: nat, qs: seq<nat>, vol: nat, pre: nat, done: bool)
    requires Walking(es, g, k, qs, vol, pre, done)
    ensures qs == [] <==> vol == 0
  {
  }

  lemma PickStart(r: seq<CyclicAtime>, border: CyclicAtime, g: Budget, fs: seq<nat>, es: seq<Entry>)
    requires Run(r, border) && Leading(es, g) && |es| == |r| && Snaps(r) == Flagged(es, fs)
    ensures PickLoop(r, es, fs, border, g, |r|, [], 0, 0, Last(r), false)
  {
    assert es[..|es|] == es;
  }

  lemma NoFlags(es: seq<Entry>)
    ensures Flagged(es, []) == es
  {
  }

  lemma PickOpen(r: seq<CyclicAtime>, es: seq<Entry>, fs: seq<nat>, border: CyclicAtime, g: Budget, k: nat, qs: seq<nat>,
                 vol: nat, pre: nat, cur: CyclicAtime)
    requires PickLoop(r, es, fs, border, g, k, qs, vol, pre, cur, false) && cur != border
    ensures 0 < k
  {
  }

  lemma PickEnds(r: seq<CyclicAtime>, es: seq<Entry>, fs: seq<nat>, border: CyclicAtime, g: Budget, k: nat, qs: seq<nat>,
                 vol: nat, pre: nat, cur: CyclicAtime, done: bool)
    requires PickLoop(r, es, fs, border, g, k, qs, vol, pre, cur, done) && (done || cur == border) && Run(r, border) && k < |r|
    ensures var ps := Picks(es, g, 0, 0);
            && |es| == |r| && Positions(es, ps) && ps == qs && vol == Bytes(es, ps) && Snaps(r) == Flagged(es, fs)
            && k == PickEnd(es, g, 0, 0) < |r| && (if done then cur == r[k] else k == 0)
  {
    WalkingEnds(es, g, k, qs, vol, pre, done);
  }

  /** First pass: count, and set the flags. */
  method CountPicks(element: CyclicAtime, border: CyclicAtime, g: Budget, ghost r: seq<CyclicAtime>)
      returns (number: nat, vol: nat)
    requires Run(r, border) && OwnChunks(r) && Last(r) == element && Leading(Snaps(r), g)
    modifies ChunksOf(r)`preemptiveLoaded
    ensures var es := old(Snaps(r));
            var ps := Picks(es, g, 0, 0);
            && Positions(es, ps) && Snaps(r) == Flagged(es, ps) && number == |ps| && vol == Bytes(es, ps)
  {
    hide Run, OwnChunks, Snaps, PickLoop, Picks, PickEnd, Leading, Flagged;
    ghost var es := Snaps(r);
    NoFlags(es);
    PickStart(r, border, g, [], es);
    RunLast(r, border);
    var cur, done, pre;
    ghost var k: nat := |r| - 1;
    ghost var qs;
    cur, vol, pre, number, done, qs := PickOne(element, g, 0, 0, 0, r, es, border, |r|, []);
    while !done && cur != border
      invariant PickLoop(r, es, qs, border, g, k, qs, vol, pre, cur, done) && number == |qs| && k < |r|
      decreases k
    {
      PickOpen(r, es, qs, border, g, k, qs, vol, pre, cur);
      cur, vol, pre, number, done, qs := PickOne(cur, g, vol, pre, number, r, es, border, k, qs);
      k := k - 1;
    }
    PickEnds(r, es, qs, border, g, k, qs, vol, pre, cur, done);
  }

  lemma RunLast(r: seq<CyclicAtime>, border: CyclicAtime)
    requires Run(r, border)
    ensures r != [] && r[|r| - 1] == Last(r)
  {
  }

  /** One chunk of the second pass. */
  method ListPick(chunks: array<ManagedMemoryChunk?>, was: CyclicAtime, g: Budget, vol: nat, pre: nat, n: nat, ghost r: seq<CyclicAtime>,
                  ghost es: seq<Entry>, ghost ps: seq<nat>, ghost border: CyclicAtime, ghost k: nat, ghost qs: seq<nat>)
      returns (cur: CyclicAtime, vol': nat, pre': nat, n': nat, done: bool, ghost qs': seq<nat>)
    requires PickLoop(r, es, ps, border, g, k, qs, vol, pre, was, false) && 0 < k && n == |qs|
    requires Run(r, border) && ps == Picks(es, g, 0, 0) && chunks.Length == |ps| && Lists(chunks, r, qs)
    modifies chunks
    ensures PickLoop(r, es, ps, border, g, k - 1, qs', vol', pre', cur, done) && n' == |qs'| && Lists(chunks, r, qs')
  {
    hide Snaps, Walking, Leading, Enough, Picks, PickEnd, Flagged;
    PickAt(r, es, ps, border, g, k, qs, vol, pre, was);
    WalkingOn(es, g, k, qs, vol, pre);
    cur, vol', pre', n', done, qs' := was, vol, pre, n, false, qs;
    if vol + was.chunk.size + g.used <= g.max && was.chunk.status == Swapped && (vol == 0 || pre + was.chunk.size <= g.ahead) {
      WalkingPrefix(es, g, k - 1, qs + [k - 1], vol + es[k - 1].size, if vol > 0 then pre + es[k - 1].size else pre,
                    Enough(g, vol + es[k - 1].size, if vol > 0 then pre + es[k - 1].size else pre));
      chunks[n] := was.chunk;
      n', qs' := n + 1, qs + [k - 1];
      if vol > 0 {
        pre' := pre + was.chunk.size;
      }
      vol' := vol + was.chunk.size;
      done := Enough(g, vol', pre');
    }
    if !done {
      cur := was.prev;
    }
  }

  lemma WalkingPrefix(es: seq<Entry>, g: Budget, k: nat, qs: seq<nat>, vol: nat, pre: nat, done: bool)
    requires Walking(es, g, k, qs, vol, pre, done)
    ensures |qs| <= |Picks(es, g, 0, 0)|
  {
  }

  /** Where the run begins that will be sorted: where the walk has stopped. If it came to its end at once on a requested chunk
      that is oldBorder itself, the code takes it to have gone all the way round. */
  ghost function PickFrom(es: seq<Entry>, g: Budget, whole: bool): nat {
    var q := PickEnd(es, g, 0, 0);
    if whole && q + 1 == |es| then 0 else q
  }

  /** Whether active has been passed on the way down to k. */
  ghost predicate Passed(r: seq<CyclicAtime>, k: nat, active: CyclicAtime?, seen: bool) {
    k <= |r| && (seen <==> active in r[k..])
  }

  lemma PassedNext(r: seq<CyclicAtime>, k: nat, active: CyclicAtime?, seen: bool)
    requires 0 < k <= |r| && ((k == |r| && !seen) || Passed(r, k, active, seen))
    ensures Passed(r, k - 1, active, seen || r[k - 1] == active)
  {
    assert r[k - 1..] == [r[k - 1]] + r[k..];
  }

  /** Second pass: fill the list. It fills it exactly, finds where the run that was looked at begins, and whether active is in it. */
  method ListPicks(active: CyclicAtime?, element: CyclicAtime, border: CyclicAtime, g: Budget, number: nat,
                   ghost r: seq<CyclicAtime>, ghost es: seq<Entry>)
      returns (chunks: array<ManagedMemoryChunk?>, readEl: CyclicAtime, activeInList: bool)
    requires Run(r, border) && Last(r) == element && |es| == |r| && Leading(es, g) && border.next == r[0]
    requires var ps := Picks(es, g, 0, 0); Snaps(r) == Flagged(es, ps) && number == |ps|
    ensures var ps, q := Picks(es, g, 0, 0), PickEnd(es, g, 0, 0);
            && fresh(chunks) && chunks.Length == |ps| && Lists(chunks, r, ps) && q < |r| == |es|
            && readEl == r[PickFrom(es, g, Last(r) == border)] && (activeInList <==> active in r[q..])
  {
    hide Run, Snaps, PickLoop, Picks, PickEnd, Leading, Flagged, Lists, Passed;
    chunks := new ManagedMemoryChunk?[number];
    ghost var ps := Picks(es, g, 0, 0);
    PickStart(r, border, g, ps, es);
    NothingListed(chunks, r);
    RunLast(r, border);
    activeInList := element == active;
    var cur, done, vol, pre, n;
    ghost var k: nat := |r| - 1;
    ghost var qs;
    PassedNext(r, |r|, active, false);
    cur, vol, pre, n, done, qs := ListPick(chunks, element, g, 0, 0, 0, r, es, ps, border, |r|, []);
    while !done && cur != border
      invariant PickLoop(r, es, ps, border, g, k, qs, vol, pre, cur, done) && n == |qs| && Lists(chunks, r, qs)
      invariant k < |r| && Passed(r, k, active, activeInList)
      decreases k
    {
      PickOpen(r, es, ps, border, g, k, qs, vol, pre, cur);
      PickAt(r, es, ps, border, g, k, qs, vol, pre, cur);
      PassedNext(r, k, active, activeInList);
      if cur == active {
        activeInList := true;
      }
      cur, vol, pre, n, done, qs := ListPick(chunks, cur, g, vol, pre, n, r, es, ps, border, k, qs);
      k := k - 1;
    }
    PickEnds(r, es, ps, border, g, k, qs, vol, pre, cur, done);
    RunBorder(r, border, k);
    PassedAll(r, k, active, activeInList);
    readEl := if cur == border then cur.next else cur;
  }

  lemma PassedAll(r: seq<CyclicAtime>, k: nat, active: CyclicAtime?, seen: bool)
    requires Passed(r, k, active, seen)
    ensures k <= |r| && (seen <==> active in r[k..])
  {
  }

  lemma RunBorder(r: seq<CyclicAtime>, border: CyclicAtime, k: nat)
    requires Run(r, border) && k < |r|
    ensures r[k] == border <==> Last(r) == border && k + 1 == |r|
  {
  }

  lemma NothingListed(list: array<ManagedMemoryChunk?>, r: seq<CyclicAtime>)
    ensures Lists(list, r, [])
  {
  }

  // ---------------------------------------------------------------- the swap's part

  /** How the swap answers when it is asked for one chunk after the other. */
  type Fetches = f: nat -> MemoryStatus | forall n :: f(n).SwapIn? || f(n).Allocated? || f(n).Swapped? witness (n: nat) => Allocated

  /** managedSwap::swapIn of a list: each chunk in turn is loaded, at once or later, or not at all. */
  method FetchFromSwap(list: array<ManagedMemoryChunk?>, answer: Fetches, ghost r: seq<CyclicAtime>, ghost ps: seq<nat>)
    requires OwnChunks(r) && Lists(list, r, ps) && list.Length == |ps| && Distinct(ps) && Positions(Snaps(r), ps)
    requires forall q :: 0 <= q < |ps| ==> Snaps(r)[ps[q]].status.Swapped?
    modifies ChunksOf(r)`status
    ensures OnlyStatus(old(Snaps(r)), Snaps(r), ps)
  {
    hide OwnChunks, Snaps, Distinct, OutBytes, OnlyStatus;
    ghost var es := Snaps(r);
    NothingOffered(es);
    for n := 0 to list.Length
      invariant OnlyStatus(es, Snaps(r), ps[..n])
    {
      var c := list[n];
      ghost var w := Snaps(r);
      OfferedOne(es, w, ps, n, answer(n));
      assert Snap(r[ps[n]]) == w[ps[n]];
      label L:
      if !answer(n).Swapped? {
        c.status := answer(n);
      }
      SnapsSet@L(r, ps[n]);
    }
    assert ps[..list.Length] == ps;
  }
}
