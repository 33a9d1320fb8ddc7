/** cyclicManagedMemory::decay: chunks that were loaded on a guess and have not been used are swapped out again. */
module Decaying {
  import opened ChunkStatus
  import opened Ring
  import opened Sections
  import opened Scheduler
  import opened Filtering
  import opened Unloading
  import opened SwappingOut
  import opened SwapOutOrder

  // ---------------------------------------------------------------- selection

  /** The positions in d, from k on, that decay selects: idle chunks that stay strictly below the limit, until target
      bytes have been selected. */
  ghost function Fading(d: seq<Entry>, k: nat, target: nat, limit: nat, sum: nat): seq<nat>
    decreases |d| - k
  {
    if k >= |d| || sum >= target then []
    else if Idle(d[k]) && d[k].size + sum < limit then [k] + Fading(d, k + 1, target, limit, sum + d[k].size)
    else Fading(d, k + 1, target, limit, sum)
  }

  /** Where the selection stops. */
  ghost function FadeEnd(d: seq<Entry>, k: nat, target: nat, limit: nat, sum: nat): nat
    decreases |d| - k
  {
    if k >= |d| || sum >= target then k
    else if Idle(d[k]) && d[k].size + sum < limit then FadeEnd(d, k + 1, target, limit, sum + d[k].size)
    else FadeEnd(d, k + 1, target, limit, sum)
  }

  /** What has been selected at positions below i. */
  ghost function BytesBelow(d: seq<Entry>, ps: seq<nat>, i: nat): nat
    requires Positions(d, ps)
  {
    if ps == [] then 0 else (if ps[0] < i then d[ps[0]].size else 0) + BytesBelow(d, ps[1..], i)
  }

  lemma BelowCons(d: seq<Entry>, k: nat, ps: seq<nat>, i: nat)
    requires k < |d| && Positions(d, ps)
    ensures Positions(d, [k] + ps) && BytesBelow(d, [k] + ps, i) == (if k < i then d[k].size else 0) + BytesBelow(d, ps, i)
    ensures Bytes(d, [k] + ps) == d[k].size + Bytes(d, ps)
  {
    assert ([k] + ps)[1..] == ps;
  }

  lemma {:induction false} BelowIs(d: seq<Entry>, ps: seq<nat>, i: nat)
    requires Positions(d, ps)
    ensures BytesBelow(d, ps, i) <= Bytes(d, ps)
    ensures (forall p :: p in ps ==> i <= p) ==> BytesBelow(d, ps, i) == 0
    decreases |ps|
  {
    if ps != [] {
      BelowIs(d, ps[1..], i);
      assert ps[0] in ps && forall p :: p in ps[1..] ==> p in ps;
    }
  }

  lemma FadingStep(d: seq<Entry>, k: nat, target: nat, limit: nat, sum: nat)
    ensures Fading(d, k, target, limit, sum) ==
              if k >= |d| || sum >= target then []
              else if d[k].status.Allocated? && d[k].useCnt == 0 && sum + d[k].size < limit then
                [k] + Fading(d, k + 1, target, limit, sum + d[k].size)
              else Fading(d, k + 1, target, limit, sum)
  {
  }

  lemma {:induction false} FadingWithin(d: seq<Entry>, k: nat, target: nat, limit: nat, sum: nat)
    ensures Positions(d, Fading(d, k, target, limit, sum)) && forall p :: p in Fading(d, k, target, limit, sum) ==> k <= p
    decreases |d| - k
  {
    hide Fading;
    FadingStep(d, k, target, limit, sum);
    if k < |d| && sum < target {
      FadingWithin(d, k + 1, target, limit, sum + d[k].size);
      FadingWithin(d, k + 1, target, limit, sum);
    }
  }

  /** The selection is greedy. */
  lemma {:induction false} FadingGreedy(d: seq<Entry>, k: nat, target: nat, limit: nat, sum: nat, i: nat)
    requires k <= i < |d|
    ensures var ps := Fading(d, k, target, limit, sum);
            && Positions(d, ps)
            && var below := sum + BytesBelow(d, ps, i);
               i in ps <==> d[i].status.Allocated? && d[i].useCnt == 0 && below < target && below + d[i].size < limit
    decreases |d| - k
  {
    hide Fading, BytesBelow, Bytes;
    FadingWithin(d, k, target, limit, sum);
    FadingStep(d, k, target, limit, sum);
    BelowIs(d, [], i);
    if sum < target {
      var takes := d[k].status.Allocated? && d[k].useCnt == 0 && sum + d[k].size < limit;
      var next := if takes then sum + d[k].size else sum;
      var rest := Fading(d, k + 1, target, limit, next);
      FadingWithin(d, k + 1, target, limit, next);
      BelowCons(d, k, rest, i);
      BelowIs(d, rest, i);
      if k < i {
        FadingGreedy(d, k + 1, target, limit, next, i);
      }
    }
  }

  /** ps is the greedy selection among the guesses, which begin at start: a guess is selected exactly if it is idle, what was selected
      before it is less than all guessed bytes, than the bytes to decay and than the free swap, and it stays strictly below the guessed
      bytes and the free swap with that. So what is selected falls short only if no idle guess is left that would stay below. */
  ghost predicate FadesFor(d: seq<Entry>, start: nat, ps: seq<nat>, bytes: nat, guessed: nat, swapFree: nat) {
    && Positions(d, ps) && (forall p :: p in ps ==> start <= p)
    && (forall i: nat :: start <= i < |d| ==>
          var below := BytesBelow(d, ps, i);
          i in ps <==> && d[i].status.Allocated? && d[i].useCnt == 0 && below < guessed && below < bytes && below < swapFree
                       && below + d[i].size < guessed && below + d[i].size < swapFree)
    && (Bytes(d, ps) >= guessed || Bytes(d, ps) >= bytes || Bytes(d, ps) >= swapFree ||
        forall i: nat :: start <= i < |d| && d[i].status.Allocated? && d[i].useCnt == 0 && i !in ps ==>
                           Bytes(d, ps) + d[i].size >= guessed || Bytes(d, ps) + d[i].size >= swapFree)
  }

  lemma FadingFor(d: seq<Entry>, start: nat, bytes: nat, guessed: nat, swapFree: nat)
    ensures FadesFor(d, start, Fading(d, start, Min(guessed, Min(bytes, swapFree)), Min(guessed, swapFree), 0), bytes, guessed, swapFree)
  {
    hide Fading, BytesBelow, Bytes;
    var target, limit := Min(guessed, Min(bytes, swapFree)), Min(guessed, swapFree);
    var ps := Fading(d, start, target, limit, 0);
    FadingWithin(d, start, target, limit, 0);
    forall i: nat | start <= i < |d|
      ensures var below := BytesBelow(d, ps, i);
              && below <= Bytes(d, ps)
              && (i in ps <==> d[i].status.Allocated? && d[i].useCnt == 0 && below < target && below + d[i].size < limit)
    {
      FadingGreedy(d, start, target, limit, 0, i);
      BelowIs(d, ps, i);
    }
  }

  // ---------------------------------------------------------------- sections

  /** What has gone out of the first guesses is put in front of the others. */
  ghost function Decayed(v: Schedule, w: seq<Entry>, e: nat): Schedule
    requires v.start <= e <= |w|
  {
    var d := w[v.start..e];
    Schedule(w[..v.start] + Outs(d) + Kept(d) + w[e..], v.counter, v.start + |Outs(d)|, Guessed(w))
  }

  /** decay keeps the order when the swap takes everything it is offered. */
  lemma DecayKeepsOrder(v: Schedule, w: seq<Entry>, vs: set<nat>, e: nat)
    requires Normal(v) && v.ring != [] && Marked(v.ring, w, vs) && v.start <= e <= |w|
    requires forall i :: i in vs ==> v.start <= i < e && w[i].status.Out()
    ensures Normal(Decayed(v, w, e))
  {
    if Arranged(v) {
      DecayedBytes(v, w, e);
      DecayedSections(v, w, vs, e);
    } else {
      NothingToDecay(v, w, vs, e);
    }
  }

  lemma DecayedSections(v: Schedule, w: seq<Entry>, vs: set<nat>, e: nat)
    requires Arranged(v) && Marked(v.ring, w, vs) && v.start <= e <= |w|
    requires forall i :: i in vs ==> v.start <= i < e && w[i].status.Out()
    ensures Arranged(Decayed(v, w, e))
  {
    hide Guessed, Kept, Outs, Marked;
    var c, d := v.counter, w[v.start..e];
    MarkedSize(v.ring, w, vs);
    DecayedPieces(v, w, vs, e);
    SliceUntouched(v, w, vs, 0, c + 1);
    SliceUntouched(v, w, vs, c + 1, v.start);
    SliceUntouched(v, w, vs, e, |w|);
    ArrangedFrom(w[0..c + 1], w[c + 1..v.start] + Outs(d), Kept(d) + w[e..|w|], Guessed(w));
    MiddleOf(w, 0, c + 1, v.start);
    assert w[..v.start] == w[0..v.start] && w[e..] == w[e..|w|];
    RegroupPair(w[0..c + 1], w[c + 1..v.start], Outs(d), Kept(d), w[e..|w|]);
  }

  lemma RegroupPair<T>(a: seq<T>, b: seq<T>, c: seq<T>, d: seq<T>, e: seq<T>)
    ensures a + b + c + d + e == a + (b + c) + (d + e)
  {
  }

  lemma NothingToDecay(v: Schedule, w: seq<Entry>, vs: set<nat>, e: nat)
    requires Normal(v) && AllGone(v) && Marked(v.ring, w, vs) && v.start <= e <= |w|
    requires forall i :: i in vs ==> v.start <= i < e
    ensures Normal(Decayed(v, w, e))
  {
    assert w == v.ring;
    var d := w[v.start..e];
    assert d == [] && w[..v.start] == w && w[e..] == [];
    assert Decayed(v, w, e).ring == w;
  }

  lemma DecayedPieces(v: Schedule, w: seq<Entry>, vs: set<nat>, e: nat)
    requires Arranged(v) && Marked(v.ring, w, vs) && v.start <= e <= |w|
    requires forall i :: i in vs ==> v.start <= i < e && w[i].status.Out()
    ensures forall x :: x in Outs(w[v.start..e]) ==> Gone(x)
    ensures forall x :: x in Kept(w[v.start..e]) ==> Guess(x)
  {
    var d := w[v.start..e];
    forall x | x in Outs(d) || x in Kept(d)
      ensures x in Outs(d) ==> Gone(x)
      ensures x in Kept(d) ==> Guess(x)
    {
      PartedMembers(d, x);
      var i :| 0 <= i < |d| && d[i] == x;
      assert w[v.start + i] == x;
    }
  }

  lemma DecayedBytes(v: Schedule, w: seq<Entry>, e: nat)
    requires v.start <= e <= |w|
    ensures Guessed(Decayed(v, w, e).ring) == Guessed(w)
  {
    hide Guessed, Kept, Outs;
    var d := w[v.start..e];
    Parted(d);
    assert w == w[..v.start] + d + w[e..];
    GuessedConcat(w[..v.start] + d, w[e..]);
    GuessedConcat(w[..v.start], d);
    GuessedFour(w[..v.start], Outs(d), Kept(d), w[e..]);
  }

  // ---------------------------------------------------------------- the two passes

  /** The pass has come to k, having selected qs. */
  ghost predicate Faded(es: seq<Entry>, st: nat, target: nat, limit: nat, k: nat, qs: seq<nat>, sum: nat) {
    && st <= k <= |es| && Positions(es, qs) && sum == Bytes(es, qs)
    && Fading(es, st, target, limit, 0) == qs + Fading(es, k, target, limit, sum)
    && FadeEnd(es, st, target, limit, 0) == FadeEnd(es, k, target, limit, sum)
  }

  predicate Fades(e: Entry, limit: nat, sum: nat) { Idle(e) && e.size + sum < limit }

  lemma FadeOn(es: seq<Entry>, st: nat, target: nat, limit: nat, k: nat, qs: seq<nat>, sum: nat)
    requires Faded(es, st, target, limit, k, qs, sum) && k < |es| && sum < target
    ensures if Fades(es[k], limit, sum) then Faded(es, st, target, limit, k + 1, qs + [k], sum + es[k].size)
            else Faded(es, st, target, limit, k + 1, qs, sum)
  {
    BytesAppend(es, qs, k);
    assert qs + ([k] + Fading(es, k + 1, target, limit, sum + es[k].size)) == qs + [k] + Fading(es, k + 1, target, limit, sum + es[k].size);
  }

  lemma FadeStops(es: seq<Entry>, st: nat, target: nat, limit: nat, k: nat, qs: seq<nat>, sum: nat)
    requires Faded(es, st, target, limit, k, qs, sum) && (k == |es| || sum >= target)
    ensures Fading(es, st, target, limit, 0) == qs && FadeEnd(es, st, target, limit, 0) == k
  {
    assert qs + [] == qs;
  }

  /** The next one selected is the next in the selection. */
  lemma FadeTakes(es: seq<Entry>, st: nat, target: nat, limit: nat, k: nat, qs: seq<nat>, sum: nat)
    requires Faded(es, st, target, limit, k, qs, sum) && k < |es| && sum < target && Fades(es[k], limit, sum)
    ensures |qs| < |Fading(es, st, target, limit, 0)|
  {
  }

  lemma {:induction false} FadingShape(es: seq<Entry>, k: nat, target: nat, limit: nat, sum: nat)
    ensures var ps, e := Fading(es, k, target, limit, sum), FadeEnd(es, k, target, limit, sum);
            && Positions(es, ps) && Distinct(ps) && k <= e && (k <= |es| ==> e <= |es|) && |ps| <= e - k
            && (forall p :: p in ps ==> k <= p < e && p < |es| && Idle(es[p]))
            && (k < |es| && sum < target ==> k < e)
    decreases |es| - k
  {
    if k < |es| && sum < target {
      FadingShape(es, k + 1, target, limit, sum + es[k].size);
      FadingShape(es, k + 1, target, limit, sum);
      if Fades(es[k], limit, sum) {
        var rest := Fading(es, k + 1, target, limit, sum + es[k].size);
        DistinctConcat([k], rest);
      }
    }
  }

  function At(s: seq<CyclicAtime>, i: nat): CyclicAtime
    requires s != []
  {
    if i < |s| then s[i] else s[0]
  }

  /** One step forward. */
  lemma OnOne(s: seq<CyclicAtime>, k: nat)
    requires Cycle(s) && k < |s|
    ensures s[k].next == At(s, k + 1) && (At(s, k + 1) == s[0] <==> k + 1 == |s|)
  {
    if k + 1 < |s| { assert Joined(s[k], s[k + 1]); }
  }

  /** A chunk gives up its flag. */
  method ClearFlag(c: ManagedMemoryChunk, ghost s: seq<CyclicAtime>, ghost es: seq<Entry>, ghost qs: seq<nat>, ghost k: nat)
    requires OwnChunks(s) && k < |s| && s[k].chunk == c && |es| == |s| && Snaps(s) == Stripped(es, qs)
    modifies c`preemptiveLoaded
    ensures Snaps(s) == Stripped(es, qs + [k])
  {
    hide Snaps, OwnChunks;
    StrippedNext(es, qs, k);
    c.preemptiveLoaded := false;
    SnapsSet(s, k);
  }

  /** Half way through the first pass. */
  ghost predicate Counting(s: seq<CyclicAtime>, es: seq<Entry>, st: nat, target: nat, limit: nat, k: nat, qs: seq<nat>, sum: nat)
    reads ChunksOf(s)`status, ChunksOf(s)`useCnt, ChunksOf(s)`preemptiveLoaded
  {
    && |es| == |s| && Faded(es, st, target, limit, k, qs, sum) && Snaps(s) == Stripped(es, qs) && forall p :: p in qs ==> st <= p < k
  }

  lemma CountingAt(s: seq<CyclicAtime>, es: seq<Entry>, st: nat, target: nat, limit: nat, k: nat, qs: seq<nat>, sum: nat)
    requires Counting(s, es, st, target, limit, k, qs, sum) && k < |s| && sum < target
    ensures |es| == |s| && var c := s[k].chunk; c.status == es[k].status && c.size == es[k].size && c.useCnt == es[k].useCnt
    ensures !Fades(es[k], limit, sum) ==> Counting(s, es, st, target, limit, k + 1, qs, sum)
  {
    AsBefore(s, es, qs, k);
    FadeOn(es, st, target, limit, k, qs, sum);
  }

  method CountOne(c: ManagedMemoryChunk, limit: nat, sum: nat, ghost s: seq<CyclicAtime>, ghost es: seq<Entry>, ghost st: nat,
                  ghost target: nat, ghost k: nat, ghost qs: seq<nat>)
      returns (size: nat, took: bool)
    requires Counting(s, es, st, target, limit, k, qs, sum) && k < |s| && sum < target && OwnChunks(s) && s[k].chunk == c
    modifies c`preemptiveLoaded
    ensures Counting(s, es, st, target, limit, k + 1, if took then qs + [k] else qs, sum + size)
  {
    hide Snaps, OwnChunks, Faded, Fading, FadeEnd, Bytes, Stripped;
    CountingAt(s, es, st, target, limit, k, qs, sum);
    CountingBelow(s, es, st, target, limit, k, qs, sum);
    FadeOn(es, st, target, limit, k, qs, sum);
    took := c.size + sum < limit && c.status == Allocated && c.useCnt == 0;
    size := 0;
    if took {
      size := c.size;
      ClearFlag(c, s, es, qs, k);
    }
  }

  lemma CountingEnds(s: seq<CyclicAtime>, es: seq<Entry>, st: nat, target: nat, limit: nat, k: nat, qs: seq<nat>, sum: nat)
    requires Counting(s, es, st, target, limit, k, qs, sum) && (k == |s| || sum >= target)
    ensures Fading(es, st, target, limit, 0) == qs && FadeEnd(es, st, target, limit, 0) == k
    ensures Snaps(s) == Stripped(es, qs) && st <= k
  {
    FadeStops(es, st, target, limit, k, qs, sum);
  }

  /** Everything from st to k has been selected. */
  ghost predicate NoGap(qs: seq<nat>, st: nat, k: nat) {
    forall i: nat :: st <= i < k ==> i in qs
  }

  lemma GapAt(qs: seq<nat>, st: nat, k: nat)
    requires st <= k && forall p :: p in qs ==> st <= p < k
    ensures !NoGap(qs, st, k + 1) && (NoGap(qs + [k], st, k + 1) <==> NoGap(qs, st, k))
  {
    assert k !in qs;
    assert k in qs + [k];
    if NoGap(qs + [k], st, k + 1) {
      forall i: nat | st <= i < k
        ensures i in qs
      {
        assert i in qs + [k];
      }
    }
  }

  lemma CountingBelow(s: seq<CyclicAtime>, es: seq<Entry>, st: nat, target: nat, limit: nat, k: nat, qs: seq<nat>, sum: nat)
    requires Counting(s, es, st, target, limit, k, qs, sum)
    ensures st <= k && forall p :: p in qs ==> st <= p < k
  {
  }

  /** What the loop of the first pass keeps. */
  ghost predicate CountLoop(s: seq<CyclicAtime>, es: seq<Entry>, st: nat, target: nat, limit: nat, k: nat, qs: seq<nat>,
                            sum: nat, cur: CyclicAtime, chunks: nat, consecutive: bool)
    reads ChunksOf(s)`status, ChunksOf(s)`useCnt, ChunksOf(s)`preemptiveLoaded
  {
    && s != [] && st <= k <= |s| && cur == At(s, k) && (cur == s[0] <==> k == |s|)
    && Counting(s, es, st, target, limit, k, qs, sum)
    && chunks == |qs| && (consecutive <==> NoGap(qs, st, k))
  }

  method CountStep(was: CyclicAtime, sum: nat, chunks: nat, consecutive: bool, limit: nat, ghost s: seq<CyclicAtime>, ghost es: seq<Entry>,
                   ghost st: nat, ghost target: nat, ghost k: nat, ghost qs: seq<nat>)
      returns (cur: CyclicAtime, sum': nat, chunks': nat, consecutive': bool, ghost qs': seq<nat>)
    requires CountLoop(s, es, st, target, limit, k, qs, sum, was, chunks, consecutive) && k < |s| && sum < target
    requires Cycle(s) && OwnChunks(s)
    modifies ChunksOf(s)`preemptiveLoaded
    ensures CountLoop(s, es, st, target, limit, k + 1, qs', sum', cur, chunks', consecutive')
  {
    hide Cycle, Snaps, OwnChunks, Counting, NoGap;
    InChunks(s, k);
    OnOne(s, k);
    CountingBelow(s, es, st, target, limit, k, qs, sum);
    GapAt(qs, st, k);
    var size, took := CountOne(was.chunk, limit, sum, s, es, st, target, k, qs);
    sum', chunks', consecutive', qs' := sum + size, chunks, consecutive, qs;
    if took {
      chunks', qs' := chunks + 1, qs + [k];
    } else {
      consecutive' := false;
    }
    cur := was.next;
  }

  /** First pass: count, and take the flags away. */
  method CountFading(active: CyclicAtime, start: CyclicAtime, target: nat, limit: nat, ghost s: seq<CyclicAtime>, ghost st: nat)
      returns (cur: CyclicAtime, chunks: nat, consecutive: bool)
    requires Cycle(s) && s != [] && OwnChunks(s) && 0 < st < |s| && start == s[st] && active == s[0]
    modifies ChunksOf(s)`preemptiveLoaded
    ensures var es := old(Snaps(s));
            var ps, e := Fading(es, st, target, limit, 0), FadeEnd(es, st, target, limit, 0);
            && Snaps(s) == Stripped(es, ps) && chunks == |ps| && cur == At(s, e) && (consecutive <==> NoGap(ps, st, e))
  {
    hide Cycle, Snaps, OwnChunks, CountLoop, Fading, FadeEnd, At, Stripped;
    ghost var es := Snaps(s);
    var bytesselected: nat := 0;
    cur, chunks, consecutive := start, 0, true;
    ghost var k: nat, qs: seq<nat> := st, [];
    CountingStart(s, st, target, limit);
    while cur != active && bytesselected < target
      invariant CountLoop(s, es, st, target, limit, k, qs, bytesselected, cur, chunks, consecutive)
      decreases |s| - k
    {
      CountLoopAt(s, es, st, target, limit, k, qs, bytesselected, cur, chunks, consecutive);
      cur, bytesselected, chunks, consecutive, qs := CountStep(cur, bytesselected, chunks, consecutive, limit, s, es, st, target, k, qs);
      k := k + 1;
    }
    CountLoopEnds(s, es, st, target, limit, k, qs, bytesselected, cur, chunks, consecutive);
  }

  lemma CountLoopAt(s: seq<CyclicAtime>, es: seq<Entry>, st: nat, target: nat, limit: nat, k: nat, qs: seq<nat>,
                    sum: nat, cur: CyclicAtime, chunks: nat, consecutive: bool)
    requires CountLoop(s, es, st, target, limit, k, qs, sum, cur, chunks, consecutive)
    ensures k <= |s| && (cur == s[0] <==> k == |s|)
  {
  }

  lemma CountLoopEnds(s: seq<CyclicAtime>, es: seq<Entry>, st: nat, target: nat, limit: nat, k: nat, qs: seq<nat>,
                      sum: nat, cur: CyclicAtime, chunks: nat, consecutive: bool)
    requires CountLoop(s, es, st, target, limit, k, qs, sum, cur, chunks, consecutive) && (cur == s[0] || sum >= target)
    ensures var ps, e := Fading(es, st, target, limit, 0), FadeEnd(es, st, target, limit, 0);
            && Snaps(s) == Stripped(es, ps) && chunks == |ps| && cur == At(s, e) && (consecutive <==> NoGap(ps, st, e))
  {
    CountingEnds(s, es, st, target, limit, k, qs, sum);
  }

  lemma CountingStart(s: seq<CyclicAtime>, st: nat, target: nat, limit: nat)
    requires Cycle(s) && 0 < st < |s|
    ensures CountLoop(s, Snaps(s), st, target, limit, st, [], 0, s[st], 0, true)
  {
    FadeStart(Snaps(s), st, target, limit);
  }

  lemma InChunks(s: seq<CyclicAtime>, k: nat)
    requires k < |s|
    ensures s[k].chunk in ChunksOf(s)
  {
  }

  lemma FadeStart(es: seq<Entry>, st: nat, target: nat, limit: nat)
    requires st <= |es|
    ensures Faded(es, st, target, limit, st, [], 0) && Stripped(es, []) == es
  {
  }

  /** Half way through the second pass. */
  ghost predicate Listing(list: array<ManagedMemoryChunk?>, s: seq<CyclicAtime>, es: seq<Entry>, ps: seq<nat>, st: nat, target: nat, limit: nat,
                          k: nat, qs: seq<nat>, sum: nat)
    reads list, ChunksOf(s)`status, ChunksOf(s)`useCnt, ChunksOf(s)`preemptiveLoaded
  {
    && |es| == |s| && ps == Fading(es, st, target, limit, 0) && list.Length == |ps|
    && Faded(es, st, target, limit, k, qs, sum) && |qs| <= |ps| && qs == ps[..|qs|]
    && Lists(list, s, qs) && Snaps(s) == Stripped(es, ps)
  }

  lemma ListingAt(list: array<ManagedMemoryChunk?>, s: seq<CyclicAtime>, es: seq<Entry>, ps: seq<nat>, st: nat, target: nat, limit: nat,
                  k: nat, qs: seq<nat>, sum: nat)
    requires Listing(list, s, es, ps, st, target, limit, k, qs, sum) && k < |s| && sum < target
    ensures |es| == |s| && var c := s[k].chunk; c.status == es[k].status && c.size == es[k].size && c.useCnt == es[k].useCnt
    ensures !Fades(es[k], limit, sum) ==> Listing(list, s, es, ps, st, target, limit, k + 1, qs, sum)
    ensures Fades(es[k], limit, sum) ==> |qs| < |ps|
  {
    hide Lists;
    AsBefore(s, es, ps, k);
    FadeOn(es, st, target, limit, k, qs, sum);
    if Fades(es[k], limit, sum) { FadeTakes(es, st, target, limit, k, qs, sum); }
  }

  method ListOne(list: array<ManagedMemoryChunk?>, c: ManagedMemoryChunk, cursw: nat, limit: nat, sum: nat,
                 ghost s: seq<CyclicAtime>, ghost es: seq<Entry>, ghost ps: seq<nat>, ghost st: nat, ghost target: nat,
                 ghost k: nat, ghost qs: seq<nat>)
      returns (size: nat, took: bool)
    requires Listing(list, s, es, ps, st, target, limit, k, qs, sum) && k < |s| && sum < target
    requires s[k].chunk == c && cursw == |qs|
    modifies list
    ensures Listing(list, s, es, ps, st, target, limit, k + 1, if took then qs + [k] else qs, sum + size)
  {
    hide Snaps, Faded, Fading, FadeEnd, Bytes, Stripped;
    ListingAt(list, s, es, ps, st, target, limit, k, qs, sum);
    FadeOn(es, st, target, limit, k, qs, sum);
    took := c.size + sum < limit && c.status == Allocated && c.useCnt == 0;
    size := 0;
    if took {
      FadedPrefix(es, st, target, limit, k + 1, qs + [k], sum + es[k].size);
      list[cursw] := c;
      size := c.size;
    }
  }

  lemma ListingEnds(list: array<ManagedMemoryChunk?>, s: seq<CyclicAtime>, es: seq<Entry>, ps: seq<nat>, st: nat, target: nat, limit: nat,
                    k: nat, qs: seq<nat>, sum: nat)
    requires Listing(list, s, es, ps, st, target, limit, k, qs, sum) && (k == FadeEnd(es, st, target, limit, 0) || sum >= target)
    ensures qs == ps && Positions(es, ps) && sum == Bytes(es, ps) && Lists(list, s, ps) && list.Length == |ps|
  {
    FadedAtEnd(es, st, target, limit, k, qs, sum);
  }

  /** What the loop of the second pass keeps. */
  ghost predicate ListLoop(list: array<ManagedMemoryChunk?>, s: seq<CyclicAtime>, es: seq<Entry>, ps: seq<nat>, st: nat, target: nat,
                           limit: nat, k: nat, qs: seq<nat>, sum: nat, cur2: CyclicAtime, cursw: nat)
    reads list, ChunksOf(s)`status, ChunksOf(s)`useCnt, ChunksOf(s)`preemptiveLoaded
  {
    var e := FadeEnd(es, st, target, limit, 0);
    && s != [] && 0 < st <= k <= e <= |s| && cur2 == At(s, k) && (cur2 == At(s, e) <==> k == e)
    && Listing(list, s, es, ps, st, target, limit, k, qs, sum) && cursw == |qs|
  }

  method ListStep(list: array<ManagedMemoryChunk?>, was: CyclicAtime, cursw: nat, limit: nat, sum: nat,
                  ghost s: seq<CyclicAtime>, ghost es: seq<Entry>, ghost ps: seq<nat>, ghost st: nat, ghost target: nat,
                  ghost k: nat, ghost qs: seq<nat>)
      returns (cur2: CyclicAtime, cursw': nat, sum': nat, ghost qs': seq<nat>)
    requires ListLoop(list, s, es, ps, st, target, limit, k, qs, sum, was, cursw) && k < FadeEnd(es, st, target, limit, 0) && sum < target
    requires Cycle(s)
    modifies list
    ensures ListLoop(list, s, es, ps, st, target, limit, k + 1, qs', sum', cur2, cursw')
  {
    hide Cycle, Snaps, Listing, FadeEnd;
    OnOne(s, k);
    AtApart(s, k + 1, FadeEnd(es, st, target, limit, 0));
    var size, took := ListOne(list, was.chunk, cursw, limit, sum, s, es, ps, st, target, k, qs);
    sum', cursw', qs' := sum + size, cursw, qs;
    if took {
      cursw', qs' := cursw + 1, qs + [k];
    }
    cur2 := was.next;
  }

  /** Second pass: fill the list. */
  method ListFading(start: CyclicAtime, cur: CyclicAtime, target: nat, limit: nat, chunks: nat,
                    ghost s: seq<CyclicAtime>, ghost st: nat, ghost es: seq<Entry>)
      returns (chunklist: array<ManagedMemoryChunk?>, bytesselected: nat)
    requires Cycle(s) && s != [] && 0 < st < |s| && start == s[st] && |es| == |s|
    requires var ps := Fading(es, st, target, limit, 0);
             Snaps(s) == Stripped(es, ps) && chunks == |ps| && cur == At(s, FadeEnd(es, st, target, limit, 0))
    ensures var ps := Fading(es, st, target, limit, 0);
            && fresh(chunklist) && chunklist.Length == |ps| && Lists(chunklist, s, ps) && Positions(es, ps) && bytesselected == Bytes(es, ps)
  {
    hide Cycle, Snaps, ListLoop, Fading, FadeEnd, At, Stripped, Lists;
    chunklist := new ManagedMemoryChunk?[chunks];
    var cursw: nat := 0;
    bytesselected := 0;
    var cur2 := start;
    ghost var k: nat, qs: seq<nat> := st, [];
    ghost var ps, e := Fading(es, st, target, limit, 0), FadeEnd(es, st, target, limit, 0);
    ListingStart(chunklist, s, es, st, target, limit);
    while cur2 != cur && bytesselected < target
      invariant ListLoop(chunklist, s, es, ps, st, target, limit, k, qs, bytesselected, cur2, cursw)
      decreases e - k
    {
      ListLoopAt(chunklist, s, es, ps, st, target, limit, k, qs, bytesselected, cur2, cursw);
      cur2, cursw, bytesselected, qs := ListStep(chunklist, cur2, cursw, limit, bytesselected, s, es, ps, st, target, k, qs);
      k := k + 1;
    }
    ListLoopEnds(chunklist, s, es, ps, st, target, limit, k, qs, bytesselected, cur2, cursw);
  }

  lemma ListLoopAt(list: array<ManagedMemoryChunk?>, s: seq<CyclicAtime>, es: seq<Entry>, ps: seq<nat>, st: nat, target: nat,
                   limit: nat, k: nat, qs: seq<nat>, sum: nat, cur2: CyclicAtime, cursw: nat)
    requires ListLoop(list, s, es, ps, st, target, limit, k, qs, sum, cur2, cursw)
    ensures var e := FadeEnd(es, st, target, limit, 0); s != [] && k <= e && (cur2 == At(s, e) <==> k == e)
  {
  }

  lemma ListLoopEnds(list: array<ManagedMemoryChunk?>, s: seq<CyclicAtime>, es: seq<Entry>, ps: seq<nat>, st: nat, target: nat,
                     limit: nat, k: nat, qs: seq<nat>, sum: nat, cur2: CyclicAtime, cursw: nat)
    requires ListLoop(list, s, es, ps, st, target, limit, k, qs, sum, cur2, cursw)
    requires cur2 == At(s, FadeEnd(es, st, target, limit, 0)) || sum >= target
    ensures Positions(es, ps) && sum == Bytes(es, ps) && Lists(list, s, ps) && list.Length == |ps|
  {
    ListingEnds(list, s, es, ps, st, target, limit, k, qs, sum);
  }

  lemma ListingStart(list: array<ManagedMemoryChunk?>, s: seq<CyclicAtime>, es: seq<Entry>, st: nat, target: nat, limit: nat)
    requires Cycle(s) && 0 < st < |s| == |es| && list.Length == |Fading(es, st, target, limit, 0)|
    requires Snaps(s) == Stripped(es, Fading(es, st, target, limit, 0))
    ensures ListLoop(list, s, es, Fading(es, st, target, limit, 0), st, target, limit, st, [], 0, s[st], 0)
  {
    FadeStart(es, st, target, limit);
    FadingShape(es, st, target, limit, 0);
    AtApart(s, st, FadeEnd(es, st, target, limit, 0));
  }

  lemma AtApart(s: seq<CyclicAtime>, i: nat, j: nat)
    requires Cycle(s) && 0 < i <= j <= |s|
    ensures At(s, i) == At(s, j) <==> i == j
  {
  }

  lemma FadedPrefix(es: seq<Entry>, st: nat, target: nat, limit: nat, k: nat, qs: seq<nat>, sum: nat)
    requires Faded(es, st, target, limit, k, qs, sum)
    ensures var ps := Fading(es, st, target, limit, 0); |qs| <= |ps| && qs == ps[..|qs|]
  {
  }

  /** At the end of the first pass the second pass has selected the same. */
  lemma FadedAtEnd(es: seq<Entry>, st: nat, target: nat, limit: nat, k: nat, qs: seq<nat>, sum: nat)
    requires Faded(es, st, target, limit, k, qs, sum) && (k == FadeEnd(es, st, target, limit, 0) || sum >= target)
    ensures qs == Fading(es, st, target, limit, 0) && sum == Bytes(es, qs)
  {
    if sum >= target {
      FadeStops(es, st, target, limit, k, qs, sum);
    } else {
      FadingShape(es, k, target, limit, sum);
      assert Fading(es, k, target, limit, sum) == [];
      assert qs + [] == qs;
    }
  }

  // ---------------------------------------------------------------- reordering

  /** The run that is filtered, from the first guess to where the selection stopped, and the rest of the ring. */
  ghost function Area(s: seq<CyclicAtime>, st: nat, e: nat): seq<CyclicAtime>
    requires s != [] && st <= e <= |s|
  {
    s[st..e] + [At(s, e)]
  }

  ghost function Beyond(s: seq<CyclicAtime>, st: nat, e: nat): seq<CyclicAtime>
    requires 0 < st <= e <= |s|
  {
    if e < |s| then s[e + 1..] + s[..st] else s[1..st]
  }

  /** A run that ends within the ring. */
  lemma AreaInside(s: seq<CyclicAtime>, st: nat, e: nat)
    requires Cycle(s) && 0 < st < e < |s|
    ensures Cycle(Area(s, st, e) + Beyond(s, st, e)) && forall x :: x in Area(s, st, e) + Beyond(s, st, e) ==> x in s
  {
    hide Cycle;
    assert s == s[..st] + s[st..];
    CycleTurn(s[..st], s[st..]);
    assert s[st..] + s[..st] == Area(s, st, e) + Beyond(s, st, e);
  }

  /** A run that reaches around to active. */
  lemma AreaAround(s: seq<CyclicAtime>, st: nat)
    requires Cycle(s) && 0 < st < |s|
    ensures Cycle(Area(s, st, |s|) + Beyond(s, st, |s|)) && forall x :: x in Area(s, st, |s|) + Beyond(s, st, |s|) ==> x in s
  {
    hide Cycle;
    assert s == s[..st] + s[st..];
    CycleTurn(s[..st], s[st..]);
    assert s[st..] + s[..st] == Area(s, st, |s|) + Beyond(s, st, |s|);
  }

  lemma AreaCycle(s: seq<CyclicAtime>, st: nat, e: nat)
    requires Cycle(s) && 0 < st < e <= |s|
    ensures Cycle(Area(s, st, e) + Beyond(s, st, e)) && Distinct(Area(s, st, e) + Beyond(s, st, e))
    ensures Area(s, st, e) != [] && Area(s, st, e)[0] == s[st] && Last(Area(s, st, e)) == At(s, e) && s[st].prev == s[st - 1]
    ensures Elements(Area(s, st, e)) <= Elements(s) && Elements(Beyond(s, st, e)) <= Elements(s)
  {
    hide Cycle, Beyond;
    BackFrom(s, st);
    if e < |s| {
      AreaInside(s, st, e);
    } else {
      AreaAround(s, st);
    }
    CycleDistinct(Area(s, st, e) + Beyond(s, st, e));
    ElementsConcat(Area(s, st, e), Beyond(s, st, e));
    assert Elements(Area(s, st, e) + Beyond(s, st, e)) <= Elements(s);
  }

  lemma BackFrom(s: seq<CyclicAtime>, i: nat)
    requires Cycle(s) && 0 < i < |s|
    ensures s[i].prev == s[i - 1]
  {
    assert Joined(s[i - 1], s[i]);
  }

  /** The ring afterwards, read from active. */
  ghost function FadedRing(s: seq<CyclicAtime>, st: nat, e: nat, sel: set<CyclicAtime>): seq<CyclicAtime>
    requires st <= e <= |s|
  {
    s[..st] + Only(s[st..e], sel) + Except(s[st..e], sel) + s[e..]
  }

  /** Where the run stopped nothing has gone out, so that it is the last that is kept. */
  lemma AreaParts(s: seq<CyclicAtime>, st: nat, e: nat, sel: set<CyclicAtime>)
    requires 0 < st < e <= |s| && At(s, e) !in sel && Except(s[st..e], sel) != []
    ensures var kept, gone := Except(Area(s, st, e), sel), Only(Area(s, st, e), sel);
            && kept == Except(s[st..e], sel) + [At(s, e)] && gone == Only(s[st..e], sel)
            && kept[0] == Except(s[st..e], sel)[0]
  {
    OnlyStep(s[st..e], At(s, e), sel);
    assert Only(s[st..e], sel) + [] == Only(s[st..e], sel);
  }

  lemma FadedTurn(s: seq<CyclicAtime>, st: nat, e: nat, sel: set<CyclicAtime>)
    requires 0 < st < e <= |s| && At(s, e) !in sel && Except(s[st..e], sel) != []
    requires Cycle(Except(Area(s, st, e), sel) + Beyond(s, st, e) + Only(Area(s, st, e), sel))
    ensures Cycle(FadedRing(s, st, e, sel))
  {
    hide Only, Except, Cycle;
    AreaParts(s, st, e, sel);
    var k, v := Except(s[st..e], sel), Only(s[st..e], sel);
    if e < |s| {
      assert (k + [s[e]]) + (s[e + 1..] + s[..st]) + v == (k + s[e..]) + (s[..st] + v);
      CycleTurn(k + s[e..], s[..st] + v);
      assert (s[..st] + v) + (k + s[e..]) == FadedRing(s, st, e, sel);
    } else {
      assert (k + [s[0]]) + s[1..st] + v == k + (s[..st] + v);
      CycleTurn(k, s[..st] + v);
      assert (s[..st] + v) + k == FadedRing(s, st, e, sel);
    }
  }

  /** filterChain on the run, and what it took out in front of what it left. */
  method Sort(m: CyclicManagedMemory, cur: CyclicAtime, ghost s: seq<CyclicAtime>, ghost st: nat, ghost e: nat)
    requires Cycle(s) && 0 < st < e <= |s| && m.preemptiveStart == s[st] && m.active == s[0] && cur == At(s, e)
    requires !At(s, e).chunk.status.Out() && Except(s[st..e], GoneOut(Area(s, st, e))) != []
    modifies Elements(s)`next, Elements(s)`prev, m`preemptiveStart
    ensures Cycle(FadedRing(s, st, e, old(GoneOut(Area(s, st, e)))))
    ensures m.preemptiveStart == Except(s[st..e], old(GoneOut(Area(s, st, e))))[0]
  {
    hide Cycle, Path, Distinct, Only, Except, FadedRing, Area, Beyond;
    ghost var seg, rest := Area(s, st, e), Beyond(s, st, e);
    ghost var sel := GoneOut(seg);
    ghost var kept, gone := Except(seg, sel), Only(seg, sel);
    AreaCycle(s, st, e);
    GoneOutIs(seg);
    AreaParts(s, st, e, sel);
    PiecesDistinct(seg, rest, sel);
    assert forall x :: x in seg ==> x in Elements(seg);
    assert forall x :: x in rest ==> x in Elements(rest);
    ElementsConcat(kept, rest);
    var from := m.preemptiveStart;
    m.preemptiveStart := m.preemptiveStart.prev;
    var remaining, separated := FilterChain(Chain(from, cur), NOT_ALLOWED, Ignored, seg, rest);
    BeforeStart(s, st, e, kept);
    LastTurns(kept, rest);
    DistinctTurn(rest, kept, gone);
    m.preemptiveStart := m.preemptiveStart.next;
    SpliceIn(m.preemptiveStart, separated, kept + rest, gone, Elements(s));
    FadedTurn(s, st, e, sel);
  }

  /** The element before the guesses is the one before the run. */
  lemma BeforeStart(s: seq<CyclicAtime>, st: nat, e: nat, kept: seq<CyclicAtime>)
    requires 0 < st < e <= |s| && kept != [] && Last(kept) == At(s, e)
    ensures Last(kept + Beyond(s, st, e)) == s[st - 1]
  {
  }

  /** insertBefore within a set of elements. */
  method SpliceIn(pos: CyclicAtime, separated: Chain, ghost s: seq<CyclicAtime>, ghost t: seq<CyclicAtime>, ghost all: set<CyclicAtime>)
    requires Cycle(s) && s != [] && s[0] == pos && Path(t) && Distinct(s + t) && separated == ChainOf(t)
    requires Elements(s) + Elements(t) <= all
    modifies all`next, all`prev
    ensures Cycle(s + t)
  {
    assert forall x :: x in s ==> x in Elements(s);
    assert forall x :: x in t ==> x in Elements(t);
    InsertBefore(pos, separated, s, t);
  }

  lemma LastTurns(kept: seq<CyclicAtime>, rest: seq<CyclicAtime>)
    requires Cycle(kept + rest) && kept != []
    ensures Last(kept + rest).next == kept[0] && (kept + rest)[0] == kept[0]
  {
  }

  lemma DistinctTurn(a: seq<CyclicAtime>, b: seq<CyclicAtime>, c: seq<CyclicAtime>)
    requires Distinct(a + b + c)
    ensures Distinct(b + a + c)
  {
    DistinctConcat(a + b, c);
    DistinctConcat(a, b);
    DistinctConcat(b, a);
    DistinctConcat(b + a, c);
  }

  // ---------------------------------------------------------------- the method

  /** The selection has been made and offered; w is what the ring shows then. */
  ghost predicate Offering(v: Schedule, w: seq<Entry>, ps: seq<nat>, e: nat) {
    && |w| == |v.ring| && v.start <= e <= |w| && MarkedAt(v.ring, w, ps) && Distinct(ps)
    && forall p :: p in ps ==> v.start <= p < e && Idle(v.ring[p])
  }

  ghost function SetOf(ps: seq<nat>): set<nat> { set p | p in ps }

  /** What has gone out is exactly what was selected. */
  ghost predicate AllOut(w: seq<Entry>, ps: seq<nat>) {
    forall p :: p in ps ==> p < |w| && w[p].status.Out()
  }

  lemma {:induction false} AllOrNothing(es: seq<Entry>, w: seq<Entry>, ps: seq<nat>)
    requires Positions(w, ps) && Positions(es, ps) && |w| == |es| && Weighted(w) && forall i :: 0 <= i < |w| ==> w[i].size == es[i].size
    ensures OutBytes(w, ps) <= Bytes(es, ps) && (OutBytes(w, ps) == Bytes(es, ps) <==> AllOut(w, ps))
    decreases |ps|
  {
    if ps != [] {
      var d, p := ps[..|ps| - 1], Last(ps);
      assert ps == d + [p];
      AllOrNothing(es, w, d);
      BytesAppend(es, d, p);
      assert forall x :: x in ps ==> x in d || x == p;
    }
  }

  lemma OfferingMarked(v: Schedule, w: seq<Entry>, ps: seq<nat>, e: nat)
    requires Offering(v, w, ps, e)
    ensures Marked(v.ring, w, SetOf(ps))
  {
  }

  /** Selected guesses weigh what they are counted with. */
  lemma {:induction false} GuessedMarked(es: seq<Entry>, ps: seq<nat>)
    requires Positions(es, ps) && Distinct(ps) && forall p :: p in ps ==> p < |es| && es[p].preemptive
    ensures Guessed(Stripped(es, ps)) == Guessed(es) - Bytes(es, ps)
    decreases |ps|
  {
    if ps == [] {
      assert Stripped(es, ps) == es;
    } else {
      var d, p := ps[..|ps| - 1], Last(ps);
      assert ps == d + [p];
      DistinctConcat(d, [p]);
      GuessedMarked(es, d);
      StrippedNext(es, d, p);
      GuessedSet(Stripped(es, d), p, es[p].(preemptive := false));
      BytesAppend(es, d, p);
      assert p !in d;
    }
  }

  /** Where the pieces are: what the ring shows after sorting, and the cursors. */
  lemma FadedShows(s: seq<CyclicAtime>, st: nat, e: nat, sel: set<CyclicAtime>)
    requires st <= e <= |s| && forall x :: x in s[st..e] ==> (x in sel <==> x.chunk.status.Out())
    ensures var w := Snaps(s);
            && Snaps(FadedRing(s, st, e, sel)) == w[..st] + Outs(w[st..e]) + Kept(w[st..e]) + w[e..]
            && |Only(s[st..e], sel)| == |Outs(w[st..e])|
  {
    hide Snaps, Only, Except, Kept, Outs;
    SnapsParted(s[st..e], sel);
    SnapsSlice(s, st, e);
    SnapsCut(s, st);
    SnapsCut(s, e);
    SnapsFour(s[..st], Only(s[st..e], sel), Except(s[st..e], sel), s[e..]);
    SnapsLength(Only(s[st..e], sel));
  }

  lemma FadedCursors(s: seq<CyclicAtime>, st: nat, e: nat, sel: set<CyclicAtime>)
    requires 0 < st <= e <= |s|
    ensures var t := FadedRing(s, st, e, sel);
            && |t| == |s| && (forall i :: 0 <= i < st ==> t[i] == s[i])
            && (Except(s[st..e], sel) != [] ==> st + |Only(s[st..e], sel)| < |t| && t[st + |Only(s[st..e], sel)|] == Except(s[st..e], sel)[0])
  {
    hide Only, Except;
    OnlyElements(s[st..e], sel);
  }

  /** The view once the ring has been sorted and read again. */
  lemma DecayedView(m: CyclicManagedMemory, s: seq<CyclicAtime>, v: Schedule, e: nat, sel: set<CyclicAtime>)
    requires m.Valid() && 0 < v.start < e <= |s| && v.counter < v.start && m.ring == FadedRing(s, v.start, e, sel)
    requires forall x :: x in s[v.start..e] ==> (x in sel <==> x.chunk.status.Out())
    requires Except(s[v.start..e], sel) != [] && m.preemptiveStart == Except(s[v.start..e], sel)[0]
    requires m.counterActive == s[v.counter] && m.preemptiveBytes == Guessed(Snaps(s))
    ensures m.View() == Decayed(v, Snaps(s), e)
  {
    hide Snaps, Only, Except, Kept, Outs, Guessed, FadedRing;
    FadedShows(s, v.start, e, sel);
    FadedCursors(s, v.start, e, sel);
    ViewIs(m, Decayed(v, Snaps(s), e));
  }

  /** What the passes and the swap leave for the reordering. */
  ghost predicate Ready(m: CyclicManagedMemory, s: seq<CyclicAtime>, v: Schedule, ps: seq<nat>, e: nat)
    reads m, s`next, s`prev, ChunksOf(s)`status, ChunksOf(s)`useCnt, ChunksOf(s)`preemptiveLoaded
  {
    && Cycle(s) && OwnChunks(s) && |s| == |v.ring| && Normal(v) && Arranged(v) && 0 < v.start < e <= |s|
    && Offering(v, Snaps(s), ps, e) && AllOut(Snaps(s), ps) && m.preemptiveBytes == Guessed(Snaps(s))
    && m.active == s[0] && m.counterActive == s[v.counter] && m.preemptiveStart == s[v.start]
    && m.ring == s && m.counterAt == v.counter
  }

  /** Where the selection has a gap, something is kept; where it has none, everything has gone. */
  lemma ReadyFacts(m: CyclicManagedMemory, s: seq<CyclicAtime>, v: Schedule, ps: seq<nat>, e: nat)
    requires Ready(m, s, v, ps, e)
    ensures !At(s, e).chunk.status.Out()
    ensures !NoGap(ps, v.start, e) ==> Except(s[v.start..e], GoneOut(Area(s, v.start, e))) != []
    ensures forall x :: x in s[v.start..e] ==> (x in GoneOut(Area(s, v.start, e)) <==> x.chunk.status.Out())
  {
    hide Only, Except, Snaps, GoneOut, AllOut, Cycle, OwnChunks, Distinct, Guessed, NoGap;
    var w := Snaps(s);
    GoneOutIs(Area(s, v.start, e));
    assert w[if e < |s| then e else 0] == Snap(At(s, e));
    if !NoGap(ps, v.start, e) {
      var i := Gap(ps, v.start, e);
      assert w[i] == v.ring[i] && w[i] == Snap(s[i]);
      assert s[v.start..e][i - v.start] == s[i];
      KeptMember(s[v.start..e], GoneOut(Area(s, v.start, e)), i - v.start);
    }
  }

  lemma Gap(ps: seq<nat>, st: nat, e: nat) returns (i: nat)
    requires !NoGap(ps, st, e)
    ensures st <= i < e && i !in ps
  {
    i :| st <= i < e && i !in ps;
  }

  lemma KeptMember<T>(s: seq<T>, sel: set<T>, i: nat)
    requires i < |s| && s[i] !in sel
    ensures Except(s, sel) != []
  {
    OnlyElements(s, sel);
    assert s[i] in Elements(s);
    assert s[i] in Elements(Except(s, sel));
  }

  /** The end of decay, with a gap in the selection: the ring is sorted. */
  method SortGap(m: CyclicManagedMemory, cur: CyclicAtime, ghost s: seq<CyclicAtime>, ghost v: Schedule, ghost ps: seq<nat>, ghost e: nat)
    requires Ready(m, s, v, ps, e) && !NoGap(ps, v.start, e) && cur == At(s, e)
    modifies m`preemptiveStart, m`ring, m`counterAt, m`startAt, Elements(s)`next, Elements(s)`prev
    ensures m.Valid() && (forall x :: x in m.ring <==> x in s) && m.View() == Decayed(v, Snaps(s), e)
  {
    hide Cycle, OwnChunks, Snaps, Only, Except, GoneOut, AllOut, Distinct, NoGap, FadedRing, Guessed, Area, From,
      Decayed, Outs, Kept, Offering, Normal, Arranged;
    ReadyFacts(m, s, v, ps, e);
    ghost var sel := GoneOut(Area(s, v.start, e));
    ArrangedCursors(v);
    label L:
    Sort(m, cur, s, v.start, e);
    SnapsKept@L(s);
    ghost var t := FadedRing(s, v.start, e, sel);
    FadedElements(s, v.start, e, sel);
    FromFirst(t);
    Inside(t, s);
    Inside(s, t);
    OwnChunksOf(s, t);
    Reread(m, t);
    SnapsKept@L(s);
    DecayedView(m, s, v, e, sel);
  }

  lemma FromFirst(t: seq<CyclicAtime>)
    requires Cycle(t)
    ensures t != [] && Distinct(t) && t[0] in t && From(t, t[0]) == t
  {
    assert t == [] + t;
    FromIs(t, [], t);
  }

  lemma FadedElements(s: seq<CyclicAtime>, st: nat, e: nat, sel: set<CyclicAtime>)
    requires 0 < st <= e <= |s|
    ensures var t := FadedRing(s, st, e, sel);
            && t != [] && t[0] == s[0] && |t| == |s| && Elements(t) == Elements(s) && (forall i :: 0 <= i < st ==> t[i] == s[i])
            && (Except(s[st..e], sel) != [] ==> Except(s[st..e], sel)[0] in t)
  {
    hide Only, Except;
    var k, v := Except(s[st..e], sel), Only(s[st..e], sel);
    OnlyElements(s[st..e], sel);
    assert s == s[..st] + s[st..e] + s[e..];
    ElementsConcat(s[..st] + s[st..e], s[e..]);
    ElementsConcat(s[..st], s[st..e]);
    ElementsConcat(s[..st] + v + k, s[e..]);
    ElementsConcat(s[..st] + v, k);
    ElementsConcat(s[..st], v);
    if k != [] {
      assert k[0] in Elements(k);
      assert k[0] in Elements(FadedRing(s, st, e, sel));
    }
  }

  /** The end of decay, without a gap: the next guesses are further on. */
  method SkipAll(m: CyclicManagedMemory, cur: CyclicAtime, ghost s: seq<CyclicAtime>, ghost v: Schedule, ghost ps: seq<nat>, ghost e: nat)
    requires Ready(m, s, v, ps, e) && NoGap(ps, v.start, e) && cur == At(s, e)
    modifies m`preemptiveStart, m`startAt
    ensures m.Valid() && m.ring == s && m.View() == Decayed(v, Snaps(s), e)
  {
    hide Snaps, Kept, Outs, Guessed, Cycle, OwnChunks, Decayed, NoGap, AllOut, Marked, Normal;
    AllGoneThere(s, v, Snaps(s), ps, e);
    FirstApart(s, e);
    m.preemptiveStart := if cur == m.active then null else cur;
    m.startAt := e;
    ViewIs(m, Decayed(v, Snaps(s), e));
  }

  lemma FirstApart(s: seq<CyclicAtime>, e: nat)
    requires Cycle(s) && 0 < e <= |s|
    ensures At(s, e) == s[0] <==> e == |s|
  {
  }

  lemma AllGoneThere(s: seq<CyclicAtime>, v: Schedule, w: seq<Entry>, ps: seq<nat>, e: nat)
    requires |w| == |s| && v.start <= e <= |w| && NoGap(ps, v.start, e) && AllOut(w, ps)
    ensures Kept(w[v.start..e]) == [] && Outs(w[v.start..e]) == w[v.start..e]
    ensures Decayed(v, w, e) == Schedule(w, v.counter, e, Guessed(w))
  {
    hide Kept, Outs, Guessed;
    var d := w[v.start..e];
    forall x | x in d
      ensures x.status.Out()
    {
      var i :| 0 <= i < |d| && d[i] == x;
      assert v.start + i in ps;
    }
    OutsAll(d);
    assert w == w[..v.start] + d + [] + w[e..];
  }

  function Min(a: nat, b: nat): nat { if a < b then a else b }

  /** Both passes and the swap's answers. */
  method OfferFading(m: CyclicManagedMemory, target: nat, limit: nat, answer: Answers)
      returns (cur: CyclicAtime, consecutive: bool, selected: nat, swapped: nat, ghost ps: seq<nat>, ghost e: nat)
    requires m.Valid() && m.ring != [] && m.startAt < |m.ring| && Normal(m.View()) && Weighted(Snaps(m.ring)) && target > 0
    modifies ChunksOf(m.ring)`status, ChunksOf(m.ring)`preemptiveLoaded
    ensures var v, s, w := old(m.View()), m.ring, Snaps(m.ring);
            && ps == Fading(v.ring, v.start, target, limit, 0) && e == FadeEnd(v.ring, v.start, target, limit, 0)
            && |w| == |v.ring| && Positions(v.ring, ps) && Offering(v, w, ps, e) && 0 < v.start < e <= |v.ring| == |s| && Arranged(v)
            && cur == At(s, e) && (consecutive <==> NoGap(ps, v.start, e))
            && selected == Bytes(v.ring, ps) && swapped <= selected && (swapped == selected <==> AllOut(w, ps))
            && Guessed(w) == Guessed(v.ring) - selected
  {
    hide Cycle, OwnChunks, Snaps, Fading, FadeEnd, Guessed, Bytes, OutBytes, Distinct, AllOut, NoGap, Weighted,
      Stripped, At, MarkedAt, OnlyStatus, Positions, Descending;
    ghost var v, s := m.View(), m.ring;
    m.Neighbours(0);
    StartInRing(m);
    ps, e := Fading(v.ring, v.start, target, limit, 0), FadeEnd(v.ring, v.start, target, limit, 0);
    FadingShape(v.ring, v.start, target, limit, 0);
    GuessesArranged(v);
    var chunks;
    cur, chunks, consecutive := CountFading(m.active, m.preemptiveStart, target, limit, s, v.start);
    var chunklist;
    chunklist, selected := ListFading(m.preemptiveStart, cur, target, limit, chunks, s, v.start, v.ring);
    ghost var mid := Snaps(s);
    StrippedIdle(v.ring, mid, ps);
    swapped := OfferToSwap(chunklist, answer, s, ps);
    ghost var w := Snaps(s);
    FadingOffered(v.ring, mid, w, ps);
  }

  lemma FadingOffered(es: seq<Entry>, mid: seq<Entry>, w: seq<Entry>, ps: seq<nat>)
    requires mid == Stripped(es, ps) && OnlyStatus(mid, w, ps) && Weighted(es) && Positions(es, ps) && Distinct(ps)
    requires forall p :: p in ps ==> p < |es| && es[p].preemptive
    ensures MarkedAt(es, w, ps) && |w| == |es| && Positions(w, ps) && OutBytes(w, ps) <= Bytes(es, ps)
    ensures OutBytes(w, ps) == Bytes(es, ps) <==> AllOut(w, ps)
    ensures Guessed(w) == Guessed(es) - Bytes(es, ps)
  {
    OfferedMarks(es, mid, w, ps);
    GuessedMarked(es, ps);
    MarkedSizes(es, w, ps);
    AllOrNothing(es, w, ps);
  }

  lemma GuessesArranged(v: Schedule)
    requires Normal(v) && v.start < |v.ring|
    ensures Arranged(v) && 0 < v.start && forall p :: v.start <= p < |v.ring| ==> v.ring[p].preemptive
  {
  }

  lemma MarkedSizes(es: seq<Entry>, w: seq<Entry>, ps: seq<nat>)
    requires MarkedAt(es, w, ps) && Weighted(es) && Positions(es, ps)
    ensures |w| == |es| && Weighted(w) && Positions(w, ps) && forall i :: 0 <= i < |w| ==> w[i].size == es[i].size
  {
  }

  lemma ReadyNow(m: CyclicManagedMemory, s: seq<CyclicAtime>, v: Schedule, ps: seq<nat>, e: nat)
    requires Cycle(s) && OwnChunks(s) && |s| == |v.ring| && Normal(v) && Arranged(v) && 0 < v.start < e <= |s|
    requires Offering(v, Snaps(s), ps, e) && AllOut(Snaps(s), ps) && m.preemptiveBytes == Guessed(Snaps(s))
    requires m.CursorsOk() && m.ring == s && s != [] && m.counterAt == v.counter && m.startAt == v.start
    ensures Ready(m, s, v, ps, e)
  {
  }

  /** Everything that was selected has gone out. */
  method DecayAll(m: CyclicManagedMemory, cur: CyclicAtime, consecutive: bool, ghost s: seq<CyclicAtime>, ghost v: Schedule,
                  ghost ps: seq<nat>, ghost e: nat)
    requires Ready(m, s, v, ps, e) && cur == At(s, e) && (consecutive <==> NoGap(ps, v.start, e))
    modifies m`preemptiveStart, m`ring, m`counterAt, m`startAt, Elements(s)`next, Elements(s)`prev
    ensures m.Valid() && (forall x :: x in m.ring <==> x in s) && v.start <= e <= |Snaps(s)|
    ensures Snaps(s) == old(Snaps(s))
    ensures m.View() == Decayed(v, Snaps(s), e) && Normal(m.View()) && Marked(v.ring, Snaps(s), SetOf(ps))
  {
    hide Cycle, OwnChunks, Snaps, Guessed, NoGap, At, Decayed, Marked, Normal;
    ReadyKeepsOrder(m, s, v, ps, e);
    label L:
    if !consecutive {
      SortGap(m, cur, s, v, ps, e);
    } else {
      SkipAll(m, cur, s, v, ps, e);
    }
    SnapsKept@L(s);
  }

  lemma ReadyKeepsOrder(m: CyclicManagedMemory, s: seq<CyclicAtime>, v: Schedule, ps: seq<nat>, e: nat)
    requires Ready(m, s, v, ps, e)
    ensures v.start <= e <= |Snaps(s)| && Marked(v.ring, Snaps(s), SetOf(ps)) && Normal(Decayed(v, Snaps(s), e))
  {
    hide Snaps, Guessed, Decayed, Distinct, Cycle, OwnChunks;
    OfferingMarked(v, Snaps(s), ps, e);
    DecayKeepsOrder(v, Snaps(s), SetOf(ps), e);
  }

  /** The bytes that have gone out are no guesses any more. */
  method DecaySelected(m: CyclicManagedMemory, cur: CyclicAtime, consecutive: bool, selected: nat,
                       ghost s: seq<CyclicAtime>, ghost v: Schedule, ghost ps: seq<nat>, ghost e: nat)
    requires Cycle(s) && OwnChunks(s) && |s| == |v.ring| && Normal(v) && Arranged(v) && 0 < v.start < e <= |s|
    requires Offering(v, Snaps(s), ps, e) && AllOut(Snaps(s), ps) && m.preemptiveBytes - selected == Guessed(Snaps(s))
    requires m.CursorsOk() && m.ring == s && s != [] && m.counterAt == v.counter && m.startAt == v.start
    requires cur == At(s, e) && (consecutive <==> NoGap(ps, v.start, e))
    modifies m`preemptiveBytes, m`preemptiveStart, m`ring, m`counterAt, m`startAt, Elements(s)`next, Elements(s)`prev
    ensures m.Valid() && (forall x :: x in m.ring <==> x in s) && v.start <= e <= |Snaps(s)|
    ensures Snaps(s) == old(Snaps(s))
    ensures m.View() == Decayed(v, Snaps(s), e) && Normal(m.View()) && Marked(v.ring, Snaps(s), SetOf(ps))
  {
    hide Cycle, OwnChunks, Snaps, Guessed, AllOut, NoGap, At, Ready, Decayed, Normal, Offering, Marked, Arranged, m.CursorsOk, m.Valid;
    m.preemptiveBytes := m.preemptiveBytes - selected;
    ReadyNow(m, s, v, ps, e);
    DecayAll(m, cur, consecutive, s, v, ps, e);
  }

  /** What was selected carries no flag any more; where the swap has refused some of it, it still stands among the guesses. */
  lemma ThrownDisorder(v: Schedule, w: seq<Entry>, ps: seq<nat>, e: nat)
    requires Normal(v) && v.start < |v.ring| && Offering(v, w, ps, e) && !AllOut(w, ps)
    ensures !Ordered(v.(ring := w)) && Marked(v.ring, w, SetOf(ps))
  {
    hide Guessed, Marked;
    OfferingMarked(v, w, ps, e);
    GuessesArranged(v);
    var p :| p in ps && p < |w| && !w[p].status.Out();
    assert w[p] == v.ring[p].(status := w[p].status, preemptive := false);
  }

  /** What decay takes the target and the limit of its selection to be. */
  function FadeTarget(bytes: nat, guessed: nat, swapFree: nat): nat { Min(guessed, Min(bytes, swapFree)) }

  function FadeLimit(guessed: nat, swapFree: nat): nat { Min(guessed, swapFree) }

  /** What decay leaves when there is something to select. */
  ghost predicate ShowsDecayed(m: CyclicManagedMemory, v: Schedule, w: seq<Entry>, ps: seq<nat>, e: nat, ok: bool)
    reads m, ChunksOf(m.ring)`status, ChunksOf(m.ring)`useCnt, ChunksOf(m.ring)`preemptiveLoaded
  {
    && v.start <= e <= |w| && Marked(v.ring, w, SetOf(ps)) && (ok <==> AllOut(w, ps))
    && m.View() == if ok then Decayed(v, w, e) else v.(ring := w)
  }

  lemma MakeDecayed(m: CyclicManagedMemory, v: Schedule, w: seq<Entry>, ps: seq<nat>, e: nat, ok: bool)
    requires v.start <= e <= |w| && Marked(v.ring, w, SetOf(ps)) && (ok <==> AllOut(w, ps))
    requires m.View() == if ok then Decayed(v, w, e) else v.(ring := w)
    ensures ShowsDecayed(m, v, w, ps, e, ok)
  {
  }

  /** Select, offer, sort. */
  method DecayGuesses(m: CyclicManagedMemory, target: nat, limit: nat, answer: Answers) returns (ok: bool, ghost ps: seq<nat>, ghost e: nat)
    requires m.Valid() && m.ring != [] && m.startAt < |m.ring| && Normal(m.View()) && Weighted(Snaps(m.ring)) && target > 0
    modifies m, Elements(m.ring)`next, Elements(m.ring)`prev, ChunksOf(m.ring)`status, ChunksOf(m.ring)`preemptiveLoaded
    ensures m.Valid() && (forall x :: x in m.ring <==> x in old(m.ring)) && (Normal(m.View()) <==> ok)
    ensures var v, w := old(m.View()), Snaps(old(m.ring));
            && ps == Fading(v.ring, v.start, target, limit, 0) && e == FadeEnd(v.ring, v.start, target, limit, 0)
            && ShowsDecayed(m, v, w, ps, e, ok)
  {
    hide Cycle, OwnChunks, Snaps, Fading, FadeEnd, Guessed, Bytes, Distinct, AllOut, NoGap, Weighted, At, Ready, Decayed, Normal,
      Offering, Marked, Arranged, Ordered, ShowsDecayed, m.CursorsOk;
    ghost var v, s := m.View(), m.ring;
    NormalBytes(v);
    m.Neighbours(0);
    label L:
    var cur, consecutive, selected, swapped;
    cur, consecutive, selected, swapped, ps, e := OfferFading(m, target, limit, answer);
    CycleKept@L(s);
    if swapped != selected {
      m.Assembled();
      ThrownDisorder(v, Snaps(s), ps, e);
      NotNormal(v.(ring := Snaps(s)));
      ok := false;
      assert m.View() == v.(ring := Snaps(s));
      MakeDecayed(m, v, Snaps(s), ps, e, ok);
    } else {
      ghost var w := Snaps(s);
      DecaySelected(m, cur, consecutive, selected, s, v, ps, e);
      ok := true;
      MakeDecayed(m, v, w, ps, e, ok);
    }
  }

  /** decay. It ends in an exception, here a false result, exactly if the swap refuses something of what was selected; and exactly
      then the order is lost. */
  method Decay(m: CyclicManagedMemory, bytes: nat, swapFree: nat, answer: Answers) returns (ok: bool, ghost ps: seq<nat>)
    requires m.Valid() && Normal(m.View()) && Weighted(Snaps(m.ring))
    modifies m, Elements(m.ring)`next, Elements(m.ring)`prev, ChunksOf(m.ring)`status, ChunksOf(m.ring)`preemptiveLoaded
    ensures m.Valid() && (forall x :: x in m.ring <==> x in old(m.ring))
    ensures Normal(m.View()) <==> ok
    ensures var v, w := old(m.View()), Snaps(old(m.ring));
            var target, limit := FadeTarget(bytes, Guessed(v.ring), swapFree), FadeLimit(Guessed(v.ring), swapFree);
            if v.start == |v.ring| || target == 0 then
              ps == [] && ok && m.View() == v
            else
              && ps == Fading(v.ring, v.start, target, limit, 0)
              && ShowsDecayed(m, v, w, ps, FadeEnd(v.ring, v.start, target, limit, 0), ok)
    ensures FadesFor(old(m.View()).ring, old(m.View()).start, ps, bytes, old(m.preemptiveBytes), swapFree)
  {
    hide Cycle, OwnChunks, Snaps, Fading, FadeEnd, Guessed, Weighted, Normal, ShowsDecayed, FadesFor;
    ghost var v := m.View();
    m.Parts();
    NormalBytes(v);
    StartOrEnd(m);
    ps := [];
    FadingFor(v.ring, v.start, bytes, v.bytes, swapFree);
    if m.preemptiveStart == null {
      NothingFades(v.ring, v.start, FadeTarget(bytes, v.bytes, swapFree), FadeLimit(v.bytes, swapFree));
      return true, [];
    }
    var swapleft := swapFree;
    var target := Min(m.preemptiveBytes, Min(bytes, swapleft));
    swapleft := Min(m.preemptiveBytes, swapleft);
    if target == 0 {
      NothingFades(v.ring, v.start, target, swapleft);
      return true, [];
    }
    ghost var e;
    ok, ps, e := DecayGuesses(m, target, swapleft, answer);
  }

  lemma NothingFades(d: seq<Entry>, start: nat, target: nat, limit: nat)
    requires start >= |d| || target == 0
    ensures Fading(d, start, target, limit, 0) == []
  {
  }

  lemma NotNormal(v: Schedule)
    requires !Ordered(v)
    ensures !Normal(v)
  {
  }

  /** There is no first guess exactly if the guesses begin at the end. */
  lemma StartOrEnd(m: CyclicManagedMemory)
    requires m.Valid()
    ensures m.preemptiveStart == null <==> m.startAt == |m.ring|
  {
  }
}
