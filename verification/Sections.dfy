/**
 The order that the cyclic scheduler keeps: read from active along next, first the chunks that are worked
 with, ending at counterActive, then the chunks that are swapped out, then the chunks that were loaded on a
 guess, beginning at preemptiveStart.
 */
module Sections {
  import opened ChunkStatus

  datatype Entry = Entry(id: nat, status: MemoryStatus, size: nat, useCnt: nat, preemptive: bool)

  /** The ring read from active; where in it counterActive is; where preemptiveStart is, or the length of the
      ring if that is null; and preemptiveBytes. */
  datatype Schedule = Schedule(ring: seq<Entry>, counter: nat, start: nat, bytes: int)

  predicate Working(e: Entry) { !e.status.Out() && !e.preemptive }
  predicate Gone(e: Entry) { e.status.Out() && !e.preemptive }
  predicate Guess(e: Entry) { !e.status.Out() && e.preemptive }

  /** The three sections, the first one not empty. */
  ghost predicate Arranged(v: Schedule) {
    && v.counter < v.start <= |v.ring|
    && (forall k :: 0 <= k <= v.counter ==> Working(v.ring[k]))
    && (forall k :: v.counter < k < v.start ==> Gone(v.ring[k]))
    && (forall k :: v.start <= k < |v.ring| ==> Guess(v.ring[k]))
  }

  /** Nothing is in RAM: then active and counterActive coincide. */
  ghost predicate AllGone(v: Schedule) {
    && v.ring != [] && v.counter == 0 && v.start == |v.ring|
    && forall k :: 0 <= k < |v.ring| ==> Gone(v.ring[k])
  }

  /** Total size of the chunks that carry the preemptive flag. */
  ghost function Guessed(s: seq<Entry>): nat {
    if s == [] then 0 else Guessed(s[..|s| - 1]) + if s[|s| - 1].preemptive then s[|s| - 1].size else 0
  }

  ghost predicate Ordered(v: Schedule) {
    if v.ring == [] then v.counter == 0 && v.start == 0 else Arranged(v) || AllGone(v)
  }

  ghost predicate Normal(v: Schedule) {
    Ordered(v) && v.bytes == Guessed(v.ring)
  }

  lemma {:induction false} GuessedConcat(a: seq<Entry>, b: seq<Entry>)
    ensures Guessed(a + b) == Guessed(a) + Guessed(b)
  {
    if b == [] {
      assert a + b == a;
    } else {
      assert (a + b)[..|a + b| - 1] == a + b[..|b| - 1];
      GuessedConcat(a, b[..|b| - 1]);
    }
  }

  lemma GuessedOne(e: Entry)
    ensures Guessed([e]) == if e.preemptive then e.size else 0
  {
    assert [e][..0] == [];
  }

  // ---------------------------------------------------------------- schedulerRegister

  /** A new element goes in front. */
  ghost function Registered(v: Schedule, e: Entry): Schedule {
    Schedule([e] + v.ring,
             if v.ring == [] || (v.counter == 0 && v.ring[0].status.Out()) then 0 else v.counter + 1,
             v.start + 1, v.bytes)
  }

  lemma RegisterKeepsOrder(v: Schedule, e: Entry)
    requires Normal(v) && Working(e)
    ensures Normal(Registered(v, e))
  {
    GuessedConcat([e], v.ring);
    GuessedOne(e);
  }

  // ---------------------------------------------------------------- schedulerDelete

  ghost function Without<T>(s: seq<T>, i: nat): seq<T>
    requires i < |s|
  {
    s[..i] + s[i + 1..]
  }

  /** Element i carries the flag no longer. */
  ghost function Unflagged(v: Schedule, i: nat): Schedule
    requires i < |v.ring|
  {
    v.(ring := v.ring[i := v.ring[i].(preemptive := false)],
       bytes := if v.ring[i].preemptive then v.bytes - v.ring[i].size else v.bytes)
  }

  /** The guesses begin after element i if they began with it. */
  ghost function StartAfter(v: Schedule, i: nat): Schedule {
    v.(start := if v.start == i then i + 1 else v.start)
  }

  ghost function Removed(v: Schedule, i: nat): Schedule
    requires i < |v.ring|
  {
    Schedule(Without(v.ring, i),
             if |v.ring| == 1 then 0
             else if v.counter == i then (if i == 0 then |v.ring| - 2 else i - 1)
             else if v.counter > i then v.counter - 1 else v.counter,
             if v.start > i then v.start - 1 else v.start, v.bytes)
  }

  ghost function Deleted(v: Schedule, i: nat): Schedule
    requires i < |v.ring|
  {
    Removed(StartAfter(if v.ring[i].status.Out() then v else Unflagged(v, i), i), i)
  }

  lemma DeletedIs(v: Schedule, i: nat)
    requires i < |v.ring|
    ensures var e := v.ring[i];
            Deleted(v, i) == Schedule(Without(v.ring, i), Removed(v, i).counter, if v.start > i then v.start - 1 else v.start,
                                      if !e.status.Out() && e.preemptive then v.bytes - e.size else v.bytes)
  {
    assert Without(v.ring[i := v.ring[i].(preemptive := false)], i) == Without(v.ring, i);
  }

  lemma GuessedWithout(s: seq<Entry>, i: nat)
    requires i < |s|
    ensures Guessed(Without(s, i)) == Guessed(s) - (if s[i].preemptive then s[i].size else 0)
  {
    hide Guessed;
    assert s == s[..i] + ([s[i]] + s[i + 1..]);
    GuessedConcat(s[..i], [s[i]] + s[i + 1..]);
    GuessedConcat([s[i]], s[i + 1..]);
    GuessedOne(s[i]);
    GuessedConcat(s[..i], s[i + 1..]);
  }

  lemma DeletedAt(v: Schedule, i: nat)
    requires i < |v.ring|
    ensures var t := Deleted(v, i);
            && |t.ring| == |v.ring| - 1
            && (forall k :: 0 <= k < i ==> t.ring[k] == v.ring[k])
            && (forall k :: i <= k < |t.ring| ==> t.ring[k] == v.ring[k + 1])
            && t.counter == Removed(v, i).counter && t.start == (if v.start > i then v.start - 1 else v.start)
  {
    DeletedIs(v, i);
  }

  /** The only element of the first section goes, and others are left. */
  ghost predicate LosesSection(v: Schedule, i: nat) {
    i == 0 && v.counter == 0 && (|v.ring| > 2 || (|v.ring| == 2 && v.ring[1].preemptive))
  }

  lemma GuessedSet(s: seq<Entry>, i: nat, e: Entry)
    requires i < |s|
    ensures Guessed(s[i := e]) == Guessed(s) - (if s[i].preemptive then s[i].size else 0) + if e.preemptive then e.size else 0
  {
    GuessedWithout(s, i);
    GuessedWithout(s[i := e], i);
    assert Without(s[i := e], i) == Without(s, i);
  }

  lemma DeletedBytes(v: Schedule, i: nat)
    requires Normal(v) && i < |v.ring|
    ensures Deleted(v, i).bytes == Guessed(Deleted(v, i).ring)
  {
    hide Guessed, Without;
    GuessedWithout(v.ring, i);
    DeletedIs(v, i);
    assert v.ring[i].preemptive ==> !v.ring[i].status.Out();
  }

  lemma DeletedDisorder(v: Schedule, i: nat)
    requires Ordered(v) && i < |v.ring| && LosesSection(v, i)
    ensures !Ordered(Deleted(v, i))
  {
    hide Guessed, Without, Deleted;
    var t := Deleted(v, i);
    DeletedAt(v, i);
    assert t.ring[0] == v.ring[1] && t.counter == |t.ring| - 1;
    assert !Working(v.ring[1]) by {
      assert v.ring[1].preemptive || v.ring[1].status.Out();
    }
  }

  lemma DeletedGone(v: Schedule, i: nat)
    requires AllGone(v) && i < |v.ring| && !LosesSection(v, i)
    ensures Ordered(Deleted(v, i))
  {
    hide Guessed, Without, Deleted;
    var t := Deleted(v, i);
    DeletedAt(v, i);
    forall k | 0 <= k < |t.ring|
      ensures Gone(t.ring[k])
    {
      assert t.ring[k] == v.ring[if k < i then k else k + 1];
    }
  }

  /** Deleting keeps the order, unless it takes the only element of the first section away from others: then
      active moves on to a section that is not its own and counterActive goes to the other end. */
  lemma DeleteKeepsOrder(v: Schedule, i: nat)
    requires Normal(v) && i < |v.ring|
    ensures Normal(Deleted(v, i)) <==> !LosesSection(v, i)
  {
    hide Guessed, Without, Deleted, Arranged, AllGone, LosesSection;
    DeletedBytes(v, i);
    if LosesSection(v, i) {
      DeletedDisorder(v, i);
    } else if Arranged(v) {
      DeletedAt(v, i);
      DeletedArranged(v, Deleted(v, i), i);
    } else {
      DeletedGone(v, i);
    }
  }

  lemma DeletedArranged(v: Schedule, t: Schedule, i: nat)
    requires Arranged(v) && i < |v.ring| && !LosesSection(v, i) && |t.ring| == |v.ring| - 1
    requires forall k :: 0 <= k < i ==> t.ring[k] == v.ring[k]
    requires forall k :: i <= k < |t.ring| ==> t.ring[k] == v.ring[k + 1]
    requires t.counter == Removed(v, i).counter && t.start == if v.start > i then v.start - 1 else v.start
    ensures Ordered(t)
  {
    if i == 0 && v.counter == 0 {
      assert |t.ring| == 1 ==> t.ring[0] == v.ring[1];
    } else {
      forall k | 0 <= k < |t.ring|
        ensures if k <= t.counter then Working(t.ring[k]) else if k < t.start then Gone(t.ring[k]) else Guess(t.ring[k])
      {
        assert t.ring[k] == v.ring[if k < i then k else k + 1];
      }
    }
  }

  // ---------------------------------------------------------------- touch

  /** An element goes to the front. */
  ghost function MovedFirst(v: Schedule, i: nat): Schedule
    requires i < |v.ring|
  {
    if i == 0 then v
    else
      var counter := if v.counter == i then i - 1 else v.counter;
      Schedule([v.ring[i]] + Without(v.ring, i), if counter < i then counter + 1 else counter,
               if v.start < i then v.start + 1 else v.start, v.bytes)
  }

  ghost function Touched(v: Schedule, i: nat): Schedule
    requires i < |v.ring|
  {
    MovedFirst(StartAfter(Unflagged(v, i), i), i)
  }

  lemma GuessedTouched(v: Schedule, i: nat)
    requires i < |v.ring|
    ensures Guessed(Touched(v, i).ring) == Guessed(v.ring) - (if v.ring[i].preemptive then v.ring[i].size else 0)
    ensures Touched(v, i).ring == [v.ring[i].(preemptive := false)] + Without(v.ring, i)
  {
    var e := v.ring[i].(preemptive := false);
    assert Without(v.ring[i := e], i) == Without(v.ring, i);
    assert i == 0 ==> v.ring[0 := e] == [e] + Without(v.ring, 0);
    GuessedWithout(v.ring, i);
    GuessedConcat([e], Without(v.ring, i));
    GuessedOne(e);
  }

  /** Where everything is after a touch. */
  lemma TouchedAt(v: Schedule, i: nat)
    requires i < |v.ring|
    ensures var t := Touched(v, i);
            && |t.ring| == |v.ring| && t.ring[0] == v.ring[i].(preemptive := false)
            && (forall k :: 1 <= k <= i ==> t.ring[k] == v.ring[k - 1])
            && (forall k :: i < k < |v.ring| ==> t.ring[k] == v.ring[k])
  {
  }

  /** Touching any chunk that is in RAM keeps the order, whichever section it comes from. */
  lemma TouchKeepsOrder(v: Schedule, i: nat)
    requires Normal(v) && i < |v.ring| && !v.ring[i].status.Out()
    ensures Normal(Touched(v, i))
  {
    var t := Touched(v, i);
    GuessedTouched(v, i);
    TouchedAt(v, i);
    TouchedCursors(v, i);
    hide Touched, Guessed;
    forall k | 0 <= k < |t.ring|
      ensures if k <= t.counter then Working(t.ring[k]) else if k < t.start then Gone(t.ring[k]) else Guess(t.ring[k])
    {
      if 1 <= k <= i { assert t.ring[k] == v.ring[k - 1]; }
      if i < k { assert t.ring[k] == v.ring[k]; }
    }
  }

  lemma TouchedCursors(v: Schedule, i: nat)
    requires Arranged(v) && i < |v.ring| && (i <= v.counter || v.start <= i)
    ensures var t := Touched(v, i);
            if i <= v.counter then t.counter == v.counter && t.start == v.start
            else t.counter == v.counter + 1 && t.start == v.start + 1
  {
  }

  // ---------------------------------------------------------------- swapIn of one chunk alone

  /** counterActive goes to active if it stands on a swapped chunk. */
  ghost function Followed(t: Schedule): Schedule {
    if t.counter < |t.ring| && t.ring[t.counter].status.Swapped? then t.(counter := 0) else t
  }

  /** The chunk is being loaded and is touched, and counterActive follows. */
  ghost function LoadedAlone(v: Schedule, i: nat, status: MemoryStatus): Schedule
    requires i < |v.ring| && v.counter < |v.ring|
  {
    Followed(Touched(v.(ring := v.ring[i := v.ring[i].(status := status)]), i))
  }

  lemma LoadedCursors(v: Schedule, i: nat, status: MemoryStatus)
    requires (Arranged(v) || AllGone(v)) && i < |v.ring| && v.ring[i].status.Swapped? && !status.Out()
    requires v.counter < |v.ring|
    ensures var r := LoadedAlone(v, i, status);
            && r.ring == Touched(v.(ring := v.ring[i := v.ring[i].(status := status)]), i).ring
            && if Arranged(v) then r.counter == v.counter + 1 && r.start == v.start
               else r.start == |v.ring| && r.counter == if i > 0 && !v.ring[0].status.Swapped? then 1 else 0
  {
  }

  /** Loading one swapped chunk keeps the order, except from a state where nothing is in RAM, another chunk is
      active, and that one is still on its way out: the code only looks for MEM_SWAPPED there. */
  lemma LoadKeepsOrder(v: Schedule, i: nat, status: MemoryStatus)
    requires Normal(v) && i < |v.ring| && v.ring[i].status.Swapped? && !status.Out()
    ensures Normal(LoadedAlone(v, i, status)) <==> !(AllGone(v) && i > 0 && v.ring[0].status.SwapOut?)
  {
    hide Touched, Guessed, LoadedAlone;
    var w := v.(ring := v.ring[i := v.ring[i].(status := status)]);
    var r := LoadedAlone(v, i, status);
    LoadedBytes(v, i, status);
    TouchedAt(w, i);
    LoadedCursors(v, i, status);
    if Arranged(v) {
      LoadedArranged(v, w, r, i);
    } else if i > 0 {
      assert r.ring[1] == v.ring[0];
    }
  }

  lemma LoadedArranged(v: Schedule, w: Schedule, t: Schedule, i: nat)
    requires Arranged(v) && v.counter < i < v.start && |t.ring| == |v.ring| && Working(t.ring[0])
    requires |w.ring| == |v.ring| && w.ring == v.ring[i := w.ring[i]]
    requires t.counter == v.counter + 1 && t.start == v.start
    requires forall k :: 1 <= k <= i ==> t.ring[k] == w.ring[k - 1]
    requires forall k :: i < k < |v.ring| ==> t.ring[k] == w.ring[k]
    ensures Arranged(t)
  {
    forall k | 0 <= k < |t.ring|
      ensures if k <= t.counter then Working(t.ring[k]) else if k < t.start then Gone(t.ring[k]) else Guess(t.ring[k])
    {
      if 1 <= k <= i { assert t.ring[k] == w.ring[k - 1] == v.ring[k - 1]; }
      if i < k { assert t.ring[k] == w.ring[k] == v.ring[k]; }
    }
  }

  lemma LoadedBytes(v: Schedule, i: nat, status: MemoryStatus)
    requires Normal(v) && i < |v.ring| && v.ring[i].status.Swapped? && !status.Out() && v.counter < |v.ring|
    ensures var r := LoadedAlone(v, i, status); r.bytes == Guessed(r.ring)
  {
    var w := v.(ring := v.ring[i := v.ring[i].(status := status)]);
    GuessedTouched(w, i);
    GuessedWithout(v.ring, i);
    GuessedWithout(w.ring, i);
    assert Without(w.ring, i) == Without(v.ring, i);
    assert !v.ring[i].preemptive;
  }
}
