/** Parental control: chunks form a tree by first-child and next-sibling ids, and are freed along it. */
module Family {

  /** managedMemory::invalid and managedMemory::root. */
  const INVALID := 0
  const ROOT := 1

  datatype Member = Member(parent: nat, child: nat, next: nat, inUse: bool)

  type Members = map<nat, Member>

  // ---------------------------------------------------------------- trees

  datatype Tree = Tree(id: nat, kids: seq<Tree>)

  /** Children before parents, elder siblings, which were inserted later, before younger ones. */
  ghost function Postorder(ts: seq<Tree>): seq<nat> {
    if ts == [] then [] else Postorder(ts[0].kids) + [ts[0].id] + Postorder(ts[1..])
  }

  ghost function Ids(ts: seq<Tree>): set<nat> {
    if ts == [] then {} else Ids(ts[0].kids) + {ts[0].id} + Ids(ts[1..])
  }

  /** No id occurs twice. */
  ghost predicate Unique(ts: seq<Tree>) {
    ts == [] ||
    (&& Unique(ts[0].kids) && Unique(ts[1..]) && Ids(ts[0].kids) !! Ids(ts[1..])
     && ts[0].id !in Ids(ts[0].kids) && ts[0].id !in Ids(ts[1..]))
  }

  /** The sibling list that begins with first holds the trees ts, children of parent. */
  ghost predicate Listed(m: Members, first: nat, ts: seq<Tree>, parent: nat)
    decreases ts
  {
    if ts == [] then first == INVALID
    else
      && first == ts[0].id != INVALID && first in m && m[first].parent == parent
      && Listed(m, m[first].child, ts[0].kids, first)
      && Listed(m, m[first].next, ts[1..], parent)
  }

  lemma {:induction false} PostorderIds(ts: seq<Tree>)
    ensures forall x :: x in Postorder(ts) <==> x in Ids(ts)
    decreases ts
  {
    if ts != [] {
      PostorderIds(ts[0].kids);
      PostorderIds(ts[1..]);
    }
  }

  /** Each id once, and no other: freeing in this order frees every chunk of the trees exactly once. */
  lemma {:induction false} PostorderOnce(ts: seq<Tree>)
    requires Unique(ts)
    ensures forall i, j :: 0 <= i < j < |Postorder(ts)| ==> Postorder(ts)[i] != Postorder(ts)[j]
    decreases ts
  {
    if ts != [] {
      var a, b := Postorder(ts[0].kids), Postorder(ts[1..]);
      PostorderOnce(ts[0].kids);
      PostorderOnce(ts[1..]);
      PostorderIds(ts[0].kids);
      PostorderIds(ts[1..]);
      var p := Postorder(ts);
      forall i, j | 0 <= i < j < |p|
        ensures p[i] != p[j]
      {
        if i < |a| { assert p[i] == a[i] && a[i] in a; }
        if j < |a| { assert p[j] == a[j]; }
        if i > |a| { assert p[i] == b[i - |a| - 1] && p[i] in b; }
        if j > |a| { assert p[j] == b[j - |a| - 1] && p[j] in b; }
      }
    }
  }

  /** What is listed only depends on the listed chunks. */
  lemma {:induction false} ListedKept(m: Members, m': Members, first: nat, ts: seq<Tree>, parent: nat)
    requires Listed(m, first, ts, parent) && forall x :: x in Ids(ts) ==> x in m && x in m' && m'[x] == m[x]
    ensures Listed(m', first, ts, parent)
    decreases ts
  {
    if ts != [] {
      ListedKept(m, m', m[first].child, ts[0].kids, first);
      ListedKept(m, m', m[first].next, ts[1..], parent);
    }
  }

  lemma {:induction false} ListedIds(m: Members, first: nat, ts: seq<Tree>, parent: nat)
    requires Listed(m, first, ts, parent)
    ensures Ids(ts) <= m.Keys && INVALID !in Ids(ts)
    decreases ts
  {
    if ts != [] {
      ListedIds(m, m[first].child, ts[0].kids, first);
      ListedIds(m, m[first].next, ts[1..], parent);
    }
  }

  /** The chunks ids are gone, and the sibling list of parent begins with first. */
  ghost function Cleared(m: Members, ids: set<nat>, parent: nat, first: nat): Members {
    var r := m - ids;
    if parent in r then r[parent := r[parent].(child := first)] else r
  }

  /** A whole sibling list whose chunks are not in use: the children of parent, or the root alone. */
  ghost predicate Freeable(m: Members, id: nat, ts: seq<Tree>, parent: nat) {
    && ts != [] && Listed(m, id, ts, parent) && Unique(ts) && (forall x :: x in Ids(ts) ==> x in m && !m[x].inUse)
    && parent !in Ids(ts)
    && if id == ROOT then |ts| == 1 && ROOT !in Ids(ts[0].kids) && parent !in m
       else ROOT !in Ids(ts) && parent in m && m[parent].child == id
  }

  lemma {:induction false} Joined(a: seq<Tree>, b: seq<Tree>)
    ensures Ids(a + b) == Ids(a) + Ids(b) && Postorder(a + b) == Postorder(a) + Postorder(b)
    ensures Unique(a + b) ==> Unique(a) && Unique(b) && Ids(a) !! Ids(b)
  {
    if a == [] {
      assert a + b == b;
    } else {
      assert (a + b)[1..] == a[1..] + b;
      Joined(a[1..], b);
      assert Postorder(a[0].kids) + [a[0].id] + (Postorder(a[1..]) + Postorder(b)) == Postorder(a) + Postorder(b);
    }
  }

  /** A later part of a sibling list. */
  lemma {:induction false} ListedTail(m: Members, first: nat, ts: seq<Tree>, parent: nat, i: nat)
    requires Listed(m, first, ts, parent) && i < |ts|
    ensures Listed(m, ts[i].id, ts[i..], parent)
    decreases i
  {
    if i > 0 {
      ListedTail(m, m[first].next, ts[1..], parent, i - 1);
      assert ts[1..][i - 1..] == ts[i..];
    }
  }

  /** The elder siblings of tree i are gone, and so is everything below it. */
  ghost function Emptied(m: Members, ts: seq<Tree>, i: nat, parent: nat): Members
    requires i < |ts|
  {
    Cleared(Cleared(m, Ids(ts[..i]), parent, ts[i].id), Ids(ts[i].kids), ts[i].id, INVALID)
  }

  lemma Around(ts: seq<Tree>, i: nat)
    requires i < |ts| && Unique(ts)
    ensures var a, k, x, b := Ids(ts[..i]), Ids(ts[i].kids), ts[i].id, Ids(ts[i + 1..]);
            && Ids(ts) == a + k + {x} + b && a !! k && a !! b && k !! b && x !in a && x !in k && x !in b
            && Ids(ts[i..]) == k + {x} + b && Ids(ts[..i + 1]) == a + k + {x} && Unique(ts[i].kids)
            && Postorder(ts[..i + 1]) == Postorder(ts[..i]) + Postorder(ts[i].kids) + [x]
  {
    hide Ids, Unique, Postorder;
    assert ts == ts[..i] + ts[i..];
    Joined(ts[..i], ts[i..]);
    HeadOf(ts[i..]);
    assert ts[i..][1..] == ts[i + 1..];
    assert ts[..i + 1] == ts[..i] + [ts[i]];
    Joined(ts[..i], [ts[i]]);
    OneTree(ts[i]);
    FourPieces(Ids(ts[..i]), Ids(ts[i].kids), ts[i].id, Ids(ts[i + 1..]));
  }

  lemma FourPieces(a: set<nat>, k: set<nat>, x: nat, b: set<nat>)
    ensures a + (k + {x} + b) == a + k + {x} + b && a + (k + {x}) == a + k + {x}
    ensures a !! k + {x} + b ==> a !! k && a !! b && x !in a
  {
  }

  lemma HeadOf(ts: seq<Tree>)
    requires ts != [] && Unique(ts)
    ensures Ids(ts) == Ids(ts[0].kids) + {ts[0].id} + Ids(ts[1..]) && Unique(ts[0].kids)
    ensures Ids(ts[0].kids) !! Ids(ts[1..]) && ts[0].id !in Ids(ts[0].kids) && ts[0].id !in Ids(ts[1..])
  {
  }

  lemma OneTree(t: Tree)
    ensures Ids([t]) == Ids(t.kids) + {t.id} && Postorder([t]) == Postorder(t.kids) + [t.id]
  {
    assert [t][1..] == [];
  }

  lemma BeginFreeing(m: Members, id: nat, ts: seq<Tree>, parent: nat)
    requires Freeable(m, id, ts, parent)
    ensures Cleared(m, Ids(ts[..0]), parent, id) == m && Postorder(ts[..0]) == [] && ts[0].id == id
  {
    assert ts[..0] == [];
    assert m - {} == m;
  }

  /** What the loop finds at tree i: its list of children can be freed, and then it can be freed itself. */
  lemma FreeingAt(m: Members, id: nat, ts: seq<Tree>, i: nat, parent: nat)
    requires Freeable(m, id, ts, parent) && i < |ts|
    ensures var x, s, e := ts[i].id, Cleared(m, Ids(ts[..i]), parent, ts[i].id), Emptied(m, ts, i, parent);
            && x in s && x in e && e[x] == s[x].(child := INVALID) && !e[x].inUse && e[x].parent == parent
            && (s[x].child == INVALID ==> ts[i].kids == [] && e == s)
            && (s[x].child != INVALID ==> Freeable(s, s[x].child, ts[i].kids, x))
            && s[x].next == (if i + 1 < |ts| then ts[i + 1].id else INVALID)
            && (i + 1 < |ts| ==> ts[i + 1].id != INVALID)
            && (x != ROOT ==> parent in e && e[parent].child == x)
  {
    var x, s := ts[i].id, Cleared(m, Ids(ts[..i]), parent, ts[i].id);
    Around(ts, i);
    ListedTail(m, id, ts, parent, i);
    ListedKept(m, s, x, ts[i..], parent);
    ListedIds(m, id, ts, parent);
    assert ts[i..][0] == ts[i] && ts[i..][1..] == ts[i + 1..];
    if ts[i].kids == [] {
      assert s - {} == s;
      assert s[x := s[x].(child := INVALID)] == s;
    }
  }

  /** Freeing tree i itself leaves the list as if it had begun with the next one. */
  lemma FreedOne(m: Members, id: nat, ts: seq<Tree>, i: nat, parent: nat)
    requires Freeable(m, id, ts, parent) && i < |ts|
    ensures var x, e := ts[i].id, Emptied(m, ts, i, parent);
            var next := if i + 1 < |ts| then ts[i + 1].id else INVALID;
            && x in e && (x != ROOT ==> parent in e)
            && (if x == ROOT then e - {x} else Detached(e, x, parent, [x], 0)) == Cleared(m, Ids(ts[..i + 1]), parent, next)
            && Postorder(ts[..i + 1]) == Postorder(ts[..i]) + Postorder(ts[i].kids) + [x]
  {
    hide Ids, Unique, Postorder, Listed;
    Around(ts, i);
    FreeingAt(m, id, ts, i, parent);
  }

  // ---------------------------------------------------------------- sibling lists as sequences of ids

  /** The sibling list that begins with first, by ids. */
  ghost predicate Siblings(m: Members, first: nat, ids: seq<nat>) {
    && first == (if ids == [] then INVALID else ids[0])
    && forall k: nat :: k < |ids| ==>
         ids[k] != INVALID && ids[k] in m && m[ids[k]].next == if k + 1 < |ids| then ids[k + 1] else INVALID
  }

  ghost predicate Distinct(s: seq<nat>) {
    forall i, j :: 0 <= i < j < |s| ==> s[i] != s[j]
  }

  ghost function Without(s: seq<nat>, i: nat): seq<nat>
    requires i < |s|
  {
    s[..i] + s[i + 1..]
  }

  datatype Freed = Done | InUse | HasChildren

  /** The chunk has left the list ids of its siblings; nothing else has changed. */
  ghost function Detached(m: Members, id: nat, parent: nat, ids: seq<nat>, k: nat): Members
    requires k < |ids| && ids[k] == id && id in m && parent in m && (k > 0 ==> ids[k - 1] in m)
  {
    (if k == 0 then m[parent := m[parent].(child := m[id].next)]
     else m[ids[k - 1] := m[ids[k - 1]].(next := m[id].next)]) - {id}
  }

  /** The others of the list remain, in their order. */
  lemma DetachedSiblings(m: Members, id: nat, parent: nat, ids: seq<nat>, k: nat)
    requires parent in m && Siblings(m, m[parent].child, ids) && Distinct(ids) && parent !in ids && k < |ids| && ids[k] == id
    ensures var m' := Detached(m, id, parent, ids, k);
            parent in m' && Siblings(m', m'[parent].child, Without(ids, k))
  {
    var m', r := Detached(m, id, parent, ids, k), Without(ids, k);
    assert forall j: nat :: j < |r| ==> r[j] == ids[if j < k then j else j + 1];
    forall j: nat | j < |r|
      ensures r[j] != INVALID && r[j] in m' && m'[r[j]].next == (if j + 1 < |r| then r[j + 1] else INVALID)
    {
      var i: nat := if j < k then j else j + 1;
      assert r[j] == ids[i] != id && ids[i] != parent;
      assert k > 0 && i != k - 1 ==> ids[i] != ids[k - 1];
      if j + 1 < |r| { assert r[j + 1] == ids[if j + 1 < k then j + 1 else j + 2]; }
      assert m[ids[k]].next == (if k + 1 < |ids| then ids[k + 1] else INVALID);
      assert m[ids[i]].next == (if i + 1 < |ids| then ids[i + 1] else INVALID);
      if k > 0 && i == k - 1 {
        assert m'[ids[i]].next == m[id].next;
      } else {
        assert m'[ids[i]] == m[ids[i]];
      }
    }
    assert r != [] ==> r[0] == ids[if 0 < k then 0 else 1];
    assert m[ids[k]].next == (if k + 1 < |ids| then ids[k + 1] else INVALID);
    assert m'[parent].child == if k == 0 then m[id].next else m[parent].child;
    assert m'[parent].child == if r == [] then INVALID else r[0];
    assert Siblings(m', m'[parent].child, r);
  }

  // ---------------------------------------------------------------- the manager's part

  class Family {
    var memChunks: Members

    /** The part of mmalloc that enters a new chunk into the tree, as the first child of parent. */
    method Enter(id: nat, parent: nat, ghost ts: seq<Tree>)
      requires id != INVALID && id !in memChunks && parent in memChunks && Listed(memChunks, memChunks[parent].child, ts, parent)
      requires parent !in Ids(ts)
      modifies this
      ensures parent in memChunks && Listed(memChunks, memChunks[parent].child, [Tree(id, [])] + ts, parent)
      ensures memChunks == old(memChunks)[id := Member(parent, INVALID, old(memChunks[parent].child), false)]
                                         [parent := old(memChunks[parent]).(child := id)]
    {
      ghost var m := memChunks;
      ListedIds(m, m[parent].child, ts, parent);
      memChunks := memChunks[id := Member(parent, INVALID, memChunks[parent].child, false)];
      memChunks := memChunks[parent := memChunks[parent].(child := id)];
      ListedKept(m, memChunks, m[parent].child, ts, parent);
      assert ([Tree(id, [])] + ts)[1..] == ts;
    }

    /** The part of mfree that takes a chunk out of the tree: it is refused if the chunk is in use or has children. */
    method Mfree(id: nat, ghost ids: seq<nat>, ghost k: nat) returns (res: Freed)
      requires id in memChunks
      requires var p := memChunks[id].parent;
               id != ROOT ==>
                 && p in memChunks && k < |ids| && ids[k] == id
                 && if memChunks[p].child == id then k == 0
                    else Siblings(memChunks, memChunks[p].child, ids) && Distinct(ids)
      modifies this
      ensures res == if old(memChunks[id]).inUse then InUse else if old(memChunks[id]).child != INVALID then HasChildren else Done
      ensures !res.Done? ==> memChunks == old(memChunks)
      ensures res.Done? ==> (k > 0 && id != ROOT ==> ids[k - 1] in old(memChunks))
                            && memChunks == if id == ROOT then old(memChunks) - {id}
                                            else Detached(old(memChunks), id, old(memChunks[id]).parent, ids, k)
    {
      var chunk := memChunks[id];
      if chunk.inUse {
        return InUse;
      }
      if chunk.child != INVALID {
        return HasChildren;
      }
      if id != ROOT {
        if memChunks[chunk.parent].child == id {
          memChunks := memChunks[chunk.parent := memChunks[chunk.parent].(child := chunk.next)];
        } else {
          var sibling := memChunks[chunk.parent].child;
          ghost var j: nat := 0;
          assert memChunks[chunk.parent].child == ids[0] && k > 0;
          while memChunks[sibling].next != id
            invariant 0 <= j < k && sibling == ids[j] && memChunks == old(memChunks)
            decreases k - j
          {
            assert memChunks[ids[j]].next == ids[j + 1] && j + 1 != k;
            sibling := memChunks[sibling].next;
            j := j + 1;
          }
          assert memChunks[ids[j]].next == ids[j + 1] == ids[k];
          assert j + 1 == k;
          memChunks := memChunks[sibling := memChunks[sibling].(next := chunk.next)];
        }
      }
      memChunks := memChunks - {id};
      return Done;
    }

    /** recursiveMfree: free the whole sibling list that begins with id, children first. */
    method RecursiveMfree(id: nat, ghost ts: seq<Tree>, ghost parent: nat) returns (ok: bool, ghost freed: seq<nat>)
      requires Freeable(memChunks, id, ts, parent)
      modifies this
      ensures ok && freed == Postorder(ts)
      ensures memChunks == Cleared(old(memChunks), Ids(ts), parent, INVALID)
      decreases ts
    {
      ok, freed := true, [];
      var oldchunk, more := id, true;
      ghost var m, i: nat := memChunks, 0;
      BeginFreeing(m, id, ts, parent);
      while more
        invariant ok && i < |ts| && oldchunk == ts[i].id && (!more ==> i + 1 == |ts|)
        invariant freed == Postorder(ts[..i]) + if more then [] else Postorder(ts[i].kids)
        invariant memChunks == if more then Cleared(m, Ids(ts[..i]), parent, oldchunk) else Emptied(m, ts, i, parent)
        decreases |ts| - i, more
      {
        FreeingAt(m, id, ts, i, parent);
        if memChunks[oldchunk].child != INVALID {
          var all;
          ghost var below;
          all, below := RecursiveMfree(memChunks[oldchunk].child, ts[i].kids, oldchunk);
          ok, freed := ok && all, freed + below;
        }
        if memChunks[oldchunk].next != INVALID {
          var next := memChunks[oldchunk].next;
          var res := Mfree(oldchunk, [oldchunk], 0);
          FreedOne(m, id, ts, i, parent);
          ok, freed := ok && res.Done?, freed + [oldchunk];
          oldchunk, i := next, i + 1;
        } else {
          more := false;
        }
      }
      FreeingAt(m, id, ts, i, parent);
      var res := Mfree(oldchunk, [oldchunk], 0);
      FreedOne(m, id, ts, i, parent);
      ok, freed := ok && res.Done?, freed + [oldchunk];
      assert ts[..i + 1] == ts;
    }

    /** The manager's destructor frees everything, if nothing is in use. */
    method Destroy(ghost tree: Tree) returns (ok: bool, ghost freed: seq<nat>)
      requires Freeable(memChunks, ROOT, [tree], INVALID) && Ids([tree]) == memChunks.Keys
      modifies this
      ensures ok && memChunks == map[] && freed == Postorder([tree])
    {
      ok, freed := RecursiveMfree(ROOT, [tree], INVALID);
    }
  }
}
