/** Which chunk owns which parts of the swap files. */
module Ownership {
  import opened Totals
  import opened PageSpace
  import opened PageChains

  type Chains = map<nat, seq<nat>>

  ghost predicate Owned(own: Chains, k: nat) {
    exists id :: id in own && k in own[id]
  }

  /** The blocks in use are divided among the chunks: no block is lost, none is shared. */
  ghost predicate Partition(u: Parts, own: Chains) {
    && (forall id :: id in own ==> IsChain(u, own[id], id))
    && (forall k: nat {:trigger Owned(own, k)} :: k in u ==> Owned(own, k))
    && (forall i, j, k: nat {:trigger k in own[i], k in own[j]} ::
          i in own && j in own && k in own[i] && k in own[j] ==> i == j)
  }

  lemma ChainInside(u: Parts, own: Chains, id: nat)
    requires Partition(u, own) && id in own
    ensures Offsets(own[id]) <= u.Keys && Ascending(own[id])
  {
    ChainAscends(u, own[id], id);
  }

  /** A chain that was there before has been kept, and is apart from the new one. */
  lemma ChainBeside(u: Parts, u': Parts, own: Chains, ks: seq<nat>, n: nat, id: nat, i: nat)
    requires Partition(u, own) && i in own && Stored(u, u', ks, n, id)
    ensures IsChain(u', own[i], i) && forall k: nat :: k in own[i] ==> k !in ks
  {
    ChainInside(u, own, i);
    forall k: nat | k in own[i]
      ensures k in u && k in u' && u[k] == u'[k] && k !in ks
    {
      assert k in Offsets(own[i]);
      assert k in u' - Offsets(ks);
    }
    ChainKept(u, u', own[i], i);
  }

  lemma OwnedAdd(u: Parts, u': Parts, own: Chains, ks: seq<nat>, n: nat, id: nat, k: nat)
    requires Partition(u, own) && id !in own && Stored(u, u', ks, n, id) && k in u'
    ensures Owned(own[id := ks], k)
  {
    var own' := own[id := ks];
    if k in ks {
      assert id in own' && k in own'[id];
    } else {
      assert k in u' - Offsets(ks);
      assert Owned(own, k);
      var i :| i in own && k in own[i];
      assert i in own' && k in own'[i];
    }
  }

  lemma PartitionAdd(u: Parts, u': Parts, own: Chains, ks: seq<nat>, n: nat, id: nat)
    requires Partition(u, own) && id !in own && Stored(u, u', ks, n, id)
    ensures Partition(u', own[id := ks])
  {
    hide IsChain, ChainSize;
    var own' := own[id := ks];
    forall i | i in own
      ensures IsChain(u', own[i], i) && forall k: nat :: k in own[i] ==> k !in ks
    {
      ChainBeside(u, u', own, ks, n, id, i);
    }
    forall k: nat | k in u'
      ensures Owned(own', k)
    {
      OwnedAdd(u, u', own, ks, n, id, k);
    }
  }

  lemma PartitionDrop(u: Parts, u': Parts, own: Chains, id: nat)
    requires Partition(u, own) && id in own && u' == u - Offsets(own[id])
    ensures Partition(u', own - {id})
  {
    var own' := own - {id};
    forall i | i in own'
      ensures IsChain(u', own'[i], i)
    {
      ChainInside(u, own, i);
      forall k: nat | k in own[i]
        ensures k in u && k in u' && u[k] == u'[k]
      {
        assert k in Offsets(own[i]);
      }
      ChainKept(u, u', own[i], i);
    }
    forall k: nat | k in u'
      ensures Owned(own', k)
    {
      assert Owned(own, k);
      var i :| i in own && k in own[i];
      assert i in own' && k in own'[i];
    }
  }

  ghost function DataSize(b: Block): nat { b.size }

  lemma {:induction false} ChainTotals(u: Parts, ks: seq<nat>)
    requires Offsets(ks) <= u.Keys && Ascending(ks)
    ensures Total(u, DataSize) == Total(u - Offsets(ks), DataSize) + ChainSize(u, ks)
    ensures Total(u, Extent) == Total(u - Offsets(ks), Extent) + ChainSize(u, ks) + Overhead(u, ks)
  {
    if ks == [] {
      assert u - Offsets(ks) == u;
    } else {
      var k, rest, v := ks[0], ks[1..], u - {ks[0]};
      TotalSplit(u, DataSize, k);
      TotalSplit(u, Extent, k);
      forall j: nat | j in rest
        ensures j in u && j in v && u[j] == v[j]
      {
        var i :| 0 <= i < |rest| && rest[i] == j;
        assert ks[0] < ks[i + 1];
      }
      ChainSizeKept(u, v, rest);
      ChainTotals(v, rest);
      assert Offsets(ks) == {k} + Offsets(rest);
      RemovalsCommute(u, {k}, Offsets(rest));
    }
  }
}
