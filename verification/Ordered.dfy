/** Stepping through the keys of an ordered map. */
module Ordered {

  predicate IsLeast(keys: set<nat>, m: nat) {
    m in keys && forall k :: k in keys ==> m <= k
  }

  predicate IsGreatest(keys: set<nat>, m: nat) {
    m in keys && forall k :: k in keys ==> k <= m
  }

  function Above(keys: set<nat>, x: int): set<nat> {
    set k | k in keys && x < k
  }

  function Under(keys: set<nat>, x: int): set<nat> {
    set k | k in keys && k < x
  }

  lemma {:induction false} LeastExists(keys: set<nat>)
    requires keys != {}
    ensures exists m: nat :: IsLeast(keys, m)
    decreases keys
  {
    var m: nat :| m in keys;
    var under := Under(keys, m);
    if under == {} {
      assert forall k :: k in keys ==> k !in under;
      assert IsLeast(keys, m);
    } else {
      assert under < keys by { assert m !in under; }
      LeastExists(under);
      var h: nat :| IsLeast(under, h);
      assert forall k :: k in keys && k < m ==> k in under;
      assert IsLeast(keys, h);
    }
  }

  lemma {:induction false} GreatestExists(keys: set<nat>)
    requires keys != {}
    ensures exists m: nat :: IsGreatest(keys, m)
    decreases keys
  {
    var m: nat :| m in keys;
    var above := Above(keys, m);
    if above == {} {
      assert forall k :: k in keys ==> k !in above;
      assert IsGreatest(keys, m);
    } else {
      assert above < keys by { assert m !in above; }
      GreatestExists(above);
      var h: nat :| IsGreatest(above, h);
      assert forall k :: k in keys && m < k ==> k in above;
      assert IsGreatest(keys, h);
    }
  }

  ghost function Least(keys: set<nat>): (m: nat)
    requires keys != {}
    ensures IsLeast(keys, m)
  {
    LeastExists(keys);
    var m: nat :| IsLeast(keys, m);
    m
  }

  /** ++it, or begin() for x == -1. */
  method After(keys: set<nat>, x: int) returns (found: bool, next: nat)
    ensures found <==> Above(keys, x) != {}
    ensures found ==> IsLeast(Above(keys, x), next)
  {
    var above := Above(keys, x);
    found, next := above != {}, 0;
    if found {
      LeastExists(above);
      next :| IsLeast(above, next);
    }
  }

  /** --it. */
  method Before(keys: set<nat>, x: int) returns (found: bool, prev: nat)
    ensures found <==> Under(keys, x) != {}
    ensures found ==> IsGreatest(Under(keys, x), prev)
  {
    var under := Under(keys, x);
    found, prev := under != {}, 0;
    if found {
      GreatestExists(under);
      prev :| IsGreatest(under, prev);
    }
  }

  /** Walking upwards comes to an end. */
  lemma FewerAbove(keys: set<nat>, x: int, y: nat)
    ensures x < y && y in keys ==> |Above(keys, y)| < |Above(keys, x)|
  {
    if x < y && y in keys {
      assert Above(keys, y) < Above(keys, x) by {
        assert y in Above(keys, x) && y !in Above(keys, y);
      }
      ProperSubsetSize(Above(keys, y), Above(keys, x));
    }
  }

  lemma ProperSubsetSize(a: set<nat>, b: set<nat>)
    requires a < b
    ensures |a| < |b|
  {
    var rest := b - a;
    assert b == a + rest;
    assert |b| == |a| + |rest|;
  }
}
