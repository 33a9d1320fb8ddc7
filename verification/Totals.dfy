/** Sums over the values of a finite map: the byte counters of the program are sums of this kind. */
module Totals {

  /** The sum of f over the values of m. */
  ghost function Total<T>(m: map<nat, T>, f: T -> nat): nat
    decreases |m|
  {
    if m == map[] then 0
    else
      var k :| k in m;
      f(m[k]) + Total(m - {k}, f)
  }

  /** Any key may be split off, not just the one the definition picks. */
  lemma {:induction false} TotalSplit<T>(m: map<nat, T>, f: T -> nat, k: nat)
    requires k in m
    ensures Total(m, f) == f(m[k]) + Total(m - {k}, f)
    decreases |m|
  {
    var j :| j in m && Total(m, f) == f(m[j]) + Total(m - {j}, f);
    if j != k {
      TotalSplit(m - {j}, f, k);
      TotalSplit(m - {k}, f, j);
      assert m - {j} - {k} == m - {k} - {j};
    }
  }

  /** Storing one value changes the sum by the difference of the weights. */
  lemma TotalUpdate<T>(m: map<nat, T>, f: T -> nat, k: nat, v: T)
    ensures Total(m[k := v], f) == Total(m, f) - (if k in m then f(m[k]) else 0) + f(v)
  {
    TotalSplit(m[k := v], f, k);
    if k in m {
      TotalSplit(m, f, k);
      assert m[k := v] - {k} == m - {k};
    } else {
      assert m[k := v] - {k} == m;
    }
  }

  /** A sum is zero exactly when every weight is. */
  lemma {:induction false} TotalZero<T>(m: map<nat, T>, f: T -> nat)
    ensures Total(m, f) == 0 <==> forall k :: k in m ==> f(m[k]) == 0
    decreases |m|
  {
    if m != map[] {
      var j :| j in m && Total(m, f) == f(m[j]) + Total(m - {j}, f);
      TotalZero(m - {j}, f);
      assert forall k :: k in m ==> k == j || k in m - {j};
    }
  }

  /** Two weights that agree on the values of m give the same sum. */
  lemma {:induction false} TotalAgree<T>(m: map<nat, T>, f: T -> nat, h: T -> nat)
    requires forall k :: k in m ==> f(m[k]) == h(m[k])
    ensures Total(m, f) == Total(m, h)
    decreases |m|
  {
    if m != map[] {
      var j :| j in m;
      TotalSplit(m, f, j);
      TotalSplit(m, h, j);
      TotalAgree(m - {j}, f, h);
    }
  }

  /** The sum of two weights is the sum of the sums. */
  lemma {:induction false} TotalAdd<T>(m: map<nat, T>, f: T -> nat, h: T -> nat, both: T -> nat)
    requires forall k :: k in m ==> both(m[k]) == f(m[k]) + h(m[k])
    ensures Total(m, both) == Total(m, f) + Total(m, h)
    decreases |m|
  {
    if m != map[] {
      var j :| j in m;
      TotalSplit(m, f, j);
      TotalSplit(m, h, j);
      TotalSplit(m, both, j);
      TotalAdd(m - {j}, f, h, both);
    }
  }

  /** A weight that is zero outside a part of the map only sums over that part. */
  lemma {:induction false} TotalWhere<T>(m: map<nat, T>, f: T -> nat, part: map<nat, T>, h: T -> nat)
    requires forall k :: k in part ==> k in m && part[k] == m[k]
    requires forall k :: k in m ==> f(m[k]) == if k in part then h(m[k]) else 0
    ensures Total(m, f) == Total(part, h)
    decreases |m|
  {
    if m != map[] {
      var j :| j in m;
      TotalSplit(m, f, j);
      TotalWhere(m - {j}, f, part - {j}, h);
      if j in part {
        TotalSplit(part, h, j);
      } else {
        assert part - {j} == part;
      }
    } else {
      assert part == map[];
    }
  }

  lemma UpdateUndone<V>(m: map<nat, V>, k: nat, v: V)
    requires k !in m
    ensures m[k := v] - {k} == m
  {
  }

  lemma RemovalsCommute<V>(m: map<nat, V>, a: set<nat>, b: set<nat>)
    ensures m - a - b == m - b - a == m - (a + b)
  {
  }

  /** What weighs nothing can be left out. */
  lemma {:induction false} TotalWithout<T>(m: map<nat, T>, f: T -> nat, ks: set<nat>)
    requires forall k :: k in ks && k in m ==> f(m[k]) == 0
    ensures Total(m - ks, f) == Total(m, f)
    decreases |ks|
  {
    if ks == {} {
      assert m - ks == m;
    } else {
      var k :| k in ks;
      TotalWithout(m, f, ks - {k});
      if k in m {
        TotalSplit(m - (ks - {k}), f, k);
        assert (m - (ks - {k})) - {k} == m - ks;
      } else {
        assert m - (ks - {k}) == m - ks;
      }
    }
  }
}
