/** Multiples and rounding up.  Both are defined by repeated addition, which keeps the proofs about
    the page files linear; MultipleIsRemainder and PadIsRounding give the program's own formulas. */
module Numbers {

  predicate Multiple(x: nat, m: nat)
    requires m > 0
  {
    x == 0 || (x >= m && Multiple(x - m, m))
  }

  /** n rounded up to a multiple of m. */
  function Pad(n: nat, m: nat): nat
    requires m > 0
  {
    if n == 0 then 0 else if n <= m then m else m + Pad(n - m, m)
  }

  /** n copies of m. */
  function Times(n: nat, m: nat): nat {
    if n == 0 then 0 else Times(n - 1, m) + m
  }

  lemma {:induction false} TimesIsProduct(n: nat, m: nat)
    ensures Times(n, m) == n * m
  {
    if n > 0 {
      TimesIsProduct(n - 1, m);
      assert n * m == (n - 1) * m + m;
    }
  }

  lemma {:induction false} TimesMultiple(n: nat, m: nat)
    requires m > 0
    ensures Multiple(Times(n, m), m)
  {
    if n > 0 {
      TimesMultiple(n - 1, m);
      MultipleSum(Times(n - 1, m), m, m);
    }
  }

  /** The rounding as the program computes it. */
  method RoundUp(n: nat, m: nat) returns (r: nat)
    requires m > 0
    ensures r == Pad(n, m)
  {
    r := (n / m + (if n % m == 0 then 0 else 1)) * m;
    PadIsRounding(n, m);
  }

  /** A nonzero multiple of m is at least m away from zero. */
  lemma {:induction false} ScaleOutgrows(e: int, m: nat)
    ensures e > 0 ==> e * m >= m
    ensures e < 0 ==> e * m <= -(m as int)
    decreases if e < 0 then -e else e
  {
    if e > 1 {
      ScaleOutgrows(e - 1, m);
      assert e * m == (e - 1) * m + m;
    } else if e < -1 {
      ScaleOutgrows(e + 1, m);
      assert e * m == (e + 1) * m - m;
    }
  }

  lemma RemainderStep(x: nat, m: nat)
    requires 0 < m <= x
    ensures x % m == (x - m) % m && x / m == (x - m) / m + 1
  {
    var q, r := (x - m) / m, (x - m) % m;
    assert x == (q + 1) * m + r by { assert (q + 1) * m == q * m + m; }
    var e := x / m - (q + 1);
    assert e * m == r - x % m by {
      assert x == (x / m) * m + x % m;
      assert (x / m - (q + 1)) * m == (x / m) * m - (q + 1) * m;
    }
    ScaleOutgrows(e, m);
  }

  lemma {:induction false} MultipleIsRemainder(x: nat, m: nat)
    requires m > 0
    ensures Multiple(x, m) <==> x % m == 0
  {
    if x >= m {
      RemainderStep(x, m);
      MultipleIsRemainder(x - m, m);
    }
  }

  lemma {:induction false} PadIsRounding(n: nat, m: nat)
    requires m > 0
    ensures Pad(n, m) == (n / m + (if n % m == 0 then 0 else 1)) * m
  {
    if n >= m {
      RemainderStep(n, m);
      PadIsRounding(n - m, m);
      var q := (n - m) / m + (if (n - m) % m == 0 then 0 else 1);
      assert (q + 1) * m == q * m + m;
    }
  }

  lemma {:induction false} MultipleSum(x: nat, y: nat, m: nat)
    requires m > 0 && Multiple(x, m)
    ensures Multiple(x + y, m) <==> Multiple(y, m)
  {
    if x > 0 {
      MultipleSum(x - m, y, m);
      assert x - m + y == x + y - m;
    }
  }

  /** Two different multiples are at least m apart, and their distance is a multiple. */
  lemma MultipleGap(x: nat, y: nat, m: nat)
    requires m > 0 && Multiple(x, m) && Multiple(y, m) && x < y
    ensures x + m <= y && Multiple(y - x, m)
  {
    MultipleSum(x, y - x, m);
  }

  lemma {:induction false} MultipleTransitive(x: nat, m: nat, n: nat)
    requires m > 0 && n > 0 && Multiple(x, m) && Multiple(m, n)
    ensures Multiple(x, n)
  {
    if x > 0 {
      MultipleTransitive(x - m, m, n);
      MultipleSum(m, x - m, n);
    }
  }

  /** Pad(n) is the least multiple of m that is at least n. */
  lemma {:induction false} PadIsLeast(n: nat, m: nat)
    requires m > 0
    ensures Multiple(Pad(n, m), m) && n <= Pad(n, m) < n + m
    ensures Multiple(n, m) ==> Pad(n, m) == n
    ensures forall x: nat :: Multiple(x, m) && n <= x ==> Pad(n, m) <= x
  {
    if n > m {
      PadIsLeast(n - m, m);
      forall x: nat | Multiple(x, m) && n <= x
        ensures Pad(n, m) <= x
      {
        assert Multiple(x - m, m) && n - m <= x - m;
      }
    }
  }

  lemma QuotientTimes(x: nat, m: nat, n: nat)
    requires m > 0 && x == Pad(n, m)
    ensures x / m >= 0 && Times(x / m, m) == x
  {
    PadIsLeast(n, m);
    MultipleIsRemainder(x, m);
    TimesIsProduct(x / m, m);
  }
}
