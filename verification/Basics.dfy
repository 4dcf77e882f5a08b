/** What several of the models share. */

module Options {
  datatype Option<+T> = None | Some(value: T)
}

module Sequences {
  lemma Associate<T>(a: seq<T>, b: seq<T>, c: seq<T>)
    ensures (a + b) + c == a + (b + c)
  {
  }
}

/** Facts about products, quotients and the sizes of sets. */
module Counting {
  lemma MulGap(n: nat, q: int, q': int)
    requires q < q'
    ensures n * q + n <= n * q'
  {
    assert n * q' == n * (q + 1) + n * (q' - q - 1);
    assert n * (q' - q - 1) >= 0;
  }

  /** A quotient and a remainder are the only ones. */
  lemma DivModOf(a: nat, n: nat, q: nat, r: nat)
    requires r < n && a == n * q + r
    ensures a / n == q && a % n == r
  {
    var q', r' := a / n, a % n;
    if q < q' {
      MulGap(n, q, q');
    } else if q > q' {
      MulGap(n, q', q);
    }
  }

  function Pow2(n: nat): (p: nat)
    ensures p > 0
  {
    if n == 0 then 1 else 2 * Pow2(n - 1)
  }

  lemma SubsetOfSameSize<T>(a: set<T>, b: set<T>)
    requires a <= b && |a| == |b|
    ensures a == b
  {
    if x :| x in b && x !in a {
      assert a <= b - {x};
      SubsetNotLarger(a, b - {x});
    }
  }

  lemma {:induction false} SubsetNotLarger<T>(a: set<T>, b: set<T>)
    requires a <= b
    ensures |a| <= |b|
    decreases a
  {
    if a != {} {
      var x :| x in a;
      SubsetNotLarger(a - {x}, b - {x});
    }
  }
}
