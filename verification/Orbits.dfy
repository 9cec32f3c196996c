/** Iterating an invertible step on finitely many states runs in cycles. */
module Orbits {
  function Iterate<S>(f: S -> S, s: S, n: nat): S {
    if n == 0 then s else f(Iterate(f, s, n - 1))
  }

  ghost predicate Inverts<S(!new)>(g: S -> S, f: S -> S) {
    forall s :: g(f(s)) == s
  }

  lemma {:induction false} IterateSplits<S>(f: S -> S, s: S, m: nat, n: nat)
    ensures Iterate(f, s, m + n) == Iterate(f, Iterate(f, s, m), n)
    decreases n
  {
    if n > 0 { IterateSplits(f, s, m, n - 1); }
  }

  /** n steps back take back n steps. */
  lemma {:induction false} IterateReverses<S(!new)>(f: S -> S, g: S -> S, s: S, n: nat)
    requires Inverts(g, f)
    ensures Iterate(g, Iterate(f, s, n), n) == s
    decreases n
  {
    if n > 0 {
      IterateSplits(g, Iterate(f, s, n), 1, n - 1);
      IterateReverses(f, g, s, n - 1);
      assert Iterate(g, Iterate(f, s, n), 0) == Iterate(f, s, n);
      assert Iterate(g, Iterate(f, s, n), 1) == g(f(Iterate(f, s, n - 1)));
    }
  }

  lemma {:induction false} FixedPointStays<S>(f: S -> S, s: S, n: nat)
    requires f(s) == s
    ensures Iterate(f, s, n) == s
  {
    if n > 0 { FixedPointStays(f, s, n - 1); }
  }

  function Below(m: nat): (r: set<nat>)
    ensures |r| == m && forall x: nat :: x in r <==> x < m
  {
    if m == 0 then {}
    else
      var last: nat := m - 1;
      var rest := Below(last);
      assert last !in rest;
      rest + {last}
  }

  lemma SubsetSize(a: set<nat>, b: set<nat>)
    requires a <= b
    ensures |a| <= |b|
  {
    assert b == a + (b - a);
  }

  function Elements(xs: seq<nat>): set<nat> { set x | x in xs }

  lemma {:induction false} DistinctElements(xs: seq<nat>)
    requires forall i, j :: 0 <= i < j < |xs| ==> xs[i] != xs[j]
    ensures |Elements(xs)| == |xs|
    decreases |xs|
  {
    if xs != [] {
      var n := |xs| - 1;
      DistinctElements(xs[..n]);
      assert Elements(xs) == Elements(xs[..n]) + {xs[n]};
      assert xs[n] !in xs[..n];
    }
  }

  lemma Pigeonhole(xs: seq<nat>, m: nat) returns (i: nat, j: nat)
    requires |xs| > m && forall x :: x in xs ==> x < m
    ensures i < j < |xs| && xs[i] == xs[j]
  {
    if forall i, j :: 0 <= i < j < |xs| ==> xs[i] != xs[j] {
      DistinctElements(xs);
      SubsetSize(Elements(xs), Below(m));
      assert false;
    }
    i, j :| 0 <= i < j < |xs| && xs[i] == xs[j];
  }

  function Codes<S>(f: S -> S, code: S -> nat, s: S, n: nat): (r: seq<nat>)
    ensures |r| == n && forall k :: 0 <= k < n ==> r[k] == code(Iterate(f, s, k))
  {
    if n == 0 then [] else Codes(f, code, s, n - 1) + [code(Iterate(f, s, n - 1))]
  }

  /** code numbers the states apart, below m; so from any state the iteration comes back within m steps. */
  lemma ReturnsToStart<S(!new)>(f: S -> S, g: S -> S, code: S -> nat, m: nat, s: S) returns (period: nat)
    requires Inverts(g, f)
    requires forall s :: code(s) < m
    requires forall s, t :: code(s) == code(t) ==> s == t
    ensures 1 <= period <= m && Iterate(f, s, period) == s
  {
    var xs := Codes(f, code, s, m + 1);
    var i, j := Pigeonhole(xs, m);
    assert code(Iterate(f, s, i)) == code(Iterate(f, s, j));
    period := j - i;
    IterateSplits(f, s, period, i);
    IterateReverses(f, g, Iterate(f, s, period), i);
    IterateReverses(f, g, s, i);
  }
}
