/** Sums and bags of a per-thread quantity, and how one thread's step changes them. */
module Threads {
  function Sum<T>(ts: seq<T>, f: T -> nat): nat
    decreases |ts|
  {
    if ts == [] then 0 else f(ts[0]) + Sum(ts[1..], f)
  }

  lemma {:induction false} SumUpdate<T>(ts: seq<T>, f: T -> nat, i: nat, t: T)
    requires i < |ts|
    ensures Sum(ts[i := t], f) == Sum(ts, f) - f(ts[i]) + f(t)
    decreases |ts|
  {
    if i > 0 {
      SumUpdate(ts[1..], f, i - 1, t);
      assert ts[i := t][1..] == ts[1..][i - 1 := t];
    } else {
      assert ts[i := t][1..] == ts[1..];
    }
  }

  /** Where f <= g <= f + 1, the sums are at most one apart per thread; thread i may be exempt. */
  lemma {:induction false} SumBounds<T>(ts: seq<T>, f: T -> nat, g: T -> nat, i: nat)
    requires forall t :: t in ts ==> f(t) <= g(t) <= f(t) + 1
    requires i < |ts|
    ensures Sum(ts, f) <= Sum(ts, g) <= Sum(ts, f) + |ts|
    ensures f(ts[i]) == g(ts[i]) ==> Sum(ts, g) <= Sum(ts, f) + |ts| - 1
    ensures f(ts[i]) <= Sum(ts, f)
    decreases |ts|
  {
    if |ts| > 1 {
      SumBounds(ts[1..], f, g, if i > 0 then i - 1 else 0);
    }
  }

  function Bag<T>(ts: seq<T>, f: T -> multiset<nat>): multiset<nat>
    decreases |ts|
  {
    if ts == [] then multiset{} else f(ts[0]) + Bag(ts[1..], f)
  }

  lemma {:induction false} BagUpdate<T>(ts: seq<T>, f: T -> multiset<nat>, i: nat, t: T)
    requires i < |ts|
    ensures f(ts[i]) <= Bag(ts, f)
    ensures Bag(ts[i := t], f) == Bag(ts, f) - f(ts[i]) + f(t)
    decreases |ts|
  {
    if i > 0 {
      BagUpdate(ts[1..], f, i - 1, t);
      assert ts[i := t][1..] == ts[1..][i - 1 := t];
    } else {
      assert ts[i := t][1..] == ts[1..];
    }
  }

  lemma {:induction false} BagSnoc<T>(ts: seq<T>, t: T, f: T -> multiset<nat>)
    ensures Bag(ts + [t], f) == Bag(ts, f) + f(t)
    decreases |ts|
  {
    if ts == [] {
      assert (ts + [t])[1..] == [];
    } else {
      assert (ts + [t])[1..] == ts[1..] + [t];
      BagSnoc(ts[1..], t, f);
    }
  }

  lemma BagFirst<T>(ts: seq<T>, f: T -> multiset<nat>)
    requires ts != []
    ensures Bag(ts[1..], f) + f(ts[0]) == Bag(ts, f)
  {
  }

  lemma BagCons<T>(t: T, ts: seq<T>, f: T -> multiset<nat>)
    ensures Bag([t] + ts, f) == Bag(ts, f) + f(t)
  {
    assert ([t] + ts)[1..] == ts;
  }

  lemma BagLast<T>(ts: seq<T>, f: T -> multiset<nat>)
    requires ts != []
    ensures Bag(ts[..|ts|-1], f) + f(ts[|ts|-1]) == Bag(ts, f)
  {
    assert ts[..|ts|-1] + [ts[|ts|-1]] == ts;
    BagSnoc(ts[..|ts|-1], ts[|ts|-1], f);
  }

  lemma {:induction false} BagSize<T>(ts: seq<T>, f: T -> multiset<nat>, n: T -> nat)
    requires forall t :: t in ts ==> |f(t)| <= n(t)
    ensures |Bag(ts, f)| <= Sum(ts, n)
    decreases |ts|
  {
    if ts != [] { BagSize(ts[1..], f, n); }
  }
}
