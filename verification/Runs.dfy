/** Runs of a step machine: one action after another, in the order given. */
module Runs {
  function Run<S, A>(step: (S, A) -> S, s: S, actions: seq<A>): S
    decreases |actions|
  {
    if actions == [] then s else Run(step, step(s, actions[0]), actions[1..])
  }

  lemma {:induction false} RunAppend<S, A>(step: (S, A) -> S, s: S, a: seq<A>, b: seq<A>)
    ensures Run(step, s, a + b) == Run(step, Run(step, s, a), b)
    decreases |a|
  {
    if a == [] {
      assert a + b == b;
    } else {
      assert (a + b)[1..] == a[1..] + b;
      RunAppend(step, step(s, a[0]), a[1..], b);
    }
  }

  lemma RunOne<S, A>(step: (S, A) -> S, s: S, a: A)
    ensures Run(step, s, [a]) == step(s, a)
  {
    assert [a][1..] == [];
  }

  lemma RunTwo<S, A>(step: (S, A) -> S, s: S, a: A, b: A)
    ensures Run(step, s, [a, b]) == step(step(s, a), b)
  {
    assert [a, b] == [a] + [b];
    RunAppend(step, s, [a], [b]);
    RunOne(step, s, a);
    RunOne(step, step(s, a), b);
  }

  lemma RunThree<S, A>(step: (S, A) -> S, s: S, a: A, b: A, c: A)
    ensures Run(step, s, [a, b, c]) == step(step(step(s, a), b), c)
  {
    assert [a, b, c] == [a, b] + [c];
    RunAppend(step, s, [a, b], [c]);
    RunTwo(step, s, a, b);
    RunOne(step, step(step(s, a), b), c);
  }
}
