/** Round-robin choice of an event loop, as_event_loop_get of as_event.h. */
module EventLoops {
  import opened Words

  function Next(n: nat, p: nat): nat { if p + 1 >= n then 0 else p + 1 }

  /** The loops that k calls return, and where they leave the cursor. */
  function Served(n: nat, p: nat, k: nat): (s: seq<nat>)
    ensures |s| == k
    decreases k
  {
    if k == 0 then [] else [p] + Served(n, Next(n, p), k - 1)
  }

  function Cursor(n: nat, p: nat, k: nat): nat
    decreases k
  {
    if k == 0 then p else Cursor(n, Next(n, p), k - 1)
  }

  function Count(s: seq<nat>, x: nat): nat {
    if s == [] then 0 else (if s[0] == x then 1 else 0) + Count(s[1..], x)
  }

  lemma {:induction false} CountConcat(a: seq<nat>, b: seq<nat>, x: nat)
    ensures Count(a + b, x) == Count(a, x) + Count(b, x)
    decreases |a|
  {
    if a == [] {
      assert a + b == b;
    } else {
      assert (a + b)[1..] == a[1..] + b;
      CountConcat(a[1..], b, x);
    }
  }

  lemma {:induction false} ServedSplits(n: nat, p: nat, j: nat, k: nat)
    ensures Served(n, p, j + k) == Served(n, p, j) + Served(n, Cursor(n, p, j), k)
    ensures Cursor(n, p, j + k) == Cursor(n, Cursor(n, p, j), k)
    decreases j
  {
    if j > 0 { ServedSplits(n, Next(n, p), j - 1, k); }
  }

  function Distance(n: nat, p: nat, x: nat): int {
    if x >= p then x - p else x - p + n
  }

  /** Within one round a loop is served once it has been reached, and only then. */
  lemma {:induction false} WithinRound(n: nat, p: nat, k: nat, x: nat)
    requires p < n && x < n && k <= n
    ensures Count(Served(n, p, k), x) == if Distance(n, p, x) < k then 1 else 0
    decreases k
  {
    if k > 0 {
      assert Served(n, p, k)[1..] == Served(n, Next(n, p), k - 1);
      WithinRound(n, Next(n, p), k - 1, x);
    }
  }

  lemma {:induction false} CursorAdvances(n: nat, p: nat, k: nat)
    requires p < n && k <= n
    ensures Cursor(n, p, k) == if p + k < n then p + k else p + k - n
    decreases k
  {
    if k > 0 && p + 1 < n {
      CursorAdvances(n, p + 1, k - 1);
    } else if k > 0 {
      CursorAdvances(n, 0, k - 1);
    }
  }

  lemma {:induction false} CursorInRange(n: nat, p: nat, k: nat)
    requires p < n
    ensures Cursor(n, p, k) < n
    decreases k
  {
    if k > 0 { CursorInRange(n, Next(n, p), k - 1); }
  }

  /** The j-th call returns the j-th loop from the cursor on, counted around the circle. */
  lemma {:induction false} ServedAt(n: nat, p: nat, k: nat, j: nat)
    requires p < n && j < k
    ensures Served(n, p, k)[j] == (p + j) % n
    decreases k
  {
    if j > 0 {
      ServedAt(n, Next(n, p), k - 1, j - 1);
      if p + 1 == n { PercentSubtract(p + j, n); }
    } else {
      RemainderUnique(p, 0, p, n);
    }
  }

  /** Any n consecutive calls of a run return every loop exactly once. */
  lemma EveryRoundIsFair(n: nat, p: nat, skipped: nat, x: nat)
    requires p < n && x < n
    ensures Count(Served(n, p, skipped + n)[skipped..], x) == 1
  {
    ServedSplits(n, p, skipped, n);
    CursorInRange(n, p, skipped);
    assert Served(n, p, skipped + n)[skipped..] == Served(n, Cursor(n, p, skipped), n);
    WithinRound(n, Cursor(n, p, skipped), n, x);
  }

  /** After any number of calls no loop is more than one call ahead of another. */
  lemma {:induction false} NeverMoreThanOneApart(n: nat, p: nat, k: nat, x: nat, y: nat)
    requires p < n && x < n && y < n
    ensures Count(Served(n, p, k), x) <= Count(Served(n, p, k), y) + 1
    decreases k
  {
    if k <= n {
      WithinRound(n, p, k, x);
      WithinRound(n, p, k, y);
    } else {
      ServedSplits(n, p, n, k - n);
      CursorAdvances(n, p, n);
      CountConcat(Served(n, p, n), Served(n, p, k - n), x);
      CountConcat(Served(n, p, n), Served(n, p, k - n), y);
      WithinRound(n, p, n, x);
      WithinRound(n, p, n, y);
      NeverMoreThanOneApart(n, p, k - n, x, y);
    }
  }

  // ------------------------------------------------------------------- the code

  class EventLoop {
    var next: EventLoop?
    constructor () { next := null; }
  }

  /** The global cursor over the circular list. */
  class Registry {
    ghost const loops: seq<EventLoop>
    ghost var p: nat
    var current: EventLoop

    ghost predicate Valid()
      reads this, loops
    {
      && p < |loops| && current == loops[p]
      && (forall i :: 0 <= i < |loops| ==> loops[i].next == loops[Next(|loops|, i)])
    }

    constructor (loops: seq<EventLoop>)
      requires |loops| > 0
      requires forall i :: 0 <= i < |loops| ==> loops[i].next == loops[Next(|loops|, i)]
      ensures Valid() && this.loops == loops && p == 0
    {
      this.loops, p, current := loops, 0, loops[0];
    }

    method Get() returns (loop: EventLoop)
      requires Valid()
      modifies this
      ensures Valid() && loop == loops[old(p)] && p == Next(|loops|, old(p))
    {
      loop := current;
      current := loop.next;
      p := Next(|loops|, p);
    }

    /** k calls in a row go around the circle. */
    method GetMany(k: nat) returns (got: seq<EventLoop>)
      requires Valid()
      modifies this
      ensures Valid() && p == Cursor(|loops|, old(p), k)
      ensures |got| == k && forall j :: 0 <= j < k ==>
                Served(|loops|, old(p), k)[j] < |loops| && got[j] == loops[Served(|loops|, old(p), k)[j]]
      decreases k
    {
      if k == 0 { return []; }
      var loop := Get();
      var rest := GetMany(k - 1);
      got := [loop] + rest;
    }
  }
}
