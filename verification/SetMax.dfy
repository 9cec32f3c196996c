/**
 as_setmax_int64 and as_setmax_int32: raise a shared signed word to a proposed value with a
 compare-and-swap loop on its unsigned form, in any interleaving of any number of calls.
 */
module SetMax {
  import opened Runs

  datatype Width = W32 | W64

  function Half(w: Width): int {
    if w.W32? then 0x8000_0000 else 0x8000_0000_0000_0000
  }

  predicate Signed(w: Width, x: int) { -Half(w) <= x < Half(w) }

  predicate Unsigned(w: Width, u: int) { 0 <= u < 2 * Half(w) }

  /** The cast from the signed to the unsigned word, and back. */
  function ToUnsigned(w: Width, x: int): (u: int)
    ensures Signed(w, x) ==> Unsigned(w, u)
  {
    if x < 0 then x + 2 * Half(w) else x
  }

  function ToSigned(w: Width, u: int): (x: int)
    ensures Unsigned(w, u) ==> Signed(w, x) && ToUnsigned(w, x) == u
  {
    if u < Half(w) then u else u - 2 * Half(w)
  }

  /** The casts keep the bits: both words are the same modulo 2^32 or 2^64. */
  lemma CastsAreModular(w: Width, x: int)
    requires Signed(w, x)
    ensures ToUnsigned(w, x) == x % (if w.W32? then 0x1_0000_0000 else 0x1_0000_0000_0000_0000)
    ensures ToSigned(w, ToUnsigned(w, x)) == x
  {
  }

  // --------------------------------------------------------------- the machine

  datatype Call =
    | Start(x: int)                // before the load
    | Test(x: int, cur: int)       // at the loop test
    | Swap(x: int, cur: int)       // past the test, before the compare-and-swap
    | Done(x: int, swapped: bool)  // returned

  datatype Install = Install(caller: nat, from: int, to: int)

  datatype State = State(w: Width, word: int, calls: seq<Call>, log: seq<Install>)

  function Max(a: int, b: int): int { if a >= b then a else b }

  function MaxOf(v: int, xs: seq<int>): int {
    if xs == [] then v else Max(xs[0], MaxOf(v, xs[1..]))
  }

  /** One atomic step of call i: the load, the test or the compare-and-swap. */
  function Step(s: State, i: nat): State {
    if i >= |s.calls| then s
    else
      match s.calls[i]
      case Start(x) => s.(calls := s.calls[i := Test(x, Now(s))])
      case Test(x, cur) => s.(calls := s.calls[i := if x > cur then Swap(x, cur) else Done(x, false)])
      case Swap(x, cur) =>
        if s.word == ToUnsigned(s.w, cur) then
          s.(word := ToUnsigned(s.w, x), calls := s.calls[i := Done(x, true)], log := s.log + [Install(i, cur, x)])
        else
          s.(calls := s.calls[i := Test(x, Now(s))])
      case Done(_, _) => s
  }

  /** The target as a signed number. */
  function Now(s: State): int { ToSigned(s.w, s.word) }

  function Starts(xs: seq<int>): (calls: seq<Call>)
    ensures |calls| == |xs| && forall i :: 0 <= i < |xs| ==> calls[i] == Start(xs[i])
  {
    if xs == [] then [] else [Start(xs[0])] + Starts(xs[1..])
  }

  function Init(w: Width, v: int, xs: seq<int>): State {
    State(w, ToUnsigned(w, v), Starts(xs), [])
  }

  // ------------------------------------------------------------- the invariant

  function InstallsBy(log: seq<Install>, i: nat): nat
    decreases |log|
  {
    if log == [] then 0
    else InstallsBy(log[..|log|-1], i) + if log[|log|-1].caller == i then 1 else 0
  }

  /** The installs form one strictly rising chain from the initial value v to the current one. */
  ghost predicate Rising(v: int, log: seq<Install>, now: int)
    decreases |log|
  {
    if log == [] then now == v
    else
      var last := log[|log| - 1];
      last.from < last.to == now && Rising(v, log[..|log|-1], last.from)
  }

  ghost predicate CallInv(xs: seq<int>, s: State, i: nat, now: int)
    requires i < |s.calls| == |xs|
  {
    var c := s.calls[i];
    && c.x == xs[i] && Signed(s.w, c.x)
    && (c.Test? || c.Swap? ==> Signed(s.w, c.cur))
    && InstallsBy(s.log, i) == (if c.Done? && c.swapped then 1 else 0)
    && (c.Test? || c.Swap? ==> c.cur <= now)
    && (c.Swap? ==> c.cur < c.x)
    && (c.Done? ==> c.x <= now)
  }

  ghost predicate Inv(v: int, xs: seq<int>, s: State) {
    && Unsigned(s.w, s.word) && |s.calls| == |xs|
    && Rising(v, s.log, Now(s))
    && (forall k :: 0 <= k < |s.log| ==> s.log[k].caller < |xs| && s.log[k].to == xs[s.log[k].caller])
    && forall i :: 0 <= i < |xs| ==> CallInv(xs, s, i, Now(s))
  }

  lemma InstallsByAppend(log: seq<Install>, e: Install, i: nat)
    ensures InstallsBy(log + [e], i) == InstallsBy(log, i) + if e.caller == i then 1 else 0
  {
    assert (log + [e])[..|log|] == log;
  }

  /** A step of call i that leaves the target alone. */
  lemma QuietStep(v: int, xs: seq<int>, s: State, s': State, i: nat, now: int)
    requires i < |s.calls| == |xs| == |s'.calls| && s'.log == s.log && s'.w == s.w
    requires forall j :: 0 <= j < |xs| ==> CallInv(xs, s, j, now)
    requires CallInv(xs, s', i, now) && forall j :: 0 <= j < |xs| && j != i ==> s'.calls[j] == s.calls[j]
    ensures forall j :: 0 <= j < |xs| ==> CallInv(xs, s', j, now)
  {
    forall j | 0 <= j < |xs| ensures CallInv(xs, s', j, now) {
      assert CallInv(xs, s, j, now);
    }
  }

  /** A successful compare-and-swap of call i. */
  lemma InstallStep(v: int, xs: seq<int>, s: State, s': State, i: nat, now: int, x: int)
    requires i < |s.calls| == |xs| && now < x == xs[i] && s.calls[i] == Swap(x, now)
    requires s'.calls == s.calls[i := Done(x, true)] && s'.log == s.log + [Install(i, now, x)] && s'.w == s.w
    requires Rising(v, s.log, now) && forall j :: 0 <= j < |xs| ==> CallInv(xs, s, j, now)
    ensures Rising(v, s'.log, x) && forall j :: 0 <= j < |xs| ==> CallInv(xs, s', j, x)
  {
    assert s'.log[..|s.log|] == s.log;
    forall j | 0 <= j < |xs| ensures CallInv(xs, s', j, x) {
      assert CallInv(xs, s, j, now);
      InstallsByAppend(s.log, Install(i, now, x), j);
    }
  }

  lemma StepIsQuiet(xs: seq<int>, s: State, i: nat)
    requires Unsigned(s.w, s.word) && i < |s.calls| == |xs| && CallInv(xs, s, i, Now(s))
    requires s.calls[i].Swap? ==> s.word != ToUnsigned(s.w, s.calls[i].cur)
    ensures Step(s, i) == s.(calls := Step(s, i).calls) && |Step(s, i).calls| == |xs|
    ensures CallInv(xs, Step(s, i), i, Now(s))
    ensures forall j :: 0 <= j < |xs| && j != i ==> Step(s, i).calls[j] == s.calls[j]
  {
  }

  /** The compare-and-swap of call i succeeds now. */
  predicate Installs(s: State, i: nat) {
    i < |s.calls| && s.calls[i].Swap? && s.word == ToUnsigned(s.w, s.calls[i].cur)
  }

  lemma InstallIsRise(v: int, xs: seq<int>, s: State, i: nat)
    requires Inv(v, xs, s) && Installs(s, i)
    ensures s.calls[i] == Swap(xs[i], Now(s)) && Now(s) < xs[i]
    ensures Step(s, i) == s.(word := ToUnsigned(s.w, xs[i]), calls := s.calls[i := Done(xs[i], true)],
                             log := s.log + [Install(i, Now(s), xs[i])])
    ensures Unsigned(s.w, Step(s, i).word) && Now(Step(s, i)) == xs[i]
  {
    assert CallInv(xs, s, i, Now(s));
  }

  lemma StaysTheSame(v: int, xs: seq<int>, s: State, i: nat)
    requires Inv(v, xs, s) && !Installs(s, i)
    ensures Inv(v, xs, Step(s, i)) && Now(Step(s, i)) == Now(s)
  {
    if i < |s.calls| {
      assert CallInv(xs, s, i, Now(s));
      StepIsQuiet(xs, s, i);
      QuietStep(v, xs, s, Step(s, i), i, Now(s));
    }
  }

  lemma InstallKeepsInv(v: int, xs: seq<int>, s: State, i: nat)
    requires Inv(v, xs, s) && Installs(s, i)
    ensures Inv(v, xs, Step(s, i))
  {
    InstallIsRise(v, xs, s, i);
    InstallStep(v, xs, s, Step(s, i), i, Now(s), xs[i]);
  }

  /** The target never falls, and changes exactly when a call installs its own larger value. */
  lemma StepKeepsInv(v: int, xs: seq<int>, s: State, i: nat)
    requires Inv(v, xs, s)
    ensures Inv(v, xs, Step(s, i))
    ensures Now(s) <= Now(Step(s, i))
    ensures Now(s) != Now(Step(s, i)) <==> Installs(s, i)
    ensures Installs(s, i) ==> i < |xs| && Now(s) < xs[i] == Now(Step(s, i)) && Step(s, i).calls[i] == Done(xs[i], true)
  {
    if Installs(s, i) {
      InstallKeepsInv(v, xs, s, i);
      InstallIsRise(v, xs, s, i);
    } else {
      StaysTheSame(v, xs, s, i);
    }
  }

  lemma {:induction false} RunKeepsInv(v: int, xs: seq<int>, s: State, schedule: seq<nat>)
    requires Inv(v, xs, s)
    ensures Inv(v, xs, Run(Step, s, schedule)) && Now(s) <= Now(Run(Step, s, schedule))
    decreases |schedule|
  {
    if schedule != [] {
      StepKeepsInv(v, xs, s, schedule[0]);
      RunKeepsInv(v, xs, Step(s, schedule[0]), schedule[1..]);
    }
  }

  predicate AllSigned(w: Width, v: int, xs: seq<int>) {
    Signed(w, v) && forall x :: x in xs ==> Signed(w, x)
  }

  lemma InitInv(w: Width, v: int, xs: seq<int>)
    requires AllSigned(w, v, xs)
    ensures Inv(v, xs, Init(w, v, xs))
  {
    var s := Init(w, v, xs);
    forall i | 0 <= i < |xs| ensures CallInv(xs, s, i, Now(s)) { assert xs[i] in xs; }
  }

  // --------------------------------------------------------------- every run

  lemma {:induction false} MaxOfBounds(v: int, xs: seq<int>)
    ensures v <= MaxOf(v, xs) && forall x :: x in xs ==> x <= MaxOf(v, xs)
    ensures MaxOf(v, xs) == v || MaxOf(v, xs) in xs
  {
    if xs != [] {
      MaxOfBounds(v, xs[1..]);
      assert xs == [xs[0]] + xs[1..];
    }
  }

  /**
   In every interleaving: the installed values rise strictly from the initial one; a call that
   returned true is exactly one that installed its value, once; and when all calls have
   returned, the target is the maximum of the initial value and all proposals.
   */
  lemma EndsAtMaximum(w: Width, v: int, xs: seq<int>, schedule: seq<nat>)
    requires AllSigned(w, v, xs)
    ensures
      var s := Run(Step, Init(w, v, xs), schedule);
      && |s.calls| == |xs| && Rising(v, s.log, Now(s))
      && (forall i :: 0 <= i < |xs| ==>
            InstallsBy(s.log, i) == if s.calls[i] == Done(xs[i], true) then 1 else 0)
      && ((forall i :: 0 <= i < |xs| ==> s.calls[i].Done?) ==> Now(s) == MaxOf(v, xs))
  {
    InitInv(w, v, xs);
    RunKeepsInv(v, xs, Init(w, v, xs), schedule);
    var s := Run(Step, Init(w, v, xs), schedule);
    forall i | 0 <= i < |xs|
      ensures InstallsBy(s.log, i) == if s.calls[i] == Done(xs[i], true) then 1 else 0
      ensures s.calls[i].Done? ==> xs[i] <= Now(s)
    {
      assert CallInv(xs, s, i, Now(s));
    }
    MaxOfBounds(v, xs);
    RisingIsAbove(v, s.log, Now(s));
    if s.log != [] {
      var last := s.log[|s.log| - 1];
      assert xs[last.caller] in xs;
    }
  }

  lemma {:induction false} RisingIsAbove(v: int, log: seq<Install>, now: int)
    requires Rising(v, log, now)
    ensures v <= now
    decreases |log|
  {
    if log != [] {
      RisingIsAbove(v, log[..|log|-1], log[|log| - 1].from);
    }
  }

  /** The step on which a call gives up finds the target at least at the proposed value. */
  lemma FalseMeansEnough(w: Width, v: int, xs: seq<int>, schedule: seq<nat>, i: nat)
    requires AllSigned(w, v, xs) && i < |xs|
    ensures
      var s := Run(Step, Init(w, v, xs), schedule);
      && |s.calls| == |xs|
      && (Step(s, i).calls[i] == Done(xs[i], false) ==> xs[i] <= Now(s))
  {
    InitInv(w, v, xs);
    RunKeepsInv(v, xs, Init(w, v, xs), schedule);
    var s := Run(Step, Init(w, v, xs), schedule);
    assert CallInv(xs, s, i, Now(s));
  }

  // ------------------------------------------------------------- termination

  /** Steps call i can still take: each failed compare-and-swap brings cur closer to x. */
  function Rank(s: State, i: nat): int
    requires i < |s.calls|
  {
    match s.calls[i]
    case Start(x) => 2 * (x + Half(s.w)) + 2
    case Test(x, cur) => if x > cur then 2 * (x - cur) + 1 else 1
    case Swap(x, cur) => if x > cur then 2 * (x - cur) else 0
    case Done(_, _) => 0
  }

  lemma StepLowersRank(v: int, xs: seq<int>, s: State, i: nat, j: nat)
    requires Inv(v, xs, s) && i < |xs|
    ensures |Step(s, j).calls| == |xs|
    ensures j != i ==> Rank(Step(s, j), i) == Rank(s, i)
    ensures Rank(s, i) > 0 ==> Rank(Step(s, i), i) < Rank(s, i)
    ensures Rank(s, i) >= 0 && (Rank(s, i) == 0 <==> s.calls[i].Done?)
  {
    assert CallInv(xs, s, i, Now(s));
  }

  function Turns(schedule: seq<nat>, i: nat): nat {
    if schedule == [] then 0 else (if schedule[0] == i then 1 else 0) + Turns(schedule[1..], i)
  }

  /** Whatever the others do, a call that gets as many turns as its rank has returned. */
  lemma {:induction false} EveryCallReturns(v: int, xs: seq<int>, s: State, schedule: seq<nat>, i: nat)
    requires Inv(v, xs, s) && i < |xs|
    requires Turns(schedule, i) >= Rank(s, i)
    ensures i < |Run(Step, s, schedule).calls| && Run(Step, s, schedule).calls[i].Done?
    decreases |schedule|
  {
    StepLowersRank(v, xs, s, i, i);
    if schedule != [] {
      StepKeepsInv(v, xs, s, schedule[0]);
      StepLowersRank(v, xs, s, i, schedule[0]);
      EveryCallReturns(v, xs, Step(s, schedule[0]), schedule[1..], i);
    }
  }

  // ------------------------------------------------------------------- the code

  datatype Write = Write(from: int, to: int)

  /** The shared word, as one caller sees it: others may raise it between any two instructions. */
  class Target {
    const w: Width
    var word: int
    ghost var writes: seq<Write>  // by this caller

    ghost predicate Valid() reads this { Unsigned(w, word) }

    function Value(): int
      requires Valid()
      reads this
    {
      ToSigned(w, word)
    }

    constructor (w: Width, x: int)
      requires Signed(w, x)
      ensures Valid() && Value() == x && this.w == w && writes == []
    {
      this.w, word, writes := w, ToUnsigned(w, x), [];
    }

    /** What StepKeepsInv shows of every step of another call: the value does not fall. */
    method Interfere()
      requires Valid()
      modifies this`word
      ensures Valid() && Value() >= old(Value())
    {
      var x :| Value() <= x < Half(w);
      word := ToUnsigned(w, x);
    }

    /** ck_pr_cas_64_value and ck_pr_cas_32_value */
    method CompareAndSwap(from: int, to: int) returns (ok: bool, prior: int)
      requires Valid() && Unsigned(w, from) && Unsigned(w, to)
      modifies this
      ensures Valid() && prior == old(word) && ok == (prior == from)
      ensures word == if ok then to else prior
      ensures writes == old(writes) + if ok then [Write(ToSigned(w, from), ToSigned(w, to))] else []
    {
      ok, prior := word == from, word;
      if ok {
        word := to;
        writes := writes + [Write(ToSigned(w, from), ToSigned(w, to))];
      }
    }

    method SetMax(x: int) returns (swapped: bool)
      requires Valid() && Signed(w, x)
      modifies this
      ensures Valid() && Value() >= old(Value()) && Value() >= x
      ensures if swapped then exists from :: old(Value()) <= from < x && writes == old(writes) + [Write(from, x)]
              else writes == old(writes)
    {
      Interfere();
      var cur := ToSigned(w, word);
      while x > cur
        invariant Valid() && Signed(w, cur) && writes == old(writes)
        invariant old(Value()) <= cur <= Value()
        decreases x - cur
      {
        Interfere();
        var ok, prior := CompareAndSwap(ToUnsigned(w, cur), ToUnsigned(w, x));
        if ok {
          assert writes == old(writes) + [Write(cur, x)];
          return true;
        }
        cur := ToSigned(w, prior);
      }
      return false;
    }
  }
}
