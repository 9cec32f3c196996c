/**
 The reference count of as_node.h: holders reserve and release in any interleaving, and the
 release that sees zero destroys the node.
 */
module NodeRefs {
  import opened Words
  import opened Threads
  import opened Runs

  /** refs says how many references each holder has, and maxRefs how many there can be; the code has only count. */
  datatype State = State(refs: seq<nat>, maxRefs: nat, count: uint32, destroying: nat, destroyed: nat)

  datatype Action =
    | Reserve(i: nat, j: nat)  // holder i reserves a reference for j
    | Release(i: nat)          // the add-and-fetch of as_node_release
    | Destroy                  // as_node_destroy by a release that saw zero

  function One(n: nat): nat { n }

  function Refs(s: State): nat { Sum(s.refs, One) }

  function Step(s: State, a: Action): State {
    match a
    case Reserve(i, j) =>
      if i < |s.refs| && j < |s.refs| && s.refs[i] > 0 && Refs(s) < s.maxRefs then
        s.(refs := s.refs[j := s.refs[j] + 1], count := Add32(s.count, 1))
      else s
    case Release(i) =>
      if i < |s.refs| && s.refs[i] > 0 then
        var after := Sub32(s.count, 1);
        s.(refs := s.refs[i := s.refs[i] - 1], count := after,
           destroying := s.destroying + if after == 0 then 1 else 0)
      else s
    case Destroy =>
      if s.destroying > 0 then s.(destroying := s.destroying - 1, destroyed := s.destroyed + 1) else s
  }

  /** n holders, the first of which created the node. */
  function Init(maxRefs: nat, n: nat): State
    requires n > 0
  {
    State([1] + Zeros(n - 1), maxRefs, 1, 0, 0)
  }

  function Zeros(n: nat): (s: seq<nat>)
    ensures |s| == n
  {
    if n == 0 then [] else [0] + Zeros(n - 1)
  }

  /** At every point of a run: the node is being or has been destroyed, once, exactly when no reference is left. */
  ghost predicate DestroyedOnceAtZero(s: State) {
    s.destroying + s.destroyed == if Refs(s) == 0 then 1 else 0
  }

  ghost predicate Inv(s: State) {
    && Refs(s) <= TWO_32
    && s.count == Refs(s) % TWO_32
    && DestroyedOnceAtZero(s)
  }

  lemma {:induction false} SumZeros(n: nat)
    ensures Sum(Zeros(n), One) == 0
  {
    if n > 0 { SumZeros(n - 1); }
  }

  lemma InitRefs(maxRefs: nat, n: nat)
    requires n > 0
    ensures Refs(Init(maxRefs, n)) == 1
  {
    SumZeros(n - 1);
    assert Init(maxRefs, n).refs[1..] == Zeros(n - 1);
  }

  lemma ReserveKeepsInv(s: State, i: nat, j: nat)
    requires Inv(s) && s.maxRefs <= TWO_32
    ensures Inv(Step(s, Reserve(i, j)))
  {
    if i < |s.refs| && j < |s.refs| {
      SumBounds(s.refs, One, One, i);
      SumUpdate(s.refs, One, j, s.refs[j] + 1);
      ModSuccessor(Refs(s));
    }
  }

  lemma ReleaseKeepsInv(s: State, i: nat)
    requires Inv(s)
    ensures Inv(Step(s, Release(i)))
  {
    if i < |s.refs| && s.refs[i] > 0 {
      SumUpdate(s.refs, One, i, s.refs[i] - 1);
      ModSuccessor(Refs(s) - 1);
    }
  }

  lemma StepKeepsInv(s: State, a: Action)
    requires Inv(s) && s.maxRefs <= TWO_32
    ensures Inv(Step(s, a)) && Step(s, a).maxRefs == s.maxRefs
  {
    match a
    case Reserve(i, j) => ReserveKeepsInv(s, i, j);
    case Release(i) => ReleaseKeepsInv(s, i);
    case Destroy =>
  }

  lemma {:induction false} RunKeepsInv(s: State, actions: seq<Action>)
    requires Inv(s) && s.maxRefs <= TWO_32
    ensures Inv(Run(Step, s, actions))
    decreases |actions|
  {
    if actions != [] {
      StepKeepsInv(s, actions[0]);
      RunKeepsInv(Step(s, actions[0]), actions[1..]);
    }
  }

  /** A reference taken and given back changes nothing; the last one given back destroys the node. */
  lemma ReserveThenRelease(s: State, i: nat, j: nat)
    requires Inv(s) && i < |s.refs| && j < |s.refs| && s.refs[i] > 0 && Refs(s) < s.maxRefs <= TWO_32
    ensures Step(Step(s, Reserve(i, j)), Release(j)) == s
  {
    SumBounds(s.refs, One, One, i);
    var reserved := s.(refs := s.refs[j := s.refs[j] + 1], count := Add32(s.count, 1));
    assert Step(s, Reserve(i, j)) == reserved;
    assert reserved.refs[j := s.refs[j]] == s.refs;
  }

  lemma LastReleaseDestroys(s: State, i: nat)
    requires Inv(s) && i < |s.refs| && s.refs[i] > 0
    ensures
      var s' := Step(Step(s, Release(i)), Destroy);
      s'.destroyed == if Refs(s) == 1 then 1 else 0
  {
    SumBounds(s.refs, One, One, i);
    SumUpdate(s.refs, One, i, s.refs[i] - 1);
    ModSuccessor(Refs(s) - 1);
  }

  /** The first holder takes k references in a row. */
  lemma {:induction false} Hoard(maxRefs: nat, n: nat, k: nat) returns (actions: seq<Action>)
    requires 0 < n && 0 < k <= maxRefs
    ensures
      var s := Run(Step, Init(maxRefs, n), actions);
      && |s.refs| == n && s.refs[0] == k == Refs(s) && s.count == k % TWO_32
      && s.destroying == s.destroyed == 0 && s.maxRefs == maxRefs
    decreases k
  {
    InitRefs(maxRefs, n);
    if k == 1 { return []; }
    var before := Hoard(maxRefs, n, k - 1);
    var s := Run(Step, Init(maxRefs, n), before);
    actions := before + [Reserve(0, 0)];
    RunAppend(Step, Init(maxRefs, n), before, [Reserve(0, 0)]);
    RunOne(Step, s, Reserve(0, 0));
    SumUpdate(s.refs, One, 0, s.refs[0] + 1);
  }

  /** With 2^32 + 1 references the count wraps, and a release destroys the node under 2^32 holders' feet. */
  lemma WrapDestroysEarly(maxRefs: nat, n: nat) returns (actions: seq<Action>)
    requires maxRefs > TWO_32 && n > 0
    ensures !DestroyedOnceAtZero(Run(Step, Init(maxRefs, n), actions))
  {
    var before := Hoard(maxRefs, n, TWO_32 + 1);
    var s := Run(Step, Init(maxRefs, n), before);
    actions := before + [Release(0)];
    RunAppend(Step, Init(maxRefs, n), before, [Release(0)]);
    RunOne(Step, s, Release(0));
    SumUpdate(s.refs, One, 0, s.refs[0] - 1);
  }

  /** Destruction happens once and last in every interleaving exactly when at most 2^32 references can be out. */
  lemma DestroyedOnceIff(maxRefs: nat, n: nat)
    requires n > 0
    ensures (forall actions :: DestroyedOnceAtZero(Run(Step, Init(maxRefs, n), actions))) <==> maxRefs <= TWO_32
  {
    if maxRefs <= TWO_32 {
      InitRefs(maxRefs, n);
      forall actions ensures DestroyedOnceAtZero(Run(Step, Init(maxRefs, n), actions)) {
        RunKeepsInv(Init(maxRefs, n), actions);
      }
    } else {
      var actions := WrapDestroysEarly(maxRefs, n);
    }
  }
}
