/**
 as_nodes_reserve and as_nodes_release of as_cluster.h.  Readers load the pointer to the current
 node array and increment its count in two separate steps, while the tend thread swaps in new
 arrays and drops an old array's own reference later, through the gc list.
 */
module NodesArray {
  import opened Words
  import opened Threads
  import opened Runs

  datatype Reader = Out | Loaded(id: nat) | Using(id: nat)

  datatype Nodes = Nodes(count: uint32, freed: bool)

  datatype State = State(
    current: nat,
    gc: set<nat>,          // swapped out, own reference not dropped yet
    arrays: seq<Nodes>,
    readers: seq<Reader>,
    misuse: bool           // a freed array was incremented, decremented or freed
  )

  datatype Action =
    | Load(r: nat)         // as_load_ptr in as_nodes_reserve
    | Grab(r: nat)         // as_incr_uint32 in as_nodes_reserve
    | Drop(r: nat)         // as_nodes_release
    | Swap                 // the tend thread installs a new array
    | Collect(id: nat)     // the gc drops an array's own reference, after a grace period
    | CollectNow(id: nat)  // the same without waiting

  predicate NoneLoaded(s: State, id: nat) {
    forall r :: 0 <= r < |s.readers| ==> s.readers[r] != Loaded(id)
  }

  /** The decrement of as_nodes_release; the one that sees zero frees the array. */
  function Decremented(s: State, id: nat): State {
    if id >= |s.arrays| then s
    else
      var after := Sub32(s.arrays[id].count, 1);
      s.(arrays := s.arrays[id := Nodes(after, s.arrays[id].freed || after == 0)],
         misuse := s.misuse || s.arrays[id].freed)
  }

  function Incremented(s: State, id: nat): State {
    if id >= |s.arrays| then s
    else
      s.(arrays := s.arrays[id := Nodes(Add32(s.arrays[id].count, 1), s.arrays[id].freed)],
         misuse := s.misuse || s.arrays[id].freed)
  }

  function Step(s: State, a: Action): State {
    match a
    case Load(r) =>
      if r < |s.readers| && s.readers[r].Out? then s.(readers := s.readers[r := Loaded(s.current)]) else s
    case Grab(r) =>
      if r < |s.readers| && s.readers[r].Loaded? then
        Incremented(s, s.readers[r].id).(readers := s.readers[r := Using(s.readers[r].id)])
      else s
    case Drop(r) =>
      if r < |s.readers| && s.readers[r].Using? then
        Decremented(s, s.readers[r].id).(readers := s.readers[r := Out])
      else s
    case Swap =>
      s.(current := |s.arrays|, gc := s.gc + {s.current}, arrays := s.arrays + [Nodes(1, false)])
    case Collect(id) =>
      if id in s.gc && NoneLoaded(s, id) then Decremented(s, id).(gc := s.gc - {id}) else s
    case CollectNow(id) =>
      if id in s.gc then Decremented(s, id).(gc := s.gc - {id}) else s
  }

  function Init(n: nat): State {
    State(0, {}, [Nodes(1, false)], seq(n, _ => Out), false)
  }

  // ------------------------------------------------------------- the invariant

  /** Every pointer in use is one of an array. */
  predicate WellIndexed(s: State) {
    && s.current < |s.arrays|
    && (forall id :: id in s.gc ==> id < |s.arrays|)
    && forall r :: 0 <= r < |s.readers| && !s.readers[r].Out? ==> s.readers[r].id < |s.arrays|
  }

  function UsesOf(id: nat): Reader -> nat {
    r => if r == Using(id) then 1 else 0
  }

  function Users(s: State, id: nat): nat { Sum(s.readers, UsesOf(id)) }

  predicate Own(s: State, id: nat) { id == s.current || id in s.gc }

  ghost predicate ArrayInv(s: State, id: nat)
    requires id < |s.arrays|
  {
    && s.arrays[id].count == Users(s, id) + (if Own(s, id) then 1 else 0)
    && (s.arrays[id].freed <==> s.arrays[id].count == 0)
    && (!Own(s, id) ==> NoneLoaded(s, id))
  }

  ghost predicate Inv(s: State) {
    && WellIndexed(s) && |s.readers| + 1 < TWO_32
    && s.current !in s.gc && !s.misuse
    && forall id :: 0 <= id < |s.arrays| ==> ArrayInv(s, id)
  }

  lemma {:induction false} SumOfUses(readers: seq<Reader>, id: nat, r: nat)
    requires r < |readers|
    ensures Sum(readers, UsesOf(id)) <= |readers|
    ensures readers[r] != Using(id) ==> Sum(readers, UsesOf(id)) < |readers|
    ensures readers[r] == Using(id) ==> Sum(readers, UsesOf(id)) > 0
    decreases |readers|
  {
    if |readers| > 1 { SumOfUses(readers[1..], id, if r > 0 then r - 1 else 0); }
  }

  lemma {:induction false} NoUsers(readers: seq<Reader>, id: nat)
    requires forall r :: 0 <= r < |readers| ==> readers[r] != Using(id)
    ensures Sum(readers, UsesOf(id)) == 0
    decreases |readers|
  {
    if readers != [] { NoUsers(readers[1..], id); }
  }

  /** Reader r goes from one state to another, and the array it points to is counted accordingly. */
  lemma UsersMove(s: State, s': State, r: nat, id: nat)
    requires r < |s.readers| == |s'.readers| && s'.readers == s.readers[r := s'.readers[r]]
    ensures Users(s', id) == Users(s, id) - (if s.readers[r] == Using(id) then 1 else 0)
                                          + (if s'.readers[r] == Using(id) then 1 else 0)
    ensures Users(s, id) <= |s.readers|
    ensures s.readers[r] == Using(id) ==> Users(s, id) > 0
    ensures s.readers[r] != Using(id) ==> Users(s, id) < |s.readers|
  {
    SumUpdate(s.readers, UsesOf(id), r, s'.readers[r]);
    SumOfUses(s.readers, id, r);
  }

  lemma ReaderKeepsInv(s: State, a: Action, r: nat)
    requires Inv(s) && r < |s.readers| && a in {Load(r), Grab(r), Drop(r)}
    ensures Inv(Step(s, a))
  {
    var s' := Step(s, a);
    if !s.readers[r].Out? {
      assert ArrayInv(s, s.readers[r].id);
      UsersMove(s, s', r, s.readers[r].id);
    }
    assert |s'.arrays| == |s.arrays|;
    forall id | 0 <= id < |s'.arrays| ensures ArrayInv(s', id) {
      assert ArrayInv(s, id);
      UsersMove(s, s', r, id);
    }
  }

  lemma SwapKeepsInv(s: State)
    requires Inv(s)
    ensures Inv(Step(s, Swap))
  {
    var s' := Step(s, Swap);
    forall id | 0 <= id < |s'.arrays| ensures ArrayInv(s', id) {
      if id < |s.arrays| { assert ArrayInv(s, id); } else { NoUsers(s.readers, id); }
    }
  }

  lemma CollectKeepsInv(s: State, id: nat)
    requires Inv(s) && NoneLoaded(s, id)
    ensures Inv(Step(s, Collect(id)))
  {
    var s' := Step(s, Collect(id));
    if id in s.gc { assert ArrayInv(s, id); }
    forall j | 0 <= j < |s'.arrays| ensures ArrayInv(s', j) {
      assert ArrayInv(s, j);
    }
  }

  predicate Graceful(actions: seq<Action>) {
    forall a :: a in actions ==> !a.CollectNow?
  }

  lemma StepKeepsInv(s: State, a: Action)
    requires Inv(s) && !a.CollectNow?
    ensures Inv(Step(s, a))
  {
    match a
    case Load(r) => if r < |s.readers| { ReaderKeepsInv(s, a, r); }
    case Grab(r) => if r < |s.readers| { ReaderKeepsInv(s, a, r); }
    case Drop(r) => if r < |s.readers| { ReaderKeepsInv(s, a, r); }
    case Swap => SwapKeepsInv(s);
    case Collect(id) => if NoneLoaded(s, id) { CollectKeepsInv(s, id); }
  }

  lemma {:induction false} RunKeepsInv(s: State, actions: seq<Action>)
    requires Inv(s) && Graceful(actions)
    ensures Inv(Run(Step, s, actions))
    decreases |actions|
  {
    if actions != [] {
      assert actions[0] in actions;
      StepKeepsInv(s, actions[0]);
      RunKeepsInv(Step(s, actions[0]), actions[1..]);
    }
  }

  // --------------------------------------------------------------- every run

  /**
   With grace periods, in every interleaving: no freed array is touched, and an array is freed
   exactly when it is swapped out, its own reference is dropped and nobody uses it.
   */
  lemma NoUseAfterFree(n: nat, actions: seq<Action>)
    requires n + 1 < TWO_32 && Graceful(actions)
    ensures
      var s := Run(Step, Init(n), actions);
      && !s.misuse
      && forall id :: 0 <= id < |s.arrays| ==> (s.arrays[id].freed <==> !Own(s, id) && Users(s, id) == 0)
  {
    NoUsers(Init(n).readers, 0);
    assert ArrayInv(Init(n), 0);
    RunKeepsInv(Init(n), actions);
    var s := Run(Step, Init(n), actions);
    forall id | 0 <= id < |s.arrays|
      ensures s.arrays[id].freed <==> !Own(s, id) && Users(s, id) == 0
    {
      assert ArrayInv(s, id);
    }
  }

  predicate OfOthers(actions: seq<Action>, r: nat) {
    forall a :: a in actions && (a.Load? || a.Grab? || a.Drop?) ==> a.r != r
  }

  lemma {:induction false} OthersLeaveAlone(s: State, others: seq<Action>, r: nat)
    requires r < |s.readers| && OfOthers(others, r)
    ensures |Run(Step, s, others).readers| == |s.readers| && Run(Step, s, others).readers[r] == s.readers[r]
    decreases |others|
  {
    if others != [] {
      assert others[0] in others;
      OthersLeaveAlone(Step(s, others[0]), others[1..], r);
    }
  }

  /**
   A reserve returns the array that was current at its load, with one reference more, however
   many arrays are swapped in between; and the release gives that reference back.
   */
  lemma ReserveReturnsLoaded(s: State, r: nat, others: seq<Action>)
    requires Inv(s) && r < |s.readers| && s.readers[r].Out? && OfOthers(others, r) && Graceful(others)
    ensures
      var id := s.current;
      var s' := Run(Step, Step(s, Load(r)), others);
      var s'' := Step(s', Grab(r));
      && id < |s'.arrays| && r < |s''.readers| && s''.readers[r] == Using(id)
      && s''.arrays == s'.arrays[id := s''.arrays[id]]
      && s''.arrays[id].count == s'.arrays[id].count + 1 && !s''.arrays[id].freed
      && Step(s'', Drop(r)).arrays == s'.arrays && Step(s'', Drop(r)).readers[r] == Out
  {
    var loaded := Step(s, Load(r));
    StepKeepsInv(s, Load(r));
    OthersLeaveAlone(loaded, others, r);
    RunKeepsInv(loaded, others);
    var s' := Run(Step, loaded, others);
    assert ArrayInv(s', s.current);
    UsersMove(s', Step(s', Grab(r)), r, s.current);
  }

  /** A swap installs a new array with its own reference, and the old one is freed by its collection if nobody uses it. */
  lemma SwapThenCollect(s: State)
    requires Inv(s) && NoneLoaded(s, s.current)
    ensures
      var (old', id) := (s.current, |s.arrays|);
      var swapped := Step(s, Swap);
      && swapped.current == id && swapped.arrays == s.arrays + [Nodes(1, false)] && swapped.gc == s.gc + {old'}
      && swapped.readers == s.readers
      && Step(swapped, Collect(old')).gc == s.gc
      && Step(swapped, Collect(old')).arrays[old'].count == s.arrays[old'].count - 1
      && (Step(swapped, Collect(old')).arrays[old'].freed <==> Users(s, old') == 0)
  {
    assert ArrayInv(s, s.current);
    assert s.gc + {s.current} - {s.current} == s.gc;
  }

  // ----------------------------------------------- the grace period is needed

  /** Reader r holds a bare pointer to an array whose own reference is gone. */
  ghost predicate Exposed(s: State, id: nat, r: nat) {
    && WellIndexed(s) && |s.readers| + 1 < TWO_32
    && id < |s.arrays| && r < |s.readers| && s.readers[r] == Loaded(id)
    && s.arrays[id].count == Users(s, id)
    && (s.arrays[id].freed <==> Users(s, id) == 0)
  }

  lemma {:induction false} SomeUser(readers: seq<Reader>, id: nat) returns (r: nat)
    requires Sum(readers, UsesOf(id)) > 0
    ensures r < |readers| && readers[r] == Using(id)
    decreases |readers|
  {
    if readers[0] == Using(id) { return 0; }
    r := SomeUser(readers[1..], id);
    r := r + 1;
  }

  /** Let every user release; the reader then increments a freed array. */
  lemma {:induction false} ExposedGoesWrong(s: State, id: nat, r: nat) returns (later: seq<Action>)
    requires Exposed(s, id, r)
    ensures Graceful(later) && Run(Step, s, later).misuse
    decreases Users(s, id)
  {
    if Users(s, id) == 0 {
      later := [Grab(r)];
      RunOne(Step, s, Grab(r));
    } else {
      var user := SomeUser(s.readers, id);
      SumUpdate(s.readers, UsesOf(id), user, Out);
      var rest := ExposedGoesWrong(Step(s, Drop(user)), id, r);
      later := [Drop(user)] + rest;
      assert later[1..] == rest;
    }
  }

  /**
   Dropping an array's own reference is safe for every continuation exactly when no reader is
   between its load and its increment of that array.
   */
  lemma GracePeriodIff(s: State, id: nat)
    requires Inv(s) && id in s.gc
    ensures (forall later :: Graceful(later) ==> !Run(Step, Step(s, CollectNow(id)), later).misuse)
            <==> NoneLoaded(s, id)
  {
    if NoneLoaded(s, id) {
      assert Step(s, CollectNow(id)) == Step(s, Collect(id));
      CollectKeepsInv(s, id);
      forall later | Graceful(later) ensures !Run(Step, Step(s, CollectNow(id)), later).misuse {
        RunKeepsInv(Step(s, CollectNow(id)), later);
      }
    } else {
      var r :| 0 <= r < |s.readers| && s.readers[r] == Loaded(id);
      assert ArrayInv(s, id);
      var later := ExposedGoesWrong(Step(s, CollectNow(id)), id, r);
    }
  }
}
