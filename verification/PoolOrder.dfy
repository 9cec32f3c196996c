/**
 The sync pool is meant to be a stack whose tail is always the least recently used connection.
 When that holds, when it does not, and what it buys the idle check that trims from the tail.
 */
module PoolOrder {
  import opened Words
  import opened Queue
  import opened Runs
  import opened SyncPool


  ghost predicate Sorted(pool: seq<Socket>) {
    forall i, j :: 0 <= i < j < |pool| ==> pool[i].lastUsed >= pool[j].lastUsed
  }

  /** Every socket was stamped at some earlier reading of the clock. */
  ghost predicate Clocked(s: State) {
    && (forall sock :: sock in s.pool ==> sock.lastUsed <= s.clock)
    && (forall t :: 0 <= t < |s.threads| && s.threads[t].Stamped? ==> s.threads[t].sock.lastUsed <= s.clock)
    && (forall t :: 0 <= t < |s.threads| && s.threads[t].Checking? ==> s.threads[t].sock.lastUsed <= s.clock)
  }

  lemma PushKeepsClocked(s: State, t: nat, sock: Socket)
    requires Clocked(s) && t < |s.threads| && sock.lastUsed <= s.clock
    ensures Clocked(PushedBack(s, t, sock))
  {
  }

  lemma StepKeepsClocked(s: State, a: Action)
    requires Clocked(s)
    ensures Clocked(Step(s, a))
  {
    if a.Tick? || a.t >= |s.threads| { return; }
    match (a, s.threads[a.t])
    case (Push(t), Stamped(sock)) => PushKeepsClocked(s, t, sock);
    case (Put(t), Holding(id)) => PushKeepsClocked(s, t, Socket(id, s.clock));
    case _ =>
  }

  /** The state after the first k actions. */
  function After(s: State, actions: seq<Action>, k: nat): State
    requires k <= |actions|
  {
    Run(Step, s, actions[..k])
  }

  lemma AfterNext(s: State, actions: seq<Action>, k: nat)
    requires k < |actions|
    ensures After(s, actions, k + 1) == Step(After(s, actions, k), actions[k])
  {
    assert actions[..k + 1] == actions[..k] + [actions[k]];
    RunAppend(Step, s, actions[..k], [actions[k]]);
    RunOne(Step, After(s, actions, k), actions[k]);
  }

  lemma {:induction false} AfterIsClocked(capacity: uint32, n: nat, actions: seq<Action>, k: nat)
    requires k <= |actions|
    ensures Clocked(After(Init(capacity, n), actions, k))
  {
    if k > 0 {
      AfterIsClocked(capacity, n, actions, k - 1);
      AfterNext(Init(capacity, n), actions, k - 1);
      StepKeepsClocked(After(Init(capacity, n), actions, k - 1), actions[k - 1]);
    }
  }

  // ---------------------------------------------------------- when it is ordered

  /** A stamped socket joins in front of an older one, and a checked one behind a newer one. */
  predicate JoinsInOrder(s: State, a: Action) {
    if a.Tick? || a.t >= |s.threads| || |s.pool| >= s.capacity || s.pool == [] then true
    else
      match (a, s.threads[a.t])
      case (Push(_), Stamped(sock)) => s.pool[0].lastUsed <= sock.lastUsed
      case (PutOldest(_), Checking(sock)) => sock.lastUsed <= s.pool[|s.pool|-1].lastUsed
      case _ => true
  }

  lemma ConsSortedIff(pool: seq<Socket>, sock: Socket)
    requires Sorted(pool)
    ensures Sorted([sock] + pool) <==> pool == [] || pool[0].lastUsed <= sock.lastUsed
  {
    if pool != [] {
      var pushed := [sock] + pool;
      assert pushed[0] == sock && pushed[1] == pool[0];
      if pool[0].lastUsed <= sock.lastUsed {
        forall i, j | 0 <= i < j < |pushed| ensures pushed[i].lastUsed >= pushed[j].lastUsed {
          assert pushed[j] == pool[j - 1];
        }
      }
    }
  }

  lemma SnocSortedIff(pool: seq<Socket>, sock: Socket)
    requires Sorted(pool)
    ensures Sorted(pool + [sock]) <==> pool == [] || sock.lastUsed <= pool[|pool|-1].lastUsed
  {
    if pool != [] {
      var pushed := pool + [sock];
      assert pushed[|pool|] == sock && pushed[|pool| - 1] == pool[|pool| - 1];
    }
  }

  lemma PushedOrderedIff(s: State, t: nat, sock: Socket)
    requires t < |s.threads| && Sorted(s.pool)
    ensures Sorted(PushedBack(s, t, sock).pool)
            <==> (|s.pool| < s.capacity && s.pool != [] ==> s.pool[0].lastUsed <= sock.lastUsed)
  {
    ConsSortedIff(s.pool, sock);
  }

  lemma StepOrderedIff(s: State, a: Action)
    requires Clocked(s) && Sorted(s.pool)
    ensures Sorted(Step(s, a).pool) <==> JoinsInOrder(s, a)
  {
    if a.Tick? || a.t >= |s.threads| { return; }
    match (a, s.threads[a.t])
    case (Push(t), Stamped(sock)) => PushedOrderedIff(s, t, sock);
    case (Put(t), Holding(id)) => PushedOrderedIff(s, t, Socket(id, s.clock));
    case (PutOldest(_), Checking(sock)) => SnocSortedIff(s.pool, sock);
    case _ =>
  }

  /**
   In any interleaving of any number of threads and idle checkers: the tail is always the least
   used exactly when every socket that is pushed joins in order at the end it is pushed on.
   */
  lemma AlwaysOrderedIff(capacity: uint32, n: nat, actions: seq<Action>)
    ensures
      var s := Init(capacity, n);
      (forall k: nat :: k <= |actions| ==> Sorted(After(s, actions, k).pool))
      <==> (forall k: nat :: k < |actions| ==> JoinsInOrder(After(s, actions, k), actions[k]))
  {
    var s := Init(capacity, n);
    forall k: nat | k < |actions| && Sorted(After(s, actions, k).pool)
      ensures Sorted(After(s, actions, k + 1).pool) <==> JoinsInOrder(After(s, actions, k), actions[k])
    {
      AfterIsClocked(capacity, n, actions, k);
      AfterNext(s, actions, k);
      StepOrderedIff(After(s, actions, k), actions[k]);
    }
    if forall k: nat :: k <= |actions| ==> Sorted(After(s, actions, k).pool) {
      forall k: nat | k < |actions| ensures JoinsInOrder(After(s, actions, k), actions[k]) {
        assert Sorted(After(s, actions, k + 1).pool);
      }
    }
    if forall k: nat :: k < |actions| ==> JoinsInOrder(After(s, actions, k), actions[k]) {
      for k := 0 to |actions|
        invariant forall j: nat :: j <= k ==> Sorted(After(s, actions, j).pool)
      {
        assert JoinsInOrder(After(s, actions, k), actions[k]);
      }
    }
  }

  // ------------------------------------------------- with one idle checker

  /** The pool from head to tail, and the socket that the idle checker has taken from its tail. */
  function Line(s: State, tend: nat): seq<Socket> {
    s.pool + if tend < |s.threads| && s.threads[tend].Checking? then [s.threads[tend].sock] else []
  }

  predicate OneTender(actions: seq<Action>, tend: nat) {
    forall a :: a in actions && a.TakeOldest? ==> a.t == tend
  }

  ghost predicate OnlyChecks(s: State, tend: nat) {
    forall t :: 0 <= t < |s.threads| && s.threads[t].Checking? ==> t == tend
  }

  /** A push of a stamped socket that finds room has no newer one in line. */
  predicate PushInOrder(s: State, a: Action, tend: nat) {
    if a.Push? && a.t < |s.threads| && s.threads[a.t].Stamped? && |s.pool| < s.capacity then
      Line(s, tend) == [] || Line(s, tend)[0].lastUsed <= s.threads[a.t].sock.lastUsed
    else true
  }

  /** A push that finds room joins the front of the line, whoever pushes. */
  lemma LinePushed(s: State, t: nat, sock: Socket, tend: nat)
    requires t < |s.threads| && !s.threads[t].Checking?
    ensures Line(PushedBack(s, t, sock), tend)
         == if |s.pool| < s.capacity then [sock] + Line(s, tend) else Line(s, tend)
  {
  }

  /** line' is line, or line without its head or its last socket. */
  predicate LosesAnEnd(line: seq<Socket>, line': seq<Socket>) {
    line' == line || (line != [] && (line' == line[1..] || line' == line[..|line|-1]))
  }

  lemma LineTaken(s: State, s': State, tend: nat)
    requires tend < |s.threads| && s.threads[tend].Idle? && s.pool != []
    requires s'.pool == s.pool[..|s.pool|-1]
    requires s'.threads == s.threads[tend := Checking(s.pool[|s.pool|-1])]
    ensures Line(s', tend) == Line(s, tend)
  {
  }

  lemma LineGivenBack(s: State, s': State, tend: nat)
    requires tend < |s.threads| == |s'.threads| && s.threads[tend].Checking? && !s'.threads[tend].Checking?
    requires s'.pool == s.pool || s'.pool == s.pool + [s.threads[tend].sock]
    ensures LosesAnEnd(Line(s, tend), Line(s', tend))
  {
  }

  lemma TakeOldestLine(s: State, tend: nat)
    ensures Line(Step(s, TakeOldest(tend)), tend) == Line(s, tend)
  {
    if tend < |s.threads| && s.threads[tend].Idle? && s.pool != [] {
      LineTaken(s, Step(s, TakeOldest(tend)), tend);
    }
  }

  lemma PutOldestLine(s: State, t: nat, tend: nat)
    requires OnlyChecks(s, tend)
    ensures LosesAnEnd(Line(s, tend), Line(Step(s, PutOldest(t)), tend))
  {
    if t < |s.threads| && s.threads[t].Checking? {
      LineGivenBack(s, Step(s, PutOldest(t)), tend);
    }
  }

  lemma CloseLine(s: State, t: nat, tend: nat)
    requires OnlyChecks(s, tend)
    ensures LosesAnEnd(Line(s, tend), Line(Step(s, Close(t)), tend))
  {
    if t < |s.threads| && s.threads[t].Checking? {
      LineGivenBack(s, Step(s, Close(t)), tend);
    }
  }

  lemma LineGot(s: State, t: nat, tend: nat)
    ensures var line := Line(s, tend);
            Line(Step(s, Get(t)), tend) == line || (line != [] && Line(Step(s, Get(t)), tend) == line[1..])
  {
  }

  lemma LineUnpushed(s: State, a: Action, tend: nat)
    requires OnlyChecks(s, tend) && (a.TakeOldest? ==> a.t == tend) && !a.Push? && !a.Put?
    ensures LosesAnEnd(Line(s, tend), Line(Step(s, a), tend))
  {
    match a
    case Get(t) => LineGot(s, t, tend);
    case TakeOldest(_) => TakeOldestLine(s, tend);
    case PutOldest(t) => PutOldestLine(s, t, tend);
    case Close(t) => CloseLine(s, t, tend);
    case _ =>
  }

  lemma StepOnlyChecks(s: State, a: Action, tend: nat)
    requires OnlyChecks(s, tend) && (a.TakeOldest? ==> a.t == tend)
    ensures OnlyChecks(Step(s, a), tend)
  {
  }

  lemma LinePushedIff(s: State, t: nat, sock: Socket, tend: nat)
    requires t < |s.threads| && !s.threads[t].Checking? && Sorted(Line(s, tend))
    ensures Sorted(Line(PushedBack(s, t, sock), tend))
            <==> (|s.pool| < s.capacity && Line(s, tend) != [] ==> Line(s, tend)[0].lastUsed <= sock.lastUsed)
  {
    LinePushed(s, t, sock, tend);
    ConsSortedIff(Line(s, tend), sock);
  }

  lemma LineIsClocked(s: State, tend: nat)
    requires Clocked(s)
    ensures forall sock :: sock in Line(s, tend) ==> sock.lastUsed <= s.clock
  {
  }

  lemma LosingAnEndKeepsOrder(line: seq<Socket>, line': seq<Socket>)
    requires Sorted(line) && LosesAnEnd(line, line')
    ensures Sorted(line')
  {
  }

  lemma StepLineIff(s: State, a: Action, tend: nat)
    requires Clocked(s) && OnlyChecks(s, tend) && Sorted(Line(s, tend)) && (a.TakeOldest? ==> a.t == tend)
    ensures Sorted(Line(Step(s, a), tend)) <==> PushInOrder(s, a, tend)
  {
    if !a.Push? && !a.Put? {
      LineUnpushed(s, a, tend);
      LosingAnEndKeepsOrder(Line(s, tend), Line(Step(s, a), tend));
    } else if a.t < |s.threads| && Step(s, a) != s {
      LineIsClocked(s, tend);
      if a.Put? {
        LinePushedIff(s, a.t, Socket(s.threads[a.t].id, s.clock), tend);
      } else {
        LinePushedIff(s, a.t, s.threads[a.t].sock, tend);
      }
    }
  }

  ghost predicate PushesInOrder(s: State, actions: seq<Action>, tend: nat) {
    forall k: nat :: k < |actions| ==> PushInOrder(After(s, actions, k), actions[k], tend)
  }

  lemma {:induction false} AfterOnlyChecks(capacity: uint32, n: nat, actions: seq<Action>, tend: nat, k: nat)
    requires OneTender(actions, tend) && k <= |actions|
    ensures OnlyChecks(After(Init(capacity, n), actions, k), tend)
  {
    if k > 0 {
      AfterOnlyChecks(capacity, n, actions, tend, k - 1);
      AfterNext(Init(capacity, n), actions, k - 1);
      StepOnlyChecks(After(Init(capacity, n), actions, k - 1), actions[k - 1], tend);
    }
  }

  /**
   With one idle checker its own pushes need no condition: the pool followed by the socket it
   holds is always ordered exactly when every stamped socket that finds room has no newer one in
   line.
   */
  lemma LineOrderedIff(capacity: uint32, n: nat, actions: seq<Action>, tend: nat)
    requires OneTender(actions, tend)
    ensures
      var s := Init(capacity, n);
      (forall k: nat :: k <= |actions| ==> Sorted(Line(After(s, actions, k), tend)))
      <==> PushesInOrder(s, actions, tend)
  {
    var s := Init(capacity, n);
    forall k: nat | k < |actions| && Sorted(Line(After(s, actions, k), tend))
      ensures Sorted(Line(After(s, actions, k + 1), tend)) <==> PushInOrder(After(s, actions, k), actions[k], tend)
    {
      AfterIsClocked(capacity, n, actions, k);
      AfterOnlyChecks(capacity, n, actions, tend, k);
      AfterNext(s, actions, k);
      StepLineIff(After(s, actions, k), actions[k], tend);
    }
    if forall k: nat :: k <= |actions| ==> Sorted(Line(After(s, actions, k), tend)) {
      forall k: nat | k < |actions| ensures PushInOrder(After(s, actions, k), actions[k], tend) {
        assert Sorted(Line(After(s, actions, k + 1), tend));
      }
    }
    if PushesInOrder(s, actions, tend) {
      for k := 0 to |actions|
        invariant forall j: nat :: j <= k ==> Sorted(Line(After(s, actions, j), tend))
      {
        assert PushInOrder(After(s, actions, k), actions[k], tend);
      }
    }
  }

  /** Stamping and pushing as single steps. */
  predicate AtomicPuts(actions: seq<Action>) {
    forall a :: a in actions ==> !a.Stamp?
  }

  ghost predicate NoneStamped(s: State) {
    forall t :: 0 <= t < |s.threads| ==> !s.threads[t].Stamped?
  }

  lemma {:induction false} AfterNoneStamped(capacity: uint32, n: nat, actions: seq<Action>, k: nat)
    requires AtomicPuts(actions) && k <= |actions|
    ensures NoneStamped(After(Init(capacity, n), actions, k))
  {
    if k > 0 {
      AfterNoneStamped(capacity, n, actions, k - 1);
      AfterNext(Init(capacity, n), actions, k - 1);
      assert actions[k - 1] in actions;
    }
  }

  lemma AtomicPutsAreInOrder(capacity: uint32, n: nat, actions: seq<Action>, tend: nat)
    requires AtomicPuts(actions)
    ensures PushesInOrder(Init(capacity, n), actions, tend)
  {
    forall k: nat | k < |actions| ensures PushInOrder(After(Init(capacity, n), actions, k), actions[k], tend) {
      AfterNoneStamped(capacity, n, actions, k);
    }
  }

  lemma OrderedAtTheEnd(capacity: uint32, n: nat, actions: seq<Action>, tend: nat)
    requires OneTender(actions, tend) && PushesInOrder(Init(capacity, n), actions, tend)
    ensures Sorted(Run(Step, Init(capacity, n), actions).pool) && Clocked(Run(Step, Init(capacity, n), actions))
  {
    LineOrderedIff(capacity, n, actions, tend);
    AfterIsClocked(capacity, n, actions, |actions|);
    var s := After(Init(capacity, n), actions, |actions|);
    assert actions[..|actions|] == actions;
    assert forall i :: 0 <= i < |s.pool| ==> s.pool[i] == Line(s, tend)[i];
  }

  /** In every interleaving of atomic puts the pool is ordered from most to least recently used. */
  lemma LeastUsedAtTail(capacity: uint32, n: nat, actions: seq<Action>, tend: nat)
    requires AtomicPuts(actions) && OneTender(actions, tend)
    ensures Sorted(Run(Step, Init(capacity, n), actions).pool)
  {
    AtomicPutsAreInOrder(capacity, n, actions, tend);
    OrderedAtTheEnd(capacity, n, actions, tend);
  }

  /** The pool is a stack: the connection put back last is the first one handed out, to whoever asks. */
  lemma LastPutIsFirstGot(capacity: uint32, n: nat, actions: seq<Action>, s: State, t: nat, u: nat)
    requires CounterWide(capacity, n) && s == Run(Step, Init(capacity, n), actions)
    requires t < |s.threads| && u < |s.threads| && s.threads[t].Holding? && s.threads[u].Idle?
    ensures Step(Step(s, Put(t)), Get(u))
         == s.(threads := s.threads[t := Idle][u := Holding(s.threads[t].id)])
  {
    InitInv(capacity, n);
    RunKeepsInv(Init(capacity, n), actions);
    HolderFindsRoom(s, t);
    var put := s.(pool := [Socket(s.threads[t].id, s.clock)] + s.pool, threads := s.threads[t := Idle]);
    assert Step(s, Put(t)) == put;
    assert put.pool[1..] == s.pool;
  }

  /**
   as_node_put_connection stamps and pushes in two steps, so the order can break: thread 0
   stamps, thread 1 stamps later and pushes, then thread 0 pushes in front of it.
   */
  lemma SplitPutBreaksOrder() returns (actions: seq<Action>)
    ensures !Sorted(Run(Step, Init(2, 2), actions).pool)
  {
    var setup := [Incr(0), Open(0), Incr(1), Open(1)];
    var race := [Stamp(0), Tick, Put(1), Push(0)];
    actions := setup + race;
    RunAppend(Step, Init(2, 2), setup, race);
    OpenBoth();
    Race();
    var pool := Run(Step, Init(2, 2), actions).pool;
    assert pool[0].lastUsed < pool[1].lastUsed;
  }

  const BOTH_HOLD := State(2, 2, [], [Holding(0), Holding(1)], {0, 1}, 2, 0, 0)

  lemma OpenBoth()
    ensures Run(Step, Init(2, 2), [Incr(0), Open(0), Incr(1), Open(1)]) == BOTH_HOLD
  {
    RunFour(Init(2, 2), Incr(0), Open(0), Incr(1), Open(1));
    var s1 := State(2, 1, [], [Reserved, Idle], {}, 0, 0, 0);
    assert Step(Init(2, 2), Incr(0)) == s1;
    var s2 := State(2, 1, [], [Holding(0), Idle], {0}, 1, 0, 0);
    assert Step(s1, Open(0)) == s2;
    var s3 := State(2, 2, [], [Holding(0), Reserved], {0}, 1, 0, 0);
    assert Step(s2, Incr(1)) == s3;
  }

  lemma Race()
    ensures Run(Step, BOTH_HOLD, [Stamp(0), Tick, Put(1), Push(0)]).pool == [Socket(0, 0), Socket(1, 1)]
  {
    RunFour(BOTH_HOLD, Stamp(0), Tick, Put(1), Push(0));
    var stamped := State(2, 2, [], [Stamped(Socket(0, 0)), Holding(1)], {0, 1}, 2, 1, 0);
    assert Step(Step(BOTH_HOLD, Stamp(0)), Tick) == stamped;
    var pushed := State(2, 2, [Socket(1, 1)], [Stamped(Socket(0, 0)), Idle], {0, 1}, 2, 1, 0);
    assert Step(stamped, Put(1)) == pushed;
  }

  /**
   The idle check can break the order by itself: it holds the newer socket while the older one is
   pushed on an empty pool, and then puts its own behind it.
   */
  lemma CheckerBreaksOrder() returns (actions: seq<Action>)
    ensures OneTender(actions, 2) && !Sorted(Run(Step, Init(2, 3), actions).pool)
  {
    var setup := [Incr(0), Open(0), Incr(1), Open(1)];
    var race, check := [Stamp(0), Tick, Put(1), TakeOldest(2)], [Push(0), PutOldest(2)];
    actions := setup + race + check;
    RunAppend(Step, Init(2, 3), setup + race, check);
    RunAppend(Step, Init(2, 3), setup, race);
    OpenTwoOfThree();
    NewerIsTaken();
    NewerIsPutBack();
    var pool := Run(Step, Init(2, 3), actions).pool;
    assert pool[0].lastUsed < pool[1].lastUsed;
  }

  const TWO_OF_THREE_HOLD := State(2, 2, [], [Holding(0), Holding(1), Idle], {0, 1}, 2, 0, 0)

  lemma OpenTwoOfThree()
    ensures Run(Step, Init(2, 3), [Incr(0), Open(0), Incr(1), Open(1)]) == TWO_OF_THREE_HOLD
  {
    RunFour(Init(2, 3), Incr(0), Open(0), Incr(1), Open(1));
    var s1 := State(2, 1, [], [Reserved, Idle, Idle], {}, 0, 0, 0);
    assert Step(Init(2, 3), Incr(0)) == s1;
    var s2 := State(2, 1, [], [Holding(0), Idle, Idle], {0}, 1, 0, 0);
    assert Step(s1, Open(0)) == s2;
    var s3 := State(2, 2, [], [Holding(0), Reserved, Idle], {0}, 1, 0, 0);
    assert Step(s2, Incr(1)) == s3;
  }

  const NEWER_CHECKED := State(2, 2, [], [Stamped(Socket(0, 0)), Idle, Checking(Socket(1, 1))], {0, 1}, 2, 1, 0)

  lemma NewerIsPutBack()
    ensures Run(Step, NEWER_CHECKED, [Push(0), PutOldest(2)]).pool == [Socket(0, 0), Socket(1, 1)]
  {
    RunTwo(Step, NEWER_CHECKED, Push(0), PutOldest(2));
    var pushed := State(2, 2, [Socket(0, 0)], [Idle, Idle, Checking(Socket(1, 1))], {0, 1}, 2, 1, 0);
    assert Step(NEWER_CHECKED, Push(0)) == pushed;
  }

  lemma NewerIsTaken()
    ensures Run(Step, TWO_OF_THREE_HOLD, [Stamp(0), Tick, Put(1), TakeOldest(2)]) == NEWER_CHECKED
  {
    RunFour(TWO_OF_THREE_HOLD, Stamp(0), Tick, Put(1), TakeOldest(2));
    var stamped := State(2, 2, [], [Stamped(Socket(0, 0)), Holding(1), Idle], {0, 1}, 2, 1, 0);
    assert Step(Step(TWO_OF_THREE_HOLD, Stamp(0)), Tick) == stamped;
    var pushed := State(2, 2, [Socket(1, 1)], [Stamped(Socket(0, 0)), Idle, Idle], {0, 1}, 2, 1, 0);
    assert Step(stamped, Put(1)) == pushed;
  }

  lemma RunFour(s: State, a: Action, b: Action, c: Action, d: Action)
    ensures Run(Step, s, [a, b, c, d]) == Step(Step(Step(Step(s, a), b), c), d)
  {
    assert [a, b, c, d] == [a, b] + [c, d];
    RunAppend(Step, s, [a, b], [c, d]);
    RunTwo(Step, s, a, b);
    RunTwo(Step, Step(Step(s, a), b), c, d);
  }

  // ------------------------------------------------------------ the idle check

  /** as_socket_current, with its uint64 subtraction. */
  predicate Current(sock: Socket, now: nat, maxIdle: nat) {
    Sub64(now, sock.lastUsed) <= maxIdle
  }

  lemma CurrentIff(sock: Socket, now: nat, maxIdle: nat)
    requires sock.lastUsed < TWO_64 && now < TWO_64
    ensures Current(sock, now, maxIdle) <==> (now - sock.lastUsed) % TWO_64 <= maxIdle
    ensures sock.lastUsed <= now ==> (Current(sock, now, maxIdle) <==> now - sock.lastUsed <= maxIdle)
  {
    Sub64IsModular(now, sock.lastUsed);
  }

  /** Dropping from the tail until the first current socket. */
  function TrimTail(pool: seq<Socket>, now: nat, maxIdle: nat): seq<Socket>
    decreases |pool|
  {
    if pool == [] || Current(pool[|pool|-1], now, maxIdle) then pool
    else TrimTail(pool[..|pool|-1], now, maxIdle)
  }

  /** The same when the i-th socket is checked at clock(i). */
  function TrimClocked(pool: seq<Socket>, clock: nat -> nat, i: nat, maxIdle: nat): seq<Socket>
    decreases |pool|
  {
    if pool == [] || Current(pool[|pool|-1], clock(i), maxIdle) then pool
    else TrimClocked(pool[..|pool|-1], clock, i + 1, maxIdle)
  }

  lemma {:induction false} TrimClockedLength(pool: seq<Socket>, clock: nat -> nat, i: nat, maxIdle: nat)
    ensures |TrimClocked(pool, clock, i, maxIdle)| <= |pool|
    decreases |pool|
  {
    if pool != [] { TrimClockedLength(pool[..|pool|-1], clock, i + 1, maxIdle); }
  }

  /** A clock of uint64 readings that does not go back. */
  ghost predicate Monotone(clock: nat -> nat) {
    (forall i: nat, j: nat :: i <= j ==> clock(i) <= clock(j)) && forall i: nat :: clock(i) < TWO_64
  }

  /** Checking at several readings trims as checking at the last of them does. */
  lemma {:induction false} TrimClockedIsTrim(pool: seq<Socket>, clock: nat -> nat, i: nat, maxIdle: nat)
    requires Monotone(clock) && forall sock :: sock in pool ==> sock.lastUsed <= clock(i)
    ensures
      var left := TrimClocked(pool, clock, i, maxIdle);
      |left| <= |pool| && left == TrimTail(pool, clock(i + |pool| - |left|), maxIdle)
    decreases |pool|
  {
    if pool != [] && !Current(pool[|pool|-1], clock(i), maxIdle) {
      var rest := pool[..|pool|-1];
      assert clock(i) <= clock(i + 1);
      TrimClockedIsTrim(rest, clock, i + 1, maxIdle);
      var now := clock(i + 1 + |rest| - |TrimClocked(rest, clock, i + 1, maxIdle)|);
      assert clock(i) <= now < TWO_64;
      StaysIdle(pool[|pool|-1], clock(i), now, maxIdle);
    }
  }

  lemma StaysIdle(sock: Socket, now: nat, later: nat, maxIdle: nat)
    requires sock.lastUsed <= now <= later < TWO_64 && !Current(sock, now, maxIdle)
    ensures !Current(sock, later, maxIdle)
  {
  }

  /** Where the trim stops. */
  lemma {:induction false} TrimStops(pool: seq<Socket>, now: nat, maxIdle: nat)
    ensures
      var left := TrimTail(pool, now, maxIdle);
      && |left| <= |pool| && left == pool[..|left|]
      && (forall i :: |left| <= i < |pool| ==> !Current(pool[i], now, maxIdle))
      && (left != [] ==> Current(pool[|left| - 1], now, maxIdle))
    decreases |pool|
  {
    if pool != [] && !Current(pool[|pool|-1], now, maxIdle) {
      var rest := pool[..|pool|-1];
      TrimStops(rest, now, maxIdle);
      forall i | |TrimTail(rest, now, maxIdle)| <= i < |pool| ensures !Current(pool[i], now, maxIdle) {
        if i < |pool| - 1 { assert pool[i] == rest[i]; }
      }
    }
  }

  /**
   Trimming from the tail leaves the sockets idle for at most maxIdle, all of them and no others,
   if and only if none of them is behind a socket idle for longer.
   */
  lemma TrimRemovesExactlyIdleIff(pool: seq<Socket>, now: nat, maxIdle: nat)
    requires now < TWO_64 && forall i :: 0 <= i < |pool| ==> pool[i].lastUsed < TWO_64
    ensures
      var left := TrimTail(pool, now, maxIdle);
      && |left| <= |pool| && left == pool[..|left|]
      && ((forall i :: 0 <= i < |pool| ==> (i < |left| <==> (now - pool[i].lastUsed) % TWO_64 <= maxIdle))
          <==> (forall i, j :: 0 <= i < j < |pool| && (now - pool[j].lastUsed) % TWO_64 <= maxIdle
                               ==> (now - pool[i].lastUsed) % TWO_64 <= maxIdle))
  {
    TrimStops(pool, now, maxIdle);
    forall i | 0 <= i < |pool|
      ensures Current(pool[i], now, maxIdle) <==> (now - pool[i].lastUsed) % TWO_64 <= maxIdle
    {
      CurrentIff(pool[i], now, maxIdle);
    }
  }

  /** After every run whose pushes are in order, and so after every run of atomic puts, the trim is exact. */
  lemma OrderedTrimIsExact(capacity: uint32, n: nat, actions: seq<Action>, tend: nat, now: nat, maxIdle: nat)
    requires OneTender(actions, tend) && PushesInOrder(Init(capacity, n), actions, tend)
    requires Run(Step, Init(capacity, n), actions).clock <= now < TWO_64
    ensures
      var pool := Run(Step, Init(capacity, n), actions).pool;
      var left := TrimTail(pool, now, maxIdle);
      && |left| <= |pool| && left == pool[..|left|]
      && forall i :: 0 <= i < |pool| ==> (i < |left| <==> now - pool[i].lastUsed <= maxIdle)
  {
    OrderedAtTheEnd(capacity, n, actions, tend);
    SortedTrimIsExact(Run(Step, Init(capacity, n), actions), now, maxIdle);
  }

  /** And so is the trim that reads the clock for every socket, at its last reading. */
  lemma ClockedTrimIsExact(capacity: uint32, n: nat, actions: seq<Action>, tend: nat, clock: nat -> nat, maxIdle: nat)
    requires OneTender(actions, tend) && PushesInOrder(Init(capacity, n), actions, tend)
    requires Monotone(clock) && Run(Step, Init(capacity, n), actions).clock <= clock(0)
    ensures
      var pool := Run(Step, Init(capacity, n), actions).pool;
      var left := TrimClocked(pool, clock, 0, maxIdle);
      && |left| <= |pool| && left == pool[..|left|]
      && forall i :: 0 <= i < |pool| ==>
           (i < |left| <==> clock(|pool| - |left|) - pool[i].lastUsed <= maxIdle)
  {
    OrderedAtTheEnd(capacity, n, actions, tend);
    SortedClockedTrim(Run(Step, Init(capacity, n), actions), clock, maxIdle);
  }

  lemma SortedClockedTrim(s: State, clock: nat -> nat, maxIdle: nat)
    requires Sorted(s.pool) && Clocked(s) && Monotone(clock) && s.clock <= clock(0)
    ensures
      var left := TrimClocked(s.pool, clock, 0, maxIdle);
      && |left| <= |s.pool| && left == s.pool[..|left|]
      && forall i :: 0 <= i < |s.pool| ==>
           (i < |left| <==> clock(|s.pool| - |left|) - s.pool[i].lastUsed <= maxIdle)
  {
    TrimClockedIsTrim(s.pool, clock, 0, maxIdle);
    var last := |s.pool| - |TrimClocked(s.pool, clock, 0, maxIdle)|;
    assert clock(0) <= clock(last) < TWO_64;
    SortedTrimIsExact(s, clock(last), maxIdle);
  }

  lemma SortedTrimIsExact(s: State, now: nat, maxIdle: nat)
    requires Sorted(s.pool) && Clocked(s) && s.clock <= now < TWO_64
    ensures
      var left := TrimTail(s.pool, now, maxIdle);
      && |left| <= |s.pool| && left == s.pool[..|left|]
      && forall i :: 0 <= i < |s.pool| ==> (i < |left| <==> now - s.pool[i].lastUsed <= maxIdle)
  {
    TrimStops(s.pool, now, maxIdle);
    forall i | 0 <= i < |s.pool|
      ensures Current(s.pool[i], now, maxIdle) <==> now - s.pool[i].lastUsed <= maxIdle
    {
      assert s.pool[i] in s.pool;
      CurrentIff(s.pool[i], now, maxIdle);
    }
  }
}
