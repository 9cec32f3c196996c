/**
 The synchronous connection pool as a step machine: any number of threads, each action one
 atomic step of as_conn_pool.h or as_node.h, interleaved in any order.
 */
module SyncPool {
  import opened Words
  import opened Threads
  import opened Queue
  import opened Runs

  datatype Socket = Socket(id: nat, lastUsed: nat)

  datatype Thread =
    | Idle
    | OverLimit             // as_conn_pool_incr failed; as_conn_pool_decr is still to come
    | Reserved              // as_conn_pool_incr succeeded; the connection is not open yet
    | Holding(id: nat)
    | Stamped(sock: Socket) // as_node_put_connection between last_used and the push
    | Checking(sock: Socket)// the idle check between pop_tail and push_tail or close
    | Closed                // the socket is closed; as_conn_pool_decr is still to come

  datatype State = State(
    capacity: uint32,
    total: uint32,
    pool: seq<Socket>,
    threads: seq<Thread>,
    open: set<nat>,         // connections opened and not closed
    nextId: nat,
    clock: nat,
    refused: nat            // times as_node_put_connection took its close branch
  )

  datatype Action =
    | Tick
    | Get(t: nat)           // as_conn_pool_pop_head
    | Incr(t: nat)          // as_conn_pool_incr
    | Decr(t: nat)          // as_conn_pool_decr after a failed incr, a failed open or a close
    | Open(t: nat)
    | Stamp(t: nat)         // first half of as_node_put_connection
    | Push(t: nat)          // second half of as_node_put_connection
    | Put(t: nat)           // both halves as one step
    | Close(t: nat)         // as_socket_close in as_node_close_connection
    | TakeOldest(t: nat)    // as_conn_pool_pop_tail by the idle check
    | PutOldest(t: nat)     // as_conn_pool_push_tail by the idle check

  function Init(capacity: uint32, n: nat): State {
    State(capacity, 0, [], seq(n, _ => Idle), {}, 0, 0, 0)
  }

  function PushedBack(s: State, t: nat, sock: Socket): State
    requires t < |s.threads|
  {
    match DequeStep(s.pool, s.capacity, PushHead(sock))
    case (pool, Pushed(true)) => s.(pool := pool, threads := s.threads[t := Idle])
    case _ => s.(threads := s.threads[t := Closed], open := s.open - {sock.id}, refused := s.refused + 1)
  }

  /** One atomic step; an action that its thread cannot take now changes nothing. */
  function Step(s: State, a: Action): State {
    if a.Tick? then s.(clock := s.clock + 1)
    else if a.t >= |s.threads| then s
    else
      match (a, s.threads[a.t])
      case (Get(t), Idle) =>
        (match DequeStep(s.pool, s.capacity, PopHead)
         case (pool, Popped(Some(sock))) => s.(pool := pool, threads := s.threads[t := Holding(sock.id)])
         case _ => s)
      case (Incr(t), Idle) =>
        s.(total := Add32(s.total, 1),
           threads := s.threads[t := if s.total < s.capacity then Reserved else OverLimit])
      case (Decr(t), OverLimit) => s.(total := Sub32(s.total, 1), threads := s.threads[t := Idle])
      case (Decr(t), Reserved) => s.(total := Sub32(s.total, 1), threads := s.threads[t := Idle])
      case (Decr(t), Closed) => s.(total := Sub32(s.total, 1), threads := s.threads[t := Idle])
      case (Open(t), Reserved) =>
        s.(open := s.open + {s.nextId}, nextId := s.nextId + 1, threads := s.threads[t := Holding(s.nextId)])
      case (Stamp(t), Holding(id)) => s.(threads := s.threads[t := Stamped(Socket(id, s.clock))])
      case (Push(t), Stamped(sock)) => PushedBack(s, t, sock)
      case (Put(t), Holding(id)) => PushedBack(s, t, Socket(id, s.clock))
      case (Close(t), Holding(id)) => s.(open := s.open - {id}, threads := s.threads[t := Closed])
      case (Close(t), Checking(sock)) => s.(open := s.open - {sock.id}, threads := s.threads[t := Closed])
      case (TakeOldest(t), Idle) =>
        (match DequeStep(s.pool, s.capacity, Op.PopTail)
         case (pool, Popped(Some(sock))) => s.(pool := pool, threads := s.threads[t := Checking(sock)])
         case _ => s)
      case (PutOldest(t), Checking(sock)) =>
        (match DequeStep(s.pool, s.capacity, PushTail(sock))
         case (pool, Pushed(true)) => s.(pool := pool, threads := s.threads[t := Idle])
         case _ => s.(threads := s.threads[t := Closed], open := s.open - {sock.id}, refused := s.refused + 1))
      case _ => s
  }

  // ------------------------------------------------------------- the invariant

  /** What a thread adds to total. */
  function Counted(t: Thread): nat { if t.Idle? then 0 else 1 }

  /** What a thread takes of the limit: everything it adds to total except a failed attempt. */
  function Claimed(t: Thread): nat { if t.Idle? || t.OverLimit? then 0 else 1 }

  function Held(t: Thread): multiset<nat> {
    match t
    case Holding(id) => multiset{id}
    case Stamped(sock) => multiset{sock.id}
    case Checking(sock) => multiset{sock.id}
    case _ => multiset{}
  }

  function Id(s: Socket): multiset<nat> { multiset{s.id} }

  /** Live connections and reserved slots, pooled or held. */
  function Live(s: State): nat { |s.pool| + Sum(s.threads, Claimed) }

  /** Live connections and reserved slots plus pending failed attempts. */
  function Attempts(s: State): nat { |s.pool| + Sum(s.threads, Counted) }

  /** No fetch-and-add of the counter can be misled by its wrap at 2^32. */
  predicate CounterWide(capacity: uint32, n: nat) {
    capacity == 0 || n + capacity <= TWO_32
  }

  ghost predicate Places(s: State) {
    && Bag(s.pool, Id) + Bag(s.threads, Held) == multiset(s.open)
    && forall id :: id in s.open ==> id < s.nextId
  }

  ghost predicate Numbers(s: State) {
    && CounterWide(s.capacity, |s.threads|)
    && s.total == Attempts(s) % TWO_32
    && Live(s) <= s.capacity
    && s.refused == 0
  }

  ghost predicate Inv(s: State) {
    Numbers(s) && Places(s)
  }

  lemma InitInv(capacity: uint32, n: nat)
    requires CounterWide(capacity, n)
    ensures Inv(Init(capacity, n))
  {
    SumQuiet(Init(capacity, n).threads);
  }

  /** A thread that is about to claim a slot it was granted finds one free. */
  lemma GrantIsWithinLimit(s: State, t: nat)
    requires Numbers(s) && t < |s.threads| && s.threads[t].Idle? && s.total < s.capacity
    ensures Live(s) < s.capacity
  {
    SumBounds(s.threads, Claimed, Counted, t);
  }

  /** A held connection always finds room in the pool. */
  lemma HolderFindsRoom(s: State, t: nat)
    requires Numbers(s) && t < |s.threads| && Claimed(s.threads[t]) == 1
    ensures |s.pool| < s.capacity
  {
    SumBounds(s.threads, Claimed, Counted, t);
  }

  /** Thread t changes state, the pool by dp connections and total by d, as the attempts do. */
  lemma NumbersKept(s: State, s': State, t: nat, to: Thread, d: int)
    requires Numbers(s) && t < |s.threads| && s'.threads == s.threads[t := to]
    requires s'.capacity == s.capacity && s'.refused == s.refused
    requires d == |s'.pool| + Counted(to) - |s.pool| - Counted(s.threads[t])
    requires |s'.pool| + Claimed(to) <= |s.pool| + Claimed(s.threads[t]) + s.capacity - Live(s)
    requires -1 <= d <= 1
    requires s'.total == if d == 1 then Add32(s.total, 1) else if d == -1 then Sub32(s.total, 1) else s.total
    ensures Numbers(s')
  {
    SumUpdate(s.threads, Counted, t, to);
    SumUpdate(s.threads, Claimed, t, to);
    ModSuccessor(Attempts(s));
    if d == -1 { ModSuccessor(Attempts(s')); }
  }

  /** Thread t and the pool exchange connections; gained is opened, lost is closed. */
  lemma PlacesKept(s: State, s': State, t: nat, to: Thread, gained: multiset<nat>, lost: multiset<nat>)
    requires Places(s) && t < |s.threads| && s'.threads == s.threads[t := to]
    requires Bag(s'.pool, Id) + Held(to) + lost == Bag(s.pool, Id) + Held(s.threads[t]) + gained
    requires multiset(s'.open) + lost == multiset(s.open) + gained
    requires forall id :: id in s'.open ==> id < s'.nextId
    ensures Places(s')
  {
    BagUpdate(s.threads, Held, t, to);
    BagsAgree(Bag(s.pool, Id), Bag(s'.pool, Id), Held(s.threads[t]), Held(to), Bag(s.threads, Held),
              gained, lost, multiset(s.open), multiset(s'.open));
  }

  lemma BagsAgree(p: multiset<nat>, p': multiset<nat>, h: multiset<nat>, h': multiset<nat>, b: multiset<nat>,
                  gained: multiset<nat>, lost: multiset<nat>, o: multiset<nat>, o': multiset<nat>)
    requires p + b == o && h <= b
    requires p' + h' + lost == p + h + gained && o' + lost == o + gained
    ensures p' + (b - h + h') == o'
  {
    forall x: nat ensures (p' + (b - h + h'))[x] == o'[x] {
      assert (p' + h' + lost)[x] == (p + h + gained)[x];
      assert (o' + lost)[x] == (o + gained)[x];
      assert (p + b)[x] == o[x];
    }
  }

  lemma HeldIsOpen(s: State, t: nat, id: nat)
    requires Places(s) && t < |s.threads| && Held(s.threads[t]) == multiset{id}
    ensures multiset(s.open - {id}) + multiset{id} == multiset(s.open)
  {
    BagUpdate(s.threads, Held, t, Idle);
    var b := Bag(s.threads, Held);
    assert b[id] >= 1;
    assert (Bag(s.pool, Id) + b)[id] == multiset(s.open)[id];
  }

  lemma GetKeepsInv(s: State, s': State, t: nat)
    requires Inv(s) && t < |s.threads| && s.threads[t].Idle? && s.pool != []
    requires s' == s.(pool := s.pool[1..], threads := s.threads[t := Holding(s.pool[0].id)])
    ensures Inv(s')
  {
    BagFirst(s.pool, Id);
    Took(s, s', t, Holding(s.pool[0].id), s.pool[0]);
  }

  lemma TakeOldestKeepsInv(s: State, s': State, t: nat)
    requires Inv(s) && t < |s.threads| && s.threads[t].Idle? && s.pool != []
    requires s' == s.(pool := s.pool[..|s.pool|-1], threads := s.threads[t := Checking(s.pool[|s.pool|-1])])
    ensures Inv(s')
  {
    BagLast(s.pool, Id);
    Took(s, s', t, Checking(s.pool[|s.pool|-1]), s.pool[|s.pool|-1]);
  }

  lemma Took(s: State, s': State, t: nat, to: Thread, sock: Socket)
    requires Inv(s) && t < |s.threads| && s.threads[t].Idle? && |s'.pool| + 1 == |s.pool|
    requires Held(to) == Id(sock) && Bag(s'.pool, Id) + Id(sock) == Bag(s.pool, Id)
    requires s' == s.(pool := s'.pool, threads := s.threads[t := to])
    ensures Inv(s')
  {
    NumbersKept(s, s', t, to, 0);
    PlacesKept(s, s', t, to, multiset{}, multiset{});
  }

  lemma PushKeepsInv(s: State, s': State, t: nat, sock: Socket)
    requires Inv(s) && t < |s.threads| && Held(s.threads[t]) == Id(sock)
    requires s' == s.(pool := [sock] + s.pool, threads := s.threads[t := Idle])
    ensures Inv(s')
  {
    BagCons(sock, s.pool, Id);
    GaveBack(s, s', t, sock);
  }

  lemma PutOldestKeepsInv(s: State, s': State, t: nat)
    requires Inv(s) && t < |s.threads| && s.threads[t].Checking?
    requires s' == s.(pool := s.pool + [s.threads[t].sock], threads := s.threads[t := Idle])
    ensures Inv(s')
  {
    BagSnoc(s.pool, s.threads[t].sock, Id);
    GaveBack(s, s', t, s.threads[t].sock);
  }

  lemma GaveBack(s: State, s': State, t: nat, sock: Socket)
    requires Inv(s) && t < |s.threads| && Held(s.threads[t]) == Id(sock) && |s'.pool| == |s.pool| + 1
    requires Bag(s'.pool, Id) == Bag(s.pool, Id) + Id(sock)
    requires s' == s.(pool := s'.pool, threads := s.threads[t := Idle])
    ensures Inv(s')
  {
    NumbersKept(s, s', t, Idle, 0);
    PlacesKept(s, s', t, Idle, multiset{}, multiset{});
  }

  lemma IncrKeepsInv(s: State, t: nat)
    requires Inv(s) && t < |s.threads| && s.threads[t].Idle?
    ensures Inv(Step(s, Incr(t)))
  {
    var to := if s.total < s.capacity then Reserved else OverLimit;
    if s.total < s.capacity { GrantIsWithinLimit(s, t); }
    NumbersKept(s, Step(s, Incr(t)), t, to, 1);
    PlacesKept(s, Step(s, Incr(t)), t, to, multiset{}, multiset{});
  }

  lemma DecrKeepsInv(s: State, t: nat)
    requires Inv(s) && t < |s.threads|
    requires s.threads[t].OverLimit? || s.threads[t].Reserved? || s.threads[t].Closed?
    ensures Inv(Step(s, Decr(t)))
  {
    NumbersKept(s, Step(s, Decr(t)), t, Idle, -1);
    PlacesKept(s, Step(s, Decr(t)), t, Idle, multiset{}, multiset{});
  }

  lemma OneMore(open: set<nat>, id: nat)
    requires id !in open
    ensures multiset(open + {id}) == multiset(open) + multiset{id}
  {
  }

  lemma OpenKeepsInv(s: State, s': State, t: nat)
    requires Inv(s) && t < |s.threads| && s.threads[t].Reserved?
    requires s' == s.(open := s.open + {s.nextId}, nextId := s.nextId + 1,
                      threads := s.threads[t := Holding(s.nextId)])
    ensures Inv(s')
  {
    OneMore(s.open, s.nextId);
    NumbersKept(s, s', t, Holding(s.nextId), 0);
    PlacesKept(s, s', t, Holding(s.nextId), multiset{s.nextId}, multiset{});
  }

  lemma StampKeepsInv(s: State, t: nat)
    requires Inv(s) && t < |s.threads| && s.threads[t].Holding?
    ensures Inv(Step(s, Stamp(t)))
  {
    var to := Stamped(Socket(s.threads[t].id, s.clock));
    NumbersKept(s, Step(s, Stamp(t)), t, to, 0);
    PlacesKept(s, Step(s, Stamp(t)), t, to, multiset{}, multiset{});
  }

  lemma CloseKeepsInv(s: State, s': State, t: nat, id: nat)
    requires Inv(s) && t < |s.threads| && Held(s.threads[t]) == multiset{id}
    requires s' == s.(open := s.open - {id}, threads := s.threads[t := Closed])
    ensures Inv(s')
  {
    NumbersKept(s, s', t, Closed, 0);
    HeldIsOpen(s, t, id);
    PlacesKept(s, s', t, Closed, multiset{}, multiset{id});
  }

  lemma PoolStepKeepsInv(s: State, a: Action)
    requires Inv(s) && (a.Get? || a.TakeOldest? || a.Push? || a.Put? || a.PutOldest?)
    ensures Inv(Step(s, a))
  {
    if a.t >= |s.threads| || Step(s, a) == s { return; }
    match a
    case Get(t) => GetKeepsInv(s, Step(s, a), t);
    case TakeOldest(t) => TakeOldestKeepsInv(s, Step(s, a), t);
    case Push(t) => HolderFindsRoom(s, t); PushKeepsInv(s, Step(s, a), t, s.threads[t].sock);
    case Put(t) => HolderFindsRoom(s, t); PushKeepsInv(s, Step(s, a), t, Socket(s.threads[t].id, s.clock));
    case PutOldest(t) => HolderFindsRoom(s, t); PutOldestKeepsInv(s, Step(s, a), t);
  }

  lemma StepKeepsInv(s: State, a: Action)
    requires Inv(s)
    ensures Inv(Step(s, a))
  {
    if a.Tick? || a.t >= |s.threads| || Step(s, a) == s { return; }
    match a
    case Incr(t) => IncrKeepsInv(s, t);
    case Decr(t) => DecrKeepsInv(s, t);
    case Open(t) => OpenKeepsInv(s, Step(s, a), t);
    case Stamp(t) => StampKeepsInv(s, t);
    case Close(t) =>
      CloseKeepsInv(s, Step(s, a), t, if s.threads[t].Holding? then s.threads[t].id else s.threads[t].sock.id);
    case _ => PoolStepKeepsInv(s, a);
  }

  lemma StepKeepsShape(s: State, a: Action)
    ensures |Step(s, a).threads| == |s.threads| && Step(s, a).capacity == s.capacity
  {
  }

  lemma {:induction false} RunKeepsInv(s: State, actions: seq<Action>)
    requires Inv(s)
    ensures Inv(Run(Step, s, actions))
    ensures |Run(Step, s, actions).threads| == |s.threads| && Run(Step, s, actions).capacity == s.capacity
    decreases |actions|
  {
    if actions != [] {
      StepKeepsInv(s, actions[0]);
      StepKeepsShape(s, actions[0]);
      RunKeepsInv(Step(s, actions[0]), actions[1..]);
    }
  }

  lemma {:induction false} PoolBagSize(pool: seq<Socket>)
    ensures |Bag(pool, Id)| == |pool|
  {
    if pool != [] { PoolBagSize(pool[1..]); }
  }

  lemma OpenIsLive(s: State)
    requires Places(s)
    ensures |s.open| <= Live(s)
  {
    PoolBagSize(s.pool);
    BagSize(s.threads, Held, Claimed);
    assert |multiset(s.open)| == |s.open|;
  }

  // --------------------------------------------------------------- every run

  /**
   In every interleaving: the counter is the live connections and reservations plus the pending
   failed attempts, no more than capacity connections are ever open, and no connection that is
   put back is refused.
   */
  lemma LimitHolds(capacity: uint32, n: nat, actions: seq<Action>)
    requires CounterWide(capacity, n)
    ensures
      var s := Run(Step, Init(capacity, n), actions);
      && |s.open| <= Live(s) <= capacity
      && s.refused == 0
      && s.total == Attempts(s) % TWO_32
      && (n + capacity < TWO_32 ==> s.total == Attempts(s))
  {
    InitInv(capacity, n);
    RunKeepsInv(Init(capacity, n), actions);
    InvMeans(Run(Step, Init(capacity, n), actions));
  }

  lemma InvMeans(s: State)
    requires Inv(s)
    ensures |s.open| <= Live(s)
    ensures |s.threads| + s.capacity < TWO_32 ==> s.total == Attempts(s)
  {
    OpenIsLive(s);
    if |s.threads| > 0 { SumBounds(s.threads, Claimed, Counted, 0); }
  }

  /** In every interleaving each open connection is in the pool or with one thread, once, and no closed one is. */
  lemma OnePlace(capacity: uint32, n: nat, actions: seq<Action>, id: nat)
    requires CounterWide(capacity, n)
    ensures
      var s := Run(Step, Init(capacity, n), actions);
      Bag(s.pool, Id)[id] + Bag(s.threads, Held)[id] == if id in s.open then 1 else 0
  {
    InitInv(capacity, n);
    RunKeepsInv(Init(capacity, n), actions);
    var s := Run(Step, Init(capacity, n), actions);
    assert (Bag(s.pool, Id) + Bag(s.threads, Held))[id] == multiset(s.open)[id];
  }

  ghost predicate Quiet(s: State, from: nat) {
    forall i :: from <= i < |s.threads| ==> s.threads[i].Idle?
  }

  lemma {:induction false} SumQuiet(ts: seq<Thread>)
    requires forall i :: 0 <= i < |ts| ==> ts[i].Idle?
    ensures Sum(ts, Counted) == Sum(ts, Claimed) == 0 && Bag(ts, Held) == multiset{}
    decreases |ts|
  {
    if ts != [] { SumQuiet(ts[1..]); }
  }

  /** No slot leaks: whenever no thread is at work, the counter is exactly the number of pooled connections. */
  lemma NoLeakWhenQuiet(capacity: uint32, n: nat, actions: seq<Action>)
    requires CounterWide(capacity, n) && Quiet(Run(Step, Init(capacity, n), actions), 0)
    ensures
      var s := Run(Step, Init(capacity, n), actions);
      s.total == |s.pool| == |s.open|
  {
    InitInv(capacity, n);
    RunKeepsInv(Init(capacity, n), actions);
    InvQuiet(Run(Step, Init(capacity, n), actions));
  }

  lemma InvQuiet(s: State)
    requires Inv(s) && Quiet(s, 0)
    ensures s.total == |s.pool| == |s.open|
  {
    SumQuiet(s.threads);
    PoolBagSize(s.pool);
    assert Bag(s.pool, Id) + multiset{} == multiset(s.open);
    assert |s.open| == |multiset(s.open)| == |Bag(s.pool, Id) + multiset{}| == |Bag(s.pool, Id)|;
  }

  // ------------------------------------------------- when the limit fails

  lemma FillOne(s: State)
    requires 0 < |s.threads| && Quiet(s, 0) && s.total < s.capacity && |s.pool| < s.capacity
    requires s.nextId !in s.open
    ensures
      var s' := Step(Step(Step(s, Incr(0)), Open(0)), Put(0));
      && s'.total == s.total + 1 && |s'.pool| == |s.pool| + 1 && |s'.open| == |s.open| + 1
      && s'.threads == s.threads && s'.capacity == s.capacity
      && s'.open == s.open + {s.nextId} && s'.nextId == s.nextId + 1
  {
    var s1 := Step(s, Incr(0));
    assert s1 == s.(total := s.total + 1, threads := s.threads[0 := Reserved]);
    var s2 := Step(s1, Open(0));
    assert s2 == s1.(open := s.open + {s.nextId}, nextId := s.nextId + 1, threads := s1.threads[0 := Holding(s.nextId)]);
    assert s2.threads[0 := Idle] == s.threads;
  }

  lemma {:induction false} FillPool(capacity: uint32, n: nat, k: nat) returns (actions: seq<Action>)
    requires 0 < n && k <= capacity
    ensures
      var s := Run(Step, Init(capacity, n), actions);
      && s.total == k == |s.pool| == |s.open| && s.capacity == capacity
      && |s.threads| == n && Quiet(s, 0) && (forall id :: id in s.open ==> id < s.nextId)
    decreases k
  {
    if k == 0 { return []; }
    var before := FillPool(capacity, n, k - 1);
    var s := Run(Step, Init(capacity, n), before);
    FillOne(s);
    actions := before + [Incr(0), Open(0)] + [Put(0)];
    RunTwo(Step, s, Incr(0), Open(0));
    RunOne(Step, Run(Step, s, [Incr(0), Open(0)]), Put(0));
    RunAppend(Step, Init(capacity, n), before, [Incr(0), Open(0)]);
    RunAppend(Step, Init(capacity, n), before + [Incr(0), Open(0)], [Put(0)]);
  }

  /** The next k idle threads try at the limit and are each about to undo their attempt. */
  lemma {:induction false} Pile(s: State, k: nat) returns (actions: seq<Action>)
    requires s.capacity <= s.total && s.total + k <= TWO_32 && k <= |s.threads| && Quiet(s, 0)
    ensures
      var s' := Run(Step, s, actions);
      && s'.total == (s.total + k) % TWO_32 && s'.open == s.open && s'.capacity == s.capacity
      && s'.nextId == s.nextId && |s'.threads| == |s.threads| && Quiet(s', k)
    decreases k
  {
    if k == 0 { return []; }
    var before := Pile(s, k - 1);
    actions := before + [Incr(k - 1)];
    RunAppend(Step, s, before, [Incr(k - 1)]);
    var s1 := Run(Step, s, before);
    var s2 := Step(s1, Incr(k - 1));
    RunOne(Step, s1, Incr(k - 1));
  }

  lemma OpenOneMore(s: State, t: nat)
    requires t < |s.threads| && s.threads[t].Idle? && s.total < s.capacity && s.nextId !in s.open
    ensures |Run(Step, s, [Incr(t), Open(t)]).open| == |s.open| + 1
  {
    RunTwo(Step, s, Incr(t), Open(t));
    var s1 := s.(total := Add32(s.total, 1), threads := s.threads[t := Reserved]);
    assert Step(s, Incr(t)) == s1;
    assert Step(s1, Open(t)).open == s.open + {s.nextId};
  }

  /** With enough threads to wrap the counter, one connection more than capacity gets opened. */
  lemma Overrun(capacity: uint32, n: nat) returns (actions: seq<Action>)
    requires !CounterWide(capacity, n)
    ensures |Run(Step, Init(capacity, n), actions).open| == capacity + 1
  {
    var k := TWO_32 - capacity;
    var fill := FillPool(capacity, n, capacity);
    var full := Run(Step, Init(capacity, n), fill);
    var pile := Pile(full, k);
    var wrapped := Run(Step, full, pile);
    actions := fill + pile + [Incr(k), Open(k)];
    RunAppend(Step, Init(capacity, n), fill, pile);
    RunAppend(Step, Init(capacity, n), fill + pile, [Incr(k), Open(k)]);
    OpenOneMore(wrapped, k);
  }

  /** The limit holds in all interleavings of n threads exactly when the counter cannot wrap below it. */
  lemma LimitHoldsIff(capacity: uint32, n: nat)
    ensures (forall actions :: |Run(Step, Init(capacity, n), actions).open| <= capacity) <==> CounterWide(capacity, n)
  {
    if CounterWide(capacity, n) {
      forall actions ensures |Run(Step, Init(capacity, n), actions).open| <= capacity {
        LimitHolds(capacity, n, actions);
      }
    } else {
      var actions := Overrun(capacity, n);
    }
  }
}
