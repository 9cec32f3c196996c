/**
 The machine of SyncPool with the ring of as_queue.h for a pool: each action makes at most one
 call on the queue.  In every interleaving the ring behaves as the sequence of SyncPool.
 */
module RingPool {
  import opened Words
  import opened Threads
  import opened Queue
  import opened Runs
  import opened SyncPool

  type SocketRing = r: Ring<Socket> | Sound(r) witness Ring([], 0, 0)

  /** The queue, and everything else; rest.pool is not used. */
  datatype Concrete = Concrete(ring: SocketRing, rest: State)

  function Init(data: seq<Socket>, n: nat): Concrete
    requires |data| < TWO_32
  {
    Concrete(Ring(data, 0, 0), SyncPool.Init(|data|, n))
  }

  /** The call on the queue that an action makes. */
  function QueueOp(s: State, a: Action): Option<Op<Socket>> {
    if a.Tick? || a.t >= |s.threads| then None
    else
      match (a, s.threads[a.t])
      case (Get(_), Idle) => Some(PopHead)
      case (TakeOldest(_), Idle) => Some(Op.PopTail)
      case (Push(_), Stamped(sock)) => Some(PushHead(sock))
      case (Put(_), Holding(id)) => Some(PushHead(Socket(id, s.clock)))
      case (PutOldest(_), Checking(sock)) => Some(PushTail(sock))
      case _ => None
  }

  /** What thread t does with the queue's answer; a refused socket is closed. */
  function AfterReply(s: State, t: nat, op: Op<Socket>, reply: Reply<Socket>): State
    requires t < |s.threads|
  {
    match reply
    case Popped(None) => s
    case Popped(Some(sock)) =>
      s.(threads := s.threads[t := if op.PopHead? then Holding(sock.id) else Checking(sock)])
    case Pushed(true) => s.(threads := s.threads[t := Idle])
    case Pushed(false) =>
      if op.PopHead? || op.PopTail? then s
      else s.(threads := s.threads[t := Closed], open := s.open - {op.x.id}, refused := s.refused + 1)
  }

  function RingPoolStep(c: Concrete, a: Action): Concrete {
    match QueueOp(c.rest, a)
    case None => Concrete(c.ring, Step(c.rest, a))
    case Some(op) =>
      var (ring, reply) := RingStep(c.ring, op);
      Concrete(ring, AfterReply(c.rest, a.t, op, reply))
  }

  /** The state of SyncPool that a concrete one stands for. */
  function Abs(c: Concrete): State {
    c.rest.(pool := Items(c.ring))
  }

  // ------------------------------------------------------ one action, two views

  lemma StepWithoutQueue(s: State, pool: seq<Socket>, a: Action)
    requires QueueOp(s, a).None?
    ensures Step(s.(pool := pool), a) == Step(s, a).(pool := pool)
  {
  }

  lemma StepWithQueue(s: State, pool: seq<Socket>, a: Action)
    requires QueueOp(s, a).Some?
    ensures
      var op := QueueOp(s, a).value;
      var (pool', reply) := DequeStep(pool, s.capacity, op);
      Step(s.(pool := pool), a) == AfterReply(s, a.t, op, reply).(pool := pool')
  {
  }

  // --------------------------------------------------------- room for the indices

  function Checks(t: Thread): nat { if t.Checking? then 1 else 0 }

  /**
   Only the idle check moves the tail on, and only by a socket it took from there: so the tail
   and the sockets in the hands of checkers stay within twice the capacity.
   */
  ghost predicate Room(c: Concrete) {
    && |c.ring.data| == c.rest.capacity && 2 * c.rest.capacity < TWO_32
    && c.ring.head <= c.ring.tail
    && c.ring.tail + Sum(c.rest.threads, Checks) <= 2 * c.rest.capacity
  }

  lemma CheckedAreLive(s: State)
    requires Live(s) <= s.capacity
    ensures |s.pool| + Sum(s.threads, Checks) <= s.capacity
  {
    if |s.threads| > 0 { SumBounds(s.threads, Checks, Claimed, 0); }
  }

  lemma RoomIsSafe(c: Concrete)
    requires Room(c)
    ensures Safe(c.ring)
  {
  }

  /** What a call does to the number of sockets in the hands of checkers. */
  function ChecksChange(op: Op<Socket>, reply: Reply<Socket>): int {
    if op.PushTail? then -1 else if op.PopTail? && reply.Popped? && reply.item.Some? then 1 else 0
  }

  lemma CallKeepsRoom(r: SocketRing, op: Op<Socket>, checks: nat)
    requires 2 * |r.data| < TWO_32 && r.head <= r.tail && r.tail + checks <= 2 * |r.data|
    requires Size(r) + checks <= |r.data|
    ensures
      var (r', reply) := RingStep(r, op);
      r'.head <= r'.tail && r'.tail + checks + ChecksChange(op, reply) <= 2 * |r.data|
  {
  }

  lemma CallChangesChecks(s: State, a: Action, reply: Reply<Socket>)
    requires QueueOp(s, a).Some? && (QueueOp(s, a).value.PopHead? || QueueOp(s, a).value.PopTail? <==> reply.Popped?)
    ensures
      var op := QueueOp(s, a).value;
      Sum(AfterReply(s, a.t, op, reply).threads, Checks) == Sum(s.threads, Checks) + ChecksChange(op, reply)
  {
    var to := AfterReply(s, a.t, QueueOp(s, a).value, reply).threads[a.t];
    SumUpdate(s.threads, Checks, a.t, to);
    assert s.threads[a.t := s.threads[a.t]] == s.threads;
  }

  lemma LocalStepKeepsChecks(s: State, a: Action)
    requires QueueOp(s, a).None?
    ensures Sum(Step(s, a).threads, Checks) <= Sum(s.threads, Checks)
  {
    if !a.Tick? && a.t < |s.threads| {
      SumUpdate(s.threads, Checks, a.t, Step(s, a).threads[a.t]);
      assert Step(s, a).threads == s.threads[a.t := Step(s, a).threads[a.t]];
    }
  }

  lemma StepKeepsRoom(c: Concrete, a: Action)
    requires Room(c) && Live(Abs(c)) <= c.rest.capacity
    ensures Room(RingPoolStep(c, a))
  {
    CheckedAreLive(Abs(c));
    StepKeepsShape(c.rest, a);
    match QueueOp(c.rest, a)
    case None => LocalStepKeepsChecks(c.rest, a);
    case Some(op) =>
      CallKeepsRoom(c.ring, op, Sum(c.rest.threads, Checks));
      CallChangesChecks(c.rest, a, RingStep(c.ring, op).1);
  }

  lemma StepRefines(c: Concrete, a: Action)
    requires Room(c) && Live(Abs(c)) <= c.rest.capacity
    ensures Room(RingPoolStep(c, a)) && Abs(RingPoolStep(c, a)) == Step(Abs(c), a)
  {
    StepKeepsRoom(c, a);
    match QueueOp(c.rest, a)
    case None => StepWithoutQueue(c.rest, Items(c.ring), a);
    case Some(op) =>
      RoomIsSafe(RingPoolStep(c, a));
      RingStepRefines(c.ring, op);
      StepWithQueue(c.rest, Items(c.ring), a);
  }

  // --------------------------------------------------------------- every run

  lemma {:induction false} RunRefines(c: Concrete, actions: seq<Action>)
    requires Room(c) && Inv(Abs(c))
    ensures Room(Run(RingPoolStep, c, actions))
    ensures Abs(Run(RingPoolStep, c, actions)) == Run(Step, Abs(c), actions)
    decreases |actions|
  {
    if actions != [] {
      StepRefines(c, actions[0]);
      StepKeepsInv(Abs(c), actions[0]);
      RunRefines(RingPoolStep(c, actions[0]), actions[1..]);
    }
  }

  /**
   In every interleaving of any number of threads the pool on the ring goes through the states of
   SyncPool, so all that is proved of its runs holds of the ring: no window wraps and no index
   passes twice the capacity, with one to spare for every socket that a checker holds.
   */
  lemma RingIsPool(data: seq<Socket>, n: nat, actions: seq<Action>)
    requires 2 * |data| < TWO_32 && CounterWide(|data|, n)
    ensures
      var c := Run(RingPoolStep, Init(data, n), actions);
      Room(c) && |c.ring.data| == |data| && Abs(c) == Run(Step, SyncPool.Init(|data|, n), actions)
  {
    SumNoChecks(SyncPool.Init(|data|, n).threads);
    InitInv(|data|, n);
    RunKeepsInv(SyncPool.Init(|data|, n), actions);
    RunRefines(Init(data, n), actions);
  }

  lemma {:induction false} SumNoChecks(ts: seq<Thread>)
    requires forall i :: 0 <= i < |ts| ==> ts[i].Idle?
    ensures Sum(ts, Checks) == 0
    decreases |ts|
  {
    if ts != [] { SumNoChecks(ts[1..]); }
  }

  /** A checker that puts its socket back finds room for the index too. */
  lemma CheckerFindsRoom(data: seq<Socket>, n: nat, actions: seq<Action>, t: nat)
    requires 2 * |data| < TWO_32 && CounterWide(|data|, n)
    ensures
      var c := Run(RingPoolStep, Init(data, n), actions);
      t < |c.rest.threads| && c.rest.threads[t].Checking? ==> c.ring.tail < 2 * |data|
  {
    RingIsPool(data, n, actions);
    var c := Run(RingPoolStep, Init(data, n), actions);
    if t < |c.rest.threads| { SumUpdate(c.rest.threads, Checks, t, Idle); }
  }
}
