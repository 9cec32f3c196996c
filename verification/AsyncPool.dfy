/**
 The asynchronous connection pool of as_event_internal.h, owned by one event loop.  The queue
 behind it grows on demand, so a push fails only when growing it does.
 */
module AsyncPool {
  import opened Words
  import opened Runs
  import Queue

  type Conn = nat

  /** The fields of as_async_conn_pool, and who holds the slots that its total counts. */
  datatype State = State(
    pooled: seq<Conn>,
    inUse: set<Conn>,
    reserved: nat,        // slots granted to commands whose connection is not open yet
    total: uint32,
    limit: uint32,
    connsOpened: uint32,
    connsClosed: uint32
  )

  datatype Action =
    | Reserve
    | Connected(c: Conn)
    | ConnectFailed
    | Take
    | Return(c: Conn, atHead: bool, grown: bool)
    | Release(c: Conn)
    | SetLimit(limit: uint32)

  predicate Enabled(s: State, a: Action) {
    match a
    case Reserve => s.total < s.limit
    case Connected(c) => s.reserved > 0 && c !in s.inUse && c !in s.pooled
    case ConnectFailed => s.reserved > 0
    case Take => s.pooled != []
    case Return(c, _, _) => c in s.inUse
    case Release(c) => c in s.inUse
    case SetLimit(_) => true
  }

  function Released(s: State, c: Conn): State {
    s.(inUse := s.inUse - {c}, total := Queue.TotalAfterDecr(s.total), connsClosed := Add32(s.connsClosed, 1))
  }

  predicate Accepts(s: State, grown: bool) {
    s.total <= s.limit && grown
  }

  /** One callback of the event loop; a refused connection is released by whoever tried to return it. */
  function Step(s: State, a: Action): State {
    if !Enabled(s, a) then s
    else
      match a
      case Reserve => s.(total := s.total + 1, reserved := s.reserved + 1)
      case Connected(c) => s.(inUse := s.inUse + {c}, reserved := s.reserved - 1, connsOpened := Add32(s.connsOpened, 1))
      case ConnectFailed => s.(total := Queue.TotalAfterDecr(s.total), reserved := s.reserved - 1)
      case Take => s.(pooled := s.pooled[1..], inUse := s.inUse + {s.pooled[0]})
      case Return(c, atHead, grown) =>
        if Accepts(s, grown) then
          s.(inUse := s.inUse - {c}, pooled := if atHead then [c] + s.pooled else s.pooled + [c])
        else Released(s, c)
      case Release(c) => Released(s, c)
      case SetLimit(limit) => s.(limit := limit)
  }

  function Init(limit: uint32): State {
    State([], {}, 0, 0, limit, 0, 0)
  }

  ghost predicate NoDuplicates(cs: seq<Conn>) {
    forall i, j :: 0 <= i < j < |cs| ==> cs[i] != cs[j]
  }

  /** Every slot that total counts is a pooled connection, one in use or one reserved. */
  ghost predicate Conserved(s: State) {
    && s.total == |s.pooled| + |s.inUse| + s.reserved
    && (s.total - s.reserved == s.connsOpened - s.connsClosed || s.total - s.reserved == s.connsOpened - s.connsClosed + TWO_32)
    && NoDuplicates(s.pooled)
    && forall c :: c in s.pooled ==> c !in s.inUse
  }

  lemma ReleaseConserves(s: State, c: Conn)
    requires Conserved(s) && c in s.inUse
    ensures Conserved(Released(s, c)) && Released(s, c).total == s.total - 1
  {
    assert |s.inUse - {c}| == |s.inUse| - 1;
  }

  lemma TakeConserves(s: State)
    requires Conserved(s) && s.pooled != []
    ensures Conserved(Step(s, Take))
  {
    assert s.pooled == [s.pooled[0]] + s.pooled[1..];
  }

  lemma KeepConserves(s: State, s': State, c: Conn)
    requires Conserved(s) && c in s.inUse
    requires s'.pooled == [c] + s.pooled || s'.pooled == s.pooled + [c]
    requires s' == s.(pooled := s'.pooled, inUse := s.inUse - {c})
    ensures Conserved(s')
  {
    assert |s.inUse - {c}| == |s.inUse| - 1;
  }

  lemma StepConserves(s: State, a: Action)
    requires Conserved(s)
    ensures Conserved(Step(s, a))
  {
    if Enabled(s, a) {
      match a
      case Take => TakeConserves(s);
      case Return(c, atHead, grown) =>
        if Accepts(s, grown) { KeepConserves(s, Step(s, a), c); } else { ReleaseConserves(s, c); }
      case Release(c) => ReleaseConserves(s, c);
      case _ =>
    }
  }

  /** On every run, with any changes of limit, nothing is leaked or counted twice. */
  lemma {:induction false} RunConserves(s: State, actions: seq<Action>)
    requires Conserved(s)
    ensures Conserved(Run(Step, s, actions))
    decreases |actions|
  {
    if actions != [] {
      StepConserves(s, actions[0]);
      RunConserves(Step(s, actions[0]), actions[1..]);
    }
  }

  // ------------------------------------------------- what steps do together

  /** The head of the pool is a stack: the connection returned there is the next one taken. */
  lemma TakeAfterHeadReturn(s: State, c: Conn)
    requires c in s.inUse && s.total <= s.limit
    ensures Step(s, Return(c, true, true)) == s.(pooled := [c] + s.pooled, inUse := s.inUse - {c})
    ensures Step(Step(s, Return(c, true, true)), Take) == s
  {
    assert ([c] + s.pooled)[1..] == s.pooled;
    assert s.inUse - {c} + {c} == s.inUse;
  }

  function Takes(k: nat): seq<Action> {
    seq(k, _ => Take)
  }

  function Elements(conns: seq<Conn>): set<Conn> {
    set c | c in conns
  }

  /** After a return of c at the tail and k takes. */
  function Served(s: State, c: Conn, k: nat): State
    requires k <= |s.pooled|
  {
    s.(pooled := s.pooled[k..] + [c], inUse := s.inUse - {c} + Elements(s.pooled[..k]))
  }

  lemma TakeNext(s: State, c: Conn, k: nat)
    requires k < |s.pooled|
    ensures Step(Served(s, c, k), Take) == Served(s, c, k + 1)
  {
    var served := Served(s, c, k);
    assert served.pooled[0] == s.pooled[k] && served.pooled[1..] == s.pooled[k + 1..] + [c];
    assert s.pooled[..k + 1] == s.pooled[..k] + [s.pooled[k]];
    assert Elements(s.pooled[..k + 1]) == Elements(s.pooled[..k]) + {s.pooled[k]};
  }

  /**
   The tail is a queue: a connection returned there is taken only once all those that were pooled
   before it are, in their order.
   */
  lemma {:induction false} TakesAfterTailReturn(s: State, c: Conn, k: nat)
    requires c in s.inUse && s.total <= s.limit && k <= |s.pooled|
    ensures
      var s' := Run(Step, Step(s, Return(c, false, true)), Takes(k));
      && s'.pooled == s.pooled[k..] + [c] && s'.inUse == s.inUse - {c} + Elements(s.pooled[..k])
      && s' == Served(s, c, k)
      && (k == |s.pooled| ==> Step(s', Take).pooled == [] && c in Step(s', Take).inUse)
  {
    var returned := Step(s, Return(c, false, true));
    if k == 0 {
      assert Takes(0) == [];
    } else {
      TakesAfterTailReturn(s, c, k - 1);
      assert Takes(k) == Takes(k - 1) + [Take];
      RunAppend(Step, returned, Takes(k - 1), [Take]);
      RunOne(Step, Served(s, c, k - 1), Take);
      TakeNext(s, c, k - 1);
    }
  }

  /** Refused, it is released: its slot is free again and the close is counted. */
  lemma RefusedReturnReleases(s: State, c: Conn, atHead: bool, grown: bool)
    requires Conserved(s) && c in s.inUse && (s.total > s.limit || !grown)
    ensures Step(s, Return(c, atHead, grown))
         == Step(s, Release(c))
         == s.(inUse := s.inUse - {c}, total := s.total - 1, connsClosed := (s.connsClosed + 1) % TWO_32)
  {
    assert |s.inUse| > 0;
  }

  /** A reservation whose connect fails is undone; below the limit it was granted. */
  lemma FailedConnectIsUndone(s: State)
    ensures Step(s, Reserve) == if s.total < s.limit then s.(total := s.total + 1, reserved := s.reserved + 1) else s
    ensures s.total < s.limit ==> Step(Step(s, Reserve), ConnectFailed) == s
  {
  }

  /** A connection opened and released leaves only its two counts behind. */
  lemma OpenedAndReleased(s: State, c: Conn)
    requires s.total < s.limit && c !in s.inUse && c !in s.pooled
    ensures
      var connected := Step(Step(s, Reserve), Connected(c));
      && connected == s.(total := s.total + 1, inUse := s.inUse + {c}, connsOpened := (s.connsOpened + 1) % TWO_32)
      && Step(connected, Release(c)).pooled == s.pooled && Step(connected, Release(c)).inUse == s.inUse
      && Step(connected, Release(c)).total == s.total && Step(connected, Release(c)).reserved == s.reserved
      && Step(connected, Release(c)).connsClosed == (s.connsClosed + 1) % TWO_32
  {
    assert s.inUse + {c} - {c} == s.inUse;
  }

  // ------------------------------------------------------------------- limits

  predicate LimitFixed(actions: seq<Action>) {
    forall a :: a in actions ==> !a.SetLimit?
  }

  /** An action that gives a slot up or hands a connection back. */
  predicate GivesBack(s: State, a: Action) {
    Enabled(s, a) && (a.ConnectFailed? || a.Return? || a.Release?)
  }

  function Returns(s: State, actions: seq<Action>): nat
    decreases |actions|
  {
    if actions == [] then 0
    else (if GivesBack(s, actions[0]) then 1 else 0) + Returns(Step(s, actions[0]), actions[1..])
  }

  /** Above the limit every return costs its slot and nothing else moves total. */
  lemma StepAboveLimit(s: State, a: Action)
    requires Conserved(s) && s.total > s.limit && !a.SetLimit?
    ensures Step(s, a).total == s.total - if GivesBack(s, a) then 1 else 0
    ensures Step(s, a).limit == s.limit
  {
    StepConserves(s, a);
    if GivesBack(s, a) && !a.ConnectFailed? {
      assert |s.inUse| > 0;
    }
  }

  lemma StepWithinLimit(s: State, a: Action)
    requires Conserved(s) && s.total <= s.limit && !a.SetLimit?
    ensures Step(s, a).total <= Step(s, a).limit == s.limit
  {
    StepConserves(s, a);
    if GivesBack(s, a) && !a.ConnectFailed? {
      assert |s.inUse| > 0;
    }
  }

  /**
   While the limit stays as it is, total is within it, or has come down by exactly one for each
   return so far; so a pool lowered below its total drains in total - limit returns.
   */
  lemma {:induction false} DrainsToLimit(s: State, actions: seq<Action>)
    requires Conserved(s) && LimitFixed(actions)
    ensures
      var s' := Run(Step, s, actions);
      && s'.limit == s.limit
      && (s.total <= s.limit ==> s'.total <= s.limit)
      && (s'.total > s.limit ==> s'.total == s.total - Returns(s, actions))
      && (s.total - Returns(s, actions) <= s.limit ==> s'.total <= s.limit)
    decreases |actions|
  {
    if actions != [] {
      assert actions[0] in actions;
      StepConserves(s, actions[0]);
      if s.total > s.limit { StepAboveLimit(s, actions[0]); } else { StepWithinLimit(s, actions[0]); }
      DrainsToLimit(Step(s, actions[0]), actions[1..]);
    }
  }

  /** Lowering the limit below total: the pool is within it after total - limit returns. */
  lemma LoweredLimitDrains(s: State, limit: uint32, actions: seq<Action>)
    requires Conserved(s) && LimitFixed(actions)
    ensures
      var lowered := Step(s, SetLimit(limit));
      var s' := Run(Step, lowered, actions);
      && s'.limit == limit
      && (s'.total <= limit || s'.total == s.total - Returns(lowered, actions))
      && (Returns(lowered, actions) >= s.total - limit ==> s'.total <= limit)
  {
    StepConserves(s, SetLimit(limit));
    DrainsToLimit(Step(s, SetLimit(limit)), actions);
  }

  // ------------------------------------------------------------------- the code

  class Pool {
    var pooled: seq<Conn>
    var total: uint32
    var limit: uint32
    var connsOpened: uint32
    var connsClosed: uint32
    ghost var inUse: set<Conn>
    ghost var reserved: nat

    ghost function Abs(): State
      reads this
    {
      State(pooled, inUse, reserved, total, limit, connsOpened, connsClosed)
    }

    constructor (limit: uint32)
      ensures Abs() == Init(limit) && Conserved(Abs())
    {
      pooled, total, this.limit, connsOpened, connsClosed := [], 0, limit, 0, 0;
      inUse, reserved := {}, 0;
    }

    /** as_async_conn_pool_incr_total */
    method IncrTotal() returns (ok: bool)
      requires Conserved(Abs())
      modifies this
      ensures Conserved(Abs()) && Abs() == Step(old(Abs()), Reserve)
      ensures ok <==> old(total) < limit
      ensures total == old(total) + (if ok then 1 else 0) && limit == old(limit) && pooled == old(pooled)
    {
      StepConserves(Abs(), Reserve);
      if total >= limit { return false; }
      total := total + 1;
      reserved := reserved + 1;
      ok := true;
    }

    /** as_async_conn_pool_push_head: keeps the connection unless the pool is over its limit. */
    method PushHead(c: Conn, grown: bool) returns (ok: bool)
      requires Conserved(Abs()) && c in inUse
      modifies this
      ensures Conserved(Abs()) && ok == (old(total) <= old(limit) && grown)
      ensures pooled == (if ok then [c] else []) + old(pooled) && total == old(total)
      ensures Abs() == if ok then Step(old(Abs()), Return(c, true, grown)) else old(Abs())
    {
      StepConserves(Abs(), Return(c, true, grown));
      if total > limit { return false; }
      if grown {
        pooled := [c] + pooled;
        inUse := inUse - {c};
      }
      ok := grown;
    }

    /** as_async_conn_pool_push */
    method Push(c: Conn, grown: bool) returns (ok: bool)
      requires Conserved(Abs()) && c in inUse
      modifies this
      ensures Conserved(Abs()) && ok == (old(total) <= old(limit) && grown)
      ensures pooled == old(pooled) + (if ok then [c] else []) && total == old(total)
      ensures Abs() == if ok then Step(old(Abs()), Return(c, false, grown)) else old(Abs())
    {
      StepConserves(Abs(), Return(c, false, grown));
      if total > limit { return false; }
      if grown {
        pooled := pooled + [c];
        inUse := inUse - {c};
      }
      ok := grown;
    }

    /** as_event_release_connection, and both branches of as_event_connection_timeout. */
    method ReleaseConnection(c: Conn)
      requires Conserved(Abs()) && c in inUse
      modifies this
      ensures Conserved(Abs()) && Abs() == Step(old(Abs()), Release(c))
      ensures total == old(total) - 1 && pooled == old(pooled) && inUse == old(inUse) - {c}
      ensures connsClosed == (old(connsClosed) + 1) % TWO_32
    {
      StepConserves(Abs(), Release(c));
      assert |inUse| > 0;
      inUse := inUse - {c};
      total := Queue.TotalAfterDecr(total);
      connsClosed := Add32(connsClosed, 1);
    }

    /** A caller hands a connection back: push, and release when refused. */
    method PutBack(c: Conn, grown: bool)
      requires Conserved(Abs()) && c in inUse
      modifies this
      ensures Conserved(Abs()) && Abs() == Step(old(Abs()), Return(c, true, grown))
      ensures if old(total) <= old(limit) && grown then pooled == [c] + old(pooled) && total == old(total)
              else pooled == old(pooled) && total == old(total) - 1
    {
      var ok := PushHead(c, grown);
      if !ok { ReleaseConnection(c); }
    }
  }

  /** The command fields that choose a pool. */
  datatype Command = Command(pipelined: bool, conn: Option<Conn>, watching: bool)

  /** The two pools of one node and event loop. */
  class NodePools {
    const async: Pool
    const pipe: Pool

    constructor (limit: uint32)
      ensures fresh(async) && fresh(pipe) && async != pipe
      ensures async.Abs() == pipe.Abs() == Init(limit)
    {
      async := new Pool(limit);
      pipe := new Pool(limit);
    }

    function PoolOf(cmd: Command): Pool {
      if cmd.pipelined then pipe else async
    }

    /** as_event_decr_conn: gives up the slot of a command that never got its connection. */
    method DecrConn(cmd: Command)
      requires Conserved(PoolOf(cmd).Abs()) && PoolOf(cmd).reserved > 0
      modifies PoolOf(cmd)
      ensures Conserved(PoolOf(cmd).Abs())
      ensures PoolOf(cmd).Abs() == Step(old(PoolOf(cmd).Abs()), ConnectFailed)
      ensures async != pipe ==>
                && pipe.total == old(pipe.total) - (if cmd.pipelined then 1 else 0)
                && async.total == old(async.total) - (if cmd.pipelined then 0 else 1)
                && (if cmd.pipelined then async.Abs() == old(async.Abs()) else pipe.Abs() == old(pipe.Abs()))
    {
      var pool := if cmd.pipelined then pipe else async;
      StepConserves(pool.Abs(), ConnectFailed);
      pool.total := Queue.TotalAfterDecr(pool.total);
      pool.reserved := pool.reserved - 1;
    }

    /** as_event_connection_timeout: watched or not, an existing connection gives its slot up once. */
    method ConnectionTimeout(cmd: Command, pool: Pool)
      requires Conserved(pool.Abs()) && (cmd.conn.Some? ==> cmd.conn.value in pool.inUse)
      modifies pool
      ensures Conserved(pool.Abs())
      ensures pool.Abs() == if cmd.conn.Some? then Step(old(pool.Abs()), Release(cmd.conn.value)) else old(pool.Abs())
      ensures pool.total == old(pool.total) - (if cmd.conn.Some? then 1 else 0)
      ensures pool.connsClosed == (old(pool.connsClosed) + if cmd.conn.Some? then 1 else 0) % TWO_32
    {
      if cmd.conn.Some? {
        if cmd.watching {
          pool.ReleaseConnection(cmd.conn.value);
        } else {
          StepConserves(pool.Abs(), Release(cmd.conn.value));
          pool.inUse := pool.inUse - {cmd.conn.value};
          pool.total := Queue.TotalAfterDecr(pool.total);
          pool.connsClosed := Add32(pool.connsClosed, 1);
        }
      }
    }

    /** as_event_socket_retry up to the retry itself: only plain commands give their connection up. */
    method SocketRetry(cmd: Command) returns (retrying: bool)
      requires Conserved(async.Abs())
      requires !cmd.pipelined ==> cmd.conn.Some? && cmd.conn.value in async.inUse
      modifies async
      ensures Conserved(async.Abs()) && retrying == !cmd.pipelined
      ensures async.Abs() == if retrying then Step(old(async.Abs()), Release(cmd.conn.value)) else old(async.Abs())
      ensures async.total == old(async.total) - if cmd.pipelined then 0 else 1
    {
      if cmd.pipelined { return false; }
      async.ReleaseConnection(cmd.conn.value);
      retrying := true;
    }
  }
}
