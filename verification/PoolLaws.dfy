/**
 What the steps of one thread of SyncPool amount to, whatever the other threads do in between:
 which stamp a connection gets, where it goes, and which sequences of steps undo each other.
 */
module PoolLaws {
  import opened Words
  import opened Queue
  import opened Runs
  import opened SyncPool
  import opened PoolOrder

  // -------------------------------------------------------------- the stamps

  predicate OfOthers(actions: seq<Action>, t: nat) {
    forall a :: a in actions ==> a.Tick? || a.t != t
  }

  lemma {:induction false} OthersLeaveAlone(s: State, others: seq<Action>, t: nat)
    requires t < |s.threads| && OfOthers(others, t)
    ensures |Run(Step, s, others).threads| == |s.threads| && Run(Step, s, others).capacity == s.capacity
    ensures Run(Step, s, others).threads[t] == s.threads[t]
    decreases |others|
  {
    if others != [] {
      assert others[0] in others;
      OneLeavesAlone(s, others[0], t);
      OthersLeaveAlone(Step(s, others[0]), others[1..], t);
    }
  }

  lemma OneLeavesAlone(s: State, a: Action, t: nat)
    requires t < |s.threads| && (a.Tick? || a.t != t)
    ensures |Step(s, a).threads| == |s.threads| && Step(s, a).capacity == s.capacity
    ensures Step(s, a).threads[t] == s.threads[t]
  {
  }

  /**
   However long another thread's steps take in between: a connection is pushed on the head with
   the clock at its stamping, or closed if there is no room.
   */
  lemma StampThenPush(s: State, t: nat, others: seq<Action>)
    requires t < |s.threads| && s.threads[t].Holding? && OfOthers(others, t)
    ensures
      var id := s.threads[t].id;
      var s' := Run(Step, Step(s, Stamp(t)), others);
      && |s'.threads| == |s.threads|
      && Step(s', Push(t))
         == if |s'.pool| < s.capacity then
              s'.(pool := [Socket(id, s.clock)] + s'.pool, threads := s'.threads[t := Idle])
            else
              s'.(threads := s'.threads[t := Closed], open := s'.open - {id}, refused := s'.refused + 1)
  {
    var stamped := s.(threads := s.threads[t := Stamped(Socket(s.threads[t].id, s.clock))]);
    assert Step(s, Stamp(t)) == stamped;
    OthersLeaveAlone(stamped, others, t);
  }

  /** Put is both halves at once. */
  lemma PutIsStampAndPush(s: State, t: nat)
    requires t < |s.threads| && s.threads[t].Holding?
    ensures Step(s, Put(t)) == Step(Step(s, Stamp(t)), Push(t))
    ensures |s.pool| < s.capacity ==>
              Step(s, Put(t)) == s.(pool := [Socket(s.threads[t].id, s.clock)] + s.pool,
                                    threads := s.threads[t := Idle])
  {
    var stamped := s.(threads := s.threads[t := Stamped(Socket(s.threads[t].id, s.clock))]);
    assert Step(s, Stamp(t)) == stamped;
    assert stamped.threads[t := Idle] == s.threads[t := Idle];
    assert stamped.threads[t := Closed] == s.threads[t := Closed];
  }

  /** A socket in the pool, about to be pushed on it, or taken from it by an idle check. */
  ghost predicate Present(s: State, sock: Socket) {
    || sock in s.pool
    || exists t :: 0 <= t < |s.threads| && (s.threads[t] == Stamped(sock) || s.threads[t] == Checking(sock))
  }

  /** A thread that holds the connection puts sock's stamp on it now. */
  predicate Stamps(s: State, a: Action, sock: Socket) {
    && (a.Stamp? || a.Put?)
    && a.t < |s.threads| && s.threads[a.t] == Holding(sock.id) && s.clock == sock.lastUsed
  }

  lemma PresentFrom(s: State, a: Action, sock: Socket)
    requires Present(Step(s, a), sock)
    ensures Present(s, sock) || Stamps(s, a, sock)
  {
    if !a.Tick? && a.t < |s.threads| {
      if sock in Step(s, a).pool { PoolFrom(s, a, sock); } else { ThreadFrom(s, a, sock); }
    }
  }

  lemma PoolFrom(s: State, a: Action, sock: Socket)
    requires !a.Tick? && a.t < |s.threads| && sock in Step(s, a).pool
    ensures Present(s, sock) || Stamps(s, a, sock)
  {
  }

  lemma ThreadFrom(s: State, a: Action, sock: Socket)
    requires !a.Tick? && a.t < |s.threads|
    requires exists t :: 0 <= t < |s.threads|
               && (Step(s, a).threads[t] == Stamped(sock) || Step(s, a).threads[t] == Checking(sock))
    ensures Present(s, sock) || Stamps(s, a, sock)
  {
  }

  /**
   In every interleaving, whatever is in the pool was stamped: some thread held that connection
   and put it back, or began to, when the clock read what its last_used says.
   */
  lemma {:induction false} StampedWhen(capacity: uint32, n: nat, actions: seq<Action>, k: nat, sock: Socket)
    returns (j: nat)
    requires k <= |actions| && Present(After(Init(capacity, n), actions, k), sock)
    ensures j < k && (actions[j].Stamp? || actions[j].Put?)
    ensures
      var s := After(Init(capacity, n), actions, j);
      actions[j].t < |s.threads| && s.threads[actions[j].t] == Holding(sock.id) && s.clock == sock.lastUsed
    decreases k
  {
    assert k > 0;
    var before := After(Init(capacity, n), actions, k - 1);
    AfterNext(Init(capacity, n), actions, k - 1);
    PresentFrom(before, actions[k - 1], sock);
    if Stamps(before, actions[k - 1], sock) {
      j := k - 1;
    } else {
      j := StampedWhen(capacity, n, actions, k - 1, sock);
    }
  }

  // ------------------------------------------------------- steps that add up

  /** An attempt counts in any case, is granted exactly below capacity, and is undone by its decrement. */
  lemma AttemptIsUndone(s: State, t: nat)
    requires t < |s.threads| && s.threads[t].Idle?
    ensures Step(s, Incr(t)) == s.(total := (s.total + 1) % TWO_32,
                                   threads := s.threads[t := if s.total < s.capacity then Reserved else OverLimit])
    ensures Step(Step(s, Incr(t)), Decr(t)) == s
  {
    AddAndSubtractAreModular(s.total, 1);
    var to := if s.total < s.capacity then Reserved else OverLimit;
    var tried := s.(total := Add32(s.total, 1), threads := s.threads[t := to]);
    assert Step(s, Incr(t)) == tried;
    assert tried.threads[t := Idle] == s.threads;
  }

  /** A new connection: one more counted and open, and the newest in the pool once it is put there. */
  lemma OpenedAndPut(s: State, t: nat)
    requires t < |s.threads| && s.threads[t].Idle? && s.total < s.capacity && |s.pool| < s.capacity
    ensures
      Step(Step(Step(s, Incr(t)), Open(t)), Put(t))
      == s.(total := s.total + 1, pool := [Socket(s.nextId, s.clock)] + s.pool,
            open := s.open + {s.nextId}, nextId := s.nextId + 1)
  {
    var reserved := s.(total := s.total + 1, threads := s.threads[t := Reserved]);
    assert Step(s, Incr(t)) == reserved;
    var holding := s.(total := s.total + 1, threads := s.threads[t := Holding(s.nextId)],
                      open := s.open + {s.nextId}, nextId := s.nextId + 1);
    assert reserved.threads[t := Holding(s.nextId)] == holding.threads;
    assert Step(reserved, Open(t)) == holding;
    assert holding.threads[t := Idle] == s.threads;
    PutIsStampAndPush(holding, t);
  }

  /** The head is handed out and comes back on the head with a new stamp. */
  lemma GotAndPut(s: State, t: nat)
    requires t < |s.threads| && s.threads[t].Idle? && 0 < |s.pool| <= s.capacity
    ensures Step(Step(s, Get(t)), Put(t)) == s.(pool := [Socket(s.pool[0].id, s.clock)] + s.pool[1..])
  {
    var got := s.(pool := s.pool[1..], threads := s.threads[t := Holding(s.pool[0].id)]);
    assert Step(s, Get(t)) == got;
    assert got.threads[t := Idle] == s.threads;
    PutIsStampAndPush(got, t);
  }

  /** The head is handed out and closed: one less in the pool, open and counted. */
  lemma GotAndClosed(s: State, t: nat)
    requires t < |s.threads| && s.threads[t].Idle? && s.pool != []
    ensures
      Step(Step(Step(s, Get(t)), Close(t)), Decr(t))
      == s.(pool := s.pool[1..], open := s.open - {s.pool[0].id}, total := (s.total - 1) % TWO_32)
  {
    AddAndSubtractAreModular(s.total, 1);
    var got := s.(pool := s.pool[1..], threads := s.threads[t := Holding(s.pool[0].id)]);
    assert Step(s, Get(t)) == got;
    ClosedAndCounted(got, s.threads, t, s.pool[0].id);
  }

  lemma ClosedAndCounted(s: State, idle: seq<Thread>, t: nat, id: nat)
    requires t < |s.threads| == |idle| && s.threads == idle[t := s.threads[t]] && idle[t].Idle?
    requires s.threads[t] == Holding(id) || (s.threads[t].Checking? && s.threads[t].sock.id == id)
    ensures Step(Step(s, Close(t)), Decr(t))
         == s.(open := s.open - {id}, total := Sub32(s.total, 1), threads := idle)
  {
    var closed := s.(open := s.open - {id}, threads := s.threads[t := Closed]);
    assert Step(s, Close(t)) == closed;
    assert closed.threads[t := Idle] == idle;
  }

  /** An idle check that finds the tail current leaves everything as it was. */
  lemma CheckedAndPutBack(s: State, t: nat)
    requires t < |s.threads| && s.threads[t].Idle? && 0 < |s.pool| <= s.capacity
    ensures Step(Step(s, TakeOldest(t)), PutOldest(t)) == s
  {
    var last := s.pool[|s.pool|-1];
    var taken := s.(pool := s.pool[..|s.pool|-1], threads := s.threads[t := Checking(last)]);
    assert Step(s, TakeOldest(t)) == taken;
    assert taken.threads[t := Idle] == s.threads && taken.pool + [last] == s.pool;
  }

  /** And one that finds it idle takes it out of the pool, the open connections and the count. */
  lemma CheckedAndClosed(s: State, t: nat)
    requires t < |s.threads| && s.threads[t].Idle? && s.pool != []
    ensures
      var n := |s.pool| - 1;
      Step(Step(Step(s, TakeOldest(t)), Close(t)), Decr(t))
      == s.(pool := s.pool[..n], open := s.open - {s.pool[n].id}, total := (s.total - 1) % TWO_32)
  {
    AddAndSubtractAreModular(s.total, 1);
    var last := s.pool[|s.pool|-1];
    var taken := s.(pool := s.pool[..|s.pool|-1], threads := s.threads[t := Checking(last)]);
    assert Step(s, TakeOldest(t)) == taken;
    ClosedAndCounted(taken, s.threads, t, last.id);
  }
}
