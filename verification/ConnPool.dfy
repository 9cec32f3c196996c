/**
 as_conn_pool.h and the connection functions of as_node.h as the code has them.  Each method of
 the pool is one critical section or one atomic instruction; its call on the queue is the RingStep
 that the machine of RingPool takes for the same action.
 */
module ConnPool {
  import opened Words
  import opened Queue
  import opened SyncPool
  import opened PoolOrder

  class ConnPool {
    const queue: Queue<Socket>

    /** The pool's pushes and pops keep the indices far below the wrap, as RingPool shows of every run. */
    ghost predicate Valid()
      reads this, queue, queue.data
    {
      queue.Valid() && queue.head <= queue.tail <= 2 * queue.capacity < TWO_32
    }

    ghost function Contents(): seq<Socket>
      requires Valid()
      reads this, queue, queue.data
    {
      queue.Contents()
    }

    /** The block of slots has to fit the uint32 offsets; a socket is more than two bytes. */
    constructor (capacity: uint32)
      requires 2 * capacity < TWO_32
      ensures Valid() && fresh(queue) && fresh(queue.data)
      ensures Contents() == [] && queue.capacity == capacity && queue.total == 0
    {
      queue := new Queue<Socket>(capacity);
    }

    method PopHead() returns (sock: Option<Socket>)
      requires Valid()
      modifies queue`head, queue`tail
      ensures Valid() && (queue.Abs(), Popped(sock)) == RingStep(old(queue.Abs()), Op<Socket>.PopHead)
      ensures (Contents(), Popped(sock)) == DequeStep(old(Contents()), queue.capacity, Op<Socket>.PopHead)
    {
      sock := queue.Pop();
    }

    /** A successful pop leaves room for the push on the tail that may undo it. */
    method PopTail() returns (sock: Option<Socket>)
      requires Valid()
      modifies queue`head, queue`tail
      ensures Valid() && (queue.Abs(), Popped(sock)) == RingStep(old(queue.Abs()), Op<Socket>.PopTail)
      ensures (Contents(), Popped(sock)) == DequeStep(old(Contents()), queue.capacity, Op<Socket>.PopTail)
      ensures sock.Some? ==> queue.tail < 2 * queue.capacity
    {
      sock := queue.PopTail();
    }

    /** Pushes on the head never use up room: head pushes move the indices to at most 2 * capacity. */
    method PushHead(sock: Socket) returns (ok: bool)
      requires Valid()
      modifies queue`head, queue`tail, queue.data
      ensures Valid() && queue.data == old(queue.data)
      ensures (queue.Abs(), Pushed(ok)) == RingStep(old(queue.Abs()), Op<Socket>.PushHead(sock))
      ensures (Contents(), Pushed(ok)) == DequeStep(old(Contents()), queue.capacity, Op<Socket>.PushHead(sock))
    {
      ok := queue.PushHeadLimit(sock);
    }

    /** The one push that moves the tail on; room for the next one is left if there was any. */
    method PushTail(sock: Socket) returns (ok: bool)
      requires Valid()
      modifies queue`tail, queue.data
      ensures queue.Valid() && queue.data == old(queue.data)
      ensures (queue.Abs(), Pushed(ok)) == RingStep(old(queue.Abs()), Op<Socket>.PushTail(sock))
      ensures (queue.Contents(), Pushed(ok))
           == DequeStep(old(Contents()), queue.capacity, Op<Socket>.PushTail(sock))
      ensures old(queue.tail) < 2 * queue.capacity ==> Valid()
    {
      ok := queue.PushLimit(sock);
    }

    /** Fetch-and-add: the counter moves even when the answer is no. */
    method Incr() returns (ok: bool)
      requires Valid()
      modifies queue`total
      ensures Valid() && Contents() == old(Contents())
      ensures ok == (old(queue.total) < queue.capacity)
      ensures queue.total == Add32(old(queue.total), 1)
    {
      ok := queue.total < queue.capacity;
      queue.total := Add32(queue.total, 1);
    }

    method Decr()
      requires Valid()
      modifies queue`total
      ensures Valid() && Contents() == old(Contents())
      ensures queue.total == Sub32(old(queue.total), 1)
    {
      queue.total := Sub32(queue.total, 1);
    }

    /** Closes every pooled socket, head first, and leaves none. */
    method Destroy() returns (closed: seq<Socket>)
      requires Valid()
      modifies queue`head, queue`tail
      ensures Valid() && Contents() == [] && closed == old(Contents())
    {
      ghost var before := Contents();
      closed := [];
      var sock := PopHead();
      while sock.Some?
        invariant Valid() && Draining(before, Contents(), sock, closed)
        decreases |Contents()|, sock.Some?
      {
        ghost var left, last, soFar := Contents(), sock.value, closed;
        closed := closed + [sock.value];
        sock := PopHead();
        DrainedOne(before, left, last, soFar, queue.capacity, Contents(), sock);
      }
    }

    /** Takes the oldest socket out if it is idle, and puts it back if it is current. */
    method TakeIdle(now: nat, maxIdle: nat) returns (sock: Option<Socket>)
      requires Valid()
      modifies queue`head, queue`tail, queue.data
      ensures Valid() && queue.data == old(queue.data)
      ensures TookIdle(old(Contents()), Contents(), sock, now, maxIdle)
    {
      ghost var pool := Contents();
      sock := PopTail();
      if sock.None? { return; }
      assert pool == Contents() + [sock.value];
      if Current(sock.value, now, maxIdle) {
        var ok := PushTail(sock.value);
        sock := None;
      }
    }
  }

  /** In the drain's loop: closed is out, then sock, and pool is what is left. */
  ghost predicate Draining(before: seq<Socket>, pool: seq<Socket>, sock: Option<Socket>, closed: seq<Socket>) {
    && closed + (if sock.Some? then [sock.value] else []) + pool == before
    && (sock.None? ==> pool == [])
  }

  lemma DrainedOne(before: seq<Socket>, left: seq<Socket>, last: Socket, closed: seq<Socket>, capacity: nat,
                   pool: seq<Socket>, sock: Option<Socket>)
    requires Draining(before, left, Some(last), closed)
    requires (pool, Popped(sock)) == DequeStep(left, capacity, Op<Socket>.PopHead)
    ensures Draining(before, pool, sock, closed + [last])
  {
    if left != [] {
      assert closed + [last] + left == closed + [last] + [left[0]] + left[1..];
    }
  }

  function Reversed<T>(s: seq<T>): (r: seq<T>)
    ensures |r| == |s|
    decreases |s|
  {
    if s == [] then [] else [s[|s|-1]] + Reversed(s[..|s|-1])
  }

  /** Without the first one, the reversed sequence lacks its last. */
  lemma {:induction false} ReversedRest<T>(s: seq<T>)
    requires s != []
    ensures Reversed(s) == Reversed(s[1..]) + [s[0]]
    decreases |s|
  {
    var n := |s| - 1;
    if n > 0 {
      ReversedRest(s[..n]);
      assert s[..n][1..] == s[1..][..n - 1];
      assert s[1..][n - 1] == s[n] && s[..n][0] == s[0];
    } else {
      assert s[..n] == s[1..] == [];
    }
  }

  /** In the trim's loop: closed is out and counted, sock is out and idle, pool is what is left. */
  ghost predicate Trimming(before: seq<Socket>, pool: seq<Socket>, sock: Option<Socket>, closed: seq<Socket>,
                           clock: nat -> nat, maxIdle: nat) {
    && TrimClocked(before, clock, 0, maxIdle)
    == (if sock.None? then pool else TrimClocked(pool, clock, |closed| + 1, maxIdle))
    && pool + (if sock.Some? then [sock.value] else []) + Reversed(closed) == before
  }

  /** What the check at reading now leaves of the pool, and the socket it takes out. */
  ghost predicate TookIdle(before: seq<Socket>, pool: seq<Socket>, sock: Option<Socket>, now: nat, maxIdle: nat) {
    match sock
    case Some(x) => !Current(x, now, maxIdle) && before == pool + [x]
    case None => pool == before && (pool == [] || Current(pool[|pool|-1], now, maxIdle))
  }

  lemma TrimBegins(before: seq<Socket>, pool: seq<Socket>, sock: Option<Socket>, clock: nat -> nat, maxIdle: nat)
    requires TookIdle(before, pool, sock, clock(0), maxIdle)
    ensures Trimming(before, pool, sock, [], clock, maxIdle)
  {
  }

  lemma TrimmedOne(before: seq<Socket>, left: seq<Socket>, last: Socket, closed: seq<Socket>,
                   pool: seq<Socket>, sock: Option<Socket>, clock: nat -> nat, maxIdle: nat)
    requires Trimming(before, left, Some(last), closed, clock, maxIdle)
    requires TookIdle(left, pool, sock, clock(|closed| + 1), maxIdle)
    ensures Trimming(before, pool, sock, closed + [last], clock, maxIdle)
  {
    assert (closed + [last])[..|closed|] == closed;
  }

  lemma Trimmed(before: seq<Socket>, pool: seq<Socket>, closed: seq<Socket>, clock: nat -> nat, maxIdle: nat)
    requires Trimming(before, pool, None, closed, clock, maxIdle)
    ensures pool == TrimClocked(before, clock, 0, maxIdle) && pool + Reversed(closed) == before
  {
  }

  lemma {:induction false} StoppedAtCurrent(pool: seq<Socket>, left: seq<Socket>, clock: nat -> nat, i: nat,
                                            stop: nat, maxIdle: nat)
    requires left == TrimClocked(pool, clock, i, maxIdle) && left != [] && |left| + stop == |pool| + i
    ensures Current(left[|left|-1], clock(stop), maxIdle)
    decreases |pool|
  {
    if !Current(pool[|pool|-1], clock(i), maxIdle) {
      StoppedAtCurrent(pool[..|pool|-1], left, clock, i + 1, stop, maxIdle);
    }
  }

  /** The k-th closed socket was idle at its reading, the i + k-th. */
  lemma {:induction false} ClosedWasIdle(pool: seq<Socket>, left: seq<Socket>, closed: seq<Socket>,
                                         clock: nat -> nat, i: nat, k: nat, at: nat, maxIdle: nat)
    requires left == TrimClocked(pool, clock, i, maxIdle) && left + Reversed(closed) == pool
    requires k < |closed| && at == i + k
    ensures !Current(closed[k], clock(at), maxIdle)
    decreases k
  {
    ReversedRest(closed);
    if k > 0 {
      assert left + Reversed(closed[1..]) == pool[..|pool|-1];
      ClosedWasIdle(pool[..|pool|-1], left, closed[1..], clock, i + 1, k - 1, at, maxIdle);
    }
  }

  /** What that says in numbers, for readings that are uint64 and not before the stamps. */
  lemma IdleInNumbers(before: seq<Socket>, left: seq<Socket>, closed: seq<Socket>, clock: nat -> nat, maxIdle: nat)
    requires left == TrimClocked(before, clock, 0, maxIdle) && left + Reversed(closed) == before
    ensures forall k :: 0 <= k < |closed| && closed[k].lastUsed <= clock(k) < TWO_64 ==>
              clock(k) - closed[k].lastUsed > maxIdle
    ensures left != [] && left[|left|-1].lastUsed <= clock(|closed|) < TWO_64 ==>
              clock(|closed|) - left[|left|-1].lastUsed <= maxIdle
  {
    forall k | 0 <= k < |closed| && closed[k].lastUsed <= clock(k) < TWO_64
      ensures clock(k) - closed[k].lastUsed > maxIdle
    {
      ClosedWasIdle(before, left, closed, clock, 0, k, k, maxIdle);
      CurrentIff(closed[k], clock(k), maxIdle);
    }
    if left != [] && left[|left|-1].lastUsed <= clock(|closed|) < TWO_64 {
      StoppedAtCurrent(before, left, clock, 0, |closed|, maxIdle);
      CurrentIff(left[|left|-1], clock(|closed|), maxIdle);
    }
  }

  /** k connections closed: total is down and the closed count up by k, each modulo 2^32. */
  ghost predicate CloseCounts(total: uint32, count: uint32, total': uint32, count': uint32, k: nat) {
    total' == Minus32(total, k) && count' == Plus32(count, k)
  }

  ghost predicate OneCloseCounts(total: uint32, count: uint32, total': uint32, count': uint32) {
    total' == Sub32(total, 1) && count' == Add32(count, 1)
  }

  lemma NextCloseCounts(total: uint32, count: uint32, t: uint32, c: uint32, t': uint32, c': uint32, k: nat)
    requires CloseCounts(total, count, t, c, k) && OneCloseCounts(t, c, t', c')
    ensures CloseCounts(total, count, t', c', k + 1)
  {
  }

  lemma ClosedAreCounted(total: uint32, count: uint32, total': uint32, count': uint32, k: nat)
    requires CloseCounts(total, count, total', count', k)
    ensures total' == (total - k) % TWO_32 && count' == (count + k) % TWO_32
  {
    PlusIsModular(count, k);
    MinusIsModular(total, k);
  }

  class Node {
    var syncConnsClosed: uint32

    method CloseConnection(pool: ConnPool, sock: Socket)
      requires pool.Valid()
      modifies this`syncConnsClosed, pool.queue`total
      ensures syncConnsClosed == Add32(old(syncConnsClosed), 1)
      ensures pool.queue.total == Sub32(old(pool.queue.total), 1)
      ensures pool.Valid() && pool.Contents() == old(pool.Contents())
    {
      syncConnsClosed := Add32(syncConnsClosed, 1);
      pool.Decr();
    }

    /** Stamp, then push on the head; a socket that finds no room is closed and given up. */
    method PutConnection(pool: ConnPool, sock: Socket, now: nat)
      requires pool.Valid()
      modifies this`syncConnsClosed, pool.queue`head, pool.queue`tail, pool.queue`total, pool.queue.data
      ensures pool.Valid() && pool.queue.data == old(pool.queue.data)
      ensures if |old(pool.Contents())| < pool.queue.capacity
              then && pool.Contents() == [Socket(sock.id, now)] + old(pool.Contents())
                   && pool.queue.total == old(pool.queue.total) && syncConnsClosed == old(syncConnsClosed)
              else && pool.Contents() == old(pool.Contents())
                   && pool.queue.total == Sub32(old(pool.queue.total), 1)
                   && syncConnsClosed == Add32(old(syncConnsClosed), 1)
    {
      var stamped := sock.(lastUsed := now);
      var ok := pool.PushHead(stamped);
      if !ok {
        CloseConnection(pool, stamped);
      }
    }

    /** One turn of the idle check: closes sock and looks at the next one. */
    method CloseAndTake(pool: ConnPool, sock: Socket, now: nat, maxIdle: nat) returns (next: Option<Socket>)
      requires pool.Valid()
      modifies this`syncConnsClosed, pool.queue`head, pool.queue`tail, pool.queue`total, pool.queue.data
      ensures pool.Valid() && pool.queue.data == old(pool.queue.data)
      ensures TookIdle(old(pool.Contents()), pool.Contents(), next, now, maxIdle)
      ensures OneCloseCounts(old(pool.queue.total), old(syncConnsClosed), pool.queue.total, syncConnsClosed)
    {
      CloseConnection(pool, sock);
      next := pool.TakeIdle(now, maxIdle);
    }

    /** The loop of the idle check: from the tail to the first current socket, the i-th one checked at clock(i). */
    method CloseWhileIdle(pool: ConnPool, clock: nat -> nat, maxIdle: nat) returns (closed: seq<Socket>)
      requires pool.Valid()
      modifies this`syncConnsClosed, pool.queue`head, pool.queue`tail, pool.queue`total, pool.queue.data
      ensures pool.Valid() && pool.queue.data == old(pool.queue.data)
      ensures pool.Contents() == TrimClocked(old(pool.Contents()), clock, 0, maxIdle)
      ensures pool.Contents() + Reversed(closed) == old(pool.Contents())
      ensures CloseCounts(old(pool.queue.total), old(syncConnsClosed), pool.queue.total, syncConnsClosed, |closed|)
    {
      ghost var before, total, count := pool.Contents(), pool.queue.total, syncConnsClosed;
      closed := [];
      var sock := pool.TakeIdle(clock(0), maxIdle);
      TrimBegins(before, pool.Contents(), sock, clock, maxIdle);
      while sock.Some?
        invariant pool.Valid() && pool.queue.data == old(pool.queue.data)
        invariant CloseCounts(total, count, pool.queue.total, syncConnsClosed, |closed|)
        invariant Trimming(before, pool.Contents(), sock, closed, clock, maxIdle)
        decreases |pool.Contents()|, sock.Some?
      {
        ghost var left, last, soFar := pool.Contents(), sock.value, closed;
        closed := closed + [sock.value];
        ghost var total', count' := pool.queue.total, syncConnsClosed;
        sock := CloseAndTake(pool, sock.value, clock(|closed|), maxIdle);
        TrimmedOne(before, left, last, soFar, pool.Contents(), sock, clock, maxIdle);
        NextCloseCounts(total, count, total', count', pool.queue.total, syncConnsClosed, |soFar|);
      }
      Trimmed(before, pool.Contents(), closed, clock, maxIdle);
    }

    /**
     The idle check on one pool, as max_socket_idle documents it: what it closes was idle for longer
     than maxIdle when it was checked, and what it stops at was not.
     */
    method CloseIdle(pool: ConnPool, clock: nat -> nat, maxIdle: nat) returns (closed: seq<Socket>)
      requires pool.Valid()
      modifies this`syncConnsClosed, pool.queue`head, pool.queue`tail, pool.queue`total, pool.queue.data
      ensures pool.Valid() && pool.queue.data == old(pool.queue.data)
      ensures pool.Contents() == TrimClocked(old(pool.Contents()), clock, 0, maxIdle)
      ensures pool.Contents() + Reversed(closed) == old(pool.Contents())
      ensures forall k :: 0 <= k < |closed| && closed[k].lastUsed <= clock(k) < TWO_64 ==>
                clock(k) - closed[k].lastUsed > maxIdle
      ensures var left := pool.Contents();
              left != [] && left[|left|-1].lastUsed <= clock(|closed|) < TWO_64 ==>
                clock(|closed|) - left[|left|-1].lastUsed <= maxIdle
      ensures pool.queue.total == (old(pool.queue.total) - |closed|) % TWO_32
      ensures syncConnsClosed == (old(syncConnsClosed) + |closed|) % TWO_32
    {
      ghost var before, total, count := pool.Contents(), pool.queue.total, syncConnsClosed;
      closed := CloseWhileIdle(pool, clock, maxIdle);
      IdleInNumbers(before, pool.Contents(), closed, clock, maxIdle);
      ClosedAreCounted(total, count, pool.queue.total, syncConnsClosed, |closed|);
    }
  }
}
