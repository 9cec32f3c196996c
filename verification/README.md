# A model of the Aerospike client's inline core

The vendored C client headers under `include/aerospike` contain a few complete, stateful
algorithms. This project models them in Dafny and proves what callers rely on.

* **Connections.** `Queue` is the circular deque of `as_queue.h` with its uint32 indices.
  `ConnPool` is the code of `as_conn_pool.h` and of the connection functions of `as_node.h` over
  it. `SyncPool` is the same pool as a step machine run by any number of threads, `RingPool` shows
  that its pool may be the ring of `Queue` in every interleaving, `PoolOrder` is the order the pool
  keeps, and `PoolLaws` is what one thread's steps amount to. `AsyncPool` is the single-threaded
  pool of `as_event_internal.h` with a limit that may change.
* **Shared words.** `SetMax` is the compare-and-swap loop of `as_atomic_gcc.h`. `NodeRefs` and
  `NodesArray` are the two reference counts. `Monitor` is `as_monitor.h`.
* **Wire format.** `Bytes`, `Fields` and `Command` are the writers of `as_command.h`, an
  independent decoder for what they write, and whole commands from predicted size to decoding.
* **Small algorithms.** `Random` is xorshift128+ (over `Orbits`, iteration of invertible steps),
  `CdtPacker` the two-pass packing loop, `CommandBuffer` the buffer sizing of `as_async.h`,
  `EventLoops` the round-robin choice of `as_event.h`.
* `Words`, `Threads` and `Runs` hold fixed-width arithmetic, sums over threads and runs of a step
  machine.

## How to read it

Concurrent code is a step machine: a `State`, an `Action` per atomic step, a total function `Step`
(an action that cannot happen now changes nothing) and `Run` over a sequence of actions. A lemma
about `Run(Step, Init(...), actions)` for all `actions` is about every interleaving. Atomics are
sequentially consistent single steps and mutexes are atomic sections. Sequential code is a class
with the source's fields; its methods say what they do in terms of a specification function, and
the lemmas are about that function.

## What does not always hold

Some promises hold only under a condition. Each condition is proved to be exact.

* Letting the queue's virtual indices wrap at 2^32 keeps live items apart exactly when `WrapSafe`
  holds of the window (`Queue.DistinctSlotsIff`). Every run of pushes and pops from the empty queue
  behaves as a deque exactly when `capacity` is 0 or divides 2^32; otherwise
  `Queue.ReachOverwrite` is a run that loses an item (`Queue.RefinesDequeIff`). The connection pool
  never gets there: its indices stay within twice the capacity (`RingPool.RingIsPool`).
* A queue's `total` is the number of items in use exactly when callers give back no more than they
  were granted (`Queue.TotalIsInUseIff`).
* `capacity` bounds the open connections in every interleaving exactly when threads plus capacity
  do not exceed 2^32, because a failed `as_conn_pool_incr` still counts until it is undone
  (`SyncPool.LimitHoldsIff`).
* `as_config.h:523-525` says that connections at the tail are always the least used. For the code
  this is false: `as_node_put_connection` stamps and pushes in two steps, and
  `PoolOrder.SplitPutBreaksOrder` and `PoolOrder.CheckerBreaksOrder` are runs that leave the pool
  out of order. Over whole runs of any number of threads and idle checkers it holds exactly when
  every stamped socket that is pushed on the head finds no newer one there, and every checked one
  that is put back on the tail finds no older one there (`PoolOrder.AlwaysOrderedIff`). With one idle
  checker the second half comes for free, if the socket it holds is counted as the last one in line
  (`PoolOrder.LineOrderedIff`); with stamp and push as one step so does the first
  (`PoolOrder.LeastUsedAtTail`). `PoolOrder.TrimRemovesExactlyIdleIff` says when a trim from the tail
  still removes exactly the idle sockets.
* A node array's own reference may be dropped safely exactly when no reader is between loading
  the pointer and incrementing the count (`NodesArray.GracePeriodIff`). The gc list is assumed to
  wait for that.
* A node is destroyed once, with no reference left, exactly when at most 2^32 references can be out
  (`NodeRefs.DestroyedOnceIff`): beyond that the uint32 count wraps.
* A field decodes exactly when its payload is shorter than 2^32 - 1 bytes, a bin name when it is
  shorter than 256 bytes, a header when the length fits 48 bits, and an allocation covers a command
  when rounding up does not overflow (`Fields.FieldRoundTripIff`, `Fields.BinRoundTripIff`,
  `Command.HeaderRoundTripIff`, `CommandBuffer.CoversIff`).
* Wake-ups are never lost exactly when `as_monitor_begin` comes before the operation starts
  (`Monitor.BeginFirstIff`).

## Model

| member | source | states |
|---|---|---|
| Queue.DistinctSlotsIff | include/aerospike/as_queue.h:113-117 | live virtual indices fall into distinct slots, across the wrap at 2^32 too, if and only if the window does not cross it, or capacity divides 2^32, or the window is no longer than 2^32 % capacity |
| Queue.WrapSafeForAllIff | include/aerospike/as_queue.h:155-159 | for the slot arithmetic alone, over all windows whether a run reaches them or not: every one is safe if and only if capacity divides 2^32 |
| Queue.RefinesDequeIff | include/aerospike/as_queue.h:113-198 | every run of pushes and pops at either end of a new queue gives the contents and replies of a deque if and only if capacity is zero or divides 2^32 |
| Queue.ReachOverwrite | include/aerospike/as_queue.h:128-138 | for every other capacity, a run from the empty queue that reaches the wrap and loses an item |
| Queue.SafeRunRefines | include/aerospike/as_queue.h:113-198 | a run is that of a deque as long as every window it goes through is safe |
| Queue.RoomyRunRefines | include/aerospike/as_queue.h:113-198 | and that is so, for any capacity, while the tail plus the operations to come stay below 2^32 and twice the capacity fits beside them |
| Queue.UnsafePushOverwrites | include/aerospike/as_queue.h:128-138 | the first push outside that condition writes over a live item, which then reads as the pushed one |
| Queue.OffsetsExactIff | include/aerospike/as_queue.h:158 | the uint32 product index * item_size is exact for every slot if and only if it is for the last one |
| Queue.SlotsAreDisjointBytes | include/aerospike/as_queue.h:158 | when the block fits 32 bits, an earlier slot ends before a later one begins, and that one inside the block |
| Queue.WindowShift | include/aerospike/as_queue.h:140-150 | shifting both indices up by capacity leaves the contents as they are |
| Queue.Queue.ContentsAt | include/aerospike/as_queue.h:155-159 | the i-th item is the one that as_queue_get finds at (head + i) modulo 2^32, in slot that % capacity |
| Queue.Queue.Pop | include/aerospike/as_queue.h:164-179 | removes and returns the first item and steps the head on; emptying the queue resets both indices to 0 |
| Queue.Queue.PopTail | include/aerospike/as_queue.h:184-198 | removes and returns the last item and steps the tail back; emptying the queue resets both indices to 0 |
| Queue.Queue.PushLimit | include/aerospike/as_queue.h:134-138 | below capacity appends the item and otherwise refuses, whenever the window stays safe (body assumed from the header comment) |
| Queue.Queue.PushHeadLimit | include/aerospike/as_queue.h:146-150 | below capacity puts the item in front and otherwise refuses, whenever the window stays safe (body assumed from the header comment) |
| Queue.Queue.Replay | include/aerospike/as_queue.h:113-198 | any run of pushes and pops is the run of the ring, wraps and overwrites included, and that of a deque while its windows are safe |
| Queue.TotalIsInUseIff | include/aerospike/as_queue.h:203-220 | over every run of both calls, total is the items granted and not given back, within capacity, if and only if callers never give back more than they were granted |
| Queue.GrantsWithinCapacity | include/aerospike/as_queue.h:203-220 | whatever callers do, no more than capacity are out, and total differs from that number by 2^32 for each decrement that found zero |
| Queue.GrantedWhileRoom | include/aerospike/as_queue.h:203-211 | as long as no decrement found zero, an increment is granted exactly when fewer than capacity are out |
| Words.RemIsPercent | include/aerospike/as_queue.h:158 | the remainder used for slots is the C operator on unsigned words |
| ConnPool.ConnPool.PopHead | include/aerospike/as_conn_pool.h:67-74 | pops the front of the pool |
| ConnPool.ConnPool.PopTail | include/aerospike/as_conn_pool.h:80-87 | pops the back and leaves index room to push it again |
| ConnPool.ConnPool.PushHead | include/aerospike/as_conn_pool.h:93-100 | puts the socket in front below capacity; head pushes never exhaust the index room |
| ConnPool.ConnPool.PushTail | include/aerospike/as_conn_pool.h:106-113 | puts the socket at the back below capacity, and keeps the indices within twice the capacity if the tail was below that |
| ConnPool.ConnPool.Incr | include/aerospike/as_conn_pool.h:120-124 | counts in any case and grants exactly below capacity |
| ConnPool.ConnPool.Decr | include/aerospike/as_conn_pool.h:130-134 | counts down modulo 2^32 |
| ConnPool.ConnPool.Destroy | include/aerospike/as_conn_pool.h:140-154 | closes every pooled socket once, in order, and leaves none |
| ConnPool.Node.CloseConnection | include/aerospike/as_node.h:543-549 | counts the close and gives the slot up |
| ConnPool.Node.PutConnection | include/aerospike/as_node.h:566-579 | stamps and puts in front if there is room, otherwise closes the connection and gives its slot up |
| ConnPool.Node.CloseIdle | include/aerospike/as_node.h:581-586 | reading the clock for each socket, closes from the tail: every closed one was unused for more than the maximum at its reading and the one it stops at was not; the closed ones are exactly what is missing afterwards, each counted once in total and in sync_conns_closed (body assumed from its comment and from as_config.h) |
| SyncPool.LimitHolds | include/aerospike/as_conn_pool.h:115-134 | in every interleaving total is live connections and reservations plus pending failed attempts, open connections stay within capacity and no connection put back is refused |
| SyncPool.LimitHoldsIff | include/aerospike/as_conn_pool.h:115-134 | the limit holds in all interleavings of n threads if and only if capacity is zero or n + capacity is at most 2^32 |
| SyncPool.Overrun | include/aerospike/as_conn_pool.h:120-124 | beyond that, a run of wrapped attempts opens one connection too many |
| SyncPool.OnePlace | include/aerospike/as_node.h:562-579 | in every interleaving each open connection is in the pool or with one thread, once, and a closed one nowhere |
| SyncPool.NoLeakWhenQuiet | include/aerospike/as_conn_pool.h:115-134 | whenever no thread is at work, total is the number of pooled connections and these are all the open ones |
| SyncPool.HolderFindsRoom | include/aerospike/as_node.h:575-578 | whoever holds a connection finds room for it in the pool |
| PoolLaws.StampThenPush | include/aerospike/as_node.h:566-579 | however many steps other threads take in between, a connection is pushed with the clock at which its thread stamped it, in front of whatever is then pooled, or closed if there is no room |
| PoolLaws.StampedWhen | include/aerospike/as_node.h:571-573 | in every interleaving whatever is pooled, about to be pushed or being checked carries the clock of a moment at which a thread that held it stamped it |
| PoolLaws.AttemptIsUndone | include/aerospike/as_conn_pool.h:115-134 | an attempt counts in any case, is granted exactly below capacity, and its decrement restores the state |
| PoolLaws.OpenedAndPut | include/aerospike/as_conn_pool.h:90-124 | a new connection adds one to total and to the open ones and is the head of the pool |
| PoolLaws.GotAndPut | include/aerospike/as_node.h:566-579 | a connection got and put comes back to the head with a new stamp and nothing else changes |
| PoolLaws.GotAndClosed | include/aerospike/as_node.h:543-549 | a connection got and closed leaves the pool, the open ones and total one smaller |
| PoolLaws.CheckedAndPutBack | include/aerospike/as_conn_pool.h:80-113 | an idle check that puts the tail back changes nothing |
| PoolLaws.CheckedAndClosed | include/aerospike/as_conn_pool.h:80-134 | an idle check that closes the tail takes it out of the pool, the open ones and total |
| RingPool.RingIsPool | include/aerospike/as_conn_pool.h:63-113 | in every interleaving the pool on the ring goes through the states of the sequence machine, and its tail plus the sockets in the hands of idle checkers stays within twice the capacity |
| RingPool.CheckerFindsRoom | include/aerospike/as_conn_pool.h:106-113 | whoever puts a checked socket back on the tail finds the index room that the push asks for |
| PoolOrder.LeastUsedAtTail | include/aerospike/as_config.h:523-525 | with atomic puts and one thread doing the idle checks, the pool is ordered by last use from head to tail after every run |
| PoolOrder.LastPutIsFirstGot | include/aerospike/as_config.h:523-525 | the connection put back last is the next one handed out, and nothing else moves |
| PoolOrder.AlwaysOrderedIff | include/aerospike/as_config.h:523-525 | in any interleaving of threads and idle checkers the pool is ordered after every step if and only if every push on the head finds no newer socket there and every push back on the tail no older one |
| PoolOrder.LineOrderedIff | include/aerospike/as_node.h:572-576 | with one idle checker the pool followed by the socket it holds is ordered after every step if and only if every stamped socket that finds room has no newer one in line |
| PoolOrder.SplitPutBreaksOrder | include/aerospike/as_node.h:572-576 | two threads interleaved between stamp and push leave the pool out of order |
| PoolOrder.CheckerBreaksOrder | include/aerospike/as_conn_pool.h:80-113 | an idle check that holds the newer socket while the older one is pushed puts it back behind that one |
| PoolOrder.CurrentIff | include/aerospike/as_socket.h:197-201 | a socket is current if and only if the uint64 difference of reading and stamp is at most the maximum |
| PoolOrder.TrimRemovesExactlyIdleIff | include/aerospike/as_socket.h:197-201 | trimming from the tail leaves exactly the sockets whose uint64 difference of reading and stamp is at most the maximum, if and only if none of them is behind one where it is more |
| PoolOrder.OrderedTrimIsExact | include/aerospike/as_config.h:516-525 | so after every run whose pushes are in order, atomic puts among them, exactly the sockets unused for at most the maximum are left |
| PoolOrder.ClockedTrimIsExact | include/aerospike/as_socket.h:197-201 | and also when the clock is read again for each socket: what is left are exactly the sockets current at the last reading |
| AsyncPool.RunConserves | include/aerospike/as_event_internal.h:704-773 | on every run total is pooled plus in-use plus reserved, and opened minus closed agrees modulo 2^32 |
| AsyncPool.StepAboveLimit | include/aerospike/as_event_internal.h:714-738 | above the limit each return lowers total by one and nothing else moves it |
| AsyncPool.DrainsToLimit | include/aerospike/as_event_internal.h:704-738 | with the limit fixed total stays within it, and a pool above a lowered limit is down by exactly its returns until it is within, so total - limit returns drain it |
| AsyncPool.LoweredLimitDrains | include/aerospike/as_event_internal.h:704-738 | after the limit is lowered to any value, total minus that many returns bring the pool within it |
| AsyncPool.TakeAfterHeadReturn | include/aerospike/as_event_internal.h:714-721 | a connection returned to the head is the next one taken, and return and take together change nothing |
| AsyncPool.TakesAfterTailReturn | include/aerospike/as_event_internal.h:723-730 | a connection returned to the tail is taken only once all that were pooled before are, in their order |
| AsyncPool.RefusedReturnReleases | include/aerospike/as_event_internal.h:714-738 | a return that is refused gives the slot up and counts one close |
| AsyncPool.FailedConnectIsUndone | include/aerospike/as_event_internal.h:704-755 | a slot is reserved exactly below the limit, and a failed connect gives it back |
| AsyncPool.OpenedAndReleased | include/aerospike/as_event_internal.h:704-738 | a connection opened and released leaves only one more opened and one more closed behind |
| AsyncPool.Pool.IncrTotal | include/aerospike/as_event_internal.h:704-712 | grants a slot exactly when total is below the limit, and changes nothing otherwise |
| AsyncPool.Pool.PushHead | include/aerospike/as_event_internal.h:714-721 | pools the connection in front exactly when total is at most the limit and the queue can grow; a refusal changes nothing |
| AsyncPool.Pool.Push | include/aerospike/as_event_internal.h:723-730 | pools the connection at the back under the same condition |
| AsyncPool.Pool.ReleaseConnection | include/aerospike/as_event_internal.h:732-738 | gives the slot up once, without underflow, and counts the close |
| AsyncPool.Pool.PutBack | include/aerospike/as_event_internal.h:714-738 | a push that is released when refused is one return of the runs above |
| AsyncPool.NodePools.DecrConn | include/aerospike/as_event_internal.h:747-755 | gives a reserved slot up in the pipeline pool for a pipelined command and in the async pool otherwise, and leaves the other pool alone |
| AsyncPool.NodePools.ConnectionTimeout | include/aerospike/as_event_internal.h:757-773 | both branches give an existing connection's slot up exactly once; without a connection nothing changes |
| AsyncPool.NodePools.SocketRetry | include/aerospike/as_event_internal.h:775-785 | a plain command gives its connection up before the retry, a pipelined one is refused and keeps it |
| SetMax.StepKeepsInv | include/aerospike/as_atomic_gcc.h:299-342 | no step lowers the target, and it changes exactly on a compare-and-swap that installs its call's own strictly larger value |
| SetMax.EndsAtMaximum | include/aerospike/as_atomic_gcc.h:299-342 | in every interleaving, for both widths and negative values, installs form a strictly rising chain, a call returns true exactly if it installed its value, once, and at the end the target is the maximum |
| SetMax.CastsAreModular | include/aerospike/as_atomic_gcc.h:299-342 | the casts between the signed value and the unsigned word keep it modulo 2^32 or 2^64, and back |
| SetMax.FalseMeansEnough | include/aerospike/as_atomic_gcc.h:318-319 | the step on which a call gives up finds the target at least at its value |
| SetMax.EveryCallReturns | include/aerospike/as_atomic_gcc.h:307-316 | whatever the others do, a call given as many turns as twice its distance to go has returned |
| SetMax.Target.SetMax | include/aerospike/as_atomic_gcc.h:299-342 | the loop itself, with others raising the word between any two instructions: true after one raising write of x, false with no write, the word at least x either way |
| NodeRefs.DestroyedOnceIff | include/aerospike/as_node.h:473-491 | in every interleaving exactly one release sees zero, with no reference left, if and only if at most 2^32 references can be out |
| NodeRefs.ReserveThenRelease | include/aerospike/as_node.h:473-491 | a reference taken and given back leaves everything as it was |
| NodeRefs.LastReleaseDestroys | include/aerospike/as_node.h:484-491 | the node is destroyed after a release exactly when that was the last reference |
| NodesArray.NoUseAfterFree | include/aerospike/as_cluster.h:340-362 | with grace periods no freed array is incremented, decremented or freed again, and an array is freed exactly when it is swapped out, dropped and unused |
| NodesArray.ReserveReturnsLoaded | include/aerospike/as_cluster.h:343-350 | whatever others do in between, swaps included, a reserve returns the array that was current at its load with one reference more, and the release gives that one back |
| NodesArray.SwapThenCollect | include/aerospike/as_cluster.h:64-80 | a swap makes a new array with one reference current, and collecting the old one frees it exactly when nobody uses it |
| NodesArray.GracePeriodIff | include/aerospike/as_cluster.h:64-80 | dropping an array's own reference is safe for every continuation if and only if no reader is between its load and its increment |
| Monitor.NoLostWakeup | include/aerospike/as_monitor.h:43-66 | in every interleaving over any number of rounds: with complete set and the lock free the waiter is not asleep, and it returns only after the notification of its own round |
| Monitor.NotifiedWaiterReturns | include/aerospike/as_monitor.h:58-66 | after the notification the waiter returns within three of its own steps |
| Monitor.NeverStuck | include/aerospike/as_monitor.h:43-66 | from every point of every run the round in progress can be completed without spurious wake-ups |
| Monitor.SpuriousWakeupIsHarmless | include/aerospike/as_monitor.h:62-64 | a spurious wake-up before the notification leads back to sleep and changes nothing |
| Monitor.BeginFirstIff | include/aerospike/as_monitor.h:43-47 | a wake-up can be lost if and only if begin comes after the start |
| Fields.FieldRoundTripIff | include/aerospike/as_command.h:360-436 | a field is recovered, whatever follows it, if and only if its payload is shorter than 2^32 - 1 bytes |
| Fields.FieldsRoundTrip | include/aerospike/as_command.h:360-436 | a list of fields written back to back is recovered, each string as its bytes before the null byte, and decoding stops where writing did |
| Fields.ValueRoundTrip | include/aerospike/as_command.h:360-436 | the id and the value of every kind of field come back from its payload: strings up to the null byte, buffers and digests as they are, words big-endian |
| Fields.BinRoundTripIff | include/aerospike/as_command.h:449-466 | the bytes of a bin name before its null byte are recovered if and only if they are fewer than 256 |
| Fields.BinsRoundTrip | include/aerospike/as_command.h:247-257 | names that pass the length check are recovered as a list, each as its bytes before the null byte |
| Fields.WriteString | include/aerospike/as_command.h:377-388 | byte by byte: length word, id and the bytes before the null byte, and nothing else is disturbed |
| Fields.WriteUint32 | include/aerospike/as_command.h:394-400 | byte by byte: length word 5, id and the value, highest byte first |
| Fields.WriteUint64 | include/aerospike/as_command.h:406-412 | byte by byte: length word 9, id and the value, highest byte first |
| Fields.WriteBuffer | include/aerospike/as_command.h:418-424 | byte by byte: length word, id and the bytes of the buffer |
| Fields.WriteDigest | include/aerospike/as_command.h:430-436 | byte by byte: length word 21, id 4 and the twenty bytes |
| Fields.WriteBinName | include/aerospike/as_command.h:449-466 | byte by byte: length word, operation 1, two zeros, the name length cut to a byte, and the bytes before the null byte |
| Bytes.Be32Bytes | include/aerospike/as_command.h:364-371 | words are laid out highest byte first |
| Command.SizePredictsWriters | include/aerospike/as_command.h:206-267 | the predicted size is the size written, and an error exactly when a bin name is longer than 15 |
| Command.HeaderRoundTripIff | include/aerospike/as_command.h:480-486 | the header says version 2, the type and len - 8 if and only if 8 <= len < 2^48 + 8 |
| Command.OrDigits | include/aerospike/as_command.h:482-483 | a digit of the packed word is set exactly when it is in one of the parts |
| Command.WriteEnd | include/aerospike/as_command.h:479-486 | returns the length and overwrites only the first eight bytes: version 2, the type and the length less eight |
| Command.CompressWriteEnd | include/aerospike/as_command.h:492-500 | writes the proto header and the size before compression, sixteen bytes and no more |
| Command.CompressedSizeParse | include/aerospike/as_proto.h:157-166 | stores the big-endian size in any case and accepts exactly up to PROTO_SIZE_MAX |
| Command.CompressedRoundTrip | include/aerospike/as_proto.h:157-166 | the reader of a compressed header gets back the stored size, accepted exactly up to the maximum |
| Command.CommandRoundTrip | include/aerospike/as_command.h:475-486 | a whole command is read back from its bytes alone: the length from the proto header, the counts from the message header, then fields, bin names and what follows |
| Command.WriteCommand | include/aerospike/as_command.h:206-486 | writing a command fills exactly its predicted size, leaves all else alone and can be read back whole (message header written by an assumed body) |
| Random.StepIsBijection | include/aerospike/as_random.h:59-69 | the step on 128 bits of state has an explicit two-sided inverse |
| Random.StepBits | include/aerospike/as_random.h:62-67 | each bit of the new state is the exclusive or of old bits 23 up, and 18 and 5 down |
| Random.ShiftLeftMultiplies | include/aerospike/as_random.h:66 | the shift left multiplies by 2^k modulo 2^64 |
| Random.ShiftRightDivides | include/aerospike/as_random.h:67 | the shift right divides by 2^k |
| Random.RunReverses | include/aerospike/as_random.h:59-69 | a run of any length can be taken back, from either end |
| Random.NeverZero | include/aerospike/as_random.h:59-69 | the all-zero state is reached only from itself |
| Random.ReturnsToSeed | include/aerospike/as_random.h:59-69 | from every seed the generator comes back to that seed within 2^128 steps |
| Random.Generator.NextUint64 | include/aerospike/as_random.h:59-69 | moves the second seed to the first, takes one step, which can be undone, and returns the sum of both seeds reduced to a uint64 |
| CdtPacker.PackTwice | include/aerospike/as_cdt_internal.h:31-45 | the body runs once per failed allocation and twice more, nothing is written outside the buffer, and the buffer is the last output, filled exactly |
| CdtPacker.JoinedInOrder | include/aerospike/as_cdt_internal.h:31-45 | the output is the chunks in the order they are emitted |
| CommandBuffer.LeastCoveringMultiple | include/aerospike/as_async.h:83-85 | the masked sum is the least multiple of the step that covers struct, write buffer and 158 bytes |
| CommandBuffer.CoversIff | include/aerospike/as_async.h:120-123 | the block covers what is needed if and only if rounding up does not overflow size_t |
| CommandBuffer.StepOfKind | include/aerospike/as_async.h:83-199 | write and info commands get a multiple of 1024 and the others of 4096, the least that covers what is needed |
| CommandBuffer.RegionSize | include/aerospike/as_async.h:102 | between 158 and 158 + 4096 bytes are left behind the write buffer, so read_capacity is not truncated |
| CommandBuffer.EventCommand.SetAuthWrite | include/aerospike/as_event_internal.h:662-670 | the authentication message starts right after the command and ends inside the block |
| EventLoops.EveryRoundIsFair | include/aerospike/as_event.h:389-397 | any n consecutive calls return each of the n loops exactly once |
| EventLoops.NeverMoreThanOneApart | include/aerospike/as_event.h:382-397 | after any number of calls no loop is more than one call ahead of another |
| EventLoops.ServedAt | include/aerospike/as_event.h:389-397 | the j-th call from cursor p returns loop (p + j) % n |
| EventLoops.Registry.GetMany | include/aerospike/as_event.h:389-397 | calls in a row follow the circular list as that specification says |

## Assumed

Bodies that the headers only declare are taken from their comments: `as_queue_push_limit` writes
at slot `tail % capacity`; `as_queue_push_head_limit` steps the head back, first shifting both
indices up by `capacity` at 0; `as_queue_push` and `as_queue_push_head` fail only when the queue
cannot grow; taking a connection pops the head and otherwise increments, undoing a failed
increment; a caller whose async push is refused releases the connection; the idle check pops from
the tail and pushes a current socket back; the message header writers put `n_fields` and `n_bins`
where `as_msg` has them (`as_proto.h:102-115`) after 18 bytes of attributes, generation and times;
a packing body emits equally many bytes with and without a buffer.

## Left out

- Queue.Queue: slots hold items rather than item_size bytes; the byte ranges of the slots are the subject of SlotsAreDisjointBytes and OffsetsExactIff.
- ConnPool.ConnPool: capacities of 2^31 and more are excluded at construction, because as_queue_get could not address such a block of sockets.
- Command.WriteCommand: the first 18 bytes of the message header are given, because the functions that set them are only declared; the commands have fields and bin names, not the values that as_command_write_bin would add.
- Command.CommandRoundTrip: counts of fields and operations are below 2^16, the width of the parameters n_fields and n_bins.
- CdtPacker.Packer: the packer's extra buffers (head and tail) and the uint32 width of its offset are not modelled, because as_msgpack.h is not part of this model.
- CommandBuffer.EventCommand: len and pos are unbounded and the write offset is that of the space after the struct.
- EventLoops.Registry: the cursor is advanced by one caller at a time; the header itself calls it not exactly accurate under races.
- Weak memory: atomics are sequentially consistent and mutexes atomic sections.
- as_event_command_retry, as_node_get_connection, what the message header writers do with policies, and msgpack: declared only.
- Server-side list, map, bit and predicate operations, sockets, TLS, timers and event-library backends: foreign calls.
- The repository's own programs in src and test: demonstrations of other libraries.
