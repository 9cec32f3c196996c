/**
 The circular double-ended queue of as_queue.h.  Items live at virtual indices
 head, head+1, ..., tail-1, counted in uint32 and so wrapping at 2^32; index i is
 stored in slot i % capacity.
 */
module Queue {
  import opened Words

  // ---------------------------------------------------------------- reference

  /** A bounded deque on plain sequences: what the ring buffer has to refine. */
  datatype Op<T> = PushTail(x: T) | PushHead(x: T) | PopHead | PopTail

  datatype Reply<T> = Pushed(ok: bool) | Popped(item: Option<T>)

  function DequeStep<T>(s: seq<T>, capacity: nat, op: Op<T>): (seq<T>, Reply<T>) {
    match op
    case PushTail(x) => if |s| < capacity then (s + [x], Pushed(true)) else (s, Pushed(false))
    case PushHead(x) => if |s| < capacity then ([x] + s, Pushed(true)) else (s, Pushed(false))
    case PopHead => if s == [] then (s, Popped(None)) else (s[1..], Popped(Some(s[0])))
    case PopTail => if s == [] then (s, Popped(None)) else (s[..|s|-1], Popped(Some(s[|s|-1])))
  }

  /** Contents and replies after a whole run of operations. */
  function DequeRun<T>(s: seq<T>, capacity: nat, ops: seq<Op<T>>): (seq<T>, seq<Reply<T>>)
    decreases |ops|
  {
    if ops == [] then (s, [])
    else
      var (s', replies) := DequeRun(s, capacity, ops[..|ops|-1]);
      var (s'', reply) := DequeStep(s', capacity, ops[|ops|-1]);
      (s'', replies + [reply])
  }

  // ------------------------------------------------------------ virtual indices

  /** The slot of the i-th item from the head. */
  function Slot(head: uint32, i: uint32, capacity: uint32): uint32
    requires capacity > 0
  {
    Rem(Add32(head, i), capacity)
  }

  /** The items at the n virtual indices from head on. */
  function Window<T>(data: seq<T>, head: uint32, n: uint32): (w: seq<T>)
    requires n <= |data| < TWO_32
    ensures |w| == n
    decreases n
  {
    if n == 0 then [] else [data[Rem(head, |data|)]] + Window(data, Add32(head, 1), n - 1)
  }

  ghost predicate DistinctSlots(head: uint32, n: uint32, capacity: uint32)
    requires n <= capacity
  {
    forall i, j :: 0 <= i < j < n ==> Slot(head, i, capacity) != Slot(head, j, capacity)
  }

  /** Checkable on the three words: the window does not wrap, or wrapping does it no harm. */
  predicate WrapSafe(head: uint32, n: uint32, capacity: uint32) {
    || capacity == 0
    || head + n <= TWO_32
    || Rem(TWO_32, capacity) == 0
    || n <= Rem(TWO_32, capacity)
  }

  lemma CloseIndices(a: nat, b: nat, m: nat)
    requires a < b < a + m
    ensures Rem(a, m) != Rem(b, m)
  {
    SameRem(a, b, m);
  }

  /** Two indices of a window on the two sides of the wrap share a slot exactly at distance 2^32 % capacity. */
  lemma AcrossWrap(head: uint32, i: uint32, j: uint32, capacity: uint32)
    requires i < j < i + capacity
    requires head + i < TWO_32 <= head + j
    ensures Slot(head, i, capacity) == Slot(head, j, capacity) <==> j - i == Rem(TWO_32, capacity)
  {
    SameRem(head + j - TWO_32, head + i, capacity);
    SameRem(j - i, TWO_32, capacity);
  }

  /**
   Letting the virtual indices wrap keeps live items apart exactly when the window does not
   cross 2^32, or capacity divides 2^32, or the window is no longer than 2^32 % capacity.
   */
  lemma DistinctSlotsIff(head: uint32, n: uint32, capacity: uint32)
    requires n <= capacity
    ensures DistinctSlots(head, n, capacity) <==> WrapSafe(head, n, capacity)
  {
    if capacity > 0 {
      forall i, j | 0 <= i < j < n
        ensures Slot(head, i, capacity) == Slot(head, j, capacity)
                <==> head + i < TWO_32 <= head + j && j - i == Rem(TWO_32, capacity)
      {
        if head + i < TWO_32 <= head + j {
          AcrossWrap(head, i, j, capacity);
        } else {
          CloseIndices(Add32(head, i), Add32(head, j), capacity);
        }
      }
      var r := Rem(TWO_32, capacity);
      if !WrapSafe(head, n, capacity) {
        var before := TWO_32 - head;
        var i := if before >= r then before - r else 0;
        assert Slot(head, i, capacity) == Slot(head, i + r, capacity);
      }
    }
  }

  /** All windows, reached or not, are safe exactly when capacity divides 2^32; RefinesDequeIff is about runs. */
  lemma WrapSafeForAllIff(capacity: uint32)
    requires capacity > 0
    ensures (forall head: uint32, n: uint32 :: n <= capacity ==> DistinctSlots(head, n, capacity))
            <==> Rem(TWO_32, capacity) == 0
  {
    forall head: uint32, n: uint32 | n <= capacity
      ensures DistinctSlots(head, n, capacity) <==> WrapSafe(head, n, capacity)
    {
      DistinctSlotsIff(head, n, capacity);
    }
    var r := Rem(TWO_32, capacity);
    if r != 0 {
      assert !WrapSafe(TWO_32 - r, r + 1, capacity);
      assert !DistinctSlots(TWO_32 - r, r + 1, capacity);
    }
  }

  // ------------------------------------------------------------ byte addresses

  /** The uint32 product by which as_queue_get finds a slot in the block of bytes. */
  function ByteOffset(slot: uint32, itemSize: uint32): uint32 {
    ProductNonNegative(slot, itemSize);
    Low32(slot * itemSize)
  }

  predicate OffsetExact(slot: uint32, itemSize: uint32) {
    ByteOffset(slot, itemSize) == slot * itemSize
  }

  lemma OffsetExactIff(slot: uint32, itemSize: uint32)
    ensures OffsetExact(slot, itemSize) <==> slot * itemSize < TWO_32
  {
    ProductNonNegative(slot, itemSize);
    Low32Small(slot * itemSize);
  }

  lemma OffsetsGrow(a: uint32, b: uint32, itemSize: uint32)
    requires a <= b
    ensures a * itemSize <= b * itemSize
  {
    if a < b { ProductGap(a, b, itemSize); }
  }

  /** No offset is truncated exactly when the last one is not. */
  lemma OffsetsExactIff(capacity: uint32, itemSize: uint32)
    requires capacity > 0
    ensures (forall slot: uint32 :: slot < capacity ==> OffsetExact(slot, itemSize))
            <==> (capacity - 1) * itemSize < TWO_32
  {
    OffsetExactIff(capacity - 1, itemSize);
    if OffsetExact(capacity - 1, itemSize) {
      forall slot: uint32 | slot < capacity ensures OffsetExact(slot, itemSize) {
        OffsetsGrow(slot, capacity - 1, itemSize);
        OffsetExactIff(slot, itemSize);
      }
    }
  }

  /** If the whole block fits in 32 bits, distinct slots are disjoint byte ranges inside it. */
  lemma SlotsAreDisjointBytes(capacity: uint32, itemSize: uint32, a: uint32, b: uint32)
    requires a < b < capacity && itemSize > 0 && capacity * itemSize <= TWO_32
    ensures ByteOffset(a, itemSize) + itemSize <= ByteOffset(b, itemSize)
    ensures ByteOffset(b, itemSize) + itemSize <= capacity * itemSize
  {
    ProductGap(a, b, itemSize);
    ProductGap(b, capacity, itemSize);
    Low32Small(a * itemSize);
    Low32Small(b * itemSize);
  }

  // ------------------------------------------------------------- window lemmas

  lemma SlotNext(head: uint32, i: uint32, capacity: uint32)
    requires capacity > 0 && i + 1 < TWO_32
    ensures Slot(Add32(head, 1), i, capacity) == Slot(head, i + 1, capacity)
  {
    assert Add32(Add32(head, 1), i) == Add32(head, i + 1);
  }

  lemma {:induction false} WindowAt<T>(data: seq<T>, head: uint32, n: uint32, i: uint32)
    requires i < n <= |data| < TWO_32
    ensures Window(data, head, n)[i] == data[Slot(head, i, |data|)]
    decreases n
  {
    if i == 0 {
      assert Add32(head, 0) == head;
    } else {
      WindowAt(data, Add32(head, 1), n - 1, i - 1);
      SlotNext(head, i - 1, |data|);
    }
  }

  lemma WindowUpdate<T>(data: seq<T>, head: uint32, n: uint32, slot: uint32, x: T)
    requires n <= |data| < TWO_32 && slot < |data|
    requires forall i: uint32 :: i < n ==> Slot(head, i, |data|) != slot
    ensures Window(data[slot := x], head, n) == Window(data, head, n)
  {
    forall i | 0 <= i < n ensures Window(data[slot := x], head, n)[i] == Window(data, head, n)[i] {
      WindowAt(data[slot := x], head, n, i);
      WindowAt(data, head, n, i);
    }
  }

  lemma WindowSnoc<T>(data: seq<T>, head: uint32, n: uint32)
    requires n < |data| < TWO_32
    ensures Window(data, head, n + 1) == Window(data, head, n) + [data[Slot(head, n, |data|)]]
  {
    forall i | 0 <= i < n ensures Window(data, head, n + 1)[i] == Window(data, head, n)[i] {
      WindowAt(data, head, n + 1, i);
      WindowAt(data, head, n, i);
    }
    WindowAt(data, head, n + 1, n);
  }

  lemma WindowTail<T>(data: seq<T>, head: uint32, n: uint32, x: T)
    requires n < |data| < TWO_32 && WrapSafe(head, n + 1, |data|)
    ensures Window(data[Slot(head, n, |data|) := x], head, n + 1) == Window(data, head, n) + [x]
  {
    var slot := Slot(head, n, |data|);
    DistinctSlotsIff(head, n + 1, |data|);
    WindowSnoc(data[slot := x], head, n);
    WindowUpdate(data, head, n, slot, x);
  }

  /** The first push that leaves WrapSafe writes over a live item. */
  lemma UnsafePushOverwrites<T>(data: seq<T>, head: uint32, n: uint32, x: T) returns (i: uint32)
    requires n < |data| < TWO_32
    requires WrapSafe(head, n, |data|) && !WrapSafe(head, n + 1, |data|)
    ensures i < n && i == n - Rem(TWO_32, |data|)
    ensures Window(data[Slot(head, n, |data|) := x], head, n + 1)[i] == x
  {
    i := n - Rem(TWO_32, |data|);
    AcrossWrap(head, i, n, |data|);
    WindowAt(data[Slot(head, n, |data|) := x], head, n + 1, i);
  }

  lemma WindowHead<T>(data: seq<T>, head: uint32, n: uint32, x: T)
    requires n < |data| < TWO_32 && WrapSafe(head, n + 1, |data|)
    ensures Window(data[Rem(head, |data|) := x], head, n + 1) == [x] + Window(data, Add32(head, 1), n)
  {
    DistinctSlotsIff(head, n + 1, |data|);
    forall i: uint32 | i < n ensures Slot(Add32(head, 1), i, |data|) != Rem(head, |data|) {
      SlotNext(head, i, |data|);
      assert Slot(head, 0, |data|) != Slot(head, i + 1, |data|);
    }
    WindowUpdate(data, Add32(head, 1), n, Rem(head, |data|), x);
  }

  /** Shifting both indices up by capacity, as a push on the head at index 0 does, changes nothing. */
  lemma WindowShift<T>(data: seq<T>, n: uint32)
    requires n < |data| < TWO_32 && WrapSafe(|data| - 1, n + 1, |data|)
    ensures Window(data, |data|, n) == Window(data, 0, n)
  {
    forall i | 0 <= i < n ensures Window(data, |data|, n)[i] == Window(data, 0, n)[i] {
      ShiftedSlot(|data|, n, i);
      WindowAt(data, |data|, n, i);
      WindowAt(data, 0, n, i);
    }
  }

  lemma ShiftedSlot(c: uint32, n: uint32, i: uint32)
    requires i < n < c && WrapSafe(c - 1, n + 1, c)
    ensures Slot(c, i, c) == Slot(0, i, c)
  {
  }

  /** Where a push on the head goes: one index back, after a shift up by capacity at index 0. */
  function SteppedBack(head: uint32, tail: uint32, capacity: uint32): (uint32, uint32)
    requires capacity > 0
  {
    if head > 0 then (head - 1, tail) else (capacity - 1, Add32(tail, capacity))
  }

  lemma PushedIndices(head: uint32, tail: uint32, capacity: uint32)
    requires Sub32(tail, head) < capacity
    ensures tail == Add32(head, Sub32(tail, head))
    ensures Sub32(Add32(tail, 1), head) == Sub32(tail, head) + 1
    ensures var (h, t) := SteppedBack(head, tail, capacity);
      Sub32(t, h) == Sub32(tail, head) + 1 && Add32(h, 1) == if head > 0 then head else capacity
  {
  }

  lemma TailPushed<T>(data: seq<T>, head: uint32, tail: uint32, n: uint32, x: T)
    requires n == Sub32(tail, head) < |data| < TWO_32
    requires WrapSafe(head, n + 1, |data|)
    ensures Window(data[Rem(tail, |data|) := x], head, n + 1) == Window(data, head, n) + [x]
  {
    PushedIndices(head, tail, |data|);
    WindowTail(data, head, n, x);
  }

  lemma HeadPushed<T>(data: seq<T>, head: uint32, tail: uint32, n: uint32, h: uint32, x: T)
    requires n == Sub32(tail, head) < |data| < TWO_32
    requires h == SteppedBack(head, tail, |data|).0
    ensures WrapSafe(h, n + 1, |data|) ==>
              Window(data[Rem(h, |data|) := x], h, n + 1) == [x] + Window(data, head, n)
  {
    PushedIndices(head, tail, |data|);
    if WrapSafe(h, n + 1, |data|) {
      WindowHead(data, h, n, x);
      if head == 0 { WindowShift(data, n); }
    }
  }

  // -------------------------------------------------------------- the ring

  /** The fields of an as_queue that its pushes and pops use; capacity is the number of slots. */
  datatype Ring<T> = Ring(data: seq<T>, head: uint32, tail: uint32)

  ghost predicate Sound<T>(r: Ring<T>) {
    Sub32(r.tail, r.head) <= |r.data| < TWO_32
  }

  /** as_queue_size */
  function Size<T>(r: Ring<T>): uint32 {
    Sub32(r.tail, r.head)
  }

  function Items<T>(r: Ring<T>): (s: seq<T>)
    requires Sound(r)
    ensures |s| == Size(r)
  {
    Window(r.data, r.head, Size(r))
  }

  function ResetIfEmpty<T>(r: Ring<T>): Ring<T> {
    if r.head == r.tail then Ring(r.data, 0, 0) else r
  }

  function RingStep<T>(r: Ring<T>, op: Op<T>): (res: (Ring<T>, Reply<T>))
    requires Sound(r)
    ensures Sound(res.0) && |res.0.data| == |r.data|
  {
    var capacity := |r.data|;
    match op
    case PushTail(x) =>
      if Size(r) >= capacity then (r, Pushed(false))
      else (Ring(r.data[Rem(r.tail, capacity) := x], r.head, Add32(r.tail, 1)), Pushed(true))
    case PushHead(x) =>
      if Size(r) >= capacity then (r, Pushed(false))
      else
        PushedIndices(r.head, r.tail, capacity);
        var (h, t) := SteppedBack(r.head, r.tail, capacity);
        (Ring(r.data[Rem(h, capacity) := x], h, t), Pushed(true))
    case PopHead =>
      if Size(r) == 0 then (r, Popped(None))
      else (ResetIfEmpty(Ring(r.data, Add32(r.head, 1), r.tail)), Popped(Some(r.data[Rem(r.head, capacity)])))
    case PopTail =>
      if Size(r) == 0 then (r, Popped(None))
      else
        var last := Sub32(r.tail, 1);
        (ResetIfEmpty(Ring(r.data, r.head, last)), Popped(Some(r.data[Rem(last, capacity)])))
  }

  /** The ring and the replies after a whole run of operations. */
  function RingRun<T>(r: Ring<T>, ops: seq<Op<T>>): (res: (Ring<T>, seq<Reply<T>>))
    requires Sound(r)
    ensures Sound(res.0) && |res.0.data| == |r.data|
    decreases |ops|
  {
    if ops == [] then (r, [])
    else
      var (r', replies) := RingRun(r, ops[..|ops|-1]);
      var (r'', reply) := RingStep(r', ops[|ops|-1]);
      (r'', replies + [reply])
  }

  predicate Safe<T>(r: Ring<T>) {
    |r.data| < TWO_32 && WrapSafe(r.head, Size(r), |r.data|)
  }

  lemma TailPopped<T>(r: Ring<T>)
    requires Sound(r) && Size(r) > 0
    ensures Items(r) == Window(r.data, r.head, Size(r) - 1) + [r.data[Rem(Sub32(r.tail, 1), |r.data|)]]
  {
    assert Sub32(r.tail, 1) == Add32(r.head, Size(r) - 1);
    WindowSnoc(r.data, r.head, Size(r) - 1);
  }

  lemma TailPushRefines<T>(r: Ring<T>, x: T)
    requires Sound(r) && Size(r) < |r.data| && Safe(RingStep(r, PushTail(x)).0)
    ensures Items(RingStep(r, PushTail(x)).0) == Items(r) + [x]
  {
    PushedIndices(r.head, r.tail, |r.data|);
    TailPushed(r.data, r.head, r.tail, Size(r), x);
  }

  lemma HeadPushRefines<T>(r: Ring<T>, x: T)
    requires Sound(r) && Size(r) < |r.data| && Safe(RingStep(r, PushHead(x)).0)
    ensures Items(RingStep(r, PushHead(x)).0) == [x] + Items(r)
  {
    PushedIndices(r.head, r.tail, |r.data|);
    HeadPushed(r.data, r.head, r.tail, Size(r), SteppedBack(r.head, r.tail, |r.data|).0, x);
  }

  lemma HeadPopRefines<T>(r: Ring<T>)
    requires Sound(r) && Size(r) > 0
    ensures Items(RingStep(r, Op<T>.PopHead).0) == Items(r)[1..]
    ensures RingStep(r, Op<T>.PopHead).1 == Popped(Some(Items(r)[0]))
  {
  }

  lemma TailPopRefines<T>(r: Ring<T>)
    requires Sound(r) && Size(r) > 0
    ensures Items(RingStep(r, Op<T>.PopTail).0) == Items(r)[..Size(r) - 1]
    ensures RingStep(r, Op<T>.PopTail).1 == Popped(Some(Items(r)[Size(r) - 1]))
  {
    TailPopped(r);
  }

  /** An operation that leaves the window safe is the operation of the deque. */
  lemma RingStepRefines<T>(r: Ring<T>, op: Op<T>)
    requires Sound(r) && Safe(RingStep(r, op).0)
    ensures (Items(RingStep(r, op).0), RingStep(r, op).1) == DequeStep(Items(r), |r.data|, op)
  {
    match op
    case PushTail(x) => if Size(r) < |r.data| { TailPushRefines(r, x); }
    case PushHead(x) => if Size(r) < |r.data| { HeadPushRefines(r, x); }
    case PopHead => if Size(r) > 0 { HeadPopRefines(r); }
    case PopTail => if Size(r) > 0 { TailPopRefines(r); }
  }

  ghost predicate AlwaysSafe<T>(r: Ring<T>, ops: seq<Op<T>>)
    requires Sound(r)
  {
    forall k: nat :: k <= |ops| ==> Safe(RingRun(r, ops[..k]).0)
  }

  /** The run on the ring gives the contents and the replies of the same run on a plain sequence. */
  ghost predicate Refines<T>(r: Ring<T>, ops: seq<Op<T>>)
    requires Sound(r)
  {
    (Items(RingRun(r, ops).0), RingRun(r, ops).1) == DequeRun(Items(r), |r.data|, ops)
  }

  lemma RefinesNext<T>(r: Ring<T>, ops: seq<Op<T>>, op: Op<T>)
    requires Sound(r) && Refines(r, ops)
    ensures
      var (r', r'') := (RingRun(r, ops).0, RingRun(r, ops + [op]).0);
      && r'' == RingStep(r', op).0
      && DequeRun(Items(r), |r.data|, ops + [op]).0 == DequeStep(Items(r'), |r.data|, op).0
      && (Safe(r'') ==> Refines(r, ops + [op]))
  {
    assert (ops + [op])[..|ops|] == ops;
    if Safe(RingRun(r, ops + [op]).0) { RingStepRefines(RingRun(r, ops).0, op); }
  }

  lemma {:induction false} SafeRunRefines<T>(r: Ring<T>, ops: seq<Op<T>>)
    requires Sound(r) && AlwaysSafe(r, ops)
    ensures Refines(r, ops)
    decreases |ops|
  {
    if ops != [] {
      var (before, last) := (ops[..|ops|-1], ops[|ops|-1]);
      assert before + [last] == ops == ops[..|ops|];
      forall k: nat | k <= |before| ensures Safe(RingRun(r, before[..k]).0) {
        assert before[..k] == ops[..k];
      }
      SafeRunRefines(r, before);
      RefinesNext(r, before, last);
    }
  }

  /** Checkable before a run: its n operations cannot wrap the indices harmfully. */
  predicate Roomy<T>(r: Ring<T>, n: nat) {
    || |r.data| == 0
    || Rem(TWO_32, |r.data|) == 0
    || (r.head <= r.tail && r.tail + n < TWO_32 && 2 * |r.data| + n <= TWO_32)
  }

  lemma StepKeepsRoom<T>(r: Ring<T>, op: Op<T>, n: nat)
    requires Sound(r) && Roomy(r, n + 1)
    ensures Roomy(RingStep(r, op).0, n)
  {
  }

  lemma {:induction false} RunKeepsRoom<T>(r: Ring<T>, ops: seq<Op<T>>, n: nat)
    requires Sound(r) && Roomy(r, |ops| + n)
    ensures Roomy(RingRun(r, ops).0, n)
    decreases |ops|
  {
    if ops != [] {
      RunKeepsRoom(r, ops[..|ops|-1], n + 1);
      StepKeepsRoom(RingRun(r, ops[..|ops|-1]).0, ops[|ops|-1], n);
    }
  }

  lemma RoomyRunRefines<T>(r: Ring<T>, ops: seq<Op<T>>)
    requires Sound(r) && Roomy(r, |ops|)
    ensures Refines(r, ops)
  {
    forall k: nat | k <= |ops| ensures Safe(RingRun(r, ops[..k]).0) {
      RunKeepsRoom(r, ops[..k], |ops| - k);
    }
    SafeRunRefines(r, ops);
  }

  /** ops refine the deque and leave n items, all x, at the virtual indices from k on. */
  ghost predicate Leaves<T>(data: seq<T>, ops: seq<Op<T>>, x: T, k: nat, n: nat)
    requires |data| < TWO_32
  {
    var r := RingRun(Ring(data, 0, 0), ops).0;
    && Refines(Ring(data, 0, 0), ops)
    && r.head == k && Size(r) == n
    && forall i :: 0 <= i < n ==> Items(r)[i] == x
  }

  lemma {:induction false} Fill<T>(data: seq<T>, x: T, n: nat) returns (ops: seq<Op<T>>)
    requires n <= |data| < TWO_32
    ensures Leaves(data, ops, x, 0, n)
    decreases n
  {
    if n == 0 { return []; }
    var before := Fill(data, x, n - 1);
    ops := before + [PushTail(x)];
    RefinesNext(Ring(data, 0, 0), before, PushTail(x));
  }

  /** One item in at the tail and one out at the head move the window up by one. */
  lemma WalkOne<T>(data: seq<T>, ops: seq<Op<T>>, x: T, k: nat, n: nat) returns (ops': seq<Op<T>>)
    requires 0 < n < |data| < TWO_32 && k + n < TWO_32 && Leaves(data, ops, x, k, n)
    ensures Leaves(data, ops', x, k + 1, n)
  {
    var (r, pushed) := (Ring(data, 0, 0), ops + [PushTail(x)]);
    ops' := pushed + [PopHead];
    RefinesNext(r, ops, PushTail(x));
    RefinesNext(r, pushed, PopHead);
  }

  /** From the empty ring a run reaches every window of n items up to the wrap. */
  lemma {:induction false} Walk<T>(data: seq<T>, x: T, k: nat, n: nat) returns (ops: seq<Op<T>>)
    requires 0 < n < |data| < TWO_32 && k + n <= TWO_32
    ensures Leaves(data, ops, x, k, n)
    decreases k
  {
    if k == 0 {
      ops := Fill(data, x, n);
    } else {
      var before := Walk(data, x, k - 1, n);
      ops := WalkOne(data, before, x, k - 1, n);
    }
  }

  /** With 2^32 % capacity items just below the wrap, one more on the tail takes the place of the first. */
  lemma PushAtWrapOverwrites<T>(r: Ring<T>, y: T)
    requires Sound(r) && 0 < Size(r) < |r.data| && r.head + Size(r) == TWO_32
    requires Size(r) == Rem(TWO_32, |r.data|)
    ensures
      var r' := RingStep(r, PushTail(y)).0;
      Size(r') == Size(r) + 1 && Items(r')[0] == y
  {
    PushedIndices(r.head, r.tail, |r.data|);
    var i := UnsafePushOverwrites(r.data, r.head, Size(r), y);
    assert Rem(r.tail, |r.data|) == Slot(r.head, Size(r), |r.data|);
  }

  /** A run from the empty ring that loses an item. */
  lemma ReachOverwrite<T>(data: seq<T>, x: T, y: T) returns (ops: seq<Op<T>>)
    requires 0 < |data| < TWO_32 && Rem(TWO_32, |data|) != 0 && x != y
    ensures !Refines(Ring(data, 0, 0), ops)
  {
    var n := Rem(TWO_32, |data|);
    var before := Walk(data, x, TWO_32 - n, n);
    ops := before + [PushTail(y)];
    RefinesNext(Ring(data, 0, 0), before, PushTail(y));
    PushAtWrapOverwrites(RingRun(Ring(data, 0, 0), before).0, y);
  }

  /** Every run from the empty ring is that of a deque exactly when capacity is 0 or divides 2^32. */
  lemma RefinesDequeIff<T(!new)>(capacity: uint32, x: T, y: T)
    requires x != y
    ensures (forall data: seq<T>, ops: seq<Op<T>> :: |data| == capacity ==> Refines(Ring(data, 0, 0), ops))
            <==> capacity == 0 || Rem(TWO_32, capacity) == 0
  {
    if capacity == 0 || Rem(TWO_32, capacity) == 0 {
      forall data: seq<T>, ops: seq<Op<T>> | |data| == capacity ensures Refines(Ring(data, 0, 0), ops) {
        RoomyRunRefines(Ring(data, 0, 0), ops);
      }
    } else {
      var data := seq(capacity, _ => x);
      var ops := ReachOverwrite(data, x, y);
      assert !Refines(Ring(data, 0, 0), ops);
    }
  }

  // ----------------------------------------------------------- the total counter

  /** as_queue_incr_total and as_queue_decr_total */
  datatype Count = Grant | GiveBack

  /** The counter, what went out and came back, and how often a decrement found zero. */
  datatype Tally = Tally(total: uint32, granted: nat, returned: nat, wraps: nat)

  /** What as_queue_incr_total leaves in the counter, and its answer. */
  function TotalAfterIncr(total: uint32, capacity: uint32): (uint32, bool) {
    if total < capacity then (total + 1, true) else (total, false)
  }

  /** What as_queue_decr_total leaves in the counter. */
  function TotalAfterDecr(total: uint32): uint32 {
    Sub32(total, 1)
  }

  function TallyStep(capacity: uint32, t: Tally, c: Count): Tally {
    match c
    case Grant =>
      var (total, ok) := TotalAfterIncr(t.total, capacity);
      t.(total := total, granted := t.granted + if ok then 1 else 0)
    case GiveBack =>
      t.(total := TotalAfterDecr(t.total), returned := t.returned + 1,
         wraps := t.wraps + if t.total == 0 then 1 else 0)
  }

  /** After the first k calls on a new queue. */
  function TallyAt(capacity: uint32, calls: seq<Count>, k: nat): Tally
    requires k <= |calls|
  {
    if k == 0 then Tally(0, 0, 0, 0) else TallyStep(capacity, TallyAt(capacity, calls, k - 1), calls[k - 1])
  }

  ghost predicate Balanced(capacity: uint32, t: Tally) {
    t.granted - t.returned == t.total - TWO_32 * t.wraps <= capacity
  }

  lemma CountKeepsBalance(capacity: uint32, t: Tally, c: Count)
    requires Balanced(capacity, t)
    ensures Balanced(capacity, TallyStep(capacity, t, c))
  {
  }

  /** Never more than capacity are out, whatever the callers do. */
  lemma {:induction false} GrantsWithinCapacity(capacity: uint32, calls: seq<Count>, k: nat)
    requires k <= |calls|
    ensures Balanced(capacity, TallyAt(capacity, calls, k))
  {
    if k > 0 {
      GrantsWithinCapacity(capacity, calls, k - 1);
      CountKeepsBalance(capacity, TallyAt(capacity, calls, k - 1), calls[k - 1]);
    }
  }

  /**
   In every run of increments and decrements the counter is the number of items in use, and so
   never wraps, exactly when no caller gives back what was not granted.
   */
  lemma TotalIsInUseIff(capacity: uint32, calls: seq<Count>)
    ensures
      (forall k: nat :: k <= |calls| ==>
         var t := TallyAt(capacity, calls, k); t.total == t.granted - t.returned <= capacity)
      <==> (forall k: nat :: k <= |calls| ==>
              var t := TallyAt(capacity, calls, k); t.returned <= t.granted)
  {
    forall k: nat | k <= |calls|
      ensures var t := TallyAt(capacity, calls, k);
              t.total == t.granted - t.returned <= capacity <==> t.returned <= t.granted
    {
      GrantsWithinCapacity(capacity, calls, k);
    }
  }

  /** While nothing was given back too often, a grant is given exactly as long as fewer than capacity are out. */
  lemma GrantedWhileRoom(capacity: uint32, calls: seq<Count>, k: nat)
    requires k < |calls| && calls[k].Grant? && TallyAt(capacity, calls, k).wraps == 0
    ensures
      var t := TallyAt(capacity, calls, k);
      TallyAt(capacity, calls, k + 1).granted == t.granted + if t.granted - t.returned < capacity then 1 else 0
  {
    GrantsWithinCapacity(capacity, calls, k);
  }

  // ------------------------------------------------------------------ the queue

  class Queue<T(0)> {
    var data: array<T>
    var capacity: uint32
    var head: uint32
    var tail: uint32
    var total: uint32

    ghost function Abs(): Ring<T>
      reads this, data
    {
      Ring(data[..], head, tail)
    }

    ghost predicate Valid()
      reads this, data
    {
      data.Length == capacity && Sound(Abs())
    }

    function Size(): uint32
      reads this
    {
      Sub32(tail, head)
    }

    predicate Empty()
      reads this
    {
      tail == head
    }

    ghost function Contents(): (s: seq<T>)
      requires Valid()
      reads this, data
      ensures |s| == Size()
    {
      Items(Abs())
    }

    constructor (capacity: uint32)
      ensures Valid() && fresh(data) && Contents() == []
      ensures this.capacity == capacity && total == 0 && head == tail == 0
    {
      data := new T[capacity];
      this.capacity := capacity;
      head, tail, total := 0, 0, 0;
    }

    /** as_queue_get: the item at a virtual index. */
    function Get(index: uint32): (item: T)
      requires Valid() && 0 < capacity
      reads this, data
      ensures index % capacity < data.Length && item == data[index % capacity]
    {
      RemIsPercent(index, capacity);
      data[Rem(index, capacity)]
    }

    /** The items in order are those at the virtual indices from head on, counted modulo 2^32. */
    lemma ContentsAt(i: nat)
      requires Valid() && i < Size()
      ensures Contents()[i] == Get((head + i) % TWO_32)
    {
      WindowAt(data[..], head, Size(), i);
      AddAndSubtractAreModular(head, i);
      RemIsPercent(Add32(head, i), capacity);
    }

    method Pop() returns (item: Option<T>)
      requires Valid()
      modifies this`head, this`tail
      ensures Valid() && (Abs(), Popped(item)) == RingStep(old(Abs()), PopHead)
      ensures if old(head) == old(tail) then item == None && Contents() == []
              else item == Some(old(Contents())[0]) && Contents() == old(Contents())[1..]
      ensures (head, tail) == if old(Size()) == 0 then (old(head), old(tail))
                              else if old(Size()) == 1 then (0, 0) else (Add32(old(head), 1), old(tail))
      ensures (Contents(), Popped(item)) == DequeStep(old(Contents()), capacity, PopHead)
    {
      if Empty() { return None; }
      item := Some(Get(head));
      head := Add32(head, 1);
      if head == tail {
        head, tail := 0, 0;
      }
    }

    method PopTail() returns (item: Option<T>)
      requires Valid()
      modifies this`head, this`tail
      ensures Valid() && (Abs(), Popped(item)) == RingStep(old(Abs()), Op<T>.PopTail)
      ensures var s := old(Contents());
              if s == [] then item == None && Contents() == []
              else item == Some(s[|s|-1]) && Contents() == s[..|s|-1]
      ensures (head, tail) == if old(Size()) == 0 then (old(head), old(tail))
                              else if old(Size()) == 1 then (0, 0) else (old(head), Sub32(old(tail), 1))
      ensures (Contents(), Popped(item)) == DequeStep(old(Contents()), capacity, Op<T>.PopTail)
    {
      if Empty() { return None; }
      TailPopped(Abs());
      tail := Sub32(tail, 1);
      item := Some(Get(tail));
      if head == tail {
        head, tail := 0, 0;
      }
    }

    /** Assumed body of as_queue_push_limit: write at slot tail % capacity. */
    method PushLimit(x: T) returns (ok: bool)
      requires Valid()
      modifies this`tail, data
      ensures Valid() && data == old(data)
      ensures (Abs(), Pushed(ok)) == RingStep(old(Abs()), PushTail(x))
      ensures ok <==> old(Size()) < capacity
      ensures tail == if ok then Add32(old(tail), 1) else old(tail)
      ensures WrapSafe(head, Size(), capacity) ==> Contents() == old(Contents()) + if ok then [x] else []
      ensures WrapSafe(head, Size(), capacity) ==>
                (Contents(), Pushed(ok)) == DequeStep(old(Contents()), capacity, PushTail(x))
    {
      ghost var before := Abs();
      if Safe(RingStep(before, PushTail(x)).0) { RingStepRefines(before, PushTail(x)); }
      if Size() >= capacity { return false; }
      data[Rem(tail, capacity)] := x;
      tail := Add32(tail, 1);
      ok := true;
    }

    /** Assumed body of as_queue_push_head_limit: write one index before the head. */
    method PushHeadLimit(x: T) returns (ok: bool)
      requires Valid()
      modifies this`head, this`tail, data
      ensures Valid() && data == old(data)
      ensures (Abs(), Pushed(ok)) == RingStep(old(Abs()), PushHead(x))
      ensures ok <==> old(Size()) < capacity
      ensures (head, tail) == if !ok then (old(head), old(tail))
                              else if old(head) > 0 then (old(head) - 1, old(tail))
                              else (capacity - 1, Add32(old(tail), capacity))
      ensures WrapSafe(head, Size(), capacity) ==> Contents() == (if ok then [x] else []) + old(Contents())
      ensures WrapSafe(head, Size(), capacity) ==>
                (Contents(), Pushed(ok)) == DequeStep(old(Contents()), capacity, PushHead(x))
    {
      ghost var before := Abs();
      if Safe(RingStep(before, PushHead(x)).0) { RingStepRefines(before, PushHead(x)); }
      if Size() >= capacity { return false; }
      if head > 0 {
        head := head - 1;
      } else {
        head, tail := capacity - 1, Add32(tail, capacity);
      }
      data[Rem(head, capacity)] := x;
      ok := true;
    }

    /** as_queue_incr_total; TotalIsInUseIff says what the counter means. */
    method IncrTotal() returns (ok: bool)
      modifies this`total
      ensures (total, ok) == TotalAfterIncr(old(total), capacity)
      ensures ok <==> old(total) < capacity
      ensures total == old(total) + if ok then 1 else 0
    {
      if total < capacity {
        total := total + 1;
        return true;
      }
      return false;
    }

    /** as_queue_decr_total */
    method DecrTotal()
      modifies this`total
      ensures total == TotalAfterDecr(old(total)) && total == if old(total) > 0 then old(total) - 1 else TWO_32 - 1
    {
      total := Sub32(total, 1);
    }

    method Apply(op: Op<T>) returns (reply: Reply<T>)
      requires Valid()
      modifies this`head, this`tail, data
      ensures Valid() && data == old(data) && (Abs(), reply) == RingStep(old(Abs()), op)
    {
      match op
      case PushTail(x) => var ok := PushLimit(x); reply := Pushed(ok);
      case PushHead(x) => var ok := PushHeadLimit(x); reply := Pushed(ok);
      case PopHead => var item := Pop(); reply := Popped(item);
      case PopTail => var item := PopTail(); reply := Popped(item);
    }

    /**
     Any run of operations is the run of the ring; and while the windows it goes through are safe
     it gives the replies and the contents that the same run gives on a plain sequence.
     */
    method Replay(ops: seq<Op<T>>) returns (replies: seq<Reply<T>>)
      requires Valid()
      modifies this`head, this`tail, data
      ensures Valid() && data == old(data)
      ensures (Abs(), replies) == RingRun(old(Abs()), ops)
      ensures AlwaysSafe(old(Abs()), ops) ==>
                (Contents(), replies) == DequeRun(old(Contents()), capacity, ops)
    {
      ghost var before := Abs();
      replies := [];
      for i := 0 to |ops|
        invariant Valid() && data == old(data)
        invariant (Abs(), replies) == RingRun(before, ops[..i])
      {
        var reply := Apply(ops[i]);
        replies := replies + [reply];
        assert ops[..i + 1][..i] == ops[..i];
      }
      assert ops[..|ops|] == ops;
      if AlwaysSafe(before, ops) { SafeRunRefines(before, ops); }
    }
  }
}
