/** The sizing of command buffers in as_async.h and where as_event_internal.h writes into them. */
module CommandBuffer {
  import opened Words

  const AUTHENTICATION_MAX_SIZE := 158

  /** x & ~(2^bits - 1) */
  function ClearLow(x: nat, bits: nat): nat {
    if bits == 0 then x else 2 * ClearLow(x / 2, bits - 1)
  }

  lemma {:induction false} ClearLowIsMultiple(x: nat, bits: nat) returns (k: nat)
    ensures ClearLow(x, bits) == Pow2(bits) * k
    ensures ClearLow(x, bits) <= x < ClearLow(x, bits) + Pow2(bits)
    decreases bits
  {
    if bits == 0 { return x; }
    k := ClearLowIsMultiple(x / 2, bits - 1);
    assert Pow2(bits) * k == 2 * (Pow2(bits - 1) * k);
  }

  lemma ClearLowBounds(x: nat, bits: nat)
    ensures ClearLow(x, bits) <= x < ClearLow(x, bits) + Pow2(bits)
  {
    var _ := ClearLowIsMultiple(x, bits);
  }

  /** What has to fit: the struct, the write buffer and the largest authentication message. */
  function Needed(structSize: nat, size: nat): nat { structSize + size + AUTHENTICATION_MAX_SIZE }

  /** The four create functions, by the command they allocate. */
  datatype Kind = WriteCommand | RecordCommand | ValueCommand | InfoCommand

  /** Blocks grow in steps of 1024 or 4096 bytes: the number of bits that the mask clears. */
  function StepBits(kind: Kind): nat {
    if kind.WriteCommand? || kind.InfoCommand? then 10 else 12
  }

  lemma StepSizes()
    ensures Pow2(10) == 1024 && Pow2(12) == 4096
  {
    assert Pow2(4) == 16;
    assert Pow2(8) == 16 * Pow2(4);
  }

  /** Reduction of a size_t sum that overflows at most once. */
  function Wrap64(x: nat): nat {
    if x < TWO_64 then x else x - TWO_64
  }

  lemma WrapIsModular(x: nat)
    requires x < 2 * TWO_64
    ensures Wrap64(x) == x % TWO_64
  {
  }

  /** The rounded size, in size_t arithmetic. */
  function AllocSize(structSize: nat, size: nat, bits: nat): nat {
    ClearLow(Wrap64(Needed(structSize, size) + Pow2(bits) - 1), bits)
  }

  /** m * k is the least multiple of m that covers need. */
  ghost predicate LeastMultiple(m: nat, k: nat, need: nat) {
    m * k >= need && forall j: nat :: j < k ==> m * j < need
  }

  lemma RoundedUp(m: nat, k: nat, need: nat)
    requires m * k <= need + m - 1 < m * k + m
    ensures LeastMultiple(m, k, need)
  {
    forall j: nat | j < k ensures m * j < need { ProductGap(j, k, m); }
  }

  /** Without overflow the allocation is the least multiple of 2^bits that covers what is needed. */
  lemma LeastCoveringMultiple(structSize: nat, size: nat, bits: nat) returns (k: nat)
    requires Needed(structSize, size) + Pow2(bits) - 1 < TWO_64
    ensures AllocSize(structSize, size, bits) == Pow2(bits) * k
    ensures LeastMultiple(Pow2(bits), k, Needed(structSize, size))
  {
    var x := Needed(structSize, size) + Pow2(bits) - 1;
    k := ClearLowIsMultiple(x, bits);
    RoundedUp(Pow2(bits), k, Needed(structSize, size));
  }

  /** The allocation covers what is needed exactly when rounding up does not overflow size_t. */
  lemma CoversIff(structSize: nat, size: nat, bits: nat)
    requires Needed(structSize, size) < TWO_64 && Pow2(bits) < TWO_64
    ensures AllocSize(structSize, size, bits) >= Needed(structSize, size)
            <==> Needed(structSize, size) + Pow2(bits) - 1 < TWO_64
  {
    ClearLowBounds(Wrap64(Needed(structSize, size) + Pow2(bits) - 1), bits);
  }

  lemma Stepped(structSize: nat, size: nat, bits: nat, step: nat)
    requires step == Pow2(bits) && Needed(structSize, size) + step - 1 < TWO_64
    ensures
      var s := AllocSize(structSize, size, bits);
      s % step == 0 && s - step < structSize + size + 158 <= s
  {
    var k := ClearLowIsMultiple(Needed(structSize, size) + step - 1, bits);
    RemainderUnique(AllocSize(structSize, size, bits), k, 0, step);
  }

  /** Write and info commands grow in steps of 1 KB, record and value commands in steps of 4 KB. */
  lemma StepOfKind(kind: Kind, structSize: nat, size: nat)
    requires Needed(structSize, size) + Pow2(StepBits(kind)) - 1 < TWO_64
    ensures
      var s := AllocSize(structSize, size, StepBits(kind));
      && s - (if kind.WriteCommand? || kind.InfoCommand? then 1024 else 4096) < structSize + size + 158 <= s
      && if kind.WriteCommand? || kind.InfoCommand? then s % 1024 == 0 else s % 4096 == 0
  {
    StepSizes();
    Stepped(structSize, size, StepBits(kind), if kind.WriteCommand? || kind.InfoCommand? then 1024 else 4096);
  }

  /** What the block has behind struct and write buffer: room for authentication, and less than a step more. */
  lemma RegionSize(kind: Kind, structSize: nat, size: nat)
    requires Needed(structSize, size) + Pow2(StepBits(kind)) - 1 < TWO_64
    ensures
      var region := AllocSize(structSize, size, StepBits(kind)) - structSize - size;
      AUTHENTICATION_MAX_SIZE <= region < AUTHENTICATION_MAX_SIZE + 4096
  {
    StepSizes();
    ClearLowBounds(Needed(structSize, size) + Pow2(StepBits(kind)) - 1, StepBits(kind));
  }

  /** An allocated command: the fields that the create functions and the write setters use. */
  class EventCommand {
    const structSize: nat    // also the offset of the space after the struct
    const size: nat          // of the write buffer
    const blockSize: nat
    var writeLen: nat
    var readCapacity: uint32
    var len: nat
    var pos: nat

    ghost predicate Valid()
      reads this
    {
      && writeLen <= size
      && structSize + size + readCapacity == blockSize
      && readCapacity >= AUTHENTICATION_MAX_SIZE
    }

    constructor (kind: Kind, structSize: nat, size: nat)
      requires Needed(structSize, size) + Pow2(StepBits(kind)) - 1 < TWO_64
      ensures Valid() && writeLen == 0 && this.size == size && this.structSize == structSize
      ensures blockSize == AllocSize(structSize, size, StepBits(kind))
      ensures blockSize - (if kind.WriteCommand? || kind.InfoCommand? then 1024 else 4096)
              < structSize + size + 158 <= blockSize
      ensures if kind.WriteCommand? || kind.InfoCommand? then blockSize % 1024 == 0 else blockSize % 4096 == 0
      ensures readCapacity == blockSize - structSize - size
    {
      RegionSize(kind, structSize, size);
      StepOfKind(kind, structSize, size);
      this.structSize, this.size := structSize, size;
      var s := AllocSize(structSize, size, StepBits(kind));
      blockSize := s;
      readCapacity := (s - size - structSize) % TWO_32;
      writeLen, len, pos := 0, 0, 0;
    }

    /** as_event_set_auth_write: the message goes right after the command and stays in the allocation. */
    method SetAuthWrite(authLen: nat) returns (begin: nat, end: nat)
      requires Valid() && authLen <= AUTHENTICATION_MAX_SIZE
      modifies this`len, this`pos
      ensures Valid() && begin == structSize + writeLen && end == begin + authLen <= blockSize
      ensures structSize + len == end && structSize + pos == begin
    {
      begin := structSize + writeLen;
      end := begin + authLen;
      len := writeLen + authLen;
      pos := writeLen;
    }
  }
}
