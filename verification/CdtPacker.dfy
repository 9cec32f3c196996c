/**
 The packing loop of as_cdt_internal.h: a body run without a buffer only counts bytes; the loop
 then allocates exactly that many and runs the body again to write them.
 */
module CdtPacker {
  import opened Bytes

  function Joined(chunks: seq<seq<byte>>): seq<byte> {
    if chunks == [] then [] else chunks[0] + Joined(chunks[1..])
  }

  /** The output of one chunk after another is in their order. */
  lemma {:induction false} JoinedInOrder(a: seq<seq<byte>>, chunk: seq<byte>, b: seq<seq<byte>>)
    ensures Joined(a + [chunk] + b) == Joined(a) + chunk + Joined(b)
    decreases |a|
  {
    if a == [] {
      assert (a + [chunk] + b)[1..] == b;
    } else {
      assert (a + [chunk] + b)[1..] == a[1..] + [chunk] + b;
      JoinedInOrder(a[1..], chunk, b);
    }
  }

  /** How many allocations fail before one succeeds. */
  function Failures(allocations: seq<bool>): nat
    requires true in allocations
  {
    if allocations[0] then 0
    else
      assert allocations == [allocations[0]] + allocations[1..];
      1 + Failures(allocations[1..])
  }

  lemma {:induction false} FailuresCounts(allocations: seq<bool>, k: nat)
    requires true in allocations && k <= |allocations|
    ensures (forall i :: 0 <= i < k ==> !allocations[i]) <==> k <= Failures(allocations)
    ensures Failures(allocations) < |allocations| && allocations[Failures(allocations)]
    decreases |allocations|
  {
    if !allocations[0] {
      assert allocations == [allocations[0]] + allocations[1..];
      FailuresCounts(allocations[1..], if k > 0 then k - 1 else 0);
    }
  }

  class Packer {
    var buffer: array?<byte>
    var capacity: nat
    var offset: nat

    constructor ()
      ensures buffer == null && capacity == 0 && offset == 0
    {
      buffer, capacity, offset := null, 0, 0;
    }

    /** One pass of a packing body, which emits its output in chunks. */
    method Pack(chunks: seq<seq<byte>>)
      requires buffer != null ==> offset + |Joined(chunks)| <= buffer.Length
      modifies this`offset, if buffer != null then {buffer} else {}
      ensures offset == old(offset) + |Joined(chunks)|
      ensures buffer != null ==> buffer[..] == Splice(old(buffer[..]), old(offset), Joined(chunks))
      decreases |chunks|
    {
      if chunks == [] {
        if buffer != null { SpliceNothing(buffer[..], offset); }
        return;
      }
      if buffer != null {
        ghost var before := buffer[..];
        Copy(buffer, offset, chunks[0]);
        SpliceNext(before, offset, chunks[0], Joined(chunks[1..]));
      }
      offset := offset + |chunks[0]|;
      Pack(chunks[1..]);
    }
  }

  /**
   as_cdt_begin ... as_cdt_end around a body that may see whether there is a buffer.  When both
   passes emit equally many bytes, the body runs once per failed allocation and twice more, and
   the buffer is the output of the last run, filled exactly.
   */
  method PackTwice(body: bool -> seq<seq<byte>>, allocations: seq<bool>) returns (pk: Packer, runs: nat)
    requires |Joined(body(false))| == |Joined(body(true))|
    requires true in allocations
    ensures fresh(pk) && pk.buffer != null && fresh(pk.buffer)
    ensures runs == Failures(allocations) + 2
    ensures pk.offset == pk.capacity == pk.buffer.Length == |Joined(body(true))|
    ensures pk.buffer[..] == Joined(body(true))
  {
    pk := new Packer();
    runs := 0;
    var next := 0;
    while true
      invariant fresh(pk) && pk.offset == 0 && runs == next <= |allocations|
      invariant pk.buffer == null ==> forall i :: 0 <= i < next ==> !allocations[i]
      invariant pk.buffer != null ==> fresh(pk.buffer) && next == Failures(allocations) + 1
      invariant pk.buffer != null ==> pk.capacity == pk.buffer.Length == |Joined(body(true))|
      decreases |allocations| - next, pk.buffer == null
    {
      FailuresCounts(allocations, next);
      pk.Pack(body(pk.buffer != null));
      runs := runs + 1;
      if pk.buffer == null {
        if allocations[next] {
          pk.buffer := new byte[pk.offset];
          if next < Failures(allocations) { FailuresCounts(allocations, next + 1); }
        }
        pk.capacity := pk.offset;
        pk.offset := 0;
        next := next + 1;
        continue;
      }
      break;
    }
  }
}
