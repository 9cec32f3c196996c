/** Byte buffers, big-endian words and C strings. */
module Bytes {
  import opened Words

  type byte = x: int | 0 <= x < 0x100

  const TWO_48 := 0x1_0000_0000_0000

  type uint64 = x: int | 0 <= x < TWO_64

  // ------------------------------------------------------------------- splicing

  /** s with bytes written from position p on. */
  function Splice(s: seq<byte>, p: nat, bytes: seq<byte>): (r: seq<byte>)
    requires p + |bytes| <= |s|
    ensures |r| == |s|
  {
    s[..p] + bytes + s[p + |bytes|..]
  }

  lemma SpliceNothing(s: seq<byte>, p: nat)
    requires p <= |s|
    ensures Splice(s, p, []) == s
  {
  }

  /** Writing on from where the last write stopped. */
  lemma SpliceNext(s: seq<byte>, p: nat, a: seq<byte>, b: seq<byte>)
    requires p + |a| + |b| <= |s|
    ensures Splice(Splice(s, p, a), p + |a|, b) == Splice(s, p, a + b)
  {
  }

  /** Two writes in a row are one. */
  lemma SpliceTwice(before: seq<byte>, between: seq<byte>, after: seq<byte>, p: nat, a: seq<byte>, b: seq<byte>)
    requires p + |a| + |b| <= |before|
    requires between == Splice(before, p, a) && after == Splice(between, p + |a|, b)
    ensures after == Splice(before, p, a + b)
  {
  }

  /** One byte more, as a copying loop writes it. */
  lemma SpliceOne(s: seq<byte>, after: seq<byte>, p: nat, bytes: seq<byte>, i: nat)
    requires i < |bytes| && p + i < |s|
    requires after == Splice(s, p, bytes[..i])[p + i := bytes[i]]
    ensures after == Splice(s, p, bytes[..i + 1])
  {
  }

  /** Writing just before what was written already. */
  lemma SpliceBefore(s: seq<byte>, p: nat, a: seq<byte>, b: seq<byte>)
    requires p + |a| + |b| <= |s|
    ensures Splice(Splice(s, p + |a|, b), p, a) == Splice(s, p, a + b)
  {
  }

  lemma ConcatAssoc(a: seq<byte>, b: seq<byte>, c: seq<byte>)
    ensures a + b + c == a + (b + c)
  {
  }

  /** memcpy into the buffer. */
  method Copy(buf: array<byte>, p: nat, bytes: seq<byte>)
    requires p + |bytes| <= buf.Length
    modifies buf
    ensures buf[..] == Splice(old(buf[..]), p, bytes)
    ensures forall i :: 0 <= i < buf.Length ==>
              buf[i] == if p <= i < p + |bytes| then bytes[i - p] else old(buf[i])
  {
    forall i | 0 <= i < |bytes| {
      buf[p + i] := bytes[i];
    }
  }

  // ------------------------------------------------------------ big-endian words

  /** The bytes of a word in the order cf_swap_to_be32 and cf_swap_to_be64 leave them in memory. */
  function Be16(v: int): (b: seq<byte>)
    requires 0 <= v < 0x1_0000
    ensures |b| == 2
  {
    [v / 0x100, v % 0x100]
  }

  function Be32(v: uint32): (b: seq<byte>)
    ensures |b| == 4
  {
    Be16(v / 0x1_0000) + Be16(v % 0x1_0000)
  }

  function Be64(v: uint64): (b: seq<byte>)
    ensures |b| == 8
  {
    Be32(v / TWO_32) + Be32(v % TWO_32)
  }

  /** Four bytes from position p on as a number, the first one highest. */
  function WordAt(b: seq<byte>, p: nat): int
    requires p + 4 <= |b|
  {
    0x100_0000 * (b[p] as int) + 0x1_0000 * (b[p + 1] as int) + 0x100 * (b[p + 2] as int) + b[p + 3]
  }

  lemma Be32Bytes(v: uint32)
    ensures
      var b := Be32(v);
      && 0x100_0000 * (b[0] as int) + 0x1_0000 * (b[1] as int) + 0x100 * (b[2] as int) + b[3] == v
      && WordAt(b, 0) == v
  {
  }

  lemma Be64Bytes(v: uint64)
    ensures WordAt(Be64(v), 0) == v / TWO_32 && WordAt(Be64(v), 4) == v % TWO_32
  {
    Be32Bytes(v / TWO_32);
    Be32Bytes(v % TWO_32);
  }

  /** The number that big-endian bytes stand for. */
  function FromBe(b: seq<byte>): nat
    decreases |b|
  {
    if b == [] then 0 else 0x100 * FromBe(b[..|b|-1]) + b[|b|-1]
  }

  lemma FromBe16(v: int)
    requires 0 <= v < 0x1_0000
    ensures FromBe(Be16(v)) == v
  {
    var b := Be16(v);
    assert b[..1] == [b[0]] && [b[0]][..0] == [];
    assert FromBe([b[0]]) == b[0];
  }

  function Pow256(n: nat): nat
  {
    if n == 0 then 1 else 0x100 * Pow256(n - 1)
  }

  lemma OneDigitMore(x: nat, y: nat, z: nat, digit: nat)
    ensures 0x100 * (x * y + z) + digit == x * (0x100 * y) + (0x100 * z + digit)
  {
    assert x * (0x100 * y) == 0x100 * (x * y);
  }

  lemma FromBeSnoc(b: seq<byte>, last: byte)
    ensures FromBe(b + [last]) == 0x100 * FromBe(b) + last
  {
    assert (b + [last])[..|b|] == b;
  }

  lemma {:induction false} FromBeConcat(a: seq<byte>, b: seq<byte>)
    ensures FromBe(a + b) == FromBe(a) * Pow256(|b|) + FromBe(b)
    decreases |b|
  {
    if b == [] {
      assert a + b == a;
    } else {
      var (init, last) := (b[..|b|-1], b[|b|-1]);
      assert a + b == (a + init) + [last];
      FromBeSnoc(a + init, last);
      FromBeConcat(a, init);
      OneDigitMore(FromBe(a), Pow256(|init|), FromBe(init), last);
    }
  }

  lemma {:induction false} FromBeBound(b: seq<byte>)
    ensures FromBe(b) < Pow256(|b|)
    decreases |b|
  {
    if b != [] { FromBeBound(b[..|b|-1]); }
  }

  /** A number in big-endian bytes is its upper bytes shifted up over its six lower ones. */
  lemma FromBeSplit6(hi: seq<byte>, lo: seq<byte>)
    requires |lo| == 6
    ensures FromBe(hi + lo) == FromBe(hi) * TWO_48 + FromBe(lo) && FromBe(lo) < TWO_48
  {
    FromBeConcat(hi, lo);
    FromBeBound(lo);
    assert Pow256(3) == 0x100_0000;
    assert Pow256(6) == 0x100 * 0x100 * 0x100 * Pow256(3);
  }

  lemma FromBe32(v: uint32)
    ensures FromBe(Be32(v)) == v
  {
    FromBeConcat(Be16(v / 0x1_0000), Be16(v % 0x1_0000));
    FromBe16(v / 0x1_0000);
    FromBe16(v % 0x1_0000);
    assert Pow256(2) == 0x1_0000;
  }

  lemma FromBeIsWord(b: seq<byte>)
    requires |b| == 4
    ensures FromBe(b) == WordAt(b, 0)
  {
    var (b1, b2, b3) := (b[..1], b[..2], b[..3]);
    assert b3[..2] == b2 && b2[..1] == b1 && b1[..0] == [];
    assert FromBe(b1) == b[0];
    assert FromBe(b2) == 0x100 * FromBe(b1) + b[1];
    assert FromBe(b3) == 0x100 * FromBe(b2) + b[2];
  }

  lemma FromBeIsLong(b: seq<byte>)
    requires |b| == 8
    ensures FromBe(b) == TWO_32 * WordAt(b, 0) + WordAt(b, 4)
  {
    var (hi, lo) := (b[..4], b[4..]);
    assert b == hi + lo;
    FromBeConcat(hi, lo);
    FromBeIsWord(hi);
    FromBeIsWord(lo);
    assert Pow256(2) == 0x1_0000;
    assert Pow256(4) == 0x100 * 0x100 * Pow256(2);
  }

  lemma FromBe64(v: uint64)
    ensures FromBe(Be64(v)) == v
  {
    FromBeConcat(Be32(v / TWO_32), Be32(v % TWO_32));
    FromBe32(v / TWO_32);
    FromBe32(v % TWO_32);
    assert Pow256(4) == 0x100 * 0x100 * Pow256(2);
  }

  // ------------------------------------------------------------------ C strings

  /** The memory a char* points to: some byte of it is the null byte. */
  type CString = s: seq<byte> | 0 in s witness [0]

  function StrLen(s: CString): (n: nat)
    ensures n < |s| && s[n] == 0 && forall i :: 0 <= i < n ==> s[i] != 0
    decreases |s|
  {
    if s[0] == 0 then 0
    else
      assert s == [s[0]] + s[1..];
      1 + StrLen(s[1..])
  }

  function Chars(s: CString): (c: seq<byte>)
    ensures |c| == StrLen(s)
  {
    s[..StrLen(s)]
  }
}
