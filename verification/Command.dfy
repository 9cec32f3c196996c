/**
 Whole commands: the proto header that as_command_write_end puts in front, its compressed form,
 and a command of fields and bin names from its predicted size to its decoding.
 */
module Command {
  import opened Words
  import opened Bytes
  import opened Fields

  const PROTO_VERSION: byte := 2
  const MESSAGE_TYPE: byte := 3
  const COMPRESSED_MESSAGE_TYPE: byte := 4
  const PROTO_SIZE_MAX := 128 * 1024 * 1024
  const HEADER_SIZE := 30
  const N_FIELDS := 26  // where as_msg keeps its counts, behind the as_proto
  const N_OPS := 28

  // --------------------------------------------------------------- proto header

  lemma PowersOfTwo()
    ensures Pow2(16) == 0x1_0000
  {
    assert Pow2(4) == 0x10;
    assert Pow2(8) == 0x10 * Pow2(4);
    assert Pow2(12) == 0x10 * Pow2(8);
    assert Pow2(16) == 0x10 * Pow2(12);
  }

  /** Bitwise or of the low bits of two words. */
  function Or(a: nat, b: nat, bits: nat): (r: nat)
    ensures r < Pow2(bits)
  {
    if bits == 0 then 0
    else 2 * Or(a / 2, b / 2, bits - 1) + if a % 2 == 1 || b % 2 == 1 then 1 else 0
  }

  /** A digit of a bitwise or is set exactly when one of the two digits is. */
  lemma {:induction false} OrDigits(a: nat, b: nat, bits: nat, k: nat)
    requires k < bits
    ensures Digit(Or(a, b, bits), k) == 1 <==> Digit(a, k) == 1 || Digit(b, k) == 1
    decreases bits
  {
    if k > 0 { OrDigits(a / 2, b / 2, bits - 1, k - 1); }
  }

  lemma {:induction false} OrZero(b: nat, bits: nat)
    requires b < Pow2(bits)
    ensures Or(0, b, bits) == b
  {
    if bits > 0 { OrZero(b / 2, bits - 1); }
  }

  /** len - 8 in uint64 arithmetic. */
  function SizeWord(len: uint64): uint64 {
    if len >= 8 then len - 8 else len - 8 + TWO_64
  }

  /** (len - 8) | version << 56 | type << 48: the two constants only reach the top 16 bits. */
  function Proto(len: uint64, kind: byte): uint64 {
    var top := Or(SizeWord(len) / TWO_48, PROTO_VERSION as int * 0x100 + kind, 16);
    PowersOfTwo();
    top * TWO_48 + SizeWord(len) % TWO_48
  }

  /** as_proto: version, type and a 48-bit size. */
  datatype ProtoHeader = ProtoHeader(version: byte, kind: byte, size: int)

  function DecodeProto(b: seq<byte>): ProtoHeader
    requires |b| >= 8
  {
    ProtoHeader(b[0], b[1], FromBe(b[2..8]))
  }

  lemma FromBeTwo(b: seq<byte>)
    requires |b| == 2
    ensures FromBe(b) == 0x100 * (b[0] as int) + b[1]
  {
    assert b[..1] == [b[0]] && [b[0]][..0] == [];
    assert FromBe([b[0]]) == b[0];
  }

  /** The two top bytes and the six low bytes of a big-endian word. */
  lemma DecodeWord(v: uint64, rest: seq<byte>)
    ensures DecodeProto(Be64(v) + rest) == ProtoHeader(v / TWO_48 / 0x100, v / TWO_48 % 0x100, v % TWO_48)
  {
    var b := Be64(v);
    var (hi, lo) := (b[..2], b[2..]);
    assert b == hi + lo && (b + rest)[2..8] == lo;
    FromBe64(v);
    FromBeSplit6(hi, lo);
    FromBeTwo(hi);
    Parts(v, FromBe(hi), FromBe(lo), b[0], b[1]);
  }

  lemma SplitAt48(v: nat, h: nat, l: nat)
    requires v == h * TWO_48 + l && l < TWO_48
    ensures v / TWO_48 == h && v % TWO_48 == l
  {
  }

  lemma Parts(v: nat, h: nat, l: nat, b0: nat, b1: nat)
    requires v == h * TWO_48 + l && l < TWO_48 && h == 0x100 * b0 + b1 && b1 < 0x100
    ensures v % TWO_48 == l && v / TWO_48 / 0x100 == b0 && v / TWO_48 % 0x100 == b1
  {
    SplitAt48(v, h, l);
  }

  lemma ProtoParts(len: uint64, kind: byte)
    ensures SizeWord(len) == (len - 8) % TWO_64
    ensures Proto(len, kind) % TWO_48 == SizeWord(len) % TWO_48
    ensures Proto(len, kind) / TWO_48 == Or(SizeWord(len) / TWO_48, 0x200 + kind, 16)
    ensures 8 <= len < TWO_48 + 8 ==> Proto(len, kind) / TWO_48 == PROTO_VERSION as int * 0x100 + kind
  {
    var tag := PROTO_VERSION as int * 0x100 + kind;
    PowersOfTwo();
    SplitAt48(Proto(len, kind), Or(SizeWord(len) / TWO_48, tag, 16), SizeWord(len) % TWO_48);
    if 8 <= len < TWO_48 + 8 {
      SplitAt48(SizeWord(len), 0, SizeWord(len));
      OrZero(tag, 16);
    }
  }

  /** The header says version, type and len - 8 exactly when len - 8 is a 48-bit number. */
  lemma HeaderRoundTripIff(len: uint64, kind: byte, rest: seq<byte>)
    ensures DecodeProto(Be64(Proto(len, kind)) + rest) == ProtoHeader(PROTO_VERSION, kind, len - 8)
            <==> 8 <= len < TWO_48 + 8
  {
    var v := Proto(len, kind);
    ProtoParts(len, kind);
    DecodeWord(v, rest);
  }

  lemma LongBytesPlaced(before: seq<byte>, after: seq<byte>, p: nat, v: uint64)
    requires p + 8 <= |before| && after == Splice(before, p, Be64(v))
    ensures WordAt(after, p) == v / TWO_32 && WordAt(after, p + 4) == v % TWO_32
  {
    Be64Bytes(v);
    assert after[p..p + 8] == Be64(v);
    assert WordAt(after, p) == WordAt(after[p..p + 8], 0) && WordAt(after, p + 4) == WordAt(after[p..p + 8], 4);
  }

  /** A header of 48-bit length: version 2, the type, and the length less the header itself. */
  lemma ProtoInWords(len: uint64, kind: byte)
    requires 8 <= len < TWO_48 + 8
    ensures Proto(len, kind) / TWO_32 == 0x200_0000 + 0x1_0000 * kind + (len - 8) / TWO_32
    ensures Proto(len, kind) % TWO_32 == (len - 8) % TWO_32
  {
    ProtoParts(len, kind);
  }

  method WriteEnd(buf: array<byte>, begin: nat, end: nat, kind: byte) returns (len: nat)
    requires begin <= end && begin + 8 <= buf.Length && end - begin < TWO_64
    modifies buf
    ensures len == end - begin
    ensures buf[..] == Splice(old(buf[..]), begin, Be64(Proto(len, kind)))
    ensures 8 <= len < TWO_48 + 8 ==>
              && WordAt(buf[..], begin) == 0x200_0000 + 0x1_0000 * kind + (len - 8) / TWO_32
              && WordAt(buf[..], begin + 4) == (len - 8) % TWO_32
  {
    len := end - begin;
    ghost var before := buf[..];
    Copy(buf, begin, Be64(Proto(len, kind)));
    LongBytesPlaced(before, buf[..], begin, Proto(len, kind));
    if 8 <= len < TWO_48 + 8 { ProtoInWords(len, kind); }
  }

  // ---------------------------------------------------------- compressed header

  /** as_command_compress_write_end: the proto header, then the size before compression. */
  method CompressWriteEnd(buf: array<byte>, begin: nat, end: nat, uncompressed: uint64) returns (len: nat)
    requires begin <= end && begin + 16 <= buf.Length && end - begin < TWO_64
    modifies buf
    ensures len == end - begin
    ensures buf[..] == Splice(old(buf[..]), begin, Be64(Proto(len, COMPRESSED_MESSAGE_TYPE)) + Be64(uncompressed))
    ensures 8 <= len < TWO_48 + 8 ==>
              && WordAt(buf[..], begin) == 0x204_0000 + (len - 8) / TWO_32
              && WordAt(buf[..], begin + 4) == (len - 8) % TWO_32
    ensures WordAt(buf[..], begin + 8) == uncompressed / TWO_32
    ensures WordAt(buf[..], begin + 12) == uncompressed % TWO_32
  {
    ghost var before := buf[..];
    len := WriteEnd(buf, begin, end, COMPRESSED_MESSAGE_TYPE);
    ghost var headed := buf[..];
    Copy(buf, begin + 8, Be64(uncompressed));
    LongBytesPlaced(headed, buf[..], begin + 8, uncompressed);
    SpliceNext(before, begin, Be64(Proto(len, COMPRESSED_MESSAGE_TYPE)), Be64(uncompressed));
  }

  /** as_compressed_size_parse: the size is stored in any case, and refused above the maximum. */
  method CompressedSizeParse(buf: array<byte>, p: nat) returns (size: nat, ok: bool)
    requires p + 8 <= buf.Length
    ensures size == FromBe(buf[p..p + 8]) == TWO_32 * WordAt(buf[..], p) + WordAt(buf[..], p + 4)
    ensures ok <==> size <= 0x800_0000
  {
    size := 0;
    for i := 0 to 8
      invariant size == FromBe(buf[p..p + i])
    {
      size := 0x100 * size + buf[p + i];
      assert buf[p..p + i + 1][..i] == buf[p..p + i];
    }
    FromBeIsLong(buf[p..p + 8]);
    assert WordAt(buf[p..p + 8], 0) == WordAt(buf[..], p) && WordAt(buf[p..p + 8], 4) == WordAt(buf[..], p + 4);
    ok := size <= PROTO_SIZE_MAX;
  }

  /** What the reader of a compressed message gets back from what its writer put down. */
  method CompressedRoundTrip(buf: array<byte>, begin: nat, end: nat, uncompressed: uint64)
    returns (size: nat, ok: bool)
    requires begin + 16 <= end <= buf.Length && end - begin < TWO_48 + 8
    modifies buf
    ensures DecodeProto(buf[begin..]) == ProtoHeader(PROTO_VERSION, COMPRESSED_MESSAGE_TYPE, end - begin - 8)
    ensures size == uncompressed && (ok <==> uncompressed <= PROTO_SIZE_MAX)
    ensures buf[..begin] == old(buf[..begin]) && buf[begin + 16..] == old(buf[begin + 16..])
  {
    var len := CompressWriteEnd(buf, begin, end, uncompressed);
    size, ok := CompressedSizeParse(buf, begin + 8);
    assert buf[begin + 8..begin + 16] == Be64(uncompressed);
    FromBe64(uncompressed);
    HeaderRoundTripIff(len, COMPRESSED_MESSAGE_TYPE, buf[begin + 8..]);
    assert buf[begin..] == Be64(Proto(len, COMPRESSED_MESSAGE_TYPE)) + buf[begin + 8..];
  }

  // -------------------------------------------------------------- whole commands

  /** The running size of the bin names, or the error of the first one that is too long. */
  function NamesSize(names: seq<CString>, size: nat): Option<nat>
    decreases |names|
  {
    if names == [] then Some(size)
    else
      match BinNameSize(names[0], size)
      case None => None
      case Some(s) => NamesSize(names[1..], s)
  }

  function CommandSize(fs: seq<Field>, names: seq<CString>): Option<nat> {
    NamesSize(names, HEADER_SIZE + FieldsSize(fs))
  }

  lemma {:induction false} NamesSizePredicts(names: seq<CString>, size: nat)
    ensures NamesSize(names, size).Some? <==> Nameable(names)
    ensures Nameable(names) ==> NamesSize(names, size) == Some(size + |BinsBytes(names)|)
    decreases |names|
  {
    if names != [] {
      assert names == [names[0]] + names[1..];
      match BinNameSize(names[0], size)
      case None =>
      case Some(s) => NamesSizePredicts(names[1..], s);
    }
  }

  predicate AllTyped(fs: seq<Field>) { forall f :: f in fs ==> Typed(f) }

  lemma {:induction false} FieldsSizePredicts(fs: seq<Field>)
    requires AllTyped(fs)
    ensures |FieldsBytes(fs)| == FieldsSize(fs)
    decreases |fs|
  {
    if fs != [] {
      assert fs[0] in fs && forall f :: f in fs[1..] ==> f in fs;
      FieldsSizePredicts(fs[1..]);
    }
  }

  /** The predicted size is the size written, and an error exactly when a bin name is too long. */
  lemma SizePredictsWriters(fs: seq<Field>, names: seq<CString>)
    requires AllTyped(fs)
    ensures CommandSize(fs, names).Some? <==> forall name :: name in names ==> StrLen(name) <= 15
    ensures CommandSize(fs, names).Some? ==>
              && Nameable(names)
              && CommandSize(fs, names) == Some(30 + |FieldsBytes(fs)| + |BinsBytes(names)|)
  {
    FieldsSizePredicts(fs);
    NamesSizePredicts(names, HEADER_SIZE + FieldsSize(fs));
  }

  function ParseBody(b: seq<byte>, nf: nat, nb: nat): Option<(seq<RawField>, seq<seq<byte>>)> {
    match DecodeFields(b, nf)
    case None => None
    case Some((fs, ops)) =>
      match DecodeBins(ops, nb)
      case None => None
      case Some((names, left)) => if left == [] then Some((fs, names)) else None
  }

  /**
   Reads a command off the front of b: the proto header says how long it is, and the message
   header how many fields and operations it has.  None if anything is amiss.
   */
  function ParseCommand(b: seq<byte>): Option<(seq<RawField>, seq<seq<byte>>, seq<byte>)> {
    if |b| < HEADER_SIZE then None
    else
      var h := DecodeProto(b);
      if h.version != PROTO_VERSION || h.kind != MESSAGE_TYPE || 8 + h.size < HEADER_SIZE || 8 + h.size > |b| then None
      else
        match ParseBody(b[HEADER_SIZE..8 + h.size], FromBe(b[N_FIELDS..N_OPS]), FromBe(b[N_OPS..HEADER_SIZE]))
        case None => None
        case Some((fs, names)) => Some((fs, names, b[8 + h.size..]))
  }

  lemma BodyRoundTrip(fs: seq<Field>, names: seq<CString>)
    requires Short(fs) && Nameable(names)
    ensures ParseBody(Body(fs, names), |fs|, |names|) == Some((RawAll(fs), Names(names)))
  {
    FieldsRoundTrip(fs, BinsBytes(names));
    BinsRoundTrip(names, []);
    assert BinsBytes(names) + [] == BinsBytes(names);
  }

  /** The uint16 parameters n_fields and n_bins of the message header writers. */
  predicate Countable(fs: seq<Field>, names: seq<CString>) {
    |fs| < 0x1_0000 && |names| < 0x1_0000
  }

  /** as_msg: attributes, generation and times, then the two counts. */
  function MessageHeader(attrs: seq<byte>, fs: seq<Field>, names: seq<CString>): (b: seq<byte>)
    requires |attrs| == N_FIELDS - 8 && Countable(fs, names)
    ensures |b| == HEADER_SIZE - 8
  {
    attrs + Be16(|fs|) + Be16(|names|)
  }

  function Body(fs: seq<Field>, names: seq<CString>): seq<byte> {
    FieldsBytes(fs) + BinsBytes(names)
  }

  /** A whole command as the writers lay it out. */
  function CommandBytes(attrs: seq<byte>, fs: seq<Field>, names: seq<CString>): (b: seq<byte>)
    requires |attrs| == N_FIELDS - 8 && Countable(fs, names) && HEADER_SIZE + |Body(fs, names)| < TWO_64
    ensures |b| == HEADER_SIZE + |Body(fs, names)|
  {
    Be64(Proto(HEADER_SIZE + |Body(fs, names)|, MESSAGE_TYPE)) + (MessageHeader(attrs, fs, names) + Body(fs, names))
  }

  lemma CountsRead(attrs: seq<byte>, fs: seq<Field>, names: seq<CString>, proto: seq<byte>, rest: seq<byte>)
    requires |attrs| == N_FIELDS - 8 && Countable(fs, names) && |proto| == 8
    ensures
      var b := proto + MessageHeader(attrs, fs, names) + rest;
      FromBe(b[N_FIELDS..N_OPS]) == |fs| && FromBe(b[N_OPS..HEADER_SIZE]) == |names|
  {
    var b := proto + MessageHeader(attrs, fs, names) + rest;
    assert b[N_FIELDS..N_OPS] == Be16(|fs|) && b[N_OPS..HEADER_SIZE] == Be16(|names|);
    FromBe16(|fs|);
    FromBe16(|names|);
  }

  /** The parser's tests, one by one. */
  lemma Parses(b: seq<byte>, len: nat, fs: seq<RawField>, names: seq<seq<byte>>)
    requires HEADER_SIZE <= len <= |b| && DecodeProto(b) == ProtoHeader(PROTO_VERSION, MESSAGE_TYPE, len - 8)
    requires ParseBody(b[HEADER_SIZE..len], FromBe(b[N_FIELDS..N_OPS]), FromBe(b[N_OPS..HEADER_SIZE]))
          == Some((fs, names))
    ensures ParseCommand(b) == Some((fs, names, b[len..]))
  {
  }

  lemma Slices(proto: seq<byte>, header: seq<byte>, body: seq<byte>, rest: seq<byte>)
    requires |proto| == 8 && |header| == HEADER_SIZE - 8
    ensures
      var (b, len) := (proto + (header + body) + rest, HEADER_SIZE + |body|);
      && b == proto + (header + body + rest) && b == proto + header + (body + rest)
      && b[HEADER_SIZE..len] == body && b[len..] == rest
  {
  }

  /** A command laid out as the writers do is read back whole, and reading stops where it ends. */
  lemma CommandRoundTrip(attrs: seq<byte>, fs: seq<Field>, names: seq<CString>, rest: seq<byte>)
    requires |attrs| == N_FIELDS - 8 && Countable(fs, names) && Short(fs) && Nameable(names)
    requires HEADER_SIZE + |Body(fs, names)| < TWO_48 + 8
    ensures ParseCommand(CommandBytes(attrs, fs, names) + rest) == Some((RawAll(fs), Names(names), rest))
  {
    var (body, header) := (Body(fs, names), MessageHeader(attrs, fs, names));
    var len := HEADER_SIZE + |body|;
    var proto := Be64(Proto(len, MESSAGE_TYPE));
    Slices(proto, header, body, rest);
    HeaderRoundTripIff(len, MESSAGE_TYPE, header + body + rest);
    CountsRead(attrs, fs, names, proto, body + rest);
    BodyRoundTrip(fs, names);
    Parses(CommandBytes(attrs, fs, names) + rest, len, RawAll(fs), Names(names));
  }

  method WriteFields(buf: array<byte>, p: nat, fs: seq<Field>) returns (q: nat)
    requires AllTyped(fs) && p + |FieldsBytes(fs)| <= buf.Length
    modifies buf
    ensures q == p + |FieldsBytes(fs)|
    ensures buf[..] == Splice(old(buf[..]), p, FieldsBytes(fs))
    decreases |fs|
  {
    if fs == [] { return p; }
    ghost var before := buf[..];
    assert fs[0] in fs && forall f :: f in fs[1..] ==> f in fs;
    SizesAgree(fs[0]);
    q := WriteField(buf, p, fs[0]);
    ghost var between := buf[..];
    q := WriteFields(buf, q, fs[1..]);
    SpliceTwice(before, between, buf[..], p, FieldBytes(fs[0]), FieldsBytes(fs[1..]));
  }

  method WriteBinNames(buf: array<byte>, p: nat, names: seq<CString>) returns (q: nat)
    requires p + |BinsBytes(names)| <= buf.Length
    modifies buf
    ensures q == p + |BinsBytes(names)|
    ensures buf[..] == Splice(old(buf[..]), p, BinsBytes(names))
    decreases |names|
  {
    if names == [] { return p; }
    ghost var before := buf[..];
    q := WriteBinName(buf, p, names[0]);
    ghost var between := buf[..];
    q := WriteBinNames(buf, q, names[1..]);
    SpliceTwice(before, between, buf[..], p, BinBytes(names[0]), BinsBytes(names[1..]));
  }

  method WriteBody(buf: array<byte>, p: nat, fs: seq<Field>, names: seq<CString>) returns (q: nat)
    requires AllTyped(fs) && p + |Body(fs, names)| <= buf.Length
    modifies buf
    ensures q == p + |Body(fs, names)|
    ensures buf[..] == Splice(old(buf[..]), p, Body(fs, names))
  {
    ghost var before := buf[..];
    q := WriteFields(buf, p, fs);
    ghost var between := buf[..];
    q := WriteBinNames(buf, q, names);
    SpliceTwice(before, between, buf[..], p, FieldsBytes(fs), BinsBytes(names));
  }

  lemma CountsPlaced(before: seq<byte>, after: seq<byte>, begin: nat, attrs: seq<byte>,
                     fs: seq<Field>, names: seq<CString>)
    requires |attrs| == N_FIELDS - 8 && Countable(fs, names) && begin + HEADER_SIZE <= |before|
    requires after == Splice(before, begin + 8, MessageHeader(attrs, fs, names))
    ensures 0x100 * (after[begin + 26] as int) + after[begin + 27] == |fs|
    ensures 0x100 * (after[begin + 28] as int) + after[begin + 29] == |names|
  {
    assert after[begin + 26..begin + 28] == Be16(|fs|);
    assert after[begin + 28..begin + 30] == Be16(|names|);
    assert after[begin + 26] == after[begin + 26..begin + 28][0] && after[begin + 27] == after[begin + 26..begin + 28][1];
    assert after[begin + 28] == after[begin + 28..begin + 30][0] && after[begin + 29] == after[begin + 28..begin + 30][1];
  }

  /** Assumed body of the message header writers: as_msg behind the room for the as_proto. */
  method WriteMessageHeader(buf: array<byte>, begin: nat, attrs: seq<byte>, fs: seq<Field>, names: seq<CString>)
    returns (p: nat)
    requires |attrs| == N_FIELDS - 8 && Countable(fs, names) && begin + HEADER_SIZE <= buf.Length
    modifies buf
    ensures p == begin + HEADER_SIZE
    ensures buf[..] == Splice(old(buf[..]), begin + 8, MessageHeader(attrs, fs, names))
    ensures 0x100 * (buf[begin + 26] as int) + buf[begin + 27] == |fs|
    ensures 0x100 * (buf[begin + 28] as int) + buf[begin + 29] == |names|
  {
    ghost var before := buf[..];
    Copy(buf, begin + 8, attrs + Be16(|fs|) + Be16(|names|));
    CountsPlaced(before, buf[..], begin, attrs, fs, names);
    p := begin + HEADER_SIZE;
  }

  method WriteMessage(buf: array<byte>, begin: nat, attrs: seq<byte>, fs: seq<Field>, names: seq<CString>)
    returns (end: nat)
    requires |attrs| == N_FIELDS - 8 && Countable(fs, names) && AllTyped(fs)
    requires begin + HEADER_SIZE + |Body(fs, names)| <= buf.Length
    modifies buf
    ensures end == begin + HEADER_SIZE + |Body(fs, names)|
    ensures buf[..] == Splice(old(buf[..]), begin + 8, MessageHeader(attrs, fs, names) + Body(fs, names))
  {
    ghost var before := buf[..];
    var p := WriteMessageHeader(buf, begin, attrs, fs, names);
    ghost var between := buf[..];
    end := WriteBody(buf, p, fs, names);
    SpliceTwice(before, between, buf[..], begin + 8, MessageHeader(attrs, fs, names), Body(fs, names));
  }

  /** The message first, and then the proto header in front of it. */
  method LayOut(buf: array<byte>, begin: nat, attrs: seq<byte>, fs: seq<Field>, names: seq<CString>)
    returns (len: nat)
    requires |attrs| == N_FIELDS - 8 && Countable(fs, names) && AllTyped(fs)
    requires begin + HEADER_SIZE + |Body(fs, names)| <= buf.Length && HEADER_SIZE + |Body(fs, names)| < TWO_64
    modifies buf
    ensures len == HEADER_SIZE + |Body(fs, names)|
    ensures buf[..] == Splice(old(buf[..]), begin, CommandBytes(attrs, fs, names))
  {
    ghost var before := buf[..];
    var end := WriteMessage(buf, begin, attrs, fs, names);
    len := WriteEnd(buf, begin, end, MESSAGE_TYPE);
    SpliceBefore(before, begin, Be64(Proto(len, MESSAGE_TYPE)), MessageHeader(attrs, fs, names) + Body(fs, names));
  }

  /** A buffer with a command at begin: nothing else is touched, and the command is read back. */
  lemma ReadBack(before: seq<byte>, after: seq<byte>, begin: nat, len: nat, attrs: seq<byte>,
                 fs: seq<Field>, names: seq<CString>)
    requires |attrs| == N_FIELDS - 8 && Countable(fs, names) && Nameable(names)
    requires len == HEADER_SIZE + |Body(fs, names)| < TWO_64 && begin + len <= |before|
    requires after == Splice(before, begin, CommandBytes(attrs, fs, names))
    ensures after[..begin] == before[..begin] && after[begin + len..] == before[begin + len..]
    ensures len < TWO_48 + 8 ==> WordAt(after, begin) == 0x203_0000 + (len - 8) / TWO_32
    ensures Short(fs) && len < TWO_48 + 8 ==>
              ParseCommand(after[begin..]) == Some((RawAll(fs), Names(names), before[begin + len..]))
  {
    Spliced(before, after, begin, CommandBytes(attrs, fs, names));
    if len < TWO_48 + 8 {
      HeaderInFront(after, begin, Proto(len, MESSAGE_TYPE), MessageHeader(attrs, fs, names) + Body(fs, names),
                    before[begin + len..]);
      ProtoInWords(len, MESSAGE_TYPE);
    }
    if Short(fs) && len < TWO_48 + 8 {
      CommandRoundTrip(attrs, fs, names, before[begin + len..]);
    }
  }

  lemma HeaderInFront(after: seq<byte>, begin: nat, proto: uint64, message: seq<byte>, rest: seq<byte>)
    requires begin <= |after| && after[begin..] == Be64(proto) + message + rest
    ensures WordAt(after, begin) == proto / TWO_32
  {
    Be64Bytes(proto);
    assert forall i :: 0 <= i < 8 ==> after[begin..][i] == Be64(proto)[i];
    assert WordAt(after, begin) == WordAt(after[begin..], 0) == WordAt(Be64(proto), 0);
  }

  lemma Spliced(before: seq<byte>, after: seq<byte>, p: nat, bytes: seq<byte>)
    requires p + |bytes| <= |before| && after == Splice(before, p, bytes)
    ensures after[..p] == before[..p] && after[p + |bytes|..] == before[p + |bytes|..]
    ensures after[p..] == bytes + before[p + |bytes|..]
  {
  }

  /**
   A command written at begin into a buffer of the predicted size: the writers fill exactly that
   size, touch nothing outside it, and a reader gets back the fields, the names and the rest.
   */
  method WriteCommand(buf: array<byte>, begin: nat, attrs: seq<byte>, fs: seq<Field>, names: seq<CString>)
    returns (len: nat)
    requires |attrs| == N_FIELDS - 8 && Countable(fs, names) && AllTyped(fs) && CommandSize(fs, names).Some?
    requires begin + CommandSize(fs, names).value <= buf.Length && CommandSize(fs, names).value < TWO_64
    modifies buf
    ensures Some(len) == CommandSize(fs, names)
    ensures buf[..begin] == old(buf[..begin]) && buf[begin + len..] == old(buf[begin + len..])
    ensures len < TWO_48 + 8 ==> begin + 8 <= buf.Length && WordAt(buf[..], begin) == 0x203_0000 + (len - 8) / TWO_32
    ensures Short(fs) && len < TWO_48 + 8 ==>
              ParseCommand(buf[begin..]) == Some((RawAll(fs), Names(names), old(buf[begin + len..])))
  {
    ghost var before := buf[..];
    SizePredictsWriters(fs, names);
    len := LayOut(buf, begin, attrs, fs, names);
    ReadBack(before, buf[..], begin, len, attrs, fs, names);
    SlicesOf(buf, begin, begin + len);
  }

  lemma SlicesOf(buf: array<byte>, p: nat, q: nat)
    requires p <= q <= buf.Length
    ensures buf[..][..p] == buf[..p] && buf[..][p..] == buf[p..] && buf[..][q..] == buf[q..]
  {
  }
}
