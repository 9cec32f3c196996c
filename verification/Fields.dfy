/**
 The field and bin-name writers of as_command.h: the layout they produce, the decoder for it and
 the in-place writers themselves.
 */
module Fields {
  import opened Words
  import opened Bytes

  const FIELD_HEADER_SIZE := 5
  const OPERATION_HEADER_SIZE := 8
  const FIELD_DIGEST := 4
  const DIGEST_SIZE := 20
  const OPERATOR_READ := 1
  const BIN_NAME_MAX_LEN := 15

  datatype Field =
    | StringField(id: byte, text: CString)
    | Uint32Field(id: byte, v32: uint32)
    | Uint64Field(id: byte, v64: uint64)
    | BufferField(id: byte, data: seq<byte>)
    | DigestField(digest: seq<byte>)

  /** An as_buffer counts its bytes in a uint32, a digest has 20 bytes. */
  predicate Typed(f: Field) {
    (f.BufferField? ==> |f.data| < TWO_32) && (f.DigestField? ==> |f.digest| == DIGEST_SIZE)
  }

  function FieldId(f: Field): byte {
    if f.DigestField? then FIELD_DIGEST else f.id
  }

  function Payload(f: Field): seq<byte> {
    match f
    case StringField(_, text) => Chars(text)
    case Uint32Field(_, v) => Be32(v)
    case Uint64Field(_, v) => Be64(v)
    case BufferField(_, data) => data
    case DigestField(digest) => digest
  }

  // -------------------------------------------------------------------- layout

  /** The length word counts the id byte, in uint32 arithmetic. */
  function FieldHeader(id: byte, size: uint32): (b: seq<byte>)
    ensures |b| == FIELD_HEADER_SIZE
  {
    Be32(Add32(size, 1)) + [id]
  }

  /** A field as it goes over the wire, whatever the type of its value. */
  datatype RawField = RawField(id: byte, payload: seq<byte>)

  function Raw(f: Field): RawField { RawField(FieldId(f), Payload(f)) }

  function RawBytes(r: RawField): seq<byte> {
    FieldHeader(r.id, Low32(|r.payload|)) + r.payload
  }

  function FieldBytes(f: Field): seq<byte> { RawBytes(Raw(f)) }

  /** as_command_string_field_size and as_command_field_size */
  function FieldSize(f: Field): nat {
    match f
    case StringField(_, text) => StrLen(text) + FIELD_HEADER_SIZE
    case Uint32Field(_, _) => 4 + FIELD_HEADER_SIZE
    case Uint64Field(_, _) => 8 + FIELD_HEADER_SIZE
    case BufferField(_, data) => |data| + FIELD_HEADER_SIZE
    case DigestField(_) => DIGEST_SIZE + FIELD_HEADER_SIZE
  }

  /** What as_command_write_bin_name lays out: length, operation, two zeros, name length, name. */
  function BinHeader(nameLen: byte): (b: seq<byte>)
    ensures |b| == OPERATION_HEADER_SIZE
  {
    Be32(nameLen + 4) + [OPERATOR_READ, 0, 0, nameLen]
  }

  function NameBytes(chars: seq<byte>): seq<byte> {
    BinHeader(|chars| % 0x100) + chars
  }

  function BinBytes(name: CString): seq<byte> { NameBytes(Chars(name)) }

  /** as_command_string_operation_size */
  function StringOperationSize(text: CString): nat { StrLen(text) + OPERATION_HEADER_SIZE }

  /** as_command_bin_name_size: None is the error, otherwise the new value of *size. */
  function BinNameSize(name: CString, size: nat): Option<nat> {
    if StrLen(name) > BIN_NAME_MAX_LEN then None else Some(size + StringOperationSize(name))
  }

  function FieldsBytes(fs: seq<Field>): seq<byte> {
    if fs == [] then [] else FieldBytes(fs[0]) + FieldsBytes(fs[1..])
  }

  function FieldsSize(fs: seq<Field>): nat {
    if fs == [] then 0 else FieldSize(fs[0]) + FieldsSize(fs[1..])
  }

  function BinsBytes(names: seq<CString>): seq<byte> {
    if names == [] then [] else BinBytes(names[0]) + BinsBytes(names[1..])
  }

  // ------------------------------------------------------------------ decoding

  function RawAll(fs: seq<Field>): seq<RawField> {
    if fs == [] then [] else [Raw(fs[0])] + RawAll(fs[1..])
  }

  /** The first field of b and what follows it. */
  function DecodeField(b: seq<byte>): Option<(RawField, seq<byte>)> {
    if |b| < FIELD_HEADER_SIZE then None
    else
      var len := FromBe(b[..4]);
      if len == 0 || 4 + len > |b| then None
      else Some((RawField(b[4], b[5..4 + len]), b[4 + len..]))
  }

  function DecodeFields(b: seq<byte>, n: nat): Option<(seq<RawField>, seq<byte>)> {
    if n == 0 then Some(([], b))
    else
      match DecodeField(b)
      case None => None
      case Some((f, rest)) =>
        match DecodeFields(rest, n - 1)
        case None => None
        case Some((fs, rest')) => Some(([f] + fs, rest'))
  }

  /** The name of the first bin operation of b and what follows it. */
  function DecodeBin(b: seq<byte>): Option<(seq<byte>, seq<byte>)> {
    if |b| < OPERATION_HEADER_SIZE then None
    else
      var len := FromBe(b[..4]);
      if b[4] != OPERATOR_READ || b[5] != 0 || b[6] != 0 || len - 4 != b[7] || 4 + len > |b| then None
      else Some((b[8..4 + len], b[4 + len..]))
  }

  function DecodeBins(b: seq<byte>, n: nat): Option<(seq<seq<byte>>, seq<byte>)> {
    if n == 0 then Some(([], b))
    else
      match DecodeBin(b)
      case None => None
      case Some((name, rest)) =>
        match DecodeBins(rest, n - 1)
        case None => None
        case Some((names, rest')) => Some(([name] + names, rest'))
  }

  function Names(names: seq<CString>): seq<seq<byte>> {
    if names == [] then [] else [Chars(names[0])] + Names(names[1..])
  }

  // --------------------------------------------------------------- round trips

  lemma SizesAgree(f: Field)
    requires Typed(f)
    ensures |FieldBytes(f)| == FieldSize(f)
  {
  }

  lemma FieldHeaderReads(id: byte, size: uint32, rest: seq<byte>)
    ensures
      var b := FieldHeader(id, size) + rest;
      FromBe(b[..4]) == Add32(size, 1) && b[4] == id && b[5..] == rest
  {
    FromBe32(Add32(size, 1));
    assert (FieldHeader(id, size) + rest)[..4] == Be32(Add32(size, 1));
  }

  /** What the decoder makes of a header and what follows it. */
  lemma HeaderDecodes(id: byte, size: uint32, t: seq<byte>)
    ensures
      DecodeField(FieldHeader(id, size) + t)
      == if size == TWO_32 - 1 || size > |t| then None else Some((RawField(id, t[..size]), t[size..]))
  {
    FieldHeaderReads(id, size, t);
    var b := FieldHeader(id, size) + t;
    if size < TWO_32 - 1 && size <= |t| {
      assert b[5..4 + (size + 1)] == b[5..][..size] && b[4 + (size + 1)..] == b[5..][size..];
    }
  }

  lemma RawRoundTripIff(r: RawField, rest: seq<byte>)
    ensures DecodeField(RawBytes(r) + rest) == Some((r, rest)) <==> |r.payload| < TWO_32 - 1
  {
    var size := Low32(|r.payload|);
    ConcatAssoc(FieldHeader(r.id, size), r.payload, rest);
    HeaderDecodes(r.id, size, r.payload + rest);
    if |r.payload| < TWO_32 - 1 {
      Low32Small(|r.payload|);
      assert (r.payload + rest)[..size] == r.payload && (r.payload + rest)[size..] == rest;
    }
  }

  /** A field is recovered, whatever follows it, exactly when its payload is shorter than 2^32 - 1 bytes. */
  lemma FieldRoundTripIff(f: Field, rest: seq<byte>)
    ensures DecodeField(FieldBytes(f) + rest) == Some((Raw(f), rest)) <==> |Payload(f)| < TWO_32 - 1
  {
    RawRoundTripIff(Raw(f), rest);
  }

  /** The typed value comes back from its payload. */
  lemma ValueRoundTrip(f: Field)
    ensures Raw(f) == RawField(if f.DigestField? then 4 else f.id, Payload(f))
    ensures f.StringField? ==> Payload(f) == f.text[..StrLen(f.text)]
    ensures f.BufferField? ==> Payload(f) == f.data
    ensures f.DigestField? ==> Payload(f) == f.digest
    ensures f.Uint32Field? ==> FromBe(Payload(f)) == f.v32
    ensures f.Uint64Field? ==> FromBe(Payload(f)) == f.v64
  {
    if f.Uint32Field? { FromBe32(f.v32); }
    if f.Uint64Field? { FromBe64(f.v64); }
  }

  predicate Short(fs: seq<Field>) {
    forall f :: f in fs ==> |Payload(f)| < TWO_32 - 1
  }

  function RawsBytes(rs: seq<RawField>): seq<byte> {
    if rs == [] then [] else RawBytes(rs[0]) + RawsBytes(rs[1..])
  }

  lemma {:induction false} RawsRoundTrip(rs: seq<RawField>, rest: seq<byte>)
    requires forall r :: r in rs ==> |r.payload| < TWO_32 - 1
    ensures DecodeFields(RawsBytes(rs) + rest, |rs|) == Some((rs, rest))
    decreases |rs|
  {
    if rs == [] {
      assert RawsBytes(rs) + rest == rest;
    } else {
      var others := RawsBytes(rs[1..]);
      assert rs == [rs[0]] + rs[1..];
      ConcatAssoc(RawBytes(rs[0]), others, rest);
      RawRoundTripIff(rs[0], others + rest);
      RawsRoundTrip(rs[1..], rest);
    }
  }

  lemma {:induction false} RawForm(fs: seq<Field>)
    requires Short(fs)
    ensures |RawAll(fs)| == |fs| && FieldsBytes(fs) == RawsBytes(RawAll(fs))
    ensures forall r :: r in RawAll(fs) ==> |r.payload| < TWO_32 - 1
    decreases |fs|
  {
    if fs != [] {
      assert fs[0] in fs && forall f :: f in fs[1..] ==> f in fs;
      RawForm(fs[1..]);
      assert RawAll(fs)[1..] == RawAll(fs[1..]);
    }
  }

  lemma {:induction false} RawAllAt(fs: seq<Field>)
    ensures |RawAll(fs)| == |fs| && forall i :: 0 <= i < |fs| ==> RawAll(fs)[i] == Raw(fs[i])
  {
    if fs != [] { RawAllAt(fs[1..]); }
  }

  /**
   Fields written back to back are recovered as a list, each with the id and payload that
   ValueRoundTrip gives it, a string as its bytes before the null byte; and decoding stops where
   writing did.
   */
  lemma FieldsRoundTrip(fs: seq<Field>, rest: seq<byte>)
    requires Short(fs)
    ensures DecodeFields(FieldsBytes(fs) + rest, |fs|) == Some((RawAll(fs), rest))
    ensures |RawAll(fs)| == |fs|
    ensures forall i :: 0 <= i < |fs| ==>
              && RawAll(fs)[i] == Raw(fs[i])
              && (fs[i].StringField? ==> RawAll(fs)[i].payload == fs[i].text[..StrLen(fs[i].text)])
  {
    RawForm(fs);
    RawsRoundTrip(RawAll(fs), rest);
    RawAllAt(fs);
  }

  lemma BinHeaderReads(nameLen: byte, rest: seq<byte>)
    ensures
      var b := BinHeader(nameLen) + rest;
      && FromBe(b[..4]) == nameLen + 4 && b[4] == OPERATOR_READ && b[5] == b[6] == 0
      && b[7] == nameLen && b[8..] == rest
  {
    FromBe32(nameLen + 4);
    assert (BinHeader(nameLen) + rest)[..4] == Be32(nameLen + 4);
  }

  lemma NameRoundTripIff(chars: seq<byte>, rest: seq<byte>)
    ensures DecodeBin(NameBytes(chars) + rest) == Some((chars, rest)) <==> |chars| < 0x100
  {
    var (n, t) := (|chars| % 0x100, chars + rest);
    var b := BinHeader(n) + t;
    ConcatAssoc(BinHeader(n), chars, rest);
    BinHeaderReads(n, t);
    assert b[8..8 + n] == t[..n] && b[8 + n..] == t[n..];
    if |chars| < 0x100 {
      assert t[..n] == chars && t[n..] == rest;
    }
  }

  /** A bin name is recovered, whatever follows it, exactly when its length fits the name-length byte. */
  lemma BinRoundTripIff(name: CString, rest: seq<byte>)
    ensures DecodeBin(BinBytes(name) + rest) == Some((name[..StrLen(name)], rest)) <==> StrLen(name) < 0x100
  {
    NameRoundTripIff(Chars(name), rest);
  }

  predicate Nameable(names: seq<CString>) {
    forall name :: name in names ==> StrLen(name) <= BIN_NAME_MAX_LEN
  }

  function NamesBytes(all: seq<seq<byte>>): seq<byte> {
    if all == [] then [] else NameBytes(all[0]) + NamesBytes(all[1..])
  }

  lemma {:induction false} NamesRoundTrip(all: seq<seq<byte>>, rest: seq<byte>)
    requires forall chars :: chars in all ==> |chars| < 0x100
    ensures DecodeBins(NamesBytes(all) + rest, |all|) == Some((all, rest))
    decreases |all|
  {
    if all == [] {
      assert NamesBytes(all) + rest == rest;
    } else {
      var others := NamesBytes(all[1..]);
      assert all == [all[0]] + all[1..];
      ConcatAssoc(NameBytes(all[0]), others, rest);
      NameRoundTripIff(all[0], others + rest);
      NamesRoundTrip(all[1..], rest);
    }
  }

  lemma {:induction false} NamesForm(names: seq<CString>)
    requires Nameable(names)
    ensures |Names(names)| == |names| && BinsBytes(names) == NamesBytes(Names(names))
    ensures forall chars :: chars in Names(names) ==> |chars| < 0x100
    decreases |names|
  {
    if names != [] {
      assert names[0] in names && forall n :: n in names[1..] ==> n in names;
      NamesForm(names[1..]);
      assert Names(names)[1..] == Names(names[1..]);
    }
  }

  lemma {:induction false} NamesAt(names: seq<CString>)
    ensures |Names(names)| == |names|
    ensures forall i :: 0 <= i < |names| ==> Names(names)[i] == names[i][..StrLen(names[i])]
  {
    if names != [] { NamesAt(names[1..]); }
  }

  lemma BinsRoundTrip(names: seq<CString>, rest: seq<byte>)
    requires Nameable(names)
    ensures DecodeBins(BinsBytes(names) + rest, |names|) == Some((Names(names), rest))
    ensures |Names(names)| == |names|
    ensures forall i :: 0 <= i < |names| ==> Names(names)[i] == names[i][..StrLen(names[i])]
  {
    NamesAt(names);
    NamesForm(names);
    NamesRoundTrip(Names(names), rest);
  }

  // -------------------------------------------------------------------- writers

  lemma WordPlaced(b: seq<byte>, p: nat, v: uint32)
    requires p + 4 <= |b| && forall i :: 0 <= i < 4 ==> b[p + i] == Be32(v)[i]
    ensures WordAt(b, p) == v
  {
    Be32Bytes(v);
    assert b[p + 0] == Be32(v)[0];
  }

  lemma LongPlaced(b: seq<byte>, p: nat, v: uint64)
    requires p + 8 <= |b| && forall i :: 0 <= i < 8 ==> b[p + i] == Be64(v)[i]
    ensures TWO_32 * WordAt(b, p) + WordAt(b, p + 4) == v
  {
    Be64Bytes(v);
    assert b[p..p + 8] == Be64(v);
    assert WordAt(b, p) == WordAt(Be64(v), 0) && WordAt(b, p + 4) == WordAt(Be64(v), 4);
  }

  /** A field in a buffer, byte by byte: length word, id, payload. */
  lemma HeaderPlaced(before: seq<byte>, after: seq<byte>, p: nat, id: byte, size: uint32, payload: seq<byte>)
    requires p + FIELD_HEADER_SIZE + |payload| <= |before|
    requires after == Splice(before, p, FieldHeader(id, size) + payload)
    ensures WordAt(after, p) == (size + 1) % TWO_32 && after[p + 4] == id
    ensures forall i :: 0 <= i < |payload| ==> after[p + 5 + i] == payload[i]
  {
    var word := Be32(Add32(size, 1));
    Be32Bytes(Add32(size, 1));
    AddAndSubtractAreModular(size, 1);
    assert forall i :: 0 <= i < 4 ==> after[p + i] == word[i];
  }

  lemma StringPlaced(before: seq<byte>, after: seq<byte>, p: nat, id: byte, text: CString)
    requires p + FIELD_HEADER_SIZE + StrLen(text) <= |before|
    requires after == Splice(before, p, FieldBytes(StringField(id, text)))
    ensures WordAt(after, p) == (StrLen(text) + 1) % TWO_32 && after[p + 4] == id
    ensures forall i :: 0 <= i < StrLen(text) ==> after[p + 5 + i] == text[i]
  {
    var (n, chars) := (StrLen(text), Chars(text));
    Low32Next(n);
    HeaderPlaced(before, after, p, id, Low32(n), chars);
    CharsAre(text);
  }

  lemma BufferPlaced(before: seq<byte>, headed: seq<byte>, after: seq<byte>, p: nat, id: byte, data: seq<byte>)
    requires |data| < TWO_32 && p + FIELD_HEADER_SIZE + |data| <= |before|
    requires headed == Splice(before, p, FieldHeader(id, |data|))
    requires after == Splice(headed, p + FIELD_HEADER_SIZE, data)
    ensures after == Splice(before, p, FieldBytes(BufferField(id, data)))
    ensures WordAt(after, p) == (|data| + 1) % TWO_32 && after[p + 4] == id
    ensures forall i :: 0 <= i < |data| ==> after[p + 5 + i] == data[i]
  {
    Low32Small(|data|);
    SpliceTwice(before, headed, after, p, FieldHeader(id, |data|), data);
    HeaderPlaced(before, after, p, id, |data|, data);
  }

  lemma CharsAre(text: CString)
    ensures forall i :: 0 <= i < StrLen(text) ==> Chars(text)[i] == text[i]
  {
  }

  lemma BinHeaderPlaced(before: seq<byte>, after: seq<byte>, p: nat, nameLen: byte, chars: seq<byte>)
    requires p + OPERATION_HEADER_SIZE + |chars| <= |before|
    requires after == Splice(before, p, BinHeader(nameLen) + chars)
    ensures WordAt(after, p) == nameLen + 4
    ensures after[p + 4] == 1 && after[p + 5] == after[p + 6] == 0 && after[p + 7] == nameLen
    ensures forall i :: 0 <= i < |chars| ==> after[p + 8 + i] == chars[i]
  {
    var header := BinHeader(nameLen);
    assert forall i :: 0 <= i < 8 ==> after[p + i] == header[i];
    WordPlaced(after, p, nameLen + 4);
    assert after[p + 4] == header[4];
  }

  /** A bin name in a buffer: length word, operation, two zeros, name length, name. */
  lemma NamePlaced(before: seq<byte>, after: seq<byte>, p: nat, name: CString)
    requires p + OPERATION_HEADER_SIZE + StrLen(name) <= |before|
    requires after == Splice(before, p, BinBytes(name))
    ensures
      var nameLen := StrLen(name) % 0x100;
      && WordAt(after, p) == nameLen + 4
      && after[p + 4] == 1 && after[p + 5] == after[p + 6] == 0 && after[p + 7] == nameLen
    ensures forall i :: 0 <= i < StrLen(name) ==> after[p + 8 + i] == name[i]
  {
    BinHeaderPlaced(before, after, p, StrLen(name) % 0x100, Chars(name));
    CharsAre(name);
  }

  method WriteFieldHeader(buf: array<byte>, p: nat, id: byte, size: uint32) returns (q: nat)
    requires p + FIELD_HEADER_SIZE <= buf.Length
    modifies buf
    ensures q == p + FIELD_HEADER_SIZE
    ensures buf[..] == Splice(old(buf[..]), p, FieldHeader(id, size))
    ensures WordAt(buf[..], p) == (size + 1) % TWO_32 && buf[p + 4] == id
  {
    ghost var before := buf[..];
    Copy(buf, p, Be32(Add32(size, 1)));
    buf[p + 4] := id;
    assert buf[..] == Splice(Splice(before, p, Be32(Add32(size, 1))), p + 4, [id]);
    SpliceNext(before, p, Be32(Add32(size, 1)), [id]);
    HeaderPlaced(before, buf[..], p, id, size, []);
    q := p + 5;
  }

  /** One turn of the copying loop. */
  method CopyByte(buf: array<byte>, p: nat, bytes: seq<byte>, i: nat, ghost before: seq<byte>)
    requires i < |bytes| && p + i < buf.Length == |before| && buf[..] == Splice(before, p, bytes[..i])
    modifies buf
    ensures buf[..] == Splice(before, p, bytes[..i + 1])
  {
    ghost var copied := buf[..];
    buf[p + i] := bytes[i];
    assert buf[..] == copied[p + i := bytes[i]];
    SpliceOne(before, buf[..], p, bytes, i);
  }

  lemma StringCopied(before: seq<byte>, after: seq<byte>, p: nat, text: CString)
    requires p + StrLen(text) <= |before| && after == Splice(before, p, text[..StrLen(text)])
    ensures after == Splice(before, p, Chars(text))
    ensures forall j :: 0 <= j < StrLen(text) ==> after[p + j] == text[j]
  {
  }

  /** The loop that both string writers share: bytes up to, not including, the null byte. */
  method CopyString(buf: array<byte>, p: nat, text: CString) returns (q: nat)
    requires p + StrLen(text) <= buf.Length
    modifies buf
    ensures q == p + StrLen(text)
    ensures buf[..] == Splice(old(buf[..]), p, Chars(text))
    ensures forall i :: 0 <= i < StrLen(text) ==> buf[p + i] == text[i]
  {
    ghost var before, n := buf[..], StrLen(text);
    var i := 0;
    SpliceNothing(before, p);
    assert text[..0] == [];
    while text[i] != 0
      invariant 0 <= i <= n && p + n <= buf.Length == |before|
      invariant buf[..] == Splice(before, p, text[..i])
      decreases n - i
    {
      CopyByte(buf, p, text, i, before);
      i := i + 1;
    }
    assert i == n;
    StringCopied(before, buf[..], p, text);
    q := p + i;
  }

  /** The payload first, then the header in front of it. */
  method WriteString(buf: array<byte>, begin: nat, id: byte, text: CString) returns (q: nat)
    requires begin + FieldSize(StringField(id, text)) <= buf.Length
    modifies buf
    ensures q == begin + FieldSize(StringField(id, text))
    ensures buf[..] == Splice(old(buf[..]), begin, FieldBytes(StringField(id, text)))
    ensures WordAt(buf[..], begin) == (StrLen(text) + 1) % TWO_32 && buf[begin + 4] == id
    ensures forall i :: 0 <= i < StrLen(text) ==> buf[begin + 5 + i] == text[i]
  {
    ghost var before := buf[..];
    q := CopyString(buf, begin + FIELD_HEADER_SIZE, text);
    var size := (q - begin - FIELD_HEADER_SIZE) % TWO_32;
    var _ := WriteFieldHeader(buf, begin, id, size);
    SpliceBefore(before, begin, FieldHeader(id, size), Chars(text));
    StringPlaced(before, buf[..], begin, id, text);
  }

  method WriteUint32(buf: array<byte>, p: nat, id: byte, val: uint32) returns (q: nat)
    requires p + FieldSize(Uint32Field(id, val)) <= buf.Length
    modifies buf
    ensures q == p + FieldSize(Uint32Field(id, val))
    ensures buf[..] == Splice(old(buf[..]), p, FieldBytes(Uint32Field(id, val)))
    ensures WordAt(buf[..], p) == 5 && buf[p + 4] == id && WordAt(buf[..], p + 5) == val
  {
    ghost var before := buf[..];
    assert FieldBytes(Uint32Field(id, val)) == FieldHeader(id, 4) + Be32(val);
    q := WriteFieldHeader(buf, p, id, 4);
    Copy(buf, q, Be32(val));
    SpliceNext(before, p, FieldHeader(id, 4), Be32(val));
    HeaderPlaced(before, buf[..], p, id, 4, Be32(val));
    WordPlaced(buf[..], p + 5, val);
    q := q + 4;
  }

  method WriteUint64(buf: array<byte>, p: nat, id: byte, val: uint64) returns (q: nat)
    requires p + FieldSize(Uint64Field(id, val)) <= buf.Length
    modifies buf
    ensures q == p + FieldSize(Uint64Field(id, val))
    ensures buf[..] == Splice(old(buf[..]), p, FieldBytes(Uint64Field(id, val)))
    ensures WordAt(buf[..], p) == 9 && buf[p + 4] == id
    ensures TWO_32 * WordAt(buf[..], p + 5) + WordAt(buf[..], p + 9) == val
  {
    ghost var before := buf[..];
    assert FieldBytes(Uint64Field(id, val)) == FieldHeader(id, 8) + Be64(val);
    q := WriteFieldHeader(buf, p, id, 8);
    Copy(buf, q, Be64(val));
    SpliceNext(before, p, FieldHeader(id, 8), Be64(val));
    HeaderPlaced(before, buf[..], p, id, 8, Be64(val));
    LongPlaced(buf[..], p + 5, val);
    q := q + 8;
  }

  method WriteBuffer(buf: array<byte>, p: nat, id: byte, data: seq<byte>) returns (q: nat)
    requires |data| < TWO_32 && p + FieldSize(BufferField(id, data)) <= buf.Length
    modifies buf
    ensures q == p + FieldSize(BufferField(id, data))
    ensures buf[..] == Splice(old(buf[..]), p, FieldBytes(BufferField(id, data)))
    ensures WordAt(buf[..], p) == (|data| + 1) % TWO_32 && buf[p + 4] == id
    ensures forall i :: 0 <= i < |data| ==> buf[p + 5 + i] == data[i]
  {
    ghost var before := buf[..];
    q := WriteFieldHeader(buf, p, id, |data|);
    ghost var headed := buf[..];
    Copy(buf, q, data);
    BufferPlaced(before, headed, buf[..], p, id, data);
    q := q + |data|;
  }

  method WriteDigest(buf: array<byte>, p: nat, digest: seq<byte>) returns (q: nat)
    requires |digest| == DIGEST_SIZE && p + FieldSize(DigestField(digest)) <= buf.Length
    modifies buf
    ensures q == p + FieldSize(DigestField(digest))
    ensures buf[..] == Splice(old(buf[..]), p, FieldBytes(DigestField(digest)))
    ensures WordAt(buf[..], p) == 21 && buf[p + 4] == 4
    ensures forall i :: 0 <= i < 20 ==> buf[p + 5 + i] == digest[i]
  {
    ghost var before := buf[..];
    q := WriteFieldHeader(buf, p, FIELD_DIGEST, DIGEST_SIZE);
    Copy(buf, q, digest);
    SpliceNext(before, p, FieldHeader(FIELD_DIGEST, DIGEST_SIZE), digest);
    HeaderPlaced(before, buf[..], p, FIELD_DIGEST, DIGEST_SIZE, digest);
    q := q + DIGEST_SIZE;
  }

  method WriteField(buf: array<byte>, p: nat, f: Field) returns (q: nat)
    requires Typed(f) && p + FieldSize(f) <= buf.Length
    modifies buf
    ensures q == p + FieldSize(f)
    ensures buf[..] == Splice(old(buf[..]), p, FieldBytes(f))
  {
    match f
    case StringField(id, text) => q := WriteString(buf, p, id, text);
    case Uint32Field(id, val) => q := WriteUint32(buf, p, id, val);
    case Uint64Field(id, val) => q := WriteUint64(buf, p, id, val);
    case BufferField(id, data) => q := WriteBuffer(buf, p, id, data);
    case DigestField(digest) => q := WriteDigest(buf, p, digest);
  }

  method WriteBinHeader(buf: array<byte>, p: nat, nameLen: byte)
    requires p + OPERATION_HEADER_SIZE <= buf.Length
    modifies buf
    ensures buf[..] == Splice(old(buf[..]), p, BinHeader(nameLen))
  {
    ghost var before := buf[..];
    Copy(buf, p, Be32(nameLen + 4));
    Copy(buf, p + 4, [OPERATOR_READ, 0, 0, nameLen]);
    SpliceNext(before, p, Be32(nameLen + 4), [OPERATOR_READ, 0, 0, nameLen]);
  }

  /** The name first, then the operation header in front of it; the name length is cut to a byte. */
  method WriteBinName(buf: array<byte>, begin: nat, name: CString) returns (q: nat)
    requires begin + StringOperationSize(name) <= buf.Length
    modifies buf
    ensures q == begin + StringOperationSize(name) == begin + |BinBytes(name)|
    ensures buf[..] == Splice(old(buf[..]), begin, BinBytes(name))
    ensures WordAt(buf[..], begin) == StrLen(name) % 0x100 + 4
    ensures buf[begin + 4] == 1 && buf[begin + 5] == buf[begin + 6] == 0 && buf[begin + 7] == StrLen(name) % 0x100
    ensures forall i :: 0 <= i < StrLen(name) ==> buf[begin + 8 + i] == name[i]
  {
    ghost var before := buf[..];
    q := CopyString(buf, begin + OPERATION_HEADER_SIZE, name);
    var nameLen := (q - begin - OPERATION_HEADER_SIZE) % 0x100;
    WriteBinHeader(buf, begin, nameLen);
    SpliceBefore(before, begin, BinHeader(nameLen), Chars(name));
    NamePlaced(before, buf[..], begin, name);
  }
}
