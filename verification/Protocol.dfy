/** The payloads of the network protocol: packed little-endian records. */
module Protocol {
  import opened Bytes
  import opened DataPoint
  import opened SeriesFile
  import opened FileNames

  const WRITE_REQUEST := 1
  const SIMPLE_RESPONSE := 2
  const READ_REQUEST := 3
  const READ_RESPONSE := 4
  const TRUNCATE_REQUEST := 5
  const READ_LATEST_REQUEST := 6

  const RESPONSE_OK := 0
  const RESPONSE_ERROR := 1

  const WRITE_HEADER := 17
  const READ_REQUEST_SIZE := 21
  const READ_RESPONSE_HEADER := 13
  const ID_REQUEST_SIZE := 5
  const SIMPLE_RESPONSE_SIZE := 2

  const U64 := 0x1_0000_0000_0000_0000

  datatype Message =
    | WriteRequest(id: uint32, count: timestamp, size: uint32, data: seq<byte>)
    | ReadRequest(id: uint32, begin: timestamp, end: timestamp)
    | ReadLatestRequest(id: uint32)
    | TruncateRequest(id: uint32)
    | ReadResponse(count: timestamp, size: uint32, data: seq<byte>)
    | SimpleResponse(code: byte)

  /** The bytes of `count` points. */
  function DataSize(size: uint32, count: timestamp): nat {
    size * count
  }

  /** The payload size a header announces, computed in 64 bits. */
  function Announced(header: nat, size: uint32, count: timestamp): nat {
    (header + DataSize(size, count) % U64) % U64
  }

  lemma AnnouncedExact(header: nat, size: uint32, count: timestamp)
    requires header + DataSize(size, count) < U64
    ensures Announced(header, size, count) == header + DataSize(size, count)
  {
    hide DataSize;
  }

  /** The point data is as long as its count and size say, and the whole fits in memory. */
  predicate Proper(m: Message) {
    match m
    case WriteRequest(_, count, size, data) => |data| == DataSize(size, count) && WRITE_HEADER + |data| < U64
    case ReadResponse(count, size, data) => |data| == DataSize(size, count) && READ_RESPONSE_HEADER + |data| < U64
    case _ => true
  }

  /** The `*_create` encoders. */
  function Encode(m: Message): (r: seq<byte>)
    ensures |r| > 0
  {
    match m
    case WriteRequest(id, count, size, data) =>
      [WRITE_REQUEST] + (LeBytes(id, 4) + (LeBytes(count, 8) + (LeBytes(size, 4) + data)))
    case ReadRequest(id, begin, end) => [READ_REQUEST] + (LeBytes(id, 4) + (LeBytes(begin, 8) + LeBytes(end, 8)))
    case ReadLatestRequest(id) => [READ_LATEST_REQUEST] + LeBytes(id, 4)
    case TruncateRequest(id) => [TRUNCATE_REQUEST] + LeBytes(id, 4)
    case ReadResponse(count, size, data) => [READ_RESPONSE] + (LeBytes(count, 8) + (LeBytes(size, 4) + data))
    case SimpleResponse(code) => [SIMPLE_RESPONSE, code]
  }

  // ----- fields

  function U32At(data: seq<byte>, at: nat): uint32
    requires at + 4 <= |data|
  {
    FieldBound(data[at..at + 4]);
    LeValue(data[at..at + 4])
  }

  function U64At(data: seq<byte>, at: nat): timestamp
    requires at + 8 <= |data|
  {
    TimeBound(data[at..at + 8]);
    LeValue(data[at..at + 8])
  }

  lemma FieldBound(bytes: seq<byte>)
    requires |bytes| == 4
    ensures LeValue(bytes) < 0x1_0000_0000
  {
    assert Pow256(2) == 0x1_0000;
    assert Pow256(4) == 0x1_0000 * Pow256(2);
  }

  lemma U32InBytes(data: seq<byte>, at: nat)
    requires at + 4 <= |data|
    ensures U32At(data, at) == WordAt(data, at)
  {
    var s := data[at..at + 4];
    assert LeValue(s) == s[0] + 256 * LeValue(s[1..]);
    assert LeValue(s[1..]) == s[1] + 256 * LeValue(s[1..][1..]);
    assert s[1..][1..] == s[2..];
    assert LeValue(s[2..]) == s[2] + 256 * LeValue(s[2..][1..]);
    assert s[2..][1..] == s[3..] == [s[3]];
    assert LeValue([s[3]]) == s[3] + 256 * LeValue([]);
  }

  /** payload_validate; the product of size and count is taken in 64 bits. */
  predicate Validate(data: seq<byte>)
    requires |data| >= 1
  {
    if data[0] == WRITE_REQUEST then
      |data| >= WRITE_HEADER && |data| == Announced(WRITE_HEADER, U32At(data, 13), U64At(data, 5))
    else if data[0] == READ_REQUEST then |data| == READ_REQUEST_SIZE
    else if data[0] == READ_RESPONSE then
      |data| >= READ_RESPONSE_HEADER && |data| == Announced(READ_RESPONSE_HEADER, U32At(data, 9), U64At(data, 1))
    else if data[0] == SIMPLE_RESPONSE then |data| == SIMPLE_RESPONSE_SIZE
    else if data[0] == TRUNCATE_REQUEST then |data| == ID_REQUEST_SIZE
    else data[0] == READ_LATEST_REQUEST && |data| == ID_REQUEST_SIZE
  }

  /** Reading the fields of a validated payload in place. */
  function Decode(data: seq<byte>): Message
    requires |data| >= 1 && Validate(data)
  {
    if data[0] == WRITE_REQUEST then WriteRequest(U32At(data, 1), U64At(data, 5), U32At(data, 13), data[WRITE_HEADER..])
    else if data[0] == READ_REQUEST then ReadRequest(U32At(data, 1), U64At(data, 5), U64At(data, 13))
    else if data[0] == READ_RESPONSE then ReadResponse(U64At(data, 1), U32At(data, 9), data[READ_RESPONSE_HEADER..])
    else if data[0] == SIMPLE_RESPONSE then SimpleResponse(data[1])
    else if data[0] == TRUNCATE_REQUEST then TruncateRequest(U32At(data, 1))
    else ReadLatestRequest(U32At(data, 1))
  }

  // ----- decoding undoes encoding

  lemma U32Stored(data: seq<byte>, at: nat, v: uint32)
    requires at + 4 <= |data| && data[at..at + 4] == LeBytes(v, 4)
    ensures U32At(data, at) == v
  {
    assert Pow256(2) == 0x1_0000;
    assert Pow256(4) == 0x1_0000 * Pow256(2);
    LeValueOfBytes(v, 4);
  }

  lemma U64Stored(data: seq<byte>, at: nat, v: timestamp)
    requires at + 8 <= |data| && data[at..at + 8] == LeBytes(v, 8)
    ensures U64At(data, at) == v
  {
    Pow8();
    LeValueOfBytes(v, 8);
  }

  lemma WriteFields(id: uint32, count: timestamp, size: uint32, data: seq<byte>)
    ensures var e := Encode(WriteRequest(id, count, size, data));
            && |e| == WRITE_HEADER + |data| && e[0] == WRITE_REQUEST
            && U32At(e, 1) == id && U64At(e, 5) == count && U32At(e, 13) == size && e[WRITE_HEADER..] == data
  {
    var e := Encode(WriteRequest(id, count, size, data));
    hide LeBytes, LeValue;
    assert e[1..5] == LeBytes(id, 4) && e[5..13] == LeBytes(count, 8) && e[13..17] == LeBytes(size, 4);
    U32Stored(e, 1, id);
    U64Stored(e, 5, count);
    U32Stored(e, 13, size);
  }

  lemma ReadFields(id: uint32, begin: timestamp, end: timestamp)
    ensures var e := Encode(ReadRequest(id, begin, end));
            && |e| == READ_REQUEST_SIZE && e[0] == READ_REQUEST
            && U32At(e, 1) == id && U64At(e, 5) == begin && U64At(e, 13) == end
  {
    var e := Encode(ReadRequest(id, begin, end));
    hide LeBytes, LeValue;
    assert e[1..5] == LeBytes(id, 4) && e[5..13] == LeBytes(begin, 8) && e[13..21] == LeBytes(end, 8);
    U32Stored(e, 1, id);
    U64Stored(e, 5, begin);
    U64Stored(e, 13, end);
  }

  lemma ResponseFields(count: timestamp, size: uint32, data: seq<byte>)
    ensures var e := Encode(ReadResponse(count, size, data));
            && |e| == READ_RESPONSE_HEADER + |data| && e[0] == READ_RESPONSE
            && U64At(e, 1) == count && U32At(e, 9) == size && e[READ_RESPONSE_HEADER..] == data
  {
    var e := Encode(ReadResponse(count, size, data));
    hide LeBytes, LeValue;
    assert e[1..9] == LeBytes(count, 8) && e[9..13] == LeBytes(size, 4);
    U64Stored(e, 1, count);
    U32Stored(e, 9, size);
  }

  lemma IdFields(type_: byte, id: uint32)
    ensures var e := [type_] + LeBytes(id, 4); |e| == ID_REQUEST_SIZE && e[0] == type_ && U32At(e, 1) == id
  {
    var e := [type_] + LeBytes(id, 4);
    hide LeBytes, LeValue;
    assert e[1..5] == LeBytes(id, 4);
    U32Stored(e, 1, id);
  }

  /** Every encoded message passes validation and decodes to itself. */
  lemma MessageRoundTrip(m: Message)
    requires Proper(m)
    ensures Validate(Encode(m)) && Decode(Encode(m)) == m
  {
    hide Announced, DataSize, LeBytes, U32At, U64At;
    match m
    case WriteRequest(id, count, size, data) =>
      AnnouncedExact(WRITE_HEADER, size, count);
      WriteFields(id, count, size, data);
    case ReadRequest(id, begin, end) =>
      ReadFields(id, begin, end);
    case ReadLatestRequest(id) =>
      IdFields(READ_LATEST_REQUEST, id);
    case TruncateRequest(id) =>
      IdFields(TRUNCATE_REQUEST, id);
    case ReadResponse(count, size, data) =>
      AnnouncedExact(READ_RESPONSE_HEADER, size, count);
      ResponseFields(count, size, data);
    case SimpleResponse(_) =>
  }

  // ----- the bytes on the wire

  /** The payload of a message, byte by byte. */
  function Wire(m: Message): seq<byte> {
    match m
    case WriteRequest(id, count, size, data) => [1] + Word(id) + LongWord(count) + Word(size) + data
    case SimpleResponse(code) => [2, code]
    case ReadRequest(id, begin, end) => [3] + Word(id) + LongWord(begin) + LongWord(end)
    case ReadResponse(count, size, data) => [4] + LongWord(count) + Word(size) + data
    case TruncateRequest(id) => [5] + Word(id)
    case ReadLatestRequest(id) => [6] + Word(id)
  }

  lemma EncodedIsWire(m: Message)
    ensures Encode(m) == Wire(m)
  {
    hide LeBytes, Word, LongWord;
    match m
    case WriteRequest(id, count, size, data) =>
      WordBytes(id);
      LongWordBytes(count);
      WordBytes(size);
    case SimpleResponse(_) =>
    case ReadRequest(id, begin, end) =>
      WordBytes(id);
      LongWordBytes(begin);
      LongWordBytes(end);
    case ReadResponse(count, size, data) =>
      LongWordBytes(count);
      WordBytes(size);
    case TruncateRequest(id) => WordBytes(id);
    case ReadLatestRequest(id) => WordBytes(id);
  }

  /** The bytes of every proper message are valid and decode to it. */
  lemma WireDecodes(m: Message)
    requires Proper(m)
    ensures |Wire(m)| >= 1 && Validate(Wire(m)) && Decode(Wire(m)) == m
  {
    hide Encode, Wire, Validate, Decode, Proper;
    EncodedIsWire(m);
    MessageRoundTrip(m);
  }

  lemma TruncateOne()
    ensures Validate([5, 1, 0, 0, 0]) && Decode([5, 1, 0, 0, 0]) == TruncateRequest(1)
    ensures Validate([6, 1, 0, 0, 0]) && Decode([6, 1, 0, 0, 0]) == ReadLatestRequest(1)
  {
    assert Wire(TruncateRequest(1)) == [5, 1, 0, 0, 0] && Wire(ReadLatestRequest(1)) == [6, 1, 0, 0, 0];
    hide Wire, Validate, Decode;
    WireDecodes(TruncateRequest(1));
    WireDecodes(ReadLatestRequest(1));
  }

  // ----- encoding undoes decoding

  /** The announced point data does not overflow 64 bits. */
  predicate NoWrap(data: seq<byte>)
    requires |data| >= 1
  {
    && (data[0] == WRITE_REQUEST && |data| >= WRITE_HEADER ==>
          WRITE_HEADER + DataSize(U32At(data, 13), U64At(data, 5)) < U64)
    && (data[0] == READ_RESPONSE && |data| >= READ_RESPONSE_HEADER ==>
          READ_RESPONSE_HEADER + DataSize(U32At(data, 9), U64At(data, 1)) < U64)
  }

  lemma U32Bytes(data: seq<byte>, at: nat)
    requires at + 4 <= |data|
    ensures LeBytes(U32At(data, at), 4) == data[at..at + 4]
  {
    LeBytesOfValue(data[at..at + 4]);
  }

  lemma U64Bytes(data: seq<byte>, at: nat)
    requires at + 8 <= |data|
    ensures LeBytes(U64At(data, at), 8) == data[at..at + 8]
  {
    LeBytesOfValue(data[at..at + 8]);
  }

  /** Every validated payload is the encoding of what is decoded from it. It is a proper message exactly
      when the size it announces does not overflow. */
  lemma EncodeDecoded(data: seq<byte>)
    requires |data| >= 1 && Validate(data)
    ensures Encode(Decode(data)) == data
    ensures Proper(Decode(data)) <==> NoWrap(data)
  {
    hide Announced, DataSize, LeBytes, U32At, U64At, Encode;
    if data[0] == WRITE_REQUEST {
      if NoWrap(data) {
        AnnouncedExact(WRITE_HEADER, U32At(data, 13), U64At(data, 5));
      }
      WriteBytes(data);
    } else if data[0] == READ_REQUEST {
      ReadBytes(data);
    } else if data[0] == READ_RESPONSE {
      if NoWrap(data) {
        AnnouncedExact(READ_RESPONSE_HEADER, U32At(data, 9), U64At(data, 1));
      }
      ResponseBytes(data);
    } else {
      ShortBytes(data);
    }
  }

  /** A payload whose announced size overflows: 2^33 points of 2^31 bytes, and none of them there. */
  lemma OverflowValidates(id: uint32)
    ensures var m := WriteRequest(id, 0x2_0000_0000, 0x8000_0000, []);
            Validate(Encode(m)) && Decode(Encode(m)) == m && !Proper(m)
  {
    hide Encode, LeBytes, U32At, U64At;
    WriteFields(id, 0x2_0000_0000, 0x8000_0000, []);
  }

  lemma WriteBytes(data: seq<byte>)
    requires |data| >= WRITE_HEADER && data[0] == WRITE_REQUEST
    ensures Encode(WriteRequest(U32At(data, 1), U64At(data, 5), U32At(data, 13), data[WRITE_HEADER..])) == data
  {
    hide LeBytes, U32At, U64At;
    U32Bytes(data, 1);
    U64Bytes(data, 5);
    U32Bytes(data, 13);
    Cut5(data, 1, 5, 13, 17);
    assert data[..1] == [data[0]];
  }

  lemma ReadBytes(data: seq<byte>)
    requires |data| == READ_REQUEST_SIZE && data[0] == READ_REQUEST
    ensures Encode(ReadRequest(U32At(data, 1), U64At(data, 5), U64At(data, 13))) == data
  {
    hide LeBytes, U32At, U64At;
    U32Bytes(data, 1);
    U64Bytes(data, 5);
    U64Bytes(data, 13);
    Cut5(data, 1, 5, 13, 21);
    assert data[..1] == [data[0]] && data[13..21] + data[21..] == data[13..21];
  }

  lemma ResponseBytes(data: seq<byte>)
    requires |data| >= READ_RESPONSE_HEADER && data[0] == READ_RESPONSE
    ensures Encode(ReadResponse(U64At(data, 1), U32At(data, 9), data[READ_RESPONSE_HEADER..])) == data
  {
    hide LeBytes, U32At, U64At;
    U64Bytes(data, 1);
    U32Bytes(data, 9);
    Cut5(data, 1, 9, 13, 13);
    assert data[..1] == [data[0]] && data[13..13] + data[13..] == data[13..];
  }

  lemma ShortBytes(data: seq<byte>)
    requires |data| >= 1 && Validate(data)
    ensures data[0] == SIMPLE_RESPONSE || data[0] == TRUNCATE_REQUEST || data[0] == READ_LATEST_REQUEST ==>
              Encode(Decode(data)) == data
  {
    hide LeBytes, U32At, U64At;
    if |data| == ID_REQUEST_SIZE {
      U32Bytes(data, 1);
      assert data == [data[0]] + data[1..5];
    }
  }

  /** A payload is its consecutive fields. */
  lemma Cut5(data: seq<byte>, a: nat, b: nat, c: nat, d: nat)
    requires a <= b <= c <= d <= |data|
    ensures data == data[..a] + (data[a..b] + (data[b..c] + (data[c..d] + data[d..])))
  {
  }
}
