/** The client side: a session over one socket, with at most one read open at a time. */
module Session {
  import opened Bytes
  import opened DataPoint
  import opened SeriesFile
  import opened FileNames
  import opened Protocol
  import opened Server
  import opened ClientHandler

  /** A stream whose next header, if it is one, announces a payload. */
  predicate Readable(stream: seq<byte>) {
    |stream| >= HEADER && U32At(stream, 0) == MAGIC ==> Total(stream) > HEADER
  }

  /** A number of bytes in a 32-bit `int`, and such a number compared with a size. */
  function AsInt(n: int): (i: int)
    ensures -0x8000_0000 <= i < 0x8000_0000
  {
    (n + 0x8000_0000) % 0x1_0000_0000 - 0x8000_0000
  }

  function AsSize(i: int): int {
    if i < 0 then i + U64 else i
  }

  lemma AsIntAdd(n: int, m: int)
    ensures AsInt(AsInt(n) + m) == AsInt(n + m)
  {
  }

  /** The count of received bytes equals the size asked for exactly when all of them came and the
      size fits an `int`. */
  lemma CountAgrees(n: nat, size: nat)
    requires n <= size < 0x1_0000_0000
    ensures AsSize(AsInt(n)) == size <==> n == size < INT_LIMIT
  {
  }

  const INT_LIMIT := 0x8000_0000

  /** What session_receive takes from a stream: a payload of the wanted type or nothing, and the
      bytes that stay. A payload too long for the count of its bytes is not taken. */
  function Received(stream: seq<byte>, type_: byte): (Option<seq<byte>>, seq<byte>)
    requires Readable(stream)
  {
    if |stream| < HEADER then (None, [])
    else if U32At(stream, 0) != MAGIC then (None, stream[HEADER..])
    else if |stream| < Total(stream) then (None, [])
    else
      var payload, rest := stream[HEADER..Total(stream)], stream[Total(stream)..];
      (if |payload| < INT_LIMIT && payload[0] == type_ && Validate(payload) then Some(payload) else None, rest)
  }

  class Session {
    /** Bytes on their way to this session, and bytes it has sent. */
    var incoming: seq<byte>
    var outgoing: seq<byte>
    var readOpen: bool
    var response: Option<seq<byte>>

    constructor ()
      ensures incoming == [] && outgoing == [] && !readOpen && response == None
    {
      incoming, outgoing, readOpen, response := [], [], false, None;
    }

    /** socket_receive: collects `size` bytes over any number of short reads, or all there are, and
        counts them in an `int`. */
    method SocketReceive(size: nat) returns (got: seq<byte>, total: int)
      modifies this`incoming
      ensures total == AsInt(|got|)
      ensures got == old(incoming)[..Min(size, |old(incoming)|)]
      ensures incoming == old(incoming)[Min(size, |old(incoming)|)..]
    {
      got, total := [], 0;
      var left := size;
      ghost var all := incoming;
      while left > 0 && |incoming| > 0
        invariant 0 <= left <= size && |got| == size - left <= |all|
        invariant got == all[..|got|] && incoming == all[|got|..] && total == AsInt(|got|)
        decreases left
      {
        var n :| 1 <= n <= left && n <= |incoming|;
        got := got + incoming[..n];
        incoming := incoming[n..];
        AsIntAdd(|got| - n, n);
        total := AsInt(total + n);
        left := left - n;
      }
    }

    /** session_receive. */
    method Receive(type_: byte) returns (payload: Option<seq<byte>>)
      requires Readable(incoming)
      modifies this`incoming
      ensures (payload, incoming) == Received(old(incoming), type_)
    {
      ghost var stream := incoming;
      var header, total := SocketReceive(HEADER);
      CountAgrees(|header|, HEADER);
      if AsSize(total) != HEADER {
        return None;
      }
      HeaderIn(stream);
      assert header == stream[..HEADER];
      hide U32At, Validate, AsInt;
      if U32At(header, 0) != MAGIC {
        return None;
      }
      var size := U32At(header, 4) - HEADER;
      var body;
      body, total := SocketReceive(size);
      CountAgrees(|body|, size);
      if AsSize(total) != size {
        return None;
      }
      assert body == stream[HEADER..Total(stream)];
      if body[0] != type_ || !Validate(body) {
        return None;
      }
      return Some(body);
    }

    /** The gate and the sending half of session_write and session_truncate. */
    method Request(m: Message) returns (r: int)
      modifies this`outgoing
      ensures r == if readOpen then -1 else 0
      ensures outgoing == if r == -1 then old(outgoing) else old(outgoing) + Frame(Encode(m))
    {
      if readOpen {
        return -1;
      }
      outgoing := outgoing + Frame(Encode(m));
      return 0;
    }

    /** The receiving half: zero only for a well-formed response with code OK. */
    method SimpleResult() returns (result: int)
      requires Readable(incoming)
      modifies this`incoming
      ensures var (payload, rest) := Received(old(incoming), SIMPLE_RESPONSE);
              && incoming == rest
              && result == if payload.Some? && Decode(payload.value).code == RESPONSE_OK then 0 else 1
    {
      var payload := Receive(SIMPLE_RESPONSE);
      return if payload.None? || Decode(payload.value).code != RESPONSE_OK then 1 else 0;
    }

    /** session_read: refused while a read is open. */
    method Read(id: uint32, begin: timestamp, end: timestamp) returns (r: int)
      modifies this`outgoing, this`readOpen
      ensures readOpen && (r == -1 <==> old(readOpen)) && (r == 0 <==> !old(readOpen))
      ensures r == -1 ==> outgoing == old(outgoing)
      ensures r == 0 ==> outgoing == old(outgoing) + Frame(Encode(ReadRequest(id, begin, end)))
    {
      if readOpen {
        return -1;
      }
      outgoing := outgoing + Frame(Encode(ReadRequest(id, begin, end)));
      readOpen := true;
      return 0;
    }

    /** session_read_latest: under the same gate. */
    method ReadLatest(id: uint32) returns (r: int)
      modifies this`outgoing, this`readOpen
      ensures readOpen && (r == -1 <==> old(readOpen)) && (r == 0 <==> !old(readOpen))
      ensures r == -1 ==> outgoing == old(outgoing)
      ensures r == 0 ==> outgoing == old(outgoing) + Frame(Encode(ReadLatestRequest(id)))
    {
      if readOpen {
        return -1;
      }
      outgoing := outgoing + Frame(Encode(ReadLatestRequest(id)));
      readOpen := true;
      return 0;
    }

    /** session_read_next: true while packets with points arrive; anything else closes the read. */
    method ReadNext() returns (more: bool)
      requires readOpen ==> Readable(incoming)
      modifies this`incoming, this`readOpen, this`response
      ensures !old(readOpen) ==> !more && !readOpen && incoming == old(incoming)
      ensures old(readOpen) ==>
                var (payload, rest) := Received(old(incoming), READ_RESPONSE);
                && incoming == rest && readOpen == more
                && (more <==> payload.Some? && Decode(payload.value).count > 0)
                && (more ==> response == payload)
    {
      if !readOpen {
        return false;
      }
      response := None;
      var payload := Receive(READ_RESPONSE);
      if payload.None? || Decode(payload.value).count == 0 {
        readOpen := false;
        return false;
      }
      response := payload;
      return true;
    }
  }

  // ----- draining a range read

  /** The points of a validated response. */
  function PointsIn(payload: seq<byte>): seq<Point>
    requires |payload| >= 1 && Validate(payload) && payload[0] == READ_RESPONSE
  {
    var m := Decode(payload);
    if m.size < TIME_SIZE || Offset(m.count, m.size) > |m.data| then [] else ReadPoints(m.data, m.size, 0, m.count)
  }

  /** A frame at the front of a stream is received whole, exactly when its length fits the count. */
  lemma ReceivedFrame(m: Message, rest: seq<byte>)
    requires Proper(m) && HEADER + |Encode(m)| < 0x1_0000_0000
    ensures Readable(Frame(Encode(m)) + rest)
    ensures Received(Frame(Encode(m)) + rest, Encode(m)[0])
         == (if |Encode(m)| < INT_LIMIT then Some(Encode(m)) else None, rest)
  {
    var stream := Frame(Encode(m)) + rest;
    FrameFields(Encode(m), rest);
    MessageRoundTrip(m);
    hide U32At, Validate, Encode, LeBytes;
    assert stream[HEADER..HEADER + |Encode(m)|] == Encode(m) && stream[HEADER + |Encode(m)|..] == rest;
  }

  lemma {:induction false} FramesCons(first: seq<byte>, rest: seq<seq<byte>>)
    ensures Frames([first] + rest) == Frame(first) + Frames(rest)
    decreases |rest|
  {
    hide Frame;
    if |rest| == 0 {
      assert [first] + rest == [first];
      assert Frames([first]) == Frames([]) + Frame(first);
    } else {
      var n := |rest| - 1;
      FramesCons(first, rest[..n]);
      assert ([first] + rest)[..|rest|] == [first] + rest[..n];
      Assoc(Frame(first), Frames(rest[..n]), Frame(rest[n]));
    }
  }

  /** A page fits a message and comes back out of it. */
  lemma ResponsePoints(points: seq<Point>, size: uint32)
    requires points == [] || Uniform(points, size)
    requires |points| < U64 && READ_RESPONSE_HEADER + Offset(|points|, size) < U64
    ensures Proper(Response(points, size))
    ensures |Encode(Response(points, size))| == READ_RESPONSE_HEADER + Offset(|points|, size)
    ensures Encode(Response(points, size))[0] == READ_RESPONSE && Validate(Encode(Response(points, size)))
    ensures Decode(Encode(Response(points, size))) == Response(points, size)
    ensures PointsIn(Encode(Response(points, size))) == points
  {
    var m := Response(points, size);
    hide Flatten, Offset, Encode, DataSize, Validate, Decode;
    FlattenAt(points, size);
    DataIsPoints(|points|, size);
    ResponseFields(|points|, size, Flatten(points));
    MessageRoundTrip(m);
    if |points| > 0 {
      ReadPointsOf(points, size, 0, |points|);
      assert points[0..|points|] == points;
    }
  }

  lemma FlattenAt(points: seq<Point>, size: uint32)
    requires points == [] || Uniform(points, size)
    ensures |Flatten(points)| == Offset(|points|, size)
  {
    if |points| > 0 {
      FlattenLength(points, size);
    }
  }

  /** Packets with up to `p` of these points are received. */
  predicate Framed(points: seq<Point>, p: nat, size: nat) {
    forall n: nat :: n <= p && n <= |points| ==> READ_RESPONSE_HEADER + Offset(n, size) < INT_LIMIT
  }

  /** The front packet of an answer, and what follows it. */
  lemma FrontPacket(points: seq<Point>, p: nat, size: uint32, tail: seq<byte>)
    requires 1 <= p < U64 && Framed(points, p, size) && (points == [] || Uniform(points, size))
    ensures var n, stream := Min(p, |points|), Frames(Answer(points, p, size)) + tail;
            var payload := Encode(Response(points[..n], size));
            && Readable(stream) && Validate(payload) && payload[0] == READ_RESPONSE
            && Received(stream, READ_RESPONSE)
               == (Some(payload), if n == 0 then tail else Frames(Answer(points[n..], p, size)) + tail)
            && Decode(payload) == Response(points[..n], size) && PointsIn(payload) == points[..n]
  {
    var n := Min(p, |points|);
    hide Answer, Encode, Validate, Decode, Frame, Frames, Received, Readable, Offset, PointsIn, Response;
    FrontFrame(points, p, size, tail);
    assert READ_RESPONSE_HEADER + Offset(n, size) < INT_LIMIT;
    ResponsePoints(points[..n], size);
    ReceivedFrame(Response(points[..n], size), if n == 0 then tail else Frames(Answer(points[n..], p, size)) + tail);
  }

  lemma FrontFrame(points: seq<Point>, p: nat, size: uint32, tail: seq<byte>)
    requires 1 <= p < U64
    ensures var n := Min(p, |points|);
            Frames(Answer(points, p, size)) + tail
            == Frame(Encode(Response(points[..n], size)))
               + if n == 0 then tail else Frames(Answer(points[n..], p, size)) + tail
  {
    hide Answer, Encode, Frame, Response, Frames;
    AnswerStep(points, p, size);
    var first, rest := Answer(points, p, size)[0], Answer(points, p, size)[1..];
    assert Answer(points, p, size) == [first] + rest;
    FramesCons(first, rest);
    Assoc(Frame(first), Frames(rest), tail);
    NoFrames(tail);
  }

  lemma NoFrames(tail: seq<byte>)
    ensures Frames([]) + tail == tail
  {
  }

  /** One session_read_next on an answer: its first page, or the end of it. */
  method NextPackets(s: Session, ghost left: seq<Point>, ghost p: nat, ghost size: uint32, ghost tail: seq<byte>)
    returns (more: bool, page: seq<Point>)
    requires s.readOpen && 1 <= p < U64 && Framed(left, p, size) && (left == [] || Uniform(left, size))
    requires s.incoming == Frames(Answer(left, p, size)) + tail
    modifies s`incoming, s`readOpen, s`response
    ensures more <==> |left| > 0
    ensures page == left[..Min(p, |left|)] && s.readOpen == more
    ensures s.incoming == if more then Frames(Answer(left[Min(p, |left|)..], p, size)) + tail else tail
  {
    hide Answer, Encode, Validate, Decode, Frames, Received, Readable, Framed, PointsIn;
    FrontPacket(left, p, size, tail);
    more := s.ReadNext();
    page := if more then PointsIn(s.response.value) else [];
  }

  /** A client that reads on until the read closes collects exactly the points of the answer, and
      leaves nothing of it on the stream. */
  method Drain(s: Session, ghost points: seq<Point>, ghost p: nat, ghost size: uint32, ghost tail: seq<byte>)
    returns (got: seq<Point>)
    requires s.readOpen && 1 <= p < U64 && Framed(points, p, size) && (points == [] || Uniform(points, size))
    requires s.incoming == Frames(Answer(points, p, size)) + tail
    modifies s`incoming, s`readOpen, s`response
    ensures got == points && !s.readOpen && s.incoming == tail
  {
    hide Answer, Frames;
    got := [];
    ghost var left := points;
    var more := true;
    while more
      invariant Framed(left, p, size) && (left == [] || Uniform(left, size))
      invariant got + left == points && s.readOpen == more
      invariant more ==> s.incoming == Frames(Answer(left, p, size)) + tail
      invariant !more ==> left == [] && s.incoming == tail
      decreases more, |left|
    {
      var page;
      more, page := NextPackets(s, left, p, size, tail);
      got := got + page;
      left := left[Min(p, |left|)..];
    }
  }
}
