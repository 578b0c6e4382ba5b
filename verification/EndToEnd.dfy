/** The whole stack: client calls carried over frames to the server, and the replies back. */
module EndToEnd {
  import opened Bytes
  import opened DataPoint
  import opened SeriesFile
  import opened FileNames
  import opened Directory
  import opened Series
  import opened Database
  import opened DatabaseRuns
  import opened Protocol
  import opened Server
  import opened ClientHandler
  import opened Session

  lemma RequestAccepted(m: Message)
    requires IsRequest(m) && Proper(m)
    ensures Validate(Encode(m)) && Decode(Encode(m)) == m && MessageStatus(Encode(m)) == 0
    ensures Encode(m)[0] == WRITE_REQUEST <==> m.WriteRequest?
  {
    MessageRoundTrip(m);
  }

  ghost predicate Idle(c: Connection)
    reads c, c.buffer
  {
    c.Valid() && c.connected && c.length == 0
  }

  /** The server's side of a call: the request arrives in any cuts, is handled once, and everything
      it asks for is sent. */
  method Serve(c: Connection, db: Database, m: Message, chunks: seq<seq<byte>>)
    returns (sent: seq<byte>, ghost packets: seq<seq<byte>>)
    requires Idle(c) && db.Valid() && IsRequest(m) && Proper(m) && (m.WriteRequest? ==> Writable(m))
    requires Sendable(Encode(m)) && Cut(chunks, Frame(Encode(m)))
    modifies c, c.buffer, db.series, db.disk, set i | 0 <= i < db.series.Length :: db.series[i]
    ensures Idle(c) && db.Valid() && c.handled == old(c.handled) + [Encode(m)]
    ensures db.SlotsKept() && sent == Frames(packets)
    ensures Served(old(db.disk.files), db.disk.files, db.maxSeries, m, packets)
  {
    hide Sound, Frame, Frames, Encode, Cut, Validate, Decode, Served, Proper;
    RequestAccepted(m);
    var client := new Client(Reliable);
    ReceiveFrame(c, Encode(m), chunks, MessageStatus);
    var status := ProcessMessage(client, c.handled[|c.handled| - 1], db);
    sent, packets := client.sent, client.packets;
    assert packets[0..] == packets;
  }

  // ----- reading

  /** A client can take in a packet with one of the stored points. */
  ghost predicate Deliverable(files: Files, max: nat, id: uint32) {
    PointsOf(files, id, max) == [] || READ_RESPONSE_HEADER + PointSizeOf(files, id, max) < INT_LIMIT
  }

  /** session_read and session_read_next until the read closes. The client receives exactly the
      stored points of the range, in order; nothing is left on the wire. */
  method ClientRead(s: Session, c: Connection, db: Database, id: uint32, begin: timestamp, end: timestamp,
                    chunks: seq<seq<byte>>)
    returns (got: seq<Point>)
    requires !s.readOpen && s.incoming == [] && s.outgoing == [] && Idle(c) && db.Valid()
    requires Deliverable(db.disk.files, db.maxSeries, id)
    requires Cut(chunks, Frame(Encode(ReadRequest(id, begin, end))))
    modifies s, c, c.buffer, db.series, db.disk, set i | 0 <= i < db.series.Length :: db.series[i]
    ensures got == Range(PointsOf(old(db.disk.files), id, db.maxSeries), begin, end)
    ensures !s.readOpen && s.incoming == [] && s.outgoing == [] && Idle(c) && db.Valid()
    ensures SameView(old(db.disk.files), db.disk.files, db.maxSeries) && db.SlotsKept()
  {
    hide Sound, Lookup, Frame, Frames, Encode, Answer, Cut, ReadAnswer, Sendable, SameView;
    var m := ReadRequest(id, begin, end);
    RequestFits(m);
    ghost var range, p, size := AnswerShape(db.disk.files, db.maxSeries, id, begin, end);
    var asked := s.Read(id, begin, end);
    var sent; ghost var packets;
    assert s.outgoing == Frame(Encode(m)) && Cut(chunks, s.outgoing);
    sent, packets := Serve(c, db, m, chunks);
    s.incoming, s.outgoing := sent, [];
    NothingAfter(packets);
    got := Drain(s, range, p, size, []);
  }

  lemma RequestFits(m: Message)
    requires m.ReadRequest? || m.TruncateRequest? || m.ReadLatestRequest?
    ensures Proper(m) && Sendable(Encode(m))
  {
    match m
    case ReadRequest(id, begin, end) => ReadFields(id, begin, end);
    case TruncateRequest(id) => IdFields(TRUNCATE_REQUEST, id);
    case ReadLatestRequest(id) => IdFields(READ_LATEST_REQUEST, id);
  }

  lemma NothingAfter(packets: seq<seq<byte>>)
    ensures Frames(packets) + [] == Frames(packets)
  {
  }

  lemma StoredUniform(files: Files, max: nat, id: uint32)
    requires Sound(files, max)
    ensures var size := PointSizeOf(files, id, max);
            if size == 0 then PointsOf(files, id, max) == [] else Uniform(PointsOf(files, id, max), size)
  {
    hide ContentsOf, FileName, StrictlySorted;
    if id < max && Lookup(files, id).Some? {
      var size: uint32 :| FileName(id, size) in files;
      LookupFile(files, max, id, size);
    }
  }

  lemma RangeUniform(ps: seq<Point>, begin: int, end: int, size: nat)
    requires Uniform(ps, size)
    ensures Uniform(Range(ps, begin, end), size)
  {
    hide Range;
    var r := Range(ps, begin, end);
    forall i | 0 <= i < |r| ensures |r[i].value| == size - TIME_SIZE {
      RangeMembers(ps, begin, end, r[i]);
    }
  }

  lemma PacketsFramed(points: seq<Point>, size: nat)
    requires size >= TIME_SIZE && (points == [] || READ_RESPONSE_HEADER + size < INT_LIMIT)
    ensures Framed(points, PointsPerPacket(size), size)
  {
    hide Offset, PointsPerPacket;
    forall n: nat | n <= PointsPerPacket(size) && n <= |points|
      ensures READ_RESPONSE_HEADER + Offset(n, size) < INT_LIMIT
    {
      OffsetAdd(0, 0, size);
      PageBytes(n, size);
    }
  }

  lemma FramedNothing(p: nat, size: nat)
    ensures Framed([], p, size)
  {
    assert Offset(0, size) == 0;
  }

  /** The answer of the server as pages of the range, with what the client needs to read them. */
  lemma AnswerShape(files: Files, max: nat, id: uint32, begin: timestamp, end: timestamp)
    returns (range: seq<Point>, p: nat, size: uint32)
    requires Sound(files, max)
    requires Deliverable(files, max, id)
    ensures range == Range(PointsOf(files, id, max), begin, end)
    ensures 1 <= p < U64 && Framed(range, p, size) && (range == [] || Uniform(range, size))
    ensures ReadAnswer(PointsOf(files, id, max), PointSizeOf(files, id, max), begin, end) == Answer(range, p, size)
  {
    var points, sz := PointsOf(files, id, max), PointSizeOf(files, id, max);
    range := Range(points, begin, end);
    SizeBound(files, max, id);
    StoredUniform(files, max, id);
    hide Sound, PointsOf, PointSizeOf, Framed, Uniform, Answer, PointsPerPacket, StrictlySorted;
    if sz == 0 {
      p, size := 1, 0;
      AnswerNothing(1, 0);
    } else {
      PacketBound(sz);
      p, size := PointsPerPacket(sz), if begin > end then 0 else sz;
    }
    if range == [] {
      FramedNothing(p, size);
    } else if begin > end {
      RangeEmpty(points, begin, end);
    } else {
      RangeUniform(points, begin, end, sz);
      PacketsFramed(range, sz);
    }
  }

  // ----- writing and truncating

  function WriteOf(id: uint32, size: uint32, batch: seq<Point>): Message
    requires |batch| < U64
  {
    WriteRequest(id, |batch|, size, Flatten(batch))
  }

  /** What a client may write: a batch of one size in a packet the server takes. */
  predicate Writes(id: uint32, size: uint32, batch: seq<Point>) {
    |batch| < U64 && IsBatch(batch, size) && Sendable(Encode(WriteOf(id, size, batch)))
  }

  /** The server reads back the batch that was sent. */
  lemma WriteArrives(id: uint32, size: uint32, batch: seq<Point>)
    requires Writes(id, size, batch)
    ensures var m := WriteOf(id, size, batch); Proper(m) && Writable(m) && BatchOf(m) == batch
  {
    WriteFields(id, |batch|, size, Flatten(batch));
    hide Flatten, Offset, Encode, DataSize, ReadPoints;
    FlattenLength(batch, size);
    DataIsPoints(|batch|, size);
    ReadPointsOf(batch, size, 0, |batch|);
    assert batch[0..|batch|] == batch;
  }

  lemma StatusArrives(r: int)
    ensures Readable(Frames([StatusPacket(r)]))
    ensures Received(Frames([StatusPacket(r)]), SIMPLE_RESPONSE) == (Some(StatusPacket(r)), [])
    ensures Validate(StatusPacket(r))
    ensures Decode(StatusPacket(r)) == SimpleResponse(if r != 0 then RESPONSE_ERROR else RESPONSE_OK)
  {
    var m := SimpleResponse(if r != 0 then RESPONSE_ERROR else RESPONSE_OK);
    MessageRoundTrip(m);
    SingleFrame(m);
  }

  /** session_write: the client's result is zero exactly when the store took the batch. */
  method ClientWrite(s: Session, c: Connection, db: Database, id: uint32, size: uint32, batch: seq<Point>,
                     chunks: seq<seq<byte>>)
    returns (result: int)
    requires !s.readOpen && s.incoming == [] && s.outgoing == [] && Idle(c) && db.Valid() && Writes(id, size, batch)
    requires Cut(chunks, Frame(Encode(WriteOf(id, size, batch))))
    modifies s, c, c.buffer, db.series, db.disk, set i | 0 <= i < db.series.Length :: db.series[i]
    ensures !s.readOpen && s.incoming == [] && s.outgoing == [] && Idle(c) && db.Valid() && db.SlotsKept()
    ensures result == 0 || result == 1
    ensures Step(View(old(db.disk.files), db.maxSeries), db.maxSeries, Write(id, size, batch),
                 Status(if result == 0 then 0 else -1), View(db.disk.files, db.maxSeries))
  {
    hide Sound, Lookup, Frame, Frames, Encode, Cut, Step, View, BatchOf, Writable, Served, Received, Readable,
         Validate, Decode, IsBatch, Sendable;
    var m := WriteOf(id, size, batch);
    WriteArrives(id, size, batch);
    var asked := s.Request(m);
    var sent; ghost var packets;
    ghost var before := db.disk.files;
    assert s.outgoing == Frame(Encode(m)) && Cut(chunks, s.outgoing);
    sent, packets := Serve(c, db, m, chunks);
    ghost var r := WriteRequestServed(before, db.disk.files, db.maxSeries, id, size, batch, packets);
    StatusArrives(r);
    s.incoming, s.outgoing := sent, [];
    result := s.SimpleResult();
  }

  lemma WriteRequestServed(before: Files, after: Files, max: nat, id: uint32, size: uint32, batch: seq<Point>,
                           packets: seq<seq<byte>>)
    returns (r: int)
    requires Sound(before, max) && Writes(id, size, batch) && Writable(WriteOf(id, size, batch))
    requires Served(before, after, max, WriteOf(id, size, batch), packets)
    ensures packets == [StatusPacket(r)] && (r == 0 || r == -1)
    ensures Step(View(before, max), max, Write(id, size, batch), Status(r), View(after, max))
  {
    hide Sound, Lookup, Step, View, StatusPacket, BatchOf, Writable, Encode, Flatten;
    var m := WriteOf(id, size, batch);
    r :| packets == [StatusPacket(r)] && WriteServed(before, after, max, m, r);
    WriteArrives(id, size, batch);
    WriteIsStep(before, after, max, id, size, batch, r);
  }

  /** session_truncate. */
  method ClientTruncate(s: Session, c: Connection, db: Database, id: uint32, chunks: seq<seq<byte>>)
    returns (result: int)
    requires !s.readOpen && s.incoming == [] && s.outgoing == [] && Idle(c) && db.Valid()
    requires Cut(chunks, Frame(Encode(TruncateRequest(id))))
    modifies s, c, c.buffer, db.series, db.disk, set i | 0 <= i < db.series.Length :: db.series[i]
    ensures !s.readOpen && s.incoming == [] && s.outgoing == [] && Idle(c) && db.Valid() && db.SlotsKept()
    ensures result == 0
    ensures Step(View(old(db.disk.files), db.maxSeries), db.maxSeries, Truncate(id), Status(0),
                 View(db.disk.files, db.maxSeries))
  {
    hide Sound, Lookup, Frame, Frames, Encode, Cut, Step, View, StatusPacket, Served, Received, Readable, Validate,
         Decode, Sendable;
    var m := TruncateRequest(id);
    RequestFits(m);
    var asked := s.Request(m);
    var sent; ghost var packets;
    ghost var before := db.disk.files;
    assert s.outgoing == Frame(Encode(m)) && Cut(chunks, s.outgoing);
    sent, packets := Serve(c, db, m, chunks);
    TruncateServed(before, db.disk.files, db.maxSeries, id, packets);
    StatusArrives(0);
    s.incoming, s.outgoing := sent, [];
    result := s.SimpleResult();
  }

  lemma TruncateServed(before: Files, after: Files, max: nat, id: uint32, packets: seq<seq<byte>>)
    requires Served(before, after, max, TruncateRequest(id), packets)
    ensures packets == [StatusPacket(0)]
    ensures Step(View(before, max), max, Truncate(id), Status(0), View(after, max))
  {
    hide Lookup, Step, View, StatusPacket;
    TruncateIsStep(before, after, max, id);
  }

  // ----- reading the latest point

  /** session_read_latest and one session_read_next: the latest point arrives, and the read stays
      open exactly when there is one, since no empty packet follows it. */
  method ClientReadLatest(s: Session, c: Connection, db: Database, id: uint32, chunks: seq<seq<byte>>)
    returns (got: seq<Point>)
    requires !s.readOpen && s.incoming == [] && s.outgoing == [] && Idle(c) && db.Valid()
    requires Deliverable(db.disk.files, db.maxSeries, id)
    requires Cut(chunks, Frame(Encode(ReadLatestRequest(id))))
    modifies s, c, c.buffer, db.series, db.disk, set i | 0 <= i < db.series.Length :: db.series[i]
    ensures got == Latest(PointsOf(old(db.disk.files), id, db.maxSeries))
    ensures (s.readOpen <==> got != []) && s.incoming == [] && s.outgoing == [] && Idle(c) && db.Valid()
    ensures SameView(old(db.disk.files), db.disk.files, db.maxSeries) && db.SlotsKept()
  {
    hide Sound, Lookup, Frame, Frames, Encode, Cut, SameView, Latest, Received, Readable, PointsIn, Validate, Decode,
         Sendable;
    var m := ReadLatestRequest(id);
    RequestFits(m);
    LatestArrives(db.disk.files, db.maxSeries, id);
    var asked := s.ReadLatest(id);
    var sent; ghost var packets;
    assert s.outgoing == Frame(Encode(m)) && Cut(chunks, s.outgoing);
    sent, packets := Serve(c, db, m, chunks);
    s.incoming, s.outgoing := sent, [];
    var more := s.ReadNext();
    got := if more then PointsIn(s.response.value) else [];
  }

  lemma LatestArrives(files: Files, max: nat, id: uint32)
    requires Sound(files, max)
    requires Deliverable(files, max, id)
    ensures var latest := Latest(PointsOf(files, id, max));
            var payload := Encode(Response(latest, PointSizeOf(files, id, max)));
            && Readable(Frames([payload])) && Validate(payload) && payload[0] == READ_RESPONSE
            && Received(Frames([payload]), READ_RESPONSE) == (Some(payload), [])
            && Decode(payload).count == |latest| && PointsIn(payload) == latest
  {
    hide Sound, Lookup, Encode, Validate, Decode, Frames, Received, Readable, PointsIn, Response;
    StoredUniform(files, max, id);
    SizeBound(files, max, id);
    var latest, size: uint32 := Latest(PointsOf(files, id, max)), PointSizeOf(files, id, max);
    assert Offset(|latest|, size) == if latest == [] then 0 else size;
    PointsArrive(latest, size);
  }

  lemma PointsArrive(points: seq<Point>, size: uint32)
    requires points == [] || Uniform(points, size)
    requires |points| < U64 && READ_RESPONSE_HEADER + Offset(|points|, size) < INT_LIMIT
    ensures var payload := Encode(Response(points, size));
            && Readable(Frames([payload])) && Validate(payload) && payload[0] == READ_RESPONSE
            && Received(Frames([payload]), READ_RESPONSE) == (Some(payload), [])
            && Decode(payload).count == |points| && PointsIn(payload) == points
  {
    hide Encode, Validate, Decode, Frames, Received, Readable, PointsIn, Offset, Uniform;
    ResponsePoints(points, size);
    SingleFrame(Response(points, size));
  }

  lemma SingleFrame(m: Message)
    requires Proper(m) && |Encode(m)| < INT_LIMIT
    ensures Readable(Frames([Encode(m)]))
    ensures Received(Frames([Encode(m)]), Encode(m)[0]) == (Some(Encode(m)), [])
  {
    hide Encode, Frame, Received, Readable;
    ReceivedFrame(m, []);
    FramesCons(Encode(m), []);
    assert [Encode(m)] + [] == [Encode(m)];
    assert Frame(Encode(m)) + Frames([]) == Frame(Encode(m)) + [];
  }

  // ----- what is stored fits what is sent

  /** A series with points has a point size with which a response with one point is a legal packet. */
  predicate Servable(e: Entry) {
    e.values == map[] || HEADER + READ_RESPONSE_HEADER + e.pointSize <= PACKET_MAX_LEN
  }

  ghost predicate AllServable(s: Store) {
    forall id :: id in s ==> Servable(s[id])
  }

  /** A point that arrived in a write request fits a response, whose header is shorter. */
  lemma WrittenFits(id: uint32, size: uint32, batch: seq<Point>)
    requires Writes(id, size, batch) && batch != []
    ensures HEADER + READ_RESPONSE_HEADER + size <= PACKET_MAX_LEN
  {
    WriteFields(id, |batch|, size, Flatten(batch));
    FlattenLength(batch, size);
    AtMost(1, |batch|, size);
  }

  /** A point one byte too large for a response: no write request can have brought it. */
  lemma OversizedPoint(value: seq<byte>, id: uint32)
    requires |value| == PACKET_MAX_LEN - HEADER - READ_RESPONSE_HEADER - TIME_SIZE + 1
    ensures var p, size := Point(1, value), TIME_SIZE + |value|;
            IsBatch([p], size) && !Sendable(Answer([p], 1, size)[0]) && !Writes(id, size, [p])
  {
    var p, size := Point(1, value), TIME_SIZE + |value|;
    FirstPageSize([p], 1, size);
    if Writes(id, size, [p]) {
      WrittenFits(id, size, [p]);
    }
  }

  /** The run that serves such a point: the database takes it, and the answer to a read of it starts with a
      packet over the limit. */
  method OversizedServed(disk: Disk, max: nat, id: uint32, value: seq<byte>)
    returns (sent: seq<byte>, ghost packets: seq<seq<byte>>)
    requires disk.files == map[] && id < max
    requires |value| == PACKET_MAX_LEN - HEADER - READ_RESPONSE_HEADER - TIME_SIZE + 1
    modifies disk
    ensures sent == Frames(packets) && |packets| == 2 && !Sendable(packets[0])
    ensures packets[0] == Encode(Response([Point(1, value)], TIME_SIZE + |value|))
  {
    hide Sound, Lookup, Encode, Response, Frames, SameView, ReadInPages, PointsOf, PointSizeOf, Answer, WriteDone,
         SameElsewhere, Sendable, Range, ReadAnswer;
    ghost var p, size: uint32 := Point(1, value), TIME_SIZE + |value|;
    NoFiles(max, id);
    var db := new Database(disk, max);
    var points := new Point[1](_ => Point(1, value));
    assert points[..] == [p];
    var r := db.Write(id, points, TIME_SIZE + |value|);
    OnePointStored(db.disk.files, id, max, p, size, r);
    var client := new Client(Reliable);
    HandleRead(client, db, id, 1, 2);
    sent, packets := client.sent, client.packets;
    OnePointRead(p, size);
    OversizedPoint(value, id);
    assert packets == ReadAnswer([p], size, 1, 2);
  }

  lemma NoFiles(max: nat, id: uint32)
    ensures Sound(map[], max) && Lookup(map[], id) == None
  {
  }

  lemma OnePointStored(files: Files, id: uint32, max: nat, p: Point, size: uint32, r: int)
    requires id < max && Lookup(files, id).Some? && p.time != 0
    requires WriteDone(SeriesState(size, []), [p], size, r, Lookup(files, id).value)
    ensures PointsOf(files, id, max) == [p] && PointSizeOf(files, id, max) == size
  {
    hide Lookup, ToMap, Overwrites;
    var after := Lookup(files, id).value;
    assert p.time in Times([p]) - {0};
    assert r == 0;
    OverwriteMeaning([], [p], after.points);
    OnlyPoint(after.points, p);
  }

  lemma OnlyPoint(ps: seq<Point>, p: Point)
    requires StrictlySorted(ps) && Times(ps) == {p.time} && ToMap(ps)[p.time] == p.value
    ensures ps == [p]
  {
    CountTimes(ps);
    assert ps[0].time in Times(ps);
    MapHolds(ps, ps[0]);
  }

  lemma OnePointRead(p: Point, size: uint32)
    requires Uniform([p], size) && p.time == 1 && size > READ_MAX_PAYLOAD / 2
    ensures ReadAnswer([p], size, 1, 2) == Answer([p], 1, size) && |Answer([p], 1, size)| == 2
    ensures Answer([p], 1, size)[0] == Encode(Response([p], size))
  {
    hide Encode, Response;
    assert Range([p], 1, 2) == Range([p][..0], 1, 2) + [p] == [p];
    assert PointsPerPacket(size) == 1;
    AnswerStep([p], 1, size);
    AnswerStep([], 1, size);
    assert [p][..1] == [p] && [p][1..] == [];
  }

  lemma ServableFile(files: Files, max: nat, id: uint32)
    requires AllServable(View(files, max)) && Sound(files, max)
    ensures var size := PointSizeOf(files, id, max);
            PointsOf(files, id, max) == [] || (size > 0 && HEADER + READ_RESPONSE_HEADER + size <= PACKET_MAX_LEN)
    ensures Deliverable(files, max, id)
  {
    StoredUniform(files, max, id);
    hide Lookup, Sound;
    if PointsOf(files, id, max) != [] {
      assert id in View(files, max);
      assert PointsOf(files, id, max)[0].time in Times(PointsOf(files, id, max));
    }
  }

  predicate AllSendable(packets: seq<seq<byte>>) {
    forall i :: 0 <= i < |packets| ==> Sendable(packets[i])
  }

  lemma EmptyAnswerFits(p: nat, size: uint32)
    requires 1 <= p < U64
    ensures AllSendable(Answer([], p, size))
  {
    AnswerNothing(p, size);
    ResponseFields(0, size, Flatten([]));
  }

  lemma ReadAnswerFits(files: Files, max: nat, id: uint32, begin: timestamp, end: timestamp)
    requires Sound(files, max) && AllServable(View(files, max)) && PointSizeOf(files, id, max) < 0x1_0000_0000
    ensures AllSendable(ReadAnswer(PointsOf(files, id, max), PointSizeOf(files, id, max), begin, end))
  {
    var points, size: uint32 := PointsOf(files, id, max), PointSizeOf(files, id, max);
    StoredUniform(files, max, id);
    ServableFile(files, max, id);
    SizeBound(files, max, id);
    hide Sound, PointsOf, PointSizeOf, View, AllServable;
    PointsAnswerFit(points, size, begin, end);
  }

  lemma PointsAnswerFit(points: seq<Point>, size: uint32, begin: timestamp, end: timestamp)
    requires size == 0 || size >= TIME_SIZE
    requires points == [] || (Uniform(points, size) && HEADER + READ_RESPONSE_HEADER + size <= PACKET_MAX_LEN)
    ensures AllSendable(ReadAnswer(points, size, begin, end))
  {
    hide Uniform, Answer, PointsPerPacket, Encode, ReadAnswer, Range, Sendable;
    AnswerOf(points, size, begin, end);
    if size == 0 {
      EmptyAnswerFits(1, 0);
      AnswerNothing(1, 0);
    } else if Range(points, begin, end) == [] {
      EmptyAnswerFits(PointsPerPacket(size), if begin > end then 0 else size);
    } else {
      NotEmpty(points, begin, end);
      RangeUniform(points, begin, end, size);
      AnswerFitsTransport(Range(points, begin, end), size);
    }
  }

  lemma NotEmpty(points: seq<Point>, begin: int, end: int)
    requires Range(points, begin, end) != []
    ensures points != [] && begin < end
  {
    RangeMembers(points, begin, end, Range(points, begin, end)[0]);
  }

  lemma LatestFits(files: Files, max: nat, id: uint32)
    requires Sound(files, max) && AllServable(View(files, max)) && PointSizeOf(files, id, max) < 0x1_0000_0000
    ensures AllSendable([Encode(Response(Latest(PointsOf(files, id, max)), PointSizeOf(files, id, max)))])
  {
    var latest, size := Latest(PointsOf(files, id, max)), PointSizeOf(files, id, max);
    StoredUniform(files, max, id);
    ServableFile(files, max, id);
    hide Sound, PointsOf, PointSizeOf, Encode, View;
    ResponseFields(|latest|, size, Flatten(latest));
    if latest != [] {
      FlattenLength(latest, size);
    }
  }

  /** Every packet served from a servable store is within the transport's limit. */
  lemma PacketsFit(before: Files, after: Files, max: nat, m: Message, packets: seq<seq<byte>>)
    requires Sound(before, max) && AllServable(View(before, max)) && IsRequest(m) && (m.WriteRequest? ==> Writable(m))
    requires Served(before, after, max, m, packets)
    ensures AllSendable(packets)
  {
    hide Sound, View, Lookup, ReadAnswer, Encode, WriteServed, Writable, PointsOf, PointSizeOf, Latest, Response;
    match m
    case ReadRequest(id, begin, end) => ReadAnswerFits(before, max, id, begin, end);
    case WriteRequest(_, _, _, _) =>
      var r: int :| packets == [StatusPacket(r)] && WriteServed(before, after, max, m, r);
      StatusFits(r);
    case TruncateRequest(_) => StatusFits(0);
    case ReadLatestRequest(id) => LatestFits(before, max, id);
  }

  lemma StatusFits(r: int)
    ensures Sendable(StatusPacket(r))
  {
  }

  /** Truncate requests sent without waiting: after 101 full reads the next one does not fit. */
  method TruncatesRunOut(c: Connection, id: uint32) returns (fed: nat)
    requires Idle(c)
    modifies c, c.buffer
    ensures fed == 101 && c.length + READ_BUFFER_MAX_LEN > c.buffer.Length && c.overlapped
  {
    var m := TruncateRequest(id);
    IdFields(TRUNCATE_REQUEST, id);
    RequestAccepted(m);
    fed := BufferRunsOut(c, Encode(m), MessageStatus);
  }
}
