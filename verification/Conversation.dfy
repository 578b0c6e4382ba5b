/** Sessions, connections and the database together: whatever clients do, and in whatever order, they go
    through a history of the dialogue. */
module Conversation {
  import opened Bytes
  import opened DataPoint
  import opened SeriesFile
  import opened FileNames
  import opened Directory
  import opened Series
  import opened Database
  import opened DatabaseRuns
  import opened Protocol
  import opened Server
  import opened ClientHandler
  import opened Session
  import opened EndToEnd
  import opened Dialogue

  lemma RequestArrives(op: Op)
    requires Callable(op)
    ensures var m := RequestOf(op);
            && IsRequest(m) && Proper(m) && (m.WriteRequest? ==> Writable(m)) && Sendable(Encode(m))
            && Validate(Encode(m)) && Decode(Encode(m)) == m && MessageStatus(Encode(m)) == 0
            && (Encode(m)[0] == WRITE_REQUEST <==> m.WriteRequest?)
  {
    hide Encode, Validate, Decode, Proper, Writable, Sendable, MessageStatus;
    if op.Write? {
      WriteArrives(op.id, op.size, op.batch);
    } else {
      RequestFits(RequestOf(op));
    }
    RequestAccepted(RequestOf(op));
  }

  /** Calls keep a store servable. */
  lemma StepServable(s: Store, max: nat, op: Op, reply: Reply, s': Store)
    requires Callable(op) && AllServable(s) && Step(s, max, op, reply, s')
    ensures AllServable(s')
  {
    hide Overridden, Writes, Whole, IsLatest, Times;
    if op.Write? && op.id < max && reply.code == 0 {
      SomeTime(op.batch);
      WrittenFits(op.id, op.size, op.batch);
    }
  }

  lemma SomeTime(batch: seq<Point>)
    ensures NewTimes(batch) != {} ==> batch != []
  {
  }

  // ----- replies

  /** The points of a reply that are still to come, their size and how many a packet takes. */
  datatype Rest = Rest(points: seq<Point>, p: nat, size: uint32)

  /** A reply, after the points in `got` were taken from it, is in these packets. */
  predicate Carries(op: Op, reply: Reply, rest: Rest, got: seq<Point>, packets: seq<seq<byte>>) {
    match op
    case ReadAll(_, _, _) =>
      && reply == Points(got + rest.points) && 1 <= rest.p < U64 && Framed(rest.points, rest.p, rest.size)
      && (rest.points == [] || Uniform(rest.points, rest.size)) && packets == Answer(rest.points, rest.p, rest.size)
    case ReadLatest(_) =>
      && reply == Points(rest.points) && got == [] && |rest.points| <= 1
      && (rest.points == [] || Uniform(rest.points, rest.size))
      && READ_RESPONSE_HEADER + Offset(|rest.points|, rest.size) < INT_LIMIT
      && packets == [Encode(Response(rest.points, rest.size))]
    case _ =>
      && reply.Status? && (reply.code == 0 || reply.code == -1) && got == [] && packets == [StatusPacket(reply.code)]
  }

  /** What the server sends for a request is the reply of the store, in the packets of the dialogue. */
  lemma AnswerCarries(before: Files, after: Files, max: nat, op: Op, packets: seq<seq<byte>>)
    returns (reply: Reply, rest: Rest)
    requires Sound(before, max) && AllServable(View(before, max)) && Callable(op)
    requires IsRequest(RequestOf(op)) && (op.Write? ==> Writable(RequestOf(op)))
    requires Served(before, after, max, RequestOf(op), packets)
    ensures Carries(op, reply, rest, [], packets) && AllSendable(packets)
    ensures packets == Packets(View(before, max), op, reply)
    ensures Step(View(before, max), max, op, reply, View(after, max)) && AllServable(View(after, max))
  {
    hide Sound, View, Lookup, Step, AllServable, ReadAnswer, Encode, Writable, Writes, PointsOf, PointSizeOf, Latest,
         Answer, Range, AllSendable, StatusPacket, Response, WriteServed, Framed, Uniform, Frames, SameView,
         SameElsewhere, SizeIn, Paged;
    PacketsFit(before, after, max, RequestOf(op), packets);
    match op {
      case Write(id, size, batch) =>
        var r := WriteRequestServed(before, after, max, id, size, batch, packets);
        reply, rest := Status(r), Rest([], 1, 0);
      case Truncate(id) =>
        TruncateServed(before, after, max, id, packets);
        reply, rest := Status(0), Rest([], 1, 0);
      case ReadAll(id, begin, end) =>
        ServableFile(before, max, id);
        var range, p, size := AnswerShape(before, max, id, begin, end);
        ReadAllIsStep(before, after, max, id, begin, end);
        PagedAnswer(before, max, id, begin, end);
        assert [] + range == range;
        reply, rest := Points(range), Rest(range, p, size);
      case ReadLatest(id) =>
        var latest, size := LatestShape(before, max, id);
        LatestIsStep(before, after, max, id);
        SizeOfView(before, max, id);
        reply, rest := Points(latest), Rest(latest, 1, size);
    }
    StepServable(View(before, max), max, op, reply, View(after, max));
  }

  lemma SizeOfView(files: Files, max: nat, id: uint32)
    requires Sound(files, max)
    ensures SizeIn(View(files, max), id) == PointSizeOf(files, id, max)
  {
    SizeBound(files, max, id);
    hide Sound;
  }

  lemma PagedAnswer(files: Files, max: nat, id: uint32, begin: timestamp, end: timestamp)
    requires Sound(files, max)
    ensures PointSizeOf(files, id, max) < 0x1_0000_0000
    ensures ReadAnswer(PointsOf(files, id, max), PointSizeOf(files, id, max), begin, end)
         == Paged(Range(PointsOf(files, id, max), begin, end), SizeIn(View(files, max), id), begin, end)
  {
    SizeOfView(files, max, id);
    SizeBound(files, max, id);
    hide Sound, View, PointsOf, PointSizeOf, Range, Encode, SizeIn, Answer, ReadAnswer, Response, PointsPerPacket,
         StrictlySorted;
    AnswerOf(PointsOf(files, id, max), PointSizeOf(files, id, max), begin, end);
  }

  lemma LatestShape(files: Files, max: nat, id: uint32) returns (latest: seq<Point>, size: uint32)
    requires Sound(files, max) && AllServable(View(files, max)) && PointSizeOf(files, id, max) < 0x1_0000_0000
    ensures latest == Latest(PointsOf(files, id, max)) && size == PointSizeOf(files, id, max)
    ensures |latest| <= 1 && (latest == [] || Uniform(latest, size))
    ensures READ_RESPONSE_HEADER + Offset(|latest|, size) < INT_LIMIT
  {
    hide Sound, PointsOf, PointSizeOf, View, AllServable;
    latest, size := Latest(PointsOf(files, id, max)), PointSizeOf(files, id, max);
    StoredUniform(files, max, id);
    ServableFile(files, max, id);
    OnePoint(latest, size);
  }

  lemma OnePoint(points: seq<Point>, size: nat)
    requires |points| <= 1
    ensures Offset(|points|, size) == if points == [] then 0 else size
  {
  }

  /** The server handles a request that has arrived. */
  method Respond(db: Database, payload: seq<byte>, ghost op: Op)
    returns (bytes: seq<byte>, ghost packets: seq<seq<byte>>, ghost reply: Reply, ghost rest: Rest)
    requires db.Valid() && AllServable(View(db.disk.files, db.maxSeries))
    requires Callable(op) && payload == Encode(RequestOf(op))
    modifies db.series, db.disk, set i | 0 <= i < db.series.Length :: db.series[i]
    ensures db.Valid() && db.SlotsKept() && AllServable(View(db.disk.files, db.maxSeries))
    ensures bytes == Frames(packets) && packets == Packets(View(old(db.disk.files), db.maxSeries), op, reply)
    ensures Carries(op, reply, rest, [], packets) && AllSendable(packets)
    ensures Step(View(old(db.disk.files), db.maxSeries), db.maxSeries, op, reply, View(db.disk.files, db.maxSeries))
  {
    hide Encode, Writes, AllSendable, Frames, Carries, Sound, View, Lookup, Step, AllServable, Validate, Decode,
         Served, Writable, Proper, Sendable, Callable, Packets;
    ghost var before := db.disk.files;
    RequestArrives(op);
    var client := new Client(Reliable);
    var status := ProcessMessage(client, payload, db);
    bytes, packets := client.sent, client.packets;
    assert packets[0..] == packets;
    reply, rest := AnswerCarries(before, db.disk.files, db.maxSeries, op, packets);
  }

  // ----- one client

  /** A client with its session and the server's connection to it; `state` is where it is in the dialogue. */
  class Peer {
    const session: Session
    const connection: Connection
    /** Inside session_write or session_truncate, which return with the reply. */
    var waiting: bool
    /** The open read is of the latest point. */
    var latest: bool
    /** The points taken of the open read. */
    var got: seq<Point>
    /** The replies the client has been given. */
    var results: seq<Reply>
    ghost var state: ClientState
    ghost var rest: Rest

    ghost function Repr(): set<object> {
      {this, session, connection, connection.buffer}
    }

    /** The session, the connection and the client are where the state says. */
    ghost predicate Valid()
      reads Repr()
    {
      && connection.Valid() && connection.connected && !connection.overlapped
      && Orderly(state) && AllSendable(state.sent)
      && results == state.told && session.readOpen == state.readOpen && waiting == Blocked(state)
      && match state.line
         case Quiet => session.incoming == [] && session.outgoing == [] && connection.length == 0 && got == []
         case Out(op, left) =>
           && session.incoming == [] && |session.outgoing| == left && got == [] && Callable(op)
           && (IsRead(op) ==> latest == op.ReadLatest?)
           && connection.buffer[..connection.length] + session.outgoing == Frame(Encode(RequestOf(op)))
         case Back(op, reply, packets) =>
           && session.incoming == Frames(packets) && session.outgoing == [] && connection.length == 0 && Callable(op)
           && (IsRead(op) ==> latest == op.ReadLatest?) && Carries(op, reply, rest, got, packets)
    }

    constructor ()
      ensures Valid() && fresh(Repr()) && state == NEW_CLIENT
    {
      hide Frame, Frames, Carries, Callable, Step;
      session := new Session();
      connection := new Connection();
      waiting, latest, got, results := false, false, [], [];
      state, rest := NEW_CLIENT, Rest([], 1, 0);
    }

    /** A call: refused while a read is open, else its request is on its way. */
    method Ask(op: Op) returns (r: int)
      requires Valid() && Callable(op) && !waiting
      modifies this, session
      ensures Valid() && state == AfterAsk(old(state), op)
      ensures r == if old(session.readOpen) then -1 else 0
    {
      hide Frame, Encode, Writes, OpsOf, RepliesOf, AllSendable, Frames, Carries, Orderly;
      AskOrderly(state, op);
      NotAsking(state);
      if op.ReadAll? {
        r := session.Read(op.id, op.begin, op.end);
      } else if op.ReadLatest? {
        r := session.ReadLatest(op.id);
      } else {
        r := session.Request(RequestOf(op));
      }
      state := AfterAsk(state, op);
      if r == 0 {
        waiting, latest := op.Write? || op.Truncate?, op.ReadLatest?;
        assert connection.buffer[..0] + session.outgoing == Frame(Encode(RequestOf(op)));
      }
    }

    /** The server reads `n` of the bytes on their way, and with the last of them has the request. */
    method ReadSome(n: nat) returns (delivered: Option<seq<byte>>)
      requires Valid() && state.line.Out? && 1 <= n <= state.line.left && n <= READ_BUFFER_MAX_LEN
      modifies this`state, session`outgoing, connection, connection.buffer
      ensures state.line.Out? && Callable(state.line.op)
      ensures n < old(state).line.left ==> Valid() && delivered == None && state == AfterRead(old(state), n)
      ensures n == old(state).line.left ==>
                && Handed() && state == old(state) && delivered == Some(Encode(RequestOf(state.line.op)))
    {
      hide Frame, Encode, Frames, Carries, Judge, HeaderSane, Validate, Decode, Proper, MessageStatus, Sendable,
           Callable, RequestOf, OpsOf, RepliesOf, AllSendable;
      ghost var payload := Encode(RequestOf(state.line.op));
      RequestArrives(state.line.op);
      ghost var complete := ReadOfFrame(payload, connection.buffer[..connection.length], session.outgoing, n);
      var chunk := session.outgoing[..n];
      session.outgoing := session.outgoing[n..];
      delivered := connection.OnDataRead(chunk, MessageStatus);
      if delivered.None? {
        state := AfterRead(state, n);
      }
    }

    /** The request is with the server, whole, and not handled yet. */
    ghost predicate Handed()
      reads Repr()
    {
      && connection.Valid() && connection.connected && !connection.overlapped
      && Orderly(state) && AllSendable(state.sent)
      && results == state.told && session.readOpen == state.readOpen && waiting == Blocked(state)
      && session.outgoing == [] && connection.length == 0 && got == []
      && state.line.Out? && Callable(state.line.op) && (IsRead(state.line.op) ==> latest == state.line.op.ReadLatest?)
    }

    /** The request is handled, as one step of the store, and the reply is on its way back. */
    method Reply(payload: seq<byte>, db: Database) returns (ghost reply: Reply)
      requires Handed() && payload == Encode(RequestOf(state.line.op))
      requires db.Valid() && AllServable(View(db.disk.files, db.maxSeries))
      modifies this, session`incoming, db.series, db.disk, set i | 0 <= i < db.series.Length :: db.series[i]
      ensures Valid() && db.Valid() && db.SlotsKept() && AllServable(View(db.disk.files, db.maxSeries))
      ensures var before, op := View(old(db.disk.files), db.maxSeries), old(state).line.op;
              && Step(before, db.maxSeries, op, reply, View(db.disk.files, db.maxSeries))
              && state == AfterHandled(old(state), reply, Packets(before, op, reply))
    {
      hide Frame, Encode, OpsOf, RepliesOf, Frames, Carries, Sound, View, Lookup, Step, AllServable, Callable,
           RequestOf, Sendable, Database.Valid, Connection.Valid, Packets, Orderly;
      ghost var packets;
      session.incoming, packets, reply, rest := Respond(db, payload, state.line.op);
      HandledOrderly(state, reply, packets);
      state := AfterHandled(state, reply, packets);
    }

    /** One read of the server. The last byte of a request makes it one step of the store; a read before it
        changes nothing stored. */
    method Arrive(n: nat, db: Database) returns (ghost done: seq<Exchange>)
      requires Valid() && db.Valid() && AllServable(View(db.disk.files, db.maxSeries))
      requires state.line.Out? && 1 <= n <= state.line.left && n <= READ_BUFFER_MAX_LEN
      modifies Repr(), db.series, db.disk, set i | 0 <= i < db.series.Length :: db.series[i]
      ensures Valid() && db.Valid() && db.SlotsKept() && AllServable(View(db.disk.files, db.maxSeries))
      ensures n < old(state).line.left ==>
                done == [] && db.disk.files == old(db.disk.files) && state == AfterRead(old(state), n)
      ensures n == old(state).line.left ==>
                var before, op := View(old(db.disk.files), db.maxSeries), old(state).line.op;
                && |done| == 1 && done[0].op == op
                && Step(before, db.maxSeries, op, done[0].reply, View(db.disk.files, db.maxSeries))
                && state == AfterHandled(old(state), done[0].reply, Packets(before, op, done[0].reply))
    {
      hide Encode, Sound, View, Lookup, Step, AllServable, RequestOf, Peer.Valid, Handed, Connection.Valid, Callable,
           Packets, Frame;
      var delivered := ReadSome(n);
      if delivered.None? {
        return [];
      }
      ghost var op := state.line.op;
      ghost var reply := Reply(delivered.value, db);
      done := [Exchange(op, reply)];
    }

    /** The client takes in the next packet of a reply. The last one, a status, an empty page or the latest
        point, completes the call. */
    method Take()
      requires Valid() && state.line.Back?
      modifies this, session
      ensures Valid() && state == AfterTake(old(state))
    {
      hide Frame, Encode, OpsOf, RepliesOf, Frames, Carries, Writes, RequestOf, AllSendable, Connection.Valid, Orderly;
      ghost var was, packets := state, state.line.packets;
      TakeOrderly(state);
      BackOpen(state);
      if waiting {
        var code := TakeStatus(session, was, rest, got);
        results, waiting := results + [Status(code)], false;
      } else if latest {
        var points := TakeLatest(session, was, rest, got);
        results := results + [Points(points)];
      } else {
        var more, page;
        more, page, rest := TakePage(session, was, rest, got);
        got := got + page;
        if !more {
          results, got := results + [Points(got)], [];
        }
      }
      state := AfterTake(state);
    }

    /** An event of this client; one that cannot happen yet, because the client is blocked or nothing is on
        its way, has no effect. */
    method Happen(e: Event, db: Database) returns (ghost done: seq<Exchange>)
      requires Valid() && !e.Connects? && !e.Restarts? && (e.Asks? ==> Callable(e.op))
      requires db.Valid() && AllServable(View(db.disk.files, db.maxSeries))
      modifies Repr(), db.series, db.disk, set k | 0 <= k < db.series.Length :: db.series[k]
      ensures Valid() && db.Valid() && db.SlotsKept() && AllServable(View(db.disk.files, db.maxSeries))
      ensures Acts(db.maxSeries, View(old(db.disk.files), db.maxSeries), old(state), e,
                   View(db.disk.files, db.maxSeries), state, done)
    {
      hide Callable, AllServable, View, Sound, Lookup, Step, AfterAsk, AfterTake, AfterHandled, Packets, Frame, Encode,
           Carries, Orderly, Connection.Valid;
      done := [];
      if e.Asks? {
        if !waiting {
          var r := Ask(e.op);
        } else {
          BlockedAsk(state, e.op);
        }
      } else if e.Reads? {
        var n := Min(e.n, Min(|session.outgoing|, READ_BUFFER_MAX_LEN));
        OutLeft(state);
        if n >= 1 {
          done := Arrive(n, db);
        }
      } else {
        NothingBack(state);
        BackFrames(state);
        if session.incoming != [] {
          Take();
        }
      }
    }
  }

  lemma NotAsking(s: ClientState)
    requires Orderly(s)
    ensures !Blocked(s) && !s.readOpen ==> s.line.Quiet?
  {
  }

  lemma BlockedAsk(s: ClientState, op: Op)
    requires Blocked(s) && Callable(op)
    ensures AfterAsk(s, op) == s
  {
  }

  lemma OutLeft(s: ClientState)
    requires Orderly(s)
    ensures s.line.Out? ==> s.line.left > 0
  {
  }

  lemma NothingBack(s: ClientState)
    ensures !s.line.Back? ==> AfterTake(s) == s
  {
  }

  lemma BackFrames(s: ClientState)
    requires Orderly(s)
    ensures s.line.Back? ==> Frames(s.line.packets) != []
  {
  }

  lemma BackOpen(s: ClientState)
    requires Orderly(s) && s.line.Back?
    ensures s.readOpen == IsRead(s.line.op)
  {
  }

  method TakeStatus(s: Session, ghost c: ClientState, ghost rest: Rest, ghost got: seq<Point>) returns (code: int)
    requires c.line.Back? && (c.line.op.Write? || c.line.op.Truncate?) && s.incoming == Frames(c.line.packets)
    requires Carries(c.line.op, c.line.reply, rest, got, c.line.packets)
    modifies s`incoming
    ensures c.line.reply == Status(code) && s.incoming == [] && |c.line.packets| == 1 && got == []
  {
    hide Frames, Received, Readable, StatusPacket, Validate, Decode;
    StatusArrives(c.line.reply.code);
    var r := s.SimpleResult();
    code := if r == 0 then 0 else -1;
  }

  method TakeLatest(s: Session, ghost c: ClientState, ghost rest: Rest, ghost got: seq<Point>)
    returns (points: seq<Point>)
    requires c.line.Back? && c.line.op.ReadLatest? && s.incoming == Frames(c.line.packets) && s.readOpen
    requires Carries(c.line.op, c.line.reply, rest, got, c.line.packets)
    modifies s`incoming, s`readOpen, s`response
    ensures c.line.reply == Points(points) && s.incoming == [] && |c.line.packets| == 1 && got == []
    ensures s.readOpen <==> points != []
  {
    hide Encode, Frames, Received, Readable, PointsIn, Validate, Decode, Offset, Uniform;
    PointsArrive(rest.points, rest.size);
    var more := s.ReadNext();
    points := if more then PointsIn(s.response.value) else [];
  }

  method TakePage(s: Session, ghost c: ClientState, ghost rest: Rest, ghost got: seq<Point>)
    returns (more: bool, page: seq<Point>, ghost rest': Rest)
    requires c.line.Back? && c.line.op.ReadAll? && s.incoming == Frames(c.line.packets) && s.readOpen
    requires Carries(c.line.op, c.line.reply, rest, got, c.line.packets)
    modifies s`incoming, s`readOpen, s`response
    ensures s.readOpen == more && (more <==> |c.line.packets| > 1)
    ensures more ==> Carries(c.line.op, c.line.reply, rest', got + page, c.line.packets[1..])
    ensures more ==> s.incoming == Frames(c.line.packets[1..]) && page != []
    ensures !more ==> c.line.reply == Points(got + page) && s.incoming == []
  {
    hide Answer, Frames;
    ghost var left, n := rest.points, Min(rest.p, |rest.points|);
    NothingAfter(Answer(left, rest.p, rest.size));
    AnswerStep(left, rest.p, rest.size);
    more, page := NextPackets(s, left, rest.p, rest.size, []);
    rest' := rest.(points := left[n..]);
    NothingAfter(Answer(rest'.points, rest.p, rest.size));
    assert left == page + rest'.points;
    Assoc(got, page, rest'.points);
  }

  /** A read of some of the bytes of a frame: either more are to come, or it completes the frame. */
  lemma ReadOfFrame(payload: seq<byte>, buffered: seq<byte>, coming: seq<byte>, n: nat) returns (complete: bool)
    requires Sendable(payload) && buffered + coming == Frame(payload) && 1 <= n <= |coming|
    ensures complete <==> n == |coming|
    ensures HeaderSane(buffered + coming[..n]) && |buffered| + n <= PACKET_MAX_LEN
    ensures Judge(buffered + coming[..n]) == if complete then Deliver(payload, []) else Wait
    ensures buffered + coming[..n] + coming[n..] == Frame(payload)
  {
    hide Frame, Judge, HeaderSane;
    complete := n == |coming|;
    assert coming[..n] + coming[n..] == coming;
    Assoc(buffered, coming[..n], coming[n..]);
    if complete {
      assert coming[..n] == coming && Frame(payload) + [] == Frame(payload);
      JudgeFrame(payload, []);
    } else {
      JudgePrefix(payload, buffered + coming[..n]);
    }
  }

  // ----- all clients

  ghost predicate AllValid(peers: seq<Peer>)
    reads set p | p in peers, set p | p in peers :: p.session, set p | p in peers :: p.connection,
          set p | p in peers :: p.connection.buffer
  {
    forall i :: 0 <= i < |peers| ==> peers[i].Valid()
  }

  /** Clients share nothing. */
  ghost predicate Apart(peers: seq<Peer>) {
    forall i, j :: 0 <= i < j < |peers| ==> peers[i].Repr() !! peers[j].Repr()
  }

  /** The clients and the directory are where the world says. */
  ghost predicate Shows(peers: seq<Peer>, files: Files, max: nat, w: World)
    reads set p | p in peers
  {
    && w.store == View(files, max) && |w.clients| == |peers|
    && forall i :: 0 <= i < |peers| ==> peers[i].state == w.clients[i]
  }

  /** A new client. */
  method Connect(peers: seq<Peer>, ghost files: Files, ghost max: nat, ghost w: World)
    returns (more: seq<Peer>, ghost w': World)
    requires AllValid(peers) && Apart(peers) && Shows(peers, files, max, w)
    ensures AllValid(more) && Apart(more) && Shows(more, files, max, w') && Moves(max, w, Connects, w')
    ensures |more| == |peers| + 1 && more[..|peers|] == peers && fresh(more[|peers|].Repr())
  {
    hide OpsOf, RepliesOf, AllSendable, Frames, Frame, Carries, Callable, Connection.Valid, Orderly;
    var p := new Peer();
    more := peers + [p];
    w' := w.(clients := w.clients + [NEW_CLIENT]);
    forall i | 0 <= i < |more| ensures more[i].Valid() {
      assert i < |peers| ==> old(peers[i].Valid());
    }
  }

  /** An event of one client. */
  method Proceed(peers: seq<Peer>, db: Database, e: Event, ghost w: World) returns (ghost w': World)
    requires !e.Connects? && !e.Restarts? && Live(w, e.client) && (e.Asks? ==> Callable(e.op))
    requires AllValid(peers) && Apart(peers) && Shows(peers, db.disk.files, db.maxSeries, w)
    requires db.Valid() && AllServable(View(db.disk.files, db.maxSeries))
    modifies peers[e.client].Repr(), db.series, db.disk, set k | 0 <= k < db.series.Length :: db.series[k]
    ensures AllValid(peers) && db.Valid() && db.SlotsKept() && AllServable(View(db.disk.files, db.maxSeries))
    ensures Shows(peers, db.disk.files, db.maxSeries, w') && Moves(db.maxSeries, w, e, w') && w'.first == w.first
  {
    hide Callable, AllServable, View, Sound, Lookup, Acts, Peer.Valid;
    var p := peers[e.client];
    assert forall j :: 0 <= j < |peers| && j != e.client ==> peers[j].Repr() !! p.Repr();
    ghost var done := p.Happen(e, db);
    w' := World(View(db.disk.files, db.maxSeries), w.clients[e.client := p.state], w.first,
                w.log + Tag(e.client, done));
    assert Advances(db.maxSeries, w, e, w', p.state, done);
  }

  /** Whatever clients do and in whatever order, however their requests are cut into reads and wherever the
      server restarts: the clients, their sessions and the directory go through a history of the dialogue. */
  method Play(disk: Disk, max: nat, events: seq<Event>) returns (peers: seq<Peer>, ghost worlds: seq<World>)
    requires Sound(disk.files, max) && AllServable(View(disk.files, max))
    requires forall i :: 0 <= i < |events| && events[i].Asks? ==> Callable(events[i].op)
    modifies disk
    ensures Sound(disk.files, max) && IsHistory(max, View(old(disk.files), max), events, worlds)
    ensures AllValid(peers) && Shows(peers, disk.files, max, worlds[|events|])
  {
    hide Sound, View, Lookup, AllServable, Callable, Peer.Valid, Moves;
    ghost var start := View(disk.files, max);
    peers, worlds := [], [World(start, [], 0, [])];
    var first := 0;
    var db := new Database(disk, max);
    for k := 0 to |events|
      invariant db.Valid() && db.disk == disk && db.maxSeries == max && OpenedSince(db)
      invariant AllServable(View(disk.files, max)) && IsHistory(max, start, events[..k], worlds)
      invariant AllValid(peers) && Apart(peers) && forall i :: 0 <= i < |peers| ==> fresh(peers[i].Repr())
      invariant Shows(peers, disk.files, max, worlds[k]) && first == worlds[k].first
    {
      var e := events[k];
      ghost var w, w' := worlds[k], worlds[k];
      if e.Connects? {
        peers, w' := Connect(peers, disk.files, max, w);
        ConnectKeepsFirst(max, w, w');
      } else if e.Restarts? {
        db := new Database(disk, max);
        first := |peers|;
        w' := w.(first := |peers|);
        RestartMoves(max, w, w');
      } else if first <= e.client < |peers| {
        w' := Proceed(peers, db, e, w);
      } else {
        GoneMoves(max, w, e);
      }
      HistoryGoesOn(max, start, events[..k], worlds, e, w');
      assert events[..k] + [e] == events[..k + 1];
      worlds := worlds + [w'];
    }
    assert events[..|events|] == events;
  }

  /** In the history that events go through the handled calls are a run of the store. There are as many clients
      as connected; each asked for what it called while it could, and was told the replies of its own calls,
      in order; one with nothing on the wire was told all of them. */
  method Converse(disk: Disk, max: nat, events: seq<Event>) returns (peers: seq<Peer>, ghost worlds: seq<World>)
    requires Sound(disk.files, max) && AllServable(View(disk.files, max))
    requires forall i :: 0 <= i < |events| && events[i].Asks? ==> Callable(events[i].op)
    modifies disk
    ensures Sound(disk.files, max) && IsHistory(max, View(old(disk.files), max), events, worlds)
    ensures AllValid(peers) && Shows(peers, disk.files, max, worlds[|events|])
    ensures |peers| == CountConnects(events)
    ensures IsRun(View(old(disk.files), max), max, worlds[|events|].log, View(disk.files, max))
    ensures forall i :: 0 <= i < |peers| ==>
              peers[i].state.asked == Accepted(events, worlds, i) && Told(peers[i], Mine(worlds[|events|].log, i))
  {
    hide Sound, View, AllServable, Callable, Peer.Valid, Moves, Mine, Orderly, IsRun, Accepted, Told;
    ghost var start := View(disk.files, max);
    peers, worlds := Play(disk, max, events);
    assert events[..|events|] == events;
    HistoryKeeps(max, start, events, worlds, |events|);
    EveryoneConnected(max, start, events, worlds, |events|);
    forall i | 0 <= i < |peers|
      ensures peers[i].state.asked == Accepted(events, worlds, i) && Told(peers[i], Mine(worlds[|events|].log, i))
    {
      AskedIsAccepted(max, start, events, worlds, |events|, i);
      ToldInOrder(peers[i], Mine(worlds[|events|].log, i));
    }
  }

  /** What a client was given: the replies of its handled calls, except for at most the last one. With
      nothing on the wire it was given all of them, and all its calls are handled. */
  ghost predicate Told(p: Peer, mine: seq<Exchange>)
    reads p, p.session
  {
    && OpsOf(mine) <= p.state.asked && |p.state.asked| <= |mine| + 1
    && p.results <= RepliesOf(mine) && |mine| <= |p.results| + 1 && AllSendable(p.state.sent)
    && (p.session.incoming == [] && p.session.outgoing == [] ==>
          p.state.asked == OpsOf(mine) && p.results == RepliesOf(mine))
  }

  lemma ToldInOrder(p: Peer, mine: seq<Exchange>)
    requires p.Valid() && p.state.handled == mine
    ensures Told(p, mine)
  {
    hide OpsOf, RepliesOf, AllSendable, Frame, Frames, Carries, Callable, Connection.Valid;
    OutLeft(p.state);
    BackFrames(p.state);
  }

  lemma ConnectKeepsFirst(max: nat, w: World, w': World)
    requires Moves(max, w, Connects, w')
    ensures w'.first == w.first
  {
  }

  lemma RestartMoves(max: nat, w: World, w': World)
    requires w' == w.(first := |w.clients|)
    ensures Moves(max, w, Restarts, w')
  {
  }

  lemma GoneMoves(max: nat, w: World, e: Event)
    requires !e.Connects? && !e.Restarts? && !Live(w, e.client)
    ensures Moves(max, w, e, w)
  {
  }

  lemma HistoryGoesOn(max: nat, start: Store, events: seq<Event>, worlds: seq<World>, e: Event, w': World)
    requires IsHistory(max, start, events, worlds) && Moves(max, worlds[|events|], e, w')
    ensures IsHistory(max, start, events + [e], worlds + [w'])
  {
    hide Moves;
  }
}
