/** What clients and the server do, call by call: a machine over requests, packets and the store, without
    sessions, buffers or files. */
module Dialogue {
  import opened Bytes
  import opened DataPoint
  import opened FileNames
  import opened DatabaseRuns
  import opened Protocol
  import opened Server
  import opened ClientHandler
  import opened EndToEnd

  // ----- calls

  /** A call a client can make; a range is always read whole. */
  predicate Callable(op: Op) {
    match op
    case Write(id, size, batch) => Writes(id, size, batch)
    case Truncate(_) => true
    case ReadAll(_, _, _) => true
    case ReadLatest(_) => true
    case _ => false
  }

  /** The request a call sends. */
  function RequestOf(op: Op): Message
    requires Callable(op)
  {
    match op
    case Write(id, size, batch) => WriteOf(id, size, batch)
    case Truncate(id) => TruncateRequest(id)
    case ReadAll(id, begin, end) => ReadRequest(id, begin, end)
    case ReadLatest(id) => ReadLatestRequest(id)
  }

  predicate IsRead(op: Op) {
    op.ReadAll? || op.ReadLatest?
  }

  /** The stored point size of an id, zero for an unknown one. */
  function SizeIn(store: Store, id: uint32): uint32 {
    if id in store && store[id].pointSize < 0x1_0000_0000 then store[id].pointSize else 0
  }

  /** The packets that carry a reply. */
  function Packets(store: Store, op: Op, reply: Reply): (packets: seq<seq<byte>>)
    ensures |packets| >= 1
  {
    match reply
    case Status(code) => [StatusPacket(code)]
    case Points(points) =>
      if op.ReadAll? then Paged(points, SizeIn(store, op.id), op.begin, op.end)
      else if op.ReadLatest? && |points| < U64 then [Encode(Response(points, SizeIn(store, op.id)))]
      else [[]]
    case Restarted => [[]]
  }

  function Paged(points: seq<Point>, size: uint32, begin: timestamp, end: timestamp): (packets: seq<seq<byte>>)
    ensures |packets| >= 1
  {
    if size == 0 then [Encode(Response([], 0))]
    else
      PacketBound(size);
      Answer(points, PointsPerPacket(size), if begin > end then 0 else size)
  }

  /** The packets of a range: one for every page of points begun, an empty one, and together the points. */
  lemma PacketsInPages(store: Store, op: Op, points: seq<Point>)
    requires op.ReadAll? && SizeIn(store, op.id) > 0
    ensures 1 <= PointsPerPacket(SizeIn(store, op.id)) < U64
    ensures InPages(Packets(store, op, Points(points)), points, PointsPerPacket(SizeIn(store, op.id)),
                    if op.begin > op.end then 0 else SizeIn(store, op.id))
    ensures FullPages(Packets(store, op, Points(points)), points, SizeIn(store, op.id),
                      if op.begin > op.end then 0 else SizeIn(store, op.id))
  {
    var size := SizeIn(store, op.id);
    PacketBound(size);
    hide SizeIn, InPages, Answer, PointsPerPacket, FullPages;
    AnswerInPages(points, PointsPerPacket(size), if op.begin > op.end then 0 else size);
    InFullPages(Packets(store, op, Points(points)), points, size, if op.begin > op.end then 0 else size);
  }

  // ----- one client

  /** A handled call and its reply. */
  datatype Exchange = Exchange(op: Op, reply: Reply)

  function OpsOf(handled: seq<Exchange>): (ops: seq<Op>)
    ensures |ops| == |handled|
  {
    if |handled| == 0 then [] else OpsOf(handled[..|handled| - 1]) + [handled[|handled| - 1].op]
  }

  function RepliesOf(handled: seq<Exchange>): (replies: seq<Reply>)
    ensures |replies| == |handled|
  {
    if |handled| == 0 then [] else RepliesOf(handled[..|handled| - 1]) + [handled[|handled| - 1].reply]
  }

  lemma OneMoreExchange(handled: seq<Exchange>, x: Exchange)
    ensures OpsOf(handled + [x]) == OpsOf(handled) + [x.op]
    ensures RepliesOf(handled + [x]) == RepliesOf(handled) + [x.reply]
  {
    assert (handled + [x])[..|handled|] == handled;
  }

  /** Nothing under way; a request of which the server has `left` bytes still to read; or a reply of which
      the client has these packets still to take in. */
  datatype Line =
    | Quiet
    | Out(op: Op, left: nat)
    | Back(op: Op, reply: Reply, packets: seq<seq<byte>>)

  /** The calls of a client that were not refused, those handled, the replies it was told, the packets sent
      to it, whether it has a read open, and what is under way. */
  datatype ClientState = ClientState(asked: seq<Op>, handled: seq<Exchange>, told: seq<Reply>, sent: seq<seq<byte>>,
                                     readOpen: bool, line: Line)

  const NEW_CLIENT := ClientState([], [], [], [], false, Quiet)

  /** Inside session_write or session_truncate, which return with the reply. */
  predicate Blocked(s: ClientState) {
    !s.line.Quiet? && !IsRead(s.line.op)
  }

  /** A call is refused while a read is open. */
  function AfterAsk(s: ClientState, op: Op): ClientState
    requires Callable(op)
  {
    if Blocked(s) || s.readOpen then s
    else s.(asked := s.asked + [op], readOpen := IsRead(op), line := Out(op, |Frame(Encode(RequestOf(op)))|))
  }

  /** How many bytes a read of up to `n` takes of what is on its way. */
  function ReadLength(s: ClientState, n: nat): nat {
    if s.line.Out? then Min(n, Min(s.line.left, READ_BUFFER_MAX_LEN)) else 0
  }

  function AfterRead(s: ClientState, k: nat): ClientState
    requires s.line.Out? && k <= s.line.left
  {
    s.(line := Out(s.line.op, s.line.left - k))
  }

  function AfterHandled(s: ClientState, reply: Reply, packets: seq<seq<byte>>): ClientState
    requires s.line.Out?
  {
    s.(handled := s.handled + [Exchange(s.line.op, reply)], sent := s.sent + packets,
       line := Back(s.line.op, reply, packets))
  }

  /** The last packet of a reply completes the call. A latest read with a point stays open. */
  function AfterTake(s: ClientState): ClientState {
    if !s.line.Back? then s
    else if |s.line.packets| > 1 then s.(line := s.line.(packets := s.line.packets[1..]))
    else s.(told := s.told + [s.line.reply], line := Quiet,
            readOpen := s.line.op.ReadLatest? && s.line.reply != Points([]))
  }

  /** Replies are told in the order of the calls; only the last call can be under way. */
  predicate Orderly(s: ClientState) {
    match s.line
    case Quiet => s.asked == OpsOf(s.handled) && s.told == RepliesOf(s.handled)
    case Out(op, left) =>
      && s.asked == OpsOf(s.handled) + [op] && s.told == RepliesOf(s.handled)
      && left > 0 && s.readOpen == IsRead(op)
    case Back(op, reply, packets) =>
      && s.asked == OpsOf(s.handled) && s.told + [reply] == RepliesOf(s.handled)
      && |packets| > 0 && IsSuffix(packets, s.sent) && s.readOpen == IsRead(op)
  }

  predicate IsSuffix(a: seq<seq<byte>>, b: seq<seq<byte>>) {
    |a| <= |b| && b[|b| - |a|..] == a
  }

  lemma AskOrderly(s: ClientState, op: Op)
    requires Orderly(s) && Callable(op)
    ensures Orderly(AfterAsk(s, op))
  {
    hide OpsOf, RepliesOf, Frame, Encode;
    FrameNotEmpty(op);
  }

  lemma FrameNotEmpty(op: Op)
    requires Callable(op)
    ensures |Frame(Encode(RequestOf(op)))| > 0
  {
  }

  lemma HandledOrderly(s: ClientState, reply: Reply, packets: seq<seq<byte>>)
    requires Orderly(s) && s.line.Out? && |packets| > 0
    ensures Orderly(AfterHandled(s, reply, packets))
  {
    hide OpsOf, RepliesOf;
    OneMoreExchange(s.handled, Exchange(s.line.op, reply));
  }

  lemma TakeOrderly(s: ClientState)
    requires Orderly(s)
    ensures Orderly(AfterTake(s))
  {
    hide OpsOf, RepliesOf;
  }

  // ----- all clients

  /** What can happen: a client connects, makes a call or takes in a packet, the server reads up to `n`
      bytes of a request, or it starts again and its connections are gone. */
  datatype Event =
    | Connects
    | Asks(client: nat, op: Op)
    | Reads(client: nat, n: nat)
    | Takes(client: nat)
    | Restarts

  /** A call handled for a client. */
  datatype Logged = Logged(client: nat, exchange: Exchange)

  function Exchanges(log: seq<Logged>): seq<Exchange> {
    if |log| == 0 then [] else Exchanges(log[..|log| - 1]) + [log[|log| - 1].exchange]
  }

  /** The part of a log that belongs to one client. */
  function Mine(log: seq<Logged>, i: nat): seq<Exchange> {
    if |log| == 0 then []
    else
      var last := log[|log| - 1];
      Mine(log[..|log| - 1], i) + if last.client == i then [last.exchange] else []
  }

  lemma OneMoreLogged(log: seq<Logged>, l: Logged)
    ensures Exchanges(log + [l]) == Exchanges(log) + [l.exchange]
    ensures Mine(log + [l], l.client) == Mine(log, l.client) + [l.exchange]
    ensures forall i: nat :: i != l.client ==> Mine(log + [l], i) == Mine(log, i)
  {
    assert (log + [l])[..|log|] == log;
  }

  /** The store, the clients, how many of them were there before the last restart, and what was handled. */
  datatype World = World(store: Store, clients: seq<ClientState>, first: nat, log: seq<Logged>)

  /** The connection of a client is of this server run. */
  predicate Live(w: World, i: nat) {
    w.first <= i < |w.clients|
  }

  /** An event of a live client; `done` is the call it completes, if any. */
  ghost predicate Acts(max: nat, store: Store, s: ClientState, e: Event, store': Store, s': ClientState,
                       done: seq<Exchange>)
  {
    match e
    case Asks(_, op) => store' == store && done == [] && Callable(op) && s' == AfterAsk(s, op)
    case Takes(_) => store' == store && done == [] && s' == AfterTake(s)
    case Reads(_, n) =>
      var k := ReadLength(s, n);
      if k == 0 then store' == store && done == [] && s' == s
      else if k < s.line.left then store' == store && done == [] && s' == AfterRead(s, k)
      else
        && |done| == 1 && done[0].op == s.line.op && Step(store, max, s.line.op, done[0].reply, store')
        && s' == AfterHandled(s, done[0].reply, Packets(store, s.line.op, done[0].reply))
    case _ => false
  }

  function Tag(i: nat, done: seq<Exchange>): seq<Logged> {
    if |done| == 0 then [] else [Logged(i, done[0])]
  }

  ghost predicate Moves(max: nat, w: World, e: Event, w': World) {
    match e
    case Connects => w' == w.(clients := w.clients + [NEW_CLIENT])
    case Restarts => w' == w.(first := |w.clients|)
    case _ =>
      if !Live(w, e.client) then w' == w else exists s', done :: Advances(max, w, e, w', s', done)
  }

  /** One live client goes on to `s'`, and nobody else does anything. */
  ghost predicate Advances(max: nat, w: World, e: Event, w': World, s': ClientState, done: seq<Exchange>)
    requires !e.Connects? && !e.Restarts? && Live(w, e.client)
  {
    && Acts(max, w.store, w.clients[e.client], e, w'.store, s', done)
    && w' == World(w'.store, w.clients[e.client := s'], w.first, w.log + Tag(e.client, done))
  }

  /** The worlds that events go through, from a store and no clients. */
  ghost predicate IsHistory(max: nat, start: Store, events: seq<Event>, worlds: seq<World>) {
    && |worlds| == |events| + 1 && worlds[0] == World(start, [], 0, [])
    && forall k :: 0 <= k < |events| ==> Moves(max, worlds[k], events[k], worlds[k + 1])
  }

  lemma HistoryLength(max: nat, start: Store, events: seq<Event>, worlds: seq<World>)
    requires IsHistory(max, start, events, worlds)
    ensures |worlds| == |events| + 1
  {
    hide Moves;
  }

  lemma HistoryStep(max: nat, start: Store, events: seq<Event>, worlds: seq<World>, k: nat)
    requires IsHistory(max, start, events, worlds) && k < |events|
    ensures Moves(max, worlds[k], events[k], worlds[k + 1])
  {
    hide Moves;
  }

  // ----- what every history keeps

  /** The run of the store that a log stands for. */
  ghost predicate IsRun(start: Store, max: nat, log: seq<Logged>, now: Store) {
    Runs(start, max, OpsOf(Exchanges(log)), RepliesOf(Exchanges(log)), now)
  }

  lemma RunGoesOn(start: Store, max: nat, log: seq<Logged>, mid: Store, l: Logged, now: Store)
    requires IsRun(start, max, log, mid) && Step(mid, max, l.exchange.op, l.exchange.reply, now)
    ensures IsRun(start, max, log + [l], now)
  {
    hide Step, Runs;
    OneMoreLogged(log, l);
    OneMoreExchange(Exchanges(log), l.exchange);
    RunsSnoc(start, max, OpsOf(Exchanges(log)), RepliesOf(Exchanges(log)), mid, l.exchange.op, l.exchange.reply, now);
  }

  /** Every client is orderly, and what was handled for it is its part of the log. */
  predicate Consistent(w: World) {
    && (forall i :: 0 <= i < |w.clients| ==> Orderly(w.clients[i]) && w.clients[i].handled == Mine(w.log, i))
    && (forall j :: 0 <= j < |w.log| ==> w.log[j].client < |w.clients|)
  }

  lemma {:induction false} NotMine(log: seq<Logged>, i: nat)
    requires forall j :: 0 <= j < |log| ==> log[j].client < i
    ensures Mine(log, i) == []
  {
    if |log| > 0 {
      NotMine(log[..|log| - 1], i);
    }
  }

  lemma ActsOrderly(max: nat, store: Store, s: ClientState, e: Event, store': Store, s': ClientState,
                    done: seq<Exchange>)
    requires Orderly(s) && Acts(max, store, s, e, store', s', done)
    ensures Orderly(s') && s'.handled == s.handled + done && |done| <= 1
    ensures s.asked <= s'.asked && s.told <= s'.told && s.sent <= s'.sent
    ensures done == [] ==> store' == store
    ensures done != [] ==> Step(store, max, done[0].op, done[0].reply, store')
  {
    hide OpsOf, RepliesOf, Packets, Step, RequestOf, Callable, Frame, Encode;
    match e
    case Asks(_, op) => AskOrderly(s, op);
    case Takes(_) => TakeOrderly(s);
    case Reads(_, n) =>
      if 0 < ReadLength(s, n) == s.line.left {
        HandledOrderly(s, done[0].reply, Packets(store, s.line.op, done[0].reply));
      }
  }

  lemma MoveKeeps(max: nat, start: Store, w: World, e: Event, w': World)
    requires Consistent(w) && IsRun(start, max, w.log, w.store) && Moves(max, w, e, w')
    ensures Consistent(w') && IsRun(start, max, w'.log, w'.store)
  {
    hide IsRun, Advances, Orderly, Mine;
    if e.Connects? {
      NotMine(w.log, |w.clients|);
      NewOrderly();
    } else if !e.Restarts? && Live(w, e.client) {
      var s', done :| Advances(max, w, e, w', s', done);
      AdvanceKeeps(max, start, w, e, w', s', done);
    }
  }

  lemma AdvanceKeeps(max: nat, start: Store, w: World, e: Event, w': World, s': ClientState, done: seq<Exchange>)
    requires Consistent(w) && IsRun(start, max, w.log, w.store)
    requires !e.Connects? && !e.Restarts? && Live(w, e.client) && Advances(max, w, e, w', s', done)
    ensures Consistent(w') && IsRun(start, max, w'.log, w'.store)
  {
    hide IsRun, Acts, Orderly, Mine, Step;
    var i := e.client;
    ActsOrderly(max, w.store, w.clients[i], e, w'.store, s', done);
    if done == [] {
      assert w'.log == w.log;
    } else {
      OneMoreLogged(w.log, Logged(i, done[0]));
      assert done == [done[0]];
      RunGoesOn(start, max, w.log, w.store, Logged(i, done[0]), w'.store);
    }
  }

  lemma NewOrderly()
    ensures Orderly(NEW_CLIENT)
  {
  }

  lemma NothingYet(max: nat, start: Store, events: seq<Event>, worlds: seq<World>)
    requires IsHistory(max, start, events, worlds)
    ensures Consistent(worlds[0]) && IsRun(start, max, worlds[0].log, worlds[0].store)
  {
    hide Moves;
  }

  /** In every history the handled calls are a run of the store, and every client is orderly within it. */
  lemma {:induction false} HistoryKeeps(max: nat, start: Store, events: seq<Event>, worlds: seq<World>, k: nat)
    requires IsHistory(max, start, events, worlds) && k <= |events|
    ensures Consistent(worlds[k]) && IsRun(start, max, worlds[k].log, worlds[k].store)
  {
    HistoryLength(max, start, events, worlds);
    if k == 0 {
      NothingYet(max, start, events, worlds);
    } else {
      hide Consistent, IsRun, Moves, IsHistory;
      HistoryKeeps(max, start, events, worlds, k - 1);
      HistoryStep(max, start, events, worlds, k - 1);
      MoveKeeps(max, start, worlds[k - 1], events[k - 1], worlds[k]);
    }
  }

  lemma ClientOrderly(max: nat, start: Store, events: seq<Event>, worlds: seq<World>, i: nat, k: nat)
    requires IsHistory(max, start, events, worlds) && k <= |events| && i < |worlds[k].clients|
    ensures Orderly(worlds[k].clients[i]) && worlds[k].clients[i].handled == Mine(worlds[k].log, i)
  {
    HistoryKeeps(max, start, events, worlds, k);
    hide IsRun, Orderly, Mine, Moves;
  }

  function CountConnects(events: seq<Event>): nat {
    if |events| == 0 then 0
    else CountConnects(events[..|events| - 1]) + if events[|events| - 1].Connects? then 1 else 0
  }

  /** There are as many clients as connected. */
  lemma {:induction false} EveryoneConnected(max: nat, start: Store, events: seq<Event>, worlds: seq<World>, k: nat)
    requires IsHistory(max, start, events, worlds) && k <= |events|
    ensures |worlds[k].clients| == CountConnects(events[..k])
  {
    if k > 0 {
      EveryoneConnected(max, start, events, worlds, k - 1);
      assert events[..k][..k - 1] == events[..k - 1];
      hide Acts;
    }
  }

  /** The calls of a client that found it connected, not blocked and without an open read, in order. */
  function Accepted(events: seq<Event>, worlds: seq<World>, i: nat): seq<Op>
    requires |events| <= |worlds|
  {
    if |events| == 0 then []
    else
      var e, w := events[|events| - 1], worlds[|events| - 1];
      Accepted(events[..|events| - 1], worlds, i) +
      if e.Asks? && e.client == i && Live(w, i) && !Blocked(w.clients[i]) && !w.clients[i].readOpen then [e.op] else []
  }

  /** A client asked exactly for what it called while it could. */
  lemma {:induction false} AskedIsAccepted(max: nat, start: Store, events: seq<Event>, worlds: seq<World>, k: nat,
                                           i: nat)
    requires IsHistory(max, start, events, worlds) && k <= |events|
    ensures if i < |worlds[k].clients| then worlds[k].clients[i].asked == Accepted(events[..k], worlds, i)
            else Accepted(events[..k], worlds, i) == []
  {
    if k > 0 {
      AskedIsAccepted(max, start, events, worlds, k - 1, i);
      assert events[..k][..k - 1] == events[..k - 1];
      MoveAsks(max, worlds[k - 1], events[k - 1], worlds[k], i);
      hide Moves;
    }
  }

  lemma MoveAsks(max: nat, w: World, e: Event, w': World, i: nat)
    requires Moves(max, w, e, w')
    ensures |w.clients| <= |w'.clients| <= |w.clients| + 1
    ensures i < |w.clients| ==>
              w'.clients[i].asked == w.clients[i].asked
                + if e.Asks? && e.client == i && Live(w, i) && !Blocked(w.clients[i]) && !w.clients[i].readOpen
                  then [e.op] else []
    ensures |w.clients| <= i < |w'.clients| ==> w'.clients[i].asked == []
  {
    hide Step, Packets, Frame, Encode;
  }

  // ----- a call that is read and taken in is told

  /** How many of the events `a..b` read from a client at all, and how many are packets it takes in. */
  function ReadsOf(events: seq<Event>, i: nat, a: nat, b: nat): nat
    requires a <= b <= |events|
  {
    if a == b then 0
    else
      var e := events[b - 1];
      ReadsOf(events, i, a, b - 1) + if e.Reads? && e.client == i && e.n > 0 then 1 else 0
  }

  function TakesOf(events: seq<Event>, i: nat, a: nat, b: nat): nat
    requires a <= b <= |events|
  {
    if a == b then 0 else TakesOf(events, i, a, b - 1) + if events[b - 1] == Takes(i) then 1 else 0
  }

  predicate NoRestart(events: seq<Event>, a: nat, b: nat)
    requires a <= b <= |events|
  {
    forall k :: a <= k < b ==> !events[k].Restarts?
  }

  /** A request under way is handled, or has come as much nearer as it was read from. */
  predicate Nearer(before: ClientState, after: ClientState, times: nat)
    requires before.line.Out?
  {
    || |after.handled| > |before.handled|
    || (after.handled == before.handled && after.line.Out? && after.line.left + times <= before.line.left)
  }

  /** A reply under way is told, or as many of its packets are taken in. */
  predicate Taken(before: ClientState, after: ClientState, takes: nat)
    requires before.line.Back?
  {
    || |after.told| > |before.told|
    || (after.told == before.told && after.line.Back? && |after.line.packets| + takes <= |before.line.packets|)
  }

  lemma ActsNearer(max: nat, store: Store, s0: ClientState, times: nat, s: ClientState, e: Event, store': Store,
                   s': ClientState, done: seq<Exchange>)
    requires s0.line.Out? && Nearer(s0, s, times) && Orderly(s) && Acts(max, store, s, e, store', s', done)
    ensures Nearer(s0, s', times + if e.Reads? && e.n > 0 then 1 else 0)
  {
    hide OpsOf, RepliesOf, Packets, Step, Callable, Frame, Encode;
    ActsOrderly(max, store, s, e, store', s', done);
  }

  lemma ActsTaken(max: nat, store: Store, s0: ClientState, takes: nat, s: ClientState, e: Event, store': Store,
                  s': ClientState, done: seq<Exchange>)
    requires s0.line.Back? && Taken(s0, s, takes) && Orderly(s) && Acts(max, store, s, e, store', s', done)
    ensures Taken(s0, s', takes + if e.Takes? then 1 else 0)
  {
    hide OpsOf, RepliesOf, Packets, Step, Callable, Frame, Encode;
    ActsOrderly(max, store, s, e, store', s', done);
  }

  /** Without a restart a live client stays live; an event of another leaves it as it is. */
  lemma StaysLive(max: nat, w: World, e: Event, w': World, i: nat)
    requires Moves(max, w, e, w') && Live(w, i) && !e.Restarts?
    ensures Live(w', i)
    ensures e.Connects? || e.client != i ==> w'.clients[i] == w.clients[i]
    ensures !e.Connects? && e.client == i ==>
              exists done :: Acts(max, w.store, w.clients[i], e, w'.store, w'.clients[i], done)
  {
    hide Acts;
    if !e.Connects? && Live(w, e.client) {
      var s', done :| Advances(max, w, e, w', s', done);
      assert w'.clients[e.client] == s';
    }
  }

  lemma {:induction false} ReadOn(max: nat, start: Store, events: seq<Event>, worlds: seq<World>, i: nat, a: nat,
                                  b: nat)
    requires IsHistory(max, start, events, worlds) && a <= b <= |events| && NoRestart(events, a, b)
    requires Live(worlds[a], i) && worlds[a].clients[i].line.Out?
    ensures Live(worlds[b], i) && Nearer(worlds[a].clients[i], worlds[b].clients[i], ReadsOf(events, i, a, b))
    decreases b - a
  {
    if a < b {
      ReadOn(max, start, events, worlds, i, a, b - 1);
      var w, e, w' := worlds[b - 1], events[b - 1], worlds[b];
      hide Moves, Nearer, Orderly, Acts;
      ClientOrderly(max, start, events, worlds, i, b - 1);
      StaysLive(max, w, e, w', i);
      if !e.Connects? && e.client == i {
        var done :| Acts(max, w.store, w.clients[i], e, w'.store, w'.clients[i], done);
        ActsNearer(max, w.store, worlds[a].clients[i], ReadsOf(events, i, a, b - 1), w.clients[i], e, w'.store,
                   w'.clients[i], done);
      }
    }
  }

  lemma {:induction false} TakeOn(max: nat, start: Store, events: seq<Event>, worlds: seq<World>, i: nat, a: nat,
                                  b: nat)
    requires IsHistory(max, start, events, worlds) && a <= b <= |events| && NoRestart(events, a, b)
    requires Live(worlds[a], i) && worlds[a].clients[i].line.Back?
    ensures Live(worlds[b], i) && Taken(worlds[a].clients[i], worlds[b].clients[i], TakesOf(events, i, a, b))
    decreases b - a
  {
    if a < b {
      TakeOn(max, start, events, worlds, i, a, b - 1);
      var w, e, w' := worlds[b - 1], events[b - 1], worlds[b];
      hide Moves, Taken, Orderly, Acts;
      ClientOrderly(max, start, events, worlds, i, b - 1);
      StaysLive(max, w, e, w', i);
      if !e.Connects? && e.client == i {
        var done :| Acts(max, w.store, w.clients[i], e, w'.store, w'.clients[i], done);
        ActsTaken(max, w.store, worlds[a].clients[i], TakesOf(events, i, a, b - 1), w.clients[i], e, w'.store,
                  w'.clients[i], done);
      }
    }
  }

  /** A request that is read from as often as it has bytes is handled, whatever else happens. */
  lemma EnoughReads(max: nat, start: Store, events: seq<Event>, worlds: seq<World>, i: nat, a: nat, b: nat)
    requires IsHistory(max, start, events, worlds) && a <= b <= |events| && NoRestart(events, a, b)
    requires Live(worlds[a], i) && worlds[a].clients[i].line.Out?
    requires ReadsOf(events, i, a, b) >= worlds[a].clients[i].line.left
    ensures Live(worlds[b], i) && |worlds[b].clients[i].handled| > |worlds[a].clients[i].handled|
  {
    hide Moves, Mine, OpsOf, RepliesOf;
    ReadOn(max, start, events, worlds, i, a, b);
    ClientOrderly(max, start, events, worlds, i, b);
  }

  /** A reply of which as many packets are taken in as it has is told, whatever else happens. */
  lemma EnoughTakes(max: nat, start: Store, events: seq<Event>, worlds: seq<World>, i: nat, a: nat, b: nat)
    requires IsHistory(max, start, events, worlds) && a <= b <= |events| && NoRestart(events, a, b)
    requires Live(worlds[a], i) && worlds[a].clients[i].line.Back?
    requires TakesOf(events, i, a, b) >= |worlds[a].clients[i].line.packets|
    ensures Live(worlds[b], i) && |worlds[b].clients[i].told| > |worlds[a].clients[i].told|
  {
    hide Moves, Mine, OpsOf, RepliesOf;
    TakeOn(max, start, events, worlds, i, a, b);
    ClientOrderly(max, start, events, worlds, i, b);
  }

  predicate Grows(before: ClientState, after: ClientState) {
    before.asked <= after.asked && before.told <= after.told
  }

  lemma GrowsSelf(s: ClientState)
    ensures Grows(s, s)
  {
  }

  lemma StepGrows(max: nat, start: Store, events: seq<Event>, worlds: seq<World>, i: nat, k: nat)
    requires IsHistory(max, start, events, worlds) && k < |events| && i < |worlds[k].clients|
    ensures i < |worlds[k + 1].clients| && Grows(worlds[k].clients[i], worlds[k + 1].clients[i])
  {
    hide IsHistory, Moves, Orderly, Grows, Mine;
    HistoryLength(max, start, events, worlds);
    HistoryStep(max, start, events, worlds, k);
    ClientOrderly(max, start, events, worlds, i, k);
    MoveGrows(max, worlds[k], events[k], worlds[k + 1], i);
  }

  lemma GrowsOn(a: ClientState, b: ClientState, c: ClientState)
    requires Grows(a, b) && Grows(b, c)
    ensures Grows(a, c)
  {
  }

  lemma {:induction false} ToldGrows(max: nat, start: Store, events: seq<Event>, worlds: seq<World>, i: nat, a: nat,
                                     b: nat)
    requires IsHistory(max, start, events, worlds) && a <= b <= |events| && i < |worlds[a].clients|
    ensures i < |worlds[b].clients| && Grows(worlds[a].clients[i], worlds[b].clients[i])
    decreases b - a
  {
    hide IsHistory, Grows;
    HistoryLength(max, start, events, worlds);
    if a == b {
      GrowsSelf(worlds[a].clients[i]);
    } else {
      ToldGrows(max, start, events, worlds, i, a, b - 1);
      StepGrows(max, start, events, worlds, i, b - 1);
      GrowsOn(worlds[a].clients[i], worlds[b - 1].clients[i], worlds[b].clients[i]);
    }
  }

  lemma MoveGrows(max: nat, w: World, e: Event, w': World, i: nat)
    requires Moves(max, w, e, w') && i < |w.clients| && Orderly(w.clients[i])
    ensures i < |w'.clients| && Grows(w.clients[i], w'.clients[i])
  {
    hide Acts, Orderly;
    if !e.Connects? && !e.Restarts? && Live(w, e.client) {
      var s', done :| Advances(max, w, e, w', s', done);
      if e.client == i {
        ActsOrderly(max, w.store, w.clients[i], e, w'.store, s', done);
      }
    }
  }

  /** The main promise to a client: a call that is read from and whose packets are taken in often enough is
      told the reply it has in the run of the store, whatever the other clients do meanwhile. */
  lemma CallIsTold(max: nat, start: Store, events: seq<Event>, worlds: seq<World>, i: nat, a: nat, m: nat, b: nat)
    requires IsHistory(max, start, events, worlds) && a <= m <= b <= |events| && NoRestart(events, a, b)
    requires Live(worlds[a], i) && worlds[a].clients[i].line.Out?
    requires ReadsOf(events, i, a, m) >= worlds[a].clients[i].line.left
    requires var c := worlds[m].clients; i < |c| && c[i].line.Back? ==> TakesOf(events, i, m, b) >= |c[i].line.packets|
    ensures var j, s := |worlds[a].clients[i].told|, worlds[b].clients;
            && i < |s| && j < |s[i].told| && j < |Mine(worlds[b].log, i)|
            && Mine(worlds[b].log, i)[j] == Exchange(worlds[a].clients[i].line.op, s[i].told[j])
  {
    hide Moves, Mine, Orderly;
    EnoughReads(max, start, events, worlds, i, a, m);
    var j, s := |worlds[a].clients[i].told|, worlds[m].clients[i];
    ClientOrderly(max, start, events, worlds, i, a);
    ClientOrderly(max, start, events, worlds, i, m);
    if |s.told| == j {
      StillBack(worlds[a].clients[i], s);
      EnoughTakes(max, start, events, worlds, i, m, b);
    }
    ToldGrows(max, start, events, worlds, i, a, m);
    ToldGrows(max, start, events, worlds, i, m, b);
    ClientOrderly(max, start, events, worlds, i, b);
    GrowsOn(worlds[a].clients[i], s, worlds[b].clients[i]);
    CallAt(worlds[a].clients[i], worlds[b].clients[i], j);
  }

  lemma CallAt(before: ClientState, after: ClientState, j: nat)
    requires Orderly(before) && Orderly(after) && before.line.Out? && j == |before.told|
    requires before.asked <= after.asked && j < |after.told|
    ensures j < |after.handled| && after.handled[j] == Exchange(before.line.op, after.told[j])
  {
    assert j < |after.handled| by {
      hide OpsOf, RepliesOf;
    }
    ExchangeAt(after.handled, j);
    hide OpsOf, RepliesOf;
    assert before.asked[j] == before.line.op;
    assert OpsOf(after.handled)[j] == after.asked[j];
  }

  lemma {:induction false} ExchangeAt(handled: seq<Exchange>, j: nat)
    requires j < |handled|
    ensures OpsOf(handled)[j] == handled[j].op && RepliesOf(handled)[j] == handled[j].reply
  {
    if j < |handled| - 1 {
      ExchangeAt(handled[..|handled| - 1], j);
    }
  }

  lemma StillBack(before: ClientState, after: ClientState)
    requires Orderly(before) && Orderly(after) && before.line.Out?
    requires |after.handled| > |before.handled| && |after.told| == |before.told|
    ensures after.line.Back?
  {
    hide OpsOf, RepliesOf;
  }
}
