/** The transport: frames of a magic word, a total size and a payload, reassembled from reads of
    any size. */
module Server {
  import opened Bytes
  import opened FileNames
  import opened Protocol

  const MAGIC := 0x4B414D41
  const PACKET_MAX_LEN := 6553600
  const READ_BUFFER_MAX_LEN := 65536
  const HEADER := 8

  /** A header and its payload, as both ends send it. */
  function Frame(payload: seq<byte>): (f: seq<byte>)
    ensures |f| == HEADER + |payload|
  {
    LeBytes(MAGIC, 4) + (LeBytes(HEADER + |payload|, 4) + payload)
  }

  function Frames(payloads: seq<seq<byte>>): seq<byte> {
    if |payloads| == 0 then [] else Frames(payloads[..|payloads| - 1]) + Frame(payloads[|payloads| - 1])
  }

  // ----- what the buffered bytes call for

  datatype Verdict = Wait | Malformed | Deliver(payload: seq<byte>, rest: seq<byte>)

  function Total(p: seq<byte>): uint32
    requires |p| >= HEADER
  {
    U32At(p, 4)
  }

  /** The sizes the framing is made for: a total size covers at least its own header. */
  predicate HeaderSane(p: seq<byte>) {
    |p| >= HEADER && U32At(p, 0) == MAGIC ==> Total(p) >= HEADER
  }

  function Judge(p: seq<byte>): Verdict
    requires HeaderSane(p)
  {
    if |p| < HEADER then Wait
    else if U32At(p, 0) != MAGIC || Total(p) > PACKET_MAX_LEN then Malformed
    else if |p| < Total(p) then Wait
    else Deliver(p[HEADER..Total(p)], p[Total(p)..])
  }

  /** What is delivered and what is left are the buffered bytes again. */
  lemma DeliveredBytes(p: seq<byte>)
    requires HeaderSane(p) && Judge(p).Deliver?
    ensures p == Frame(Judge(p).payload) + Judge(p).rest
  {
    U32Bytes(p, 0);
    U32Bytes(p, 4);
    hide LeBytes, U32At;
    Cut5(p, 4, 8, Total(p), Total(p));
  }

  lemma FrameFields(payload: seq<byte>, more: seq<byte>)
    requires HEADER + |payload| < 0x1_0000_0000
    ensures U32At(Frame(payload) + more, 0) == MAGIC && Total(Frame(payload) + more) == HEADER + |payload|
  {
    var p := Frame(payload) + more;
    hide LeBytes, U32At;
    assert p[0..4] == LeBytes(MAGIC, 4) && p[4..8] == LeBytes(HEADER + |payload|, 4);
    U32Stored(p, 0, MAGIC);
    U32Stored(p, 4, HEADER + |payload|);
  }

  /** The header in bytes: a fixed magic, and the size of the whole frame. */
  lemma FrameBytes(payload: seq<byte>)
    requires 8 + |payload| < 0x1_0000_0000
    ensures Frame(payload) == [0x41, 0x4D, 0x41, 0x4B] + Word(8 + |payload|) + payload
  {
    WordBytes(MAGIC);
    WordBytes(8 + |payload|);
    hide LeBytes, Word;
    assert Word(MAGIC) == [0x41, 0x4D, 0x41, 0x4B] by { MagicBytes(); }
    Assoc([0x41, 0x4D, 0x41, 0x4B], Word(8 + |payload|), payload);
  }

  lemma MagicBytes()
    ensures Word(MAGIC) == [0x41, 0x4D, 0x41, 0x4B]
  {
  }

  /** A buffer whose header has another magic or a size over the limit. */
  predicate Garbage(p: seq<byte>) {
    |p| >= 8 && (p[..4] != [0x41, 0x4D, 0x41, 0x4B] || WordAt(p, 4) > 6553600)
  }

  lemma GarbageIsMalformed(p: seq<byte>)
    requires HeaderSane(p)
    ensures Judge(p) == Malformed <==> Garbage(p)
  {
    if |p| >= 8 {
      U32InBytes(p, 0);
      U32InBytes(p, 4);
      hide U32At;
      MagicBytes();
      if U32At(p, 0) == MAGIC {
        U32Bytes(p, 0);
        WordBytes(MAGIC);
        hide LeBytes, Word;
        assert p[..4] == p[0..4] == [0x41, 0x4D, 0x41, 0x4B];
      }
    }
  }

  predicate Sendable(payload: seq<byte>) {
    HEADER + |payload| <= PACKET_MAX_LEN
  }

  /** A complete frame is delivered whole, whatever follows it. */
  lemma JudgeFrame(payload: seq<byte>, more: seq<byte>)
    requires Sendable(payload)
    ensures HeaderSane(Frame(payload) + more) && Judge(Frame(payload) + more) == Deliver(payload, more)
  {
    FrameFields(payload, more);
    hide U32At, LeBytes;
    var p := Frame(payload) + more;
    assert p[HEADER..HEADER + |payload|] == payload && p[HEADER + |payload|..] == more;
  }

  /** A proper prefix of a frame is waited on. */
  lemma JudgePrefix(payload: seq<byte>, p: seq<byte>)
    requires Sendable(payload) && p <= Frame(payload) && |p| < |Frame(payload)|
    ensures HeaderSane(p) && Judge(p) == Wait
  {
    if |p| >= HEADER {
      FrameFields(payload, []);
      assert Frame(payload) + [] == Frame(payload);
      SameHeader(p, Frame(payload));
    }
  }

  lemma SameHeader(p: seq<byte>, q: seq<byte>)
    requires HEADER <= |p| <= |q| && p <= q
    ensures U32At(p, 0) == U32At(q, 0) && Total(p) == Total(q)
  {
    assert p[0..4] == q[0..4] && p[4..8] == q[4..8];
  }

  /** The bytes left over are moved to the front across themselves. */
  predicate Moved(v: Verdict) {
    v.Deliver? && |v.rest| > HEADER + |v.payload|
  }

  // ----- the connection

  class Connection {
    const buffer: array<byte>
    var length: nat
    var connected: bool
    /** The payloads the handler was called with. */
    var handled: seq<seq<byte>>
    ghost var received: seq<byte>
    /** Whether bytes were ever moved by a memcpy between places that overlap, which C leaves undefined. */
    ghost var overlapped: bool

    /** The bytes received are the handled frames and the buffered bytes, in order. */
    ghost predicate Valid()
      reads this, buffer
    {
      && buffer.Length == PACKET_MAX_LEN + READ_BUFFER_MAX_LEN && length <= buffer.Length
      && (connected ==> received == Frames(handled) + buffer[..length])
    }

    constructor ()
      ensures Valid() && connected && length == 0 && handled == [] && received == [] && fresh(buffer)
      ensures !overlapped
    {
      buffer := new byte[PACKET_MAX_LEN + READ_BUFFER_MAX_LEN];
      length, connected, handled, received, overlapped := 0, true, [], [], false;
    }

    /** on_data_read for `chunk`; `status` is what the handler answers for a payload. */
    method OnDataRead(chunk: seq<byte>, status: seq<byte> -> int) returns (delivered: Option<seq<byte>>)
      requires Valid() && connected && length + |chunk| <= buffer.Length
      requires HeaderSane(buffer[..length] + chunk)
      modifies this, buffer
      ensures Valid() && received == old(received) + chunk
      ensures chunk == [] ==> delivered == None && connected && handled == old(handled) && length == old(length)
      ensures chunk == [] ==> overlapped == old(overlapped)
      ensures chunk != [] ==>
                overlapped == (old(overlapped) || (connected && Moved(Judge(old(buffer[..length]) + chunk))))
      ensures chunk != [] ==>
                match Judge(old(buffer[..length]) + chunk)
                case Wait =>
                  && connected && delivered == None && handled == old(handled)
                  && buffer[..length] == old(buffer[..length]) + chunk
                case Malformed => !connected && delivered == None && handled == old(handled)
                case Deliver(payload, rest) =>
                  && delivered == Some(payload) && handled == old(handled) + [payload]
                  && connected == (status(payload) == 0)
                  && (connected ==> buffer[..length] == rest)
      ensures chunk != [] && Garbage(old(buffer[..length]) + chunk) ==> !connected && handled == old(handled)
      ensures chunk != [] && !connected ==> Garbage(old(buffer[..length]) + chunk) || delivered.Some?
    {
      GarbageIsMalformed(buffer[..length] + chunk);
      hide Garbage;
      if |chunk| == 0 {
        assert received + chunk == received;
        return None;
      }
      Append(chunk);
      delivered := Examine(status);
    }

    /** The part of the callback that looks at the buffered bytes. */
    method Examine(status: seq<byte> -> int) returns (delivered: Option<seq<byte>>)
      requires Valid() && connected && HeaderSane(buffer[..length])
      modifies this`length, this`connected, this`handled, this`overlapped, buffer
      ensures Valid() && overlapped == (old(overlapped) || (connected && Moved(Judge(old(buffer[..length])))))
      ensures match Judge(old(buffer[..length]))
              case Wait =>
                && connected && delivered == None && handled == old(handled)
                && buffer[..length] == old(buffer[..length])
              case Malformed => !connected && delivered == None && handled == old(handled)
              case Deliver(payload, rest) =>
                && delivered == Some(payload) && handled == old(handled) + [payload]
                && connected == (status(payload) == 0)
                && (connected ==> buffer[..length] == rest)
    {
      hide U32At, LeBytes, Frames, Frame;
      if length < HEADER {
        return None;
      }
      ghost var p := buffer[..length];
      HeaderIn(p);
      assert buffer[..HEADER] == p[..HEADER];
      var magic, total := U32At(buffer[..HEADER], 0), U32At(buffer[..HEADER], 4);
      if magic != MAGIC || total > PACKET_MAX_LEN {
        connected := false;
        return None;
      }
      if length < total {
        return None;
      }
      delivered := Hand(total, status);
    }

    /** The handler is called with the payload; unless it fails, the frame leaves the buffer. */
    method Hand(total: nat, status: seq<byte> -> int) returns (delivered: Option<seq<byte>>)
      requires Valid() && connected && HEADER <= total <= length
      requires HeaderSane(buffer[..length])
      requires Judge(buffer[..length]) == Deliver(buffer[HEADER..total], buffer[total..length])
      modifies this`length, this`connected, this`handled, this`overlapped, buffer
      ensures Valid() && overlapped == (old(overlapped) || (connected && old(length) - total > total))
      ensures delivered == Some(old(buffer[HEADER..total])) && handled == old(handled) + [old(buffer[HEADER..total])]
      ensures connected == (status(old(buffer[HEADER..total])) == 0)
      ensures connected ==> buffer[..length] == old(buffer[total..length])
    {
      hide Judge, HeaderSane, Frames, Frame;
      var payload := buffer[HEADER..total];
      DeliveredBytes(buffer[..length]);
      FramesSnoc(handled, payload, buffer[total..length]);
      handled := handled + [payload];
      delivered := Some(payload);
      if status(payload) != 0 {
        connected := false;
        return;
      }
      Shift(total);
    }

    /** The read is copied behind the buffered bytes. */
    method Append(chunk: seq<byte>)
      requires Valid() && connected && length + |chunk| <= buffer.Length
      modifies this`length, this`received, buffer
      ensures Valid() && length == old(length) + |chunk| && received == old(received) + chunk
      ensures buffer[..length] == old(buffer[..length]) + chunk
    {
      forall i | 0 <= i < |chunk| {
        buffer[length + i] := chunk[i];
      }
      received := received + chunk;
      length := length + |chunk|;
    }

    /** The handled frame is dropped from the front. The copy is the one a memcpy makes when the places
        do not overlap; whether they do is recorded. */
    method Shift(total: nat)
      requires total <= length <= buffer.Length
      modifies this`length, this`overlapped, buffer
      ensures overlapped == (old(overlapped) || old(length) - total > total)
      ensures length == old(length) - total && buffer[..length] == old(buffer[total..length])
    {
      length := length - total;
      ghost var rest := buffer[total..total + length];
      if length > 0 {
        overlapped := overlapped || Overlap(0, total, length);
        forall i | 0 <= i < length {
          buffer[i] := buffer[total + i];
        }
      }
      assert buffer[..length] == rest;
    }
  }

  /** The `n` bytes at `a` and the `n` bytes at `b` share some. */
  predicate Overlap(a: nat, b: nat, n: nat) {
    a < b + n && b < a + n
  }

  lemma HeaderIn(p: seq<byte>)
    requires |p| >= HEADER
    ensures U32At(p[..HEADER], 0) == U32At(p, 0) && U32At(p[..HEADER], 4) == U32At(p, 4)
  {
    assert p[..HEADER][0..4] == p[0..4] && p[..HEADER][4..8] == p[4..8];
  }

  lemma FramesSnoc(handled: seq<seq<byte>>, payload: seq<byte>, rest: seq<byte>)
    ensures Frames(handled + [payload]) == Frames(handled) + Frame(payload)
    ensures Frames(handled) + (Frame(payload) + rest) == Frames(handled + [payload]) + rest
  {
    assert (handled + [payload])[..|handled|] == handled;
  }

  // ----- chunking does not matter

  function Join(chunks: seq<seq<byte>>): seq<byte> {
    if |chunks| == 0 then [] else Join(chunks[..|chunks| - 1]) + chunks[|chunks| - 1]
  }

  /** One way reads can cut a stream of bytes. */
  predicate Cut(chunks: seq<seq<byte>>, bytes: seq<byte>) {
    Join(chunks) == bytes && forall i :: 0 <= i < |chunks| ==> 1 <= |chunks[i]| <= READ_BUFFER_MAX_LEN
  }

  lemma {:induction false} JoinPrefix(chunks: seq<seq<byte>>, k: nat)
    requires k <= |chunks| && forall i :: 0 <= i < |chunks| ==> |chunks[i]| >= 1
    ensures Join(chunks[..k]) <= Join(chunks)
    ensures k < |chunks| ==> |Join(chunks[..k])| < |Join(chunks)|
  {
    if k == |chunks| {
      assert chunks[..k] == chunks;
    } else {
      var init := chunks[..|chunks| - 1];
      assert init[..k] == chunks[..k];
      JoinPrefix(init, k);
    }
  }

  lemma JoinSnoc(chunks: seq<seq<byte>>, k: nat)
    requires k < |chunks|
    ensures Join(chunks[..k + 1]) == Join(chunks[..k]) + chunks[k]
  {
    assert chunks[..k + 1][..k] == chunks[..k];
  }

  /** However a frame is cut into reads, the handler runs once, on the whole payload, and the
      buffer is empty again. */
  method ReceiveFrame(c: Connection, payload: seq<byte>, chunks: seq<seq<byte>>, status: seq<byte> -> int)
    requires c.Valid() && c.connected && c.length == 0 && Sendable(payload) && status(payload) == 0
    requires Cut(chunks, Frame(payload))
    modifies c, c.buffer
    ensures c.Valid() && c.connected && c.length == 0 && c.overlapped == old(c.overlapped)
    ensures c.handled == old(c.handled) + [payload]
  {
    hide Frame, Judge, HeaderSane;
    var n := |chunks|;
    ghost var frame := Frame(payload);
    assert n > 0;
    for k := 0 to n - 1
      invariant c.Valid() && c.connected && c.handled == old(c.handled) && c.overlapped == old(c.overlapped)
      invariant c.buffer[..c.length] == Join(chunks[..k])
    {
      JoinPrefix(chunks, k);
      JoinPrefix(chunks, k + 1);
      JoinSnoc(chunks, k);
      JudgePrefix(payload, Join(chunks[..k + 1]));
      var delivered := c.OnDataRead(chunks[k], status);
    }
    JoinPrefix(chunks, n - 1);
    JoinSnoc(chunks, n - 1);
    assert chunks[..n] == chunks && frame + [] == frame;
    JudgeFrame(payload, []);
    var delivered := c.OnDataRead(chunks[n - 1], status);
  }

  /** A client that waits for each reply: whatever the cuts, the handler sees exactly the payloads,
      once each and in order. */
  method ReceiveAll(c: Connection, payloads: seq<seq<byte>>, cuts: seq<seq<seq<byte>>>, status: seq<byte> -> int)
    requires c.Valid() && c.connected && c.length == 0 && |cuts| == |payloads|
    requires forall i :: 0 <= i < |payloads| ==>
               Sendable(payloads[i]) && status(payloads[i]) == 0 && Cut(cuts[i], Frame(payloads[i]))
    modifies c, c.buffer
    ensures c.Valid() && c.connected && c.length == 0 && c.overlapped == old(c.overlapped)
    ensures c.handled == old(c.handled) + payloads
  {
    hide Frame, Cut;
    for k := 0 to |payloads|
      invariant c.Valid() && c.connected && c.length == 0 && c.overlapped == old(c.overlapped)
      invariant c.handled == old(c.handled) + payloads[..k]
    {
      ReceiveFrame(c, payloads[k], cuts[k], status);
      assert payloads[..k] + [payloads[k]] == payloads[..k + 1];
    }
    assert payloads[..|payloads|] == payloads;
  }

  // ----- clients that do not wait

  /** How many frames are handled after some reads of a stream of frames: a callback handles at most one. */
  function Handled(payloads: seq<seq<byte>>, chunks: seq<seq<byte>>): (h: nat)
    ensures h <= |payloads| && h <= |chunks|
  {
    if |chunks| == 0 then 0
    else
      var h := Handled(payloads, chunks[..|chunks| - 1]);
      if h < |payloads| && |Frames(payloads[..h + 1])| <= |Join(chunks)| then h + 1 else h
  }

  /** The bytes of a stream of frames that wait in the buffer after some reads. */
  function Backlog(payloads: seq<seq<byte>>, chunks: seq<seq<byte>>): int {
    |Join(chunks)| - |Frames(payloads[..Handled(payloads, chunks)])|
  }

  predicate AllServed(payloads: seq<seq<byte>>, status: seq<byte> -> int) {
    forall i :: 0 <= i < |payloads| ==> Sendable(payloads[i]) && status(payloads[i]) == 0
  }

  lemma {:induction false} FramesPrefix(payloads: seq<seq<byte>>, h: nat)
    requires h <= |payloads|
    ensures Frames(payloads[..h]) <= Frames(payloads)
  {
    hide Frame;
    if h == |payloads| {
      assert payloads[..h] == payloads;
    } else {
      var init := payloads[..|payloads| - 1];
      assert init[..h] == payloads[..h];
      FramesPrefix(init, h);
    }
  }

  lemma FramesNext(payloads: seq<seq<byte>>, h: nat)
    requires h < |payloads|
    ensures Frames(payloads[..h + 1]) == Frames(payloads[..h]) + Frame(payloads[h])
  {
    assert payloads[..h + 1][..h] == payloads[..h];
  }

  /** What the buffered part of a stream calls for: the next frame when it is there, else nothing yet. */
  lemma JudgeStream(payloads: seq<seq<byte>>, h: nat, p: seq<byte>)
    requires h <= |payloads| && Frames(payloads[..h]) + p <= Frames(payloads)
    requires h < |payloads| ==> Sendable(payloads[h])
    ensures HeaderSane(p)
    ensures h < |payloads| && |Frame(payloads[h])| <= |p| ==>
              Judge(p).Deliver? && Judge(p).payload == payloads[h] && p == Frame(payloads[h]) + Judge(p).rest
    ensures h == |payloads| || |p| < |Frame(payloads[h])| ==> Judge(p) == Wait
  {
    hide Frame, Judge, HeaderSane, Frames;
    if h == |payloads| {
      assert payloads[..h] == payloads;
      assert p == [];
      EmptyWaits();
    } else {
      var frame := Frame(payloads[h]);
      FramesNext(payloads, h);
      FramesPrefix(payloads, h + 1);
      SameStream(Frames(payloads[..h]), frame, p, Frames(payloads));
      if |frame| <= |p| {
        assert p == frame + p[|frame|..];
        JudgeFrame(payloads[h], p[|frame|..]);
      } else {
        JudgePrefix(payloads[h], p);
      }
    }
  }

  lemma EmptyWaits()
    ensures HeaderSane([]) && Judge([]) == Wait
  {
  }

  lemma SameStream(front: seq<byte>, a: seq<byte>, b: seq<byte>, all: seq<byte>)
    requires front + a <= all && front + b <= all
    ensures if |a| <= |b| then a <= b else b <= a
  {
    var n := |front|;
    assert a == (front + a)[n..] == all[..n + |a|][n..] == all[n..n + |a|];
    assert b == (front + b)[n..] == all[..n + |b|][n..] == all[n..n + |b|];
  }

  /** A client that does not wait for replies. Reads are taken until one no longer fits; that is the
      first one for which the backlog and the read exceed the buffer. Until then the handler has seen
      one frame for every callback that found a complete one, in order. */
  method Feed(c: Connection, payloads: seq<seq<byte>>, chunks: seq<seq<byte>>, status: seq<byte> -> int)
    returns (fed: nat)
    requires c.Valid() && c.connected && c.length == 0 && AllServed(payloads, status)
    requires Join(chunks) <= Frames(payloads)
    requires forall i :: 0 <= i < |chunks| ==> 1 <= |chunks[i]| <= READ_BUFFER_MAX_LEN
    modifies c, c.buffer
    ensures c.Valid() && c.connected && fed <= |chunks|
    ensures c.length == Backlog(payloads, chunks[..fed])
    ensures c.handled == old(c.handled) + payloads[..Handled(payloads, chunks[..fed])]
    ensures forall j :: 0 <= j < fed ==> ReadFits(payloads, chunks, j)
    ensures fed < |chunks| ==> !ReadFits(payloads, chunks, fed)
    ensures c.overlapped <==> old(c.overlapped) || exists j :: 0 <= j < fed && OverlapsAt(payloads, chunks, j)
  {
    hide Frame, Frames, Judge, HeaderSane, Join;
    fed := 0;
    FeedStart(payloads, chunks);
    assert c.buffer[..c.length] == [];
    while fed < |chunks| && c.length + |chunks[fed]| <= c.buffer.Length
      invariant c.Valid() && c.connected && fed <= |chunks|
      invariant forall j :: 0 <= j < fed ==> ReadFits(payloads, chunks, j)
      invariant c.overlapped <==> old(c.overlapped) || exists j :: 0 <= j < fed && OverlapsAt(payloads, chunks, j)
      invariant c.handled == old(c.handled) + payloads[..Handled(payloads, chunks[..fed])]
      invariant Frames(payloads[..Handled(payloads, chunks[..fed])]) + c.buffer[..c.length] == Join(chunks[..fed])
    {
      ghost var buffered, h := c.buffer[..c.length], Handled(payloads, chunks[..fed]);
      FeedStep(payloads, chunks, fed, buffered);
      var delivered := c.OnDataRead(chunks[fed], status);
      assert Moved(Judge(buffered + chunks[fed])) <==> OverlapsAt(payloads, chunks, fed);
      assert payloads[..Handled(payloads, chunks[..fed + 1])]
          == payloads[..h] + if Judge(buffered + chunks[fed]).Deliver? then [payloads[h]] else [];
      fed := fed + 1;
    }
  }

  /** The read after `k` reads fits behind the bytes that wait then. */
  predicate ReadFits(payloads: seq<seq<byte>>, chunks: seq<seq<byte>>, k: nat)
    requires k < |chunks|
  {
    Backlog(payloads, chunks[..k]) + |chunks[k]| <= PACKET_MAX_LEN + READ_BUFFER_MAX_LEN
  }

  /** The callback after `k` reads moves the bytes left over across themselves: they are more than the
      frame that was handled. */
  predicate OverlapsAt(payloads: seq<seq<byte>>, chunks: seq<seq<byte>>, k: nat)
    requires k < |chunks|
  {
    var h := Handled(payloads, chunks[..k]);
    && h < |payloads| && Handled(payloads, chunks[..k + 1]) == h + 1
    && Backlog(payloads, chunks[..k + 1]) > |Frame(payloads[h])|
  }

  lemma FeedStart(payloads: seq<seq<byte>>, chunks: seq<seq<byte>>)
    ensures Handled(payloads, chunks[..0]) == 0 && Frames(payloads[..0]) == [] && Join(chunks[..0]) == []
  {
  }

  lemma FeedStep(payloads: seq<seq<byte>>, chunks: seq<seq<byte>>, k: nat, buffered: seq<byte>)
    requires k < |chunks| && Join(chunks) <= Frames(payloads)
    requires forall i :: 0 <= i < |chunks| ==> |chunks[i]| >= 1
    requires forall i :: 0 <= i < |payloads| ==> Sendable(payloads[i])
    requires Frames(payloads[..Handled(payloads, chunks[..k])]) + buffered == Join(chunks[..k])
    ensures var p, h, h' := buffered + chunks[k], Handled(payloads, chunks[..k]), Handled(payloads, chunks[..k + 1]);
            && HeaderSane(p) && !Judge(p).Malformed?
            && (Judge(p).Wait? ==> h' == h && Frames(payloads[..h']) + p == Join(chunks[..k + 1]))
            && (Judge(p).Deliver? ==>
                  && h < |payloads| && h' == h + 1 && Judge(p).payload == payloads[h]
                  && Frames(payloads[..h']) + Judge(p).rest == Join(chunks[..k + 1]))
            && (Moved(Judge(p)) <==> OverlapsAt(payloads, chunks, k))
  {
    hide Frame, Judge, HeaderSane, Frames, Join;
    var p, h := buffered + chunks[k], Handled(payloads, chunks[..k]);
    JoinSnoc(chunks, k);
    JoinPrefix(chunks, k + 1);
    Assoc(Frames(payloads[..h]), buffered, chunks[k]);
    JudgeStream(payloads, h, p);
    assert chunks[..k + 1][..k] == chunks[..k];
    if h < |payloads| {
      FramesNext(payloads, h);
      if |Frame(payloads[h])| <= |p| {
        Assoc(Frames(payloads[..h]), Frame(payloads[h]), Judge(p).rest);
      }
    }
  }

  // ----- frames of one size back to back

  function Product(k: nat, n: nat): nat {
    k * n
  }

  lemma ProductNext(k: nat, n: nat)
    ensures Product(0, n) == 0 && Product(k + 1, n) == Product(k, n) + n
  {
  }

  lemma ProductMonotone(i: nat, k: nat, n: nat)
    requires i <= k
    ensures Product(i, n) <= Product(k, n)
  {
  }

  predicate SameSize(list: seq<seq<byte>>, n: nat) {
    forall i :: 0 <= i < |list| ==> |list[i]| == n
  }

  lemma {:induction false} JoinLength(chunks: seq<seq<byte>>, n: nat)
    requires SameSize(chunks, n)
    ensures |Join(chunks)| == Product(|chunks|, n)
  {
    if |chunks| > 0 {
      ProductNext(|chunks| - 1, n);
      JoinLength(chunks[..|chunks| - 1], n);
    }
  }

  lemma {:induction false} FramesLength(payloads: seq<seq<byte>>, n: nat)
    requires SameSize(payloads, n)
    ensures |Frames(payloads)| == Product(|payloads|, HEADER + n)
  {
    hide Frame;
    if |payloads| > 0 {
      ProductNext(|payloads| - 1, HEADER + n);
      FramesLength(payloads[..|payloads| - 1], n);
    }
  }

  /** With frames of `f` bytes in reads of `n >= f` bytes every callback handles one frame, so each
      leaves `n - f` bytes more than the one before. */
  lemma {:induction false} UniformBacklog(payloads: seq<seq<byte>>, chunks: seq<seq<byte>>, size: nat, n: nat, k: nat)
    requires SameSize(payloads, size) && SameSize(chunks, n) && HEADER + size <= n
    requires Join(chunks) <= Frames(payloads) && k <= |chunks|
    ensures Handled(payloads, chunks[..k]) == k <= |payloads|
    ensures Backlog(payloads, chunks[..k]) == Product(k, n - HEADER - size)
  {
    hide Frame, Frames, Join, Product;
    EnoughFrames(payloads, chunks, size, n);
    ProductNext(k, n);
    if k == 0 {
      FeedStart(payloads, chunks);
      ProductNext(0, n - HEADER - size);
    } else {
      UniformBacklog(payloads, chunks, size, n, k - 1);
      assert chunks[..k][..k - 1] == chunks[..k - 1];
      JoinLength(chunks[..k], n);
      FramesLength(payloads[..k], size);
      ProductSplit(k, n, HEADER + size);
    }
  }

  lemma ProductSplit(k: nat, n: nat, f: nat)
    requires f <= n
    ensures Product(k, n) == Product(k, f) + Product(k, n - f)
  {
  }

  lemma EnoughFrames(payloads: seq<seq<byte>>, chunks: seq<seq<byte>>, size: nat, n: nat)
    requires SameSize(payloads, size) && SameSize(chunks, n) && HEADER + size <= n
    requires Join(chunks) <= Frames(payloads)
    ensures |chunks| <= |payloads|
  {
    hide Frame, Frames, Join, Product, SameSize;
    JoinLength(chunks, n);
    FramesLength(payloads, size);
    assert |Join(chunks)| <= |Frames(payloads)|;
    if |payloads| < |chunks| {
      ProductMonotone(|payloads| + 1, |chunks|, n);
      ProductNext(|payloads|, n);
      ProductSplit(|payloads|, n, HEADER + size);
    }
  }

  /** The first `k` slices of `n` bytes. */
  function Slices(stream: seq<byte>, n: nat, k: nat): (chunks: seq<seq<byte>>)
    requires Product(k, n) <= |stream|
    ensures |chunks| == k && SameSize(chunks, n)
  {
    if k == 0 then []
    else
      ProductNext(k - 1, n);
      Slices(stream, n, k - 1) + [stream[Product(k - 1, n)..Product(k, n)]]
  }

  lemma {:induction false} SlicesJoin(stream: seq<byte>, n: nat, k: nat)
    requires Product(k, n) <= |stream|
    ensures Join(Slices(stream, n, k)) == stream[..Product(k, n)]
  {
    hide Product;
    if k == 0 {
      ProductNext(0, n);
    } else {
      ProductNext(k - 1, n);
      SlicesJoin(stream, n, k - 1);
      var init, last := Slices(stream, n, k - 1), stream[Product(k - 1, n)..Product(k, n)];
      assert Slices(stream, n, k)[..k - 1] == init && Slices(stream, n, k)[k - 1] == last;
      assert stream[..Product(k - 1, n)] + last == stream[..Product(k, n)];
    }
  }

  /** Some callback moves bytes across themselves exactly when the last one does. */
  lemma UniformOverlaps(payloads: seq<seq<byte>>, chunks: seq<seq<byte>>, size: nat, n: nat, k: nat)
    requires SameSize(payloads, size) && SameSize(chunks, n) && HEADER + size <= n
    requires Join(chunks) <= Frames(payloads) && k <= |chunks|
    ensures (exists j :: 0 <= j < k && OverlapsAt(payloads, chunks, j))
        <==> Product(k, n - HEADER - size) > HEADER + size
  {
    hide SameSize, Frames, Join, Product, OverlapsAt;
    if k == 0 {
      ProductNext(0, n - HEADER - size);
    } else {
      UniformOverlap(payloads, chunks, size, n, k - 1);
      if j :| 0 <= j < k && OverlapsAt(payloads, chunks, j) {
        UniformOverlap(payloads, chunks, size, n, j);
        ProductMonotone(j + 1, k, n - HEADER - size);
      }
    }
  }

  lemma UniformOverlap(payloads: seq<seq<byte>>, chunks: seq<seq<byte>>, size: nat, n: nat, k: nat)
    requires SameSize(payloads, size) && SameSize(chunks, n) && HEADER + size <= n
    requires Join(chunks) <= Frames(payloads) && k < |chunks|
    ensures OverlapsAt(payloads, chunks, k) <==> Product(k + 1, n - HEADER - size) > HEADER + size
  {
    hide Frame, Frames, Join, Product, Handled, Backlog;
    UniformBacklog(payloads, chunks, size, n, k);
    UniformBacklog(payloads, chunks, size, n, k + 1);
  }

  /** The claim that the buffer always has room, decided for frames sent back to back: `k` reads of
      `n` bytes are all taken if and only if the last one fits behind the backlog of those before. */
  method BackToBack(c: Connection, payloads: seq<seq<byte>>, size: nat, n: nat, k: nat, status: seq<byte> -> int)
    returns (fed: nat)
    requires c.Valid() && c.connected && c.length == 0 && AllServed(payloads, status) && SameSize(payloads, size)
    requires HEADER + size <= n <= READ_BUFFER_MAX_LEN && Product(k, n) <= |Frames(payloads)|
    modifies c, c.buffer
    ensures c.Valid() && c.connected && fed <= k && c.length == Product(fed, n - HEADER - size)
    ensures fed == k <==> k == 0 || Product(k - 1, n - HEADER - size) + n <= PACKET_MAX_LEN + READ_BUFFER_MAX_LEN
    ensures fed < k ==> Product(fed, n - HEADER - size) + n > PACKET_MAX_LEN + READ_BUFFER_MAX_LEN
    ensures c.overlapped <==> old(c.overlapped) || Product(fed, n - HEADER - size) > HEADER + size
  {
    hide Frame, Frames, Product, Join;
    var chunks := Slices(Frames(payloads), n, k);
    SlicesJoin(Frames(payloads), n, k);
    fed := Feed(c, payloads, chunks, status);
    UniformBacklog(payloads, chunks, size, n, fed);
    UniformOverlaps(payloads, chunks, size, n, fed);
    if fed == k && k > 0 {
      assert ReadFits(payloads, chunks, k - 1);
      UniformBacklog(payloads, chunks, size, n, k - 1);
    } else if fed < k {
      ProductMonotone(fed, k - 1, n - HEADER - size);
    }
  }

  /** A run in which the buffer does not have room: requests of five bytes in full reads. One hundred
      and one reads are taken; the next does not fit. */
  method BufferRunsOut(c: Connection, payload: seq<byte>, status: seq<byte> -> int) returns (fed: nat)
    requires c.Valid() && c.connected && c.length == 0 && |payload| == 5 && status(payload) == 0
    modifies c, c.buffer
    ensures fed == 101 && c.length + READ_BUFFER_MAX_LEN > c.buffer.Length && c.overlapped
  {
    var payloads := seq(102 * READ_BUFFER_MAX_LEN, _ => payload);
    hide Frame, Frames;
    FramesLength(payloads, 5);
    fed := BackToBack(c, payloads, 5, READ_BUFFER_MAX_LEN, 102, status);
  }
}
