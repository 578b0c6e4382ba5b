/** The request handlers: writes, truncates, latest reads and the paged range read. */
module ClientHandler {
  import opened Bytes
  import opened DataPoint
  import opened SeriesFile
  import opened FileNames
  import opened Directory
  import opened Series
  import opened Database
  import opened DatabaseRuns
  import opened Protocol
  import opened Server

  const READ_MAX_PAYLOAD := PACKET_MAX_LEN - 300

  /** How many sends succeed is up to the network. */
  datatype Network = Reliable | FailsAfter(sends: nat) {
    /** How many of `n` sends get through. */
    function Taken(n: nat): (k: nat)
      ensures k <= n
    {
      if Reliable? then n else Min(n, sends)
    }

    function After(k: nat): Network
      requires Taken(k) == k
    {
      if Reliable? then Reliable else FailsAfter(sends - k)
    }
  }

  /** The way back to a client. */
  class Client {
    var sent: seq<byte>
    var network: Network
    ghost var packets: seq<seq<byte>>

    ghost predicate Valid()
      reads this
    {
      sent == Frames(packets)
    }

    constructor (network: Network)
      ensures Valid() && packets == [] && this.network == network
    {
      sent, packets, this.network := [], [], network;
    }

    /** client_send_and_destroy_data: header and payload, or a status and nothing. */
    method Send(payload: seq<byte>) returns (status: int)
      requires Valid()
      modifies this
      ensures Valid() && (status == 0 <==> old(network).Taken(1) == 1)
      ensures status == 0 ==> packets == old(packets) + [payload] && network == old(network).After(1)
      ensures status != 0 ==> packets == old(packets) && network == old(network)
    {
      if network == FailsAfter(0) {
        return -1;
      }
      FramesSnoc(packets, payload, []);
      sent := sent + Frame(payload);
      packets := packets + [payload];
      network := network.After(1);
      return 0;
    }
  }

  // ----- pages

  /** As many points as fit the payload, or one that does not. */
  function PointsPerPacket(size: nat): (p: nat)
    requires size > 0
    ensures p >= 1
    ensures p == 1 || p * size <= 6553300
    ensures 6553300 < (p + 1) * size
  {
    PointsFit(size);
    Max(1, READ_MAX_PAYLOAD / size)
  }

  lemma PointsFit(size: nat)
    requires size > 0
    ensures var p := READ_MAX_PAYLOAD / size; p * size <= READ_MAX_PAYLOAD < (p + 1) * size
    ensures READ_MAX_PAYLOAD < size ==> READ_MAX_PAYLOAD < 2 * size
  {
    var p, r := READ_MAX_PAYLOAD / size, READ_MAX_PAYLOAD % size;
    assert READ_MAX_PAYLOAD == p * size + r;
    assert (p + 1) * size == p * size + size;
  }

  /** Full pages, a last one that may be short, and an empty page that ends the answer. */
  function Pages(points: seq<Point>, p: nat): (pages: seq<seq<Point>>)
    requires p >= 1
    ensures |pages| >= 1
    decreases |points|
  {
    if |points| == 0 then [[]] else [First(points, p)] + Pages(points[|First(points, p)|..], p)
  }

  function Concat(pages: seq<seq<Point>>): seq<Point> {
    if |pages| == 0 then [] else pages[0] + Concat(pages[1..])
  }

  lemma PagesUnfold(points: seq<Point>, p: nat)
    requires p >= 1 && |points| > 0
    ensures var n := Min(p, |points|);
            && Pages(points, p)[0] == points[..n] && Pages(points, p)[1..] == Pages(points[n..], p)
            && |Pages(points, p)| == 1 + |Pages(points[n..], p)|
  {
  }

  /** Together the pages are the points in order. */
  lemma {:induction false} PagesConcat(points: seq<Point>, p: nat)
    requires p >= 1
    ensures Concat(Pages(points, p)) == points
    decreases |points|
  {
    if |points| == 0 {
      assert Pages(points, p) == [[]] && Concat([[]]) == [] + Concat([]);
    } else {
      PagesUnfold(points, p);
      hide Pages;
      var n := Min(p, |points|);
      PagesConcat(points[n..], p);
      assert points == points[..n] + points[n..];
    }
  }

  /** Only the last page is empty, none is over-full, and all but the last with points are full. */
  lemma {:induction false} PagesShape(points: seq<Point>, p: nat, i: nat)
    requires p >= 1 && i < |Pages(points, p)|
    ensures |Pages(points, p)[i]| <= p
    ensures Pages(points, p)[i] == [] <==> i == |Pages(points, p)| - 1
    ensures i < |Pages(points, p)| - 2 ==> |Pages(points, p)[i]| == p
    decreases |points|
  {
    if |points| > 0 {
      PagesUnfold(points, p);
      var n := Min(p, |points|);
      assert |points| <= p ==> |Pages(points[n..], p)| == 1;
      hide Pages;
      if i > 0 {
        PagesShape(points[n..], p, i - 1);
        assert Pages(points, p)[1..][i - 1] == Pages(points, p)[i];
      }
    }
  }

  /** One page for every `p` points begun, and the empty one. */
  lemma {:induction false} PagesCount(points: seq<Point>, p: nat)
    requires p >= 1
    ensures |Pages(points, p)| == (|points| + p - 1) / p + 1
    decreases |points|
  {
    if |points| == 0 {
      ShortDivision(p - 1, p);
    } else {
      PagesUnfold(points, p);
      hide Pages;
      CeilStep(|points|, p);
      PagesCount(points[Min(p, |points|)..], p);
    }
  }

  lemma ShortDivision(a: nat, p: nat)
    requires a < p
    ensures a / p == 0
  {
  }

  lemma CeilStep(n: nat, p: nat)
    requires p >= 1 && n >= 1
    ensures (n + p - 1) / p == (n - Min(n, p) + p - 1) / p + 1
  {
    if n <= p {
      ShortDivision(n - 1, p);
      ShortDivision(p - 1, p);
      DivisionStep(n - 1, p);
    } else {
      DivisionStep(n - 1, p);
    }
  }

  lemma DivisionStep(a: nat, p: nat)
    requires p >= 1
    ensures (a + p) / p == a / p + 1
  {
    var q, r := a / p, a % p;
    assert a == q * p + r;
    assert a + p == (q + 1) * p + r;
    DivisionIs(a + p, p, q + 1, r);
  }

  // ----- the packets of a range read

  function Response(points: seq<Point>, size: uint32): Message
    requires |points| < U64
  {
    ReadResponse(|points|, size, Flatten(points))
  }

  /** The payloads that answer a range read. */
  function Answer(points: seq<Point>, p: nat, size: uint32): (payloads: seq<seq<byte>>)
    requires 1 <= p < U64
    ensures |payloads| == |Pages(points, p)|
    decreases |points|
  {
    if |points| == 0 then [Encode(Response([], size))]
    else
      var n := |First(points, p)|;
      [Encode(Response(points[..n], size))] + Answer(points[n..], p, size)
  }

  /** A way to cut points into pages of up to `p`: as few as possible, and an empty one at the end. */
  predicate IsPaging(pages: seq<seq<Point>>, points: seq<Point>, p: nat)
    requires p >= 1
  {
    && |pages| == (|points| + p - 1) / p + 1 && Concat(pages) == points
    && (forall i :: 0 <= i < |pages| ==> |pages[i]| <= p && (pages[i] == [] <==> i == |pages| - 1))
    && (forall i :: 0 <= i < |pages| - 2 ==> |pages[i]| == p)
  }

  /** Payloads that carry the points of a paging, a page each. */
  ghost predicate InPages(payloads: seq<seq<byte>>, points: seq<Point>, p: nat, size: uint32)
    requires 1 <= p < U64
  {
    exists pages :: IsPaging(pages, points, p) && CarryPages(payloads, pages, size)
  }

  predicate CarryPages(payloads: seq<seq<byte>>, pages: seq<seq<Point>>, size: uint32) {
    && |payloads| == |pages|
    && forall i :: 0 <= i < |pages| ==> |pages[i]| < U64 && payloads[i] == Encode(Response(pages[i], size))
  }

  /** Pages with points of `size` bytes, none over the limit of a payload unless it has a single point, and
      none but the last with points with room for another. */
  predicate Packed(pages: seq<seq<Point>>, size: nat) {
    && (forall i :: 0 <= i < |pages| ==> |pages[i]| <= 1 || |pages[i]| * size <= 6553300)
    && (forall i :: 0 <= i < |pages| - 2 ==> 6553300 < (|pages[i]| + 1) * size)
  }

  lemma PagingIsPacked(pages: seq<seq<Point>>, points: seq<Point>, size: nat)
    requires size > 0 && IsPaging(pages, points, PointsPerPacket(size))
    ensures Packed(pages, size)
  {
    var p := PointsPerPacket(size);
    hide PointsPerPacket;
    forall i | 0 <= i < |pages| ensures |pages[i]| <= 1 || |pages[i]| * size <= 6553300 {
      AtMost(|pages[i]|, p, size);
    }
  }

  /** The payloads carry the points, in order, a page each; only the last page is empty, and the pages are
      as full as can be. `stated` is the point size the packets announce. */
  ghost predicate FullPages(payloads: seq<seq<byte>>, points: seq<Point>, size: nat, stated: uint32) {
    exists pages ::
      && CarryPages(payloads, pages, stated) && Concat(pages) == points && Packed(pages, size)
      && |pages| > 0 && forall i :: 0 <= i < |pages| ==> (pages[i] == [] <==> i == |pages| - 1)
  }

  lemma InFullPages(payloads: seq<seq<byte>>, points: seq<Point>, size: nat, stated: uint32)
    requires size > 0 && 1 <= PointsPerPacket(size) < U64
    requires InPages(payloads, points, PointsPerPacket(size), stated)
    ensures FullPages(payloads, points, size, stated)
  {
    hide PointsPerPacket, CarryPages, Concat;
    var pages :| IsPaging(pages, points, PointsPerPacket(size)) && CarryPages(payloads, pages, stated);
    CountPositive(|points|, PointsPerPacket(size));
    PagingIsPacked(pages, points, size);
  }

  lemma CountPositive(n: nat, p: nat)
    requires p >= 1
    ensures (n + p - 1) / p >= 0
  {
  }

  lemma PagesArePaging(points: seq<Point>, p: nat)
    requires p >= 1
    ensures IsPaging(Pages(points, p), points, p)
  {
    hide Pages;
    PagesConcat(points, p);
    PagesCount(points, p);
    forall i | 0 <= i < |Pages(points, p)|
      ensures |Pages(points, p)[i]| <= p && (Pages(points, p)[i] == [] <==> i == |Pages(points, p)| - 1)
      ensures i < |Pages(points, p)| - 2 ==> |Pages(points, p)[i]| == p
    {
      PagesShape(points, p, i);
    }
  }

  lemma {:induction false} AnswerCarriesPages(points: seq<Point>, p: nat, size: uint32)
    requires 1 <= p < U64
    ensures CarryPages(Answer(points, p, size), Pages(points, p), size)
    decreases |points|
  {
    hide Encode, Response;
    AnswerStep(points, p, size);
    if |points| > 0 {
      PagesUnfold(points, p);
      var n := Min(p, |points|);
      AnswerCarriesPages(points[n..], p, size);
      hide Answer, Pages;
      var payloads, pages := Answer(points, p, size), Pages(points, p);
      assert forall i :: 1 <= i < |pages| ==> payloads[i] == payloads[1..][i - 1] && pages[i] == pages[1..][i - 1];
    } else {
      assert points == [];
    }
  }

  /** The answer to a range read carries the points of the range, page by page. */
  lemma AnswerInPages(points: seq<Point>, p: nat, size: uint32)
    requires 1 <= p < U64
    ensures InPages(Answer(points, p, size), points, p, size)
  {
    hide Answer, Pages, IsPaging, CarryPages;
    PagesArePaging(points, p);
    AnswerCarriesPages(points, p, size);
  }

  lemma {:induction false} SplitExists(ps: seq<Point>, t: int) returns (r: nat)
    requires StrictlySorted(ps)
    ensures SplitsAt(ps, t, r)
  {
    if |ps| == 0 {
      r := 0;
    } else if ps[|ps| - 1].time < t {
      r := |ps|;
    } else {
      r := SplitExists(ps[..|ps| - 1], t);
      assert forall k :: 0 <= k < |ps| - 1 ==> ps[..|ps| - 1][k] == ps[k];
    }
  }

  /** Reading on from the first point of the next page gives the rest of the range. */
  lemma NextPage(ps: seq<Point>, begin: int, end: int, p: nat)
    requires StrictlySorted(ps) && p < |Range(ps, begin, end)|
    ensures Range(ps, Range(ps, begin, end)[p].time, end) == Range(ps, begin, end)[p..]
  {
    if begin >= end {
      RangeEmpty(ps, begin, end);
    } else {
      var i := SplitExists(ps, begin);
      var j := SplitExists(ps, end);
      RangeBetween(ps, begin, end, i, j);
      var t := ps[i + p].time;
      SplitsHere(ps, i + p);
      RangeBetween(ps, t, end, i + p, j);
    }
  }

  lemma SplitsHere(ps: seq<Point>, i: nat)
    requires StrictlySorted(ps) && i < |ps|
    ensures SplitsAt(ps, ps[i].time, i)
  {
  }

  // ----- packets fit the transport

  lemma PageBytes(n: nat, size: nat)
    requires TIME_SIZE <= size && n <= PointsPerPacket(size)
    ensures Offset(n, size) <= Max(size, READ_MAX_PAYLOAD)
  {
    var p := READ_MAX_PAYLOAD / size;
    assert p * size <= READ_MAX_PAYLOAD;
    AtMost(n, if p < 1 then 1 else p, size);
  }

  lemma AtMost(n: nat, p: nat, size: nat)
    requires n <= p
    ensures n * size <= p * size
  {
  }

  // ----- the handlers

  lemma SizeBound(files: Files, max: nat, id: uint32)
    requires Sound(files, max)
    ensures var size := PointSizeOf(files, id, max); size == 0 || TIME_SIZE <= size < 0x1_0000_0000
    ensures StrictlySorted(PointsOf(files, id, max))
  {
    hide ContentsOf, FileName, StrictlySorted;
    if id < max && Lookup(files, id).Some? {
      LookupSorted(files, max, id);
      var size: uint32 :| FileName(id, size) in files;
      LookupFile(files, max, id, size);
    } else {
      NoPointsSorted();
    }
  }

  lemma NoPointsSorted()
    ensures StrictlySorted([])
  {
  }

  lemma PacketBound(size: nat)
    requires size > 0
    ensures 1 <= PointsPerPacket(size) < U64
  {
  }

  /** All the payloads a range read of a series asks for. */
  function ReadAnswer(points: seq<Point>, size: uint32, begin: timestamp, end: timestamp): seq<seq<byte>> {
    if size == 0 then Answer([], 1, 0)
    else
      PacketBound(size);
      Answer(Range(points, begin, end), PointsPerPacket(size), if begin > end then 0 else size)
  }

  /** The payloads carry the points of the range page by page; an unknown series has an empty answer. */
  ghost predicate ReadInPages(payloads: seq<seq<byte>>, points: seq<Point>, size: uint32, begin: timestamp,
                              end: timestamp)
  {
    if size == 0 then payloads == [Encode(Response([], 0))]
    else
      PacketBound(size);
      && InPages(payloads, Range(points, begin, end), PointsPerPacket(size), if begin > end then 0 else size)
      && FullPages(payloads, Range(points, begin, end), size, if begin > end then 0 else size)
  }

  lemma ReadAnswerInPages(points: seq<Point>, size: uint32, begin: timestamp, end: timestamp)
    ensures ReadInPages(ReadAnswer(points, size, begin, end), points, size, begin, end)
  {
    hide Answer, Encode, Response, ReadAnswer, InPages, FullPages, PointsPerPacket;
    AnswerOf(points, size, begin, end);
    if size > 0 {
      AnswerInPages(Range(points, begin, end), PointsPerPacket(size), if begin > end then 0 else size);
      InFullPages(ReadAnswer(points, size, begin, end), Range(points, begin, end), size,
                  if begin > end then 0 else size);
    }
  }

  /** handle_read: page after page until an empty one, each starting where the last over-read. As
      many payloads are sent as the network takes; none is skipped, repeated or changed. */
  method HandleRead(client: Client, db: Database, id: uint32, begin: timestamp, end: timestamp)
    requires client.Valid() && db.Valid()
    modifies client, db.series, db.disk
    ensures client.Valid() && db.Valid() && SameView(old(db.disk.files), db.disk.files, db.maxSeries)
    ensures PointSizeOf(old(db.disk.files), id, db.maxSeries) < 0x1_0000_0000
    ensures var all := ReadAnswer(PointsOf(old(db.disk.files), id, db.maxSeries),
                                  PointSizeOf(old(db.disk.files), id, db.maxSeries), begin, end);
            && client.packets == old(client.packets) + all[..old(client.network).Taken(|all|)]
            && ReadInPages(all, PointsOf(old(db.disk.files), id, db.maxSeries),
                           PointSizeOf(old(db.disk.files), id, db.maxSeries), begin, end)
    ensures db.SlotsKept()
  {
    hide Sound, Lookup, StrictlySorted, Range, Answer, Encode, SameView, PointsOf, PointSizeOf, ReadAnswer, Response,
         PointsPerPacket;
    ghost var files, max := db.disk.files, db.maxSeries;
    ghost var points := PointsOf(files, id, max);
    SizeBound(files, max, id);
    var size := db.GetPointSize(id);
    ViewKept(files, files, db.disk.files, max, id);
    AnswerOf(points, size, begin, end);
    ReadAnswerInPages(points, size, begin, end);
    if size == 0 {
      var status := client.Send(Encode(Response([], 0)));
      return;
    }
    ghost var mid := db.disk.files;
    PacketBound(size);
    SendPages(client, db, id, begin, end, size, points);
    ViewKept(files, mid, db.disk.files, max, id);
  }

  lemma AnswerOf(points: seq<Point>, size: uint32, begin: timestamp, end: timestamp)
    ensures size == 0 ==> ReadAnswer(points, size, begin, end) == [Encode(Response([], 0))]
    ensures size > 0 ==> 1 <= PointsPerPacket(size) < U64
    ensures size > 0 ==>
              ReadAnswer(points, size, begin, end)
              == Answer(Range(points, begin, end), PointsPerPacket(size), if begin > end then 0 else size)
  {
    AnswerNothing(1, 0);
    if size > 0 {
      PacketBound(size);
    }
  }

  lemma AnswerNothing(p: nat, size: uint32)
    requires 1 <= p < U64
    ensures Answer([], p, size) == [Encode(Response([], size))]
  {
  }

  /** The paging loop for a known series. */
  method SendPages(client: Client, db: Database, id: uint32, begin: timestamp, end: timestamp, size: uint32,
                   ghost points: seq<Point>)
    requires client.Valid() && db.Valid() && size > 0 && 1 <= PointsPerPacket(size) < U64
    requires points == PointsOf(db.disk.files, id, db.maxSeries) && StrictlySorted(points)
    requires size == PointSizeOf(db.disk.files, id, db.maxSeries)
    modifies client, db.series, db.disk
    ensures client.Valid() && db.Valid() && SameView(old(db.disk.files), db.disk.files, db.maxSeries)
    ensures var all := Answer(Range(points, begin, end), PointsPerPacket(size), if begin > end then 0 else size);
            client.packets == old(client.packets) + all[..old(client.network).Taken(|all|)]
    ensures db.SlotsKept()
  {
    hide Sound, Lookup, StrictlySorted, Range, Answer, Encode, PointsPerPacket, Response, SameView, PointsOf,
         PointSizeOf, Frames;
    var p := PointsPerPacket(size);
    var cursor: timestamp, more := begin, true;
    ghost var sz: uint32 := if begin > end then 0 else size;
    ghost var left := Range(points, begin, end);
    ghost var all: seq<seq<byte>>, k: nat := Answer(left, p, sz), 0;
    ViewKept(db.disk.files, db.disk.files, db.disk.files, db.maxSeries, id);
    assert all[..0] == [] && all[0..] == all;
    while more
      invariant client.Valid() && db.Valid() && SameView(old(db.disk.files), db.disk.files, db.maxSeries)
      invariant points == PointsOf(db.disk.files, id, db.maxSeries)
      invariant size == PointSizeOf(db.disk.files, id, db.maxSeries)
      invariant more ==> left == Range(points, cursor, end) && sz == (if cursor > end then 0 else size)
      invariant more ==> k < |all| && Answer(left, p, sz) == all[k..]
      invariant k <= |all| && client.packets == old(client.packets) + all[..k]
      invariant old(client.network).Taken(k) == k && client.network == old(client.network).After(k)
      invariant !more ==> k == old(client.network).Taken(|all|)
      invariant db.SlotsKept()
      decreases more, |left|
    {
      ghost var files := db.disk.files;
      var status, n;
      status, n, cursor := SendPage(client, db, id, cursor, end, p, points, size);
      ViewKept(old(db.disk.files), files, db.disk.files, db.maxSeries, id);
      AnswerStep(left, p, sz);
      AllStep(all, k);
      if status != 0 {
        more := false;
      } else {
        k := k + 1;
        left := left[n..];
        more := n > 0;
      }
    }
  }

  lemma ViewKept(a: Files, b: Files, c: Files, max: nat, id: uint32)
    requires a == b || SameView(a, b, max)
    requires b == c || SameView(b, c, max)
    ensures SameView(a, c, max)
    ensures PointsOf(c, id, max) == PointsOf(b, id, max) && PointSizeOf(c, id, max) == PointSizeOf(b, id, max)
  {
    hide Lookup;
  }

  /** One turn of the loop: one read past the page, one send, and the cursor of the next page. */
  method SendPage(client: Client, db: Database, id: uint32, cursor: timestamp, end: timestamp, p: nat,
                  ghost points: seq<Point>, ghost size: uint32)
    returns (status: int, n: nat, next: timestamp)
    requires client.Valid() && db.Valid() && 1 <= p < U64
    requires points == PointsOf(db.disk.files, id, db.maxSeries) && StrictlySorted(points)
    requires size == PointSizeOf(db.disk.files, id, db.maxSeries)
    modifies client, db.series, db.disk
    ensures client.Valid() && db.Valid() && SameView(old(db.disk.files), db.disk.files, db.maxSeries)
    ensures n == Min(p, |Range(points, cursor, end)|)
    ensures n > 0 ==> cursor < end && next <= end && Range(points, next, end) == Range(points, cursor, end)[n..]
    ensures status == 0 <==> old(client.network).Taken(1) == 1
    ensures status == 0 ==> client.network == old(client.network).After(1)
    ensures status == 0 ==>
              client.packets == old(client.packets)
                + [Encode(Response(Range(points, cursor, end)[..n], if cursor > end then 0 else size))]
    ensures status != 0 ==> client.packets == old(client.packets) && client.network == old(client.network)
    ensures db.SlotsKept()
  {
    hide Sound, Lookup, StrictlySorted, Range, Encode, Response, SameView;
    var reader := db.Read(id, cursor, end, p + 1);
    PageOf(points, cursor, end, p, reader.points);
    next := if |reader.points| == p + 1 then reader.points[p].time else end;
    n := Min(p, |reader.points|);
    status := client.Send(Encode(Response(reader.points[..n], reader.pointSize)));
  }

  lemma AllStep(all: seq<seq<byte>>, k: nat)
    requires k < |all|
    ensures all[..k + 1] == all[..k] + [all[k]] && all[k..][1..] == all[k + 1..] && all[k..][0] == all[k]
  {
  }

  /** What one read of `p + 1` points tells: the page to send, and where the next page starts. */
  lemma PageOf(points: seq<Point>, cursor: timestamp, end: timestamp, p: nat, read: seq<Point>)
    requires StrictlySorted(points) && read == First(Range(points, cursor, end), p + 1)
    ensures var left, n := Range(points, cursor, end), Min(p, |read|);
            && n == Min(p, |left|) && read[..n] == left[..n] && (n > 0 ==> cursor < end)
            && (|read| == p + 1 ==> left[n..] == Range(points, read[p].time, end) && read[p].time < end)
            && (|read| != p + 1 ==> left[n..] == Range(points, end, end))
  {
    hide Range;
    var left := Range(points, cursor, end);
    if cursor >= end {
      RangeEmpty(points, cursor, end);
    }
    if |read| == p + 1 {
      NextPage(points, cursor, end, p);
      assert left[p] in left;
      RangeMembers(points, cursor, end, left[p]);
    } else {
      RangeEmpty(points, end, end);
    }
  }

  lemma AnswerStep(left: seq<Point>, p: nat, size: uint32)
    requires 1 <= p < U64
    ensures var n := Min(p, |left|);
            && Answer(left, p, size)[0] == Encode(Response(left[..n], size))
            && (n > 0 ==> Answer(left, p, size)[1..] == Answer(left[n..], p, size))
            && (n == 0 ==> |Answer(left, p, size)| == 1)
  {
    if |left| == 0 {
      assert left[..0] == [];
    }
  }

  /** The points of a write request, read out of its data in place. */
  function BatchOf(m: Message): seq<Point>
    requires m.WriteRequest? && Proper(m) && m.size >= TIME_SIZE
  {
    DataIsPoints(m.count, m.size);
    ReadPoints(m.data, m.size, 0, m.count)
  }

  lemma DataIsPoints(count: timestamp, size: uint32)
    ensures DataSize(size, count) == Offset(count, size)
  {
  }

  /** A write request the engine is made for. */
  predicate Writable(m: Message) {
    m.WriteRequest? && Proper(m) && m.size >= TIME_SIZE && IsBatch(BatchOf(m), m.size)
  }

  /** The response that tells a client the status of a write or truncate. */
  function StatusPacket(r: int): seq<byte> {
    Encode(SimpleResponse(if r != 0 then RESPONSE_ERROR else RESPONSE_OK))
  }

  lemma StatusBytes()
    ensures StatusPacket(0) == [2, 0] && StatusPacket(-1) == [2, 1]
  {
  }

  /** handle_write: the client learns whether the write succeeded. The result is the write's status. */
  method HandleWrite(client: Client, db: Database, m: Message) returns (r: int)
    requires client.Valid() && db.Valid() && Writable(m)
    modifies client, db.series, db.disk
    modifies if m.id < db.maxSeries && m.id < db.series.Length then {db.series[m.id]} else {}
    ensures client.Valid() && db.Valid() && SameElsewhere(old(db.disk.files), db.disk.files, db.maxSeries, m.id)
    ensures m.id >= db.maxSeries ==> r == -1
    ensures m.id < db.maxSeries ==> Lookup(db.disk.files, m.id).Some?
    ensures m.id < db.maxSeries ==>
              WriteDone(old(db.Found(m.id, m.size)), BatchOf(m), m.size, r, Lookup(db.disk.files, m.id).value)
    ensures client.packets
         == old(client.packets) + if old(client.network).Taken(1) == 1 then [StatusPacket(r)] else []
    ensures db.SlotsKept()
  {
    hide Sound, Lookup, Encode, WriteDone, IsBatch;
    var batch := BatchOf(m);
    var points := new Point[|batch|](i requires 0 <= i < |batch| => batch[i]);
    assert points[..] == batch;
    r := db.Write(m.id, points, m.size);
    var status := client.Send(StatusPacket(r));
  }

  /** handle_truncate. */
  method HandleTruncate(client: Client, db: Database, id: uint32)
    requires client.Valid() && db.Valid()
    modifies client, db.series, db.disk
    ensures client.Valid() && db.Valid() && SameElsewhere(old(db.disk.files), db.disk.files, db.maxSeries, id)
    ensures id < db.maxSeries ==> Lookup(db.disk.files, id) == None
    ensures client.packets
         == old(client.packets) + if old(client.network).Taken(1) == 1 then [StatusPacket(0)] else []
    ensures db.SlotsKept()
  {
    hide Sound, Lookup, Encode;
    var r := db.Truncate(id);
    var status := client.Send(StatusPacket(r));
  }

  /** handle_read_latest: a single response with at most one point. */
  method HandleReadLatest(client: Client, db: Database, id: uint32)
    requires client.Valid() && db.Valid()
    modifies client, db.series, db.disk
    ensures client.Valid() && db.Valid() && SameView(old(db.disk.files), db.disk.files, db.maxSeries)
    ensures PointSizeOf(old(db.disk.files), id, db.maxSeries) < 0x1_0000_0000
    ensures var latest, size := Latest(PointsOf(old(db.disk.files), id, db.maxSeries)),
                                PointSizeOf(old(db.disk.files), id, db.maxSeries);
            client.packets == old(client.packets)
              + if old(client.network).Taken(1) == 1 then [Encode(Response(latest, size))] else []
    ensures db.SlotsKept()
  {
    SizeBound(db.disk.files, db.maxSeries, id);
    hide Sound, Lookup, Encode, Response;
    var reader := db.ReadLatest(id);
    var status := client.Send(Encode(Response(reader.points, reader.pointSize)));
  }

  lemma {:induction false} AnswerFits(points: seq<Point>, p: nat, size: uint32, limit: nat)
    requires 1 <= p < U64 && Uniform(points, size)
    requires forall n :: 1 <= n <= p ==> Offset(n, size) <= limit
    ensures forall i :: 0 <= i < |Answer(points, p, size)| ==>
              |Answer(points, p, size)[i]| <= READ_RESPONSE_HEADER + limit
    decreases |points|
  {
    hide Encode, Offset, Flatten;
    var n := Min(p, |points|);
    ResponseFields(|points[..n]|, size, Flatten(points[..n]));
    FlattenLength(points[..n], size);
    OffsetAdd(0, 0, size);
    AnswerStep(points, p, size);
    if n > 0 {
      AnswerFits(points[n..], p, size, limit);
      AnswerEach(points, p, size, limit);
    }
  }

  lemma AnswerEach(points: seq<Point>, p: nat, size: uint32, limit: nat)
    requires 1 <= p < U64 && |points| > 0
    requires |Answer(points, p, size)[0]| <= READ_RESPONSE_HEADER + limit
    requires var rest := Answer(points, p, size)[1..];
             forall i :: 0 <= i < |rest| ==> |rest[i]| <= READ_RESPONSE_HEADER + limit
    ensures forall i :: 0 <= i < |Answer(points, p, size)| ==>
              |Answer(points, p, size)[i]| <= READ_RESPONSE_HEADER + limit
  {
    hide Answer;
    var all := Answer(points, p, size);
    assert forall i :: 1 <= i < |all| ==> all[i] == all[1..][i - 1];
  }

  /** Every packet of an answer fits the transport exactly when a packet with one point does. */
  lemma AnswerFitsTransport(points: seq<Point>, size: uint32)
    requires Uniform(points, size) && |points| > 0
    requires 1 <= PointsPerPacket(size) < U64
    ensures (forall i :: 0 <= i < |Answer(points, PointsPerPacket(size), size)| ==>
               Sendable(Answer(points, PointsPerPacket(size), size)[i]))
        <==> HEADER + READ_RESPONSE_HEADER + size <= PACKET_MAX_LEN
  {
    var p := PointsPerPacket(size);
    var all := Answer(points, p, size);
    if HEADER + READ_RESPONSE_HEADER + size <= PACKET_MAX_LEN {
      var limit := Max(size, READ_MAX_PAYLOAD);
      forall n | 1 <= n <= p ensures Offset(n, size) <= limit {
        PageBytes(n, size);
      }
      AnswerFits(points, p, size, limit);
    } else {
      FirstPageSize(points, p, size);
      assert !Sendable(all[0]);
    }
  }

  lemma FirstPageSize(points: seq<Point>, p: nat, size: uint32)
    requires Uniform(points, size) && |points| > 0 && 1 <= p < U64
    ensures |Answer(points, p, size)| > 0 && |Answer(points, p, size)[0]| >= READ_RESPONSE_HEADER + size
  {
    var n := Min(p, |points|);
    AnswerStep(points, p, size);
    ResponseFields(|points[..n]|, size, Flatten(points[..n]));
    FlattenLength(points[..n], size);
    AtMost(1, n, size);
  }

  // ----- dispatch

  /** client_handler_process_message's result: 1 for an invalid payload, 2 for a type no handler takes. */
  function MessageStatus(payload: seq<byte>): int {
    if |payload| == 0 || !Validate(payload) then 1
    else if payload[0] == SIMPLE_RESPONSE || payload[0] == READ_RESPONSE then 2
    else 0
  }

  /** What a write request did to the directory, given the status the client was told. */
  ghost predicate WriteServed(before: Files, after: Files, max: nat, m: Message, r: int)
    requires Writable(m)
  {
    && SameElsewhere(before, after, max, m.id)
    && (m.id >= max ==> r == -1)
    && (m.id < max ==>
          && Lookup(after, m.id).Some?
          && WriteDone(FoundIn(before, m.id, m.size), BatchOf(m), m.size, r, Lookup(after, m.id).value))
  }

  /** What a request does to the directory and sends back, when all sends succeed. */
  ghost predicate Served(before: Files, after: Files, max: nat, m: Message, packets: seq<seq<byte>>)
    requires m.WriteRequest? ==> Writable(m)
  {
    match m
    case ReadRequest(id, begin, end) =>
      && SameView(before, after, max) && PointSizeOf(before, id, max) < 0x1_0000_0000
      && packets == ReadAnswer(PointsOf(before, id, max), PointSizeOf(before, id, max), begin, end)
    case WriteRequest(_, _, _, _) =>
      exists r: int :: packets == [StatusPacket(r)] && WriteServed(before, after, max, m, r)
    case TruncateRequest(id) =>
      && SameElsewhere(before, after, max, id) && (id < max ==> Lookup(after, id) == None)
      && packets == [StatusPacket(0)]
    case ReadLatestRequest(id) =>
      && SameView(before, after, max) && PointSizeOf(before, id, max) < 0x1_0000_0000
      && packets == [Encode(Response(Latest(PointsOf(before, id, max)), PointSizeOf(before, id, max)))]
    case _ => false
  }

  predicate IsRequest(m: Message) {
    m.ReadRequest? || m.WriteRequest? || m.TruncateRequest? || m.ReadLatestRequest?
  }

  /** The switch of client_handler_process_message, for the requests the engine is made for. */
  method Handle(client: Client, m: Message, db: Database)
    requires client.Valid() && db.Valid() && IsRequest(m) && (m.WriteRequest? ==> Writable(m))
    modifies client, db.series, db.disk, set i | 0 <= i < db.series.Length :: db.series[i]
    ensures client.Valid() && db.Valid() && db.SlotsKept()
    ensures old(client.network).Reliable? ==>
              && |old(client.packets)| <= |client.packets|
              && client.packets[..|old(client.packets)|] == old(client.packets)
              && Served(old(db.disk.files), db.disk.files, db.maxSeries, m, client.packets[|old(client.packets)|..])
  {
    hide ReadAnswer, Sound, Lookup, Encode, Answer, WriteServed, Response, StatusPacket, SameView, PointsOf,
         PointSizeOf, Writable, BatchOf, Frames, WriteDone;
    match m
    case ReadRequest(id, begin, end) =>
      HandleRead(client, db, id, begin, end);
    case WriteRequest(_, _, _, _) =>
      ghost var before := db.disk.files;
      var r := HandleWrite(client, db, m);
      WriteServedIs(before, db.disk.files, db.maxSeries, m, r);
    case TruncateRequest(id) =>
      HandleTruncate(client, db, id);
    case ReadLatestRequest(id) =>
      HandleReadLatest(client, db, id);
  }

  /** client_handler_process_message. */
  method ProcessMessage(client: Client, payload: seq<byte>, db: Database) returns (status: int)
    requires client.Valid() && db.Valid() && |payload| >= 1
    requires Validate(payload) && payload[0] == WRITE_REQUEST ==> Writable(Decode(payload))
    modifies client, db.series, db.disk, set i | 0 <= i < db.series.Length :: db.series[i]
    ensures client.Valid() && db.Valid() && status == MessageStatus(payload) && db.SlotsKept()
    ensures status != 0 ==> client.packets == old(client.packets) && db.disk.files == old(db.disk.files)
    ensures status == 0 && old(client.network).Reliable? ==>
              && |old(client.packets)| <= |client.packets|
              && client.packets[..|old(client.packets)|] == old(client.packets)
              && Served(old(db.disk.files), db.disk.files, db.maxSeries, Decode(payload),
                        client.packets[|old(client.packets)|..])
  {
    hide Validate, Sound, Lookup, Served, Writable, Frames;
    if !Validate(payload) {
      return 1;
    }
    var m := Decode(payload);
    if !IsRequest(m) {
      return 2;
    }
    Handle(client, m, db);
    return 0;
  }

  lemma WriteServedIs(before: Files, after: Files, max: nat, m: Message, r: int)
    requires Writable(m) && SameElsewhere(before, after, max, m.id) && (m.id >= max ==> r == -1)
    requires m.id < max ==> Lookup(after, m.id).Some?
    requires m.id < max ==> WriteDone(FoundIn(before, m.id, m.size), BatchOf(m), m.size, r, Lookup(after, m.id).value)
    ensures WriteServed(before, after, max, m, r)
  {
    hide Lookup, WriteDone, BatchOf;
  }
}
