/** Whole runs of the database refine a map from series ids to time-to-value maps. */
module DatabaseRuns {
  import opened Bytes
  import opened DataPoint
  import opened SeriesFile
  import opened FileNames
  import opened Directory
  import opened Series
  import opened Database

  // ----- the abstract store

  datatype Entry = Entry(pointSize: nat, values: map<timestamp, seq<byte>>)

  type Store = map<uint32, Entry>

  datatype Op =
    | Write(id: uint32, size: uint32, batch: seq<Point>)
    | Truncate(id: uint32)
    | Read(id: uint32, begin: timestamp, end: timestamp, maxPoints: nat)
    | ReadAll(id: uint32, begin: timestamp, end: timestamp)
    | ReadLatest(id: uint32)
    | Restart

  datatype Reply = Status(code: int) | Points(points: seq<Point>) | Restarted

  /** The operations of the database itself; a whole range is read in pages only. */
  predicate Allowed(op: Op) {
    !op.ReadAll? && (op.Write? ==> IsBatch(op.batch, op.size))
  }

  function NewTimes(batch: seq<Point>): set<timestamp> {
    Times(batch) - {0}
  }

  /** Batch times take some value the batch gives them, other times keep theirs. */
  predicate Overridden(before: map<timestamp, seq<byte>>, batch: seq<Point>, after: map<timestamp, seq<byte>>) {
    && after.Keys == before.Keys + NewTimes(batch)
    && (forall t :: t in NewTimes(batch) ==> Point(t, after[t]) in batch)
    && (forall t :: t in before && t !in NewTimes(batch) ==> after[t] == before[t])
  }

  predicate EntryWritten(before: Entry, batch: seq<Point>, size: nat, code: int, after: Entry) {
    && code == (if size == before.pointSize && NewTimes(batch) != {} then 0 else -1)
    && after.pointSize == before.pointSize
    && (code == -1 ==> after == before)
    && (code == 0 ==> Overridden(before.values, batch, after.values))
  }

  function TimesIn(m: map<timestamp, seq<byte>>, begin: int, end: int): set<timestamp> {
    set t | t in m && begin <= t < end
  }

  /** The earliest entries of a time range, in order, at most `n` of them. */
  predicate Earliest(m: map<timestamp, seq<byte>>, begin: int, end: int, n: nat, ps: seq<Point>) {
    && StrictlySorted(ps)
    && (forall p :: p in ps ==> p.time in TimesIn(m, begin, end) && m[p.time] == p.value)
    && |ps| == Min(n, |TimesIn(m, begin, end)|)
    && (forall t, p :: t in TimesIn(m, begin, end) - Times(ps) && p in ps ==> p.time < t)
  }

  /** The entries of a time range, in order. */
  predicate Whole(m: map<timestamp, seq<byte>>, begin: int, end: int, ps: seq<Point>) {
    && StrictlySorted(ps) && Times(ps) == TimesIn(m, begin, end)
    && forall p :: p in ps ==> p.time in m && m[p.time] == p.value
  }

  predicate IsLatest(m: map<timestamp, seq<byte>>, ps: seq<Point>) {
    if m == map[] then ps == []
    else |ps| == 1 && ps[0].time in m && m[ps[0].time] == ps[0].value && forall t :: t in m ==> t <= ps[0].time
  }

  /** One operation on the store. */
  ghost predicate Step(s: Store, max: nat, op: Op, reply: Reply, s': Store) {
    match op
    case Write(id, size, batch) =>
      reply.Status? &&
      if id >= max then reply.code == -1 && s' == s
      else
        && id in s' && s' == s[id := s'[id]]
        && EntryWritten(if id in s then s[id] else Entry(size, map[]), batch, size, reply.code, s'[id])
    case Truncate(id) => reply == Status(0) && s' == s - {id}
    case Read(id, begin, end, n) =>
      s' == s && reply.Points? && Earliest(if id in s then s[id].values else map[], begin, end, n, reply.points)
    case ReadAll(id, begin, end) =>
      s' == s && reply.Points? && Whole(if id in s then s[id].values else map[], begin, end, reply.points)
    case ReadLatest(id) =>
      s' == s && reply.Points? && IsLatest(if id in s then s[id].values else map[], reply.points)
    case Restart => s' == s && reply == Restarted
  }

  /** A run of the store: some sequence of steps with these replies. */
  ghost predicate Runs(s: Store, max: nat, ops: seq<Op>, replies: seq<Reply>, s': Store)
    decreases |ops|
  {
    |ops| == |replies| &&
    if |ops| == 0 then s' == s
    else
      var n := |ops| - 1;
      exists mid :: Runs(s, max, ops[..n], replies[..n], mid) && Step(mid, max, ops[n], replies[n], s')
  }

  // ----- the store a directory stands for

  ghost function View(files: Files, max: nat): Store {
    map id: uint32 | 0 <= id < max && Lookup(files, id).Some? :: EntryOf(Lookup(files, id).value)
  }

  ghost function EntryOf(s: SeriesState): Entry {
    Entry(s.pointSize, ToMap(s.points))
  }

  lemma SameViewSameStore(before: Files, after: Files, max: nat)
    requires SameView(before, after, max)
    ensures View(after, max) == View(before, max)
  {
    hide Lookup;
  }

  lemma LookupSorted(files: Files, max: nat, id: uint32)
    requires Sound(files, max) && id < max && Lookup(files, id).Some?
    ensures StrictlySorted(Lookup(files, id).value.points)
  {
    hide ContentsOf, FileName, StrictlySorted;
    var size: uint32 :| FileName(id, size) in files;
    LookupFile(files, max, id, size);
  }

  // ----- ranges of a list are ranges of its map

  lemma {:induction false} RangeMembers(ps: seq<Point>, begin: int, end: int, p: Point)
    ensures p in Range(ps, begin, end) <==> p in ps && begin <= p.time < end
  {
    if |ps| > 0 {
      RangeMembers(ps[..|ps| - 1], begin, end, p);
      assert ps == ps[..|ps| - 1] + [ps[|ps| - 1]];
    }
  }

  lemma {:induction false} RangeSorted(ps: seq<Point>, begin: int, end: int)
    requires StrictlySorted(ps)
    ensures StrictlySorted(Range(ps, begin, end))
  {
    if |ps| > 0 {
      var init, last := ps[..|ps| - 1], ps[|ps| - 1];
      RangeSorted(init, begin, end);
      forall p | p in Range(init, begin, end) ensures p.time < last.time {
        RangeMembers(init, begin, end, p);
      }
    }
  }

  /** Reading a list answers like reading its map. */
  lemma ReadAnswers(ps: seq<Point>, begin: int, end: int, n: nat)
    requires StrictlySorted(ps)
    ensures Earliest(ToMap(ps), begin, end, n, First(Range(ps, begin, end), n))
  {
    var all, m := Range(ps, begin, end), ToMap(ps);
    RangeSorted(ps, begin, end);
    RangeTimes(ps, begin, end);
    CountTimes(all);
    hide Range, ToMap, TimesIn;
    var r := First(all, n);
    forall p | p in r ensures p.time in TimesIn(m, begin, end) && m[p.time] == p.value {
      assert p in all;
      RangeMembers(ps, begin, end, p);
      MapHolds(ps, p);
      assert p.time in Times(all);
    }
    FirstIsEarliest(all, n);
  }

  lemma ReadAllAnswers(ps: seq<Point>, begin: int, end: int)
    requires StrictlySorted(ps)
    ensures Whole(ToMap(ps), begin, end, Range(ps, begin, end))
  {
    RangeSorted(ps, begin, end);
    RangeTimes(ps, begin, end);
    hide Range, ToMap, TimesIn;
    forall p | p in Range(ps, begin, end) ensures p.time in ToMap(ps) && ToMap(ps)[p.time] == p.value {
      RangeMembers(ps, begin, end, p);
      MapHolds(ps, p);
    }
  }

  lemma RangeTimes(ps: seq<Point>, begin: int, end: int)
    requires StrictlySorted(ps)
    ensures Times(Range(ps, begin, end)) == TimesIn(ToMap(ps), begin, end)
  {
    hide Range, StrictlySorted;
    forall t: timestamp ensures t in Times(Range(ps, begin, end)) <==> t in TimesIn(ToMap(ps), begin, end) {
      if t in Times(Range(ps, begin, end)) {
        var p :| p in Range(ps, begin, end) && p.time == t;
        RangeMembers(ps, begin, end, p);
      } else if t in TimesIn(ToMap(ps), begin, end) {
        RangeMembers(ps, begin, end, Point(t, ValueAt(ps, t)));
      }
    }
  }

  lemma FirstIsEarliest(all: seq<Point>, n: nat)
    requires StrictlySorted(all)
    ensures StrictlySorted(First(all, n))
    ensures forall t, p :: t in Times(all) - Times(First(all, n)) && p in First(all, n) ==> p.time < t
  {
    var r := First(all, n);
    forall t, p | t in Times(all) - Times(r) && p in r ensures p.time < t {
      var q :| q in all && q.time == t;
      var i :| 0 <= i < |all| && all[i] == q;
    }
  }

  lemma LatestAnswers(ps: seq<Point>)
    requires StrictlySorted(ps)
    ensures IsLatest(ToMap(ps), Latest(ps))
  {
    if |ps| > 0 {
      MapHolds(ps, ps[|ps| - 1]);
    }
  }

  // ----- each operation is a step

  lemma WriteIsStep(before: Files, after: Files, max: nat, id: uint32, size: uint32, batch: seq<Point>, r: int)
    requires Sound(before, max) && SameElsewhere(before, after, max, id)
    requires id >= max ==> r == -1
    requires id < max ==> Lookup(after, id).Some?
    requires id < max ==> WriteDone(FoundIn(before, id, size), batch, size, r, Lookup(after, id).value)
    ensures Step(View(before, max), max, Write(id, size, batch), Status(r), View(after, max))
  {
    hide Sound, Lookup, ToMap, Overwrites;
    var s, s' := View(before, max), View(after, max);
    if id >= max {
      SameViewSameStore(before, after, max);
    } else {
      assert s' == s[id := s'[id]];
      FoundEntry(before, max, id, size);
      if r == 0 {
        FoundSorted(before, max, id, size);
        OverwrittenMap(FoundIn(before, id, size).points, batch, Lookup(after, id).value.points);
      }
    }
  }

  ghost function FoundIn(files: Files, id: uint32, size: nat): SeriesState {
    if Lookup(files, id).Some? then Lookup(files, id).value else SeriesState(size, [])
  }

  lemma FoundEntry(files: Files, max: nat, id: uint32, size: nat)
    requires id < max
    ensures EntryOf(FoundIn(files, id, size))
         == if id in View(files, max) then View(files, max)[id] else Entry(size, map[])
  {
    assert ToMap([]) == map[];
  }

  lemma FoundSorted(files: Files, max: nat, id: uint32, size: nat)
    requires Sound(files, max) && id < max
    ensures StrictlySorted(FoundIn(files, id, size).points)
  {
    hide Sound;
    if Lookup(files, id).Some? {
      LookupSorted(files, max, id);
    }
  }

  lemma OverwrittenMap(before: seq<Point>, batch: seq<Point>, after: seq<Point>)
    requires StrictlySorted(before) && Overwrites(before, batch, after)
    ensures Overridden(ToMap(before), batch, ToMap(after))
  {
    hide StrictlySorted, Overwrites;
    OverwriteMeaning(before, batch, after);
  }

  lemma TruncateIsStep(before: Files, after: Files, max: nat, id: uint32)
    requires SameElsewhere(before, after, max, id) && (id < max ==> Lookup(after, id) == None)
    ensures Step(View(before, max), max, Truncate(id), Status(0), View(after, max))
  {
    hide Lookup, ToMap;
    assert View(after, max) == View(before, max) - {id};
  }

  lemma ReadIsStep(before: Files, after: Files, max: nat, id: uint32, begin: timestamp, end: timestamp, n: nat)
    requires Sound(before, max) && SameView(before, after, max)
    ensures Step(View(before, max), max, Read(id, begin, end, n),
                 Points(First(Range(PointsOf(before, id, max), begin, end), n)), View(after, max))
  {
    hide Sound, ToMap, Earliest, Range, First;
    SameViewSameStore(before, after, max);
    PointsEntry(before, max, id);
    ReadAnswers(PointsOf(before, id, max), begin, end, n);
  }

  lemma ReadAllIsStep(before: Files, after: Files, max: nat, id: uint32, begin: timestamp, end: timestamp)
    requires Sound(before, max) && SameView(before, after, max)
    ensures Step(View(before, max), max, ReadAll(id, begin, end),
                 Points(Range(PointsOf(before, id, max), begin, end)), View(after, max))
  {
    hide Sound, ToMap, Whole, Range;
    SameViewSameStore(before, after, max);
    PointsEntry(before, max, id);
    ReadAllAnswers(PointsOf(before, id, max), begin, end);
  }

  lemma LatestIsStep(before: Files, after: Files, max: nat, id: uint32)
    requires Sound(before, max) && SameView(before, after, max)
    ensures Step(View(before, max), max, ReadLatest(id), Points(Latest(PointsOf(before, id, max))), View(after, max))
  {
    hide Sound, ToMap, IsLatest;
    SameViewSameStore(before, after, max);
    PointsEntry(before, max, id);
    LatestAnswers(PointsOf(before, id, max));
  }

  lemma PointsEntry(files: Files, max: nat, id: uint32)
    requires Sound(files, max)
    ensures StrictlySorted(PointsOf(files, id, max))
    ensures ToMap(PointsOf(files, id, max)) == if id in View(files, max) then View(files, max)[id].values else map[]
  {
    hide Sound;
    assert ToMap([]) == map[];
    if id < max && Lookup(files, id).Some? {
      LookupSorted(files, max, id);
    }
  }

  // ----- running operations

  /** Every open series was opened since. */
  twostate predicate OpenedSince(new db: Database)
    reads db, db.series
  {
    fresh(db) && fresh(db.series) &&
    forall i :: 0 <= i < db.series.Length && db.series[i] != null ==> fresh(db.series[i])
  }

  method Execute(db: Database, op: Op) returns (next: Database, reply: Reply)
    requires db.Valid() && Allowed(op)
    modifies db.series, db.disk, set i | 0 <= i < db.series.Length :: db.series[i]
    ensures next.Valid() && next.disk == db.disk && next.maxSeries == db.maxSeries
    ensures next == db || (fresh(next) && fresh(next.series))
    ensures forall i :: 0 <= i < next.maxSeries && next.series[i] != null ==>
              fresh(next.series[i]) || (next == db && next.series[i] == old(db.series[i]))
    ensures Step(View(old(db.disk.files), db.maxSeries), db.maxSeries, op, reply, View(db.disk.files, db.maxSeries))
  {
    hide Sound, Lookup, Step, View;
    next := db;
    ghost var before, max := db.disk.files, db.maxSeries;
    match op
    case Write(id, size, batch) =>
      var points := new Point[|batch|](i requires 0 <= i < |batch| => batch[i]);
      assert points[..] == batch;
      var r := db.Write(id, points, size);
      WriteIsStep(before, db.disk.files, max, id, size, batch, r);
      reply := Status(r);
    case Truncate(id) =>
      var r := db.Truncate(id);
      TruncateIsStep(before, db.disk.files, max, id);
      reply := Status(r);
    case Read(id, begin, end, n) =>
      var r := db.Read(id, begin, end, n);
      ReadIsStep(before, db.disk.files, max, id, begin, end, n);
      reply := Points(r.points);
    case ReadLatest(id) =>
      var r := db.ReadLatest(id);
      LatestIsStep(before, db.disk.files, max, id);
      reply := Points(r.points);
    case Restart =>
      next := new Database(db.disk, db.maxSeries);
      RestartIsStep(before, max);
      reply := Restarted;
  }

  lemma RestartIsStep(files: Files, max: nat)
    ensures Step(View(files, max), max, Restart, Restarted, View(files, max))
  {
  }

  /** Any sequence of operations, restarts included, replies as a run of the store. */
  method Run(disk: Disk, max: nat, ops: seq<Op>) returns (replies: seq<Reply>)
    requires Sound(disk.files, max) && forall i :: 0 <= i < |ops| ==> Allowed(ops[i])
    modifies disk
    ensures Sound(disk.files, max)
    ensures Runs(View(old(disk.files), max), max, ops, replies, View(disk.files, max))
  {
    hide Sound, View, Step;
    var db := new Database(disk, max);
    replies := [];
    for k := 0 to |ops|
      invariant db.Valid() && db.disk == disk && db.maxSeries == max && OpenedSince(db)
      invariant Runs(View(old(disk.files), max), max, ops[..k], replies, View(disk.files, max))
    {
      ghost var mid := View(disk.files, max);
      var reply;
      db, reply := Execute(db, ops[k]);
      RunsSnoc(View(old(disk.files), max), max, ops[..k], replies, mid, ops[k], reply, View(disk.files, max));
      assert ops[..k] + [ops[k]] == ops[..k + 1];
      replies := replies + [reply];
    }
    assert ops[..|ops|] == ops;
  }

  lemma RunsSnoc(s: Store, max: nat, ops: seq<Op>, replies: seq<Reply>, mid: Store, op: Op, reply: Reply, s': Store)
    requires Runs(s, max, ops, replies, mid) && Step(mid, max, op, reply, s')
    ensures Runs(s, max, ops + [op], replies + [reply], s')
  {
    hide Step;
    assert (ops + [op])[..|ops|] == ops && (replies + [reply])[..|ops|] == replies;
  }
}
