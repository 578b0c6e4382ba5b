/** One series: a mapped file with its count and capacity. */
module Series {
  import opened Bytes
  import opened DataPoint
  import opened SeriesFile

  const FILE_GROW_INCREMENT := 1000000

  /** A directory. A mapped file is the bytes of the file, so writes through the map are writes to it. */
  class Disk {
    var files: map<string, seq<byte>>

    constructor ()
      ensures files == map[]
    {
      files := map[];
    }

    /** fopen with mode a+: an absent file is created empty. */
    method Open(name: string)
      modifies this
      ensures files == old(files)[name := OpenedBytes(old(files), name)]
    {
      if name !in files {
        files := files[name := []];
      } else {
        assert files == files[name := files[name]];
      }
    }

    /** file_grow: appends `increment` copies of a byte, a buffer at a time. */
    method Grow(name: string, increment: nat, pattern: byte)
      modifies this
      ensures files == old(files)[name := OpenedBytes(old(files), name) + Repeat(pattern, increment)]
    {
      Open(name);
      var left := increment;
      ghost var before := files[name];
      assert files[name] == before + Repeat(pattern, 0);
      while left > 0
        invariant 0 <= left <= increment
        invariant files == old(files)[name := before + Repeat(pattern, increment - left)]
      {
        var n := Min(GROW_BUFFER_SIZE, left);
        ghost var done := Repeat(pattern, increment - left);
        assert before + done + Repeat(pattern, n) == before + Repeat(pattern, increment - (left - n));
        files := files[name := files[name] + Repeat(pattern, n)];
        left := left - n;
      }
    }

    /** readdir: every file and the two directory entries, in no particular order. */
    method List() returns (names: seq<string>)
      ensures forall n :: n in names <==> n in files || n == "." || n == ".."
    {
      names := [".", ".."];
      var left := files.Keys;
      while left != {}
        invariant left <= files.Keys
        invariant forall n :: n in names <==> (n in files && n !in left) || n == "." || n == ".."
        decreases |left|
      {
        var n :| n in left;
        names := names + [n];
        left := left - {n};
      }
    }

    /** file_unlink. */
    method Unlink(name: string)
      modifies this
      ensures files == old(files) - {name}
    {
      files := files - {name};
    }
  }

  function OpenedBytes(files: map<string, seq<byte>>, name: string): seq<byte> {
    if name in files then files[name] else []
  }

  /** One point for every nonzero time of a batch, taken from the batch. */
  ghost predicate Chosen(batch: seq<Point>, kept: seq<Point>) {
    && StrictlySorted(kept)
    && (forall p :: p in kept ==> p in batch && p.time != 0)
    && Times(kept) == Times(batch) - {0}
  }

  lemma KeptCount(batch: seq<Point>, kept: seq<Point>)
    requires Chosen(batch, kept)
    ensures |kept| == |Times(batch) - {0}|
  {
    CountTimes(kept);
  }

  /** The capacity, in points of `size` bytes, that `n` more points leave: as it was when they fit, and
      otherwise larger by a million bytes of points or by `n` points. */
  function GrownFor(capacity: nat, count: nat, n: nat, size: nat): nat
    requires size > 0
  {
    if count + n <= capacity then capacity else capacity + Max(1000000 / size, n)
  }

  /** series_prepare_input: sorts and thins the batch in place. */
  method Prepare(points: array<Point>) returns (count: nat)
    modifies points
    ensures count <= points.Length && Chosen(old(points[..]), points[..count])
  {
    ghost var batch := points[..];
    Sort(points);
    ghost var sorted := points[..];
    DistinctSorted(sorted);
    count := NonZeroDistinct(points);
    ChosenFromRuns(batch, sorted, points[..count]);
  }

  lemma ChosenFromRuns(batch: seq<Point>, sorted: seq<Point>, kept: seq<Point>)
    requires multiset(batch) == multiset(sorted) && LastOfRuns(sorted, kept)
    ensures Chosen(batch, kept)
  {
    hide StrictlySorted;
    forall p: Point ensures p in batch <==> p in sorted {
      assert p in multiset(batch) <==> p in multiset(sorted);
    }
    forall p | p in kept ensures p in sorted {
      assert IsLastOfRun(sorted, p);
    }
  }

  /** `after` is `before` overridden by one point of the batch for each of its nonzero times. */
  ghost predicate Overwrites(before: seq<Point>, batch: seq<Point>, after: seq<Point>) {
    exists kept :: Chosen(batch, kept) && after == Merge(kept, before)
  }

  /** What an overwrite does to the map: batch times take a value of the batch, all other times keep
      theirs, and the count grows by the number of times that are new. */
  lemma OverwriteMeaning(before: seq<Point>, batch: seq<Point>, after: seq<Point>)
    requires StrictlySorted(before) && Overwrites(before, batch, after)
    ensures StrictlySorted(after)
    ensures Times(after) == Times(before) + (Times(batch) - {0})
    ensures forall t :: t in Times(batch) && t != 0 ==> Point(t, ToMap(after)[t]) in batch
    ensures forall t :: t in Times(before) && (t !in Times(batch) || t == 0) ==> ToMap(after)[t] == ToMap(before)[t]
    ensures |after| == |before| + |Times(batch) - {0} - Times(before)|
  {
    hide Merge, StrictlySorted, ToMap;
    var kept :| Chosen(batch, kept) && after == Merge(kept, before);
    MergeIsOverride(kept, before);
    forall t | t in Times(batch) && t != 0 ensures Point(t, ToMap(after)[t]) in batch {
      MapHolds(kept, Point(t, ToMap(kept)[t]));
    }
    CountTimes(before);
    CountTimes(after);
    CountNew(Times(before), Times(batch) - {0});
  }

  lemma CountNew(a: set<timestamp>, b: set<timestamp>)
    ensures |a + b| == |a| + |b - a|
  {
    assert a + b == a + (b - a);
  }

  // ----- facts about a batch and the contents

  predicate InRange(p: Point, size: nat) {
    |p.value| == size - TIME_SIZE && 0 < p.time < SENTINEL
  }

  lemma MergeStorable(kept: seq<Point>, contents: seq<Point>, size: nat)
    requires Storable(contents, size) && StrictlySorted(kept)
    requires forall p :: p in kept ==> InRange(p, size)
    ensures Storable(Merge(kept, contents), size)
    ensures |contents| <= |Merge(kept, contents)| <= |contents| + |kept|
  {
    StorableInRange(contents, size);
    hide Merge, StrictlySorted, Storable, Times, InRange;
    MergeIsOverride(kept, contents);
    CountTimes(kept);
    SharedAtMost(Times(kept), Times(contents));
    forall p | p in Merge(kept, contents) ensures InRange(p, size) {
      MergeMembers(kept, contents, p);
    }
    InRangeStorable(Merge(kept, contents), size);
  }

  lemma StorableInRange(ps: seq<Point>, size: nat)
    requires Storable(ps, size)
    ensures size >= TIME_SIZE && StrictlySorted(ps) && forall p :: p in ps ==> InRange(p, size)
  {
  }

  lemma InRangeStorable(ps: seq<Point>, size: nat)
    requires size >= TIME_SIZE && StrictlySorted(ps) && forall p :: p in ps ==> InRange(p, size)
    ensures Storable(ps, size)
  {
    hide StrictlySorted;
    assert forall i :: 0 <= i < |ps| ==> ps[i] in ps;
  }

  lemma SharedAtMost(a: set<timestamp>, b: set<timestamp>)
    ensures |a * b| <= |a|
  {
    assert |a| == |a * b| + |a - b|;
  }

  /** The slice a merge touches, found by the first time and one past the last time. */
  lemma SliceOfMerge(kept: seq<Point>, contents: seq<Point>, b: nat, e: nat)
    requires StrictlySorted(kept) && |kept| > 0 && StrictlySorted(contents)
    requires SplitsAt(contents, kept[0].time, b) && SplitsAt(contents, kept[|kept| - 1].time + 1, e)
    ensures b <= e
    ensures Merge(kept, contents) == contents[..b] + Merge(kept, contents[b..e]) + contents[e..]
  {
    hide Merge;
    SplitsInOrder(contents, kept[0].time, kept[|kept| - 1].time + 1, b, e);
    var front, mid, back := contents[..b], contents[b..e], contents[e..];
    assert contents == front + mid + back;
    forall p, q | p in kept && q in back ensures p.time < q.time {
      assert p.time <= kept[|kept| - 1].time;
    }
    assert AllBefore(mid, back);
    MergeSplice(kept, front, mid, back);
  }

  // ----- the series object

  /** The file, if it exists, holds exactly these points. */
  ghost predicate FileHolds(files: map<string, seq<byte>>, name: string, size: nat, contents: seq<Point>) {
    if name in files then exists capacity :: Layout(files[name], size, capacity, contents)
    else contents == []
  }

  /** The points a read returns and their size; an invalid range has neither. */
  datatype PointsReader = PointsReader(points: seq<Point>, pointSize: nat)

  lemma EmptyLayout(size: nat)
    requires size >= TIME_SIZE
    ensures Layout([], size, 0, [])
  {
  }

  lemma LayoutStorable(file: seq<byte>, size: nat, capacity: nat, contents: seq<Point>)
    requires Layout(file, size, capacity, contents)
    ensures Storable(contents, size) && |contents| <= capacity
  {
  }

  lemma LayoutStrict(file: seq<byte>, size: nat, capacity: nat, contents: seq<Point>)
    requires Layout(file, size, capacity, contents)
    ensures Uniform(Cells(contents, size, capacity), size)
    ensures Cells(contents, size, capacity)[..|contents|] == contents
    ensures Sorted(contents) && forall t :: AtMostOnce(contents, t)
  {
    CellsUniform(contents, size, capacity);
  }

  class TimeSeries {
    const disk: Disk
    const fileName: string
    const pointSize: nat
    var count: nat
    var capacity: nat
    ghost var contents: seq<Point>

    ghost predicate Mapped()
      reads this, disk
    {
      fileName in disk.files && Layout(disk.files[fileName], pointSize, capacity, contents)
    }

    ghost predicate Valid()
      reads this, disk
    {
      Mapped() && count == |contents|
    }

    /** series_create: opens or creates the file and recovers the count by a search for the sentinel. */
    constructor (disk: Disk, fileName: string, pointSize: nat, ghost existing: seq<Point>)
      requires pointSize >= TIME_SIZE && FileHolds(disk.files, fileName, pointSize, existing)
      modifies disk
      ensures Valid() && contents == existing
      ensures fileName !in old(disk.files) ==> capacity == 1000000 / pointSize
      ensures fileName in old(disk.files) && old(disk.files)[fileName] != [] ==>
                capacity == |old(disk.files)[fileName]| / pointSize && disk.files == old(disk.files)
      ensures this.disk == disk && this.fileName == fileName && this.pointSize == pointSize
      ensures disk.files == old(disk.files)[fileName := disk.files[fileName]]
    {
      this.disk, this.fileName, this.pointSize, count, contents := disk, fileName, pointSize, 0, existing;
      new;
      hide Layout, FileHolds, Repeat, OpenedBytes;
      MapOrCreate();
      Recover();
    }

    /** Maps the file, and makes an empty one larger first. */
    method MapOrCreate()
      requires pointSize >= TIME_SIZE && FileHolds(disk.files, fileName, pointSize, contents)
      modifies this`capacity, disk
      ensures Mapped() && disk.files == old(disk.files)[fileName := disk.files[fileName]]
      ensures fileName !in old(disk.files) ==> capacity == 1000000 / pointSize
      ensures fileName in old(disk.files) && old(disk.files)[fileName] != [] ==>
                capacity == |old(disk.files)[fileName]| / pointSize && disk.files == old(disk.files)
    {
      hide Layout, FileHolds, Repeat;
      MapFile();
      if |disk.files[fileName]| == 0 {
        GrowBy(FILE_GROW_INCREMENT / pointSize);
      }
    }

    /** Maps the file; its size in points is the capacity. */
    method MapFile()
      requires pointSize >= TIME_SIZE && FileHolds(disk.files, fileName, pointSize, contents)
      modifies this`capacity, disk
      ensures Mapped() && capacity == |disk.files[fileName]| / pointSize
      ensures disk.files == old(disk.files)[fileName := OpenedBytes(old(disk.files), fileName)]
    {
      hide Layout, Offset;
      EmptyLayout(pointSize);
      disk.Open(fileName);
      ghost var n :| Layout(disk.files[fileName], pointSize, n, contents);
      LayoutBytes(disk.files[fileName], pointSize, n, contents);
      CapacityOf(n, pointSize);
      OffsetAdd(n, 0, pointSize);
      capacity := |disk.files[fileName]| / pointSize;
    }

    /** The count is where the padding starts. */
    method Recover()
      requires Mapped()
      modifies this`count
      ensures Valid()
    {
      count := RecoverCount(disk.files[fileName], pointSize, capacity, contents);
    }

    /** series_grow. */
    method GrowBy(size: nat)
      requires Mapped() && pointSize >= TIME_SIZE
      modifies this`capacity, disk
      ensures Mapped()
      ensures capacity == old(capacity) + Max(FILE_GROW_INCREMENT / pointSize, size)
      ensures disk.files == old(disk.files)[fileName := disk.files[fileName]]
    {
      hide Layout;
      var increment := Max(FILE_GROW_INCREMENT / pointSize, size);
      GrowLayout(disk.files[fileName], pointSize, capacity, contents, increment);
      disk.Grow(fileName, Offset(increment, pointSize), 0xFF);
      capacity := capacity + increment;
    }

    /** series_write. On -1 nothing changes. On 0 the contents are overridden by the batch, whether
        they were appended or spliced into the middle of the file. */
    method Write(points: array<Point>, size: nat) returns (r: int)
      requires Valid()
      requires forall i :: 0 <= i < points.Length ==> |points[i].value| == size - TIME_SIZE && points[i].time < SENTINEL
      modifies this, disk, points
      ensures Valid()
      ensures r == if size == pointSize && Times(old(points[..])) - {0} != {} then 0 else -1
      ensures r == -1 ==> contents == old(contents) && disk.files == old(disk.files)
      ensures r == 0 ==> Overwrites(old(contents), old(points[..]), contents)
      ensures r == 0 ==>
                capacity == GrownFor(old(capacity), old(count), |Times(old(points[..])) - {0}|, pointSize)
      ensures disk.files == old(disk.files)[fileName := disk.files[fileName]]
    {
      if size != pointSize {
        assert disk.files == disk.files[fileName := disk.files[fileName]];
        return -1;
      }
      ghost var batch := points[..];
      var n := Prepare(points);
      ghost var kept := points[..n];
      BatchInRange(batch, kept, size);
      hide Chosen;
      if n == 0 {
        assert disk.files == disk.files[fileName := disk.files[fileName]];
        return -1;
      }
      KeptCount(batch, kept);
      WriteKept(points[..n]);
      assert Chosen(batch, kept) && contents == Merge(kept, old(contents));
      return 0;
    }

    /** The prepared points go behind the last one or are merged into the slice they overlap. */
    method WriteKept(kept: seq<Point>)
      requires Valid() && |kept| > 0 && StrictlySorted(kept)
      requires forall p :: p in kept ==> InRange(p, pointSize)
      modifies this, disk
      ensures Valid() && contents == Merge(kept, old(contents))
      ensures capacity == GrownFor(old(capacity), old(count), |kept|, pointSize)
      ensures disk.files == old(disk.files)[fileName := disk.files[fileName]]
    {
      hide Layout, StrictlySorted, Merge, InRange, Storable, Uniform;
      SizeOk();
      if count + |kept| > capacity {
        GrowBy(|kept|);
      }
      var latest := Latest();
      if kept[0].time > latest {
        Append(kept);
      } else {
        PositiveTimes(kept, pointSize);
        MergeSlice(kept);
      }
    }

    /** The time of the last point, zero for an empty series. */
    method Latest() returns (t: timestamp)
      requires Valid()
      ensures t == if count == 0 then 0 else contents[count - 1].time
    {
      if count == 0 {
        return 0;
      }
      SizeOk();
      ContentTime(disk.files[fileName], pointSize, capacity, contents, count - 1);
      hide Layout, Offset, LeValue;
      t := TimeAt(disk.files[fileName], pointSize, count - 1);
    }

    lemma SizeOk()
      requires Mapped()
      ensures pointSize >= TIME_SIZE && |contents| <= capacity
    {
    }

    method Append(kept: seq<Point>)
      requires Valid() && |kept| > 0 && StrictlySorted(kept) && count + |kept| <= capacity
      requires forall p :: p in kept ==> InRange(p, pointSize)
      requires count > 0 ==> contents[count - 1].time < kept[0].time
      modifies this, disk
      ensures Valid() && contents == Merge(kept, old(contents)) && capacity == old(capacity)
      ensures disk.files == old(disk.files)[fileName := disk.files[fileName]]
    {
      hide Layout, StrictlySorted, Merge, Memcpy, Flatten, Offset, Storable, Uniform, InRange;
      LayoutStorable(disk.files[fileName], pointSize, capacity, contents);
      AppendIsMerge(kept, contents, pointSize);
      AppendLayout(disk.files[fileName], pointSize, capacity, contents, kept);
      disk.files := disk.files[fileName := Memcpy(disk.files[fileName], Offset(count, pointSize), Flatten(kept))];
      count := count + |kept|;
      contents := contents + kept;
    }

    method MergeSlice(kept: seq<Point>)
      requires Valid() && |kept| > 0 && StrictlySorted(kept) && 0 < count && count + |kept| <= capacity
      requires forall p :: p in kept ==> InRange(p, pointSize)
      modifies this, disk
      ensures Valid() && contents == Merge(kept, old(contents)) && capacity == old(capacity)
      ensures disk.files == old(disk.files)[fileName := disk.files[fileName]]
    {
      hide Layout, StrictlySorted, Merge, InRange, Memcpy, Memmove, Flatten, Offset, SplitsAt;
      var b, e := FindSlice(kept);
      var merged := MergedSlice(kept, b, e);
      SpliceOk(disk.files[fileName], kept, contents, pointSize, capacity, b, e, merged);
      var file := disk.files[fileName];
      var tailCount := count - e;
      NoTail(file, Offset(b + |merged|, pointSize), Offset(e, pointSize), Offset(tailCount, pointSize));
      OffsetAdd(0, 0, pointSize);
      if tailCount > 0 {
        file := Memmove(file, Offset(b + |merged|, pointSize), Offset(e, pointSize), Offset(tailCount, pointSize));
      }
      disk.files := disk.files[fileName := Memcpy(file, Offset(b, pointSize), Flatten(merged))];
      count := count + |merged| - (e - b);
      contents := Merge(kept, contents);
    }

    /** Where the first new time and the end of the last new time fall. */
    method FindSlice(kept: seq<Point>) returns (b: nat, e: nat)
      requires Valid() && |kept| > 0 && StrictlySorted(kept) && 0 < count
      requires forall p :: p in kept ==> InRange(p, pointSize)
      ensures SplitsAt(contents, kept[0].time, b) && SplitsAt(contents, kept[|kept| - 1].time + 1, e)
      ensures b <= e <= count
    {
      assert kept[|kept| - 1] in kept;
      var first, next := kept[0].time, (kept[|kept| - 1].time + 1) % 0x1_0000_0000_0000_0000;
      var begin := FindTime(first);
      var end := FindTime(next);
      b, e := begin.value, end.value;
      SplitsInOrder(contents, first, next, b, e);
    }

    /** data_point_find on the points of this series. */
    method FindTime(t: timestamp) returns (r: Option<nat>)
      requires Valid()
      ensures r.None? <==> count == 0
      ensures r.Some? ==> SplitsAt(contents, t, r.value)
    {
      LayoutStrict(disk.files[fileName], pointSize, capacity, contents);
      hide Sorted, AtMostOnce, Flatten, Uniform, Storable;
      r := Find(disk.files[fileName], pointSize, count, t, Cells(contents, pointSize, capacity));
    }

    /** data_point_merge of the batch and the slice, into a fresh buffer. */
    method MergedSlice(kept: seq<Point>, b: nat, e: nat) returns (merged: seq<Point>)
      requires Valid() && |kept| > 0 && b <= e <= count
      ensures merged == Merge(kept, contents[b..e])
    {
      SliceRead(disk.files[fileName], pointSize, capacity, contents, b, e);
      hide Layout;
      var slice := ReadPoints(disk.files[fileName], pointSize, b, e);
      var buffer := new Point[|slice| + |kept|](_ => kept[0]);
      var m := MergeInto(kept, slice, buffer);
      merged := buffer[..m];
    }

    /** series_read: the first `maxPoints` points with begin <= time < end. */
    method Read(begin: timestamp, end: timestamp, maxPoints: nat) returns (r: PointsReader)
      requires Valid()
      ensures r.pointSize == if begin > end then 0 else pointSize
      ensures r.points == First(Range(contents, begin, end), maxPoints)
    {
      hide Layout, Range, SplitsAt, ReadPoints, Offset;
      if begin > end {
        RangeEmpty(contents, begin, end);
        return PointsReader([], 0);
      }
      var b := FindTime(begin);
      var e := FindTime(end);
      if b.None? {
        RangeOfNone(contents, begin, end);
        return PointsReader([], pointSize);
      }
      RangeBetween(contents, begin, end, b.value, e.value);
      var total := Min(maxPoints, e.value - b.value);
      SliceRead(disk.files[fileName], pointSize, capacity, contents, b.value, b.value + total);
      r := PointsReader(ReadPoints(disk.files[fileName], pointSize, b.value, b.value + total), pointSize);
    }

    /** series_read_latest: the point with the largest time, if there is one. */
    method ReadLatest() returns (r: PointsReader)
      requires Valid()
      ensures r.pointSize == pointSize
      ensures r.points == if contents == [] then [] else [contents[|contents| - 1]]
      ensures forall p, q :: p in r.points && q in contents ==> q.time <= p.time
    {
      hide Layout, ReadPoints, Offset;
      if count == 0 {
        return PointsReader([], pointSize);
      }
      SliceRead(disk.files[fileName], pointSize, capacity, contents, count - 1, count);
      LastIsLatest(disk.files[fileName], pointSize, capacity, contents);
      r := PointsReader(ReadPoints(disk.files[fileName], pointSize, count - 1, count), pointSize);
    }
  }

  lemma RangeBetween(ps: seq<Point>, begin: int, end: int, b: nat, e: nat)
    requires begin <= end && SplitsAt(ps, begin, b) && SplitsAt(ps, end, e)
    ensures b <= e <= |ps| && Range(ps, begin, end) == ps[b..e]
  {
    SplitsInOrder(ps, begin, end, b, e);
    RangeIsSlice(ps, begin, end, b, e);
  }

  lemma RangeOfNone(ps: seq<Point>, begin: int, end: int)
    requires |ps| == 0
    ensures Range(ps, begin, end) == []
  {
  }

  lemma LastIsLatest(file: seq<byte>, size: nat, capacity: nat, contents: seq<Point>)
    requires Layout(file, size, capacity, contents) && |contents| > 0
    ensures contents[|contents| - 1..] == [contents[|contents| - 1]]
    ensures forall q :: q in contents ==> q.time <= contents[|contents| - 1].time
  {
  }

  function First(ps: seq<Point>, n: nat): seq<Point> {
    if |ps| <= n then ps else ps[..n]
  }

  lemma {:induction false} RangeEmpty(ps: seq<Point>, begin: int, end: int)
    requires begin >= end
    ensures Range(ps, begin, end) == []
  {
    if |ps| > 0 {
      RangeEmpty(ps[..|ps| - 1], begin, end);
    }
  }

  lemma ContentTime(file: seq<byte>, size: nat, capacity: nat, contents: seq<Point>, i: nat)
    requires Layout(file, size, capacity, contents) && i < |contents|
    ensures Offset(i, size) + TIME_SIZE <= |file| && TimeAt(file, size, i) == contents[i].time
  {
    CellsUniform(contents, size, capacity);
    CellAt(Cells(contents, size, capacity), size, i);
  }

  lemma SliceRead(file: seq<byte>, size: nat, capacity: nat, contents: seq<Point>, b: nat, e: nat)
    requires Layout(file, size, capacity, contents) && b <= e <= |contents|
    ensures size >= TIME_SIZE && Offset(e, size) <= |file| && ReadPoints(file, size, b, e) == contents[b..e]
  {
    hide ReadPoints, Flatten, Offset, StrictlySorted;
    CellsUniform(contents, size, capacity);
    ReadPointsOf(Cells(contents, size, capacity), size, b, e);
    assert Cells(contents, size, capacity)[b..e] == contents[b..e];
  }

  lemma PositiveTimes(kept: seq<Point>, size: nat)
    requires |kept| > 0 && forall p :: p in kept ==> InRange(p, size)
    ensures kept[0].time > 0
  {
    assert kept[0] in kept;
  }

  lemma AppendIsMerge(kept: seq<Point>, contents: seq<Point>, size: nat)
    requires Storable(contents, size) && StrictlySorted(kept) && |kept| > 0
    requires forall p :: p in kept ==> InRange(p, size)
    requires |contents| > 0 ==> contents[|contents| - 1].time < kept[0].time
    ensures contents + kept == Merge(kept, contents)
    ensures Storable(contents + kept, size) && Uniform(kept, size)
  {
    AllLater(contents, kept);
    MergeAppends(kept, contents);
    MergeStorable(kept, contents, size);
    hide Merge, StrictlySorted;
    InRangeStorable(kept, size);
  }

  lemma AllLater(a: seq<Point>, b: seq<Point>)
    requires StrictlySorted(a) && StrictlySorted(b) && |b| > 0
    requires |a| > 0 ==> a[|a| - 1].time < b[0].time
    ensures AllBefore(a, b)
  {
    forall p, q | p in a && q in b ensures p.time < q.time {
      assert p.time <= a[|a| - 1].time && b[0].time <= q.time;
    }
  }

  lemma SpliceOk(file: seq<byte>, kept: seq<Point>, contents: seq<Point>, size: nat, capacity: nat,
                 b: nat, e: nat, merged: seq<Point>)
    requires Layout(file, size, capacity, contents) && StrictlySorted(kept) && |kept| > 0
    requires |contents| + |kept| <= capacity && forall p :: p in kept ==> InRange(p, size)
    requires SplitsAt(contents, kept[0].time, b) && SplitsAt(contents, kept[|kept| - 1].time + 1, e)
    requires b <= e <= |contents| && merged == Merge(kept, contents[b..e])
    ensures Spliceable(file, size, b, e, |contents|, merged)
    ensures Layout(Splice(file, size, b, e, |contents|, merged), size, capacity, Merge(kept, contents))
    ensures |Merge(kept, contents)| == |contents| + |merged| - (e - b)
  {
    SliceOfMerge(kept, contents, b, e);
    MergeStorable(kept, contents, size);
    SliceStorable(contents, size, b, e);
    hide StrictlySorted, Merge, Flatten, Offset, Splice, Spliceable, InRange;
    MergeStorable(kept, contents[b..e], size);
    SpliceLayout(file, size, capacity, contents, b, e, merged, Merge(kept, contents));
  }

  lemma SliceStorable(contents: seq<Point>, size: nat, b: nat, e: nat)
    requires Storable(contents, size) && b <= e <= |contents|
    ensures Storable(contents[b..e], size)
  {
  }

  lemma NoTail(file: seq<byte>, to: nat, from: nat, n: nat)
    requires to + n <= |file| && from + n <= |file|
    ensures n == 0 ==> Memmove(file, to, from, n) == file
  {
  }

  lemma BatchInRange(batch: seq<Point>, kept: seq<Point>, size: nat)
    requires Chosen(batch, kept)
    requires forall i :: 0 <= i < |batch| ==> |batch[i].value| == size - TIME_SIZE && batch[i].time < SENTINEL
    ensures StrictlySorted(kept) && forall p :: p in kept ==> InRange(p, size)
    ensures |kept| == 0 <==> Times(batch) - {0} == {}
  {
    if |kept| > 0 {
      assert kept[0].time in Times(kept);
    }
  }
}
