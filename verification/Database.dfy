/** The database: a cache of open series over a directory of files. */
module Database {
  import opened Bytes
  import opened DataPoint
  import opened SeriesFile
  import opened FileNames
  import opened Directory
  import opened Series

  /** The same answer for every id the database serves. */
  ghost predicate SameView(before: Files, after: Files, max: nat) {
    forall id: uint32 :: id < max ==> Lookup(after, id) == Lookup(before, id)
  }

  /** The same answer for every id but one. */
  ghost predicate SameElsewhere(before: Files, after: Files, max: nat, id: uint32) {
    forall other: uint32 :: other < max && other != id ==> Lookup(after, other) == Lookup(before, other)
  }

  /** A batch the engine is made for: points of one size, times below the sentinel. */
  predicate IsBatch(batch: seq<Point>, size: nat) {
    TIME_SIZE <= size < 0x1_0000_0000 &&
    forall i :: 0 <= i < |batch| ==> |batch[i].value| == size - TIME_SIZE && batch[i].time < SENTINEL
  }

  class Database {
    const disk: Disk
    const maxSeries: nat
    const series: array<TimeSeries?>

    /** The open series of a slot is the series of that id, and agrees with its file. */
    ghost predicate Slot(i: nat)
      requires i < series.Length
      reads this, series, disk, series[i]
    {
      series[i] != null ==>
        && i < 0x1_0000_0000 && series[i].disk == disk && TIME_SIZE <= series[i].pointSize < 0x1_0000_0000
        && series[i].fileName == FileName(i, series[i].pointSize) && series[i].Valid()
    }

    ghost predicate Valid()
      reads this, series, disk, set i | 0 <= i < series.Length :: series[i]
    {
      series.Length == maxSeries && Sound(disk.files, maxSeries) && forall i :: 0 <= i < maxSeries ==> Slot(i)
    }

    /** Every slot is empty, holds what it held, or holds a series opened since. */
    twostate predicate SlotsKept()
      reads this, series
    {
      forall i :: 0 <= i < series.Length ==> series[i] == null || series[i] == old(series[i]) || fresh(series[i])
    }

    /** database_create over a directory; also how a database is restarted over its own files. */
    constructor (disk: Disk, maxSeries: nat)
      requires Sound(disk.files, maxSeries)
      ensures Valid() && this.disk == disk && this.maxSeries == maxSeries && fresh(series)
      ensures forall i :: 0 <= i < maxSeries ==> series[i] == null
    {
      this.disk, this.maxSeries := disk, maxSeries;
      series := new TimeSeries?[maxSeries](_ => null);
    }

    /** An open series shows what the directory says about its id. */
    lemma OpenShows(id: uint32)
      requires Valid() && id < maxSeries && series[id] != null
      ensures Lookup(disk.files, id) == Some(SeriesState(series[id].pointSize, series[id].contents))
      ensures forall s: uint32 :: FileName(id, s) in disk.files ==> s == series[id].pointSize
    {
      assert Slot(id);
      var s := series[id];
      LookupFile(disk.files, maxSeries, id, s.pointSize);
      ContentsOfLayout(disk.files[s.fileName], s.pointSize, s.capacity, s.contents);
    }

    /** Opens the file of a series. */
    method OpenFile(id: uint32, size: uint32) returns (s: TimeSeries)
      requires Sound(disk.files, maxSeries) && id < maxSeries && size >= TIME_SIZE
      requires forall n: uint32 :: FileName(id, n) in disk.files ==> n == size
      modifies disk
      ensures fresh(s) && s.Valid() && s.disk == disk && s.fileName == FileName(id, size) && s.pointSize == size
      ensures disk.files == old(disk.files)[s.fileName := disk.files[s.fileName]]
      ensures Sound(disk.files, maxSeries) && SameElsewhere(old(disk.files), disk.files, maxSeries, id)
      ensures Lookup(disk.files, id) == if old(Lookup(disk.files, id)).Some? then old(Lookup(disk.files, id))
                                        else Some(SeriesState(size, []))
    {
      ghost var name, files := FileName(id, size), disk.files;
      ghost var existing := if name in files then ContentsOf(files[name], size) else [];
      hide Layout, FileName, Sound, Lookup, ContentsOf, FileHolds, SameElsewhere;
      ExistingHeld(files, maxSeries, id, size);
      s := new TimeSeries(disk, FileName(id, size), size, existing);
      Opened(files, disk.files, maxSeries, id, size, s.capacity);
    }

    /** Opens a series into its slot. */
    method OpenSeries(id: uint32, size: uint32)
      requires Valid() && id < maxSeries && size >= TIME_SIZE && series[id] == null
      requires forall s: uint32 :: FileName(id, s) in disk.files ==> s == size
      modifies series, disk
      ensures Valid() && series[id] != null && fresh(series[id])
      ensures SameElsewhere(old(disk.files), disk.files, maxSeries, id)
      ensures Lookup(disk.files, id) == if old(Lookup(disk.files, id)).Some? then old(Lookup(disk.files, id))
                                        else Some(SeriesState(size, []))
      ensures forall i :: 0 <= i < maxSeries && i != id ==> series[i] == old(series[i])
    {
      hide Layout, FileName, Sound, Lookup, SameElsewhere;
      var s := OpenFile(id, size);
      series[id] := s;
      forall i | 0 <= i < maxSeries && i != id ensures Slot(i) {
        assert old(Slot(i));
        if series[i] != null {
          OtherFile(id, size, i, series[i].pointSize);
        }
      }
    }

    /** database_get_or_load_data_series. */
    method GetOrLoad(id: uint32) returns (s: TimeSeries?)
      requires Valid()
      modifies series, disk
      ensures Valid() && SameView(old(disk.files), disk.files, maxSeries)
      ensures id >= maxSeries ==> s == null
      ensures id < maxSeries ==> s == series[id]
      ensures id < maxSeries && s == null ==> Lookup(disk.files, id) == None
      ensures s != null ==> s == old(if id < series.Length then series[id] else null) || fresh(s)
      ensures forall i :: 0 <= i < maxSeries && i != id ==> series[i] == old(series[i])
    {
      hide Sound, Lookup, Slot;
      if id >= maxSeries {
        return null;
      }
      if series[id] != null {
        return series[id];
      }
      var names := disk.List();
      var i := 0;
      while i < |names| && series[id] == null
        invariant 0 <= i <= |names| && Valid()
        invariant SameView(old(disk.files), disk.files, maxSeries)
        invariant series[id] == null ==> disk.files == old(disk.files)
        invariant series[id] == null ==> forall k :: 0 <= k < i ==> !IsCandidate(id, names[k])
        invariant series[id] != null ==> fresh(series[id])
        invariant forall k :: 0 <= k < maxSeries && k != id ==> series[k] == old(series[k])
      {
        var name := names[i];
        i := i + 1;
        if IsCandidate(id, name) {
          var size := ToUint32(Strtol(name[|Root(id)|..]));
          NameOfSeries(disk.files, maxSeries, id, name, size);
          OpenSeries(id, size);
        }
      }
      if series[id] == null {
        NoName(disk.files, id, names);
      }
      s := series[id];
    }

    /** What a write to `id` finds: its series, or an empty one of the batch's point size. */
    ghost function Found(id: uint32, size: nat): SeriesState
      reads disk
    {
      if Lookup(disk.files, id).Some? then Lookup(disk.files, id).value else SeriesState(size, [])
    }

    /** database_get_or_create_data_series. A created series stays, with its point size, even when the
        write that asked for it is refused. */
    method GetOrCreate(id: uint32, size: uint32) returns (s: TimeSeries?)
      requires Valid() && size >= TIME_SIZE
      modifies series, disk
      ensures Valid() && SameElsewhere(old(disk.files), disk.files, maxSeries, id)
      ensures id >= maxSeries ==> s == null
      ensures id < maxSeries ==> s == series[id] && s != null
      ensures id < maxSeries ==> Lookup(disk.files, id) == Some(old(Found(id, size)))
      ensures s != null ==> s == old(if id < series.Length then series[id] else null) || fresh(s)
      ensures SlotsKept()
    {
      hide Sound, Lookup, Slot;
      if id >= maxSeries {
        return null;
      }
      s := GetOrLoad(id);
      if s != null {
        OpenShows(id);
        return;
      }
      NoFile(disk.files, id, size);
      OpenSeries(id, size);
      s := series[id];
    }

    /** A write through an open series. */
    method WriteOpen(id: uint32, points: array<Point>, size: uint32) returns (r: int)
      requires Valid() && IsBatch(points[..], size) && id < maxSeries && series[id] != null
      modifies series[id], disk, points
      ensures Valid() && SameElsewhere(old(disk.files), disk.files, maxSeries, id)
      ensures Lookup(old(disk.files), id).Some? && Lookup(disk.files, id).Some?
      ensures WriteDone(Lookup(old(disk.files), id).value, old(points[..]), size, r, Lookup(disk.files, id).value)
    {
      hide Sound, Lookup, Layout, Overwrites, ContentsOf, FileName;
      OpenShows(id);
      assert Slot(id);
      var s := series[id];
      ghost var files := disk.files;
      r := s.Write(points, size);
      PutFile(files, maxSeries, id, s.pointSize, disk.files[s.fileName], s.capacity, s.contents);
      forall i | 0 <= i < maxSeries && i != id ensures Slot(i) {
        assert old(Slot(i));
        if series[i] != null {
          OtherFile(id, s.pointSize, i, series[i].pointSize);
        }
      }
    }

    /** database_write. */
    method Write(id: uint32, points: array<Point>, size: uint32) returns (r: int)
      requires Valid() && IsBatch(points[..], size)
      modifies series, disk, points, if id < maxSeries && id < series.Length then {series[id]} else {}
      ensures Valid() && SameElsewhere(old(disk.files), disk.files, maxSeries, id)
      ensures id >= maxSeries ==> r == -1
      ensures id < maxSeries ==> Lookup(disk.files, id).Some?
      ensures id < maxSeries ==> WriteDone(old(Found(id, size)), old(points[..]), size, r, Lookup(disk.files, id).value)
      ensures SlotsKept()
    {
      hide Sound, Lookup, Slot, WriteDone;
      var s := GetOrCreate(id, size);
      if s == null {
        return -1;
      }
      r := WriteOpen(id, points, size);
    }

    /** database_truncate: the file goes and the slot is cleared; an unknown id is fine. */
    method Truncate(id: uint32) returns (r: int)
      requires Valid()
      modifies series, disk
      ensures Valid() && r == 0 && SameElsewhere(old(disk.files), disk.files, maxSeries, id)
      ensures id < maxSeries ==> Lookup(disk.files, id) == None
      ensures SlotsKept()
    {
      hide Sound, Lookup, Layout, ContentsOf, FileName;
      var s := GetOrLoad(id);
      if s == null {
        return 0;
      }
      OpenShows(id);
      assert Slot(id);
      ghost var files := disk.files;
      label Before:
      disk.Unlink(s.fileName);
      RemoveFile(files, maxSeries, id, s.pointSize);
      series[id] := null;
      forall i | 0 <= i < maxSeries && i != id ensures Slot(i) {
        assert old@Before(Slot(i));
        if series[i] != null {
          OtherFile(id, s.pointSize, i, series[i].pointSize);
        }
      }
      return 0;
    }

    /** database_get_point_size: zero for an unknown series. */
    method GetPointSize(id: uint32) returns (size: nat)
      requires Valid()
      modifies series, disk
      ensures Valid() && SameView(old(disk.files), disk.files, maxSeries)
      ensures size == PointSizeOf(old(disk.files), id, maxSeries)
      ensures SlotsKept()
    {
      hide Sound, Lookup, Slot;
      var s := GetOrLoad(id);
      if s != null {
        OpenShows(id);
      }
      size := if s == null then 0 else s.pointSize;
    }

    /** database_read. */
    method Read(id: uint32, begin: timestamp, end: timestamp, maxPoints: nat) returns (r: PointsReader)
      requires Valid()
      modifies series, disk
      ensures Valid() && SameView(old(disk.files), disk.files, maxSeries)
      ensures r.points == First(Range(PointsOf(old(disk.files), id, maxSeries), begin, end), maxPoints)
      ensures r.pointSize == if begin > end then 0 else PointSizeOf(old(disk.files), id, maxSeries)
      ensures SlotsKept()
    {
      hide Sound, Lookup, Range, First;
      var s := GetOrLoad(id);
      if s == null {
        NothingInRange(begin, end, maxPoints);
        return PointsReader([], 0);
      }
      OpenShows(id);
      assert Slot(id);
      r := s.Read(begin, end, maxPoints);
    }

    /** database_read_latest. */
    method ReadLatest(id: uint32) returns (r: PointsReader)
      requires Valid()
      modifies series, disk
      ensures Valid() && SameView(old(disk.files), disk.files, maxSeries)
      ensures r.points == Latest(PointsOf(old(disk.files), id, maxSeries))
      ensures r.pointSize == PointSizeOf(old(disk.files), id, maxSeries)
      ensures SlotsKept()
    {
      hide Sound, Lookup, Layout, FileName, SameView;
      ghost var files := disk.files;
      var s := GetOrLoad(id);
      SeenAs(files, disk.files, id, maxSeries);
      if s == null {
        return PointsReader([], 0);
      }
      OpenShows(id);
      assert Slot(id);
      r := s.ReadLatest();
    }
  }

  ghost function PointsOf(files: Files, id: uint32, max: nat): seq<Point> {
    if id < max && Lookup(files, id).Some? then Lookup(files, id).value.points else []
  }

  ghost function PointSizeOf(files: Files, id: uint32, max: nat): nat {
    if id < max && Lookup(files, id).Some? then Lookup(files, id).value.pointSize else 0
  }

  function Latest(ps: seq<Point>): seq<Point> {
    if |ps| == 0 then [] else [ps[|ps| - 1]]
  }

  lemma SeenAs(before: Files, after: Files, id: uint32, max: nat)
    requires SameView(before, after, max)
    ensures PointsOf(after, id, max) == PointsOf(before, id, max)
    ensures PointSizeOf(after, id, max) == PointSizeOf(before, id, max)
  {
    hide Lookup;
  }

  lemma NothingInRange(begin: int, end: int, n: nat)
    ensures First(Range([], begin, end), n) == []
  {
  }

  ghost predicate WriteDone(before: SeriesState, batch: seq<Point>, size: nat, r: int, after: SeriesState) {
    && r == (if size == before.pointSize && Times(batch) - {0} != {} then 0 else -1)
    && after.pointSize == before.pointSize
    && (r == -1 ==> after == before)
    && (r == 0 ==> Overwrites(before.points, batch, after.points))
  }

  /** A selected name belongs to the id, and what follows the prefix is its point size. */
  lemma NameOfSeries(files: Files, max: nat, id: uint32, name: string, size: uint32)
    requires Sound(files, max) && id < max && IsCandidate(id, name)
    requires name in files || name == "." || name == ".."
    requires size == ToUint32(Strtol(name[|Root(id)|..]))
    ensures name in files && name == FileName(id, size) && size >= TIME_SIZE
    ensures Lookup(files, id).Some? && forall s: uint32 :: FileName(id, s) in files ==> s == size
  {
    hide ContentsOf;
    DotsAreNoCandidates(id);
    assert Owned(files, id, name);
    var s: uint32 :| s >= TIME_SIZE && name == FileName(id, s) && IsSeriesFile(files[name], s);
    SizeFromName(id, s);
    LookupFile(files, max, id, s);
  }

  lemma NoFile(files: Files, id: uint32, size: uint32)
    requires Lookup(files, id) == None
    ensures forall s: uint32 :: FileName(id, s) in files ==> s == size
  {
    hide FileName, ContentsOf;
  }

  lemma NoName(files: Files, id: uint32, names: seq<string>)
    requires forall n :: n in files ==> n in names
    requires forall k :: 0 <= k < |names| ==> !IsCandidate(id, names[k])
    ensures Lookup(files, id) == None
  {
    hide IsCandidate, FileName, ContentsOf;
    forall s: uint32 ensures FileName(id, s) !in files {
      CandidateIsOwn(id, id, s);
    }
  }

  lemma OtherFile(id: uint32, size: uint32, other: uint32, otherSize: uint32)
    requires id != other
    ensures FileName(id, size) != FileName(other, otherSize)
  {
    if FileName(id, size) == FileName(other, otherSize) {
      FileNameInjective(id, size, other, otherSize);
    }
  }

  lemma ExistingHeld(files: Files, max: nat, id: uint32, size: uint32)
    requires Sound(files, max) && id < max
    ensures var name := FileName(id, size);
            FileHolds(files, name, size, if name in files then ContentsOf(files[name], size) else [])
  {
    hide FileName, ContentsOf;
    if FileName(id, size) in files {
      LookupFile(files, max, id, size);
    }
  }

  /** Opening the only file an id can have shows what was there, or an empty series. */
  lemma Opened(files: Files, after: Files, max: nat, id: uint32, size: uint32, capacity: nat)
    requires Sound(files, max) && id < max && forall s: uint32 :: FileName(id, s) in files ==> s == size
    requires FileName(id, size) in after && after == files[FileName(id, size) := after[FileName(id, size)]]
    requires var existing := if FileName(id, size) in files then ContentsOf(files[FileName(id, size)], size) else [];
             Layout(after[FileName(id, size)], size, capacity, existing)
    ensures Sound(after, max) && SameElsewhere(files, after, max, id)
    ensures Lookup(after, id) == if Lookup(files, id).Some? then Lookup(files, id) else Some(SeriesState(size, []))
  {
    hide ContentsOf, FileName, Layout;
    var name := FileName(id, size);
    PutFile(files, max, id, size, after[name], capacity, if name in files then ContentsOf(files[name], size) else []);
    if name in files {
      LookupFile(files, max, id, size);
    }
  }
}
