/** The bytes of a series file: fixed-size points in order of time, then 0xFF up to the capacity. */
module SeriesFile {
  import opened Bytes
  import opened DataPoint

  const TIME_SIZE := 8
  const GROW_BUFFER_SIZE := 65536
  /** Recovery searches for this time, so stored times stay below it. */
  const SENTINEL := 0xFFFF_FFFF_FFFF_FFFE

  function EncodePoint(p: Point): seq<byte> {
    LeBytes(p.time, TIME_SIZE) + p.value
  }

  function DecodePoint(bytes: seq<byte>): Point
    requires |bytes| >= TIME_SIZE
  {
    TimeBound(bytes[..TIME_SIZE]);
    Point(LeValue(bytes[..TIME_SIZE]), bytes[TIME_SIZE..])
  }

  lemma TimeBound(bytes: seq<byte>)
    requires |bytes| == TIME_SIZE
    ensures LeValue(bytes) < 0x1_0000_0000_0000_0000
  {
    Pow8();
  }

  lemma Pow8()
    ensures Pow256(TIME_SIZE) == 0x1_0000_0000_0000_0000
  {
    assert Pow256(2) == 0x1_0000;
    assert Pow256(4) == 0x1_0000 * Pow256(2);
    assert Pow256(6) == 0x1_0000 * Pow256(4);
    assert Pow256(8) == 0x1_0000 * Pow256(6);
  }

  /** A point in bytes: the time, low byte first, then the value as it is. */
  lemma PointBytes(p: Point)
    ensures |EncodePoint(p)| == 8 + |p.value| && EncodePoint(p)[8..] == p.value
    ensures EncodePoint(p)[0] == p.time % 256 && LeValue(EncodePoint(p)[..8]) == p.time
  {
    Pow8();
    LeValueOfBytes(p.time, TIME_SIZE);
    var bytes := EncodePoint(p);
    assert bytes[..TIME_SIZE] == LeBytes(p.time, TIME_SIZE);
  }

  lemma PointRoundTrip(p: Point)
    ensures DecodePoint(EncodePoint(p)) == p
  {
    Pow8();
    LeValueOfBytes(p.time, TIME_SIZE);
    var bytes := EncodePoint(p);
    assert bytes[..TIME_SIZE] == LeBytes(p.time, TIME_SIZE) && bytes[TIME_SIZE..] == p.value;
  }

  /** Every point takes exactly `size` bytes. */
  predicate Uniform(cells: seq<Point>, size: nat) {
    size >= TIME_SIZE && forall i :: 0 <= i < |cells| ==> |cells[i].value| == size - TIME_SIZE
  }

  function Flatten(cells: seq<Point>): seq<byte> {
    if |cells| == 0 then [] else Flatten(cells[..|cells| - 1]) + EncodePoint(cells[|cells| - 1])
  }

  /** data_point_at: the byte offset of the point with index `i`. */
  function Offset(i: nat, size: nat): nat {
    i * size
  }

  lemma OffsetAdd(i: nat, j: nat, size: nat)
    ensures Offset(i + j, size) == Offset(i, size) + Offset(j, size)
    ensures Offset(0, size) == 0 && Offset(1, size) == size
  {
  }

  lemma {:induction false} FlattenLength(cells: seq<Point>, size: nat)
    requires Uniform(cells, size)
    ensures |Flatten(cells)| == Offset(|cells|, size)
  {
    OffsetAdd(|cells|, 0, size);
    if |cells| > 0 {
      OffsetAdd(|cells| - 1, 1, size);
      hide Offset;
      FlattenLength(cells[..|cells| - 1], size);
    }
  }

  lemma {:induction false} FlattenAppend(a: seq<Point>, b: seq<Point>)
    ensures Flatten(a + b) == Flatten(a) + Flatten(b)
  {
    hide EncodePoint;
    if |b| == 0 {
      assert a + b == a;
    } else {
      var init, last := b[..|b| - 1], b[|b| - 1];
      FlattenAppend(a, init);
      assert (a + b)[..|a + b| - 1] == a + init;
      assert Flatten(a + b) == Flatten(a + init) + EncodePoint(last);
    }
  }

  /** Byte offsets split a file where indices split its points. */
  lemma FlattenSplit(cells: seq<Point>, size: nat, i: nat)
    requires Uniform(cells, size) && i <= |cells|
    ensures Offset(i, size) <= |Flatten(cells)|
    ensures Flatten(cells)[..Offset(i, size)] == Flatten(cells[..i])
    ensures Flatten(cells)[Offset(i, size)..] == Flatten(cells[i..])
  {
    hide Flatten, Offset;
    var a, b := cells[..i], cells[i..];
    assert cells == a + b;
    FlattenAppend(a, b);
    FlattenLength(a, size);
  }

  lemma FlattenSlice(cells: seq<Point>, size: nat, i: nat, j: nat)
    requires Uniform(cells, size) && i <= j <= |cells|
    ensures Offset(i, size) <= Offset(j, size) <= |Flatten(cells)|
    ensures Flatten(cells)[Offset(i, size)..Offset(j, size)] == Flatten(cells[i..j])
  {
    hide Flatten, Offset;
    FlattenSplit(cells, size, j);
    FlattenSplit(cells[..j], size, i);
    assert cells[..j][i..] == cells[i..j];
    Between(Flatten(cells), Flatten(cells[..j]), Offset(i, size), Offset(j, size));
  }

  lemma Between(all: seq<byte>, head: seq<byte>, m: nat, n: nat)
    requires n <= |all| && all[..n] == head && m <= |head|
    ensures m <= n && all[m..n] == head[m..]
  {
  }

  // ----- reading points out of the bytes

  function TimeAt(file: seq<byte>, size: nat, i: nat): timestamp
    requires size >= TIME_SIZE && Offset(i, size) + TIME_SIZE <= |file|
  {
    TimeBound(file[Offset(i, size)..Offset(i, size) + TIME_SIZE]);
    LeValue(file[Offset(i, size)..Offset(i, size) + TIME_SIZE])
  }

  function PointAt(file: seq<byte>, size: nat, i: nat): Point
    requires size >= TIME_SIZE && Offset(i, size) + size <= |file|
  {
    DecodePoint(file[Offset(i, size)..Offset(i, size) + size])
  }

  lemma FrontOfSlice(s: seq<byte>, at: nat, n: nat, m: nat)
    requires m <= n && at + n <= |s|
    ensures s[at..at + n][..m] == s[at..at + m]
  {
  }

  lemma CellAt(cells: seq<Point>, size: nat, i: nat)
    requires Uniform(cells, size) && i < |cells|
    ensures Offset(i, size) + size <= |Flatten(cells)|
    ensures PointAt(Flatten(cells), size, i) == cells[i]
    ensures TimeAt(Flatten(cells), size, i) == cells[i].time
  {
    hide Flatten, LeValue, LeBytes, Offset, EncodePoint;
    FlattenOne(cells[i]);
    PointRoundTrip(cells[i]);
    FlattenSlice(cells, size, i, i + 1);
    OffsetAdd(i, 1, size);
    assert cells[i..i + 1] == [cells[i]];
    var at := Offset(i, size);
    FrontOfSlice(Flatten(cells), at, size, TIME_SIZE);
  }

  lemma FlattenOne(p: Point)
    ensures Flatten([p]) == EncodePoint(p)
  {
    assert [p][..0] == [];
  }

  /** The points from index `begin` up to `end`. */
  function ReadPoints(file: seq<byte>, size: nat, begin: nat, end: nat): seq<Point>
    requires size >= TIME_SIZE && begin <= end && Offset(end, size) <= |file|
    decreases end
  {
    if begin == end then []
    else
      OffsetAdd(end - 1, 1, size);
      ReadPoints(file, size, begin, end - 1) + [PointAt(file, size, end - 1)]
  }

  lemma {:induction false} ReadPointsOf(cells: seq<Point>, size: nat, begin: nat, end: nat)
    requires Uniform(cells, size) && begin <= end <= |cells|
    ensures Offset(end, size) <= |Flatten(cells)|
    ensures ReadPoints(Flatten(cells), size, begin, end) == cells[begin..end]
    decreases end
  {
    hide Flatten, Offset, PointAt;
    FlattenSplit(cells, size, end);
    if begin < end {
      ReadPointsOf(cells, size, begin, end - 1);
      CellAt(cells, size, end - 1);
      assert cells[begin..end] == cells[begin..end - 1] + [cells[end - 1]];
    }
  }

  // ----- writing

  function Memcpy(file: seq<byte>, at: nat, bytes: seq<byte>): (r: seq<byte>)
    requires at + |bytes| <= |file|
    ensures |r| == |file|
  {
    file[..at] + bytes + file[at + |bytes|..]
  }

  function Memmove(file: seq<byte>, to: nat, from: nat, n: nat): (r: seq<byte>)
    requires to + n <= |file| && from + n <= |file|
    ensures |r| == |file|
  {
    Memcpy(file, to, file[from..from + n])
  }

  /** Points copied over points replace them index by index. */
  lemma MemcpyCells(cells: seq<Point>, size: nat, i: nat, points: seq<Point>)
    requires Uniform(cells, size) && Uniform(points, size) && i + |points| <= |cells|
    ensures Offset(i, size) + |Flatten(points)| <= |Flatten(cells)|
    ensures Memcpy(Flatten(cells), Offset(i, size), Flatten(points))
         == Flatten(cells[..i] + points + cells[i + |points|..])
  {
    hide Flatten, Offset;
    var j := i + |points|;
    FlattenSplit(cells, size, i);
    FlattenSplit(cells, size, j);
    FlattenLength(points, size);
    OffsetAdd(i, |points|, size);
    FlattenAppend(cells[..i], points);
    FlattenAppend(cells[..i] + points, cells[j..]);
    var file := Flatten(cells);
    assert file[..Offset(i, size)] == Flatten(cells[..i]) && file[Offset(j, size)..] == Flatten(cells[j..]);
  }

  // ----- padding

  function Pad(size: nat): Point
    requires size >= TIME_SIZE
  {
    Point(0xFFFF_FFFF_FFFF_FFFF, Repeat(0xFF, size - TIME_SIZE))
  }

  function Pads(n: nat, size: nat): (cells: seq<Point>)
    requires size >= TIME_SIZE
    ensures |cells| == n && Uniform(cells, size)
  {
    seq(n, _ => Pad(size))
  }

  lemma PadBytes(size: nat)
    requires size >= TIME_SIZE
    ensures EncodePoint(Pad(size)) == Repeat(0xFF, size)
  {
    Pow8();
    LeBytesOfValue(Repeat(0xFF, TIME_SIZE));
    AllOnes(TIME_SIZE);
  }

  lemma {:induction false} AllOnes(n: nat)
    ensures LeValue(Repeat(0xFF, n)) == Pow256(n) - 1
  {
    if n > 0 {
      AllOnes(n - 1);
      assert Repeat(0xFF, n)[1..] == Repeat(0xFF, n - 1);
    }
  }

  /** Padding by bytes is padding by points. */
  lemma {:induction false} FlattenPads(n: nat, size: nat)
    requires size >= TIME_SIZE
    ensures Flatten(Pads(n, size)) == Repeat(0xFF, Offset(n, size))
  {
    OffsetAdd(n, 0, size);
    if n > 0 {
      OffsetAdd(n - 1, 1, size);
      hide Offset, EncodePoint;
      FlattenPads(n - 1, size);
      PadBytes(size);
      assert Pads(n, size)[..n - 1] == Pads(n - 1, size);
    }
  }

  // ----- the layout of a file

  /** The points of a series: one per time, in order, times in the supported range. */
  predicate Storable(contents: seq<Point>, size: nat) {
    && Uniform(contents, size) && StrictlySorted(contents)
    && forall i :: 0 <= i < |contents| ==> 0 < contents[i].time < SENTINEL
  }

  function Cells(contents: seq<Point>, size: nat, capacity: nat): (cells: seq<Point>)
    requires size >= TIME_SIZE && |contents| <= capacity
    ensures |cells| == capacity
  {
    contents + Pads(capacity - |contents|, size)
  }

  /** A file of `capacity` cells that holds `contents` and is padded after them. */
  predicate Layout(file: seq<byte>, size: nat, capacity: nat, contents: seq<Point>) {
    && Storable(contents, size) && |contents| <= capacity
    && file == Flatten(Cells(contents, size, capacity))
  }

  /** The layout in bytes: the length is the capacity in points, and all bytes after the points are 0xFF. */
  lemma LayoutBytes(file: seq<byte>, size: nat, capacity: nat, contents: seq<Point>)
    requires Layout(file, size, capacity, contents)
    ensures |file| == Offset(capacity, size) && Offset(|contents|, size) <= |file|
    ensures file[..Offset(|contents|, size)] == Flatten(contents)
    ensures forall k :: Offset(|contents|, size) <= k < |file| ==> file[k] == 0xFF
  {
    hide Flatten, Offset;
    var cells, n := Cells(contents, size, capacity), |contents|;
    FlattenLength(cells, size);
    FlattenSplit(cells, size, n);
    assert cells[..n] == contents && cells[n..] == Pads(capacity - n, size);
    FlattenPads(capacity - n, size);
    var tail := file[Offset(n, size)..];
    assert forall k :: Offset(n, size) <= k < |file| ==> file[k] == tail[k - Offset(n, size)];
  }

  lemma CellsUniform(contents: seq<Point>, size: nat, capacity: nat)
    requires Uniform(contents, size) && |contents| <= capacity
    ensures Uniform(Cells(contents, size, capacity), size)
  {
  }

  /** Growing by whole points of 0xFF keeps the contents. */
  lemma GrowLayout(file: seq<byte>, size: nat, capacity: nat, contents: seq<Point>, n: nat)
    requires Layout(file, size, capacity, contents)
    ensures Layout(file + Repeat(0xFF, Offset(n, size)), size, capacity + n, contents)
  {
    hide Flatten, Offset, Storable, Pad;
    var pads := Pads(n, size);
    FlattenPads(n, size);
    FlattenAppend(Cells(contents, size, capacity), pads);
    assert Cells(contents, size, capacity + n) == Cells(contents, size, capacity) + pads;
  }

  /** What a write leaves: `more` in place of the contents, and the same padding after it. */
  lemma AppendLayout(file: seq<byte>, size: nat, capacity: nat, contents: seq<Point>, batch: seq<Point>)
    requires Layout(file, size, capacity, contents) && Storable(contents + batch, size) && Uniform(batch, size)
    requires |contents| + |batch| <= capacity
    ensures Offset(|contents|, size) + |Flatten(batch)| <= |file|
    ensures Layout(Memcpy(file, Offset(|contents|, size), Flatten(batch)), size, capacity, contents + batch)
  {
    CellsUniform(contents, size, capacity);
    hide Flatten, Offset, Storable, Pad, Memcpy;
    var cells, n := Cells(contents, size, capacity), |contents|;
    MemcpyCells(cells, size, n, batch);
    assert cells[..n] == contents;
    assert cells[n + |batch|..] == Pads(capacity - n - |batch|, size);
  }

  /** Moving the tail and copying the merged slice, both in bytes, is a splice of points. */
  lemma SpliceLayout(file: seq<byte>, size: nat, capacity: nat, contents: seq<Point>, b: nat, e: nat,
                     merged: seq<Point>, after: seq<Point>)
    requires Layout(file, size, capacity, contents) && b <= e <= |contents|
    requires Uniform(merged, size) && after == contents[..b] + merged + contents[e..] && Storable(after, size)
    requires e - b <= |merged| && |after| <= capacity
    ensures Spliceable(file, size, b, e, |contents|, merged)
    ensures Layout(Splice(file, size, b, e, |contents|, merged), size, capacity, after)
  {
    hide Flatten, Offset, StrictlySorted, Pad, Cells, Splice, Spliceable, Uniform;
    CellsUniform(contents, size, capacity);
    SplicedCells(contents, size, capacity, b, e, merged, after);
    SpliceCells(Cells(contents, size, capacity), size, b, e, |contents|, merged);
  }

  predicate Spliceable(file: seq<byte>, size: nat, b: nat, e: nat, n: nat, merged: seq<Point>) {
    && e <= n
    && Offset(b + |merged|, size) + Offset(n - e, size) <= |file|
    && Offset(e, size) + Offset(n - e, size) <= |file|
    && Offset(b, size) + |Flatten(merged)| <= |file|
  }

  /** The two copies a write makes inside a file of `n` points, in their order. */
  function Splice(file: seq<byte>, size: nat, b: nat, e: nat, n: nat, merged: seq<Point>): seq<byte>
    requires Spliceable(file, size, b, e, n, merged)
  {
    var moved := Memmove(file, Offset(b + |merged|, size), Offset(e, size), Offset(n - e, size));
    Memcpy(moved, Offset(b, size), Flatten(merged))
  }

  lemma SpliceCells(cells: seq<Point>, size: nat, b: nat, e: nat, n: nat, merged: seq<Point>)
    requires Uniform(cells, size) && Uniform(merged, size) && b <= e <= n <= |cells|
    requires b + |merged| + (n - e) <= |cells|
    ensures Spliceable(Flatten(cells), size, b, e, n, merged)
    ensures Splice(Flatten(cells), size, b, e, n, merged)
         == Flatten(cells[..b] + merged + (cells[e..n] + cells[b + |merged| + (n - e)..]))
  {
    hide Flatten, Offset, Memcpy, Memmove, Uniform;
    var m := |merged|;
    MemmoveCells(cells, size, b + m, e, n);
    var back := cells[e..n] + cells[b + m + (n - e)..];
    var moved := cells[..b + m] + cells[e..n] + cells[b + m + (n - e)..];
    Assoc(cells[..b + m], cells[e..n], cells[b + m + (n - e)..]);
    MemcpyCells(moved, size, b, merged);
    assert moved[..b] == cells[..b] && moved[b + m..] == back;
  }

  /** Points moved to another index, by bytes. */
  lemma MemmoveCells(cells: seq<Point>, size: nat, to: nat, e: nat, n: nat)
    requires Uniform(cells, size) && e <= n <= |cells| && to + (n - e) <= |cells|
    ensures Offset(e, size) + Offset(n - e, size) <= |Flatten(cells)|
    ensures Offset(to, size) + Offset(n - e, size) <= |Flatten(cells)|
    ensures Memmove(Flatten(cells), Offset(to, size), Offset(e, size), Offset(n - e, size))
         == Flatten(cells[..to] + cells[e..n] + cells[to + (n - e)..])
    ensures Uniform(cells[..to] + cells[e..n] + cells[to + (n - e)..], size)
  {
    hide Flatten, Offset, Memcpy;
    TailBytes(cells, size, e, n);
    FlattenLength(cells[e..n], size);
    MemcpyCells(cells, size, to, cells[e..n]);
  }

  lemma TailBytes(cells: seq<Point>, size: nat, e: nat, n: nat)
    requires Uniform(cells, size) && e <= n <= |cells|
    ensures Offset(e, size) + Offset(n - e, size) <= |Flatten(cells)|
    ensures Flatten(cells)[Offset(e, size)..Offset(e, size) + Offset(n - e, size)] == Flatten(cells[e..n])
  {
    hide Flatten, Offset;
    FlattenSlice(cells, size, e, n);
    OffsetAdd(e, n - e, size);
  }

  lemma SplicedCells(contents: seq<Point>, size: nat, capacity: nat, b: nat, e: nat, merged: seq<Point>,
                     after: seq<Point>)
    requires size >= TIME_SIZE && |contents| <= capacity && b <= e <= |contents|
    requires after == contents[..b] + merged + contents[e..] && |contents| <= |after| <= capacity
    ensures var cells, n := Cells(contents, size, capacity), |contents|;
            cells[..b] + merged + (cells[e..n] + cells[b + |merged| + (n - e)..]) == Cells(after, size, capacity)
  {
    hide Pad;
    var cells, n := Cells(contents, size, capacity), |contents|;
    assert cells[..b] == contents[..b] && cells[e..n] == contents[e..];
    assert cells[|after|..] == Pads(capacity - |after|, size);
  }

  // ----- searching

  predicate AtMostOnce(ps: seq<Point>, t: int) {
    forall i, j :: 0 <= i < j < |ps| ==> !(ps[i].time == t && ps[j].time == t)
  }

  /** data_point_find over the first `count` points of a file: no answer for an empty list, else
      where the list splits at `t`. */
  method Find(file: seq<byte>, size: nat, count: nat, t: timestamp, ghost cells: seq<Point>)
    returns (r: Option<nat>)
    requires Uniform(cells, size) && file == Flatten(cells) && count <= |cells|
    requires Sorted(cells[..count]) && AtMostOnce(cells[..count], t)
    ensures r.None? <==> count == 0
    ensures r.Some? ==> SplitsAt(cells[..count], t, r.value)
  {
    if count == 0 {
      return None;
    }
    ghost var ps := cells[..count];
    hide Flatten, Offset, LeValue, TimeAt, Sorted, AtMostOnce, Uniform;
    TimeInList(cells, size, count, 0);
    if t < TimeAt(file, size, 0) {
      return Some(0);
    }
    TimeInList(cells, size, count, count - 1);
    if t > TimeAt(file, size, count - 1) {
      return Some(count);
    }
    var left, right := 0, count;
    while left < right
      invariant 0 <= left <= right <= count
      invariant forall k :: 0 <= k < left ==> ps[k].time < t
      invariant forall k :: right <= k < count ==> t < ps[k].time
    {
      var mid := (right + left) / 2;
      TimeInList(cells, size, count, mid);
      var m := TimeAt(file, size, mid);
      if t < m {
        right := mid;
      } else if t > m {
        left := mid + 1;
      } else {
        SplitsAtFound(ps, t, mid);
        return Some(mid);
      }
    }
    return Some(left);
  }

  lemma TimeInList(cells: seq<Point>, size: nat, count: nat, i: nat)
    requires Uniform(cells, size) && i < count <= |cells| && Sorted(cells[..count])
    ensures Offset(i, size) + TIME_SIZE <= |Flatten(cells)|
    ensures TimeAt(Flatten(cells), size, i) == cells[..count][i].time
    ensures forall k :: 0 <= k <= i ==> cells[..count][k].time <= cells[..count][i].time
    ensures forall k :: i <= k < count ==> cells[..count][i].time <= cells[..count][k].time
  {
    CellAt(cells, size, i);
  }

  lemma SplitsAtFound(ps: seq<Point>, t: timestamp, mid: nat)
    requires Sorted(ps) && AtMostOnce(ps, t) && mid < |ps| && ps[mid].time == t
    ensures SplitsAt(ps, t, mid)
  {
  }

  // ----- recovery

  lemma CellsSorted(contents: seq<Point>, size: nat, capacity: nat)
    requires size >= TIME_SIZE && StrictlySorted(contents) && |contents| <= capacity
    ensures Sorted(Cells(contents, size, capacity)) && AtMostOnce(Cells(contents, size, capacity), SENTINEL)
  {
  }

  /** Where the list of cells splits at the sentinel is how many points are below it. */
  lemma SplitCounts(contents: seq<Point>, size: nat, capacity: nat, found: nat)
    requires size >= TIME_SIZE && StrictlySorted(contents) && |contents| <= capacity
    requires SplitsAt(Cells(contents, size, capacity), SENTINEL, found)
    ensures found <= |contents| && Range(contents, 0, SENTINEL) == contents[..found]
    ensures found == |contents| <==> forall i :: 0 <= i < |contents| ==> contents[i].time < SENTINEL
  {
    var cells := Cells(contents, size, capacity);
    assert forall i :: 0 <= i < |contents| ==> cells[i] == contents[i];
    var first := if |contents| < capacity then cells[|contents|] else Pad(size);
    assert first.time >= SENTINEL;
    assert SplitsAt(contents, SENTINEL, found);
    assert SplitsAt(contents, 0, 0);
    RangeIsSlice(contents, 0, SENTINEL, 0, found);
  }

  /** The count of points in a padded file of any strictly sorted points, as opening a series takes
      it. The bound on times is tight: all points are counted exactly when every time is below the
      sentinel. */
  method RecoverCount(file: seq<byte>, size: nat, capacity: nat, ghost contents: seq<Point>) returns (count: nat)
    requires Uniform(contents, size) && StrictlySorted(contents) && |contents| <= capacity
    requires file == Flatten(Cells(contents, size, capacity))
    ensures count <= |contents| && contents[..count] == Range(contents, 0, SENTINEL)
    ensures count == |contents| <==> forall i :: 0 <= i < |contents| ==> contents[i].time < SENTINEL
  {
    ghost var cells := Cells(contents, size, capacity);
    CellsUniform(contents, size, capacity);
    CellsSorted(contents, size, capacity);
    assert cells[..capacity] == cells;
    hide Sorted, AtMostOnce, Flatten, Cells, Range;
    var end := Find(file, size, capacity, SENTINEL, cells);
    count := if end.None? then 0 else end.value;
    if end.None? {
      NothingSplits(cells);
    }
    SplitCounts(contents, size, capacity, count);
  }

  lemma NothingSplits(cells: seq<Point>)
    requires |cells| == 0
    ensures SplitsAt(cells, SENTINEL, 0)
  {
  }

  /** A point with the sentinel's own time is not found again in its file, however much it is padded. */
  method SentinelIsLost(file: seq<byte>, value: seq<byte>, capacity: nat) returns (count: nat)
    requires capacity >= 1 && file == Flatten(Cells([Point(SENTINEL, value)], TIME_SIZE + |value|, capacity))
    ensures count == 0
  {
    hide Flatten, Cells;
    count := RecoverCount(file, TIME_SIZE + |value|, capacity, [Point(SENTINEL, value)]);
  }

  /** The points a file of a series stands for, computed from its bytes alone. */
  function ContentsOf(file: seq<byte>, size: nat): seq<Point> {
    if size < TIME_SIZE || Offset(|file| / size, size) > |file| then []
    else Range(ReadPoints(file, size, 0, |file| / size), 0, SENTINEL)
  }

  lemma CapacityOf(capacity: nat, size: nat)
    requires size > 0
    ensures Offset(capacity, size) / size == capacity
    ensures capacity > 0 ==> Offset(capacity, size) > 0
  {
    var q := capacity * size / size;
    assert capacity * size == q * size + capacity * size % size;
    assert (capacity - q) * size == capacity * size - q * size;
    AtLeastOne(capacity - q, size);
    AtLeastOne(q - capacity, size);
  }

  /** A layout determines its contents. */
  lemma ContentsOfLayout(file: seq<byte>, size: nat, capacity: nat, contents: seq<Point>)
    requires Layout(file, size, capacity, contents)
    ensures ContentsOf(file, size) == contents
  {
    hide Flatten, Offset, StrictlySorted, Range, ReadPoints;
    LayoutBytes(file, size, capacity, contents);
    CapacityOf(capacity, size);
    var cells := Cells(contents, size, capacity);
    CellsUniform(contents, size, capacity);
    CellsSorted(contents, size, capacity);
    ReadPointsOf(cells, size, 0, capacity);
    assert cells[0..capacity] == cells && cells[0..|contents|] == contents;
    RangeIsSlice(cells, 0, SENTINEL, 0, |contents|);
  }
}
