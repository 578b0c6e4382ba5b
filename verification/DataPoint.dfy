/** Data points and the list operations the storage engine is built on. */
module DataPoint {
  import opened Bytes

  type timestamp = t: int | 0 <= t < 0x1_0000_0000_0000_0000

  /** A fixed-size record: eight bytes of time, then the value. */
  datatype Point = Point(time: timestamp, value: seq<byte>)

  predicate Sorted(ps: seq<Point>) {
    forall i, j :: 0 <= i < j < |ps| ==> ps[i].time <= ps[j].time
  }

  predicate StrictlySorted(ps: seq<Point>) {
    forall i, j :: 0 <= i < j < |ps| ==> ps[i].time < ps[j].time
  }

  function Times(ps: seq<Point>): set<timestamp> {
    set p | p in ps :: p.time
  }

  // ----- a strictly sorted list as a map from time to value

  ghost function ToMap(ps: seq<Point>): (m: map<timestamp, seq<byte>>)
    ensures m.Keys == Times(ps)
  {
    map t | t in Times(ps) :: ValueAt(ps, t)
  }

  ghost function ValueAt(ps: seq<Point>, t: timestamp): (v: seq<byte>)
    requires t in Times(ps)
    ensures Point(t, v) in ps
  {
    var p :| p in ps && p.time == t;
    p.value
  }

  /** The map holds exactly the points of the list. */
  lemma MapHolds(ps: seq<Point>, p: Point)
    requires StrictlySorted(ps)
    ensures p in ps <==> p.time in ToMap(ps) && ToMap(ps)[p.time] == p.value
  {
    if p in ps {
      var q := Point(p.time, ToMap(ps)[p.time]);
      assert q in ps;
      var i, j :| 0 <= i < |ps| && 0 <= j < |ps| && ps[i] == p && ps[j] == q;
      assert i == j;
    }
  }

  lemma {:induction false} CountTimes(ps: seq<Point>)
    requires StrictlySorted(ps)
    ensures |Times(ps)| == |ps|
  {
    if |ps| > 0 {
      var init, last := ps[..|ps| - 1], ps[|ps| - 1];
      CountTimes(init);
      assert ps == init + [last];
      assert Times(ps) == Times(init) + {last.time};
      assert last.time !in Times(init);
    }
  }

  // ----- merge

  /** The union of two strictly sorted lists; on equal times the first list wins. */
  function Merge(src: seq<Point>, dst: seq<Point>): seq<Point>
    decreases |src| + |dst|
  {
    if src == [] then dst
    else if dst == [] then src
    else if dst[0].time < src[0].time then [dst[0]] + Merge(src, dst[1..])
    else if src[0].time < dst[0].time then [src[0]] + Merge(src[1..], dst)
    else [src[0]] + Merge(src[1..], dst[1..])
  }

  lemma HeadTail(ps: seq<Point>, p: Point)
    requires StrictlySorted(ps) && |ps| > 0
    ensures StrictlySorted(ps[1..])
    ensures p in ps <==> p == ps[0] || p in ps[1..]
    ensures p in ps[1..] ==> ps[0].time < p.time
    ensures p.time in Times(ps) <==> p.time == ps[0].time || p.time in Times(ps[1..])
    ensures p.time in Times(ps) ==> ps[0].time <= p.time
  {
    assert ps == [ps[0]] + ps[1..];
  }

  /** Exactly the points of `src`, and those of `dst` whose time `src` does not have. */
  lemma {:induction false} MergeMembers(src: seq<Point>, dst: seq<Point>, p: Point)
    requires StrictlySorted(src) && StrictlySorted(dst)
    ensures p in Merge(src, dst) <==> p in src || (p in dst && p.time !in Times(src))
    decreases |src| + |dst|
  {
    if src != [] && dst != [] {
      HeadTail(src, p);
      HeadTail(dst, p);
      hide Times, StrictlySorted;
      if dst[0].time < src[0].time {
        MergeMembers(src, dst[1..], p);
      } else if src[0].time < dst[0].time {
        MergeMembers(src[1..], dst, p);
      } else {
        MergeMembers(src[1..], dst[1..], p);
      }
    }
  }

  lemma MergeAbove(src: seq<Point>, dst: seq<Point>, t: timestamp)
    requires StrictlySorted(src) && StrictlySorted(dst)
    requires (forall p :: p in src ==> t < p.time) && (forall p :: p in dst ==> t < p.time)
    ensures forall p :: p in Merge(src, dst) ==> t < p.time
  {
    forall p | p in Merge(src, dst) ensures t < p.time {
      MergeMembers(src, dst, p);
    }
  }

  lemma ConsSorted(p: Point, ps: seq<Point>)
    requires StrictlySorted(ps) && forall q :: q in ps ==> p.time < q.time
    ensures StrictlySorted([p] + ps)
  {
  }

  lemma {:induction false} MergeSorted(src: seq<Point>, dst: seq<Point>)
    requires StrictlySorted(src) && StrictlySorted(dst)
    ensures StrictlySorted(Merge(src, dst))
    decreases |src| + |dst|
  {
    if src != [] && dst != [] {
      var s, d := src[0], dst[0];
      var src1 := if d.time < s.time then src else src[1..];
      var dst1 := if s.time < d.time then dst else dst[1..];
      var head := if d.time < s.time then d else s;
      MergeSorted(src1, dst1);
      forall p | p in src1 || p in dst1 ensures head.time < p.time {
        HeadTail(src, p);
        HeadTail(dst, p);
      }
      MergeAbove(src1, dst1, head.time);
      ConsSorted(head, Merge(src1, dst1));
    }
  }

  /** Merging overrides: the map of the result is the old map updated with the new one, and the
      length counts every shared time once. */
  lemma MergeIsOverride(src: seq<Point>, dst: seq<Point>)
    requires StrictlySorted(src) && StrictlySorted(dst)
    ensures StrictlySorted(Merge(src, dst))
    ensures ToMap(Merge(src, dst)) == ToMap(dst) + ToMap(src)
    ensures |Merge(src, dst)| == |src| + |dst| - |Times(src) * Times(dst)|
  {
    hide Merge, StrictlySorted, ToMap, Times;
    MergeSorted(src, dst);
    MergeMap(src, dst);
    CountTimes(Merge(src, dst));
    CountTimes(src);
    CountTimes(dst);
    CountUnion(Times(src), Times(dst));
  }

  lemma CountUnion(a: set<timestamp>, b: set<timestamp>)
    ensures |b + a| == |a| + |b| - |a * b|
  {
    assert b + a == a + b;
  }

  lemma MergeMap(src: seq<Point>, dst: seq<Point>)
    requires StrictlySorted(src) && StrictlySorted(dst) && StrictlySorted(Merge(src, dst))
    ensures ToMap(Merge(src, dst)) == ToMap(dst) + ToMap(src)
    ensures Times(Merge(src, dst)) == Times(dst) + Times(src)
  {
    hide Merge, StrictlySorted, ToMap;
    var m, r := Merge(src, dst), ToMap(dst) + ToMap(src);
    forall p: Point ensures p in m <==> p.time in r && r[p.time] == p.value {
      MergeMembers(src, dst, p);
      MapHolds(src, p);
      MapHolds(dst, p);
    }
    SameMap(m, r);
  }

  lemma SameMap(ps: seq<Point>, m: map<timestamp, seq<byte>>)
    requires StrictlySorted(ps) && forall p: Point :: p in ps <==> p.time in m && m[p.time] == p.value
    ensures ToMap(ps) == m
  {
    forall t: timestamp ensures t in Times(ps) <==> t in m {
      if t in m {
        assert Point(t, m[t]) in ps;
      }
    }
    forall t | t in m ensures ToMap(ps)[t] == m[t] {
      MapHolds(ps, Point(t, m[t]));
    }
  }

  lemma TakeDst(s: seq<Point>, d: seq<Point>)
    requires |d| > 0 && (|s| == 0 || d[0].time < s[0].time)
    ensures Merge(s, d) == [d[0]] + Merge(s, d[1..])
  {
    assert d == [d[0]] + d[1..];
  }

  lemma TakeSrc(s: seq<Point>, d: seq<Point>)
    requires |s| > 0 && (|d| == 0 || s[0].time < d[0].time)
    ensures Merge(s, d) == [s[0]] + Merge(s[1..], d)
  {
    assert s == [s[0]] + s[1..];
  }

  lemma TakeBoth(s: seq<Point>, d: seq<Point>)
    requires |s| > 0 && |d| > 0 && s[0].time == d[0].time
    ensures Merge(s, d) == [s[0]] + Merge(s[1..], d[1..])
  {
  }

  lemma NothingLeft(s: seq<Point>, d: seq<Point>)
    requires |s| == 0 && |d| == 0
    ensures Merge(s, d) == []
  {
  }

  /** The next point of the merge, with the positions after it and whether both lists had its time. */
  method NextPoint(src: seq<Point>, dst: seq<Point>, i: nat, j: nat)
    returns (p: Point, srcPos: nat, dstPos: nat, shared: nat)
    requires i <= |src| && j <= |dst| && i + j < |src| + |dst|
    ensures srcPos <= |src| && dstPos <= |dst| && srcPos + dstPos == i + j + 1 + shared
    ensures Merge(src[i..], dst[j..]) == [p] + Merge(src[srcPos..], dst[dstPos..])
  {
    ghost var s, d := src[i..], dst[j..];
    if i == |src| || (j < |dst| && dst[j].time < src[i].time) {
      TakeDst(s, d);
      assert d[1..] == dst[j + 1..];
      return dst[j], i, j + 1, 0;
    } else if j == |dst| || src[i].time < dst[j].time {
      TakeSrc(s, d);
      assert s[1..] == src[i + 1..];
      return src[i], i + 1, j, 0;
    } else {
      TakeBoth(s, d);
      assert s[1..] == src[i + 1..] && d[1..] == dst[j + 1..];
      return src[i], i + 1, j + 1, 1;
    }
  }

  /** data_point_merge. The buffer is preset to hold both lists; each shared time shrinks it. */
  method MergeInto(src: seq<Point>, dst: seq<Point>, result: array<Point>) returns (count: nat)
    requires result.Length == |src| + |dst|
    modifies result
    ensures count <= result.Length && result[..count] == Merge(src, dst)
  {
    var bufferCount := result.Length;
    var srcPos: nat, dstPos: nat, processed: nat, duplicated: nat := 0, 0, 0, 0;
    ghost var all := Merge(src, dst);
    assert src[srcPos..] == src && dst[dstPos..] == dst && all[processed..] == all;
    hide Merge;
    while processed < bufferCount - duplicated
      invariant srcPos <= |src| && dstPos <= |dst| && processed <= |all|
      invariant srcPos + dstPos == processed + duplicated <= bufferCount
      invariant forall k :: 0 <= k < processed ==> result[k] == all[k]
      invariant Merge(src[srcPos..], dst[dstPos..]) == all[processed..]
    {
      var p, shared;
      p, srcPos, dstPos, shared := NextPoint(src, dst, srcPos, dstPos);
      assert p == all[processed];
      result[processed] := p;
      processed := processed + 1;
      duplicated := duplicated + shared;
    }
    NothingLeft(src[srcPos..], dst[dstPos..]);
    count := bufferCount - duplicated;
  }

  // ----- sort and distinct

  function Insert(p: Point, ps: seq<Point>): (r: seq<Point>)
    ensures multiset(r) == multiset(ps) + multiset{p}
  {
    if |ps| == 0 || p.time <= ps[0].time then [p] + ps
    else
      assert ps == [ps[0]] + ps[1..];
      [ps[0]] + Insert(p, ps[1..])
  }

  lemma {:induction false} InsertSorted(p: Point, ps: seq<Point>)
    requires Sorted(ps)
    ensures Sorted(Insert(p, ps))
  {
    if |ps| > 0 && ps[0].time < p.time {
      var tail := Insert(p, ps[1..]);
      InsertSorted(p, ps[1..]);
      InsertMembers(p, ps[1..]);
      assert forall i :: 0 <= i < |tail| ==> tail[i] in tail;
    }
  }

  lemma {:induction false} InsertMembers(p: Point, ps: seq<Point>)
    ensures forall q :: q in Insert(p, ps) ==> q == p || q in ps
  {
    if |ps| > 0 && ps[0].time < p.time {
      InsertMembers(p, ps[1..]);
    }
  }

  function SortedOf(ps: seq<Point>): (r: seq<Point>)
    ensures Sorted(r) && multiset(r) == multiset(ps)
  {
    if |ps| == 0 then []
    else
      assert ps == [ps[0]] + ps[1..];
      InsertSorted(ps[0], SortedOf(ps[1..]));
      Insert(ps[0], SortedOf(ps[1..]))
  }

  /** data_point_sort: some sorted permutation; nothing is said about the order of equal times. */
  method Sort(points: array<Point>)
    modifies points
    ensures Sorted(points[..]) && multiset(points[..]) == multiset(old(points[..]))
  {
    var s := SortedOf(points[..]);
    hide SortedOf;
    assert |s| == |multiset(s)| == points.Length;
    forall i | 0 <= i < |s| {
      points[i] := s[i];
    }
    assert points[..] == s;
  }

  function DistinctStep(kept: seq<Point>, p: Point): seq<Point> {
    if p.time == 0 then kept
    else if |kept| == 0 || kept[|kept| - 1].time < p.time then kept + [p]
    else kept[..|kept| - 1] + [p]
  }

  /** One point for each run of equal nonzero times. */
  function Distinct(ps: seq<Point>): (r: seq<Point>)
    ensures |r| <= |ps|
  {
    if |ps| == 0 then [] else DistinctStep(Distinct(ps[..|ps| - 1]), ps[|ps| - 1])
  }

  /** What the kept points of a sorted list are: strictly sorted, without time zero, one for every
      nonzero time, and each the last of its run. */
  ghost predicate LastOfRuns(ps: seq<Point>, kept: seq<Point>) {
    && StrictlySorted(kept)
    && (forall p :: p in kept ==> p.time != 0 && IsLastOfRun(ps, p))
    && Times(kept) == Times(ps) - {0}
  }

  ghost predicate IsLastOfRun(ps: seq<Point>, p: Point) {
    exists i :: 0 <= i < |ps| && ps[i] == p && forall j :: i < j < |ps| ==> p.time < ps[j].time
  }

  lemma {:induction false} DistinctSorted(ps: seq<Point>)
    requires Sorted(ps)
    ensures LastOfRuns(ps, Distinct(ps))
  {
    if |ps| == 0 {
      assert Times(ps) == {};
    } else {
      hide LastOfRuns;
      var init, last := ps[..|ps| - 1], ps[|ps| - 1];
      DistinctSorted(init);
      assert ps == init + [last];
      DistinctMore(init, Distinct(init), last);
    }
  }

  lemma DistinctMore(init: seq<Point>, kept: seq<Point>, last: Point)
    requires Sorted(init + [last]) && LastOfRuns(init, kept)
    ensures LastOfRuns(init + [last], DistinctStep(kept, last))
  {
    var ps, n := init + [last], |kept|;
    SortedLast(init, last);
    if last.time == 0 {
      assert Times(ps) == Times(init) + {last.time};
      forall p ensures p !in kept {
        assert p in kept ==> p.time in Times(kept);
      }
    } else if n == 0 || kept[n - 1].time < last.time {
      AppendLast(init, kept, last);
    } else {
      hide LastOfRuns;
      ReplaceLast(init, kept, last);
    }
  }

  lemma AppendLast(init: seq<Point>, kept: seq<Point>, last: Point)
    requires LastOfRuns(init, kept) && last.time != 0
    requires |kept| == 0 || kept[|kept| - 1].time < last.time
    ensures LastOfRuns(init + [last], kept + [last])
  {
    SnocRuns(init, kept, last);
    hide IsLastOfRun, StrictlySorted;
    assert Times(kept + [last]) == Times(kept) + {last.time};
    assert Times(init + [last]) == Times(init) + {last.time};
  }

  lemma SortedLast(init: seq<Point>, last: Point)
    requires Sorted(init + [last])
    ensures forall p :: p in init ==> p.time <= last.time
  {
    var ps := init + [last];
    forall p | p in init ensures p.time <= last.time {
      var i :| 0 <= i < |init| && init[i] == p;
      assert ps[i] == p && ps[|init|] == last;
    }
  }

  lemma ReplaceLast(init: seq<Point>, kept: seq<Point>, last: Point)
    requires LastOfRuns(init, kept) && last.time != 0 && |kept| > 0 && last.time <= kept[|kept| - 1].time
    requires forall p :: p in init ==> p.time <= last.time
    ensures LastOfRuns(init + [last], kept[..|kept| - 1] + [last])
  {
    var front, end := kept[..|kept| - 1], kept[|kept| - 1];
    assert kept == front + [end];
    assert IsLastOfRun(init, end);
    assert end.time == last.time;
    SnocRuns(init, front, last);
    hide IsLastOfRun, StrictlySorted;
    assert Times(front + [last]) == Times(front) + {last.time} == Times(kept);
    assert Times(init + [last]) == Times(init) + {last.time};
  }

  lemma SnocRuns(init: seq<Point>, front: seq<Point>, last: Point)
    requires StrictlySorted(front) && last.time != 0
    requires forall p :: p in front ==> p.time < last.time && p.time != 0 && IsLastOfRun(init, p)
    ensures StrictlySorted(front + [last])
    ensures forall p :: p in front + [last] ==> p.time != 0 && IsLastOfRun(init + [last], p)
  {
    var ps := init + [last];
    forall p | p in front + [last] ensures p.time != 0 && IsLastOfRun(ps, p) {
      if p in front {
        var i :| 0 <= i < |init| && init[i] == p && forall j :: i < j < |init| ==> p.time < init[j].time;
        assert ps[i] == p;
      } else {
        assert ps[|init|] == p;
      }
    }
  }

  /** The body of the thinning loop: the point at `curr` is kept behind `tail` or in its place. */
  method Keep(points: array<Point>, curr: nat, tail: int, ghost kept: seq<Point>) returns (end: int)
    requires -1 <= tail < curr < points.Length && |kept| == tail + 1
    requires forall k :: 0 <= k <= tail ==> points[k] == kept[k]
    modifies points
    ensures -1 <= end <= curr && |DistinctStep(kept, old(points[curr]))| == end + 1
    ensures forall k :: 0 <= k <= end ==> points[k] == DistinctStep(kept, old(points[curr]))[k]
    ensures forall k :: curr < k < points.Length ==> points[k] == old(points[k])
  {
    end := tail;
    if points[curr].time != 0 {
      if end < 0 || points[end].time < points[curr].time {
        end := end + 1;
      }
      points[end] := points[curr];
    }
  }

  /** data_point_non_zero_distinct, in place. */
  method NonZeroDistinct(points: array<Point>) returns (count: nat)
    modifies points
    ensures count <= points.Length
    ensures points[..count] == Distinct(old(points[..]))
  {
    var curr, tail := 0, -1;
    ghost var was, kept := points[..], [];
    assert Distinct(was[..0]) == [];
    hide Distinct, DistinctStep;
    while curr < points.Length
      invariant 0 <= curr <= points.Length && -1 <= tail < curr
      invariant kept == Distinct(was[..curr]) && |kept| == tail + 1
      invariant forall k :: 0 <= k <= tail ==> points[k] == kept[k]
      invariant forall k :: curr <= k < points.Length ==> points[k] == was[k]
    {
      DistinctNext(was, curr);
      tail := Keep(points, curr, tail, kept);
      kept := DistinctStep(kept, was[curr]);
      curr := curr + 1;
    }
    assert was[..curr] == was;
    count := tail + 1;
  }

  lemma DistinctNext(ps: seq<Point>, k: nat)
    requires k < |ps|
    ensures Distinct(ps[..k + 1]) == DistinctStep(Distinct(ps[..k]), ps[k])
  {
    assert ps[..k + 1][..k] == ps[..k];
  }

  // ----- searching and ranges

  /** Everything before `r` is earlier than `t` and nothing from `r` on is. */
  predicate SplitsAt(ps: seq<Point>, t: int, r: nat) {
    && r <= |ps|
    && (forall k :: 0 <= k < r ==> ps[k].time < t)
    && (forall k :: r <= k < |ps| ==> t <= ps[k].time)
  }

  /** The points with begin <= time < end, in order. */
  function Range(ps: seq<Point>, begin: int, end: int): seq<Point> {
    if |ps| == 0 then []
    else
      var last := ps[|ps| - 1];
      Range(ps[..|ps| - 1], begin, end) + (if begin <= last.time < end then [last] else [])
  }

  /** A range of a split list is a slice of it. */
  lemma {:induction false} RangeIsSlice(ps: seq<Point>, begin: int, end: int, i: nat, j: nat)
    requires i <= j && SplitsAt(ps, begin, i) && SplitsAt(ps, end, j)
    ensures Range(ps, begin, end) == ps[i..j]
  {
    if |ps| > 0 {
      var n := |ps| - 1;
      SplitsInit(ps, begin, i);
      SplitsInit(ps, end, j);
      assert i <= |ps| && j <= |ps|;
      hide SplitsAt;
      RangeIsSlice(ps[..n], begin, end, Min(i, n), Min(j, n));
      SliceOfInit(ps, i, j);
    }
  }

  lemma SplitsInit(ps: seq<Point>, t: int, r: nat)
    requires |ps| > 0 && SplitsAt(ps, t, r)
    ensures SplitsAt(ps[..|ps| - 1], t, Min(r, |ps| - 1))
    ensures if r == |ps| then ps[|ps| - 1].time < t else t <= ps[|ps| - 1].time
  {
  }

  lemma SliceOfInit(ps: seq<Point>, i: nat, j: nat)
    requires |ps| > 0 && i <= j <= |ps|
    ensures var n := |ps| - 1;
            ps[i..j] == ps[..n][Min(i, n)..Min(j, n)] + if i <= n < j then [ps[n]] else []
  {
  }

  lemma SplitsInOrder(ps: seq<Point>, begin: int, end: int, i: nat, j: nat)
    requires begin <= end && SplitsAt(ps, begin, i) && SplitsAt(ps, end, j)
    ensures i <= j
  {
    var t := if j < |ps| then ps[j].time else end;
  }

  // ----- merging into the middle of a list

  predicate AllBefore(a: seq<Point>, b: seq<Point>) {
    forall p, q :: p in a && q in b ==> p.time < q.time
  }

  /** Points earlier than everything merged in stay in front. */
  lemma {:induction false} MergePrefix(src: seq<Point>, front: seq<Point>, rest: seq<Point>)
    requires AllBefore(front, src)
    ensures Merge(src, front + rest) == front + Merge(src, rest)
  {
    if |src| == 0 {
    } else if |front| == 0 {
      assert front + rest == rest;
    } else {
      MergePrefix(src, front[1..], rest);
      FrontFirst(src, front, rest);
    }
  }

  lemma FrontFirst(src: seq<Point>, front: seq<Point>, rest: seq<Point>)
    requires |src| > 0 && |front| > 0 && AllBefore(front, src)
    requires Merge(src, front[1..] + rest) == front[1..] + Merge(src, rest)
    ensures Merge(src, front + rest) == front + Merge(src, rest)
  {
    hide Merge;
    assert front[0] in front && src[0] in src;
    ConsAppend(front, rest);
    TakeDst(src, front + rest);
    ConsAppend(front, Merge(src, rest));
  }

  /** Points later than everything merged stay behind. */
  lemma {:induction false} MergeSuffix(src: seq<Point>, mid: seq<Point>, back: seq<Point>)
    requires AllBefore(src, back) && AllBefore(mid, back)
    ensures Merge(src, mid + back) == Merge(src, mid) + back
    decreases |src| + |mid|
  {
    if |src| == 0 {
    } else if |mid| == 0 {
      assert mid + back == back;
      MergeAllBefore(src, back);
    } else {
      assert (mid + back)[1..] == mid[1..] + back;
      if mid[0].time < src[0].time {
        MergeSuffix(src, mid[1..], back);
      } else if src[0].time < mid[0].time {
        MergeSuffix(src[1..], mid, back);
      } else {
        MergeSuffix(src[1..], mid[1..], back);
      }
    }
  }

  lemma {:induction false} MergeAllBefore(src: seq<Point>, dst: seq<Point>)
    requires AllBefore(src, dst)
    ensures Merge(src, dst) == src + dst
  {
    if |src| > 0 && |dst| > 0 {
      assert src[0] in src && dst[0] in dst;
      MergeAllBefore(src[1..], dst);
      assert src == [src[0]] + src[1..];
    }
  }

  /** Only the slice between the first and the last new time takes part in the merge. */
  lemma MergeSplice(src: seq<Point>, front: seq<Point>, mid: seq<Point>, back: seq<Point>)
    requires AllBefore(front, src) && AllBefore(src, back) && AllBefore(mid, back)
    ensures Merge(src, front + mid + back) == front + Merge(src, mid) + back
  {
    assert front + mid + back == front + (mid + back);
    MergePrefix(src, front, mid + back);
    MergeSuffix(src, mid, back);
    assert front + (Merge(src, mid) + back) == front + Merge(src, mid) + back;
  }

  /** A list that is all later than the old one is appended by a merge. */
  lemma MergeAppends(src: seq<Point>, dst: seq<Point>)
    requires AllBefore(dst, src)
    ensures Merge(src, dst) == dst + src
  {
    assert dst + [] == dst;
    MergePrefix(src, dst, []);
  }
}
