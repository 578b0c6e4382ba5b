/** The copy primitives of the codec: eight bytes at a time, overshooting the end. */
module Lz4Copy {
  import opened Bytes

  const STEPSIZE := 8

  /** memcpy of `n` bytes of `src`. */
  method Memcpy(src: seq<byte>, ip: nat, dest: array<byte>, op: nat, n: nat)
    requires ip + n <= |src| && op + n <= dest.Length
    modifies dest
    ensures dest[..op + n] == old(dest[..op]) + src[ip..ip + n]
    ensures dest[op + n..] == old(dest[op + n..])
  {
    forall i | 0 <= i < n {
      dest[op + i] := src[ip + i];
    }
  }

  lemma TailKept(now: seq<byte>, before: seq<byte>, a: nat, b: nat)
    requires |now| == |before| && a <= b <= |now| && now[a..] == before[a..]
    ensures now[b..] == before[b..]
  {
    assert now[b..] == now[a..][b - a..] && before[b..] == before[a..][b - a..];
  }

  lemma NextSlice(front: seq<byte>, src: seq<byte>, start: nat, mid: nat, end: nat)
    requires start <= mid <= end <= |src|
    ensures front + src[start..mid] + src[mid..end] == front + src[start..end]
  {
    assert src[start..mid] + src[mid..end] == src[start..end];
    Assoc(front, src[start..mid], src[mid..end]);
  }

  lemma CutSlice(s: seq<byte>, front: seq<byte>, src: seq<byte>, start: nat, end: nat, n: nat)
    requires start + n <= end <= |src| && s == front + src[start..end]
    ensures s[..|front| + n] == front + src[start..start + n]
  {
  }

  /** LZ4_WILDCOPY from another buffer: at least one step, and up to eight bytes past `end`. The
      ghost result is the end of what was read. */
  method WildCopyFrom(src: seq<byte>, start: nat, dest: array<byte>, begin: nat, end: nat) returns (ghost mark: nat)
    requires begin <= end && end + STEPSIZE <= dest.Length
    requires start + (end - begin) + STEPSIZE <= |src|
    modifies dest
    ensures start + (end - begin) <= mark <= |src|
    ensures dest[..end] == old(dest[..begin]) + src[start..start + (end - begin)]
    ensures dest[end + STEPSIZE..] == old(dest[end + STEPSIZE..])
  {
    var op, ip := begin, start;
    ghost var all := dest[..];
    Memcpy(src, ip, dest, op, STEPSIZE);
    TailKept(dest[..], all, op + STEPSIZE, end + STEPSIZE);
    op, ip := op + STEPSIZE, ip + STEPSIZE;
    while op < end
      invariant begin < op <= end + STEPSIZE && ip == start + (op - begin)
      invariant dest[..op] == old(dest[..begin]) + src[start..ip]
      invariant dest[end + STEPSIZE..] == all[end + STEPSIZE..]
    {
      ghost var before := dest[..];
      Memcpy(src, ip, dest, op, STEPSIZE);
      TailKept(dest[..], before, op + STEPSIZE, end + STEPSIZE);
      NextSlice(old(dest[..begin]), src, start, ip, ip + STEPSIZE);
      op, ip := op + STEPSIZE, ip + STEPSIZE;
    }
    CutSlice(dest[..op], old(dest[..begin]), src, start, ip, end - begin);
    assert dest[..end] == dest[..op][..end];
    return ip;
  }

  // ----- periodic copies inside one buffer

  predicate RepeatsAt(s: seq<byte>, k: int, d: nat) {
    0 <= k - d && k < |s| && s[k] == s[k - d]
  }

  /** From `lo` up to `hi` every byte repeats the one `d` places before. */
  predicate Periodic(s: seq<byte>, lo: int, hi: int, d: nat) {
    forall k {:trigger RepeatsAt(s, k, d)} :: lo <= k < hi ==> RepeatsAt(s, k, d)
  }

  /** `D` is a positive multiple of `d`. */
  predicate Multiple(D: nat, d: nat)
    requires d >= 1
  {
    D == d || (D > d && Multiple(D - d, d))
  }

  lemma {:induction false} MultipleBack(s: seq<byte>, lo: nat, k: int, d: nat, D: nat)
    requires d >= 1 && Multiple(D, d)
    requires Periodic(s, lo, k + 1, d) && lo + D <= k + d && k < |s|
    ensures RepeatsAt(s, k, D)
    decreases D
  {
    assert RepeatsAt(s, k, d);
    if D != d {
      MultipleBack(s, lo, k - d, d, D - d);
    }
  }

  /** A copy from a multiple of the offset continues the pattern of the offset itself. */
  lemma {:induction false} WidenedCopy(s: seq<byte>, lo: nat, mid: nat, hi: nat, d: nat, D: nat)
    requires d >= 1 && Multiple(D, d)
    requires d <= lo <= mid <= hi && lo + D <= mid + d
    requires Periodic(s, lo, mid, d) && Periodic(s, mid, hi, D)
    ensures Periodic(s, lo, hi, d)
    decreases hi - mid
  {
    if mid < hi {
      assert RepeatsAt(s, mid, D);
      if D != d {
        MultipleBack(s, lo, mid - d, d, D - d);
        assert RepeatsAt(s, mid, d);
      }
      WidenedCopy(s, lo, mid + 1, hi, d, D);
    }
  }

  lemma PeriodicPrefix(s: seq<byte>, t: seq<byte>, lo: nat, hi: nat, d: nat)
    requires Periodic(s, lo, hi, d) && hi <= |s| && hi <= |t| && s[..hi] == t[..hi]
    ensures Periodic(t, lo, hi, d)
  {
    forall k | lo <= k < hi ensures RepeatsAt(t, k, d) {
      assert RepeatsAt(s, k, d);
      assert s[..hi][k] == t[..hi][k] && s[..hi][k - d] == t[..hi][k - d];
    }
  }

  lemma PeriodicAppend(s: seq<byte>, lo: nat, mid: nat, hi: nat, d: nat)
    requires Periodic(s, lo, mid, d) && Periodic(s, mid, hi, d)
    ensures Periodic(s, lo, hi, d)
  {
  }

  /** A byte loaded at `ref` and stored at `op`. */
  method CopyByte(a: array<byte>, op: nat, ref: nat)
    requires ref <= op < a.Length
    modifies a
    ensures a[..op] == old(a[..op]) && a[op + 1..] == old(a[op + 1..])
    ensures RepeatsAt(a[..], op, op - ref)
  {
    a[op] := a[ref];
  }

  /** `n` bytes loaded at `ref`, then stored at `op`. */
  method CopyWord(a: array<byte>, op: nat, ref: nat, n: nat)
    requires ref <= op && op + n <= a.Length
    modifies a
    ensures a[..op] == old(a[..op]) && a[op + n..] == old(a[op + n..])
    ensures ref + n <= op ==> Periodic(a[..], op, op + n, op - ref)
  {
    var word := a[ref..ref + n];
    forall i | 0 <= i < n {
      a[op + i] := word[i];
    }
    if ref + n <= op {
      ghost var s, d := a[..], op - ref;
      forall k | op <= k < op + n ensures RepeatsAt(s, k, d) {
        assert s[k] == word[k - op] && s[k - d] == word[k - op];
      }
    }
  }

  /** LZ4_WILDCOPY inside the output: eight-byte steps at distance `op - ref`. */
  method WildCopy(a: array<byte>, begin: nat, start: nat, end: nat) returns (op: nat, ref: nat)
    requires start < begin && begin + STEPSIZE <= a.Length
    requires end + STEPSIZE <= a.Length + 1
    modifies a
    ensures begin < op && end <= op <= a.Length && op - ref == begin - start
    ensures a[..begin] == old(a[..begin])
    ensures start + STEPSIZE <= begin ==> Periodic(a[..], begin, op, begin - start)
  {
    op, ref := begin, start;
    CopyWord(a, op, ref, STEPSIZE);
    op, ref := op + STEPSIZE, ref + STEPSIZE;
    while op < end
      invariant begin < op <= a.Length && op - ref == begin - start
      invariant a[..begin] == old(a[..begin])
      invariant start + STEPSIZE <= begin ==> Periodic(a[..], begin, op, begin - start)
    {
      ghost var s := a[..];
      CopyWord(a, op, ref, STEPSIZE);
      assert a[..begin] == a[..op][..begin];
      if start + STEPSIZE <= begin {
        assert s[..op] == a[..][..op];
        PeriodicPrefix(s, a[..], begin, op, begin - start);
        PeriodicAppend(a[..], begin, op, op + STEPSIZE, begin - start);
      }
      op, ref := op + STEPSIZE, ref + STEPSIZE;
    }
  }

  /** One byte at a time up to `end`. */
  method CopyBytes(a: array<byte>, begin: nat, start: nat, end: nat)
    requires start < begin <= end <= a.Length
    modifies a
    ensures a[..begin] == old(a[..begin])
    ensures Periodic(a[..], begin, end, begin - start)
  {
    var op, ref := begin, start;
    while op < end
      invariant begin <= op <= end && op - ref == begin - start
      invariant a[..begin] == old(a[..begin])
      invariant Periodic(a[..], begin, op, begin - start)
    {
      ghost var s := a[..];
      CopyByte(a, op, ref);
      assert a[..begin] == a[..op][..begin];
      assert s[..op] == a[..][..op];
      PeriodicPrefix(s, a[..], begin, op, begin - start);
      op, ref := op + 1, ref + 1;
    }
  }
}
