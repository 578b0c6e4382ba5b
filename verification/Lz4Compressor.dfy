/** LZ4_compress: no dictionary, unlimited output, tables of 16-bit or 32-bit positions. */
module Lz4Compressor {
  import opened Bytes
  import opened Lz4Format
  import opened Lz4Copy

  const LIMIT_64K := 65536 + MFLIMIT - 1
  const MIN_LENGTH := MFLIMIT + 1
  const SKIP := 64

  datatype TableType = ByU32 | ByU16

  /** A position as the table stores it, truncated to the width of an entry. */
  function Stored(t: TableType, p: nat): nat {
    if t.ByU16? then p % 0x1_0000 else p % 0x1_0000_0000
  }

  /** The table types LZ4_compress uses for an input of `n` bytes. */
  predicate Suits(t: TableType, n: nat) {
    n <= MAX_INPUT_SIZE && (t.ByU16? ==> n < LIMIT_64K)
  }

  /** No position the compressor stores is truncated. */
  lemma StoredExact(t: TableType, n: nat, p: nat)
    requires Suits(t, n) && p + MFLIMIT <= n
    ensures Stored(t, p) == p
  {
  }

  /** A16, A32 and AARCH: an unaligned little-endian load. */
  function Load(s: seq<byte>, p: nat, width: nat): nat
    requires p + width <= |s|
  {
    LeValue(s[p..p + width])
  }

  // ----- LZ4_count

  /** The bytes at `p` and `q` agree for `n` places. */
  predicate Agree(s: seq<byte>, p: nat, q: nat, n: nat) {
    p + n <= |s| && q + n <= |s| && s[p..p + n] == s[q..q + n]
  }

  lemma AgreeNone(s: seq<byte>, p: nat, q: nat)
    requires p <= |s| && q <= |s|
    ensures Agree(s, p, q, 0)
  {
  }

  lemma AgreeOne(s: seq<byte>, p: nat, q: nat)
    requires p < |s| && q < |s| && s[p] == s[q]
    ensures Agree(s, p, q, 1)
  {
  }

  lemma AgreeAppend(s: seq<byte>, p: nat, q: nat, n: nat, m: nat)
    requires Agree(s, p, q, n) && Agree(s, p + n, q + n, m)
    ensures Agree(s, p, q, n + m)
  {
    assert s[p..p + n + m] == s[p..p + n] + s[p + n..p + n + m];
    assert s[q..q + n + m] == s[q..q + n] + s[q + n..q + n + m];
  }

  lemma LoadsAgree(s: seq<byte>, p: nat, q: nat, width: nat)
    requires p + width <= |s| && q + width <= |s|
    ensures Load(s, p, width) == Load(s, q, width) <==> Agree(s, p, q, width)
  {
    LeValueInjective(s[p..p + width], s[q..q + width]);
  }

  lemma AgreeStops(s: seq<byte>, p: nat, q: nat, n: nat)
    requires p + n < |s| && q + n < |s| && Agree(s, p, q, n) && !Agree(s, p, q, n + 1)
    ensures s[p + n] != s[q + n]
  {
    assert s[p..p + n + 1] == s[p..p + n] + [s[p + n]];
    assert s[q..q + n + 1] == s[q..q + n] + [s[q + n]];
  }

  /** LZ4_NbCommonBytes on a little-endian 64-bit machine. */
  function NbCommonBytes(diff: nat): nat
    requires diff > 0
  {
    Ctz(diff) / 8
  }

  lemma WordsDiffer(s: seq<byte>, p: nat, q: nat)
    requires p + STEPSIZE <= |s| && q + STEPSIZE <= |s|
    ensures var diff := Xor(Load(s, q, STEPSIZE), Load(s, p, STEPSIZE));
            if diff == 0 then Agree(s, p, q, STEPSIZE)
            else
              var k := NbCommonBytes(diff);
              k < STEPSIZE && Agree(s, p, q, k) && s[p + k] != s[q + k]
  {
    hide Xor, Ctz, LeValue, CommonPrefix, Agree;
    var x, y := s[q..q + STEPSIZE], s[p..p + STEPSIZE];
    XorZero(LeValue(x), LeValue(y));
    LoadsAgree(s, p, q, STEPSIZE);
    if LeValue(x) != LeValue(y) {
      TrailingZeroBytes(x, y);
      CommonAgree(s, p, q, STEPSIZE);
    }
  }

  lemma CommonAgree(s: seq<byte>, p: nat, q: nat, width: nat)
    requires p + width <= |s| && q + width <= |s| && s[q..q + width] != s[p..p + width]
    ensures var k := CommonPrefix(s[q..q + width], s[p..p + width]);
            k < width && Agree(s, p, q, k) && s[p + k] != s[q + k]
  {
    hide CommonPrefix;
    var x, y := s[q..q + width], s[p..p + width];
    var k := CommonPrefix(x, y);
    SliceOfSlice(s, q, width, k);
    SliceOfSlice(s, p, width, k);
    assert x[..width] == x && y[..width] == y;
  }

  lemma SliceOfSlice(s: seq<byte>, p: nat, width: nat, k: nat)
    requires k <= width && p + width <= |s|
    ensures s[p..p + width][..k] == s[p..p + k]
    ensures k < width ==> s[p..p + width][k] == s[p + k]
  {
  }

  /** The last bytes, fewer than eight, by a four-byte, a two-byte and a one-byte compare. */
  method CountTail(s: seq<byte>, pIn: nat, pRef: nat, limit: nat) returns (n: nat)
    requires pRef <= pIn <= limit <= |s| && limit - pIn < STEPSIZE
    ensures pIn + n <= limit && Agree(s, pIn, pRef, n)
    ensures pIn + n < limit ==> s[pIn + n] != s[pRef + n]
  {
    hide Agree, Load;
    n := 0;
    AgreeNone(s, pIn, pRef);
    if pIn + 3 < limit {
      LoadsAgree(s, pIn, pRef, 4);
      if Load(s, pRef, 4) == Load(s, pIn, 4) {
        n := 4;
      }
    }
    var i, r := pIn + n, pRef + n;
    var more := CountThree(s, i, r, limit);
    if n == 0 && pIn + 3 < limit && more == 3 {
      AgreeStops(s, pIn, pRef, 3);
    }
    AgreeAppend(s, pIn, pRef, n, more);
    n := n + more;
  }

  /** A two-byte and a one-byte compare decide up to three bytes. */
  method CountThree(s: seq<byte>, i: nat, r: nat, limit: nat) returns (n: nat)
    requires r <= i <= limit <= |s|
    ensures n <= 3 && i + n <= limit && Agree(s, i, r, n)
    ensures n < 3 && i + n < limit ==> s[i + n] != s[r + n]
  {
    hide Agree, Load;
    n := 0;
    AgreeNone(s, i, r);
    if i + 1 < limit {
      LoadsAgree(s, i, r, 2);
      if Load(s, r, 2) == Load(s, i, 2) {
        n := 2;
      }
    }
    if i + n < limit && s[r + n] == s[i + n] {
      AgreeOne(s, i + n, r + n);
      AgreeAppend(s, i, r, n, 1);
      n := n + 1;
      if n == 1 && i + 1 < limit {
        AgreeStops(s, i, r, 1);
      }
    }
  }

  /** One eight-byte compare. */
  method CountWord(s: seq<byte>, pIn: nat, pRef: nat) returns (k: nat)
    requires pIn + STEPSIZE <= |s| && pRef + STEPSIZE <= |s|
    ensures k <= STEPSIZE && Agree(s, pIn, pRef, k)
    ensures k < STEPSIZE ==> s[pIn + k] != s[pRef + k]
  {
    hide Xor, Ctz, Load, NbCommonBytes, Agree;
    var diff := Xor(Load(s, pRef, STEPSIZE), Load(s, pIn, STEPSIZE));
    WordsDiffer(s, pIn, pRef);
    k := if diff == 0 then STEPSIZE else NbCommonBytes(diff);
  }

  /** LZ4_count is the length of the longest agreement of the two places, up to the limit. */
  method Count(s: seq<byte>, start: nat, startRef: nat, limit: nat) returns (n: nat)
    requires startRef <= start <= limit <= |s|
    ensures start + n <= limit && Agree(s, start, startRef, n)
    ensures start + n < limit ==> s[start + n] != s[startRef + n]
  {
    hide Agree;
    n := 0;
    AgreeNone(s, start, startRef);
    while start + n < limit - (STEPSIZE - 1)
      invariant start + n <= limit && Agree(s, start, startRef, n)
    {
      var k := CountWord(s, start + n, startRef + n);
      AgreeAppend(s, start, startRef, n, k);
      n := n + k;
      if k < STEPSIZE {
        return;
      }
    }
    var tail := CountTail(s, start + n, startRef + n, limit);
    AgreeAppend(s, start, startRef, n, tail);
    n := n + tail;
  }

  // ----- the table of positions

  ghost predicate IntoTable(hash: nat -> nat, size: nat) {
    forall v: nat :: hash(v) < size
  }

  /** An entry is zero or the exact position of four bytes with that hash. */
  predicate EntrySound(source: seq<byte>, hash: nat -> nat, h: nat, entry: nat, limit: nat) {
    entry < limit && (entry == 0 || (entry + 4 <= |source| && hash(Load(source, entry, 4)) == h))
  }

  /** Every entry is sound and below `limit`. */
  predicate TableSound(source: seq<byte>, hash: nat -> nat, table: seq<nat>, limit: nat) {
    forall h :: 0 <= h < |table| ==> EntrySound(source, hash, h, table[h], limit)
  }

  /** LZ4_putPositionOnHash at the hash of the position itself. */
  method PutPosition(source: seq<byte>, table: array<nat>, t: TableType, hash: nat -> nat, p: nat, ghost limit: nat)
    requires Suits(t, |source|) && p + MFLIMIT <= |source| && p < limit
    requires IntoTable(hash, table.Length) && TableSound(source, hash, table[..], limit)
    modifies table
    ensures TableSound(source, hash, table[..], limit)
    ensures table[..] == old(table[..])[hash(Load(source, p, 4)) := p]
  {
    hide Load;
    StoredExact(t, |source|, p);
    table[hash(Load(source, p, 4))] := Stored(t, p);
  }

  lemma TableSoundBelow(source: seq<byte>, hash: nat -> nat, table: seq<nat>, limit: nat, more: nat)
    requires TableSound(source, hash, table, limit) && limit <= more
    ensures TableSound(source, hash, table, more)
  {
    hide Load;
  }

  /** A pair of places the compressor may encode as a match. */
  predicate Candidate(source: seq<byte>, ip: nat, ref: nat) {
    ref < ip && ip - ref <= MAX_DISTANCE && Agree(source, ip, ref, MINMATCH)
  }

  /** The places the search looks at: 66 in a row, and then farther and farther apart. */
  function Probe(start: nat, k: nat): (p: nat)
    ensures p >= start + k
    ensures k <= 65 ==> p == start + k
  {
    if k == 0 then start else Probe(start, k - 1) + Max(1, (k + 62) / 64)
  }

  /** The table after the first `k` places were stored in it. */
  function Puts(source: seq<byte>, hash: nat -> nat, table: seq<nat>, start: nat, k: nat): (after: seq<nat>)
    ensures |after| == |table|
  {
    if k == 0 then table else Put(source, hash, Puts(source, hash, table, start, k - 1), Probe(start, k - 1))
  }

  function Put(source: seq<byte>, hash: nat -> nat, table: seq<nat>, p: nat): (after: seq<nat>)
    ensures |after| == |table|
  {
    if p + 4 <= |source| && hash(Load(source, p, 4)) < |table| then table[hash(Load(source, p, 4)) := p] else table
  }

  function Get(source: seq<byte>, hash: nat -> nat, table: seq<nat>, p: nat): nat {
    if p + 4 <= |source| && hash(Load(source, p, 4)) < |table| then table[hash(Load(source, p, 4))] else 0
  }

  /** The place that the table gives for the `k`th place looked at, and whether the two make a match. */
  function Entry(source: seq<byte>, hash: nat -> nat, table: seq<nat>, start: nat, k: nat): nat {
    Get(source, hash, Puts(source, hash, table, start, k), Probe(start, k))
  }

  predicate Hit(source: seq<byte>, hash: nat -> nat, table: seq<nat>, start: nat, k: nat) {
    Candidate(source, Probe(start, k), Entry(source, hash, table, start, k))
  }

  /** The search loop: forward with growing steps. It ends at the first place that the table has a match for,
      or when the place after it is over the limit, and not before. */
  method FindMatch(source: seq<byte>, table: array<nat>, t: TableType, hash: nat -> nat, start: nat)
    returns (found: bool, ip: nat, ref: nat, ghost k: nat)
    requires Suits(t, |source|) && 1 <= start && start + MFLIMIT <= |source| + 1
    requires IntoTable(hash, table.Length) && TableSound(source, hash, table[..], start)
    modifies table
    ensures ip == Probe(start, k) && forall j :: 0 <= j < k ==> !Hit(source, hash, old(table[..]), start, j)
    ensures found ==> Probe(start, k + 1) <= |source| - 12 && Hit(source, hash, old(table[..]), start, k)
    ensures found ==> ref == Entry(source, hash, old(table[..]), start, k)
    ensures !found ==> Probe(start, k + 1) > |source| - 12
    ensures found ==> ip + MFLIMIT < |source| && Candidate(source, ip, ref)
    ensures found ==> TableSound(source, hash, table[..], ip + 1)
    ensures table[..] == Puts(source, hash, old(table[..]), start, if found then k + 1 else k)
  {
    hide Load, Agree, EntrySound, TableSound, Put, Get;
    ghost var before := table[..];
    var mflimit := |source| - MFLIMIT;
    var forwardIp, step, searchMatchNb := start, 1, SKIP;
    var forwardH := hash(Load(source, start, 4));
    ip, ref, k := start, 0, 0;
    while true
      invariant start <= forwardIp <= mflimit + 1 && searchMatchNb == SKIP + k
      invariant forwardIp == Probe(start, k) && step == Max(1, (k + 63) / 64)
      invariant forwardH == hash(Load(source, forwardIp, 4))
      invariant TableSound(source, hash, table[..], forwardIp)
      invariant table[..] == Puts(source, hash, before, start, k)
      invariant forall j :: 0 <= j < k ==> !Hit(source, hash, before, start, j)
      decreases mflimit + 1 - forwardIp
    {
      var h := forwardH;
      ip := forwardIp;
      forwardIp := forwardIp + step;
      step := searchMatchNb / SKIP;
      searchMatchNb := searchMatchNb + 1;
      assert forwardIp == Probe(start, k + 1);
      if forwardIp > mflimit {
        return false, ip, ref, k;
      }
      forwardH := hash(Load(source, forwardIp, 4));
      found, ref := ProbeAt(source, table, t, hash, ip, h);
      if found {
        return;
      }
      TableSoundBelow(source, hash, table[..], ip + 1, forwardIp);
      k := k + 1;
    }
  }

  /** One turn of the search: the entry for `ip` is read, `ip` takes its place, and the two are compared. */
  method ProbeAt(source: seq<byte>, table: array<nat>, t: TableType, hash: nat -> nat, ip: nat, h: nat)
    returns (found: bool, ref: nat)
    requires Suits(t, |source|) && 1 <= ip && ip + MFLIMIT <= |source| && h == hash(Load(source, ip, 4))
    requires IntoTable(hash, table.Length) && TableSound(source, hash, table[..], ip)
    modifies table
    ensures ref == Get(source, hash, old(table[..]), ip) && (found <==> Candidate(source, ip, ref))
    ensures table[..] == Put(source, hash, old(table[..]), ip) && TableSound(source, hash, table[..], ip + 1)
  {
    hide Load, Agree, EntrySound, TableSound;
    ref := table[h];
    EntryBelow(source, hash, table[..], ip, h);
    TableSoundBelow(source, hash, table[..], ip, ip + 1);
    PutPosition(source, table, t, hash, ip, ip + 1);
    LoadsAgree(source, ip, ref, 4);
    found := !((t.ByU32? && ref + MAX_DISTANCE < ip) || Load(source, ref, 4) != Load(source, ip, 4));
  }

  lemma EntryBelow(source: seq<byte>, hash: nat -> nat, table: seq<nat>, limit: nat, h: nat)
    requires TableSound(source, hash, table, limit) && h < |table|
    ensures table[h] < limit
  {
  }

  /** Extends a match backwards over equal bytes, down to the anchor and the input start. */
  method CatchUp(source: seq<byte>, anchor: nat, ip0: nat, ref0: nat) returns (ip: nat, ref: nat)
    requires anchor <= ip0 && ip0 + MINMATCH <= |source| && Candidate(source, ip0, ref0)
    ensures anchor <= ip <= ip0 && ip - ref == ip0 - ref0
    ensures Agree(source, ip, ref, ip0 - ip + MINMATCH)
    ensures ip > anchor && ref > 0 ==> source[ip - 1] != source[ref - 1]
  {
    hide Agree;
    ip, ref := ip0, ref0;
    while ip > anchor && ref > 0 && source[ip - 1] == source[ref - 1]
      invariant anchor <= ip <= ip0 && ip - ref == ip0 - ref0
      invariant Agree(source, ip, ref, ip0 - ip + MINMATCH)
    {
      AgreeOne(source, ip - 1, ref - 1);
      AgreeAppend(source, ip - 1, ref - 1, 1, ip0 - ip + MINMATCH);
      ip, ref := ip - 1, ref - 1;
    }
  }

  // ----- emitting bytes

  /** From `from` on the buffer is as it was. */
  predicate Untouched(now: seq<byte>, was: seq<byte>, from: int) {
    |now| == |was| && forall k :: 0 <= k < |was| && from <= k ==> now[k] == was[k]
  }

  lemma UntouchedSince(now: seq<byte>, mid: seq<byte>, was: seq<byte>, a: int, b: int, c: int)
    requires Untouched(now, mid, a) && Untouched(mid, was, b) && a <= c && b <= c
    ensures Untouched(now, was, c)
  {
  }

  lemma UntouchedTail(now: seq<byte>, was: seq<byte>, from: nat)
    requires |now| == |was| && from <= |was| && now[from..] == was[from..]
    ensures Untouched(now, was, from)
  {
    assert forall k :: from <= k < |was| ==> now[k] == now[from..][k - from] && was[k] == was[from..][k - from];
  }

  lemma MoreExtra(before: seq<byte>, n: nat)
    requires n >= 255
    ensures |ExtraBytes(n)| == 1 + |ExtraBytes(n - 255)|
    ensures before + ExtraBytes(n) == (before + [255]) + ExtraBytes(n - 255)
  {
    Assoc(before, [255], ExtraBytes(n - 255));
  }

  lemma LastExtra(n: nat)
    requires n < 255
    ensures ExtraBytes(n) == [n]
  {
  }

  method EmitExtra(dest: array<byte>, begin: nat, n: nat) returns (op: nat)
    requires begin + |ExtraBytes(n)| <= dest.Length
    modifies dest
    ensures op == begin + |ExtraBytes(n)|
    ensures dest[..op] == old(dest[..begin]) + ExtraBytes(n)
    ensures Untouched(dest[..], old(dest[..]), op)
  {
    hide ExtraBytes;
    op := begin;
    var len := n;
    ghost var before := dest[..begin];
    while len >= 255
      invariant begin <= op && op + |ExtraBytes(len)| == begin + |ExtraBytes(n)|
      invariant dest[..op] + ExtraBytes(len) == before + ExtraBytes(n)
      invariant Untouched(dest[..], old(dest[..]), op)
    {
      MoreExtra(dest[..op], len);
      op := EmitByte(dest, op, 255);
      len := len - 255;
    }
    LastExtra(len);
    op := EmitByte(dest, op, len);
  }

  /** One byte at the end of the output. */
  method EmitByte(dest: array<byte>, begin: nat, b: byte) returns (op: nat)
    requires begin < dest.Length
    modifies dest
    ensures op == begin + 1 && dest[..op] == old(dest[..begin]) + [b]
    ensures forall was :: Untouched(old(dest[..]), was, begin) ==> Untouched(dest[..], was, op)
  {
    dest[begin] := b;
    op := begin + 1;
  }

  /** The same bytes, two at a time. */
  method EmitExtraPairs(dest: array<byte>, begin: nat, n: nat) returns (op: nat)
    requires begin + |ExtraBytes(n)| <= dest.Length
    modifies dest
    ensures op == begin + |ExtraBytes(n)|
    ensures dest[..op] == old(dest[..begin]) + ExtraBytes(n)
    ensures Untouched(dest[..], old(dest[..]), op)
  {
    hide ExtraBytes, Untouched;
    UntouchedSelf(dest[..], begin);
    op := begin;
    var len := n;
    ghost var before := dest[..begin];
    while len >= 510
      invariant begin <= op && op + |ExtraBytes(len)| == begin + |ExtraBytes(n)|
      invariant dest[..op] + ExtraBytes(len) == before + ExtraBytes(n)
      invariant Untouched(dest[..], old(dest[..]), op)
    {
      MoreExtra(dest[..op], len);
      MoreExtra(dest[..op] + [255], len - 255);
      op := EmitByte(dest, op, 255);
      op := EmitByte(dest, op, 255);
      len := len - 510;
    }
    if len >= 255 {
      MoreExtra(dest[..op], len);
      op := EmitByte(dest, op, 255);
      len := len - 255;
    }
    LastExtra(len);
    op := EmitByte(dest, op, len);
  }

  lemma UntouchedSelf(s: seq<byte>, from: int)
    ensures Untouched(s, s, from)
  {
  }

  /** A token that carries only a literal length, its extra bytes, and the literals. */
  function Pending(before: seq<byte>, literals: seq<byte>): seq<byte> {
    before + EncodeLast(literals)
  }

  method EmitRun(dest: array<byte>, token: nat, run: nat) returns (op: nat)
    requires token + 1 + |LengthTail(run)| <= dest.Length
    modifies dest
    ensures op == token + 1 + |LengthTail(run)|
    ensures dest[..op] == old(dest[..token]) + ([16 * Nibble(run)] + LengthTail(run))
    ensures Untouched(dest[..], old(dest[..]), op)
  {
    hide ExtraBytes, LengthTail, Untouched;
    ghost var before, was := dest[..token], dest[..];
    UntouchedSelf(was, token);
    TailOf(run);
    Assoc(before, [16 * Nibble(run)], LengthTail(run));
    if run >= RUN_MASK {
      op := EmitByte(dest, token, 240);
      ghost var mid := dest[..];
      op := EmitExtra(dest, op, run - RUN_MASK);
      UntouchedSince(dest[..], mid, was, op, token + 1, op);
    } else {
      op := EmitByte(dest, token, 16 * run);
    }
  }

  /** Literal length, then the literals by wild copy, which may write eight bytes too many. */
  method EmitLiterals(source: seq<byte>, anchor: nat, ip: nat, dest: array<byte>, token: nat) returns (op: nat)
    requires anchor <= ip && ip + STEPSIZE <= |source|
    requires token + |EncodeLast(source[anchor..ip])| + STEPSIZE <= dest.Length
    modifies dest
    ensures op == token + |EncodeLast(source[anchor..ip])|
    ensures dest[..op] == Pending(old(dest[..token]), source[anchor..ip])
    ensures Untouched(dest[..], old(dest[..]), op + STEPSIZE)
  {
    hide LengthTail, Nibble, Untouched;
    ghost var was := dest[..];
    RunAndLiterals(dest[..token], source[anchor..ip]);
    op := EmitRun(dest, token, ip - anchor);
    ghost var mid, after := dest[..], op;
    ghost var mark := WildCopyFrom(source, anchor, dest, op, op + (ip - anchor));
    op := op + (ip - anchor);
    UntouchedTail(dest[..], mid, op + STEPSIZE);
    UntouchedSince(dest[..], mid, was, op + STEPSIZE, after, op + STEPSIZE);
  }

  lemma RunAndLiterals(before: seq<byte>, literals: seq<byte>)
    ensures |EncodeLast(literals)| == 1 + |LengthTail(|literals|)| + |literals|
    ensures before + ([16 * Nibble(|literals|)] + LengthTail(|literals|)) + literals == Pending(before, literals)
  {
  }

  /** Literal length, then the literals by an exact copy, up to the end of the input. */
  method EmitLastRun(source: seq<byte>, anchor: nat, dest: array<byte>, token: nat) returns (op: nat)
    requires anchor <= |source| && token + |EncodeLast(source[anchor..])| <= dest.Length
    modifies dest
    ensures op == token + |EncodeLast(source[anchor..])|
    ensures dest[..op] == Pending(old(dest[..token]), source[anchor..])
    ensures Untouched(dest[..], old(dest[..]), op)
  {
    hide LengthTail, Nibble, Untouched;
    var run := |source| - anchor;
    ghost var was := dest[..];
    RunAndLiterals(dest[..token], source[anchor..]);
    op := EmitRun(dest, token, run);
    ghost var mid, after := dest[..], op;
    Memcpy(source, anchor, dest, op, run);
    op := op + run;
    UntouchedTail(dest[..], mid, op);
    UntouchedSince(dest[..], mid, was, op, after, op);
  }

  lemma TailOf(n: nat)
    ensures LengthTail(n) == if n < 15 then [] else ExtraBytes(n - 15)
  {
  }

  /** Offset, low half of the token, and the extra bytes of the match length. */
  method EmitMatchBytes(dest: array<byte>, token: nat, begin: nat, offset: nat, matchLength: nat)
    returns (op: nat)
    requires token < begin && begin + 2 + |LengthTail(matchLength)| <= dest.Length
    requires dest[token] + Nibble(matchLength) < 256
    modifies dest
    ensures op == begin + 2 + |LengthTail(matchLength)|
    ensures dest[..op] == old(dest[..begin])[token := old(dest[token]) + Nibble(matchLength)]
                          + (LeBytes(offset, 2) + LengthTail(matchLength))
    ensures Untouched(dest[..], old(dest[..]), op)
  {
    hide LeBytes, ExtraBytes, LengthTail;
    ghost var was := dest[..begin];
    var low := LeBytes(offset, 2);
    dest[begin], dest[begin + 1] := low[0], low[1];
    op := begin + 2;
    dest[token] := dest[token] + Nibble(matchLength);
    ghost var head := was[token := dest[token]];
    assert dest[..op] == head + low;
    if matchLength >= ML_MASK {
      op := EmitExtraPairs(dest, op, matchLength - ML_MASK);
    }
    TailOf(matchLength);
    assert dest[..op] == head + low + LengthTail(matchLength);
    assert head + low + LengthTail(matchLength) == head + (low + LengthTail(matchLength));
  }

  /** Offset and match length after pending literals complete the sequence. */
  method EmitMatch(dest: array<byte>, token: nat, begin: nat, ghost before: seq<byte>, ghost s: Sequence,
                   offset: nat, matchLength: nat)
    returns (op: nat)
    requires Encodable(s) && s.offset == offset && s.matchLength == matchLength + MINMATCH
    requires |before| == token && token < begin && begin + |MatchBytes(s)| <= dest.Length
    requires dest[..begin] == Pending(before, s.literals)
    modifies dest
    ensures op == begin + |MatchBytes(s)|
    ensures dest[..op] == before + EncodeSequence(s)
    ensures Untouched(dest[..], old(dest[..]), op)
  {
    hide LeBytes, ExtraBytes, LengthTail, EncodeSequence;
    assert dest[token] == dest[..begin][token] == 16 * Nibble(|s.literals|);
    op := EmitMatchBytes(dest, token, begin, offset, matchLength);
    TokenCompleted(before, s);
  }

  lemma TokenCompleted(before: seq<byte>, s: Sequence)
    requires Encodable(s)
    ensures Pending(before, s.literals)[|before| := Token(s)] + MatchBytes(s) == before + EncodeSequence(s)
  {
    hide LengthTail, MatchBytes, Token, Nibble;
    var body := LengthTail(|s.literals|) + s.literals;
    assert Pending(before, s.literals)[|before| := Token(s)] == before + ([Token(s)] + body);
    Assoc(before, [Token(s)] + body, MatchBytes(s));
    assert [Token(s)] + body + MatchBytes(s) == EncodeSequence(s);
  }

  // ----- the compressor

  /** No match can be made longer: the byte after it differs or the last literals begin, and the
      byte before it differs unless the match starts at the last one's end or at the input's start. */
  predicate Maximal(source: seq<byte>, sequences: seq<Sequence>) {
    |sequences| == 0 ||
    (var before, s := sequences[..|sequences| - 1], sequences[|sequences| - 1];
     var start, end := OutputLength(before) + |s.literals|, OutputLength(sequences);
     && Maximal(source, before)
     && 1 <= s.offset <= start && end <= |source|
     && (end < |source| - LASTLITERALS ==> source[end] != source[end - s.offset])
     && (|s.literals| > 0 && s.offset < start ==> source[start - 1] != source[start - 1 - s.offset]))
  }

  /** Five equal bytes around `p`. */
  predicate FiveEqual(source: seq<byte>, p: nat) {
    && 1 <= p && p + 4 <= |source| && source[p - 1] == source[p] == source[p + 1]
    && source[p + 1] == source[p + 2] == source[p + 3]
  }

  /** Literals from `from` up to `to` that no match could have taken, for any hash: none of the first 65
      places repeats the byte before it four times, and directly behind a match the first does not repeat
      the four bytes two places before. */
  predicate Unmatched(source: seq<byte>, first: bool, from: nat, to: int) {
    && (forall p :: from < p <= from + 65 && p < to ==> !FiveEqual(source, p))
    && (!first && from < to ==> !TwoBack(source, from))
  }

  /** All literals in front of matches are such. */
  predicate Tight(source: seq<byte>, sequences: seq<Sequence>) {
    |sequences| == 0 ||
    (var before, s := sequences[..|sequences| - 1], sequences[|sequences| - 1];
     var from := OutputLength(before);
     Tight(source, before) && Unmatched(source, |before| == 0, from, from + |s.literals|))
  }

  lemma TightSnoc(source: seq<byte>, sequences: seq<Sequence>, s: Sequence)
    requires Tight(source, sequences)
    requires var from := OutputLength(sequences); Unmatched(source, |sequences| == 0, from, from + |s.literals|)
    ensures Tight(source, sequences + [s])
  {
    hide OutputLength, Unmatched;
    assert (sequences + [s])[..|sequences|] == sequences;
  }

  /** And so are the last literals, up to where matches cannot start. */
  predicate Thorough(source: seq<byte>, block: Block) {
    var from, first := OutputLength(block.sequences), |block.sequences| == 0;
    && Maximal(source, block.sequences) && Tight(source, block.sequences) && LastUnmatched(source, first, from)
  }

  predicate LastUnmatched(source: seq<byte>, first: bool, from: nat) {
    Unmatched(source, first, from, |source| - 12) && (!first && from + 12 <= |source| ==> !TwoBack(source, from))
  }

  /** The sequences so far reproduce the input up to `anchor`, keep the end conditions and are maximal. */
  predicate Covers(source: seq<byte>, sequences: seq<Sequence>, anchor: nat) {
    && anchor <= |source| && AllEncodable(sequences)
    && Execute(sequences) == Some(source[..anchor])
    && MatchesEndBefore(sequences, |source|)
    && Maximal(source, sequences) && Tight(source, sequences)
  }

  /** The sequence that takes `anchor..ip` as literals and `ip..end` as a match at `ref`. */
  function Match(source: seq<byte>, anchor: nat, ip: nat, ref: nat, end: nat): Sequence
    requires anchor <= ip <= end <= |source| && ref <= ip
  {
    Sequence(source[anchor..ip], ip - ref, end - ip)
  }

  lemma FirstMatch(source: seq<byte>, anchor: nat, ip: nat, ref: nat, end: nat)
    requires anchor <= ip <= end <= |source| && ref <= ip
    ensures Match(source, anchor, ip, ref, end).literals == source[anchor..ip]
    ensures Match(source, anchor, ip, ref, end).offset == ip - ref
  {
  }

  lemma CoversMore(source: seq<byte>, sequences: seq<Sequence>, anchor: nat, ip: nat, ref: nat, end: nat)
    requires Covers(source, sequences, anchor)
    requires anchor <= ip && ref < ip && ip - ref <= MAX_DISTANCE && ip + MINMATCH <= end
    requires ip + MFLIMIT <= |source| && end + LASTLITERALS <= |source|
    requires Agree(source, ip, ref, end - ip)
    requires end < |source| - LASTLITERALS ==> source[end] != source[ref + (end - ip)]
    requires anchor < ip && ref > 0 ==> source[ip - 1] != source[ref - 1]
    requires Unmatched(source, |sequences| == 0, anchor, ip)
    ensures Covers(source, sequences + [Match(source, anchor, ip, ref, end)], end)
  {
    hide Agree, CopyMatch, EncodeAll, EncodeSequence, Execute, OutputLength, MatchesEndBefore, Maximal, Tight,
         Unmatched;
    var s := Match(source, anchor, ip, ref, end);
    Snoc(sequences, s);
    assert source[..anchor] + source[anchor..ip] == source[..ip];
    MatchIsCopy(source, ip, ref, end);
    KeepsConditions(source, sequences, s);
    TightSnoc(source, sequences, s);
  }

  lemma KeepsConditions(source: seq<byte>, sequences: seq<Sequence>, s: Sequence)
    requires MatchesEndBefore(sequences, |source|) && Maximal(source, sequences)
    requires 1 <= s.offset <= MAX_DISTANCE && MINMATCH <= s.matchLength
    requires var start := OutputLength(sequences) + |s.literals|;
             var end := start + s.matchLength;
             && s.offset <= start && start + MFLIMIT <= |source| && end + LASTLITERALS <= |source|
             && (end < |source| - LASTLITERALS ==> source[end] != source[end - s.offset])
             && (|s.literals| > 0 && s.offset < start ==> source[start - 1] != source[start - 1 - s.offset])
    ensures MatchesEndBefore(sequences + [s], |source|) && Maximal(source, sequences + [s])
  {
    LengthSnoc(sequences, s);
    hide OutputLength;
    MatchesSnoc(sequences, s, |source|);
    MaximalSnoc(source, sequences, s);
  }

  lemma LengthSnoc(sequences: seq<Sequence>, s: Sequence)
    ensures OutputLength(sequences + [s]) == OutputLength(sequences) + |s.literals| + s.matchLength
  {
    assert (sequences + [s])[..|sequences|] == sequences;
  }

  lemma MatchesSnoc(sequences: seq<Sequence>, s: Sequence, n: nat)
    requires MatchesEndBefore(sequences, n) && 1 <= s.offset <= MAX_DISTANCE && MINMATCH <= s.matchLength
    requires OutputLength(sequences) + |s.literals| + MFLIMIT <= n
    requires OutputLength(sequences + [s]) + LASTLITERALS <= n
    ensures MatchesEndBefore(sequences + [s], n)
  {
    hide OutputLength;
    assert (sequences + [s])[..|sequences|] == sequences;
  }

  lemma MaximalSnoc(source: seq<byte>, sequences: seq<Sequence>, s: Sequence)
    requires Maximal(source, sequences)
    requires var start, end := OutputLength(sequences) + |s.literals|, OutputLength(sequences + [s]);
             && 1 <= s.offset <= start <= end <= |source|
             && (end < |source| - LASTLITERALS ==> source[end] != source[end - s.offset])
             && (|s.literals| > 0 && s.offset < start ==> source[start - 1] != source[start - 1 - s.offset])
    ensures Maximal(source, sequences + [s])
  {
    hide OutputLength;
    assert (sequences + [s])[..|sequences|] == sequences;
  }

  lemma MatchIsCopy(source: seq<byte>, ip: nat, ref: nat, end: nat)
    requires ref < ip <= end <= |source| && Agree(source, ip, ref, end - ip)
    ensures source[..end] == CopyMatch(source[..ip], ip - ref, end - ip)
  {
    var r := source[..end];
    forall k | ip <= k < end ensures r[k] == r[k - (ip - ref)] {
      assert source[ip..end][k - ip] == source[ref..ref + (end - ip)][k - ip];
    }
    CopyMatchUnique(source[..ip], ip - ref, end - ip, r);
  }

  /** A maximal match that agrees up to `found + MINMATCH` ends at or after it. */
  lemma ReachesFound(source: seq<byte>, ip: nat, ref: nat, found: nat, end: nat, limit: nat)
    requires ref < ip <= found && ip + MINMATCH <= end <= limit <= |source| && found + MINMATCH <= limit
    requires Agree(source, ip, ref, found - ip + MINMATCH)
    requires end < limit ==> source[end] != source[ref + (end - ip)]
    ensures found + MINMATCH <= end
  {
    var n := found - ip + MINMATCH;
    var a, b := source[ip..ip + n], source[ref..ref + n];
    assert forall k :: 0 <= k < n ==> a[k] == b[k];
  }

  /** Room for the bytes of a sequence that ends inside the input. */
  lemma Room(source: seq<byte>, sequences: seq<Sequence>, anchor: nat, size: nat)
    requires Covers(source, sequences, anchor) && |source| <= MAX_INPUT_SIZE && CompressBound(|source|) <= size
    ensures 255 * |EncodeAll(sequences)| <= 256 * anchor
    ensures |EncodeAll(sequences)| + 16 <= size
  {
    EncodeAllSize(sequences);
  }

  /** A match whose literals are pending can be completed. */
  ghost predicate Ready(source: seq<byte>, sequences: seq<Sequence>, anchor: nat, ip: nat, ref: nat, found: nat,
                        written: seq<byte>)
  {
    && Covers(source, sequences, anchor) && anchor <= ip <= found && found + MFLIMIT <= |source|
    && ref < ip && ip - ref <= MAX_DISTANCE && Agree(source, ip, ref, found - ip + MINMATCH)
    && (anchor < ip && ref > 0 ==> source[ip - 1] != source[ref - 1])
    && Unmatched(source, |sequences| == 0, anchor, ip)
    && written == Pending(EncodeAll(sequences), source[anchor..ip])
  }

  /** Everything written is the encoding of sequences that reproduce the input up to `anchor`. */
  ghost predicate Written(source: seq<byte>, sequences: seq<Sequence>, anchor: nat, written: seq<byte>) {
    Covers(source, sequences, anchor) && written == EncodeAll(sequences)
  }

  /** Counts the match at `ip` forward and completes its sequence. */
  method EmitOneMatch(source: seq<byte>, dest: array<byte>, anchor: nat, ip: nat, ref: nat, ghost found: nat,
                      token: nat, begin: nat, ghost sequences: seq<Sequence>)
    returns (end: nat, op: nat, ghost more: seq<Sequence>)
    requires |source| <= MAX_INPUT_SIZE && CompressBound(|source|) <= dest.Length
    requires begin <= dest.Length && Ready(source, sequences, anchor, ip, ref, found, dest[..begin])
    requires token == |EncodeAll(sequences)|
    modifies dest
    ensures found + MINMATCH <= end && end + LASTLITERALS <= |source| && begin + 2 <= op <= dest.Length
    ensures more == sequences + [Match(source, anchor, ip, ref, end)] && Written(source, more, end, dest[..op])
    ensures Untouched(dest[..], old(dest[..]), op)
  {
    hide Agree, EncodeSequence, EncodeAll, Covers, MatchBytes, Untouched, EncodeLast;
    var n := Count(source, ip + MINMATCH, ref + MINMATCH, |source| - LASTLITERALS);
    end := ip + MINMATCH + n;
    OneMore(source, sequences, anchor, ip, ref, found, n, dest[..begin], dest.Length);
    ghost var s := Match(source, anchor, ip, ref, end);
    more := sequences + [s];
    op := EmitMatch(dest, token, begin, EncodeAll(sequences), s, ip - ref, n);
  }

  /** What a counted match adds to the sequences, and that its bytes fit. */
  lemma OneMore(source: seq<byte>, sequences: seq<Sequence>, anchor: nat, ip: nat, ref: nat, found: nat, n: nat,
                written: seq<byte>, size: nat)
    requires |source| <= MAX_INPUT_SIZE && CompressBound(|source|) <= size
    requires Ready(source, sequences, anchor, ip, ref, found, written)
    requires Agree(source, ip + MINMATCH, ref + MINMATCH, n) && ip + MINMATCH + n + LASTLITERALS <= |source|
    requires var end := ip + MINMATCH + n;
             end < |source| - LASTLITERALS ==> source[end] != source[ref + MINMATCH + n]
    ensures found <= ip + n && AllEncodable(sequences)
    ensures var end := ip + MINMATCH + n;
            var s := Match(source, anchor, ip, ref, end);
            && Encodable(s) && Covers(source, sequences + [s], end)
            && EncodeAll(sequences + [s]) == EncodeAll(sequences) + EncodeSequence(s)
            && |MatchBytes(s)| >= 2 && |EncodeAll(sequences)| < |written| && |written| + |MatchBytes(s)| <= size
  {
    hide Agree, EncodeSequence, EncodeAll, Covers, MatchBytes, EncodeLast, Unmatched;
    var end := ip + MINMATCH + n;
    CoversEncodable(source, sequences, anchor);
    AgreeSplit(source, ip, ref, MINMATCH, found - ip);
    AgreeAppend(source, ip, ref, MINMATCH, n);
    ReachesFound(source, ip, ref, found, end, |source| - LASTLITERALS);
    CoversMore(source, sequences, anchor, ip, ref, end);
    MoreBytes(source, sequences, Match(source, anchor, ip, ref, end), end, size);
  }

  lemma CoversEncodable(source: seq<byte>, sequences: seq<Sequence>, anchor: nat)
    requires Covers(source, sequences, anchor)
    ensures AllEncodable(sequences)
  {
  }

  lemma MoreBytes(source: seq<byte>, sequences: seq<Sequence>, s: Sequence, end: nat, size: nat)
    requires |source| <= MAX_INPUT_SIZE && CompressBound(|source|) <= size
    requires AllEncodable(sequences) && Encodable(s) && Covers(source, sequences + [s], end)
    ensures EncodeAll(sequences + [s]) == EncodeAll(sequences) + EncodeSequence(s)
    ensures |MatchBytes(s)| >= 2 && |EncodeLast(s.literals)| >= 1
    ensures |EncodeAll(sequences)| + |EncodeLast(s.literals)| + |MatchBytes(s)| <= size
  {
    hide EncodeSequence, EncodeAll, Covers, MatchBytes, EncodeLast, Execute, OutputLength;
    Snoc(sequences, s);
    Room(source, sequences + [s], end, size);
    SequenceBytes(s);
  }

  lemma AgreeSplit(s: seq<byte>, p: nat, q: nat, n: nat, m: nat)
    requires Agree(s, p, q, n + m)
    ensures Agree(s, p, q, n)
  {
    assert s[p..p + n] == s[p..p + n + m][..n];
    assert s[q..q + n] == s[q..q + n + m][..n];
  }

  lemma SequenceBytes(s: Sequence)
    requires Encodable(s)
    ensures |EncodeSequence(s)| == |EncodeLast(s.literals)| + |MatchBytes(s)|
    ensures |MatchBytes(s)| >= 2 && |EncodeLast(s.literals)| >= 1
  {
  }

  /** The four bytes at `p` repeat those two places before. */
  predicate TwoBack(source: seq<byte>, p: nat) {
    p >= 2 && Agree(source, p, p - 2, 4)
  }

  /** Equal words have equal hashes, so what was stored last for a word is what is read for it. */
  lemma LastPutRead(source: seq<byte>, hash: nat -> nat, table: seq<nat>, ip: nat)
    requires 2 <= ip && ip + 4 <= |source| && IntoTable(hash, |table|)
    ensures TwoBack(source, ip) ==> Get(source, hash, Put(source, hash, table, ip - 2), ip) == ip - 2
  {
    if TwoBack(source, ip) {
      LoadsAgree(source, ip, ip - 2, 4);
      hide Load, Agree;
    }
  }

  /** Records the end of the last match and looks for a match that starts there. */
  method NextMatch(source: seq<byte>, table: array<nat>, t: TableType, hash: nat -> nat, ip: nat)
    returns (again: bool, ref: nat)
    requires Suits(t, |source|) && 2 <= ip && ip + MFLIMIT <= |source|
    requires IntoTable(hash, table.Length) && TableSound(source, hash, table[..], ip)
    modifies table
    ensures TableSound(source, hash, table[..], ip + 1)
    ensures ref == Get(source, hash, Put(source, hash, old(table[..]), ip - 2), ip)
    ensures again <==> ip - ref <= 65535 && Agree(source, ip, ref, 4)
    ensures table[..] == Put(source, hash, Put(source, hash, old(table[..]), ip - 2), ip)
    ensures again ==> Candidate(source, ip, ref)
    ensures !again ==> !TwoBack(source, ip)
  {
    hide Load, Agree, EntrySound, TableSound;
    LastPutRead(source, hash, table[..], ip);
    PutPosition(source, table, t, hash, ip - 2, ip);
    ref := table[hash(Load(source, ip, 4))];
    EntryBelow(source, hash, table[..], ip, hash(Load(source, ip, 4)));
    TableSoundBelow(source, hash, table[..], ip, ip + 1);
    PutPosition(source, table, t, hash, ip, ip + 1);
    again := ref + MAX_DISTANCE >= ip && Load(source, ref, 4) == Load(source, ip, 4);
    LoadsAgree(source, ip, ref, 4);
  }

  /** `more` goes on from `sequences` with a sequence of these literals and this offset. */
  predicate Begins(sequences: seq<Sequence>, literals: seq<byte>, offset: nat, more: seq<Sequence>) {
    && |sequences| < |more| && more[..|sequences|] == sequences
    && more[|sequences|].literals == literals && more[|sequences|].offset == offset
  }

  lemma BeginsMore(sequences: seq<Sequence>, literals: seq<byte>, offset: nat, more: seq<Sequence>, s: Sequence)
    ensures Begins(sequences, s.literals, s.offset, sequences + [s])
    ensures Begins(sequences, literals, offset, more) ==> Begins(sequences, literals, offset, more + [s])
  {
  }

  /** Encodes the match at `ip0` and every match that starts right where the last one ended. */
  method EmitMatches(source: seq<byte>, dest: array<byte>, table: array<nat>, t: TableType, hash: nat -> nat,
                     anchor: nat, ip0: nat, ref0: nat, ghost found0: nat, token0: nat, op0: nat,
                     ghost sequences0: seq<Sequence>)
    returns (ip: nat, op: nat, ghost sequences: seq<Sequence>)
    requires Suits(t, |source|) && CompressBound(|source|) <= dest.Length
    requires op0 <= dest.Length && Ready(source, sequences0, anchor, ip0, ref0, found0, dest[..op0])
    requires token0 == |EncodeAll(sequences0)|
    requires IntoTable(hash, table.Length) && TableSound(source, hash, table[..], found0 + 1)
    modifies dest, table
    ensures found0 < ip && ip + LASTLITERALS <= |source| && op0 + 2 <= op <= dest.Length
    ensures Begins(sequences0, source[anchor..ip0], ip0 - ref0, sequences)
    ensures Written(source, sequences, ip, dest[..op])
    ensures Untouched(dest[..], old(dest[..]), op)
    ensures ip + MFLIMIT <= |source| ==> TableSound(source, hash, table[..], ip + 1)
    ensures ip + MFLIMIT <= |source| ==> !TwoBack(source, ip) && Get(source, hash, table[..], ip) == ip
  {
    ghost var literals, offset := source[anchor..ip0], ip0 - ref0;
    hide Agree, EncodeAll, Covers, EntrySound, Untouched, TableSound, Ready, Begins, Match, TwoBack;
    var ref, token := ref0, token0;
    ghost var was := dest[..];
    ghost var found: nat := found0;
    ip, op, sequences := EmitOneMatch(source, dest, anchor, ip0, ref0, found0, token0, op0, sequences0);
    FirstMatch(source, anchor, ip0, ref0, ip);
    BeginsMore(sequences0, [], 0, [], sequences[|sequences0|]);
    while ip + MFLIMIT <= |source|
      invariant found < ip && found0 < ip && ip + LASTLITERALS <= |source| && op0 + 2 <= op <= dest.Length
      invariant Begins(sequences0, literals, offset, sequences)
      invariant Written(source, sequences, ip, dest[..op])
      invariant Untouched(dest[..], old(dest[..]), op)
      invariant TableSound(source, hash, table[..], found + 1)
      decreases |source| - ip
    {
      TableSoundBelow(source, hash, table[..], found + 1, ip);
      var again;
      again, ref := NextMatch(source, table, t, hash, ip);
      found := ip;
      if !again {
        OwnPut(source, hash, table[..], ip);
        return;
      }
      Room(source, sequences, ip, dest.Length);
      token := op;
      op := EmitByte(dest, token, 0);
      PendingNone(source, sequences, ip, ref, dest[..op]);
      ghost var mid, before := dest[..], op;
      ghost var so := sequences;
      ip, op, sequences := EmitOneMatch(source, dest, ip, ip, ref, ip, token, op, sequences);
      BeginsMore(sequences0, literals, offset, so, sequences[|so|]);
      UntouchedSince(dest[..], mid, was, op, before, op);
    }
  }

  lemma OwnPut(source: seq<byte>, hash: nat -> nat, table: seq<nat>, ip: nat)
    requires ip + 4 <= |source| && IntoTable(hash, |table|)
    ensures forall before :: |before| == |table| && table == Put(source, hash, before, ip) ==>
              Get(source, hash, table, ip) == ip
  {
    hide Load;
  }

  lemma PendingNone(source: seq<byte>, sequences: seq<Sequence>, ip: nat, ref: nat, written: seq<byte>)
    requires Covers(source, sequences, ip) && Candidate(source, ip, ref) && ip + MFLIMIT <= |source|
    requires written == EncodeAll(sequences) + [0]
    ensures Ready(source, sequences, ip, ip, ref, ip, written)
  {
    hide EncodeAll, Agree, Execute, MatchesEndBefore, Maximal, Tight;
    assert source[ip..ip] == [] && EncodeLast([]) == [0];
  }

  /** A well-formed block that stands for the input. */
  predicate StandsFor(block: Block, source: seq<byte>) {
    AllEncodable(block.sequences) && ExecuteBlock(block) == Some(source) && WellFormed(block)
  }

  /** The last literals: everything from the anchor to the end of the input. */
  method EmitLast(source: seq<byte>, dest: array<byte>, anchor: nat, begin: nat, ghost sequences: seq<Sequence>)
    returns (op: nat, ghost block: Block)
    requires |source| <= MAX_INPUT_SIZE && CompressBound(|source|) <= dest.Length
    requires begin <= dest.Length && Written(source, sequences, anchor, dest[..begin])
    requires LastUnmatched(source, |sequences| == 0, anchor)
    modifies dest
    ensures op <= CompressBound(|source|)
    ensures StandsFor(block, source) && Thorough(source, block) && dest[..op] == EncodeBlock(block)
    ensures block.sequences == sequences
    ensures begin < op && (|sequences| > 0 ==> begin + 6 <= op)
    ensures Untouched(dest[..], old(dest[..]), op)
  {
    block := Block(sequences, source[anchor..]);
    LastBlock(source, sequences, anchor);
    hide EncodeAll, Covers, StandsFor, LengthTail, Thorough;
    op := EmitLastRun(source, anchor, dest, begin);
  }

  lemma LastBlock(source: seq<byte>, sequences: seq<Sequence>, anchor: nat)
    requires Covers(source, sequences, anchor) && |source| <= MAX_INPUT_SIZE
    requires LastUnmatched(source, |sequences| == 0, anchor)
    ensures StandsFor(Block(sequences, source[anchor..]), source)
    ensures Thorough(source, Block(sequences, source[anchor..]))
    ensures |EncodeAll(sequences)| + |EncodeLast(source[anchor..])| <= CompressBound(|source|)
    ensures |sequences| > 0 ==> anchor + LASTLITERALS <= |source|
  {
    hide Maximal, Tight, LastUnmatched;
    assert source[..anchor] + source[anchor..] == source;
    BlockSize(Block(sequences, source[anchor..]));
  }

  /** LZ4_compress_generic. Zero is returned, with nothing written, for sizes it does not support.
      Otherwise the result is the length of a well-formed block that stands for the input, whatever
      the hash function is, and nothing past that length is written, not even by wild copies. */
  method CompressGeneric(source: seq<byte>, dest: array<byte>, table: array<nat>, t: TableType, hash: nat -> nat)
    returns (r: nat, ghost block: Block)
    requires IntoTable(hash, table.Length) && (forall h :: 0 <= h < table.Length ==> table[h] == 0)
    requires CompressBound(|source|) <= dest.Length
    modifies dest, table
    ensures r == 0 <==> !Suits(t, |source|)
    ensures r <= CompressBound(|source|)
    ensures r > 0 ==> StandsFor(block, source) && Thorough(source, block) && dest[..r] == EncodeBlock(block)
    ensures |source| <= MIN_LENGTH ==> block.sequences == []
    ensures forall d: nat :: r > 0 && FirstRepeat(source, hash, d) ==> Begins([], source[0..d], d, block.sequences)
    ensures Untouched(dest[..], old(dest[..]), r)
  {
    r, block := 0, Block([], []);
    ghost var was := dest[..];
    if |source| > MAX_INPUT_SIZE || (t.ByU16? && |source| >= LIMIT_64K) {
      return;
    }
    ghost var sequences: seq<Sequence> := [];
    var anchor, op := 0, 0;
    assert Written(source, sequences, anchor, dest[..op]);
    hide Load, Agree, EncodeAll, Covers, Untouched, StandsFor, Thorough, FiveEqual;
    UntouchedSelf(dest[..], 0);
    if |source| >= MIN_LENGTH {
      anchor, op, sequences := EmitSequences(source, dest, table, t, hash);
    }
    ghost var mid := dest[..];
    r, block := EmitLast(source, dest, anchor, op, sequences);
    UntouchedSince(dest[..], mid, was, r, if |sequences| == 0 then op else op + 6, r);
  }

  /** A found match: its literals, the match itself and those that follow it directly. */
  method EmitFound(source: seq<byte>, dest: array<byte>, table: array<nat>, t: TableType, hash: nat -> nat,
                   anchor0: nat, at: nat, ref0: nat, token: nat, ghost sequences0: seq<Sequence>)
    returns (anchor: nat, op: nat, ghost sequences: seq<Sequence>)
    requires Suits(t, |source|) && CompressBound(|source|) <= dest.Length && token <= dest.Length
    requires Written(source, sequences0, anchor0, dest[..token]) && anchor0 <= at && at + MFLIMIT <= |source|
    requires Candidate(source, at, ref0) && Unmatched(source, |sequences0| == 0, anchor0, at)
    requires IntoTable(hash, table.Length) && TableSound(source, hash, table[..], at + 1)
    modifies dest, table
    ensures at < anchor && anchor + LASTLITERALS <= |source| && token < op <= dest.Length
    ensures |sequences| > |sequences0| && Written(source, sequences, anchor, dest[..op])
    ensures sequences[..|sequences0|] == sequences0
    ensures ref0 == 0 ==> Begins(sequences0, source[anchor0..at], at, sequences)
    ensures Untouched(dest[..], old(dest[..]), op + 6)
    ensures anchor + MFLIMIT <= |source| ==> TableSound(source, hash, table[..], anchor + 1)
    ensures anchor + MFLIMIT <= |source| ==> !TwoBack(source, anchor) && Get(source, hash, table[..], anchor) == anchor
  {
    hide TwoBack, Load, Agree, EncodeAll, Covers, EncodeLast, Untouched, TableSound, IntoTable;
    ghost var was := dest[..];
    var ip, ref := CatchUp(source, anchor0, at, ref0);
    RunRoom(source, sequences0, anchor0, ip, dest.Length);
    op := EmitLiterals(source, anchor0, ip, dest, token);
    ghost var mid, before := dest[..], op + STEPSIZE;
    anchor, op, sequences := EmitMatches(source, dest, table, t, hash, anchor0, ip, ref, at, token, op, sequences0);
    UntouchedSince(dest[..], mid, was, op, before, op + 6);
  }

  /** One turn of the main loop: a search behind the anchor, and what it finds. */
  method EmitNext(source: seq<byte>, dest: array<byte>, table: array<nat>, t: TableType, hash: nat -> nat,
                  anchor0: nat, token: nat, ghost sequences0: seq<Sequence>)
    returns (found: bool, anchor: nat, op: nat, ghost sequences: seq<Sequence>)
    requires Suits(t, |source|) && CompressBound(|source|) <= dest.Length && token <= dest.Length
    requires Written(source, sequences0, anchor0, dest[..token]) && anchor0 + MFLIMIT <= |source|
    requires IntoTable(hash, table.Length) && TableSound(source, hash, table[..], anchor0 + 1)
    requires Get(source, hash, table[..], anchor0) == anchor0 && (|sequences0| > 0 ==> !TwoBack(source, anchor0))
    modifies dest, table
    ensures !found ==> anchor == anchor0 && op == token && sequences == sequences0 && dest[..] == old(dest[..])
    ensures !found ==> LastUnmatched(source, |sequences0| == 0, anchor0)
    ensures found ==> anchor0 + 1 < anchor && anchor + LASTLITERALS <= |source| && token < op <= dest.Length
    ensures found ==> |sequences| > |sequences0| && sequences[..|sequences0|] == sequences0
    ensures found ==> |source| > MIN_LENGTH && Written(source, sequences, anchor, dest[..op])
    ensures found ==> Untouched(dest[..], old(dest[..]), op + 6)
    ensures found && anchor + MFLIMIT <= |source| ==>
              && TableSound(source, hash, table[..], anchor + 1) && !TwoBack(source, anchor)
              && Get(source, hash, table[..], anchor) == anchor
    ensures anchor0 == 0 && sequences0 == [] && (forall h :: 0 <= h < table.Length ==> old(table[h]) == 0) ==>
              forall d: nat :: FirstRepeat(source, hash, d) ==> found && Begins([], source[0..d], d, sequences)
  {
    hide Load, Agree, EncodeAll, Covers, EncodeLast, Untouched, TableSound, Unmatched, TwoBack, Get, FirstRepeat, Hit,
         Entry, Puts, IntoTable, LastUnmatched;
    ghost var entries := table[..];
    anchor, op, sequences := anchor0, token, sequences0;
    ghost var initial := anchor0 == 0 && sequences0 == [] && forall h :: 0 <= h < |entries| ==> entries[h] == 0;
    var at, ref; ghost var k;
    found, at, ref, k := FindMatch(source, table, t, hash, anchor0 + 1);
    SearchLeaves(source, hash, entries, anchor0, anchor0 + 1, |sequences0| == 0, found, k);
    FirstSearch(source, hash, entries, initial, found, k);
    if found {
      anchor, op, sequences := EmitFound(source, dest, table, t, hash, anchor0, at, ref, token, sequences0);
    }
  }

  /** The main loop: all sequences up to the anchor of the last literals. */
  method EmitSequences(source: seq<byte>, dest: array<byte>, table: array<nat>, t: TableType, hash: nat -> nat)
    returns (anchor: nat, op: nat, ghost sequences: seq<Sequence>)
    requires IntoTable(hash, table.Length) && (forall h :: 0 <= h < table.Length ==> table[h] == 0)
    requires Suits(t, |source|) && |source| >= MIN_LENGTH && CompressBound(|source|) <= dest.Length
    modifies dest, table
    ensures op <= dest.Length && Written(source, sequences, anchor, dest[..op])
    ensures Untouched(dest[..], old(dest[..]), if |sequences| == 0 then op else op + 6)
    ensures |source| == MIN_LENGTH ==> sequences == []
    ensures LastUnmatched(source, |sequences| == 0, anchor)
    ensures forall d: nat :: FirstRepeat(source, hash, d) ==> Begins([], source[0..d], d, sequences)
  {
    sequences, anchor, op := [], 0, 0;
    assert Written(source, sequences, anchor, dest[..op]);
    hide Load, Agree, EncodeAll, Covers, EncodeLast, Untouched, TableSound, Unmatched, TwoBack, Get, FirstRepeat;
    ghost var was := dest[..];
    UntouchedSelf(was, 0);
    ZeroTable(source, hash, table[..]);
    PutPosition(source, table, t, hash, 0, 1);
    ZeroGet(source, hash, table[..]);
    var ip := 1;
    while ip + MFLIMIT <= |source| + 1
      invariant anchor < ip && op <= dest.Length && Written(source, sequences, anchor, dest[..op])
      invariant Untouched(dest[..], old(dest[..]), if |sequences| == 0 then op else op + 6)
      invariant ip + MFLIMIT <= |source| + 1 ==> TableSound(source, hash, table[..], ip)
      invariant ip == anchor + 1 && (ip + MFLIMIT <= |source| + 1 ==> Get(source, hash, table[..], anchor) == anchor)
      invariant |sequences| > 0 && anchor + 12 <= |source| ==> !TwoBack(source, anchor)
      invariant |sequences| == 0 ==> anchor == 0 && forall h :: 0 <= h < table.Length ==> table[h] == 0
      invariant |sequences| > 0 ==> |source| > MIN_LENGTH
      invariant forall d: nat :: |sequences| > 0 && FirstRepeat(source, hash, d) ==>
                  Begins([], source[0..d], d, sequences)
      decreases |source| - ip
    {
      ghost var mid, token, some := dest[..], op, |sequences| > 0;
      var found;
      found, anchor, op, sequences := EmitNext(source, dest, table, t, hash, anchor, op, sequences);
      if !found {
        return;
      }
      UntouchedSince(dest[..], mid, was, op + 6, if some then token + 6 else token, op + 6);
      ip := anchor + 1;
    }
  }

  // ----- what the search cannot miss

  /** A place that repeats the byte before it four times is a match with the place before, which was stored last. */
  lemma RepeatHits(source: seq<byte>, hash: nat -> nat, table: seq<nat>, anchor: nat, j: nat)
    requires j <= 64 && IntoTable(hash, |table|) && Get(source, hash, table, anchor) == anchor
    requires FiveEqual(source, anchor + 1 + j)
    ensures Hit(source, hash, table, anchor + 1, j)
  {
    var p := anchor + 1 + j;
    assert source[p..p + 4] == source[p - 1..p + 3];
    assert Agree(source, p, p - 1, 4);
    LoadsAgree(source, p, p - 1, 4);
    hide Load, Agree, FiveEqual;
    assert Probe(anchor + 1, j) == p;
    if j > 0 {
      assert Probe(anchor + 1, j - 1) == p - 1;
      hide Probe;
    }
  }

  /** The literals that a search leaves in front of what it finds, or for good. */
  lemma SearchLeaves(source: seq<byte>, hash: nat -> nat, table: seq<nat>, anchor: nat, start: nat, first: bool,
                     found: bool, k: nat)
    requires IntoTable(hash, |table|) && Get(source, hash, table, anchor) == anchor && start == anchor + 1
    requires forall j :: 0 <= j < k ==> !Hit(source, hash, table, start, j)
    requires !found ==> Probe(start, k + 1) > |source| - 12
    requires !first && anchor + 12 <= |source| ==> !TwoBack(source, anchor)
    requires found ==> anchor + 12 <= |source|
    ensures found ==> Unmatched(source, first, anchor, Probe(start, k))
    ensures !found ==> LastUnmatched(source, first, anchor)
  {
    hide Hit, TwoBack, FiveEqual, Get, IntoTable;
    var to := if found then Probe(start, k) else |source| - 12;
    forall p | anchor < p <= anchor + 65 && p < to ensures !FiveEqual(source, p) {
      var j := p - anchor - 1;
      assert j < k;
      if FiveEqual(source, p) {
        RepeatHits(source, hash, table, anchor, j);
      }
    }
  }

  /** The first four bytes come again at `d`, the words in between are all different and none of them has
      the hash of the first. */
  predicate FirstRepeat(source: seq<byte>, hash: nat -> nat, d: nat) {
    && 1 <= d <= 65 && d + 13 <= |source| && Agree(source, d, 0, 4)
    && (forall i, j :: 0 <= i < j < d ==> !Agree(source, j, i, 4))
    && (forall i :: 0 < i < d ==> hash(Load(source, i, 4)) != hash(Load(source, 0, 4)))
  }

  lemma {:induction false} EarlyEntries(source: seq<byte>, hash: nat -> nat, table: seq<nat>, k: nat, h: nat)
    requires k <= 65 && h < |table| && forall i :: 0 <= i < |table| ==> table[i] == 0
    ensures Puts(source, hash, table, 1, k)[h] <= k
  {
    hide Load;
    if k > 0 {
      EarlyEntries(source, hash, table, k - 1, h);
    }
  }

  lemma {:induction false} FirstKept(source: seq<byte>, hash: nat -> nat, table: seq<nat>, d: nat, k: nat)
    requires FirstRepeat(source, hash, d) && k < d && IntoTable(hash, |table|)
    requires forall i :: 0 <= i < |table| ==> table[i] == 0
    ensures Puts(source, hash, table, 1, k)[hash(Load(source, 0, 4))] == 0
  {
    if k > 0 {
      FirstKept(source, hash, table, d, k - 1);
      assert Probe(1, k - 1) == k;
      hide Load, Agree;
    }
  }

  lemma EarlyMiss(source: seq<byte>, hash: nat -> nat, table: seq<nat>, d: nat, j: nat)
    requires FirstRepeat(source, hash, d) && j + 1 < d && IntoTable(hash, |table|)
    requires forall i :: 0 <= i < |table| ==> table[i] == 0
    ensures !Hit(source, hash, table, 1, j)
  {
    hide Load, Agree, Puts;
    var h := hash(Load(source, j + 1, 4));
    EarlyEntries(source, hash, table, j, h);
    assert Probe(1, j) == j + 1;
  }

  lemma RepeatFound(source: seq<byte>, hash: nat -> nat, table: seq<nat>, d: nat)
    requires FirstRepeat(source, hash, d) && IntoTable(hash, |table|)
    requires forall i :: 0 <= i < |table| ==> table[i] == 0
    ensures Hit(source, hash, table, 1, d - 1) && Entry(source, hash, table, 1, d - 1) == 0
  {
    LoadsAgree(source, d, 0, 4);
    hide Load, Agree, Puts;
    FirstKept(source, hash, table, d, d - 1);
    assert Probe(1, d - 1) == d;
  }

  /** The first search ends at the first repetition of the first four bytes. */
  lemma FirstSearch(source: seq<byte>, hash: nat -> nat, table: seq<nat>, initial: bool, found: bool, k: nat)
    requires IntoTable(hash, |table|) && (initial ==> forall i :: 0 <= i < |table| ==> table[i] == 0)
    requires initial ==> forall j :: 0 <= j < k ==> !Hit(source, hash, table, 1, j)
    requires initial && found ==> Hit(source, hash, table, 1, k)
    requires initial && !found ==> Probe(1, k + 1) > |source| - 12
    ensures forall d: nat :: initial && FirstRepeat(source, hash, d) ==>
              found && Probe(1, k) == d && Entry(source, hash, table, 1, k) == 0
  {
    hide Hit, Entry, IntoTable;
    forall d: nat | initial && FirstRepeat(source, hash, d)
      ensures found && Probe(1, k) == d && Entry(source, hash, table, 1, k) == 0
    {
      RepeatFound(source, hash, table, d);
      var bound := d + 13 <= |source| && d <= 65;
      hide FirstRepeat;
      if k + 1 < d {
        EarlyMiss(source, hash, table, d, k);
      }
    }
  }

  lemma ZeroGet(source: seq<byte>, hash: nat -> nat, table: seq<nat>)
    requires forall h :: 0 <= h < |table| ==> table[h] == 0
    ensures forall p :: Get(source, hash, table, p) == 0
  {
  }

  lemma ZeroTable(source: seq<byte>, hash: nat -> nat, table: seq<nat>)
    requires forall h :: 0 <= h < |table| ==> table[h] == 0
    ensures TableSound(source, hash, table, 1)
  {
  }

  lemma RunRoom(source: seq<byte>, sequences: seq<Sequence>, anchor: nat, ip: nat, size: nat)
    requires Covers(source, sequences, anchor) && |source| <= MAX_INPUT_SIZE && CompressBound(|source|) <= size
    requires anchor <= ip && ip + MFLIMIT <= |source|
    ensures |EncodeAll(sequences)| + |EncodeLast(source[anchor..ip])| + STEPSIZE <= size
  {
    Room(source, sequences, anchor, size);
  }

  // ----- periodic inputs

  predicate Period(source: seq<byte>, d: nat) {
    forall i :: d <= i < |source| ==> source[i] == source[i - d]
  }

  lemma {:induction false} ConditionsPrefix(source: seq<byte>, sequences: seq<Sequence>, n: nat, k: nat)
    requires k <= |sequences| && Maximal(source, sequences) && MatchesEndBefore(sequences, n)
    ensures Maximal(source, sequences[..k]) && MatchesEndBefore(sequences[..k], n)
  {
    if k == |sequences| {
      assert sequences[..k] == sequences;
    } else {
      var init := sequences[..|sequences| - 1];
      assert init[..k] == sequences[..k];
      ConditionsPrefix(source, init, n, k);
    }
  }

  /** The first match of a periodic input, if it is one period long back, can only end where the last literals
      begin, and no other match fits behind it. */
  lemma PeriodBlock(source: seq<byte>, d: nat, block: Block)
    requires 1 <= d && Period(source, d) && d + MIN_LENGTH <= |source|
    requires StandsFor(block, source) && Maximal(source, block.sequences)
    requires Begins([], source[0..d], d, block.sequences)
    ensures block == Block([Sequence(source[..d], d, |source| - LASTLITERALS - d)], source[|source| - LASTLITERALS..])
  {
    hide Period, Maximal, MatchesEndBefore, StandsFor, OutputLength;
    var s, n := block.sequences[0], |source|;
    BlockParts(block, source);
    ConditionsPrefix(source, block.sequences, n, 1);
    assert block.sequences[..1] == [s] && source[0..d] == source[..d];
    FirstLength(source, d, s);
    OnlyOne(source, block.sequences, s);
    assert block.sequences == [s];
  }

  lemma BlockParts(block: Block, source: seq<byte>)
    requires StandsFor(block, source)
    ensures var n := OutputLength(block.sequences);
            n <= |source| && block.last == source[n..] && MatchesEndBefore(block.sequences, |source|)
  {
    hide Execute, OutputLength, MatchesEndBefore;
    var out := Execute(block.sequences).value;
    assert out + block.last == source;
  }

  lemma FirstLength(source: seq<byte>, d: nat, s: Sequence)
    requires 1 <= d && Period(source, d) && d + MIN_LENGTH <= |source| && s.literals == source[..d] && s.offset == d
    requires Maximal(source, [s]) && MatchesEndBefore([s], |source|)
    ensures s.matchLength == |source| - LASTLITERALS - d && OutputLength([s]) == |source| - LASTLITERALS
  {
    assert [s][..0] == [];
    assert OutputLength([s]) == d + s.matchLength;
  }

  lemma {:induction false} CoversFirst(sequences: seq<Sequence>, s: Sequence)
    requires |sequences| > 0 && sequences[0] == s
    ensures OutputLength([s]) <= OutputLength(sequences)
  {
    if |sequences| == 1 {
      assert sequences == [s];
    } else {
      CoversFirst(sequences[..|sequences| - 1], s);
    }
  }

  lemma OnlyOne(source: seq<byte>, sequences: seq<Sequence>, s: Sequence)
    requires |sequences| > 0 && sequences[0] == s && OutputLength([s]) == |source| - LASTLITERALS
    requires MatchesEndBefore(sequences, |source|)
    ensures |sequences| == 1
  {
    if |sequences| > 1 {
      CoversFirst(sequences[..|sequences| - 1], s);
    }
  }

  /** LZ4_hashSequence for the two tables: the top bits of a 32-bit product. */
  function HashSequence(t: TableType, sequence: nat): (h: nat)
    ensures h < if t.ByU16? then 8192 else 4096
  {
    sequence * 2654435761 % 0x1_0000_0000 / if t.ByU16? then 0x8_0000 else 0x10_0000
  }

  function HashOf(t: TableType): nat -> nat {
    (sequence: nat) => HashSequence(t, sequence)
  }

  /** The table LZ4_compress takes for an input of `n` bytes. */
  function TableFor(n: nat): TableType {
    if n < 65547 then ByU16 else ByU32
  }

  /** LZ4_compress. */
  method Compress(source: seq<byte>, dest: array<byte>) returns (r: nat, ghost block: Block)
    requires CompressBound(|source|) <= dest.Length
    modifies dest
    ensures r == 0 <==> |source| > MAX_INPUT_SIZE
    ensures r <= CompressBound(|source|)
    ensures r > 0 ==> StandsFor(block, source) && Thorough(source, block) && dest[..r] == EncodeBlock(block)
    ensures forall d: nat :: r > 0 && FirstRepeat(source, HashOf(TableFor(|source|)), d) ==>
              Begins([], source[0..d], d, block.sequences)
    ensures Untouched(dest[..], old(dest[..]), r)
  {
    var t := if |source| < LIMIT_64K then ByU16 else ByU32;
    var table := new nat[if t.ByU16? then 8192 else 4096](_ => 0);
    var hash := HashOf(t);
    hide StandsFor, HashSequence, Thorough, FirstRepeat;
    r, block := CompressGeneric(source, dest, table, t, hash);
  }
}
