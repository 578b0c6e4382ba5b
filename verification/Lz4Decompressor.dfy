/** LZ4_decompress_safe: full decoding, end on input size, no dictionary, 64-bit steps. */
module Lz4Decompressor {
  import opened Bytes
  import opened Lz4Format
  import opened Lz4Copy

  const DEC32TABLE: seq<int> := [4, 1, 2, 1, 4, 4, 4, 4]
  const DEC64TABLE: seq<int> := [0, 0, 0, -1, 0, 1, 2, 3]

  // ----- what the decoder accepts

  /** The input and output room the decoder demands for a sequence whose token is at `ip` and
      whose output starts at `op`, in an input of `size` bytes and an output of `limit` bytes. */
  predicate Fits(s: Sequence, ip: nat, op: nat, size: nat, limit: nat)
    requires Encodable(s)
  {
    var at := ip + 1 + |LengthTail(|s.literals|)| + |s.literals|;
    var start := op + |s.literals|;
    && start + MFLIMIT <= limit
    && at + 2 + 1 + LASTLITERALS <= size
    && s.offset <= start
    && (s.matchLength - MINMATCH >= ML_MASK ==> at + |MatchBytes(s)| + 4 <= size)
    && start + s.matchLength + LASTLITERALS <= limit
  }

  predicate AllFit(sequences: seq<Sequence>, size: nat, limit: nat)
    requires AllEncodable(sequences)
  {
    |sequences| == 0 ||
    (var before, s := sequences[..|sequences| - 1], sequences[|sequences| - 1];
     AllFit(before, size, limit) && Fits(s, |EncodeAll(before)|, OutputLength(before), size, limit))
  }

  /** A parsed block the decoder accepts; `size` is the length of its bytes. */
  predicate Accepted(b: Block, size: nat, limit: nat)
    requires AllEncodable(b.sequences)
  {
    AllFit(b.sequences, size, limit) && OutputLength(b.sequences) + |b.last| <= limit
  }

  /** The token at `ip` and the first extra byte it may announce are inside the input. */
  predicate TokenInside(src: seq<byte>, ip: nat) {
    ip + 2 <= |src| || (ip + 1 == |src| && src[ip] / 16 != RUN_MASK)
  }

  /** The bytes the first token makes the decoder read are inside the input. */
  predicate FirstReadsInside(src: seq<byte>, limit: nat) {
    limit == 0 || TokenInside(src, 0)
  }

  /** Memory from the first byte of an input of `size` bytes on, as far as the decoder may look. */
  predicate Memory(mem: seq<byte>, size: nat, limit: nat) {
    size <= |mem| && (FirstReadsInside(mem[..size], limit) || 2 <= |mem|)
  }

  // ----- where a refused input is refused

  /** The loop over the extra bytes of a literal length that start at `ip` ends at `at`: behind the first
      byte below 255, or where at most fifteen bytes of input are left. */
  predicate RunRead(mem: seq<byte>, size: nat, ip: nat, nibble: nat, at: nat) {
    if nibble != 15 then at == ip
    else
      && ip < at <= |mem| && (mem[at - 1] != 255 || at >= size - 15) && (ip + 1 < at ==> at - 1 < size - 15)
      && forall k :: ip <= k < at - 1 ==> mem[k] == 255
  }

  /** The loop over the extra bytes of a match length ends at `at`, behind the first byte below 255 if `ok`, and
      otherwise where fewer than five bytes are left. */
  predicate MatchRead(src: seq<byte>, ip: nat, nibble: nat, ok: bool, at: nat) {
    if nibble != 15 then ok && at == ip
    else
      && ip <= at <= |src| && (forall k :: ip <= k < (if ok then at - 1 else at) ==> src[k] == 255)
      && (at == ip || at + 4 <= |src|) && if ok then ip < at && src[at - 1] != 255 else at > |src| - 5
  }

  /** The length that a nibble and its extra bytes, all 255 but the last, add up to. */
  function LengthRead(mem: seq<byte>, ip: nat, nibble: nat, at: nat): int
    requires nibble == 15 ==> ip < at <= |mem|
  {
    if nibble != 15 then nibble else 15 + 255 * (at - ip - 1) + mem[at - 1]
  }

  /** What is at `ip` is refused at `next`: behind the literal length `at`, behind an offset that reaches too
      far back, in the match length, or behind the match length of a match that ends too late. */
  predicate RefusedAt(mem: seq<byte>, size: nat, ip: nat, op: nat, limit: nat, at: nat, next: nat)
    requires ip < |mem| && size <= |mem|
  {
    RunRead(mem, size, ip + 1, mem[ip] / 16, at) &&
    var run := LengthRead(mem, ip + 1, mem[ip] / 16, at);
    if op + run + 12 > limit || at + run + 8 > size then next == at && (at + run != size || op + run > limit)
    else
      var offset := LeValue(mem[at + run..at + run + 2]);
      if offset > op + run then next == at + run + 2
      else
        var ok := MatchRead(mem[..size], at + run + 2, mem[ip] % 16, true, next);
        && (ok || MatchRead(mem[..size], at + run + 2, mem[ip] % 16, false, next))
        && (ok ==> op + run + LengthRead(mem, at + run + 2, mem[ip] % 16, next) + 4 + 5 > limit)
  }

  // ----- reading lengths

  lemma {:induction false} ParseExtraSize(src: seq<byte>, ip: nat, length: nat)
    ensures match ParseExtra(src, ip, length)
            case None => true
            case Some((n, at)) => n >= length && at == ip + |ExtraBytes(n - length)|
    decreases |src| - ip
  {
    if ip < |src| && src[ip] == 255 {
      ParseExtraSize(src, ip + 1, length + 255);
    }
  }

  lemma ParseLengthSize(src: seq<byte>, ip: nat, nibble: nat)
    requires ip <= |src| && nibble < 16
    ensures match ParseLength(src, ip, nibble)
            case None => true
            case Some((n, at)) => nibble == Nibble(n) && at == ip + |LengthTail(n)|
  {
    if nibble == 15 {
      ParseExtraSize(src, ip, 15);
    }
  }

  lemma {:induction false} ExtraSkips(src: seq<byte>, ip: nat, at: nat, n: nat)
    requires ip <= at <= |src| && forall k :: ip <= k < at ==> src[k] == 255
    ensures ParseExtra(src, ip, n) == ParseExtra(src, at, n + 255 * (at - ip))
    decreases at - ip
  {
    if ip < at {
      ExtraSkips(src, ip + 1, at, n + 255);
    }
  }

  /** What the loop reads is the length of the format, unless it stops early; then the run cannot fit. */
  lemma RunParsed(mem: seq<byte>, size: nat, ip: nat, nibble: nat, at: nat)
    requires size <= |mem| && nibble < 16 && RunRead(mem, size, ip, nibble, at) && at <= size
    requires ip < size || (nibble != RUN_MASK && ip == size)
    ensures var length := LengthRead(mem, ip, nibble, at);
            if at + length <= size then ParseLength(mem[..size], ip, nibble) == Some((length, at))
            else match ParseLength(mem[..size], ip, nibble)
                 case None => true
                 case Some((n, p)) => p + n > size
  {
    if nibble == 15 {
      var src, n := mem[..size], 15 + 255 * (at - 1 - ip);
      ExtraSkips(src, ip, at - 1, 15);
      assert ParseExtra(src, at - 1, n)
          == if src[at - 1] < 255 then Some((n + src[at - 1], at)) else ParseExtra(src, at, n + 255);
    }
  }

  /** The literal run length. Near the end of the input the loop stops early, but then the run
      cannot fit in the input, which is what the caller tests next. The first extra byte is read
      without a look at the size; what is read ends at `at`. */
  method ReadRunLength(mem: seq<byte>, size: nat, ip: nat, nibble: nat) returns (length: nat, at: nat)
    requires size <= |mem| && nibble < 16 && (nibble == RUN_MASK ==> ip < |mem|)
    ensures ip <= at && length >= nibble
    ensures nibble != RUN_MASK ==> at == ip
    ensures nibble == RUN_MASK && ip >= size ==> at == ip + 1
    ensures nibble == RUN_MASK && ip < size ==> at <= size
    ensures RunRead(mem, size, ip, nibble, at) && length == LengthRead(mem, ip, nibble, at)
    ensures ip < size || (nibble != RUN_MASK && ip == size) ==>
              if at + length <= size then ParseLength(mem[..size], ip, nibble) == Some((length, at))
              else match ParseLength(mem[..size], ip, nibble)
                   case None => true
                   case Some((n, p)) => p + n > size
  {
    length, at := nibble, ip;
    if nibble == RUN_MASK {
      var more := true;
      while more
        invariant ip <= at <= |mem| && length >= 15 && (at == ip ==> more) && (more ==> at < |mem|)
        invariant (forall k :: ip <= k < at - 1 ==> mem[k] == 255) && (ip + 1 < at ==> at - 1 < size - 15)
        invariant more && at > ip ==> mem[at - 1] == 255 && at < size - 15
        invariant more ==> length == 15 + 255 * (at - ip)
        invariant !more ==> at > ip && length == LengthRead(mem, ip, 15, at) && (mem[at - 1] != 255 || at >= size - 15)
        invariant ip < size ==> at <= size && (more ==> at < size)
        invariant ip >= size && at > ip ==> !more && at == ip + 1
        decreases |mem| - at, more
      {
        var s := mem[at];
        at := at + 1;
        length := length + s;
        more := at < size - RUN_MASK && s == 255;
      }
    }
    if ip < size || (nibble != RUN_MASK && ip == size) {
      RunParsed(mem, size, ip, nibble, at);
    }
  }

  /** The match length, with the check that five bytes are left before each extra byte. */
  method ReadMatchLength(src: seq<byte>, ip: nat, nibble: nat) returns (ok: bool, length: nat, at: nat)
    requires ip <= |src| && nibble < 16
    ensures ip <= at <= |src|
    ensures ok ==> ParseLength(src, ip, nibble) == Some((length, at))
    ensures ok && nibble == ML_MASK ==> at + 4 <= |src|
    ensures MatchRead(src, ip, nibble, ok, at) && (ok ==> length == LengthRead(src, ip, nibble, at))
    ensures !ok ==> nibble == ML_MASK && match ParseLength(src, ip, nibble)
                                         case None => true
                                         case Some((_, p)) => p + 4 > |src|
  {
    length, at, ok := nibble, ip, true;
    if nibble == ML_MASK {
      var more := true;
      while more
        invariant ip <= at <= |src| && ok
        invariant at == ip || at + 4 <= |src|
        invariant forall k :: ip <= k < (if more then at else at - 1) ==> src[k] == 255
        invariant more ==> length == 15 + 255 * (at - ip)
        invariant !more ==> at > ip && src[at - 1] != 255 && length == LengthRead(src, ip, 15, at)
        invariant more ==> ParseExtra(src, at, length) == ParseExtra(src, ip, 15)
        invariant !more ==> ParseExtra(src, ip, 15) == Some((length, at)) && at + 4 <= |src|
        decreases |src| - at, more
      {
        if at > |src| - LASTLITERALS {
          return false, length, at;
        }
        var s := src[at];
        at := at + 1;
        length := length + s;
        more := s == 255;
      }
    }
  }

  // ----- the match copy

  lemma MultipleStep(D: nat, d: nat)
    requires d >= 1 && Multiple(D, d)
    ensures Multiple(D + d, d)
  {
  }

  /** After the table adjustments of a short offset both copy distances are multiples of the
      offset, and the second is at least the eight bytes a step moves. */
  lemma WidenedDistance(d: nat)
    requires 1 <= d < STEPSIZE
    ensures Multiple(d + 4 - DEC32TABLE[d], d) && d + 4 - DEC32TABLE[d] >= 4
    ensures Multiple(d + 8 - DEC32TABLE[d] + DEC64TABLE[d], d)
    ensures d + 8 - DEC32TABLE[d] + DEC64TABLE[d] >= STEPSIZE
  {
    MultipleStep(d, d);
    MultipleStep(2 * d, d);
    MultipleStep(3 * d, d);
    if d == 1 {
      MultipleStep(4, 1);
      MultipleStep(5, 1);
      MultipleStep(6, 1);
      MultipleStep(7, 1);
    }
  }

  /** Four single bytes. */
  method CopyFour(a: array<byte>, op: nat, ref: nat)
    requires ref <= op && op + 4 <= a.Length
    modifies a
    ensures a[..op] == old(a[..op])
    ensures Periodic(a[..], op, op + 4, op - ref)
  {
    if ref < op {
      CopyBytes(a, op, ref, op + 4);
    } else {
      assert Periodic(a[..], op, op + 4, 0);
    }
  }

  /** The first eight bytes of a match, and the place the rest is copied from. */
  method CopyFirstEight(a: array<byte>, op: nat, offset: nat) returns (ref: nat)
    requires offset <= op && op + STEPSIZE <= a.Length
    modifies a
    ensures a[..op] == old(a[..op])
    ensures op - offset <= ref < op + STEPSIZE
    ensures offset >= 1 ==> ref <= op && Multiple(op + STEPSIZE - ref, offset)
    ensures offset >= 1 ==> Periodic(a[..], op, op + STEPSIZE, offset)
  {
    ref := op - offset;
    if offset < STEPSIZE {
      var dec64 := DEC64TABLE[offset];
      CopyFour(a, op, ref);
      ghost var s := a[..];
      ref := ref + DEC32TABLE[offset];
      CopyWord(a, op + 4, ref, 4);
      assert a[..op] == a[..op + 4][..op];
      if offset >= 1 {
        WidenedDistance(offset);
        assert s[..op + 4] == a[..][..op + 4];
        PeriodicPrefix(s, a[..], op, op + 4, offset);
        WidenedCopy(a[..], op, op + 4, op + 8, offset, op + 4 - ref);
      }
      ref := ref - dec64;
    } else {
      CopyWord(a, op, ref, STEPSIZE);
      ref := ref + STEPSIZE;
    }
  }

  /** The rest of a match up to `cpy`, in eight-byte steps where there is room for them and in
      single bytes near the end of the output. */
  method CopyRest(a: array<byte>, begin: nat, start: nat, cpy: nat)
    requires start < begin <= cpy + 4 && begin + 4 <= a.Length
    requires cpy + LASTLITERALS <= a.Length
    modifies a
    ensures a[..begin] == old(a[..begin])
    ensures start + STEPSIZE <= begin ==> Periodic(a[..], begin, cpy, begin - start)
  {
    var oend := a.Length;
    if cpy > oend - COPYLENGTH - (STEPSIZE - 4) {
      var op, ref := begin, start;
      if op < oend - COPYLENGTH {
        op, ref := WildCopy(a, op, ref, oend - COPYLENGTH);
      }
      if op < cpy {
        ghost var s := a[..];
        CopyBytes(a, op, ref, cpy);
        assert a[..begin] == a[..op][..begin];
        assert s[..op] == a[..][..op];
        if start + STEPSIZE <= begin {
          PeriodicPrefix(s, a[..], begin, op, begin - start);
          PeriodicAppend(a[..], begin, op, cpy, begin - start);
        }
      }
    } else {
      var op, ref := WildCopy(a, begin, start, cpy);
    }
  }

  /** A match of `length + MINMATCH` bytes at `begin`. The wide, overshooting copies leave exactly
      the bytes of the one-byte-at-a-time copy. */
  method CopyMatchFast(a: array<byte>, begin: nat, offset: nat, length: nat) returns (ok: bool)
    requires offset <= begin && begin + MFLIMIT <= a.Length
    modifies a
    ensures ok <==> begin + length + MINMATCH + LASTLITERALS <= a.Length
    ensures a[..begin] == old(a[..begin])
    ensures ok && offset >= 1 ==>
              a[..begin + length + MINMATCH] == CopyMatch(old(a[..begin]), offset, length + MINMATCH)
  {
    ghost var out := a[..begin];
    var ref := CopyFirstEight(a, begin, offset);
    var op := begin + STEPSIZE;
    var cpy := op + length - (STEPSIZE - 4);
    if cpy > a.Length - LASTLITERALS {
      return false;
    }
    ghost var s := a[..];
    CopyRest(a, op, ref, cpy);
    ok := true;
    assert a[..begin] == a[..op][..begin] && s[..begin] == s[..op][..begin] && s[..op] == a[..][..op];
    if offset >= 1 {
      PeriodicPrefix(s, a[..], begin, op, offset);
      if op < cpy {
        WidenedCopy(a[..], begin, op, cpy, offset, op - ref);
      }
      PeriodicIsCopy(a[..], out, begin, cpy, offset);
      assert a[..cpy] == a[..][..cpy];
    }
  }

  lemma PeriodicIsCopy(s: seq<byte>, out: seq<byte>, begin: nat, cpy: nat, offset: nat)
    requires 1 <= offset <= begin <= cpy <= |s| && s[..begin] == out
    requires Periodic(s, begin, cpy, offset)
    ensures s[..cpy] == CopyMatch(out, offset, cpy - begin)
  {
    var r := s[..cpy];
    assert r[..begin] == out;
    forall k | |out| <= k < |r| ensures r[k] == r[k - offset] {
      assert RepeatsAt(s, k, offset);
    }
    CopyMatchUnique(out, offset, cpy - begin, r);
  }

  // ----- one sequence

  datatype Status = Finished | Continue | Failed

  /** The literals of the sequence at `ip`. Finished means they were the last of the block. The
      ghost result is the end of what was read. */
  method DecodeLiterals(mem: seq<byte>, size: nat, ip: nat, dest: array<byte>, op: nat)
    returns (status: Status, run: nat, at: nat, ghost mark: nat)
    requires ip <= size <= |mem| && op <= dest.Length && (TokenInside(mem[..size], ip) || ip + 2 <= |mem|)
    modifies dest
    ensures ip < at <= mark && (mark <= size <==> TokenInside(mem[..size], ip))
    ensures RunRead(mem, size, ip + 1, mem[ip] / 16, at) && run == LengthRead(mem, ip + 1, mem[ip] / 16, at)
    ensures status.Failed? ==> (op + run + 12 > dest.Length || at + run + 8 > size)
    ensures status.Failed? ==> at + run != size || op + run > dest.Length
    ensures mark > size ==> status.Failed? && at == mark == ip + if mem[ip] / 16 == RUN_MASK then 2 else 1
    ensures !status.Failed? ==>
              && ip < size && ParseLength(mem[..size], ip + 1, mem[ip] / 16) == Some((run, at)) && at + run <= size
              && op + run <= dest.Length
              && dest[..op + run] == old(dest[..op]) + mem[at..at + run]
    ensures status.Finished? ==> at + run == size
    ensures status.Continue? ==>
              op + run + MFLIMIT <= dest.Length && at + run + 2 + 1 + LASTLITERALS <= size
    ensures status.Failed? ==> !Acceptable(mem[..size], ip, op, dest.Length)
  {
    hide ParseLength, RunRead, LengthRead, Acceptable;
    var token := mem[ip];
    run, at := ReadRunLength(mem, size, ip + 1, token / 16);
    mark := at;
    var cpy := op + run;
    if cpy > dest.Length - MFLIMIT || at + run > size - (2 + 1 + LASTLITERALS) {
      if at + run != size || cpy > dest.Length {
        RunRefused(mem, size, ip, op, dest.Length, run, at);
        return Failed, run, at, mark;
      }
      assert mem[..size][at..at + run] == mem[at..at + run];
      Memcpy(mem[..size], at, dest, op, run);
      return Finished, run, at, at + run;
    }
    assert mem[..size][at..at + run] == mem[at..at + run];
    mark := WildCopyFrom(mem[..size], at, dest, op, cpy);
    status := Continue;
  }

  /** What is parsed at `ip` fits, and is either a sequence or the last literals. */
  predicate Acceptable(src: seq<byte>, ip: nat, op: nat, limit: nat) {
    match ParseStep(src, ip)
    case None => false
    case Some(Done(last)) => op + |last| <= limit
    case Some(Next(s, _)) => Fits(s, ip, op, |src|, limit)
  }

  /** The part of `Fits` that is about the match. */
  predicate MatchFits(step: Option<Step>, start: nat, size: nat, limit: nat) {
    match step
    case Some(Next(s, next)) =>
      && s.offset <= start && start + s.matchLength + LASTLITERALS <= limit
      && (s.matchLength - MINMATCH >= ML_MASK ==> next + 4 <= size)
    case _ => false
  }

  lemma RunRefused(mem: seq<byte>, size: nat, ip: nat, op: nat, limit: nat, run: nat, at: nat)
    requires ip <= size <= |mem| && ip < |mem| && (at + run != size || op + run > limit)
    requires op + run > limit - MFLIMIT || at + run > size - (2 + 1 + LASTLITERALS)
    requires TokenInside(mem[..size], ip) ==>
               if at + run <= size then ParseLength(mem[..size], ip + 1, mem[ip] / 16) == Some((run, at))
               else match ParseLength(mem[..size], ip + 1, mem[ip] / 16)
                    case None => true
                    case Some((n, p)) => p + n > size
    ensures !Acceptable(mem[..size], ip, op, limit)
  {
    if TokenInside(mem[..size], ip) {
      ParseLengthSize(mem[..size], ip + 1, mem[ip] / 16);
    }
  }

  lemma AcceptableMatch(src: seq<byte>, ip: nat, op: nat, limit: nat, run: nat, at: nat)
    requires ip < |src| && ParseLength(src, ip + 1, src[ip] / 16) == Some((run, at))
    requires at + run + 2 + 1 + LASTLITERALS <= |src| && op + run + MFLIMIT <= limit
    ensures ParseStep(src, ip) == ParseMatch(src, at + run, src[at..at + run], src[ip] % 16)
    ensures Acceptable(src, ip, op, limit)
        <==> MatchFits(ParseMatch(src, at + run, src[at..at + run], src[ip] % 16), op + run, |src|, limit)
  {
    hide ParseLength, LeValue, LengthTail, Nibble;
    ParseLengthSize(src, ip + 1, src[ip] / 16);
    ParseLengthSize(src, at + run + 2, src[ip] % 16);
  }

  lemma AcceptableLast(src: seq<byte>, ip: nat, op: nat, limit: nat, run: nat, at: nat)
    requires ip < |src| && ParseLength(src, ip + 1, src[ip] / 16) == Some((run, at))
    requires at + run == |src|
    ensures ParseStep(src, ip) == Some(Done(src[at..]))
    ensures Acceptable(src, ip, op, limit) <==> op + run <= limit
  {
  }

  /** The part of `RefusedAt` that is about the match. */
  predicate MatchRefusedAt(src: seq<byte>, at: nat, nibble: nat, op: nat, limit: nat, next: nat)
    requires at + 2 <= |src|
  {
    if LeValue(src[at..at + 2]) > op then next == at + 2
    else
      var ok := MatchRead(src, at + 2, nibble, true, next);
      && (ok || MatchRead(src, at + 2, nibble, false, next))
      && (ok ==> op + LengthRead(src, at + 2, nibble, next) + 4 + 5 > limit)
  }

  lemma RefusedMatch(mem: seq<byte>, size: nat, ip: nat, op: nat, limit: nat, run: nat, at: nat, next: nat)
    requires ip < |mem| && size <= |mem| && RunRead(mem, size, ip + 1, mem[ip] / 16, at)
    requires run == LengthRead(mem, ip + 1, mem[ip] / 16, at) && op + run + 12 <= limit && at + run + 8 <= size
    requires MatchRefusedAt(mem[..size], at + run, mem[ip] % 16, op + run, limit, next)
    ensures RefusedAt(mem, size, ip, op, limit, at, next)
  {
    hide RunRead, LeValue;
    assert mem[..size][at + run..at + run + 2] == mem[at + run..at + run + 2];
  }

  /** The match that follows the literals at `at`, when `op` is where it starts. */
  method DecodeMatch(src: seq<byte>, at: nat, nibble: nat, dest: array<byte>, op: nat, ghost literals: seq<byte>)
    returns (ok: bool, next: nat, offset: nat, matchLength: nat)
    requires at + 2 + 1 + LASTLITERALS <= |src| && nibble < 16
    requires op + MFLIMIT <= dest.Length
    modifies dest
    ensures at <= next <= |src|
    ensures !ok ==> MatchRefusedAt(src, at, nibble, op, dest.Length, next)
    ensures dest[..op] == old(dest[..op])
    ensures ok ==>
              && ParseMatch(src, at, literals, nibble) == Some(Next(Sequence(literals, offset, matchLength), next))
              && MatchFits(ParseMatch(src, at, literals, nibble), op, |src|, dest.Length) && next + 4 <= |src|
    ensures ok && offset >= 1 ==>
              dest[..op + matchLength] == CopyMatch(old(dest[..op]), offset, matchLength)
    ensures !ok ==> !MatchFits(ParseMatch(src, at, literals, nibble), op, |src|, dest.Length)
  {
    hide LeValue, ParseLength, CopyMatch, LengthTail;
    offset, next, matchLength := LeValue(src[at..at + 2]), at + 2, 0;
    if offset > op {
      return false, next, offset, matchLength;
    }
    var length;
    ok, length, next := ReadMatchLength(src, next, nibble);
    ParseLengthSize(src, at + 2, nibble);
    if !ok {
      return;
    }
    matchLength := length + MINMATCH;
    ok := CopyMatchFast(dest, op, offset, length);
  }

  /** One turn of the main loop. */
  method DecodeOne(mem: seq<byte>, size: nat, ip: nat, dest: array<byte>, op: nat)
    returns (status: Status, next: nat, end: nat, ghost step: Step, ghost mark: nat)
    requires ip <= size <= |mem| && op <= dest.Length && (TokenInside(mem[..size], ip) || ip + 2 <= |mem|)
    modifies dest
    ensures ip < next <= mark && (mark <= size <==> TokenInside(mem[..size], ip)) && end <= dest.Length
    ensures status.Failed? ==> exists at :: RefusedAt(mem, size, ip, op, dest.Length, at, next)
    ensures mark > size ==> status.Failed? && next == mark == ip + if mem[ip] / 16 == RUN_MASK then 2 else 1
    ensures status.Failed? <==> !Acceptable(mem[..size], ip, op, dest.Length)
    ensures !status.Failed? ==> ParseStep(mem[..size], ip) == Some(step)
    ensures status.Finished? ==> step.Done? && end == op + |step.last|
    ensures status.Finished? ==> dest[..end] == old(dest[..op]) + step.last
    ensures status.Continue? ==>
              && step.Next? && step.ip == next && ip < next && next + 4 <= size
              && end == op + |step.s.literals| + step.s.matchLength
    ensures status.Continue? && step.s.offset >= 1 ==>
              dest[..end] == CopyMatch(old(dest[..op]) + step.s.literals, step.s.offset, step.s.matchLength)
  {
    hide Acceptable, ParseStep, ParseMatch, ParseLength, LeValue, CopyMatch, TokenInside, RunRead, MatchRefusedAt,
         LengthRead;
    var src := mem[..size];
    var run, at;
    end := op;
    status, run, at, mark := DecodeLiterals(mem, size, ip, dest, op);
    next := at;
    step := Done([]);
    if status.Failed? {
      assert RefusedAt(mem, size, ip, op, dest.Length, at, at);
      return;
    }
    assert src[at..at + run] == mem[at..at + run];
    if status.Finished? {
      AcceptableLast(src, ip, op, dest.Length, run, at);
      step := Done(src[at..]);
      end := op + run;
      return;
    }
    ghost var literals := src[at..at + run];
    AcceptableMatch(src, ip, op, dest.Length, run, at);
    var ok, offset, matchLength;
    ok, next, offset, matchLength := DecodeMatch(src, at + run, src[ip] % 16, dest, op + run, literals);
    mark := Max(mark, next);
    step := Next(Sequence(literals, offset, matchLength), next);
    if ok {
      status, end := Continue, op + run + matchLength;
    } else {
      status := Failed;
      RefusedMatch(mem, size, ip, op, dest.Length, run, at, next);
    }
  }

  // ----- the whole block

  lemma {:induction false} AllFitPrefix(sequences: seq<Sequence>, k: nat, size: nat, limit: nat)
    requires AllEncodable(sequences) && k <= |sequences| && AllFit(sequences, size, limit)
    ensures AllFit(sequences[..k], size, limit)
  {
    if k == |sequences| {
      assert sequences[..k] == sequences;
    } else {
      assert sequences[..|sequences| - 1][..k] == sequences[..k];
      AllFitPrefix(sequences[..|sequences| - 1], k, size, limit);
    }
  }

  /** The bytes a parsed sequence took are the bytes of its encoding. */
  lemma ParseStepSize(src: seq<byte>, ip: nat)
    ensures match ParseStep(src, ip)
            case Some(Next(s, next)) => next == ip + |EncodeSequence(s)|
            case _ => true
  {
    hide LeValue, LeBytes, ParseLength, LengthTail, Nibble;
    if ip < |src| {
      ParseLengthSize(src, ip + 1, src[ip] / 16);
      match ParseLength(src, ip + 1, src[ip] / 16)
      case None =>
      case Some((run, at)) =>
        if at + run + 2 <= |src| {
          ParseLengthSize(src, at + run + 2, src[ip] % 16);
        }
        hide ParseLength, LeValue, LengthTail, Nibble;
    }
  }

  lemma Nothing(size: nat, limit: nat)
    ensures EncodeAll([]) == [] && OutputLength([]) == 0 && Execute([]) == Some([]) && AllFit([], size, limit)
  {
  }

  lemma AllFitSnoc(read: seq<Sequence>, s: Sequence, size: nat, limit: nat)
    requires AllEncodable(read) && Encodable(s)
    ensures AllFit(read + [s], size, limit) <==>
              AllFit(read, size, limit) && Fits(s, |EncodeAll(read)|, OutputLength(read), size, limit)
  {
    assert (read + [s])[..|read|] == read;
  }

  /** An accepted block means what the reference decoder says unless some offset is zero. */
  lemma {:induction false} AcceptedExecutes(sequences: seq<Sequence>, size: nat, limit: nat)
    requires AllEncodable(sequences) && AllFit(sequences, size, limit)
    ensures Execute(sequences).Some? <==> forall i :: 0 <= i < |sequences| ==> sequences[i].offset >= 1
  {
    if |sequences| > 0 {
      var before, s := sequences[..|sequences| - 1], sequences[|sequences| - 1];
      assert sequences == before + [s];
      Snoc(before, s);
      AllFitSnoc(before, s, size, limit);
      AcceptedExecutes(before, size, limit);
      hide Execute, AllFit, EncodeAll, OutputLength, CopyMatch;
      assert forall i :: 0 <= i < |before| ==> sequences[i] == before[i];
    }
  }

  /** The decoder does accept a block with a zero offset, which the format forbids. */
  lemma ZeroOffsetAccepted()
    ensures var src := [0x10, 7, 0, 0, 0x50, 1, 2, 3, 4, 5];
            && ParseBlock(src).Some? && Accepted(ParseBlock(src).value, |src|, 16)
            && Decode(src) == None
  {
    var s, last := Sequence([7], 0, 4), [1, 2, 3, 4, 5];
    ZeroOffsetBytes();
    hide EncodeBlock, EncodeAll, LengthTail, ParseBlock, Execute;
    ParseEncoded(Block([s], last));
    Nothing(10, 16);
    AllFitSnoc([], s, 10, 16);
    assert [] + [s] == [s];
    AcceptedExecutes([s], 10, 16);
  }

  lemma ZeroOffsetBytes()
    ensures var s := Sequence([7], 0, 4);
            && EncodeBlock(Block([s], [1, 2, 3, 4, 5])) == [0x10, 7, 0, 0, 0x50, 1, 2, 3, 4, 5]
            && Fits(s, 0, 0, 10, 16) && OutputLength([s]) == 5
  {
    var s, last := Sequence([7], 0, 4), [1, 2, 3, 4, 5];
    OffsetLayout(0);
    hide LeBytes;
    assert EncodeSequence(s) == [0x10, 7, 0, 0] && EncodeLast(last) == [0x50, 1, 2, 3, 4, 5];
    assert EncodeAll([s]) == EncodeAll([]) + EncodeSequence(s);
  }

  /** A step that does not fit spoils every block it could be part of. */
  lemma RejectedStep(src: seq<byte>, ip: nat, read: seq<Sequence>, limit: nat)
    requires AllEncodable(read) && ip == |EncodeAll(read)|
    requires !Acceptable(src, ip, OutputLength(read), limit)
    ensures ParseFrom(src, ip, read).Some? ==> !Accepted(ParseFrom(src, ip, read).value, |src|, limit)
  {
    hide Fits, ParseStep, AllFit, EncodeAll, OutputLength;
    match ParseStep(src, ip)
    case None =>
    case Some(Done(_)) =>
    case Some(Next(s, next)) =>
      AllFitSnoc(read, s, |src|, limit);
      var r := ParseFrom(src, next, read + [s]);
      if r.Some? && AllFit(r.value.sequences, |src|, limit) {
        assert r.value.sequences[..|read| + 1] == read + [s];
        AllFitPrefix(r.value.sequences, |read| + 1, |src|, limit);
      }
  }

  lemma FinishedStep(src: seq<byte>, ip: nat, read: seq<Sequence>, limit: nat)
    requires AllEncodable(read) && AllFit(read, |src|, limit)
    requires Acceptable(src, ip, OutputLength(read), limit) && ParseStep(src, ip).value.Done?
    requires ParseBlock(src) == ParseFrom(src, ip, read)
    ensures Decode(src).Some? ==>
              Execute(read).Some? && Decode(src).value == Execute(read).value + ParseStep(src, ip).value.last
    ensures ParseFrom(src, ip, read) == Some(Block(read, ParseStep(src, ip).value.last))
    ensures Accepted(ParseFrom(src, ip, read).value, |src|, limit)
  {
  }

  lemma NextStep(src: seq<byte>, ip: nat, read: seq<Sequence>, limit: nat)
    requires AllEncodable(read) && AllFit(read, |src|, limit) && ip == |EncodeAll(read)|
    requires Acceptable(src, ip, OutputLength(read), limit) && ParseStep(src, ip).value.Next?
    ensures var Next(s, next) := ParseStep(src, ip).value;
            && AllEncodable(read + [s]) && AllFit(read + [s], |src|, limit)
            && next == |EncodeAll(read + [s])|
            && OutputLength(read + [s]) == OutputLength(read) + |s.literals| + s.matchLength
            && ParseFrom(src, ip, read) == ParseFrom(src, next, read + [s])
            && (Execute(read + [s]).Some? ==>
                  && Execute(read).Some? && 1 <= s.offset <= OutputLength(read) + |s.literals|
                  && Execute(read + [s]).value
                     == CopyMatch(Execute(read).value + s.literals, s.offset, s.matchLength))
  {
    hide Fits, AllFit, EncodeSequence, EncodeAll, Execute, OutputLength, ParseStep, CopyMatch;
    Snoc(read, ParseStep(src, ip).value.s);
    AllFitSnoc(read, ParseStep(src, ip).value.s, |src|, limit);
    ParseStepSize(src, ip);
  }

  lemma RoomForToken(src: seq<byte>, ip: nat)
    requires ip + 2 <= |src|
    ensures TokenInside(src, ip) && TokenInside(src, 0)
  {
  }

  /** The first sequences are accepted, and what follows them is refused, at a position that is not the
      start of the input and that the result tells. */
  predicate RefusedAfter(mem: seq<byte>, size: nat, limit: nat, read: seq<Sequence>, at: nat, r: int) {
    && r <= -2 && size <= |mem| && AllEncodable(read) && AllFit(read, size, limit)
    && |EncodeAll(read)| < |mem| && ParseBlock(mem[..size]) == ParseFrom(mem[..size], |EncodeAll(read)|, read)
    && RefusedAt(mem, size, |EncodeAll(read)|, OutputLength(read), limit, at, -1 - r)
  }

  /** The block of fourteen equal bytes, decoded. */
  method DecodeFourteen(b: byte, dest: array<byte>) returns (r: int, ghost mark: nat)
    requires dest.Length >= 14
    modifies dest
    ensures r == 14 && dest[..r] == Repeat(b, 14)
  {
    var src := [0x14, b, 1, 0, 0x50, b, b, b, b, b];
    ghost var s, last := Sequence([b], 1, 8), [b, b, b, b, b];
    FourteenBytes(b);
    FourteenDecoded(b);
    FourteenFits(b, dest.Length);
    hide EncodeBlock, ParseBlock, Decode, Accepted, RefusedAfter, FirstReadsInside;
    ParseEncoded(Block([s], last));
    assert src[..10] == src;
    r, mark := DecompressSafe(src, 10, dest);
  }

  lemma FourteenFits(b: byte, limit: nat)
    requires limit >= 14
    ensures Accepted(Block([Sequence([b], 1, 8)], [b, b, b, b, b]), 10, limit)
    ensures OutputLength([Sequence([b], 1, 8)]) == 9
  {
    var s := Sequence([b], 1, 8);
    Nothing(10, limit);
    AllFitSnoc([], s, 10, limit);
    assert [] + [s] == [s];
  }

  /** The main loop, for an output that is not empty. */
  method DecodeBlock(mem: seq<byte>, size: nat, dest: array<byte>) returns (r: int, ghost mark: nat)
    requires size <= |mem| && (TokenInside(mem[..size], 0) || 2 <= |mem|)
    modifies dest
    ensures -1 - mark <= r <= dest.Length && (mark <= size <==> TokenInside(mem[..size], 0))
    ensures mark > size ==> mark == (if mem[0] / 16 == RUN_MASK then 2 else 1) && r == -1 - mark
    ensures r >= 0 <==> ParseBlock(mem[..size]).Some? && Accepted(ParseBlock(mem[..size]).value, size, dest.Length)
    ensures r >= 0 ==>
              r == OutputLength(ParseBlock(mem[..size]).value.sequences) + |ParseBlock(mem[..size]).value.last|
    ensures r >= 0 && Decode(mem[..size]).Some? ==> dest[..r] == Decode(mem[..size]).value
    ensures r < 0 ==> exists read, at :: RefusedAfter(mem, size, dest.Length, read, at, r)
  {
    hide RefusedAt, Acceptable, ParseStep, ParseLength, EncodeSequence, CopyMatch, Fits, AllFit, Execute, OutputLength,
         EncodeAll, ParseFrom, Decode, Accepted, TokenInside;
    var ip, op := 0, 0;
    ghost var src := mem[..size];
    ghost var read: seq<Sequence> := [];
    mark := 0;
    Nothing(size, dest.Length);
    while true
      invariant ip <= size && op <= dest.Length && mark <= size
      invariant ip > 0 ==> TokenInside(src, ip) && TokenInside(src, 0)
      invariant AllEncodable(read) && ip == |EncodeAll(read)| && op == OutputLength(read)
      invariant ParseBlock(src) == ParseFrom(src, ip, read)
      invariant AllFit(read, size, dest.Length)
      invariant Execute(read).Some? ==> dest[..op] == Execute(read).value
      decreases size - ip
    {
      var status, next: int, end; ghost var step, top;
      status, next, end, step, top := DecodeOne(mem, size, ip, dest, op);
      mark := Max(mark, top);
      if status.Failed? {
        RejectedStep(src, ip, read, dest.Length);
        ghost var at :| RefusedAt(mem, size, ip, op, dest.Length, at, next);
        assert RefusedAfter(mem, size, dest.Length, read, at, -1 - next);
        return -1 - next, mark;
      }
      if status.Finished? {
        FinishedStep(src, ip, read, dest.Length);
        return end, mark;
      }
      NextStep(src, ip, read, dest.Length);
      RoomForToken(src, next);
      ip, op, read := next, end, read + [step.s];
    }
  }

  /** LZ4_decompress_safe on `size` bytes at the start of `mem`. The result is non-negative exactly for
      the blocks the format parses and whose matches leave the demanded room; it is then the output
      length, and the output is what the reference decoder produces. What is read, up to `mark`, stays
      inside the input exactly when the first token's bytes are inside it; otherwise only they are
      read, and the input is refused. */
  method DecompressSafe(mem: seq<byte>, size: nat, dest: array<byte>) returns (r: int, ghost mark: nat)
    requires Memory(mem, size, dest.Length)
    modifies dest
    ensures -1 - mark <= r <= dest.Length
    ensures mark <= size <==> FirstReadsInside(mem[..size], dest.Length)
    ensures mark > size ==> mark == (if mem[0] / 16 == RUN_MASK then 2 else 1) && r == -1 - mark
    ensures dest.Length == 0 ==> r == if mem[..size] == [0] then 0 else -1
    ensures dest.Length > 0 ==>
              (r >= 0 <==> ParseBlock(mem[..size]).Some? && Accepted(ParseBlock(mem[..size]).value, size, dest.Length))
    ensures dest.Length > 0 && r >= 0 ==>
              r == OutputLength(ParseBlock(mem[..size]).value.sequences) + |ParseBlock(mem[..size]).value.last|
    ensures r >= 0 && Decode(mem[..size]).Some? ==> dest[..r] == Decode(mem[..size]).value
    ensures dest.Length > 0 && r < 0 ==>
              exists read, at :: RefusedAfter(mem, size, dest.Length, read, at, r)
  {
    if dest.Length == 0 {
      if size == 1 && mem[0] == 0 {
        EmptyBlock(mem[..size]);
        return 0, 1;
      }
      return -1, if size == 1 then 1 else 0;
    }
    hide ParseBlock, Accepted, Decode, OutputLength, TokenInside, RefusedAfter;
    r, mark := DecodeBlock(mem, size, dest);
  }

  lemma EmptyBlock(src: seq<byte>)
    requires |src| == 1 && src[0] == 0
    ensures src == [0] && Decode(src) == Some([])
  {
    ParseEncoded(Block([], []));
  }

  /** A single byte that announces extra length bytes is not the last byte read. */
  method OneByteReadsTwo(mem: seq<byte>, dest: array<byte>) returns (r: int, ghost mark: nat)
    requires |mem| >= 2 && mem[0] == 0xF0 && dest.Length > 0
    modifies dest
    ensures mark == 2 && r == -3
  {
    r, mark := DecompressSafe(mem, 1, dest);
  }

  /** An empty input is read from: one byte, or two when that byte announces extra length bytes. */
  method EmptyIsRead(mem: seq<byte>, dest: array<byte>) returns (r: int, ghost mark: nat)
    requires |mem| >= 2 && dest.Length > 0
    modifies dest
    ensures mark == (if mem[0] / 16 == RUN_MASK then 2 else 1) && r == -1 - mark
  {
    r, mark := DecompressSafe(mem, 0, dest);
  }
}
