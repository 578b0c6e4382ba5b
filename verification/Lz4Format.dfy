/** The LZ4 Block Format: sequences, their bytes, and a reference decoder that copies one byte
    at a time. Nothing here depends on how a block is produced or on the order of fast copies. */
module Lz4Format {
  import opened Bytes

  const MINMATCH := 4
  const COPYLENGTH := 8
  const LASTLITERALS := 5
  const MFLIMIT := 12
  const MAX_DISTANCE := 65535
  const RUN_MASK := 15
  const ML_MASK := 15
  const MAX_INPUT_SIZE := 0x7E000000

  /** Literals copied from the block, then `matchLength` bytes copied from `offset` bytes back. */
  datatype Sequence = Sequence(literals: seq<byte>, offset: nat, matchLength: nat)

  /** Sequences, then a final run of literals with no match. */
  datatype Block = Block(sequences: seq<Sequence>, last: seq<byte>)

  // ----- bytes of a block

  /** Four bits of a token hold a length below 15; 15 announces extra bytes. */
  function Nibble(n: nat): (k: nat)
    ensures k < 16
  {
    if n < 15 then n else 15
  }

  function ExtraBytes(n: nat): (s: seq<byte>)
    ensures |s| == n / 255 + 1
  {
    if n < 255 then [n] else [255] + ExtraBytes(n - 255)
  }

  function LengthTail(n: nat): (s: seq<byte>)
    ensures |s| == if n < 15 then 0 else (n - 15) / 255 + 1
  {
    if n < 15 then [] else ExtraBytes(n - 15)
  }

  predicate Encodable(s: Sequence) {
    s.offset < 65536 && MINMATCH <= s.matchLength
  }

  function EncodeSequence(s: Sequence): seq<byte>
    requires Encodable(s)
  {
    [Token(s)] + (LengthTail(|s.literals|) + (s.literals + MatchBytes(s)))
  }

  function Token(s: Sequence): (t: byte)
    requires Encodable(s)
    ensures t / 16 == Nibble(|s.literals|) && t % 16 == Nibble(s.matchLength - MINMATCH)
  {
    16 * Nibble(|s.literals|) + Nibble(s.matchLength - MINMATCH)
  }

  function MatchBytes(s: Sequence): seq<byte>
    requires Encodable(s)
  {
    LeBytes(s.offset, 2) + LengthTail(s.matchLength - MINMATCH)
  }

  function EncodeLast(literals: seq<byte>): seq<byte> {
    [16 * Nibble(|literals|)] + (LengthTail(|literals|) + literals)
  }

  predicate AllEncodable(sequences: seq<Sequence>) {
    forall i :: 0 <= i < |sequences| ==> Encodable(sequences[i])
  }

  function EncodeAll(sequences: seq<Sequence>): seq<byte>
    requires AllEncodable(sequences)
  {
    if |sequences| == 0 then []
    else EncodeAll(sequences[..|sequences| - 1]) + EncodeSequence(sequences[|sequences| - 1])
  }

  function EncodeBlock(b: Block): seq<byte>
    requires AllEncodable(b.sequences)
  {
    EncodeAll(b.sequences) + EncodeLast(b.last)
  }

  // ----- parsing

  /** Adds extra length bytes to `length` up to and including the first below 255. */
  function ParseExtra(src: seq<byte>, ip: nat, length: nat): (r: Option<(nat, nat)>)
    ensures r.Some? ==> ip < r.value.1 <= |src| && length <= r.value.0
    decreases |src| - ip
  {
    if ip >= |src| then None
    else if src[ip] == 255 then ParseExtra(src, ip + 1, length + 255)
    else Some((length + src[ip], ip + 1))
  }

  function ParseLength(src: seq<byte>, ip: nat, nibble: nat): (r: Option<(nat, nat)>)
    requires ip <= |src|
    ensures r.Some? ==> ip <= r.value.1 <= |src| && nibble <= r.value.0
  {
    if nibble == 15 then ParseExtra(src, ip, 15) else Some((nibble, ip))
  }

  datatype Step = Done(last: seq<byte>) | Next(s: Sequence, ip: nat)

  /** Reads one sequence, or the last literals, at `ip`. */
  function ParseStep(src: seq<byte>, ip: nat): (r: Option<Step>)
    ensures r.Some? && r.value.Next? ==> ip < r.value.ip <= |src| && Encodable(r.value.s)
  {
    if ip >= |src| then None else
    var token := src[ip];
    match ParseLength(src, ip + 1, token / 16)
    case None => None
    case Some((run, at)) =>
      if at + run > |src| then None
      else if at + run == |src| then Some(Done(src[at..]))
      else ParseMatch(src, at + run, src[at..at + run], token % 16)
  }

  /** Reads the offset and match length that follow the literals. */
  function ParseMatch(src: seq<byte>, ip: nat, literals: seq<byte>, nibble: nat): (r: Option<Step>)
    requires ip <= |src|
    ensures r.Some? ==> r.value.Next? && ip < r.value.ip <= |src| && Encodable(r.value.s)
  {
    if ip + 2 > |src| then None else
    assert Pow256(2) == 65536;
    match ParseLength(src, ip + 2, nibble)
    case None => None
    case Some((length, at)) =>
      Some(Next(Sequence(literals, LeValue(src[ip..ip + 2]), length + MINMATCH), at))
  }

  /** Parses the rest of a block after the sequences already read. */
  function ParseFrom(src: seq<byte>, ip: nat, read: seq<Sequence>): (r: Option<Block>)
    requires AllEncodable(read)
    ensures r.Some? ==> read <= r.value.sequences && AllEncodable(r.value.sequences)
    decreases |src| - ip
  {
    match ParseStep(src, ip)
    case None => None
    case Some(Done(last)) => Some(Block(read, last))
    case Some(Next(s, at)) => ParseFrom(src, at, read + [s])
  }

  function ParseBlock(src: seq<byte>): (r: Option<Block>)
    ensures r.Some? ==> AllEncodable(r.value.sequences)
  {
    ParseFrom(src, 0, [])
  }

  // ----- meaning

  /** One byte at a time, so the copy may read bytes it has just written. */
  function CopyMatch(out: seq<byte>, offset: nat, length: nat): (r: seq<byte>)
    requires 1 <= offset <= |out|
    ensures |r| == |out| + length
    decreases length
  {
    if length == 0 then out
    else CopyMatch(out + [out[|out| - offset]], offset, length - 1)
  }

  /** The output of the sequences, or None when an offset is zero or reaches before the output. */
  function Execute(sequences: seq<Sequence>): (r: Option<seq<byte>>)
    ensures r.Some? ==> |r.value| == OutputLength(sequences)
  {
    if |sequences| == 0 then Some([]) else
    match Execute(sequences[..|sequences| - 1])
    case None => None
    case Some(out) =>
      var s := sequences[|sequences| - 1];
      var o := out + s.literals;
      if 1 <= s.offset <= |o| then Some(CopyMatch(o, s.offset, s.matchLength)) else None
  }

  function OutputLength(sequences: seq<Sequence>): nat {
    if |sequences| == 0 then 0
    else
      var s := sequences[|sequences| - 1];
      OutputLength(sequences[..|sequences| - 1]) + |s.literals| + s.matchLength
  }

  function ExecuteBlock(b: Block): (r: Option<seq<byte>>)
    ensures r.Some? ==> |r.value| == OutputLength(b.sequences) + |b.last|
  {
    match Execute(b.sequences)
    case None => None
    case Some(out) => Some(out + b.last)
  }

  /** The reference decoder. */
  function Decode(src: seq<byte>): Option<seq<byte>> {
    match ParseBlock(src)
    case None => None
    case Some(b) => ExecuteBlock(b)
  }

  // ----- end of block conditions

  /** Every match starts at least 12 bytes and ends at least 5 bytes before position `n`. */
  predicate MatchesEndBefore(sequences: seq<Sequence>, n: nat) {
    |sequences| == 0 ||
    (var before, s := sequences[..|sequences| - 1], sequences[|sequences| - 1];
     && MatchesEndBefore(before, n)
     && 1 <= s.offset <= MAX_DISTANCE
     && MINMATCH <= s.matchLength
     && OutputLength(before) + |s.literals| + MFLIMIT <= n
     && OutputLength(sequences) + LASTLITERALS <= n)
  }

  /** The format's end of block conditions, with the range of offsets. */
  predicate WellFormed(b: Block) {
    MatchesEndBefore(b.sequences, OutputLength(b.sequences) + |b.last|)
  }

  // ----- the bytes of a sequence

  /** What follows a nibble of 15: bytes of 255 and a last one below, which with the 15 add up to the length. */
  lemma {:induction false} TailLayout(n: nat)
    ensures n < 15 ==> LengthTail(n) == []
    ensures n >= 15 ==>
              var t := LengthTail(n);
              && |t| == (n - 15) / 255 + 1 && t[|t| - 1] == (n - 15) % 255
              && forall i :: 0 <= i < |t| - 1 ==> t[i] == 255
  {
    if n >= 15 {
      ExtraLayout(n - 15);
    }
  }

  lemma {:induction false} ExtraLayout(n: nat)
    ensures var t := ExtraBytes(n);
            t[|t| - 1] == n % 255 && forall i :: 0 <= i < |t| - 1 ==> t[i] == 255
  {
    if n >= 255 {
      ExtraLayout(n - 255);
      assert (n - 255) % 255 == n % 255;
    }
  }

  /** A sequence in bytes: the token, the rest of the literal length, the literals, the offset with its low
      byte first, and the rest of the match length less four. */
  lemma SequenceLayout(s: Sequence)
    requires Encodable(s)
    ensures var e, k := EncodeSequence(s), |LengthTail(|s.literals|)|;
            var n := 1 + k + |s.literals|;
            && |e| >= n + 2 && e[0] == 16 * Min(15, |s.literals|) + Min(15, s.matchLength - 4)
            && e[1..1 + k] == LengthTail(|s.literals|) && e[1 + k..n] == s.literals
            && e[n] == s.offset % 256 && e[n + 1] == s.offset / 256 && e[n + 2..] == LengthTail(s.matchLength - 4)
  {
    hide LengthTail, LeBytes;
    OffsetLayout(s.offset);
    Pieces(Token(s), LengthTail(|s.literals|), s.literals, s.offset % 256, s.offset / 256,
           LengthTail(s.matchLength - 4));
  }

  lemma Pieces(a: byte, b: seq<byte>, c: seq<byte>, x: byte, y: byte, d: seq<byte>)
    ensures var e, n := [a] + (b + (c + ([x, y] + d))), 1 + |b| + |c|;
            && |e| >= n + 2 && e[0] == a && e[1..1 + |b|] == b && e[1 + |b|..n] == c && e[n] == x && e[n + 1] == y
            && e[n + 2..] == d
  {
  }

  lemma OffsetLayout(offset: nat)
    requires offset < 65536
    ensures LeBytes(offset, 2) == [offset % 256, offset / 256]
  {
    assert LeBytes(offset, 2) == [offset % 256] + LeBytes(offset / 256, 1);
    assert LeBytes(offset / 256, 1) == [offset / 256 % 256] + [];
  }

  /** The block of fourteen equal bytes. */
  lemma FourteenBytes(b: byte)
    ensures var block := Block([Sequence([b], 1, 8)], [b, b, b, b, b]);
            && EncodeBlock(block) == [0x14, b, 1, 0, 0x50, b, b, b, b, b]
            && ExecuteBlock(block) == Some(Repeat(b, 14))
  {
    var s, last := Sequence([b], 1, 8), [b, b, b, b, b];
    OffsetLayout(1);
    assert EncodeSequence(s) == [0x14, b, 1, 0];
    assert EncodeLast(last) == [0x50, b, b, b, b, b];
    hide EncodeSequence, EncodeLast;
    assert EncodeAll([s]) == EncodeAll([]) + EncodeSequence(s);
    FourteenExecuted(b);
  }

  lemma FourteenExecuted(b: byte)
    ensures ExecuteBlock(Block([Sequence([b], 1, 8)], [b, b, b, b, b])) == Some(Repeat(b, 14))
  {
    hide CopyMatch, Repeat;
    OneSequence(Sequence([b], 1, 8));
    CopyMatchUnique([b], 1, 8, Repeat(b, 9));
    assert Repeat(b, 14) == Repeat(b, 9) + [b, b, b, b, b];
  }

  lemma OneSequence(s: Sequence)
    requires 1 <= s.offset <= |s.literals|
    ensures Execute([s]) == Some(CopyMatch(s.literals, s.offset, s.matchLength))
  {
    assert [s][..0] == [] && [] + s.literals == s.literals;
  }

  /** Its bytes, read by the reference decoder. */
  lemma FourteenDecoded(b: byte)
    ensures Decode([0x14, b, 1, 0, 0x50, b, b, b, b, b]) == Some(Repeat(b, 14))
  {
    FourteenBytes(b);
    hide EncodeBlock, ExecuteBlock;
    ParseEncoded(Block([Sequence([b], 1, 8)], [b, b, b, b, b]));
  }

  // ----- parsing undoes encoding

  predicate StoredAt(src: seq<byte>, ip: nat, bytes: seq<byte>) {
    ip + |bytes| <= |src| && src[ip..ip + |bytes|] == bytes
  }

  lemma StoredSplit(src: seq<byte>, ip: nat, a: seq<byte>, b: seq<byte>)
    requires StoredAt(src, ip, a + b)
    ensures StoredAt(src, ip, a) && StoredAt(src, ip + |a|, b)
  {
    var n, m := |a|, |a| + |b|;
    assert src[ip..ip + n] == src[ip..ip + m][..n] == (a + b)[..n];
    assert src[ip + n..ip + m] == src[ip..ip + m][n..] == (a + b)[n..];
  }

  lemma StoredBytes(src: seq<byte>, ip: nat, bytes: seq<byte>)
    requires StoredAt(src, ip, bytes)
    ensures ip + |bytes| <= |src| && src[ip..ip + |bytes|] == bytes
  {
  }

  lemma {:induction false} ParseExtraEncoded(src: seq<byte>, ip: nat, n: nat, length: nat)
    requires StoredAt(src, ip, ExtraBytes(n))
    ensures ParseExtra(src, ip, length) == Some((length + n, ip + |ExtraBytes(n)|))
    decreases n
  {
    assert src[ip] == ExtraBytes(n)[0];
    if n >= 255 {
      StoredSplit(src, ip, [255], ExtraBytes(n - 255));
      ParseExtraEncoded(src, ip + 1, n - 255, length + 255);
    }
  }

  lemma ParseLengthEncoded(src: seq<byte>, ip: nat, n: nat)
    requires StoredAt(src, ip, LengthTail(n))
    ensures ParseLength(src, ip, Nibble(n)) == Some((n, ip + |LengthTail(n)|))
  {
    if n >= 15 {
      ParseExtraEncoded(src, ip, n - 15, 15);
    }
  }

  lemma OffsetStored(offset: nat)
    requires offset < 65536
    ensures LeValue(LeBytes(offset, 2)) == offset
  {
    assert Pow256(2) == 256 * Pow256(1);
    LeValueOfBytes(offset, 2);
  }

  lemma ParseMatchEncoded(src: seq<byte>, ip: nat, s: Sequence)
    requires Encodable(s)
    requires StoredAt(src, ip, MatchBytes(s))
    ensures ParseMatch(src, ip, s.literals, Nibble(s.matchLength - MINMATCH))
         == Some(Next(s, ip + |MatchBytes(s)|))
  {
    hide LeBytes, LeValue, Pow256, ParseLength, Nibble, LengthTail, StoredAt;
    StoredSplit(src, ip, LeBytes(s.offset, 2), LengthTail(s.matchLength - MINMATCH));
    StoredBytes(src, ip, LeBytes(s.offset, 2));
    StoredBytes(src, ip + 2, LengthTail(s.matchLength - MINMATCH));
    OffsetStored(s.offset);
    ParseLengthEncoded(src, ip + 2, s.matchLength - MINMATCH);
  }

  lemma StoredSequence(src: seq<byte>, ip: nat, s: Sequence)
    requires Encodable(s) && StoredAt(src, ip, EncodeSequence(s))
    ensures src[ip] == Token(s)
    ensures StoredAt(src, ip + 1, LengthTail(|s.literals|))
    ensures StoredAt(src, ip + 1 + |LengthTail(|s.literals|)|, s.literals)
    ensures StoredAt(src, ip + 1 + |LengthTail(|s.literals|)| + |s.literals|, MatchBytes(s))
  {
    var tail := LengthTail(|s.literals|);
    StoredSplit(src, ip, [Token(s)], tail + (s.literals + MatchBytes(s)));
    assert src[ip] == src[ip..ip + 1][0];
    StoredSplit(src, ip + 1, tail, s.literals + MatchBytes(s));
    StoredSplit(src, ip + 1 + |tail|, s.literals, MatchBytes(s));
  }

  /** A stored sequence with at least one byte after it parses back. */
  lemma ParseStepEncoded(src: seq<byte>, ip: nat, s: Sequence)
    requires Encodable(s) && ip + |EncodeSequence(s)| < |src|
    requires StoredAt(src, ip, EncodeSequence(s))
    ensures ParseStep(src, ip) == Some(Next(s, ip + |EncodeSequence(s)|))
  {
    hide ParseMatch, ParseLength, LengthTail, Nibble, MatchBytes;
    StoredSequence(src, ip, s);
    ParseLengthEncoded(src, ip + 1, |s.literals|);
    var at := ip + 1 + |LengthTail(|s.literals|)|;
    ParseMatchEncoded(src, at + |s.literals|, s);
  }

  lemma ParseStepLast(src: seq<byte>, ip: nat, last: seq<byte>)
    requires ip + |EncodeLast(last)| == |src| && StoredAt(src, ip, EncodeLast(last))
    ensures ParseStep(src, ip) == Some(Done(last))
  {
    hide LengthTail, Nibble, ParseLength;
    StoredSplit(src, ip, [16 * Nibble(|last|)], LengthTail(|last|) + last);
    assert src[ip] == src[ip..ip + 1][0];
    StoredSplit(src, ip + 1, LengthTail(|last|), last);
    ParseLengthEncoded(src, ip + 1, |last|);
    assert src[ip + 1 + |LengthTail(|last|)|..] == last;
  }

  lemma LastStored(b: Block)
    requires AllEncodable(b.sequences)
    ensures var n := |EncodeAll(b.sequences)|;
            n + |EncodeLast(b.last)| == |EncodeBlock(b)| && StoredAt(EncodeBlock(b), n, EncodeLast(b.last))
  {
    hide EncodeAll, EncodeLast;
  }

  lemma SequenceStored(b: Block, k: nat)
    requires AllEncodable(b.sequences) && k < |b.sequences|
    ensures var src, s, n := EncodeBlock(b), b.sequences[k], |EncodeAll(b.sequences[..k])|;
            && StoredAt(src, n, EncodeSequence(s)) && n + |EncodeSequence(s)| < |src|
            && |EncodeAll(b.sequences[..k + 1])| == n + |EncodeSequence(s)|
  {
    hide EncodeSequence, EncodeAll;
    var before, s := EncodeAll(b.sequences[..k]), b.sequences[k];
    EncodeAllPrefix(b.sequences, k + 1);
    EncodeAllSnoc(b.sequences, k);
    assert StoredAt(EncodeBlock(b), 0, before + EncodeSequence(s));
    StoredSplit(EncodeBlock(b), 0, before, EncodeSequence(s));
  }

  lemma {:induction false} ParseFromEncoded(b: Block, k: nat)
    requires AllEncodable(b.sequences) && k <= |b.sequences|
    ensures ParseFrom(EncodeBlock(b), |EncodeAll(b.sequences[..k])|, b.sequences[..k]) == Some(b)
    decreases |b.sequences| - k
  {
    hide ParseStep, EncodeSequence, EncodeBlock, EncodeAll, StoredAt, EncodeLast;
    var src, before := EncodeBlock(b), EncodeAll(b.sequences[..k]);
    if k == |b.sequences| {
      assert b.sequences[..k] == b.sequences;
      LastStored(b);
      ParseStepLast(src, |before|, b.last);
    } else {
      var s := b.sequences[k];
      SequenceStored(b, k);
      ParseStepEncoded(src, |before|, s);
      assert b.sequences[..k + 1] == b.sequences[..k] + [s];
      ParseFromEncoded(b, k + 1);
    }
  }

  lemma EncodeAllSnoc(sequences: seq<Sequence>, k: nat)
    requires AllEncodable(sequences) && k < |sequences|
    ensures EncodeAll(sequences[..k + 1]) == EncodeAll(sequences[..k]) + EncodeSequence(sequences[k])
  {
    assert sequences[..k + 1][..k] == sequences[..k];
  }

  lemma {:induction false} EncodeAllPrefix(sequences: seq<Sequence>, k: nat)
    requires AllEncodable(sequences) && k <= |sequences|
    ensures EncodeAll(sequences[..k]) <= EncodeAll(sequences)
  {
    if k == |sequences| {
      assert sequences[..k] == sequences;
    } else {
      var init := sequences[..|sequences| - 1];
      assert init[..k] == sequences[..k];
      EncodeAllPrefix(init, k);
    }
  }

  lemma Snoc(read: seq<Sequence>, s: Sequence)
    requires AllEncodable(read) && Encodable(s)
    ensures EncodeAll(read + [s]) == EncodeAll(read) + EncodeSequence(s)
    ensures OutputLength(read + [s]) == OutputLength(read) + |s.literals| + s.matchLength
    ensures Execute(read + [s]).Some? <==>
              Execute(read).Some? && 1 <= s.offset <= OutputLength(read) + |s.literals|
    ensures Execute(read + [s]).Some? ==>
              Execute(read + [s]).value == CopyMatch(Execute(read).value + s.literals, s.offset, s.matchLength)
  {
    assert (read + [s])[..|read|] == read;
  }

  /** Parsing is a left inverse of encoding, for every block. */
  lemma ParseEncoded(b: Block)
    requires AllEncodable(b.sequences)
    ensures ParseBlock(EncodeBlock(b)) == Some(b)
  {
    ParseFromEncoded(b, 0);
  }

  // ----- the overlapping copy

  lemma {:induction false} CopyMatchPeriodic(out: seq<byte>, offset: nat, length: nat)
    requires 1 <= offset <= |out|
    ensures out <= CopyMatch(out, offset, length)
    ensures forall k :: |out| <= k < |out| + length ==>
              CopyMatch(out, offset, length)[k] == CopyMatch(out, offset, length)[k - offset]
    decreases length
  {
    if length > 0 {
      var out1 := out + [out[|out| - offset]];
      CopyMatchPeriodic(out1, offset, length - 1);
    }
  }

  /** A sequence that extends `out` and repeats with period `offset` is the copy. */
  lemma {:induction false} CopyMatchUnique(out: seq<byte>, offset: nat, length: nat, r: seq<byte>)
    requires 1 <= offset <= |out|
    requires |r| == |out| + length && out <= r
    requires forall k :: |out| <= k < |r| ==> r[k] == r[k - offset]
    ensures r == CopyMatch(out, offset, length)
    decreases length
  {
    if length > 0 {
      var out1 := out + [out[|out| - offset]];
      assert r[|out|] == r[|out| - offset] == out[|out| - offset];
      CopyMatchUnique(out1, offset, length - 1, r);
    }
  }

  // ----- size

  /** One sequence costs at most 256/255 of what it covers. */
  lemma SequenceSize(s: Sequence)
    requires Encodable(s)
    ensures 255 * |EncodeSequence(s)| <= 256 * (|s.literals| + s.matchLength)
  {
  }

  lemma {:induction false} EncodeAllSize(sequences: seq<Sequence>)
    requires AllEncodable(sequences)
    ensures 255 * |EncodeAll(sequences)| <= 256 * OutputLength(sequences)
  {
    if |sequences| > 0 {
      EncodeAllSize(sequences[..|sequences| - 1]);
      SequenceSize(sequences[|sequences| - 1]);
    }
  }

  /** LZ4_compressBound for a supported input size. */
  function CompressBound(n: nat): nat {
    if n > MAX_INPUT_SIZE then 0 else n + n / 255 + 16
  }

  lemma BlockSize(b: Block)
    requires AllEncodable(b.sequences)
    ensures |EncodeBlock(b)| <= OutputLength(b.sequences) + |b.last|
                                + (OutputLength(b.sequences) + |b.last|) / 255 + 2
  {
    EncodeAllSize(b.sequences);
  }
}
