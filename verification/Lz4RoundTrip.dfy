/** Compression followed by decompression is the identity. */
module Lz4RoundTrip {
  import opened Bytes
  import opened Lz4Format
  import opened Lz4Compressor
  import opened Lz4Decompressor

  /** The reference decoder inverts every block that stands for an input. */
  lemma DecodeEncoded(b: Block, source: seq<byte>)
    requires StandsFor(b, source)
    ensures Decode(EncodeBlock(b)) == Some(source)
  {
    ParseEncoded(b);
  }

  /** The end of block conditions give the fast decoder all the room it demands, in every output
      buffer that is at least as large as the output. */
  lemma {:induction false} WellFormedFits(sequences: seq<Sequence>, all: seq<Sequence>, last: seq<byte>, limit: nat)
    requires AllEncodable(all) && sequences <= all
    requires MatchesEndBefore(sequences, OutputLength(all) + |last|) && OutputLength(all) + |last| <= limit
    requires Execute(sequences).Some? && (|all| > 0 ==> |last| >= LASTLITERALS)
    ensures AllFit(sequences, |EncodeBlock(Block(all, last))|, limit)
  {
    if |sequences| > 0 {
      var before, s := sequences[..|sequences| - 1], sequences[|sequences| - 1];
      assert sequences == before + [s];
      Snoc(before, s);
      WellFormedFits(before, all, last, limit);
      assert all[..|sequences|] == sequences;
      EncodeAllPrefix(all, |sequences|);
      SequenceFits(s, |EncodeAll(before)|, OutputLength(before), |EncodeBlock(Block(all, last))|, limit);
    }
  }

  lemma SequenceFits(s: Sequence, ip: nat, op: nat, size: nat, limit: nat)
    requires Encodable(s) && s.offset <= op + |s.literals|
    requires op + |s.literals| + MFLIMIT <= limit && op + |s.literals| + s.matchLength + LASTLITERALS <= limit
    requires ip + |EncodeSequence(s)| + 1 + LASTLITERALS <= size
    ensures Fits(s, ip, op, size, limit)
  {
  }

  lemma LastLiterals(b: Block)
    requires WellFormed(b)
    ensures |b.sequences| > 0 ==> |b.last| >= LASTLITERALS
  {
  }

  lemma WellFormedAccepted(b: Block, source: seq<byte>, limit: nat)
    requires StandsFor(b, source) && |source| <= limit
    ensures Accepted(b, |EncodeBlock(b)|, limit)
  {
    LastLiterals(b);
    WellFormedFits(b.sequences, b.sequences, b.last, limit);
  }

  lemma BlockReadable(b: Block, source: seq<byte>)
    requires StandsFor(b, source)
    ensures FirstReadsInside(EncodeBlock(b), |source|)
    ensures source == [] ==> EncodeBlock(b) == [0]
    ensures source != [] ==> |EncodeBlock(b)| >= 2
  {
    LastLiterals(b);
    if |b.sequences| == 0 {
      assert b.last == source;
    } else {
      var n := |b.sequences| - 1;
      assert EncodeAll(b.sequences) == EncodeAll(b.sequences[..n]) + EncodeSequence(b.sequences[n]);
    }
  }

  /** For every input of a supported size, every compression buffer of the advertised bound and
      every output buffer large enough, the output is the input. */
  method RoundTrip(source: seq<byte>, packed: array<byte>, out: array<byte>) returns (size: int)
    requires |source| <= MAX_INPUT_SIZE && CompressBound(|source|) <= packed.Length && |source| <= out.Length
    requires packed != out
    modifies packed, out
    ensures size == |source| && out[..size] == source
  {
    var r; ghost var block;
    r, block := Compress(source, packed);
    DecodeEncoded(block, source);
    ParseEncoded(block);
    WellFormedAccepted(block, source, out.Length);
    BlockReadable(block, source);
    hide StandsFor, Accepted, Decode, EncodeBlock, ParseBlock;
    assert packed[..][..r] == packed[..r];
    ghost var mark;
    size, mark := DecompressSafe(packed[..], r, out);
  }

  /** The block produced for an input, with any hash function and either table, decodes to it. */
  method RoundTripAnyHash(source: seq<byte>, packed: array<byte>, out: array<byte>, table: array<nat>,
                          t: TableType, hash: nat -> nat)
    returns (size: int)
    requires Suits(t, |source|) && CompressBound(|source|) <= packed.Length && |source| <= out.Length
    requires packed != out
    requires IntoTable(hash, table.Length) && (forall h :: 0 <= h < table.Length ==> table[h] == 0)
    modifies packed, out, table
    ensures size == |source| && out[..size] == source
  {
    var r; ghost var block;
    r, block := CompressGeneric(source, packed, table, t, hash);
    DecodeEncoded(block, source);
    ParseEncoded(block);
    WellFormedAccepted(block, source, out.Length);
    BlockReadable(block, source);
    hide StandsFor, Accepted, Decode, EncodeBlock, ParseBlock;
    assert packed[..][..r] == packed[..r];
    ghost var mark;
    size, mark := DecompressSafe(packed[..], r, out);
  }

  // ----- how well periodic inputs are compressed

  /** The size of the block for `n` bytes with a period of `d`. */
  function PeriodSize(n: nat, d: nat): nat
    requires d + 13 <= n
  {
    9 + d + (if d < 15 then 0 else 1) + if n - d < 24 then 0 else 1 + (n - d - 24) / 255
  }

  lemma PeriodBlockSize(literals: seq<byte>, n: nat, last: seq<byte>)
    requires 1 <= |literals| <= 65 && |literals| + 13 <= n && |last| == LASTLITERALS
    ensures var s := Sequence(literals, |literals|, n - LASTLITERALS - |literals|);
            Encodable(s) && |EncodeBlock(Block([s], last))| == PeriodSize(n, |literals|)
  {
    var s := Sequence(literals, |literals|, n - LASTLITERALS - |literals|);
    assert EncodeAll([s]) == EncodeAll([]) + EncodeSequence(s);
  }

  /** An input of a period of at most 65 bytes, whose words are told apart by the hash, becomes one period of
      literals and one match. */
  method CompressPeriod(source: seq<byte>, d: nat, packed: array<byte>, table: array<nat>, t: TableType,
                        hash: nat -> nat)
    returns (r: nat, ghost block: Block)
    requires Suits(t, |source|) && CompressBound(|source|) <= packed.Length
    requires IntoTable(hash, table.Length) && (forall h :: 0 <= h < table.Length ==> table[h] == 0)
    requires Period(source, d) && FirstRepeat(source, hash, d)
    modifies packed, table
    ensures r == PeriodSize(|source|, d) && StandsFor(block, source) && packed[..r] == EncodeBlock(block)
    ensures block == Block([Sequence(source[..d], d, |source| - 5 - d)], source[|source| - 5..])
  {
    hide CompressBound, IntoTable, Untouched, StandsFor, EncodeBlock, Maximal, Tight, Begins, LastUnmatched;
    r, block := CompressGeneric(source, packed, table, t, hash);
    PeriodBlock(source, d, block);
    PeriodBlockSize(source[..d], |source|, source[|source| - LASTLITERALS..]);
  }

  predicate IsRun(source: seq<byte>, b: byte) {
    forall i :: 0 <= i < |source| ==> source[i] == b
  }

  /** The size of the block for `n` equal bytes. */
  function RunSize(n: nat): nat {
    if n <= 13 then n + 1
    else if n < 25 then 10
    else 11 + (n - 25) / 255
  }

  lemma RunRepeats(source: seq<byte>, b: byte, hash: nat -> nat)
    requires IsRun(source, b) && |source| > 13
    ensures Period(source, 1) && FirstRepeat(source, hash, 1)
  {
    assert source[1..5] == source[0..4];
  }

  lemma LiteralBlock(source: seq<byte>, block: Block)
    requires StandsFor(block, source) && block.sequences == [] && |source| <= 13
    ensures |EncodeBlock(block)| == |source| + 1
  {
    assert ExecuteBlock(block) == Some([] + block.last);
  }

  /** An input of equal bytes is compressed to one match exactly when it is longer than thirteen bytes,
      whatever the hash function is. */
  method CompressRun(source: seq<byte>, b: byte, packed: array<byte>, table: array<nat>, t: TableType,
                     hash: nat -> nat)
    returns (r: nat, ghost block: Block)
    requires Suits(t, |source|) && CompressBound(|source|) <= packed.Length && IsRun(source, b)
    requires IntoTable(hash, table.Length) && (forall h :: 0 <= h < table.Length ==> table[h] == 0)
    modifies packed, table
    ensures r == RunSize(|source|) && StandsFor(block, source) && packed[..r] == EncodeBlock(block)
    ensures |block.sequences| == (if |source| > 13 then 1 else 0)
    ensures |source| == 14 ==> packed[..r] == [0x14, b, 1, 0, 0x50, b, b, b, b, b]
  {
    hide StandsFor, EncodeBlock, FirstRepeat, CompressBound, Thorough, Untouched, IntoTable, Begins;
    if |source| > 13 {
      RunRepeats(source, b, hash);
      r, block := CompressPeriod(source, 1, packed, table, t, hash);
      if |source| == 14 {
        FourteenBytes(b);
        assert source[..1] == [b] && source[9..] == [b, b, b, b, b];
      }
    } else {
      r, block := CompressGeneric(source, packed, table, t, hash);
      LiteralBlock(source, block);
    }
  }

  // ----- a compressed text

  /** "abcd" ten times. */
  function Text(): seq<byte> {
    seq(40, i requires 0 <= i < 40 => 97 + i % 4)
  }

  lemma TextWords()
    ensures Period(Text(), 4) && FirstRepeat(Text(), HashOf(ByU16), 4)
  {
    var s := Text();
    TextAt(0);
    TextAt(1);
    TextAt(2);
    TextAt(3);
    TextAt(4);
    TextHashes();
    assert TextWord(0) == 0x64636261 == TextWord(4) && TextWord(1) == 0x61646362;
    assert TextWord(2) == 0x62616463 && TextWord(3) == 0x63626164;
    hide Text, HashSequence, TextWord, Load, Agree, Period;
    LoadsAgree(s, 4, 0, 4);
    LoadsAgree(s, 1, 0, 4);
    LoadsAgree(s, 2, 0, 4);
    LoadsAgree(s, 3, 0, 4);
    LoadsAgree(s, 2, 1, 4);
    LoadsAgree(s, 3, 1, 4);
    LoadsAgree(s, 3, 2, 4);
    FourApart(s, HashOf(ByU16));
  }

  /** Four words that differ one by one, as the predicate says it. */
  lemma FourApart(s: seq<byte>, hash: nat -> nat)
    requires |s| == 40 && Agree(s, 4, 0, 4) && !Agree(s, 1, 0, 4) && !Agree(s, 2, 0, 4) && !Agree(s, 3, 0, 4)
    requires !Agree(s, 2, 1, 4) && !Agree(s, 3, 1, 4) && !Agree(s, 3, 2, 4)
    requires var first := hash(Load(s, 0, 4));
             hash(Load(s, 1, 4)) != first && hash(Load(s, 2, 4)) != first && hash(Load(s, 3, 4)) != first
    ensures FirstRepeat(s, hash, 4)
  {
    hide Agree, Load;
  }

  /** The words of the text. */
  lemma TextAt(p: nat)
    requires p <= 4
    ensures |Text()| == 40 && Period(Text(), 4) && Load(Text(), p, 4) == TextWord(p)
  {
    hide Load, Period, Text;
    TextPeriod();
    LoadFour(Text(), p);
    TextByte(p);
    TextByte(p + 1);
    TextByte(p + 2);
    TextByte(p + 3);
  }

  function TextWord(p: nat): nat {
    (97 + p % 4) + 256 * (97 + (p + 1) % 4) + 0x1_0000 * (97 + (p + 2) % 4) + 0x100_0000 * (97 + (p + 3) % 4)
  }

  lemma TextPeriod()
    ensures |Text()| == 40 && Period(Text(), 4)
  {
    forall i | 4 <= i < 40 ensures Text()[i] == Text()[i - 4] {
      assert i % 4 == (i - 4) % 4;
    }
  }

  lemma TextByte(i: nat)
    requires i < 40
    ensures |Text()| == 40 && Text()[i] == 97 + i % 4
  {
  }

  lemma LoadFour(s: seq<byte>, p: nat)
    requires p + 4 <= |s|
    ensures Load(s, p, 4) == WordAt(s, p)
  {
    var w := s[p..p + 4];
    assert LeValue(w) == w[0] + 256 * LeValue(w[1..]);
    assert LeValue(w[1..]) == w[1] + 256 * LeValue(w[1..][1..]);
    assert w[1..][1..] == w[2..];
    assert LeValue(w[2..]) == w[2] + 256 * LeValue(w[2..][1..]);
    assert w[2..][1..] == w[3..] == [w[3]];
    assert LeValue([w[3]]) == w[3] + 256 * LeValue([]);
  }

  /** A hash from the quotient and remainders of its product. */
  lemma TopBits(word: nat, q: nat, h: nat, r: nat)
    requires word * 2654435761 == 0x1_0000_0000 * q + 0x8_0000 * h + r && h < 8192 && r < 0x8_0000
    ensures HashSequence(ByU16, word) == h
  {
    DivisionIs(word * 2654435761, 0x1_0000_0000, q, 0x8_0000 * h + r);
    DivisionIs(0x8_0000 * h + r, 0x8_0000, h, r);
  }

  lemma TextHashes()
    ensures HashSequence(ByU16, 0x64636261) == 3169 && HashSequence(ByU16, 0x61646362) == 5102
    ensures HashSequence(ByU16, 0x62616463) == 5921 && HashSequence(ByU16, 0x63626164) == 7025
  {
    TopBits(0x64636261, 1040914378, 3169, 384529);
    TopBits(0x61646362, 1009848371, 5102, 2242);
    TopBits(0x62616463, 1020095909, 5921, 406387);
    TopBits(0x63626164, 1030504828, 7025, 104996);
  }

  /** It is compressed to these fourteen bytes. */
  method CompressText(dest: array<byte>) returns (r: nat)
    requires dest.Length >= 56
    modifies dest
    ensures dest.Length >= r == 14
    ensures dest[..r] == [0x4F, 97, 98, 99, 100, 4, 0, 12, 0x50, 100, 97, 98, 99, 100]
  {
    var source := Text();
    TextWords();
    ghost var block;
    hide Untouched, StandsFor, EncodeBlock, Maximal, Tight, Begins, LastUnmatched, Period, FirstRepeat;
    r, block := Compress(source, dest);
    PeriodBlock(source, 4, block);
    TextBytes(source);
  }

  lemma TextBytes(source: seq<byte>)
    requires source == Text()
    ensures |source| == 40
    ensures var s := Sequence(source[..4], 4, 31);
            && Encodable(s) && EncodeBlock(Block([s], source[35..]))
                                == [0x4F, 97, 98, 99, 100, 4, 0, 12, 0x50, 100, 97, 98, 99, 100]
  {
    var s := Sequence([97, 98, 99, 100], 4, 31);
    assert source[..4] == s.literals && source[35..] == [100, 97, 98, 99, 100];
    hide Text;
    TextSequence();
    assert EncodeLast([100, 97, 98, 99, 100]) == [0x50, 100, 97, 98, 99, 100];
    hide EncodeSequence, EncodeLast;
    assert EncodeAll([s]) == EncodeAll([]) + EncodeSequence(s);
  }

  lemma TextSequence()
    ensures EncodeSequence(Sequence([97, 98, 99, 100], 4, 31)) == [0x4F, 97, 98, 99, 100, 4, 0, 12]
  {
    OffsetLayout(4);
    hide LeBytes;
    assert LengthTail(27) == [12];
  }
}
