/** Names of series files: "<id>-<point size>", printed with %d and read back with strtol. */
module FileNames {

  type uint32 = n: int | 0 <= n < 0x1_0000_0000

  function DigitChar(d: nat): (c: char)
    requires d < 10
    ensures '0' <= c <= '9' && (c == '0' <==> d == 0)
  {
    ['0', '1', '2', '3', '4', '5', '6', '7', '8', '9'][d]
  }

  function Digits(n: nat): (s: string)
    ensures |s| > 0 && forall i :: 0 <= i < |s| ==> '0' <= s[i] <= '9'
    ensures s[0] == '0' <==> n == 0
  {
    if n < 10 then [DigitChar(n)] else Digits(n / 10) + [DigitChar(n % 10)]
  }

  /** %d applied to an unsigned 32-bit value prints it as a signed one. */
  function FormatD(n: uint32): (s: string)
    ensures |s| > 0 && forall i :: 0 < i < |s| ==> s[i] != '-'
  {
    if n < 0x8000_0000 then Digits(n) else "-" + Digits(0x1_0000_0000 - n)
  }

  /** A decimal numeral of `n` without leading zeros. */
  predicate IsDecimal(s: string, n: nat) {
    && |s| > 0 && (forall i :: 0 <= i < |s| ==> '0' <= s[i] <= '9') && (s[0] == '0' ==> |s| == 1)
    && ParseDigits(s, 10, 0) == n
  }

  /** The value of a digit in strtol, or 36 for a character that ends the number. */
  function DigitValue(c: char): nat {
    if '0' <= c <= '9' then (c - '0') as nat
    else if 'a' <= c <= 'z' then (c - 'a') as nat + 10
    else if 'A' <= c <= 'Z' then (c - 'A') as nat + 10
    else 36
  }

  function ParseDigits(s: string, base: nat, value: nat): nat {
    if |s| == 0 || DigitValue(s[0]) >= base then value
    else ParseDigits(s[1..], base, value * base + DigitValue(s[0]))
  }

  /** strtol with base 0, for the strings that can follow the id in a name. */
  function Strtol(s: string): int {
    if |s| > 0 && s[0] == '-' then -(Unsigned(s[1..]) as int) else Unsigned(s)
  }

  function Unsigned(s: string): nat {
    if |s| > 2 && s[0] == '0' && (s[1] == 'x' || s[1] == 'X') && DigitValue(s[2]) < 16 then ParseDigits(s[2..], 16, 0)
    else if |s| > 0 && s[0] == '0' then ParseDigits(s, 8, 0)
    else ParseDigits(s, 10, 0)
  }

  /** The cast of the parsed value to an unsigned 32-bit size. */
  function ToUint32(v: int): uint32 {
    v % 0x1_0000_0000
  }

  lemma {:induction false} ParseSnoc(s: string, c: char, value: nat)
    requires forall i :: 0 <= i < |s| ==> '0' <= s[i] <= '9'
    requires '0' <= c <= '9'
    ensures ParseDigits(s + [c], 10, value) == ParseDigits(s, 10, value) * 10 + (c - '0') as nat
    decreases |s|
  {
    if |s| == 0 {
      assert s + [c] == [c];
      assert ParseDigits([c], 10, value) == ParseDigits([], 10, value * 10 + DigitValue(c));
    } else {
      assert (s + [c])[1..] == s[1..] + [c];
      ParseSnoc(s[1..], c, value * 10 + DigitValue(s[0]));
    }
  }

  lemma {:induction false} ParseDigitsOf(n: nat)
    ensures ParseDigits(Digits(n), 10, 0) == n
  {
    if n < 10 {
      assert ParseDigits([DigitChar(n)], 10, 0) == ParseDigits([], 10, DigitValue(DigitChar(n)));
    } else {
      ParseDigitsOf(n / 10);
      ParseSnoc(Digits(n / 10), DigitChar(n % 10), 0);
    }
  }

  /** A value is printed as its decimal numeral, and from 2^31 on as a negative one. */
  lemma FormatIsDecimal(n: uint32)
    ensures n < 0x8000_0000 ==> IsDecimal(FormatD(n), n)
    ensures n >= 0x8000_0000 ==> FormatD(n)[0] == '-' && IsDecimal(FormatD(n)[1..], 0x1_0000_0000 - n)
  {
    hide ParseDigits;
    var m := if n < 0x8000_0000 then n else 0x1_0000_0000 - n;
    ParseDigitsOf(m);
    hide Digits;
    ZeroAlone(m);
  }

  lemma ZeroAlone(n: nat)
    ensures Digits(n)[0] == '0' ==> |Digits(n)| == 1
  {
  }

  /** Reading back a printed value gives the value, also when it was printed with a minus sign. */
  lemma StrtolOfFormat(n: uint32)
    ensures ToUint32(Strtol(FormatD(n))) == n
  {
    hide Digits, Unsigned;
    if n < 0x8000_0000 {
      UnsignedOf(n);
    } else {
      UnsignedOf(0x1_0000_0000 - n);
      assert FormatD(n)[1..] == Digits(0x1_0000_0000 - n);
    }
  }

  lemma UnsignedOf(n: nat)
    ensures Unsigned(Digits(n)) == n
  {
    if n == 0 {
      assert Digits(0) == ['0'];
      assert ParseDigits(['0'], 8, 0) == ParseDigits([], 8, 0);
    } else {
      hide ParseDigits, Digits;
      ParseDigitsOf(n);
    }
  }

  lemma FormatInjective(a: uint32, b: uint32)
    requires FormatD(a) == FormatD(b)
    ensures a == b
  {
    StrtolOfFormat(a);
    StrtolOfFormat(b);
  }

  /** The prefix by which a series is looked up in the directory. */
  function Root(id: uint32): (s: string)
    ensures |s| > 0
  {
    FormatD(id) + "-"
  }

  function FileName(id: uint32, size: uint32): string {
    Root(id) + FormatD(size)
  }

  /** A name as characters: the id, a dash, and the point size. */
  lemma FileNameIs(id: uint32, size: uint32)
    requires id < 0x8000_0000 && size < 0x8000_0000
    ensures var name, k := FileName(id, size), |FormatD(id)|;
            && k < |name| && IsDecimal(name[..k], id) && name[k] == '-' && IsDecimal(name[k + 1..], size)
  {
    hide FormatD, IsDecimal;
    var name, k := FileName(id, size), |FormatD(id)|;
    assert name[..k] == FormatD(id) && name[k + 1..] == FormatD(size);
    FormatIsDecimal(id);
    FormatIsDecimal(size);
  }

  lemma SomeFileNames()
    ensures FileName(1, 16) == "1-16" && FileName(23450, 6789) == "23450-6789"
    ensures FileName(0, 0xFFFF_FFFF) == "0--1"
  {
    hide Digits, DigitChar;
    assert Digits(1) == "1" && Digits(0) == "0" by {
      OneDigit(0);
      OneDigit(1);
    }
    LastDigit(1, 6);
    LongDigits();
  }

  lemma OneDigit(d: nat)
    requires d < 10
    ensures Digits(d) == [DigitChar(d)] && DigitChar(d) == "0123456789"[d]
  {
  }

  lemma LastDigit(n: nat, d: nat)
    requires n > 0 && d < 10
    ensures Digits(10 * n + d) == Digits(n) + ["0123456789"[d]]
  {
    OneDigit(d);
    hide DigitChar;
    TenTimes(n, d);
    assert Digits(10 * n + d) == Digits((10 * n + d) / 10) + [DigitChar((10 * n + d) % 10)];
    hide Digits;
  }

  lemma TenTimes(n: nat, d: nat)
    requires d < 10
    ensures (10 * n + d) / 10 == n && (10 * n + d) % 10 == d
  {
  }

  lemma LongDigits()
    ensures Digits(23450) == "23450" && Digits(6789) == "6789"
  {
    OneDigit(2);
    OneDigit(6);
    hide Digits, DigitChar;
    LastDigit(2, 3);
    LastDigit(23, 4);
    LastDigit(234, 5);
    LastDigit(2345, 0);
    LastDigit(6, 7);
    LastDigit(67, 8);
    LastDigit(678, 9);
  }

  /** The directory scan skips a name unless it extends the prefix. */
  predicate IsCandidate(id: uint32, name: string) {
    |Root(id)| < |name| && Root(id) <= name
  }

  /** The prefix of one id never selects the file of another. */
  lemma CandidateIsOwn(id: uint32, other: uint32, size: uint32)
    ensures IsCandidate(id, FileName(other, size)) <==> id == other
  {
    var x, y, name := FormatD(id), FormatD(other), FileName(other, size);
    if id == other {
      assert name[..|Root(id)|] == Root(id);
    } else if IsCandidate(id, name) {
      assert name[|x|] == Root(id)[|x|] == '-';
      assert name[|y|] == '-';
      if |x| == |y| {
        assert x == name[..|x|] == y;
        FormatInjective(id, other);
      }
    }
  }

  lemma FileNameInjective(id: uint32, size: uint32, id': uint32, size': uint32)
    requires FileName(id, size) == FileName(id', size')
    ensures id == id' && size == size'
  {
    CandidateIsOwn(id, id', size');
    CandidateIsOwn(id, id, size);
    assert FormatD(size) == FileName(id, size)[|Root(id)|..] == FormatD(size');
    FormatInjective(size, size');
  }

  /** What the load takes from a name of its own series is the point size that named it. */
  lemma SizeFromName(id: uint32, size: uint32)
    ensures ToUint32(Strtol(FileName(id, size)[|Root(id)|..])) == size
  {
    assert FileName(id, size)[|Root(id)|..] == FormatD(size);
    StrtolOfFormat(size);
  }

  lemma DotsAreNoCandidates(id: uint32)
    ensures !IsCandidate(id, ".") && !IsCandidate(id, "..")
  {
    assert Root(id)[|FormatD(id)|] == '-';
  }
}
