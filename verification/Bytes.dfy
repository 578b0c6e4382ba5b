/** Bytes, little-endian fields, and the word operations the sources apply to them. */
module Bytes {

  type byte = b: int | 0 <= b < 256

  datatype Option<+T> = None | Some(value: T)

  function Min(a: int, b: int): int { if a < b then a else b }

  function Max(a: int, b: int): int { if a < b then b else a }

  /** `n` copies of one byte, as `memset` leaves them. */
  function Repeat(b: byte, n: nat): (s: seq<byte>)
    ensures |s| == n
    ensures forall i :: 0 <= i < n ==> s[i] == b
  {
    seq(n, _ => b)
  }

  lemma Assoc<T>(a: seq<T>, b: seq<T>, c: seq<T>)
    ensures a + b + c == a + (b + c)
  {
  }

  lemma AtLeastOne(k: int, p: nat)
    ensures k >= 1 ==> k * p >= p
    ensures -k * p == -(k * p)
  {
  }

  lemma DivisionIs(a: nat, p: nat, q: nat, r: nat)
    requires p >= 1 && r < p && a == q * p + r
    ensures a / p == q && a % p == r
  {
    var k := a / p - q;
    assert a == (a / p) * p + a % p;
    assert k * p == (a / p) * p - q * p;
    AtLeastOne(k, p);
    AtLeastOne(-k, p);
  }

  lemma ConsAppend<T>(a: seq<T>, b: seq<T>)
    requires |a| > 0
    ensures (a + b)[0] == a[0] && (a + b)[1..] == a[1..] + b && [a[0]] + (a[1..] + b) == a + b
  {
  }

  // ----- little-endian integers

  /** 256 to the power `n`: one more than the largest `n`-byte unsigned integer. */
  function Pow256(n: nat): (p: nat)
    ensures p >= 1
  {
    if n == 0 then 1 else 256 * Pow256(n - 1)
  }

  /** The unsigned integer stored in `s`, least significant byte first. */
  function LeValue(s: seq<byte>): (v: nat)
    ensures v < Pow256(|s|)
  {
    if |s| == 0 then 0 else s[0] + 256 * LeValue(s[1..])
  }

  /** The low `n` bytes of `v`, least significant first: a store truncates to its width. */
  function LeBytes(v: nat, n: nat): (s: seq<byte>)
    ensures |s| == n
  {
    if n == 0 then [] else [v % 256] + LeBytes(v / 256, n - 1)
  }

  lemma {:induction false} LeValueOfBytes(v: nat, n: nat)
    requires v < Pow256(n)
    ensures LeValue(LeBytes(v, n)) == v
  {
    if n > 0 {
      LeValueOfBytes(v / 256, n - 1);
      assert LeBytes(v, n)[1..] == LeBytes(v / 256, n - 1);
    }
  }

  /** The bytes of a 32-bit and of a 64-bit word, low byte first. */
  function Word(v: nat): seq<byte>
    requires v < 0x1_0000_0000
  {
    [v % 256, v / 256 % 256, v / 256 / 256 % 256, v / 256 / 256 / 256]
  }

  function LongWord(v: nat): seq<byte>
    requires v < 0x1_0000_0000_0000_0000
  {
    LowBytes(v) + Word(v / 256 / 256 / 256 / 256)
  }

  function LowBytes(v: nat): seq<byte> {
    [v % 256, v / 256 % 256, v / 256 / 256 % 256, v / 256 / 256 / 256 % 256]
  }

  /** The 32-bit word stored at `at`. */
  function WordAt(s: seq<byte>, at: nat): int
    requires at + 4 <= |s|
  {
    (s[at] as int) + 256 * (s[at + 1] as int) + 0x1_0000 * (s[at + 2] as int) + 0x100_0000 * (s[at + 3] as int)
  }

  lemma OneByte(v: nat, n: nat)
    ensures LeBytes(v, 1 + n) == [v % 256] + LeBytes(v / 256, n)
  {
  }

  lemma FourBytes(v: nat, n: nat)
    ensures LeBytes(v, 4 + n) == LowBytes(v) + LeBytes(v / 256 / 256 / 256 / 256, n)
  {
    hide LeBytes;
    OneByte(v, 3 + n);
    OneByte(v / 256, 2 + n);
    OneByte(v / 256 / 256, 1 + n);
    OneByte(v / 256 / 256 / 256, n);
  }

  lemma WordBytes(v: nat)
    requires v < 0x1_0000_0000
    ensures LeBytes(v, 4) == Word(v)
  {
    FourBytes(v, 0);
  }

  lemma LongWordBytes(v: nat)
    requires v < 0x1_0000_0000_0000_0000
    ensures LeBytes(v, 8) == LongWord(v)
  {
    hide LeBytes, LowBytes;
    FourBytes(v, 4);
    WordBytes(v / 256 / 256 / 256 / 256);
  }

  lemma LowByte(b: byte, high: nat)
    ensures (b + 256 * high) % 256 == b && (b + 256 * high) / 256 == high
  {
  }

  lemma {:induction false} LeBytesOfValue(s: seq<byte>)
    ensures LeBytes(LeValue(s), |s|) == s
  {
    if |s| > 0 {
      LowByte(s[0], LeValue(s[1..]));
      LeBytesOfValue(s[1..]);
      assert s == [s[0]] + s[1..];
    }
  }

  /** Two loads of the same width are equal exactly when the bytes are. */
  lemma LeValueInjective(a: seq<byte>, b: seq<byte>)
    requires |a| == |b|
    ensures LeValue(a) == LeValue(b) <==> a == b
  {
    LeBytesOfValue(a);
    LeBytesOfValue(b);
  }

  // ----- exclusive or and trailing zeros

  /** Bitwise exclusive or of two unsigned integers. */
  function Xor(x: nat, y: nat): (z: nat)
    decreases x + y
  {
    if x == 0 && y == 0 then 0
    else (if x % 2 == y % 2 then 0 else 1) + 2 * Xor(x / 2, y / 2)
  }

  /** The number of zero bits below the lowest one bit. */
  function Ctz(v: nat): (n: nat)
    requires v > 0
  {
    if v % 2 == 1 then 0 else 1 + Ctz(v / 2)
  }

  /** `v << bits` without a width limit. */
  function Shl(v: nat, bits: nat): (w: nat)
    ensures v > 0 ==> w > 0
  {
    if bits == 0 then v else 2 * Shl(v, bits - 1)
  }

  lemma {:induction false} XorZero(x: nat, y: nat)
    ensures Xor(x, y) == 0 <==> x == y
    decreases x + y
  {
    if x != 0 || y != 0 {
      XorZero(x / 2, y / 2);
    }
  }

  lemma XorHalves(x: nat, y: nat)
    ensures Xor(x, y) == (if x % 2 == y % 2 then 0 else 1) + 2 * Xor(x / 2, y / 2)
  {
  }

  lemma CtzHalves(v: nat)
    ensures v % 2 == 1 ==> Ctz(v) == 0
    ensures v > 0 && v % 2 == 0 ==> Ctz(v) == 1 + Ctz(v / 2)
  {
  }

  lemma ShlHalves(a: nat, p: nat, bits: nat)
    requires bits > 0
    ensures (a + Shl(p, bits)) / 2 == a / 2 + Shl(p, bits - 1) && (a + Shl(p, bits)) % 2 == a % 2
    ensures a < Shl(1, bits) ==> a / 2 < Shl(1, bits - 1)
  {
  }

  lemma ShlDouble(v: nat, bits: nat)
    requires bits > 0
    ensures Shl(v, bits) == 2 * Shl(v, bits - 1)
  {
  }

  /** Equal low parts cancel: what is left is the exclusive or of the high parts, shifted. */
  lemma {:induction false} XorEqualLow(low: nat, bits: nat, p: nat, q: nat)
    requires low < Shl(1, bits)
    ensures Xor(low + Shl(p, bits), low + Shl(q, bits)) == Shl(Xor(p, q), bits)
    decreases bits
  {
    if bits > 0 {
      hide Xor, Ctz, Shl;
      ShlHalves(low, p, bits);
      ShlHalves(low, q, bits);
      XorHalves(low + Shl(p, bits), low + Shl(q, bits));
      XorEqualLow(low / 2, bits - 1, p, q);
      ShlDouble(Xor(p, q), bits);
    }
  }

  lemma SomeBits(a: nat, b: nat, bits: nat)
    requires a < Shl(1, bits) && b < Shl(1, bits) && a != b
    ensures bits > 0
  {
  }

  /** Different low parts leave a one bit inside them. */
  lemma {:induction false} XorDifferentLow(a: nat, b: nat, bits: nat, p: nat, q: nat)
    requires a < Shl(1, bits) && b < Shl(1, bits) && a != b
    ensures Xor(a + Shl(p, bits), b + Shl(q, bits)) > 0
    ensures Ctz(Xor(a + Shl(p, bits), b + Shl(q, bits))) < bits
    decreases bits
  {
    hide Shl, Xor, Ctz;
    SomeBits(a, b, bits);
    ShlHalves(a, p, bits);
    ShlHalves(b, q, bits);
    var x, y := a + Shl(p, bits), b + Shl(q, bits);
    XorHalves(x, y);
    CtzHalves(Xor(x, y));
    if a % 2 == b % 2 {
      XorDifferentLow(a / 2, b / 2, bits - 1, p, q);
    }
  }

  lemma {:induction false} CtzShifted(bits: nat, v: nat)
    requires v > 0
    ensures Ctz(Shl(v, bits)) == bits + Ctz(v)
  {
    if bits > 0 {
      CtzShifted(bits - 1, v);
    }
  }

  lemma Shl8(v: nat)
    ensures Shl(v, 8) == 256 * v
  {
    assert Shl(v, 1) == 2 * Shl(v, 0) == 2 * v;
    assert Shl(v, 2) == 4 * v;
    assert Shl(v, 4) == 4 * Shl(v, 2);
    assert Shl(v, 6) == 4 * Shl(v, 4);
  }

  /** The length of the longest common prefix. */
  function CommonPrefix(a: seq<byte>, b: seq<byte>): (n: nat)
    ensures n <= |a| && n <= |b|
    ensures a[..n] == b[..n]
    ensures n < |a| && n < |b| ==> a[n] != b[n]
  {
    if |a| == 0 || |b| == 0 || a[0] != b[0] then 0
    else
      var n := CommonPrefix(a[1..], b[1..]);
      assert a[..n + 1] == [a[0]] + a[1..][..n];
      assert b[..n + 1] == [b[0]] + b[1..][..n];
      n + 1
  }

  /** On a little-endian machine the trailing zero bytes of the exclusive or of two loads
      count the leading bytes on which the two agree. */
  lemma {:induction false} TrailingZeroBytes(a: seq<byte>, b: seq<byte>)
    requires |a| == |b| && a != b
    ensures Xor(LeValue(a), LeValue(b)) > 0
    ensures Ctz(Xor(LeValue(a), LeValue(b))) / 8 == CommonPrefix(a, b)
  {
    hide Shl, Xor, Ctz;
    Shl8(1);
    var p, q := LeValue(a[1..]), LeValue(b[1..]);
    if a[0] == b[0] {
      assert a == [a[0]] + a[1..] && b == [b[0]] + b[1..];
      TrailingZeroBytes(a[1..], b[1..]);
      Shl8(p);
      Shl8(q);
      XorEqualLow(a[0], 8, p, q);
      CtzShifted(8, Xor(p, q));
    } else {
      Shl8(p);
      Shl8(q);
      XorDifferentLow(a[0], b[0], 8, p, q);
    }
  }
}
