/** Java's primitive integer types as the rest of the model uses them: values of
    `int` and `long` as mathematical integers in their ranges, the wrap-around of
    Java's arithmetic written out, and the big-endian byte order that
    java.nio.ByteBuffer uses by default for getInt/putInt/getLong/putLong. */
module JavaTypes {

  type byte = bv8

  /** A reference that may be null. */
  datatype Option<T> = None | Some(value: T)

  const TWO_8: int := 0x100
  const TWO_16: int := 0x1_0000
  const TWO_24: int := 0x100_0000
  const TWO_31: int := 0x8000_0000
  const TWO_32: int := 0x1_0000_0000
  const TWO_63: int := 0x8000_0000_0000_0000
  const TWO_64: int := 0x1_0000_0000_0000_0000

  const INT_MIN: int := -TWO_31
  const INT_MAX: int := TWO_31 - 1
  const LONG_MIN: int := -TWO_63
  const LONG_MAX: int := TWO_63 - 1

  /** A value of Java's `int`. */
  type Int = x: int | -0x8000_0000 <= x < 0x8000_0000
  /** A value of Java's `long`. */
  type Long = x: int | -0x8000_0000_0000_0000 <= x < 0x8000_0000_0000_0000
  /** An unsigned 32-bit quantity (what four bytes hold). */
  type U32 = x: int | 0 <= x < 0x1_0000_0000

  /** The `int` that Java's 32-bit arithmetic yields for the exact value x. */
  function Wrap32(x: int): (r: Int)
    ensures (r - x) % TWO_32 == 0
    ensures INT_MIN <= x <= INT_MAX ==> r == x
  {
    (x + TWO_31) % TWO_32 - TWO_31
  }

  /** The `long` that Java's 64-bit arithmetic yields for the exact value x. */
  function Wrap64(x: int): (r: Long)
    ensures (r - x) % TWO_64 == 0
    ensures LONG_MIN <= x <= LONG_MAX ==> r == x
  {
    (x + TWO_63) % TWO_64 - TWO_63
  }

  /** Wrap64 forgets multiples of 2^64. */
  lemma Wrap64Shift(x: int, k: int)
    ensures Wrap64(x + k * TWO_64) == Wrap64(x)
  {
    var a := x + TWO_63;
    assert (a + k * TWO_64) % TWO_64 == a % TWO_64;
  }

  /** Two values that differ by a multiple of 2^64 wrap to the same `long`. */
  lemma Wrap64Congruent(x: int, y: int)
    requires (x - y) % TWO_64 == 0
    ensures Wrap64(x) == Wrap64(y)
  {
    var k := (x - y) / TWO_64;
    assert x == y + k * TWO_64;
    Wrap64Shift(y, k);
  }

  /** Java's `a % b` on ints: the remainder of division truncated toward zero,
      so it takes the sign of the dividend. */
  function JavaRem(a: int, b: int): (r: int)
    requires b != 0
    ensures -(Abs(b) as int) < r < Abs(b)
    ensures a >= 0 ==> r >= 0
    ensures a <= 0 ==> r <= 0
  {
    if a >= 0 then a % Abs(b) else -((-a) % Abs(b))
  }

  function Abs(x: int): nat { if x < 0 then -x else x }

  /** Java's Math.abs(int): the absolute value, except that Integer.MIN_VALUE,
      whose negation does not fit, is returned unchanged. */
  function JavaAbsInt(x: Int): (r: Int)
    ensures x != INT_MIN ==> r == Abs(x)
    ensures x == INT_MIN ==> r == INT_MIN
  {
    if x == INT_MIN then x else Abs(x)
  }

  // ---------------------------------------------------------------------------
  // Big-endian encodings

  /** The four big-endian bytes of an unsigned 32-bit quantity. */
  function EncodeU32(u: U32): (s: seq<byte>)
    ensures |s| == 4
  {
    var q1 := u / 256;
    var q2 := q1 / 256;
    [ByteOf(q2 / 256), ByteOf(q2 % 256), ByteOf(q1 % 256), ByteOf(u % 256)]
  }

  /** The unsigned 32-bit quantity held by the first four bytes of s, big-endian. */
  function DecodeU32(s: seq<byte>): (u: U32)
    requires |s| >= 4
  {
    (((s[0] as int) * 256 + (s[1] as int)) * 256 + (s[2] as int)) * 256 + (s[3] as int)
  }

  /** The byte whose unsigned value is k, defined by counting up from 0 so
      that its value can be proved by induction rather than by bit-blasting
      the conversion. */
  function ByteOf(k: nat): byte
    requires k < 256
  {
    if k == 0 then 0 else ByteOf(k - 1) + 1
  }

  lemma ByteSucc(b: byte)
    requires b as int < 255
    ensures (b + 1) as int == b as int + 1
  {
  }

  lemma {:induction false} ByteValue(k: nat)
    requires k < 256
    ensures ByteOf(k) as int == k
  {
    if k > 0 {
      ByteValue(k - 1);
      ByteSucc(ByteOf(k - 1));
    }
  }

  lemma {:induction false} U32RoundTrip(u: U32, rest: seq<byte>)
    ensures DecodeU32(EncodeU32(u) + rest) == u
  {
    var s := EncodeU32(u) + rest;
    var q1 := u / 256;
    var q2 := q1 / 256;
    ByteValue(q2 / 256); ByteValue(q2 % 256); ByteValue(q1 % 256); ByteValue(u % 256);
    assert s[0] as int == q2 / 256 && s[1] as int == q2 % 256;
    assert s[2] as int == q1 % 256 && s[3] as int == u % 256;
    assert (q2 / 256) * 256 + q2 % 256 == q2;
    assert q2 * 256 + q1 % 256 == q1;
    assert q1 * 256 + u % 256 == u;
  }

  /** getInt looks at four bytes only. */
  lemma DecodeU32Bytes(a: seq<byte>, b: seq<byte>)
    requires |a| >= 4 && |b| >= 4
    requires a[0] == b[0] && a[1] == b[1] && a[2] == b[2] && a[3] == b[3]
    ensures DecodeU32(a) == DecodeU32(b)
  {
  }

  /** The two's-complement bit pattern of an `int`, read as unsigned. */
  function IntBits(x: Int): (u: U32)
    ensures (u - x) % TWO_32 == 0
  {
    if x < 0 then x + TWO_32 else x
  }

  /** The `int` whose two's-complement bit pattern is u. */
  function IntOfBits(u: U32): (x: Int)
    ensures (u - x) % TWO_32 == 0
  {
    if u < TWO_31 then u else u - TWO_32
  }

  /** ByteBuffer.putInt: four bytes, most significant first. */
  function EncodeInt(x: Int): (s: seq<byte>)
    ensures |s| == 4
  {
    EncodeU32(IntBits(x))
  }

  /** ByteBuffer.getInt on the first four bytes of s. */
  function DecodeInt(s: seq<byte>): Int
    requires |s| >= 4
  {
    IntOfBits(DecodeU32(s))
  }

  lemma IntRoundTrip(x: Int, rest: seq<byte>)
    ensures DecodeInt(EncodeInt(x) + rest) == x
  {
    U32RoundTrip(IntBits(x), rest);
    assert DecodeU32(EncodeInt(x) + rest) == IntBits(x);
    assert IntOfBits(IntBits(x)) == x by {
      if x < 0 { assert IntBits(x) == x + TWO_32; } else { assert IntBits(x) == x; }
    }
  }

  /** The two's-complement bit pattern of a `long`, read as unsigned. */
  function LongBits(x: Long): (u: nat)
    ensures u < TWO_64 && (u - x) % TWO_64 == 0
  {
    if x < 0 then x + TWO_64 else x
  }

  /** ByteBuffer.putLong: eight bytes, most significant first. */
  function EncodeLong(x: Long): (s: seq<byte>)
    ensures |s| == 8
  {
    var u := LongBits(x);
    EncodeU32(u / TWO_32) + EncodeU32(u % TWO_32)
  }

  /** ByteBuffer.getLong on the first eight bytes of s. */
  function DecodeLong(s: seq<byte>): Long
    requires |s| >= 8
  {
    var u := DecodeU32(s) * TWO_32 + DecodeU32(s[4..]);
    if u < TWO_63 then u else u - TWO_64
  }

  lemma {:induction false} LongRoundTrip(x: Long, rest: seq<byte>)
    ensures DecodeLong(EncodeLong(x) + rest) == x
  {
    var u := LongBits(x);
    var s := EncodeLong(x) + rest;
    ConcatAssoc(EncodeU32(u / TWO_32), EncodeU32(u % TWO_32), rest);
    U32RoundTrip(u / TWO_32, EncodeU32(u % TWO_32) + rest);
    assert s[4..] == EncodeU32(u % TWO_32) + rest;
    U32RoundTrip(u % TWO_32, rest);
  }

  // ---------------------------------------------------------------------------
  // Sequences

  /** s with the elements from index `at` on overwritten by src. */
  function Splice<T>(s: seq<T>, at: nat, src: seq<T>): (r: seq<T>)
    requires at + |src| <= |s|
    ensures |r| == |s|
    ensures r[at..at + |src|] == src
    ensures forall i :: 0 <= i < |s| && !(at <= i < at + |src|) ==> r[i] == s[i]
  {
    s[..at] + src + s[at + |src|..]
  }

  /** Two splices side by side are one splice of the two sources. */
  lemma SpliceAppend<T>(s: seq<T>, at: nat, a: seq<T>, b: seq<T>)
    requires at + |a| + |b| <= |s|
    ensures Splice(Splice(s, at, a), at + |a|, b) == Splice(s, at, a + b)
  {
    assert Splice(Splice(s, at, a), at + |a|, b) == s[..at] + a + b + s[at + |a| + |b|..];
  }

  /** Concatenation is associative. */
  lemma ConcatAssoc<T>(a: seq<T>, b: seq<T>, c: seq<T>)
    ensures a + (b + c) == a + b + c
  {
  }

  /** Splicing in nothing changes nothing. */
  lemma SpliceEmpty<T>(s: seq<T>, at: nat)
    requires at <= |s|
    ensures Splice(s, at, []) == s
  {
    assert s[..at] + s[at..] == s;
  }

  /** n zero bytes. */
  function Zeros(n: nat): (s: seq<byte>)
    ensures |s| == n
    ensures forall i :: 0 <= i < n ==> s[i] == 0
  {
    seq(n, _ => 0)
  }
}
