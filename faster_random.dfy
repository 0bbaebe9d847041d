/** FasterRandom, the random generator of the benchmark's key distributions:
    xorshift64* (shift-xor steps on a 64-bit state, output multiplied by
    2685821657736338717) that every 32 draws reseeds itself from a
    java.util.Random seeded with the current state.

    java.util.Random is not part of this model: what a rollover does with it,
    `random.setSeed(seed); seed = random.nextLong()`, is a deterministic
    function of the seed, passed to the generator as `reseedFn`. Java ints are
    32-bit words and longs 64-bit words here, with Java's `>>` (sign-extending)
    and `>>>` (zero-filling) written out. */
module FasterRandomGen {
  import opened JavaTypes

  /** The multiplier of xorshift64*, 0x2545F4914F6CDD1D. */
  const MULTIPLIER: bv64 := 2685821657736338717

  /** Java's `>>` on a long: the shift that copies the sign bit. */
  function Sar(x: bv64, k: bv6): bv64
  {
    if x & 0x8000_0000_0000_0000 == 0 then x >> k else (x >> k) | !(0xFFFF_FFFF_FFFF_FFFF >> k)
  }

  /** The three shift-xor steps of nextLong as the source writes them, with the
      sign-extending `>>`. */
  function XorshiftAsWritten(s: bv64): bv64
  {
    var s1 := s ^ Sar(s, 12);
    var s2 := s1 ^ (s1 << 25);
    s2 ^ Sar(s2, 27)
  }

  /** With sign-extending shifts the step is not one-to-one: the seeds 0 and -1
      (all ones) both go to 0, and 0 stays 0. */
  lemma XorshiftAsWrittenCollides()
    ensures XorshiftAsWritten(0xFFFF_FFFF_FFFF_FFFF) == 0
    ensures XorshiftAsWritten(0) == 0
  {
  }

  /** Whatever the seed, the step as written leaves a non-negative long: the
      last `s2 ^ (s2 >> 27)` xors the sign bit with a copy of itself. Half of
      the 2^64 states are never reached after the first draw. */
  lemma XorshiftAsWrittenNonNegative(s: bv64)
    ensures XorshiftAsWritten(s) & 0x8000_0000_0000_0000 == 0
  {
  }

  /** The xorshift64* step with the zero-filling shifts of the published
      algorithm, the evidently intended step. */
  function Xorshift(s: bv64): bv64
  {
    var s1 := s ^ (s >> 12);
    var s2 := s1 ^ (s1 << 25);
    s2 ^ (s2 >> 27)
  }

  /** The xorshift step undone: the three steps inverted in reverse order
      (x ^ (x >> k) is undone by xor-ing in the shifts by k, 2k, ... while
      they leave bits in the word). */
  lemma XorshiftInvertible(s: bv64)
    ensures var s1 := s ^ (s >> 12); var s2 := s1 ^ (s1 << 25); var h := s2 ^ (s2 >> 27);
            var a := h ^ (h >> 27) ^ (h >> 54);
            var b := a ^ (a << 25) ^ (a << 50);
            b ^ (b >> 12) ^ (b >> 24) ^ (b >> 36) ^ (b >> 48) ^ (b >> 60) == s
  {
  }

  /** Only 0 goes to 0: from a non-zero state the generator never reaches the
      zero state, on which it would be stuck. */
  lemma {:induction false} XorshiftZero(s: bv64)
    ensures Xorshift(s) == 0 <==> s == 0
  {
    XorshiftInvertible(s);
    XorshiftInvertible(0);
  }

  /** Java's `(long) i`: an int widened with its sign. */
  function SignExtend(w: bv32): bv64
  {
    if w & 0x8000_0000 == 0 then w as bv64 else (w as bv64) | 0xFFFF_FFFF_0000_0000
  }

  /** The seed setSeed(int[]) builds from two ints as the source writes it,
      `((long) ints[0] << 32) | ints[1]`: ints[1] is sign-extended before the
      or. */
  function SeedOfIntsAsWritten(hi: bv32, lo: bv32): bv64
  {
    (SignExtend(hi) << 32) | SignExtend(lo)
  }

  /** A negative ints[1] fills the upper half with ones, so ints[0] is lost:
      {0, -1} and {1, -1} give the same seed. */
  lemma SeedOfIntsAsWrittenLosesHigh()
    ensures SeedOfIntsAsWritten(0, 0xFFFF_FFFF) == SeedOfIntsAsWritten(1, 0xFFFF_FFFF)
  {
  }

  /** The seed of two ints with ints[1] zero-extended, the evidently intended
      seed: ints[0] in the upper half, ints[1] in the lower. */
  function SeedOfInts(hi: bv32, lo: bv32): bv64
  {
    ((hi as bv64) << 32) | (lo as bv64)
  }

  lemma SeedOfIntsHalves(hi: bv32, lo: bv32)
    ensures SeedOfInts(hi, lo) >> 32 == hi as bv64
    ensures SeedOfInts(hi, lo) & 0xFFFF_FFFF == lo as bv64
  {
  }

  /** Different pairs of ints give different seeds. */
  lemma SeedOfIntsInjective(a: bv32, b: bv32, c: bv32, d: bv32)
    requires SeedOfInts(a, b) == SeedOfInts(c, d)
    ensures a == c && b == d
  {
    SeedOfIntsHalves(a, b);
    SeedOfIntsHalves(c, d);
  }

  /** The generator's state: the xorshift state and the draws since the last
      rollover. */
  datatype State = State(seed: bv64, reseed: int)

  /** The state after one nextLong: the count goes up, its 32nd increment
      rolls over (count 0, seed replaced by reseedFn of the seed), and the
      xorshift step, as written with `>>`, is applied. The new seed is never
      negative. */
  function NextState(s: State, reseedFn: bv64 -> bv64): (t: State)
    requires 0 <= s.reseed < 32
    ensures 0 <= t.reseed < 32
    ensures t.reseed == 0 <==> s.reseed == 31
    ensures s.reseed < 31 ==> t.seed == XorshiftAsWritten(s.seed)
    ensures s.reseed == 31 ==> t.seed == XorshiftAsWritten(reseedFn(s.seed))
    ensures t.seed & 0x8000_0000_0000_0000 == 0
  {
    var count := s.reseed + 1;
    var base := if count == 32 then reseedFn(s.seed) else s.seed;
    XorshiftAsWrittenNonNegative(base);
    State(XorshiftAsWritten(base), if count == 32 then 0 else count)
  }

  /** The value nextLong returns from the seed it leaves: the seed times
      MULTIPLIER, wrapping. */
  function Output(seed: bv64): bv64
  {
    seed * MULTIPLIER
  }

  /** The state after n draws. */
  function Run(s: State, n: nat, reseedFn: bv64 -> bv64): (t: State)
    requires 0 <= s.reseed < 32
    ensures 0 <= t.reseed < 32
    decreases n
  {
    if n == 0 then s else Run(NextState(s, reseedFn), n - 1, reseedFn)
  }

  /** n xorshift steps, as written. */
  function XorshiftIter(x: bv64, n: nat): bv64
    decreases n
  {
    if n == 0 then x else XorshiftIter(XorshiftAsWritten(x), n - 1)
  }

  /** Draws that do not reach the 32nd since the last rollover only xorshift. */
  lemma {:induction false} RunWithoutRollover(s: State, n: nat, reseedFn: bv64 -> bv64)
    requires 0 <= s.reseed && s.reseed + n < 32
    ensures Run(s, n, reseedFn) == State(XorshiftIter(s.seed, n), s.reseed + n)
    decreases n
  {
    if n > 0 {
      RunWithoutRollover(NextState(s, reseedFn), n - 1, reseedFn);
    }
  }

  /** Every 32nd draw after a rollover reseeds: from count 0, the first 31
      draws xorshift and the 32nd rolls over. */
  lemma {:induction false} RolloverEvery32(s: State, reseedFn: bv64 -> bv64)
    requires s.reseed == 0
    ensures Run(s, 32, reseedFn) == State(XorshiftAsWritten(reseedFn(XorshiftIter(s.seed, 31))), 0)
  {
    RunWithoutRollover(s, 31, reseedFn);
    RunAppend(s, 31, 1, reseedFn);
  }

  lemma {:induction false} RunAppend(s: State, m: nat, n: nat, reseedFn: bv64 -> bv64)
    requires 0 <= s.reseed < 32
    ensures Run(s, m + n, reseedFn) == Run(Run(s, m, reseedFn), n, reseedFn)
    decreases m
  {
    if m > 0 {
      RunAppend(NextState(s, reseedFn), m - 1, n, reseedFn);
    }
  }

  /** Zero is a fixed point of xorshift, so a generator that was never seeded
      (state 0, count 0) returns 0 from its first 31 draws. */
  lemma {:induction false} UnseededDrawsZero(n: nat, reseedFn: bv64 -> bv64)
    requires 1 <= n <= 31
    ensures Output(Run(State(0, 0), n, reseedFn).seed) == 0
  {
    RunWithoutRollover(State(0, 0), n, reseedFn);
    IterZero(n);
  }

  lemma {:induction false} IterZero(n: nat)
    ensures XorshiftIter(0, n) == 0
  {
    if n > 0 {
      XorshiftAsWrittenCollides();
      IterZero(n - 1);
    }
  }

  /** The long shifted right by one byte, zero-filling (`>>>= 8`). */
  function DropByte(x: bv64): bv64
  {
    x >> 8
  }

  /** The least significant byte of a long (`(byte) (x & 0xFF)`). */
  function LowByte(x: bv64): byte
  {
    (x & 0xFF) as byte
  }

  /** The first n bytes of nextBytes from one long: byte k is bits 8k to
      8k + 7 of the long, shifted out with `>>>`. */
  function LongBytes(x: bv64, n: nat): (s: seq<byte>)
    ensures |s| == n
  {
    if n == 0 then [] else [LowByte(x)] + LongBytes(DropByte(x), n - 1)
  }

  /** x shifted right by eight bits, k times. */
  function ShiftBytes(x: bv64, k: nat): bv64
  {
    if k == 0 then x else ShiftBytes(DropByte(x), k - 1)
  }

  lemma {:induction false} LongBytesDrop(x: bv64, n: nat, k: nat)
    requires k <= n
    ensures LongBytes(x, n)[k..] == LongBytes(ShiftBytes(x, k), n - k)
    decreases k
  {
    if k > 0 {
      LongBytesDrop(DropByte(x), n - 1, k - 1);
    }
  }

  lemma ShiftedOut(x: bv64)
    ensures DropByte(DropByte(DropByte(DropByte(DropByte(DropByte(DropByte(DropByte(x)))))))) == 0
  {
  }

  lemma ShiftBytes8(x: bv64)
    ensures ShiftBytes(x, 8) == 0
  {
    var x1 := DropByte(x);
    var x2 := DropByte(x1);
    var x3 := DropByte(x2);
    var x4 := DropByte(x3);
    var x5 := DropByte(x4);
    var x6 := DropByte(x5);
    var x7 := DropByte(x6);
    assert ShiftBytes(x, 8) == ShiftBytes(x1, 7) == ShiftBytes(x2, 6) == ShiftBytes(x3, 5);
    assert ShiftBytes(x3, 5) == ShiftBytes(x4, 4) == ShiftBytes(x5, 3) == ShiftBytes(x6, 2);
    assert ShiftBytes(x6, 2) == ShiftBytes(x7, 1) == ShiftBytes(DropByte(x7), 0);
    ShiftedOut(x);
  }

  lemma {:induction false} LongBytesOfZero(n: nat)
    ensures LongBytes(0, n) == Zeros(n)
  {
    if n > 0 {
      LongBytesOfZero(n - 1);
      assert [0 as byte] + Zeros(n - 1) == Zeros(n);
    }
  }

  /** A long has eight bytes: nextBytes fills everything from index 8 on with
      zeros. */
  lemma LongBytesBeyondEight(x: bv64, n: nat)
    requires n >= 8
    ensures LongBytes(x, n)[8..] == Zeros(n - 8)
  {
    LongBytesDrop(x, n, 8);
    ShiftBytes8(x);
    LongBytesOfZero(n - 8);
  }

  /** The inner loop of nextBytes: bytes from index i on receive the bytes of
      x, least significant first, until the array is full. */
  method PutLongBytes(bytes: array<byte>, i: nat, x: bv64) returns (end: nat)
    requires i <= bytes.Length
    modifies bytes
    ensures end == bytes.Length
    ensures bytes[..] == old(bytes[..i]) + LongBytes(x, bytes.Length - i)
  {
    end := i;
    var next := x;
    while end < bytes.Length
      invariant i <= end <= bytes.Length
      invariant bytes[..end] + LongBytes(next, bytes.Length - end) == old(bytes[..i]) + LongBytes(x, bytes.Length - i)
    {
      ghost var done := bytes[..end];
      bytes[end] := LowByte(next);
      assert bytes[..end + 1] == done + [LowByte(next)];
      ConcatAssoc(done, [LowByte(next)], LongBytes(DropByte(next), bytes.Length - end - 1));
      end := end + 1;
      next := DropByte(next);
    }
    assert bytes[..end] == bytes[..];
  }

  class FasterRandom {
    /** The seed-to-next-long map of java.util.Random, used by rollover. */
    const reseedFn: bv64 -> bv64
    var seed: bv64
    var reseed: int

    ghost predicate Valid()
      reads this
    {
      0 <= reseed < 32
    }

    function Current(): State
      reads this
    {
      State(seed, reseed)
    }

    /** A new generator: seed 0, count 0. */
    constructor (reseedFn: bv64 -> bv64)
      ensures Valid() && Current() == State(0, 0) && this.reseedFn == reseedFn
    {
      this.reseedFn := reseedFn;
      seed := 0;
      reseed := 0;
    }

    /** rollover: count 0, and the seed replaced by the next long of a
        java.util.Random seeded with it. */
    method Rollover()
      modifies this
      ensures Valid() && reseed == 0 && seed == reseedFn(old(seed))
    {
      reseed := 0;
      seed := reseedFn(seed);
    }

    /** setSeed(long): the seed is set and then rolled over at once. */
    method SetSeedLong(s: bv64)
      modifies this
      ensures Valid() && Current() == State(reseedFn(s), 0)
    {
      seed := s;
      Rollover();
    }

    /** setSeed(int): the int widened with its sign. */
    method SetSeedInt(s: bv32)
      modifies this
      ensures Valid() && Current() == State(reseedFn(SignExtend(s)), 0)
    {
      SetSeedLong(SignExtend(s));
    }

    /** setSeed(int[]): two or more ints make one long of the first two; one
        int is setSeed(int); an empty array fails on ints[0] and changes
        nothing. The two ints are combined as written, by SeedOfIntsAsWritten. */
    method SetSeedInts(ints: seq<bv32>) returns (ok: bool)
      modifies this
      ensures ok <==> |ints| > 0
      ensures !ok ==> unchanged(this)
      ensures |ints| > 1 ==> Valid() && Current() == State(reseedFn(SeedOfIntsAsWritten(ints[0], ints[1])), 0)
      ensures |ints| == 1 ==> Valid() && Current() == State(reseedFn(SignExtend(ints[0])), 0)
    {
      if |ints| > 1 {
        SetSeedLong(SeedOfIntsAsWritten(ints[0], ints[1]));
      } else if |ints| == 1 {
        SetSeedInt(ints[0]);
      } else {
        return false;
      }
      ok := true;
    }

    /** nextLong: count, maybe roll over, xorshift, scramble. */
    method NextLong() returns (r: bv64)
      requires Valid()
      modifies this
      ensures Valid()
      ensures Current() == NextState(old(Current()), reseedFn)
      ensures r == Output(seed)
    {
      reseed := reseed + 1;
      if reseed == 32 {
        Rollover();
      }
      seed := XorshiftAsWritten(seed);
      r := Output(seed);
    }

    /** nextInt(): the low 32 bits of one draw, as an int. */
    method NextInt() returns (r: Int)
      requires Valid()
      modifies this
      ensures Valid()
      ensures Current() == NextState(old(Current()), reseedFn)
      ensures r == IntOfBits(Output(seed) as int % TWO_32)
    {
      var x := NextLong();
      r := IntOfBits(x as int % TWO_32);
    }

    /** nextInt(i): Math.abs of the remainder of the low int by i, a value in
        [0, |i|); i = 0 is an ArithmeticException, raised after the draw. */
    method NextIntBounded(i: Int) returns (r: Option<Int>)
      requires Valid()
      modifies this
      ensures Valid()
      ensures Current() == NextState(old(Current()), reseedFn)
      ensures r.None? <==> i == 0
      ensures r.Some? ==> 0 <= r.value < Abs(i)
      ensures r.Some? ==> r.value == Abs(JavaRem(IntOfBits(Output(seed) as int % TWO_32), i))
    {
      var x := NextInt();
      if i == 0 {
        return None;
      }
      r := Some(JavaAbsInt(JavaRem(x, i)));
    }

    /** nextBoolean: the lowest bit of one draw. */
    method NextBoolean() returns (b: bool)
      requires Valid()
      modifies this
      ensures Valid()
      ensures Current() == NextState(old(Current()), reseedFn)
      ensures b <==> Output(seed) & 1 == 1
    {
      var x := NextLong();
      b := x & 1 == 1;
    }

    /** nextBytes: one draw for the whole array (the inner loop runs to its
        end), its bytes least significant first; an empty array draws
        nothing. */
    method NextBytes(bytes: array<byte>)
      requires Valid()
      modifies this, bytes
      ensures Valid()
      ensures bytes.Length == 0 ==> Current() == old(Current())
      ensures bytes.Length > 0 ==> Current() == NextState(old(Current()), reseedFn)
      ensures bytes.Length > 0 ==> bytes[..] == LongBytes(Output(seed), bytes.Length)
    {
      var i := 0;
      while i < bytes.Length
        invariant 0 <= i <= bytes.Length && Valid()
        invariant i == 0 ==> Current() == old(Current())
        invariant i > 0 ==> i == bytes.Length && Current() == NextState(old(Current()), reseedFn)
        invariant i > 0 ==> bytes[..] == LongBytes(Output(seed), bytes.Length)
      {
        var next := NextLong();
        i := PutLongBytes(bytes, i, next);
      }
    }
  }
}
