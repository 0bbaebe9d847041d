/** The CRC-32 of ISO 3309 and ITU-T V.42 (java.util.zip.CRC32), as section 8
    of RFC 1952 defines it, and the entry checksum of UnsExt8.crc32, which
    widens the 32-bit CRC of a memory range to 64 bits by putting it in both
    halves. The CRC is defined bit by bit, as the shift register of the
    standard. */
module Crc32 {
  import opened JavaTypes

  /** The CRC-32 polynomial, bit-reversed. */
  const POLY: bv32 := 0xEDB8_8320

  /** One step of the reflected shift register. */
  function BitStep(c: bv32): bv32
  {
    if c & 1 == 1 then POLY ^ (c >> 1) else c >> 1
  }

  /** Eight steps: what one byte does to a register it has been xor-ed into. */
  function Steps8(x: bv32): bv32
  {
    BitStep(BitStep(BitStep(BitStep(BitStep(BitStep(BitStep(BitStep(x))))))))
  }

  /** The register after one more byte. */
  function ByteStep(c: bv32, b: byte): bv32
  {
    Steps8(c ^ (b as bv32))
  }

  /** The register after the bytes of data, first byte first. */
  function Update(c: bv32, data: seq<byte>): bv32
    decreases |data|
  {
    if data == [] then c else Update(ByteStep(c, data[0]), data[1..])
  }

  /** The CRC-32 of data: the register starts all ones and ends inverted
      (update_crc(0, data) in RFC 1952, CRC32.update then getValue in Java). */
  function Crc(data: seq<byte>): bv32
  {
    Update(0xFFFF_FFFF, data) ^ 0xFFFF_FFFF
  }

  /** Updating with a + b is updating with a, then with b: the checksum can be
      computed incrementally. */
  lemma {:induction false} UpdateAppend(c: bv32, a: seq<byte>, b: seq<byte>)
    ensures Update(c, a + b) == Update(Update(c, a), b)
    decreases |a|
  {
    if a != [] {
      assert (a + b)[0] == a[0] && (a + b)[1..] == a[1..] + b;
      UpdateAppend(ByteStep(c, a[0]), a[1..], b);
    } else {
      assert a + b == b;
    }
  }

  /** The 32-bit CRC in both halves of a 64-bit value (h |= h << 32). */
  function Widen(c: bv32): bv64
  {
    var h := c as bv64;
    h | (h << 32)
  }

  /** A value below 2^32 copied into the upper half: both halves hold it, and
      as an unsigned number the result is the value times 2^32 + 1 (a product
      that cannot wrap, as it is at most 2^64 - 1). */
  lemma DuplicateLow(x: bv64)
    requires x >> 32 == 0
    ensures (x | (x << 32)) & 0xFFFF_FFFF == x
  {
  }

  lemma DuplicateHigh(x: bv64)
    requires x >> 32 == 0
    ensures (x | (x << 32)) >> 32 == x
  {
  }

  lemma DuplicateProduct(x: bv64)
    requires x >> 32 == 0
    ensures x | (x << 32) == x * 0x1_0000_0001
  {
  }

  lemma ZeroExtend(c: bv32)
    ensures (c as bv64) >> 32 == 0
  {
  }

  /** The low half of the widened CRC is the CRC. */
  lemma WidenLow(c: bv32)
    ensures Widen(c) & 0xFFFF_FFFF == c as bv64
  {
    ZeroExtend(c);
    DuplicateLow(c as bv64);
  }

  /** The high half of the widened CRC is the CRC. */
  lemma WidenHigh(c: bv32)
    ensures Widen(c) >> 32 == c as bv64
  {
    ZeroExtend(c);
    DuplicateHigh(c as bv64);
  }

  /** As an unsigned 64-bit number, the widened CRC is c * (2^32 + 1). */
  lemma WidenProduct(c: bv32)
    ensures Widen(c) == (c as bv64) * 0x1_0000_0001
  {
    ZeroExtend(c);
    DuplicateProduct(c as bv64);
  }

  /** UnsExt8.crc32: the CRC-32 of the len bytes at address + offset, read
      through a direct buffer over that range, widened into both halves. Memory
      is the sequence of bytes indexed by address; the result depends on the
      bytes of the range alone. */
  function UnsExt8Crc32(memory: seq<byte>, address: int, offset: int, len: int): (h: bv64)
    requires 0 <= len <= INT_MAX
    requires 0 <= address + offset && address + offset + len <= |memory|
    ensures h & 0xFFFF_FFFF == Crc(memory[address + offset..address + offset + len]) as bv64
    ensures h >> 32 == h & 0xFFFF_FFFF
  {
    var c := Crc(memory[address + offset..address + offset + len]);
    WidenLow(c);
    WidenHigh(c);
    Widen(c)
  }

  /** As an unsigned 64-bit number, the checksum is c * (2^32 + 1), where c is
      the CRC of the range. */
  lemma UnsExt8Crc32IsProduct(memory: seq<byte>, address: int, offset: int, len: int)
    requires 0 <= len <= INT_MAX
    requires 0 <= address + offset && address + offset + len <= |memory|
    ensures UnsExt8Crc32(memory, address, offset, len)
         == (Crc(memory[address + offset..address + offset + len]) as bv64) * 0x1_0000_0001
  {
    WidenProduct(Crc(memory[address + offset..address + offset + len]));
  }

  /** The check value of CRC-32: the ASCII digits "123456789". */
  lemma CheckValue()
    ensures Crc([0x31, 0x32, 0x33, 0x34, 0x35, 0x36, 0x37, 0x38, 0x39]) == 0xCBF4_3926
  {
    assert Update(0x340B_C6D9, []) == 0x340B_C6D9;
    assert Update(0x651F_2550, [0x39]) == 0x340B_C6D9;
    assert Update(0xAFFC_9660, [0x38, 0x39]) == 0x340B_C6D9;
    assert Update(0xF68D_2C9E, [0x37, 0x38, 0x39]) == 0x340B_C6D9;
    assert Update(0x340A_C5E3, [0x36, 0x37, 0x38, 0x39]) == 0x340B_C6D9;
    assert Update(0x641C_1F5C, [0x35, 0x36, 0x37, 0x38, 0x39]) == 0x340B_C6D9;
    assert Update(0x77B7_9C2D, [0x34, 0x35, 0x36, 0x37, 0x38, 0x39]) == 0x340B_C6D9;
    assert Update(0xB0AC_BB32, [0x33, 0x34, 0x35, 0x36, 0x37, 0x38, 0x39]) == 0x340B_C6D9;
    assert Update(0x7C23_1048, [0x32, 0x33, 0x34, 0x35, 0x36, 0x37, 0x38, 0x39]) == 0x340B_C6D9;
  }
}
