/** java.nio.ByteBuffer as the modelled code uses it: a window over a region of
    bytes with a position and a limit, relative get/put operations that advance
    the position, and absolute getInt. Several buffers may be windows over the
    same array (the off-heap region behind a direct buffer), so the bytes live in
    the shared `data` array and each buffer adds its own offset. Byte order is
    big-endian, the default of ByteBuffer and the order Uns.directBufferFor sets. */
module Nio {
  import opened JavaTypes

  class ByteBuffer {
    /** The region the window lies in. */
    const data: array<byte>
    /** Where index 0 of this buffer lies in `data`. */
    const offset: nat
    const capacity: nat
    var position: nat
    var limit: nat

    ghost predicate Valid()
      reads this
    {
      offset + capacity <= data.Length && position <= limit <= capacity
    }

    function Remaining(): nat
      reads this
      requires Valid()
    {
      limit - position
    }

    /** The bytes between position and limit, the ones a relative get returns next. */
    function RemainingBytes(): (s: seq<byte>)
      reads this, data
      requires Valid()
      ensures |s| == Remaining()
    {
      data[offset + position .. offset + limit]
    }

    /** A buffer of the given capacity over data[offset ..], position 0 and
        limit = capacity, as a freshly created direct buffer. */
    constructor View(data: array<byte>, offset: nat, capacity: nat)
      requires offset + capacity <= data.Length
      ensures Valid()
      ensures this.data == data && this.offset == offset && this.capacity == capacity
      ensures position == 0 && limit == capacity
    {
      this.data := data;
      this.offset := offset;
      this.capacity := capacity;
      this.position := 0;
      this.limit := capacity;
    }

    /** Buffer.clear: position 0, limit = capacity; the bytes are untouched. */
    method Clear()
      requires Valid()
      modifies this
      ensures Valid() && position == 0 && limit == capacity
    {
      position := 0;
      limit := capacity;
    }

    /** Buffer.flip: the limit becomes the position and the position 0. */
    method Flip()
      requires Valid()
      modifies this
      ensures Valid() && limit == old(position) && position == 0
    {
      limit := position;
      position := 0;
    }

    /** Buffer.position(p); Java rejects p > limit with IllegalArgumentException. */
    method SetPosition(p: nat)
      requires Valid() && p <= limit
      modifies this
      ensures Valid() && position == p && limit == old(limit)
    {
      position := p;
    }

    /** Buffer.limit(l); Java rejects l > capacity with IllegalArgumentException
        and moves a position beyond the new limit back to it. */
    method SetLimit(l: nat)
      requires Valid() && l <= capacity
      modifies this
      ensures Valid() && limit == l
      ensures position == if old(position) > l then l else old(position)
    {
      limit := l;
      if position > l {
        position := l;
      }
    }

    /** Relative bulk put: src is written at the position, which advances past it. */
    method Put(src: seq<byte>)
      requires Valid() && |src| <= Remaining()
      modifies this, data
      ensures Valid() && limit == old(limit) && position == old(position) + |src|
      ensures data[..] == Splice(old(data[..]), offset + old(position), src)
    {
      ghost var d0 := data[..];
      var at := offset + position;
      var i := 0;
      while i < |src|
        modifies data
        invariant 0 <= i <= |src|
        invariant data[..] == Splice(d0, at, src[..i])
      {
        data[at + i] := src[i];
        i := i + 1;
        assert src[..i] == src[..i - 1] + [src[i - 1]];
      }
      assert src[..i] == src;
      position := position + |src|;
    }

    /** Relative bulk get of n bytes. */
    method Get(n: nat) returns (s: seq<byte>)
      requires Valid() && n <= Remaining()
      modifies this
      ensures Valid() && limit == old(limit) && position == old(position) + n
      ensures s == old(RemainingBytes())[..n]
    {
      s := data[offset + position .. offset + position + n];
      position := position + n;
    }

    /** Relative putInt. */
    method PutInt(x: Int)
      requires Valid() && 4 <= Remaining()
      modifies this, data
      ensures Valid() && limit == old(limit) && position == old(position) + 4
      ensures data[..] == Splice(old(data[..]), offset + old(position), EncodeInt(x))
    {
      Put(EncodeInt(x));
    }

    /** Relative putLong. */
    method PutLong(x: Long)
      requires Valid() && 8 <= Remaining()
      modifies this, data
      ensures Valid() && limit == old(limit) && position == old(position) + 8
      ensures data[..] == Splice(old(data[..]), offset + old(position), EncodeLong(x))
    {
      Put(EncodeLong(x));
    }

    /** Relative getInt. */
    method GetInt() returns (x: Int)
      requires Valid() && 4 <= Remaining()
      modifies this
      ensures Valid() && limit == old(limit) && position == old(position) + 4
      ensures x == DecodeInt(old(RemainingBytes()))
      ensures RemainingBytes() == old(RemainingBytes())[4..]
    {
      var s := Get(4);
      x := DecodeInt(s);
    }

    /** Relative getLong. */
    method GetLong() returns (x: Long)
      requires Valid() && 8 <= Remaining()
      modifies this
      ensures Valid() && limit == old(limit) && position == old(position) + 8
      ensures x == DecodeLong(old(RemainingBytes()))
    {
      var s := Get(8);
      x := DecodeLong(s);
    }

    /** Absolute getInt(index); the position does not move. */
    method GetIntAt(index: nat) returns (x: Int)
      requires Valid() && index + 4 <= limit
      ensures x == DecodeInt(data[offset + index .. offset + limit])
    {
      x := DecodeInt(data[offset + index .. offset + index + 4]);
    }
  }
}
