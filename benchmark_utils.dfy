/** The cache serializers of the benchmark tool (BenchmarkUtils): a byte[]
    serializer that writes a 4-byte length and then the bytes, a Long
    serializer that writes the 8 bytes of the value, and KeySerializer, which
    writes the 8 bytes of a long followed by keyLen zero bytes of padding.

    Each one is modelled twice: as a pure function of the buffer's room (what
    it writes) or of the buffer's remaining bytes (what it reads and how many
    bytes it consumes), and as a method on Nio.ByteBuffer proved to do exactly
    that. ByteBuffer's relative operations throw when the buffer is too small;
    those paths are the Err results here, with whatever was written or consumed
    before the exception left in place. */
module BenchmarkUtils {
  import opened JavaTypes
  import opened Nio

  /** The exceptions the serializers can raise. */
  datatype SerError =
    | BufferOverflow      // a put with too little room
    | BufferUnderflow     // a get with too few bytes left
    | NegativeArraySize   // new byte[n] with n < 0

  datatype Result<T> = Ok(value: T) | Err(error: SerError)

  /** A Java byte[]: at most Integer.MAX_VALUE elements. */
  type ByteArray = s: seq<byte> | |s| <= INT_MAX

  /** What a serializer leaves in a buffer: the bytes written before it
      stopped, and how it ended. */
  datatype Written = Written(bytes: seq<byte>, result: Result<()>)

  /** What a deserializer takes from a buffer: its result and the number of
      bytes consumed before it stopped. */
  datatype Taken<T> = Taken(result: Result<T>, consumed: nat)

  // ---------------------------------------------------------------------------
  // The byte[] serializer

  /** The record of b: its length as an int, then its bytes. */
  function EncodeBytes(b: ByteArray): (s: seq<byte>)
    ensures |s| == 4 + |b| && s[4..] == b
  {
    EncodeInt(|b|) + b
  }

  /** serializer.serialize into a buffer with `room` bytes remaining: putInt,
      then put of the bytes, each of which overflows on its own. */
  function WriteBytes(b: ByteArray, room: nat): (w: Written)
    ensures w.result.Ok? <==> 4 + |b| <= room
    ensures w.result.Ok? ==> w.bytes == EncodeBytes(b)
    ensures w.bytes <= EncodeBytes(b) && |w.bytes| <= room
  {
    if room < 4 then Written([], Err(BufferOverflow))
    else if room - 4 < |b| then Written(EncodeInt(|b|), Err(BufferOverflow))
    else Written(EncodeBytes(b), Ok(()))
  }

  /** serializer.deserialize from the bytes s remaining in a buffer: getInt,
      new byte[n], get of n bytes. */
  function ReadBytes(s: seq<byte>): (t: Taken<ByteArray>)
    ensures t.consumed <= |s|
    ensures t.result.Ok? ==> t.consumed == 4 + |t.result.value| && t.result.value == s[4..t.consumed]
    ensures t.result == Err(NegativeArraySize) <==> |s| >= 4 && DecodeInt(s) < 0
    ensures t.result == Err(BufferUnderflow) <==> |s| < 4 || (0 <= DecodeInt(s) && |s| - 4 < DecodeInt(s))
    ensures t.result.Ok? <==> |s| >= 4 && 0 <= DecodeInt(s) <= |s| - 4
    ensures t.result.Ok? ==> |t.result.value| == DecodeInt(s)
  {
    if |s| < 4 then Taken(Err(BufferUnderflow), 0)
    else
      var n := DecodeInt(s);
      if n < 0 then Taken(Err(NegativeArraySize), 4)
      else if |s| - 4 < n then Taken(Err(BufferUnderflow), 4)
      else Taken(Ok(s[4..4 + n]), 4 + n)
  }

  /** serializer.serializedSize: the length plus 4, in int arithmetic. */
  function BytesSerializedSize(b: ByteArray): (n: Int)
    ensures |b| <= INT_MAX - 4 ==> n == |EncodeBytes(b)|
    ensures |b| > INT_MAX - 4 ==> n < 0
  {
    Wrap32(|b| + 4)
  }

  /** Reading a record back gives the array it was written from, and consumes
      exactly the record, whatever follows it. */
  lemma BytesRoundTrip(b: ByteArray, rest: seq<byte>)
    ensures ReadBytes(EncodeBytes(b) + rest) == Taken(Ok(b), |EncodeBytes(b)|)
  {
    var s := EncodeBytes(b) + rest;
    ConcatAssoc(EncodeInt(|b|), b, rest);
    IntRoundTrip(|b|, b + rest);
    assert s[4..4 + |b|] == b;
  }

  /** A buffer of serializedSize bytes is exactly big enough. */
  lemma BytesSizeFits(b: ByteArray, room: nat)
    requires |b| <= INT_MAX - 4
    ensures WriteBytes(b, room).result.Ok? <==> room >= BytesSerializedSize(b)
    ensures WriteBytes(b, BytesSerializedSize(b)).bytes == EncodeBytes(b)
  {
  }

  /** The records of several arrays, back to back. */
  function EncodeAll(xs: seq<ByteArray>): (s: seq<byte>)
  {
    if xs == [] then [] else EncodeBytes(xs[0]) + EncodeAll(xs[1..])
  }

  /** n records read one after another, each deserialize starting where the
      previous one stopped. */
  function ReadMany(s: seq<byte>, n: nat): Result<seq<ByteArray>>
    decreases n
  {
    if n == 0 then Ok([])
    else
      var t := ReadBytes(s);
      if t.result.Err? then Err(t.result.error)
      else
        match ReadMany(s[t.consumed..], n - 1)
        case Err(e) => Err(e)
        case Ok(more) => Ok([t.result.value] + more)
  }

  /** A record in front of records that decode: one more decodes. */
  lemma ReadManyStep(x: ByteArray, tail: seq<byte>, n: nat, more: seq<ByteArray>)
    requires ReadMany(tail, n) == Ok(more)
    ensures ReadMany(EncodeBytes(x) + tail, n + 1) == Ok([x] + more)
  {
    var s := EncodeBytes(x) + tail;
    BytesRoundTrip(x, tail);
    assert s[|EncodeBytes(x)|..] == tail;
  }

  /** Records written back to back decode in sequence. */
  lemma {:induction false} ReadManyEncodeAll(xs: seq<ByteArray>, rest: seq<byte>)
    ensures ReadMany(EncodeAll(xs) + rest, |xs|) == Ok(xs)
  {
    if xs != [] {
      var tail := EncodeAll(xs[1..]) + rest;
      ReadManyEncodeAll(xs[1..], rest);
      assert EncodeAll(xs) + rest == EncodeBytes(xs[0]) + tail;
      ReadManyStep(xs[0], tail, |xs| - 1, xs[1..]);
      assert [xs[0]] + xs[1..] == xs;
    }
  }

  /** serializer.serialize on a buffer. */
  method SerializeBytes(b: ByteArray, buf: ByteBuffer) returns (r: Result<()>)
    requires buf.Valid()
    modifies buf, buf.data
    ensures buf.Valid() && buf.limit == old(buf.limit)
    ensures var w := WriteBytes(b, old(buf.Remaining()));
      && r == w.result
      && buf.position == old(buf.position) + |w.bytes|
      && buf.data[..] == Splice(old(buf.data[..]), buf.offset + old(buf.position), w.bytes)
  {
    ghost var d0, at := buf.data[..], buf.offset + buf.position;
    if buf.Remaining() < 4 {
      SpliceEmpty(d0, at);
      return Err(BufferOverflow);
    }
    buf.PutInt(|b|);
    if buf.Remaining() < |b| {
      return Err(BufferOverflow);
    }
    buf.Put(b);
    SpliceAppend(d0, at, EncodeInt(|b|), b);
    r := Ok(());
  }

  /** serializer.deserialize on a buffer. */
  method DeserializeBytes(buf: ByteBuffer) returns (r: Result<ByteArray>)
    requires buf.Valid()
    modifies buf
    ensures buf.Valid() && buf.limit == old(buf.limit)
    ensures var t := ReadBytes(old(buf.RemainingBytes()));
      r == t.result && buf.position == old(buf.position) + t.consumed
  {
    if buf.Remaining() < 4 {
      return Err(BufferUnderflow);
    }
    ghost var s0 := buf.RemainingBytes();
    var n := buf.GetInt();
    if n < 0 {
      return Err(NegativeArraySize);
    }
    if buf.Remaining() < n {
      return Err(BufferUnderflow);
    }
    assert buf.RemainingBytes() == s0[4..];
    var bytes: ByteArray := buf.Get(n);
    assert bytes == s0[4..4 + n];
    r := Ok(bytes);
  }

  // ---------------------------------------------------------------------------
  // The Long serializer

  /** longSerializer.serialize into a buffer with `room` bytes remaining. */
  function WriteLong(v: Long, room: nat): (w: Written)
    ensures w.result.Ok? <==> 8 <= room
    ensures w.result.Ok? ==> w.bytes == EncodeLong(v)
    ensures w.result.Err? ==> w.bytes == []
  {
    if room < 8 then Written([], Err(BufferOverflow)) else Written(EncodeLong(v), Ok(()))
  }

  /** longSerializer.deserialize from the bytes remaining in a buffer. */
  function ReadLong(s: seq<byte>): (t: Taken<Long>)
    ensures t.result.Ok? <==> |s| >= 8
    ensures t.result.Ok? ==> t.consumed == 8 && t.result.value == DecodeLong(s)
    ensures t.result.Err? ==> t.consumed == 0
  {
    if |s| < 8 then Taken(Err(BufferUnderflow), 0) else Taken(Ok(DecodeLong(s)), 8)
  }

  /** longSerializer.serializedSize. */
  function LongSerializedSize(v: Long): (n: Int)
    ensures n == |EncodeLong(v)|
  {
    8
  }

  /** A long read back is the long written, and exactly its 8 bytes are
      consumed. */
  lemma LongRoundTripThroughBuffer(v: Long, room: nat, rest: seq<byte>)
    requires room >= LongSerializedSize(v)
    ensures WriteLong(v, room).result.Ok?
    ensures ReadLong(WriteLong(v, room).bytes + rest) == Taken(Ok(v), LongSerializedSize(v))
  {
    LongRoundTrip(v, rest);
  }

  /** longSerializer.serialize on a buffer. */
  method SerializeLong(v: Long, buf: ByteBuffer) returns (r: Result<()>)
    requires buf.Valid()
    modifies buf, buf.data
    ensures buf.Valid() && buf.limit == old(buf.limit)
    ensures var w := WriteLong(v, old(buf.Remaining()));
      && r == w.result
      && buf.position == old(buf.position) + |w.bytes|
      && buf.data[..] == Splice(old(buf.data[..]), buf.offset + old(buf.position), w.bytes)
  {
    if buf.Remaining() < 8 {
      SpliceEmpty(buf.data[..], buf.offset + buf.position);
      return Err(BufferOverflow);
    }
    buf.PutLong(v);
    r := Ok(());
  }

  /** longSerializer.deserialize on a buffer. */
  method DeserializeLong(buf: ByteBuffer) returns (r: Result<Long>)
    requires buf.Valid()
    modifies buf
    ensures buf.Valid() && buf.limit == old(buf.limit)
    ensures var t := ReadLong(old(buf.RemainingBytes()));
      r == t.result && buf.position == old(buf.position) + t.consumed
  {
    if buf.Remaining() < 8 {
      return Err(BufferUnderflow);
    }
    var v := buf.GetLong();
    r := Ok(v);
  }

  // ---------------------------------------------------------------------------
  // KeySerializer

  /** The number of padding bytes the loops of KeySerializer run over: keyLen,
      or none when keyLen is negative. */
  function Padding(keyLen: Int): (n: nat)
    ensures keyLen >= 0 ==> n == keyLen
    ensures keyLen < 0 ==> n == 0
  {
    if keyLen < 0 then 0 else keyLen
  }

  /** The record of a key: the long, then the zero padding. */
  function EncodeKey(v: Long, keyLen: Int): (s: seq<byte>)
    ensures |s| == 8 + Padding(keyLen)
  {
    EncodeLong(v) + Zeros(Padding(keyLen))
  }

  /** KeySerializer.serialize into a buffer with `room` bytes remaining: the
      putLong overflows as a whole, the single-byte puts of the padding one at
      a time, so a short buffer is filled with as much padding as fits. */
  function WriteKey(v: Long, keyLen: Int, room: nat): (w: Written)
    ensures w.result.Ok? <==> |EncodeKey(v, keyLen)| <= room
    ensures w.bytes <= EncodeKey(v, keyLen)
    ensures |w.bytes| == if room < 8 then 0 else if room < |EncodeKey(v, keyLen)| then room else |EncodeKey(v, keyLen)|
  {
    var e := EncodeKey(v, keyLen);
    if room < 8 then Written([], Err(BufferOverflow))
    else if room < |e| then Written(e[..room], Err(BufferOverflow))
    else Written(e, Ok(()))
  }

  /** KeySerializer.deserialize from the bytes s remaining in a buffer: getLong,
      then one get per padding byte; running out during the padding leaves the
      buffer exhausted. */
  function ReadKey(s: seq<byte>, keyLen: Int): (t: Taken<Long>)
    ensures t.consumed <= |s|
    ensures t.result.Ok? <==> |s| >= 8 + Padding(keyLen)
    ensures t.result.Ok? ==> t.consumed == 8 + Padding(keyLen) && t.result.value == DecodeLong(s)
  {
    if |s| < 8 then Taken(Err(BufferUnderflow), 0)
    else if |s| - 8 < Padding(keyLen) then Taken(Err(BufferUnderflow), |s|)
    else Taken(Ok(DecodeLong(s)), 8 + Padding(keyLen))
  }

  /** A key reads back whatever the padding bytes hold, and the whole record,
      padding included, is consumed. */
  lemma KeyIgnoresPadding(v: Long, keyLen: Int, pad: seq<byte>, rest: seq<byte>)
    requires |pad| == Padding(keyLen)
    ensures ReadKey(EncodeLong(v) + pad + rest, keyLen) == Taken(Ok(v), 8 + Padding(keyLen))
  {
    ConcatAssoc(EncodeLong(v), pad, rest);
    LongRoundTrip(v, pad + rest);
  }

  /** What KeySerializer writes into a large enough buffer reads back as the
      same key, consuming exactly what was written. */
  lemma KeyRoundTrip(v: Long, keyLen: Int, room: nat, rest: seq<byte>)
    requires room >= 8 + Padding(keyLen)
    ensures WriteKey(v, keyLen, room).result.Ok?
    ensures ReadKey(WriteKey(v, keyLen, room).bytes + rest, keyLen) == Taken(Ok(v), |WriteKey(v, keyLen, room).bytes|)
  {
    KeyIgnoresPadding(v, keyLen, Zeros(Padding(keyLen)), rest);
  }

  /** The padding loop of KeySerializer.serialize: count single-byte puts of
      zero, the first one that finds no room overflowing. */
  method PutZeros(buf: ByteBuffer, count: Int) returns (r: Result<()>)
    requires buf.Valid()
    modifies buf, buf.data
    ensures buf.Valid() && buf.limit == old(buf.limit)
    ensures r == if Padding(count) <= old(buf.Remaining()) then Ok(()) else Err(BufferOverflow)
    ensures var k := if r.Ok? then Padding(count) else old(buf.Remaining());
      && buf.position == old(buf.position) + k
      && buf.data[..] == Splice(old(buf.data[..]), buf.offset + old(buf.position), Zeros(k))
  {
    ghost var d0, at := buf.data[..], buf.offset + buf.position;
    var i := 0;
    SpliceEmpty(d0, at);
    assert Zeros(0) == [];
    while i < count
      invariant 0 <= i <= Padding(count) && i <= old(buf.Remaining())
      invariant buf.Valid() && buf.limit == old(buf.limit)
      invariant buf.position == old(buf.position) + i
      invariant buf.data[..] == Splice(d0, at, Zeros(i))
    {
      if buf.Remaining() < 1 {
        return Err(BufferOverflow);
      }
      buf.Put([0]);
      SpliceAppend(d0, at, Zeros(i), [0]);
      assert Zeros(i) + [0] == Zeros(i + 1);
      i := i + 1;
    }
    r := Ok(());
  }

  class KeySerializer {
    const keyLen: Int

    constructor (keyLen: Int)
      ensures this.keyLen == keyLen
    {
      this.keyLen := keyLen;
    }

    /** serializedSize: 8 + keyLen in int arithmetic; the bytes written when
        keyLen is not negative (and the sum does not overflow). */
    function SerializedSize(v: Long): (n: Int)
      ensures 0 <= keyLen <= INT_MAX - 8 ==> n == |EncodeKey(v, keyLen)|
      ensures keyLen < 0 ==> n < |EncodeKey(v, keyLen)|
    {
      Wrap32(8 + keyLen)
    }

    /** serialize on a buffer. */
    method Serialize(v: Long, buf: ByteBuffer) returns (r: Result<()>)
      requires buf.Valid()
      modifies buf, buf.data
      ensures buf.Valid() && buf.limit == old(buf.limit)
      ensures var w := WriteKey(v, keyLen, old(buf.Remaining()));
        && r == w.result
        && buf.position == old(buf.position) + |w.bytes|
        && buf.data[..] == Splice(old(buf.data[..]), buf.offset + old(buf.position), w.bytes)
    {
      ghost var d0, at, room := buf.data[..], buf.offset + buf.position, buf.Remaining();
      ghost var e := EncodeKey(v, keyLen);
      if buf.Remaining() < 8 {
        SpliceEmpty(d0, at);
        return Err(BufferOverflow);
      }
      buf.PutLong(v);
      var padded := PutZeros(buf, keyLen);
      ghost var k := buf.position - old(buf.position) - 8;
      SpliceAppend(d0, at, EncodeLong(v), Zeros(k));
      assert EncodeLong(v) + Zeros(k) == e[..8 + k];
      assert padded.Ok? ==> e[..8 + k] == e;
      r := padded;
    }

    /** deserialize on a buffer. */
    method Deserialize(buf: ByteBuffer) returns (r: Result<Long>)
      requires buf.Valid()
      modifies buf
      ensures buf.Valid() && buf.limit == old(buf.limit)
      ensures var t := ReadKey(old(buf.RemainingBytes()), keyLen);
        r == t.result && buf.position == old(buf.position) + t.consumed
    {
      if buf.Remaining() < 8 {
        return Err(BufferUnderflow);
      }
      var v := buf.GetLong();
      var i := 0;
      while i < keyLen
        invariant 0 <= i <= Padding(keyLen)
        invariant buf.Valid() && buf.limit == old(buf.limit)
        invariant buf.position == old(buf.position) + 8 + i
      {
        if buf.Remaining() < 1 {
          return Err(BufferUnderflow);
        }
        var _ := buf.Get(1);
        i := i + 1;
      }
      r := Ok(v);
    }
  }
}
