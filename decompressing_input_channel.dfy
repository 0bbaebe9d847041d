/** The reader of a compressed snapshot stream (DecompressingInputChannel).

    Wire format: a 16-byte header of four big-endian ints (magic, version,
    block size, maximum compressed block length), then blocks, each a 4-byte
    big-endian length followed by that many bytes of Snappy-compressed data.
    The stream ends where a length prefix cannot be read in full.

    The channel owns one off-heap region of maxCLen + bufferSize bytes: the
    compressed window is its first maxCLen bytes, the decompressed window the
    bufferSize bytes after them. A read hands out bytes of the current
    decompressed block and fetches the next block only when none are left.

    Collaborators that are not part of this model enter as parameters: the
    delegate channel is the byte sequence it still has to deliver; Snappy is a
    pair of functions; the magic numbers of the header are a pair of values;
    the off-heap memory comes from an Alloc.Allocator. */
module DecompressingChannel {
  import opened JavaTypes
  import opened Nio
  import opened Alloc

  /** The exceptions the channel raises. */
  datatype ChannelError =
    | HeaderEof              // EOFException "Could not read file header"
    | WrongArchitecture      // IOException: file from a CPU with the other byte order
    | IllegalHeader          // IOException "Illegal file header"
    | IllegalVersion         // IOException "Illegal file version"
    | AllocationFailed       // IOException: the off-heap allocation failed
    | IllegalLength          // IllegalArgumentException: a negative or too large buffer length
    | UnexpectedEof          // EOFException "unexpected EOF"
    | InvalidCompressedData  // IOException "Invalid compressed data"
    | UncompressedTooLarge   // Snappy: the block does not fit the decompressed window
    | Closed                 // NullPointerException: read after close

  datatype Result<T> = Ok(value: T) | Err(error: ChannelError)

  /** The header's magic numbers: the one this architecture writes, and the one
      the same header reads as when it was written with the other byte order. */
  datatype Magic = Magic(compressed: Int, compressedWrong: Int)

  /** Snappy: the validity test on a compressed block, and its decompression. */
  datatype Codec = Codec(isValidCompressedBuffer: seq<byte> -> bool, uncompress: seq<byte> -> seq<byte>)

  /** The two sizes a valid header declares. */
  datatype Header = Header(bufferSize: Int, maxCLen: Int)

  const HEADER_SIZE: nat := 16
  const VERSION: Int := 1

  // ---------------------------------------------------------------------------
  // The header

  /** What the constructor makes of the first 16 bytes of the stream: the
      checks of magic and version, in the order the source makes them. */
  function ParseHeader(input: seq<byte>, magic: Magic): (r: Result<Header>)
    ensures r.Ok? ==> |input| >= HEADER_SIZE && DecodeInt(input) == magic.compressed
    ensures r.Ok? ==> r.value == Header(DecodeInt(input[8..]), DecodeInt(input[12..]))
  {
    if |input| < HEADER_SIZE then Err(HeaderEof)
    else if DecodeInt(input) == magic.compressedWrong then Err(WrongArchitecture)
    else if DecodeInt(input) != magic.compressed then Err(IllegalHeader)
    else if DecodeInt(input[4..]) != VERSION then Err(IllegalVersion)
    else Ok(Header(DecodeInt(input[8..]), DecodeInt(input[12..])))
  }

  /** The header a writer puts in front of the blocks. */
  function EncodeHeader(magic: Magic, h: Header): (s: seq<byte>)
    ensures |s| == HEADER_SIZE
  {
    EncodeInt(magic.compressed) + EncodeInt(VERSION) + EncodeInt(h.bufferSize) + EncodeInt(h.maxCLen)
  }

  /** A header written by this architecture is read back as written. */
  lemma {:induction false} HeaderRoundTrip(magic: Magic, h: Header, rest: seq<byte>)
    requires magic.compressed != magic.compressedWrong
    ensures ParseHeader(EncodeHeader(magic, h) + rest, magic) == Ok(h)
  {
    HeaderFields(magic, h, rest);
  }

  /** The four ints of a written header, read back one by one. */
  lemma {:induction false} HeaderFields(magic: Magic, h: Header, rest: seq<byte>)
    ensures var s := EncodeHeader(magic, h) + rest;
      |s| >= HEADER_SIZE && DecodeInt(s) == magic.compressed && DecodeInt(s[4..]) == VERSION
      && DecodeInt(s[8..]) == h.bufferSize && DecodeInt(s[12..]) == h.maxCLen
  {
    var t3 := EncodeInt(h.maxCLen) + rest;
    var t2 := EncodeInt(h.bufferSize) + t3;
    var t1 := EncodeInt(VERSION) + t2;
    var s := EncodeInt(magic.compressed) + t1;
    assert EncodeHeader(magic, h) + rest == s by {
      var a, b, c, d := EncodeInt(magic.compressed), EncodeInt(VERSION), EncodeInt(h.bufferSize), EncodeInt(h.maxCLen);
      ConcatAssoc(a + b + c, d, rest);
      ConcatAssoc(a + b, c, d + rest);
      ConcatAssoc(a, b, c + (d + rest));
    }
    DropInt(magic.compressed, t1);
    DropInt(VERSION, t2);
    DropInt(h.bufferSize, t3);
    DropInt(h.maxCLen, rest);
    assert s[8..] == t2 by { assert s[8..] == s[4..][4..]; }
    assert s[12..] == t3 by { assert s[12..] == s[8..][4..]; }
  }

  /** getInt on four bytes written by putInt, and what follows them. */
  lemma DropInt(x: Int, tail: seq<byte>)
    ensures DecodeInt(EncodeInt(x) + tail) == x && (EncodeInt(x) + tail)[4..] == tail
  {
    IntRoundTrip(x, tail);
  }

  /** The byte-swapped sentinel is recognised before anything else is looked at:
      whatever the version and sizes say, such a header fails as "different CPU
      architecture", even when the sentinel equals the expected magic. */
  lemma WrongArchitectureFirst(input: seq<byte>, magic: Magic)
    requires |input| >= HEADER_SIZE && DecodeInt(input) == magic.compressedWrong
    ensures ParseHeader(input, magic) == Err(WrongArchitecture)
  {
  }

  /** A wrong magic or a wrong version rejects the header before the sizes are
      read: the outcome of a failing header does not depend on bytes 8..16 or on
      anything after the header. */
  lemma {:induction false} HeaderErrorsIgnoreSizes(input: seq<byte>, other: seq<byte>, magic: Magic)
    requires |input| >= HEADER_SIZE && |other| >= HEADER_SIZE && input[..8] == other[..8]
    requires ParseHeader(input, magic).Err?
    ensures ParseHeader(other, magic) == ParseHeader(input, magic)
  {
    assert input[..8][..4] == input[..4] && other[..8][..4] == other[..4];
    assert input[..4] == other[..4];
    assert input[4..][..4] == input[..8][4..] && other[4..][..4] == other[..8][4..];
    assert input[4..][..4] == other[4..][..4];
    DecodeIntPrefix(input, other);
    DecodeIntPrefix(input[4..], other[4..]);
  }

  /** getInt reads four bytes and no more. */
  lemma DecodeIntPrefix(a: seq<byte>, b: seq<byte>)
    requires |a| >= 4 && |b| >= 4 && a[..4] == b[..4]
    ensures DecodeInt(a) == DecodeInt(b)
  {
    assert a[0] == a[..4][0] && a[1] == a[..4][1] && a[2] == a[..4][2] && a[3] == a[..4][3];
    assert b[0] == b[..4][0] && b[1] == b[..4][1] && b[2] == b[..4][2] && b[3] == b[..4][3];
    DecodeU32Bytes(a, b);
  }

  /** The header is the first 16 bytes: what follows them does not matter. */
  lemma HeaderPrefix(input: seq<byte>, magic: Magic)
    requires |input| >= HEADER_SIZE
    ensures ParseHeader(input, magic) == ParseHeader(input[..HEADER_SIZE], magic)
  {
    var h := input[..HEADER_SIZE];
    assert input[..4] == h[..4];
    DecodeIntPrefix(input, h);
    assert input[4..][..4] == h[4..][..4];
    DecodeIntPrefix(input[4..], h[4..]);
    assert input[8..][..4] == h[8..][..4];
    DecodeIntPrefix(input[8..], h[8..]);
    assert input[12..][..4] == h[12..][..4];
    DecodeIntPrefix(input[12..], h[12..]);
  }

  /** A header that fails names the first failed check: too short, the
      byte-swapped sentinel, another magic, a version other than 1. */
  lemma ParseHeaderErrors(input: seq<byte>, magic: Magic)
    ensures ParseHeader(input, magic) == Err(HeaderEof) <==> |input| < HEADER_SIZE
    ensures ParseHeader(input, magic) == Err(IllegalHeader) <==>
      |input| >= HEADER_SIZE && DecodeInt(input) != magic.compressedWrong && DecodeInt(input) != magic.compressed
    ensures ParseHeader(input, magic) == Err(IllegalVersion) <==>
      |input| >= HEADER_SIZE && DecodeInt(input) != magic.compressedWrong && DecodeInt(input) == magic.compressed
      && DecodeInt(input[4..]) != VERSION
  {
  }

  // ---------------------------------------------------------------------------
  // Blocks

  /** The outcome of fetching one block: the decompressed bytes, the end of the
      stream, or an error; `rest` is what the delegate has left afterwards. */
  datatype Fetch =
    | Block(bytes: seq<byte>, rest: seq<byte>)
    | EndOfStream(rest: seq<byte>)
    | Failed(error: ChannelError, rest: seq<byte>)

  /** What `read` does when no decompressed bytes remain: read the 4-byte length
      into the compressed window (a prefix the delegate cannot deliver in full is
      the end of the stream), read that many bytes (a shorter block is an
      unexpected EOF), check the block, decompress it into the decompressed window.
      A length the compressed window cannot hold is refused by the buffer's limit. */
  function FetchBlock(input: seq<byte>, maxCLen: nat, bufferSize: nat, codec: Codec): (f: Fetch)
    ensures f.EndOfStream? <==> maxCLen >= 4 && |input| < 4
    ensures f.Block? ==> |f.bytes| <= bufferSize
    ensures f.Block? ==> |input| >= 4 && 0 <= DecodeInt(input) <= maxCLen && |input| >= 4 + DecodeInt(input)
    ensures f.Block? ==> f.rest == input[4 + DecodeInt(input)..]
    ensures f.Block? ==> f.bytes == codec.uncompress(input[4..4 + DecodeInt(input)])
    ensures |f.rest| <= |input|
  {
    if maxCLen < 4 then Failed(IllegalLength, input)
    else if |input| < 4 then EndOfStream([])
    else
      var n := if 0 <= DecodeInt(input) <= |input| - 4 then DecodeInt(input) else 0;
      DropTake(input, 4, n);
      FetchBody(DecodeInt(input), input[4..], maxCLen, bufferSize, codec)
  }

  /** The second half of a fetch, once the length cLen has been read and `rest`
      is what the delegate has left: a length the compressed window cannot
      hold is refused, a block the delegate cannot deliver in full is an
      unexpected EOF, and a complete block is checked and decompressed. */
  function FetchBody(cLen: Int, rest: seq<byte>, maxCLen: nat, bufferSize: nat, codec: Codec): (f: Fetch)
    ensures !f.EndOfStream?
    ensures f.Block? ==> |f.bytes| <= bufferSize
    ensures f.Block? ==> 0 <= cLen <= maxCLen && cLen <= |rest|
    ensures f.Block? ==> f.rest == rest[cLen..] && f.bytes == codec.uncompress(rest[..cLen])
    ensures |f.rest| <= |rest|
  {
    if cLen < 0 || cLen > maxCLen then Failed(IllegalLength, rest)
    else if |rest| < cLen then Failed(UnexpectedEof, [])
    else DecodeBlock(rest[..cLen], rest[cLen..], bufferSize, codec)
  }

  /** The check and decompression of one complete compressed block, with
      `rest` the delegate's bytes after it: Snappy's validity test comes first,
      and a block whose output does not fit the decompressed window fails. */
  function DecodeBlock(block: seq<byte>, rest: seq<byte>, bufferSize: nat, codec: Codec): (f: Fetch)
    ensures !f.EndOfStream? && f.rest == rest
    ensures f.Block? <==> codec.isValidCompressedBuffer(block) && |codec.uncompress(block)| <= bufferSize
    ensures f.Block? ==> f.bytes == codec.uncompress(block)
  {
    if !codec.isValidCompressedBuffer(block) then Failed(InvalidCompressedData, rest)
    else
      var out := codec.uncompress(block);
      if |out| > bufferSize then Failed(UncompressedTooLarge, rest)
      else Block(out, rest)
  }

  /** The n bytes after the first i, and what follows them, read from the
      suffix that starts at i. */
  lemma DropTake(s: seq<byte>, i: nat, n: nat)
    requires i + n <= |s|
    ensures s[i..][..n] == s[i..i + n] && s[i..][n..] == s[i + n..]
  {
  }

  /** The fetch before a length is read: a window too small for a length, or
      fewer than four bytes left. */
  lemma FetchShortCases(input: seq<byte>, maxCLen: nat, bufferSize: nat, codec: Codec)
    ensures maxCLen < 4 ==> FetchBlock(input, maxCLen, bufferSize, codec) == Failed(IllegalLength, input)
    ensures maxCLen >= 4 && |input| < 4 ==> FetchBlock(input, maxCLen, bufferSize, codec) == EndOfStream([])
  {
  }

  /** The three outcomes of the length prefix, once four bytes could be read. */
  lemma FetchLengthCases(input: seq<byte>, maxCLen: nat, bufferSize: nat, codec: Codec)
    requires maxCLen >= 4 && |input| >= 4
    ensures var c := DecodeInt(input);
      && (c < 0 || c > maxCLen ==> FetchBlock(input, maxCLen, bufferSize, codec) == Failed(IllegalLength, input[4..]))
      && (0 <= c <= maxCLen && |input| < 4 + c ==> FetchBlock(input, maxCLen, bufferSize, codec) == Failed(UnexpectedEof, []))
      && (0 <= c <= maxCLen && |input| >= 4 + c ==>
            FetchBlock(input, maxCLen, bufferSize, codec) == DecodeBlock(input[4..4 + c], input[4 + c..], bufferSize, codec))
  {
    var c := DecodeInt(input);
    if 0 <= c <= |input| - 4 {
      DropTake(input, 4, c);
    }
  }

  /** A block that Snappy rejects is never decompressed: the outcome is the
      same whatever the decompressor would have produced. */
  lemma InvalidBlockNotDecompressed(input: seq<byte>, maxCLen: nat, bufferSize: nat, codec: Codec,
                                    other: seq<byte> -> seq<byte>)
    requires maxCLen >= 4 && |input| >= 4
    requires 0 <= DecodeInt(input) <= maxCLen && |input| >= 4 + DecodeInt(input)
    requires !codec.isValidCompressedBuffer(input[4..4 + DecodeInt(input)])
    ensures FetchBlock(input, maxCLen, bufferSize, codec) == Failed(InvalidCompressedData, input[4 + DecodeInt(input)..])
    ensures FetchBlock(input, maxCLen, bufferSize, Codec(codec.isValidCompressedBuffer, other))
         == FetchBlock(input, maxCLen, bufferSize, codec)
  {
    FetchLengthCases(input, maxCLen, bufferSize, codec);
    FetchLengthCases(input, maxCLen, bufferSize, Codec(codec.isValidCompressedBuffer, other));
  }

  /** Framing, as a writer lays out one compressed block. */
  function Frame(c: seq<byte>): (s: seq<byte>)
    requires |c| <= INT_MAX
    ensures |s| == 4 + |c|
  {
    EncodeInt(|c|) + c
  }

  /** A block framed by its length is fetched back and decompressed, and the
      bytes after it are left for the next fetch. */
  lemma {:induction false} FetchFramed(c: seq<byte>, rest: seq<byte>, maxCLen: nat, bufferSize: nat, codec: Codec)
    requires 4 <= maxCLen && |c| <= maxCLen && |c| <= INT_MAX
    requires codec.isValidCompressedBuffer(c) && |codec.uncompress(c)| <= bufferSize
    ensures FetchBlock(Frame(c) + rest, maxCLen, bufferSize, codec) == Block(codec.uncompress(c), rest)
  {
    var s := Frame(c) + rest;
    ConcatAssoc(EncodeInt(|c|), c, rest);
    IntRoundTrip(|c|, c + rest);
    assert s[4..4 + |c|] == c;
    assert s[4 + |c|..] == rest;
  }

  /** A length prefix cut short is a clean end of stream, not an error. */
  lemma ShortPrefixIsEndOfStream(input: seq<byte>, maxCLen: nat, bufferSize: nat, codec: Codec)
    requires maxCLen >= 4 && |input| < 4
    ensures FetchBlock(input, maxCLen, bufferSize, codec) == EndOfStream([])
  {
  }

  /** A block shorter than its declared length is an unexpected EOF. */
  lemma ShortBlockIsUnexpectedEof(input: seq<byte>, maxCLen: nat, bufferSize: nat, codec: Codec)
    requires maxCLen >= 4 && |input| >= 4 && 0 <= DecodeInt(input) <= maxCLen
    requires |input| < 4 + DecodeInt(input)
    ensures FetchBlock(input, maxCLen, bufferSize, codec) == Failed(UnexpectedEof, [])
  {
  }

  /** How a stream ends. */
  datatype Status = Eof | Error(error: ChannelError)

  /** The whole decompressed content of a block sequence: the bytes of every
      block fetched before the end of the stream or the first error, and which
      of the two ended it. */
  function DecodeAll(input: seq<byte>, maxCLen: nat, bufferSize: nat, codec: Codec): (seq<byte>, Status)
    decreases |input|
  {
    match FetchBlock(input, maxCLen, bufferSize, codec)
    case EndOfStream(_) => ([], Eof)
    case Failed(e, _) => ([], Error(e))
    case Block(bytes, rest) =>
      var (more, status) := DecodeAll(rest, maxCLen, bufferSize, codec);
      (bytes + more, status)
  }

  /** One step of DecodeAll: the fetched block, then the rest of the stream. */
  lemma DecodeAllUnfold(input: seq<byte>, maxCLen: nat, bufferSize: nat, codec: Codec)
    ensures var f := FetchBlock(input, maxCLen, bufferSize, codec);
      var d := DecodeAll(input, maxCLen, bufferSize, codec);
      && (f.EndOfStream? ==> d == ([], Eof))
      && (f.Failed? ==> d == ([], Error(f.error)))
      && (f.Block? ==> d == (f.bytes + DecodeAll(f.rest, maxCLen, bufferSize, codec).0,
                             DecodeAll(f.rest, maxCLen, bufferSize, codec).1))
  {
  }

  /** The concatenated framing of a sequence of compressed blocks. */
  function Frames(cs: seq<seq<byte>>): seq<byte>
    requires forall i :: 0 <= i < |cs| ==> |cs[i]| <= INT_MAX
  {
    if cs == [] then [] else Frame(cs[0]) + Frames(cs[1..])
  }

  /** Concatenation of the decompressed blocks. */
  function UncompressAll(cs: seq<seq<byte>>, codec: Codec): seq<byte>
  {
    if cs == [] then [] else codec.uncompress(cs[0]) + UncompressAll(cs[1..], codec)
  }

  /** Every block a writer frames within the header's bounds is read back, in
      order, and the stream then ends cleanly. */
  lemma {:induction false} DecodeFramesRoundTrip(cs: seq<seq<byte>>, maxCLen: nat, bufferSize: nat, codec: Codec)
    requires 4 <= maxCLen
    requires forall i :: 0 <= i < |cs| ==> |cs[i]| <= maxCLen && |cs[i]| <= INT_MAX
    requires forall i :: 0 <= i < |cs| ==> codec.isValidCompressedBuffer(cs[i])
    requires forall i :: 0 <= i < |cs| ==> |codec.uncompress(cs[i])| <= bufferSize
    ensures DecodeAll(Frames(cs), maxCLen, bufferSize, codec) == (UncompressAll(cs, codec), Eof)
    decreases |cs|
  {
    if cs == [] {
      assert FetchBlock([], maxCLen, bufferSize, codec) == EndOfStream([]);
    } else {
      FetchFramed(cs[0], Frames(cs[1..]), maxCLen, bufferSize, codec);
      DecodeFramesRoundTrip(cs[1..], maxCLen, bufferSize, codec);
    }
  }

  /** The result of the block fetch inside read for a fetch outcome: true for
      a block, false at the end of the stream, the error otherwise. */
  predicate Reports(r: Result<bool>, f: Fetch)
  {
    match f
    case Block(_, _) => r == Ok(true)
    case EndOfStream(_) => r == Ok(false)
    case Failed(e, _) => r == Err(e)
  }

  /** How many bytes a read hands out: as many as both the destination's room
      and the buffered bytes allow. */
  function ReadCount(dstRemaining: nat, buffered: nat): (n: nat)
    ensures n <= dstRemaining && n <= buffered
    ensures n == dstRemaining || n == buffered
  {
    if dstRemaining < buffered then dstRemaining else buffered
  }

  /** What one call of read does to the channel's observable state: the result,
      the bytes copied to dst, the decompressed bytes still buffered afterwards
      and what the delegate has left. */
  datatype ReadOutcome = ReadOutcome(result: Result<int>, chunk: seq<byte>, buffered: seq<byte>, input: seq<byte>)

  /** read(dst) on an open channel with `buffered` decompressed bytes left, a
      delegate holding `input` and `room` bytes remaining in dst. A block is
      fetched only when nothing is buffered. After an error the content of the
      decompressed window is not part of the outcome. */
  function ReadStep(buffered: seq<byte>, input: seq<byte>, room: nat, maxCLen: nat, bufferSize: nat, codec: Codec)
    : (o: ReadOutcome)
    ensures o.result.Ok? && o.result.value >= 0 ==> o.result.value == |o.chunk| <= room
    ensures |buffered| > 0 ==> o.input == input && o.result.Ok?
    ensures o.result == Ok(-1) ==> o.chunk == [] && buffered == []
    ensures o.result.Err? ==> o.chunk == []
    ensures room > 0 && o.result.Ok? && o.result.value >= 0 ==>
      if |buffered| > 0 then |o.buffered| < |buffered| && o.input == input else |o.input| < |input|
  {
    if |buffered| > 0 then
      var n := ReadCount(room, |buffered|);
      ReadOutcome(Ok(n), buffered[..n], buffered[n..], input)
    else
      match FetchBlock(input, maxCLen, bufferSize, codec)
      case EndOfStream(rest) => ReadOutcome(Ok(-1), [], [], rest)
      case Failed(e, rest) => ReadOutcome(Err(e), [], [], rest)
      case Block(bytes, rest) =>
        var n := ReadCount(room, |bytes|);
        ReadOutcome(Ok(n), bytes[..n], bytes[n..], rest)
  }

  /** A read that does not fail copies exactly min(dst.remaining(), available)
      bytes, where available is what is buffered or, when nothing is, the size
      of the next decompressed block; the copied bytes come first in the stream
      and the rest stays buffered for the next call. */
  lemma ReadStepCount(buffered: seq<byte>, input: seq<byte>, room: nat, maxCLen: nat, bufferSize: nat, codec: Codec)
    ensures var o := ReadStep(buffered, input, room, maxCLen, bufferSize, codec);
      var f := FetchBlock(input, maxCLen, bufferSize, codec);
      && (|buffered| > 0 ==>
            o.result == Ok(ReadCount(room, |buffered|)) && o.chunk + o.buffered == buffered)
      && (|buffered| == 0 && f.Block? ==>
            o.result == Ok(ReadCount(room, |f.bytes|)) && o.chunk + o.buffered == f.bytes)
      && (|buffered| == 0 && f.EndOfStream? <==> o.result == Ok(-1))
  {
    var o := ReadStep(buffered, input, room, maxCLen, bufferSize, codec);
    if |buffered| > 0 {
      assert o.chunk + o.buffered == buffered[..o.result.value] + buffered[o.result.value..];
    } else if FetchBlock(input, maxCLen, bufferSize, codec).Block? {
      var b := FetchBlock(input, maxCLen, bufferSize, codec).bytes;
      assert o.chunk + o.buffered == b[..o.result.value] + b[o.result.value..];
    }
  }

  /** One read keeps the stream in order: what was buffered followed by what
      the delegate still decodes to equals the copied bytes, followed by what is
      buffered and decodable afterwards; the way the stream ends is unchanged. */
  lemma ReadStepInOrder(buffered: seq<byte>, input: seq<byte>, room: nat, maxCLen: nat, bufferSize: nat, codec: Codec)
    ensures var o := ReadStep(buffered, input, room, maxCLen, bufferSize, codec);
      o.result.Ok? && o.result.value >= 0 ==>
        && buffered + DecodeAll(input, maxCLen, bufferSize, codec).0
           == o.chunk + (o.buffered + DecodeAll(o.input, maxCLen, bufferSize, codec).0)
        && DecodeAll(o.input, maxCLen, bufferSize, codec).1 == DecodeAll(input, maxCLen, bufferSize, codec).1
  {
    var o := ReadStep(buffered, input, room, maxCLen, bufferSize, codec);
    if o.result.Ok? && o.result.value >= 0 {
      ReadStepCount(buffered, input, room, maxCLen, bufferSize, codec);
      var d' := DecodeAll(o.input, maxCLen, bufferSize, codec).0;
      if |buffered| > 0 {
        assert o.chunk + o.buffered == buffered;
      } else {
        var f := FetchBlock(input, maxCLen, bufferSize, codec);
        assert f.Block?;
        DecodeAllUnfold(input, maxCLen, bufferSize, codec);
        assert o.chunk + o.buffered == f.bytes;
      }
      ConcatAssoc(o.chunk, o.buffered, d');
    }
  }

  /** A read returns -1 exactly when nothing is buffered and the delegate is at
      the end of the stream; by then every byte of the stream has been read. */
  lemma ReadStepEnd(buffered: seq<byte>, input: seq<byte>, room: nat, maxCLen: nat, bufferSize: nat, codec: Codec)
    ensures var o := ReadStep(buffered, input, room, maxCLen, bufferSize, codec);
      o.result == Ok(-1) ==>
        buffered + DecodeAll(input, maxCLen, bufferSize, codec).0 == [] && DecodeAll(input, maxCLen, bufferSize, codec).1 == Eof
    ensures var o := ReadStep(buffered, input, room, maxCLen, bufferSize, codec);
      o.result.Err? ==> buffered == [] && DecodeAll(input, maxCLen, bufferSize, codec) == ([], Error(o.result.error))
  {
    DecodeAllUnfold(input, maxCLen, bufferSize, codec);
  }

  /** Calling read again and again with a destination of `room` bytes until it
      returns -1 or fails: the bytes handed out, in order, and how it stopped. */
  function ReadToEnd(buffered: seq<byte>, input: seq<byte>, room: nat, maxCLen: nat, bufferSize: nat, codec: Codec)
    : (seq<byte>, Status)
    requires room > 0
    decreases |input|, |buffered|
  {
    var o := ReadStep(buffered, input, room, maxCLen, bufferSize, codec);
    if o.result.Err? then ([], Error(o.result.error))
    else if o.result.value < 0 then ([], Eof)
    else
      var (more, status) := ReadToEnd(o.buffered, o.input, room, maxCLen, bufferSize, codec);
      (o.chunk + more, status)
  }

  /** Whatever the size of the destination, reading until the end hands out
      every decompressed byte of the stream exactly once and in order, and
      stops the way the block sequence ends. */
  lemma {:induction false} ReadToEndDeliversStream(buffered: seq<byte>, input: seq<byte>, room: nat,
                                                   maxCLen: nat, bufferSize: nat, codec: Codec)
    requires room > 0
    ensures ReadToEnd(buffered, input, room, maxCLen, bufferSize, codec)
         == (buffered + DecodeAll(input, maxCLen, bufferSize, codec).0, DecodeAll(input, maxCLen, bufferSize, codec).1)
    decreases |input|, |buffered|
  {
    var o := ReadStep(buffered, input, room, maxCLen, bufferSize, codec);
    ReadStepEnd(buffered, input, room, maxCLen, bufferSize, codec);
    if o.result.Ok? && o.result.value >= 0 {
      ReadStepInOrder(buffered, input, room, maxCLen, bufferSize, codec);
      ReadToEndDeliversStream(o.buffered, o.input, room, maxCLen, bufferSize, codec);
    } else {
      assert ReadToEnd(buffered, input, room, maxCLen, bufferSize, codec)
          == (if o.result.Err? then ([], Error(o.result.error)) else ([], Eof));
      assert buffered + DecodeAll(input, maxCLen, bufferSize, codec).0 == [];
    }
  }

  // ---------------------------------------------------------------------------
  // Util.readFully

  /** Util.readFully, which is not part of this model, over a delegate that has
      `source` left to deliver: reads until the buffer is full or the delegate is
      exhausted, and reports whether the buffer was filled. */
  method ReadFully(source: seq<byte>, buf: ByteBuffer) returns (ok: bool, rest: seq<byte>)
    requires buf.Valid()
    modifies buf, buf.data
    ensures buf.Valid() && buf.limit == old(buf.limit)
    ensures ok <==> |source| >= old(buf.Remaining())
    ensures var n := if ok then old(buf.Remaining()) else |source|;
      && buf.position == old(buf.position) + n
      && buf.data[..] == Splice(old(buf.data[..]), buf.offset + old(buf.position), source[..n])
      && rest == source[n..]
  {
    var n := buf.Remaining();
    ok := |source| >= n;
    if !ok {
      n := |source|;
    }
    buf.Put(source[..n]);
    rest := source[n..];
  }

  // ---------------------------------------------------------------------------
  // The channel

  /** The header check of the constructor, on the 16-byte scratch buffer:
      readFully, then getInt for magic, version, block size and maximum
      compressed length, in that order. */
  method ReadHeader(delegate: seq<byte>, magic: Magic) returns (r: Result<Header>)
    ensures r == ParseHeader(delegate, magic)
  {
    var scratch := new byte[HEADER_SIZE];
    var header := new ByteBuffer.View(scratch, 0, HEADER_SIZE);
    var ok, rest := ReadFully(delegate, header);
    if !ok {
      return Err(HeaderEof);
    }
    ghost var s := scratch[..];
    assert s == delegate[..HEADER_SIZE];
    HeaderPrefix(delegate, magic);
    header.Flip();
    assert header.RemainingBytes() == s;
    var magicRead := header.GetInt();
    if magicRead == magic.compressedWrong {
      return Err(WrongArchitecture);
    }
    if magicRead != magic.compressed {
      return Err(IllegalHeader);
    }
    assert header.RemainingBytes() == s[4..];
    var version := header.GetInt();
    if version != VERSION {
      return Err(IllegalVersion);
    }
    assert header.RemainingBytes() == s[8..];
    var bufferSize := header.GetInt();
    assert header.RemainingBytes() == s[12..];
    var maxCLen := header.GetInt();
    return Ok(Header(bufferSize, maxCLen));
  }

  datatype OpenResult = Opened(channel: DecompressingInputChannel) | OpenFailed(error: ChannelError)

  class DecompressingInputChannel {
    /** What the delegate channel has not yet delivered. */
    var input: seq<byte>
    const codec: Codec
    const allocator: Allocator
    /** compressedAddress: the off-heap region of maxCLen + bufferSize bytes. */
    const address: int
    const region: array<byte>
    const maxCLen: nat
    const bufferSize: nat
    /** The two windows over the region; null once the channel is closed. */
    var compressed: ByteBuffer?
    var decompressed: ByteBuffer?
    var closed: bool

    /** The windows lie over the region as the constructor laid them out: the
        compressed one over [0, maxCLen), the decompressed one over
        [maxCLen, maxCLen + bufferSize), so the two never overlap. */
    ghost predicate Valid()
      reads this, compressed, decompressed
    {
      && region.Length == maxCLen + bufferSize
      && (compressed == null <==> decompressed == null)
      && (compressed == null <==> closed)
      && (compressed != null ==>
            && compressed != decompressed
            && compressed.data == region && compressed.offset == 0 && compressed.capacity == maxCLen
            && decompressed.data == region && decompressed.offset == maxCLen && decompressed.capacity == bufferSize
            && compressed.Valid() && decompressed.Valid())
    }

    /** The decompressed bytes that are buffered and not yet handed out. */
    ghost function Buffered(): seq<byte>
      reads this, compressed, decompressed, region
      requires Valid() && decompressed != null
    {
      decompressed.RemainingBytes()
    }

    /** The state right after the constructor. */
    constructor Init(input: seq<byte>, codec: Codec, allocator: Allocator, address: int,
                     region: array<byte>, maxCLen: nat, bufferSize: nat)
      requires region.Length == maxCLen + bufferSize
      ensures Valid() && IsOpen() && fresh(compressed) && fresh(decompressed)
      ensures this.input == input && this.codec == codec && this.allocator == allocator
      ensures this.address == address && this.region == region
      ensures this.maxCLen == maxCLen && this.bufferSize == bufferSize
      ensures compressed.position == compressed.limit == maxCLen
      ensures decompressed.position == decompressed.limit == bufferSize
      ensures Buffered() == []
    {
      this.input := input;
      this.codec := codec;
      this.allocator := allocator;
      this.address := address;
      this.region := region;
      this.maxCLen := maxCLen;
      this.bufferSize := bufferSize;
      this.closed := false;
      var c := new ByteBuffer.View(region, 0, maxCLen);
      c.SetPosition(c.limit);
      var d := new ByteBuffer.View(region, maxCLen, bufferSize);
      d.SetPosition(d.limit);
      this.compressed := c;
      this.decompressed := d;
    }

    /** The constructor: allocate a 16-byte scratch buffer, read and check the
        header, free the scratch buffer on every path, then allocate the region
        and lay the two windows over it, both with nothing remaining. */
    static method Open(delegate: seq<byte>, magic: Magic, codec: Codec, allocator: Allocator)
      returns (r: OpenResult)
      requires allocator.Valid()
      modifies allocator
      ensures allocator.Valid()
      // the scratch allocation, or the header, fails: nothing stays allocated
      ensures old(allocator.available) < HEADER_SIZE ==> r == OpenFailed(AllocationFailed)
      ensures old(allocator.available) >= HEADER_SIZE && ParseHeader(delegate, magic).Err? ==>
        r == OpenFailed(ParseHeader(delegate, magic).error)
      ensures r.OpenFailed? && r.error != IllegalLength ==> allocator.live == old(allocator.live)
      // a valid header: the region holds maxCLen + bufferSize bytes (an int sum)
      ensures old(allocator.available) >= HEADER_SIZE && ParseHeader(delegate, magic).Ok? ==>
        var h := ParseHeader(delegate, magic).value;
        var size := Wrap32(h.maxCLen + h.bufferSize);
        if size < 0 || size > old(allocator.available) then r == OpenFailed(AllocationFailed)
        else if h.maxCLen < 0 || h.bufferSize < 0 then
          r == OpenFailed(IllegalLength) && exists a :: a !in old(allocator.live) && allocator.live == old(allocator.live)[a := size]
        else
          && r.Opened? && fresh(r.channel) && r.channel.Valid() && r.channel.IsOpen()
          && r.channel.maxCLen == h.maxCLen && r.channel.bufferSize == h.bufferSize
          && r.channel.region.Length == h.maxCLen + h.bufferSize
          && r.channel.compressed.Remaining() == 0 && r.channel.decompressed.Remaining() == 0
          && r.channel.input == delegate[HEADER_SIZE..]
          && r.channel.codec == codec && r.channel.allocator == allocator
          && r.channel.address !in old(allocator.live)
          && allocator.live == old(allocator.live)[r.channel.address := size]
    {
      ghost var live0 := allocator.live;
      var headerAdr := allocator.Allocate(HEADER_SIZE);
      if headerAdr == 0 {
        return OpenFailed(AllocationFailed);
      }
      var header := ReadHeader(delegate, magic);
      allocator.Free(headerAdr);
      AllocateThenFree(live0, headerAdr, HEADER_SIZE);
      if header.Err? {
        return OpenFailed(header.error);
      }
      var maxCLen: int, bufferSize: int := header.value.maxCLen, header.value.bufferSize;
      var size := Wrap32(maxCLen + bufferSize);
      var compressedAddress := allocator.Allocate(size);
      if compressedAddress == 0 {
        return OpenFailed(AllocationFailed);
      }
      if maxCLen < 0 || bufferSize < 0 {
        return OpenFailed(IllegalLength);
      }
      var region := new byte[maxCLen + bufferSize];
      var ch := new DecompressingInputChannel.Init(
        delegate[HEADER_SIZE..], codec, allocator, compressedAddress, region, maxCLen, bufferSize);
      r := Opened(ch);
    }

    /** isOpen: the windows are still there. */
    function IsOpen(): bool
      reads this
    {
      compressed != null
    }

    /** readBytes: reload the compressed window with the next len bytes of the
        delegate; 0 when the delegate could not deliver them all, else len. */
    method ReadBytes(len: int) returns (r: Result<int>)
      requires Valid() && IsOpen()
      modifies this`input, compressed, region
      ensures Valid() && IsOpen()
      ensures r.Err? <==> len < 0 || len > maxCLen
      ensures r.Err? ==> r.error == IllegalLength && input == old(input)
      ensures r.Ok? ==> 0 <= len <= maxCLen
      ensures r.Ok? ==> (r.value == len <==> |old(input)| >= len) && (r.value == 0 || r.value == len)
      ensures r.Ok? && |old(input)| >= len ==>
        input == old(input)[len..] && compressed.position == 0 && compressed.limit == len
        && region[..len] == old(input)[..len]
      ensures r.Ok? && |old(input)| < len ==> input == []
      ensures region[maxCLen..] == old(region[maxCLen..])
    {
      compressed.Clear();
      if len < 0 || len > compressed.capacity {
        return Err(IllegalLength);
      }
      compressed.SetLimit(len);
      var ok, rest := ReadFully(input, compressed);
      input := rest;
      if !ok {
        return Ok(0);
      }
      assert region[..len] == old(input)[..len];
      compressed.SetPosition(0);
      return Ok(len);
    }

    /** read(dst): fetch a block when no decompressed bytes remain, then copy as
        many buffered bytes as dst has room for; -1 at the end of the stream.
        Reading a closed channel fails (a NullPointerException in Java). */
    method Read(dst: ByteBuffer) returns (r: Result<int>)
      requires Valid() && dst.Valid() && dst.data != region
      modifies this`input, compressed, decompressed, region, dst, dst.data
      ensures Valid() && IsOpen() == old(IsOpen())
      ensures !old(IsOpen()) ==> r == Err(Closed) && unchanged(dst, dst.data) && input == old(input)
      ensures old(IsOpen()) ==>
        var o := ReadStep(old(Buffered()), old(input), old(dst.Remaining()), maxCLen, bufferSize, codec);
        && r == o.result && input == o.input
        && dst.limit == old(dst.limit) && dst.position == old(dst.position) + |o.chunk|
        && dst.data[..] == Splice(old(dst.data[..]), dst.offset + old(dst.position), o.chunk)
        && (r.Ok? ==> Buffered() == o.buffered)
      // a failed fetch leaves the window as it was (empty), or cleared by the
      // decompression step with its stale bytes counted as remaining
      ensures old(IsOpen()) && (r == Err(IllegalLength) || r == Err(UnexpectedEof)) ==> Buffered() == []
      ensures old(IsOpen()) && (r == Err(InvalidCompressedData) || r == Err(UncompressedTooLarge)) ==>
        Buffered() == old(region[maxCLen..])
    {
      if decompressed == null {
        return Err(Closed);
      }
      if decompressed.Remaining() == 0 {
        var loaded := FetchNext();
        if loaded.Err? {
          return Err(loaded.error);
        }
        if !loaded.value {
          return Ok(-1);
        }
      }
      var n := Drain(dst);
      r := Ok(n);
    }

    /** The copy at the end of read: as many buffered bytes as dst has room
        for move to dst, in order; the rest stays buffered. */
    method Drain(dst: ByteBuffer) returns (n: nat)
      requires Valid() && IsOpen() && dst.Valid() && dst.data != region
      modifies decompressed, dst, dst.data
      ensures Valid() && IsOpen()
      ensures n == ReadCount(old(dst.Remaining()), |old(Buffered())|)
      ensures dst.limit == old(dst.limit) && dst.position == old(dst.position) + n
      ensures dst.data[..] == Splice(old(dst.data[..]), dst.offset + old(dst.position), old(Buffered())[..n])
      ensures Buffered() == old(Buffered())[n..]
    {
      var chunk := decompressed.Get(ReadCount(dst.Remaining(), decompressed.Remaining()));
      dst.Put(chunk);
      n := |chunk|;
    }

    /** The block fetch inside read: the length prefix, the block, the validity
        check and the decompression into the decompressed window. true when a
        block was loaded, false at the end of the stream. */
    method FetchNext() returns (r: Result<bool>)
      requires Valid() && IsOpen() && decompressed.Remaining() == 0
      modifies this`input, compressed, decompressed, region
      ensures Valid() && IsOpen()
      ensures Reports(r, FetchBlock(old(input), maxCLen, bufferSize, codec))
      ensures input == FetchBlock(old(input), maxCLen, bufferSize, codec).rest
      ensures r == Ok(false) ==> decompressed.Remaining() == 0
      ensures r == Ok(true) ==> Buffered() == FetchBlock(old(input), maxCLen, bufferSize, codec).bytes
      ensures r.Err? ==> region[maxCLen..] == old(region[maxCLen..])
      ensures r == Err(IllegalLength) || r == Err(UnexpectedEof) ==> Buffered() == []
      ensures r == Err(InvalidCompressedData) || r == Err(UncompressedTooLarge) ==>
        Buffered() == old(region[maxCLen..])
    {
      ghost var input0 := input;
      FetchShortCases(input0, maxCLen, bufferSize, codec);
      var n := ReadBytes(4);
      if n.Err? {
        return Err(n.error);
      }
      if n.value == 0 {
        return Ok(false);
      }
      var cLen := compressed.GetIntAt(0);
      DecodeIntPrefix(input0, region[..4]);
      assert FetchBlock(input0, maxCLen, bufferSize, codec) == FetchBody(cLen, input, maxCLen, bufferSize, codec);
      r := ReadBlock(cLen);
    }

    /** The rest of the block fetch once the length cLen is known: the block
        is read into the compressed window, then checked and decompressed. */
    method ReadBlock(cLen: Int) returns (r: Result<bool>)
      requires Valid() && IsOpen()
      modifies this`input, compressed, decompressed, region
      ensures Valid() && IsOpen()
      ensures Reports(r, FetchBody(cLen, old(input), maxCLen, bufferSize, codec))
      ensures input == FetchBody(cLen, old(input), maxCLen, bufferSize, codec).rest
      ensures r == Ok(true) ==> Buffered() == FetchBody(cLen, old(input), maxCLen, bufferSize, codec).bytes
      ensures r.Err? ==> region[maxCLen..] == old(region[maxCLen..])
      ensures r == Err(IllegalLength) || r == Err(UnexpectedEof) ==>
        decompressed.position == old(decompressed.position) && decompressed.limit == old(decompressed.limit)
      ensures r == Err(InvalidCompressedData) || r == Err(UncompressedTooLarge) ==>
        decompressed.position == 0 && decompressed.limit == bufferSize
    {
      ghost var input0 := input;
      var m := ReadBytes(cLen);
      if m.Err? {
        return Err(m.error);
      }
      if m.value != cLen {
        return Err(UnexpectedEof);
      }
      ghost var block := compressed.RemainingBytes();
      assert block == input0[..cLen];
      r := Decompress();
    }

    /** Snappy on the compressed window: the decompressed window is cleared, the
        block is checked, and only a valid block is decompressed into it. After
        a failure the cleared window still counts bufferSize bytes as remaining. */
    method Decompress() returns (r: Result<bool>)
      requires Valid() && IsOpen()
      modifies decompressed, region
      ensures Valid() && IsOpen() && unchanged(compressed)
      ensures Reports(r, DecodeBlock(old(compressed.RemainingBytes()), [], bufferSize, codec))
      ensures r == Ok(true) ==> Buffered() == codec.uncompress(old(compressed.RemainingBytes()))
      ensures r.Err? ==> decompressed.position == 0 && decompressed.limit == bufferSize
      ensures r.Err? ==> r.error == InvalidCompressedData || r.error == UncompressedTooLarge
      ensures r.Err? ==> region[..] == old(region[..])
    {
      var block := compressed.RemainingBytes();
      decompressed.Clear();
      if !codec.isValidCompressedBuffer(block) {
        return Err(InvalidCompressedData);
      }
      var out := codec.uncompress(block);
      if |out| > decompressed.Remaining() {
        return Err(UncompressedTooLarge);
      }
      decompressed.Put(out);
      decompressed.Flip();
      assert region[maxCLen..maxCLen + |out|] == out;
      r := Ok(true);
    }

    /** close: drop the windows and free the region, once; a second close,
        or a close after finalization, does nothing. */
    method Close()
      requires Valid() && allocator.Valid()
      modifies this, allocator
      ensures Valid() && !IsOpen() && allocator.Valid()
      ensures input == old(input)
      ensures old(IsOpen()) ==> allocator.live == old(allocator.live) - {address}
      ensures !old(IsOpen()) ==> unchanged(allocator) && closed == old(closed)
    {
      if compressed == null {
        return;
      }
      compressed := null;
      decompressed := null;
      if !closed {
        allocator.Free(address);
      }
      closed := true;
    }
  }
}
