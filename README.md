# OHC core pieces, modelled in Dafny

This project models six parts of OHC, the off-heap cache for Java, and proves properties of them:

- **DecompressingInputChannel** reads a compressed snapshot stream.
  - The stream opens with a 16-byte header: magic, version, block size and maximum compressed block length, all big-endian ints.
  - Blocks follow. Each is a 4-byte length, then that many bytes of Snappy data.
  - The channel keeps one off-heap region, split into a compressed window and a decompressed window. Each `read` hands out decompressed bytes and fetches the next block only when none are left.
- **chunked `Uns`**, the off-heap memory access of the chunked implementation:
  - the debug registry of live and freed addresses (`allocated`, `freed`, `clearUnsDebugForTest`);
  - `allocate` and `free` of direct buffers, and `directBufferFor`;
  - the static initialiser's parse of `java.version`, which chooses between the Java 7 and Java 8 extensions, and its choice of allocator.
- **`UnsExt8.crc32`**: the CRC-32 of a memory range, widened to 64 bits by copying it into both halves.
- **The benchmark serializers** in `BenchmarkUtils`: the `byte[]` serializer, the `Long` serializer and the padded `KeySerializer`.
- **`FasterRandom`**: a xorshift64* generator that is reseeded from `java.util.Random` every 32 draws.
- **`DistributionInverted`**: a distribution that reflects every value of the distribution it wraps within that distribution's bounds.

## Modules

- `JavaTypes` models Java's `int` and `long`:
  - their ranges and wrap-around;
  - `%` with a truncated remainder;
  - `Math.abs`;
  - the big-endian byte order of `ByteBuffer.putInt`, `getInt`, `putLong` and `getLong`.
- `Nio` is the part of `java.nio.ByteBuffer` the core uses: a view over a byte array, with position and limit.
- `Alloc` stands in for `IAllocator`. It is a budget of bytes, hands out non-zero addresses, returns 0 when the budget is exceeded, and records which addresses are live.
- `DecompressingChannel`, `ChunkedUns`, `Crc32`, `BenchmarkUtils`, `FasterRandomGen` and `DistributionInv` each model one of the pieces above.

## How the model is built

The objects whose fields the source updates are classes with `modifies` frames:

- the channel;
- the `Uns` debug registry;
- the serializer's `ByteBuffer`;
- the random generator.

Each state-changing method is specified by a pure function:

- `ReadStep` for one `read`;
- `FetchBlock` for one block fetch;
- `WriteBytes`, `ReadBytes`, `WriteKey` and `ReadKey` for the serializers;
- `NextState` and `Output` for the generator.

Lemmas about those functions prove the round trips and invariants.

Collaborators that are not part of this model become parameters:

- Snappy's `isValidCompressedBuffer` and `uncompress`, as the `Codec` pair;
- the delegate channel, as the byte sequence it still has to deliver;
- the magic numbers from the linked `Util` class;
- `java.util.Random` seeded and drawn once, as a function `reseedFn` from seed to next long;
- whether the `UnsExt8` class can be loaded;
- memory, as a byte sequence.

### Behaviour at the edges

- **A zero-length block.** `readBytes(0)` returns 0, which equals the length, so the empty block goes on to the Snappy validity check.
- **A partial length prefix.** When the stream ends partway through a length prefix, `readFully` fails, `readBytes(4)` returns 0 and `read` returns -1: the stream ends cleanly.
- **maxCLen below 4.** When the declared maximum compressed length is below 4, `compressedBuffer.limit(4)` throws. The model reports `IllegalLength`.

## Model

| member | source | states |
|---|---|---|
| DecompressingChannel.ParseHeader | ohc-core/src/main/java/org/caffinitas/ohc/linked/DecompressingInputChannel.java:46-62 | A header is accepted only if the stream holds 16 bytes and begins with this architecture's magic. An accepted header yields ints 3 and 4: block size and maximum compressed length. |
| DecompressingChannel.HeaderRoundTrip | ohc-core/src/main/java/org/caffinitas/ohc/linked/DecompressingInputChannel.java:46-62 | A header written with the right magic, version 1 and any two sizes is read back as exactly those sizes, whatever follows it. |
| DecompressingChannel.HeaderFields | ohc-core/src/main/java/org/caffinitas/ohc/linked/DecompressingInputChannel.java:51-62 | The four header ints sit at offsets 0, 4, 8 and 12, in the order the constructor reads them. |
| DecompressingChannel.WrongArchitectureFirst | ohc-core/src/main/java/org/caffinitas/ohc/linked/DecompressingInputChannel.java:51-54 | The byte-swapped magic is reported as a file from the other architecture before any other check. |
| DecompressingChannel.HeaderErrorsIgnoreSizes | ohc-core/src/main/java/org/caffinitas/ohc/linked/DecompressingInputChannel.java:51-60 | A rejected header fails the same way whatever its size fields hold. Only magic and version decide a failure. |
| DecompressingChannel.ParseHeaderErrors | ohc-core/src/main/java/org/caffinitas/ohc/linked/DecompressingInputChannel.java:46-60 | Each header error happens exactly when its condition holds: EOF iff fewer than 16 bytes; illegal header iff the magic is neither value; illegal version iff the magic is right and the version is not 1. |
| DecompressingChannel.HeaderPrefix | ohc-core/src/main/java/org/caffinitas/ohc/linked/DecompressingInputChannel.java:42-47 | Only the 16 bytes read into the scratch buffer decide the header. |
| DecompressingChannel.ReadHeader | ohc-core/src/main/java/org/caffinitas/ohc/linked/DecompressingInputChannel.java:42-62 | Reading the header through a 16-byte buffer gives exactly ParseHeader of the delegate. |
| DecompressingChannel.FetchBlock | ohc-core/src/main/java/org/caffinitas/ohc/linked/DecompressingInputChannel.java:100-118 | Fetching the next block ends the stream iff fewer than 4 bytes remain. Otherwise a block is delivered only when its length is within [0, maxCLen] and fully present. The result is the decompression of those bytes, and the rest of the input starts right after them. |
| DecompressingChannel.FetchBody | ohc-core/src/main/java/org/caffinitas/ohc/linked/DecompressingInputChannel.java:106-118 | After the length prefix: a block is delivered only for a length within [0, maxCLen] that is fully present, and it fits the decompressed window. |
| DecompressingChannel.DecodeBlock | ohc-core/src/main/java/org/caffinitas/ohc/linked/DecompressingInputChannel.java:113-118 | A compressed block is delivered iff Snappy accepts it and its decompression fits the window. It is delivered as that decompression. |
| DecompressingChannel.FetchShortCases | ohc-core/src/main/java/org/caffinitas/ohc/linked/DecompressingInputChannel.java:135-141 | A maximum below 4 makes `limit(4)` fail with IllegalLength. Fewer than 4 remaining bytes make `read` end the stream. |
| DecompressingChannel.FetchLengthCases | ohc-core/src/main/java/org/caffinitas/ohc/linked/DecompressingInputChannel.java:106-118 | Three outcomes of a length prefix: out of range is IllegalLength; longer than the remaining input is unexpected EOF; otherwise the block is decoded. |
| DecompressingChannel.InvalidBlockNotDecompressed | ohc-core/src/main/java/org/caffinitas/ohc/linked/DecompressingInputChannel.java:115-117 | An invalid block fails with "Invalid compressed data" whatever `uncompress` would do. The decompressor is never consulted. |
| DecompressingChannel.FetchFramed | ohc-core/src/main/java/org/caffinitas/ohc/linked/DecompressingInputChannel.java:100-118 | A valid block framed with its length is fetched back as its decompression, and the input after the frame is untouched. |
| DecompressingChannel.ShortPrefixIsEndOfStream | ohc-core/src/main/java/org/caffinitas/ohc/linked/DecompressingInputChannel.java:103-105 | A stream that stops inside a length prefix ends cleanly. |
| DecompressingChannel.ShortBlockIsUnexpectedEof | ohc-core/src/main/java/org/caffinitas/ohc/linked/DecompressingInputChannel.java:109-111 | A block shorter than its declared length fails with "unexpected EOF". |
| DecompressingChannel.DecodeAllUnfold | ohc-core/src/main/java/org/caffinitas/ohc/linked/DecompressingInputChannel.java:99-119 | The whole-stream decoding is one block fetch followed by decoding the rest. It stops at end of stream or at the first error. |
| DecompressingChannel.DecodeFramesRoundTrip | ohc-core/src/main/java/org/caffinitas/ohc/linked/DecompressingInputChannel.java:99-133 | Any sequence of valid framed blocks decodes to the concatenation of their decompressions, then a clean end of stream. |
| DecompressingChannel.ReadCount | ohc-core/src/main/java/org/caffinitas/ohc/linked/DecompressingInputChannel.java:121-132 | A read copies the smaller of the room in `dst` and the bytes buffered. |
| DecompressingChannel.ReadStep | ohc-core/src/main/java/org/caffinitas/ohc/linked/DecompressingInputChannel.java:99-133 | One `read`: the count equals the bytes handed out and never exceeds the room. A read with bytes buffered fetches nothing. -1 only when nothing is buffered. A read with room makes progress. |
| DecompressingChannel.ReadStepCount | ohc-core/src/main/java/org/caffinitas/ohc/linked/DecompressingInputChannel.java:99-132 | A read returns min(room, available) bytes, taken from the front of the buffered block, or of the freshly fetched one. It returns -1 exactly at end of stream. |
| DecompressingChannel.ReadStepInOrder | ohc-core/src/main/java/org/caffinitas/ohc/linked/DecompressingInputChannel.java:99-133 | The bytes handed out, followed by what is still buffered and still to be decoded, are exactly the decoded stream. Nothing is lost, duplicated or reordered. |
| DecompressingChannel.ReadStepEnd | ohc-core/src/main/java/org/caffinitas/ohc/linked/DecompressingInputChannel.java:100-118 | -1 only after every decoded byte has been delivered at a clean end. An error only with nothing buffered, and it is the stream's own decoding error. |
| DecompressingChannel.ReadToEndDeliversStream | ohc-core/src/main/java/org/caffinitas/ohc/linked/DecompressingInputChannel.java:99-133 | Reading repeatedly, with any non-zero room, delivers the buffered bytes, then the whole decoded stream in order, and ends with the stream's status. |
| DecompressingChannel.ReadFully | ohc-core/src/main/java/org/caffinitas/ohc/linked/DecompressingInputChannel.java:135-144 | Filling a buffer from the delegate succeeds iff enough bytes remain. The bytes land at the position, and the delegate advances by what was read. |
| DecompressingChannel.DecompressingInputChannel.Init | ohc-core/src/main/java/org/caffinitas/ohc/linked/DecompressingInputChannel.java:68-73 | The region is split into a compressed window of maxCLen bytes and a decompressed window of bufferSize bytes. Both start with nothing remaining. |
| DecompressingChannel.DecompressingInputChannel.Open | ohc-core/src/main/java/org/caffinitas/ohc/linked/DecompressingInputChannel.java:41-74 | The scratch header buffer is freed on every path, and a header error leaves nothing allocated. A valid header allocates the int sum maxCLen + bufferSize and opens the channel just after the header. |
| DecompressingChannel.DecompressingInputChannel.ReadBytes | ohc-core/src/main/java/org/caffinitas/ohc/linked/DecompressingInputChannel.java:135-144 | `readBytes(len)` returns len and leaves the bytes at the window start when the delegate has them. Otherwise it returns 0 and the delegate is exhausted. An illegal length throws. |
| DecompressingChannel.DecompressingInputChannel.Read | ohc-core/src/main/java/org/caffinitas/ohc/linked/DecompressingInputChannel.java:99-133 | `read(dst)` does exactly what ReadStep says: result, bytes written into `dst`, delegate consumed, bytes still buffered. After close it fails. A failed length prefix or block read leaves nothing buffered. A block that fails to decompress leaves the cleared window's stale bytes counted as remaining, so the next read hands them out. |
| DecompressingChannel.DecompressingInputChannel.Drain | ohc-core/src/main/java/org/caffinitas/ohc/linked/DecompressingInputChannel.java:121-132 | Copies the first ReadCount buffered bytes into `dst` at its position and drops them from the buffer. |
| DecompressingChannel.DecompressingInputChannel.FetchNext | ohc-core/src/main/java/org/caffinitas/ohc/linked/DecompressingInputChannel.java:100-119 | Reads the length prefix and the block, reporting and consuming exactly what FetchBlock says. It buffers the decompressed block on success. A bad length or a short block leaves nothing buffered. A block that fails the validity check or does not fit leaves the cleared window, old bytes and all, as remaining. |
| DecompressingChannel.DecompressingInputChannel.ReadBlock | ohc-core/src/main/java/org/caffinitas/ohc/linked/DecompressingInputChannel.java:106-118 | Reads a block of the given length and decompresses it, as FetchBody says. |
| DecompressingChannel.DecompressingInputChannel.Decompress | ohc-core/src/main/java/org/caffinitas/ohc/linked/DecompressingInputChannel.java:113-118 | Clears the decompressed window and validates the compressed window. It then fills the window with the decompression, as DecodeBlock says. |
| DecompressingChannel.DecompressingInputChannel.Close | ohc-core/src/main/java/org/caffinitas/ohc/linked/DecompressingInputChannel.java:77-88 | Closing frees the region exactly once. A second close changes nothing, and the channel then reports not open. |
| ChunkedUns.DirectBufferFor | ohc-core/src/main/java/org/caffinitas/ohc/chunked/Uns.java:253-264 | A length outside [0, Integer.MAX_VALUE] is rejected. Otherwise the result is a big-endian direct buffer over address with capacity and limit len. |
| ChunkedUns.SelectAllocator | ohc-core/src/main/java/org/caffinitas/ohc/chunked/Uns.java:160-172 | The Unsafe allocator is chosen exactly when the property is "unsafe", and JNA otherwise. |
| ChunkedUns.StripDash | ohc-core/src/main/java/org/caffinitas/ohc/chunked/Uns.java:130-131 | The version is cut at its first '-': the result is a prefix with no '-'. |
| ChunkedUns.TokenLength | ohc-core/src/main/java/org/caffinitas/ohc/chunked/Uns.java:132-134 | A token runs up to the next '.'. |
| ChunkedUns.TokensWellFormed | ohc-core/src/main/java/org/caffinitas/ohc/chunked/Uns.java:132-134 | StringTokenizer on "." yields only non-empty tokens without a '.'. |
| ChunkedUns.TokensAppend | ohc-core/src/main/java/org/caffinitas/ohc/chunked/Uns.java:132-134 | A token followed by a '.' or the end is the first token. |
| ChunkedUns.TokensMajorMinor | ohc-core/src/main/java/org/caffinitas/ohc/chunked/Uns.java:132-134 | "major.minor…" tokenizes to major, minor, then the tokens of the rest. |
| ChunkedUns.StripDashAppend | ohc-core/src/main/java/org/caffinitas/ohc/chunked/Uns.java:130-131 | Stripping leaves a dash-free prefix untouched. |
| ChunkedUns.ParseInt | ohc-core/src/main/java/org/caffinitas/ohc/chunked/Uns.java:133-134 | Integer.parseInt fails on an empty token, and an unsigned token parses to a non-negative int. |
| ChunkedUns.ParseIntOfDecimal | ohc-core/src/main/java/org/caffinitas/ohc/chunked/Uns.java:133-134 | Integer.parseInt reads back any int written in decimal, with or without a minus sign. |
| ChunkedUns.SelectExt | ohc-core/src/main/java/org/caffinitas/ohc/chunked/Uns.java:129-155 | The Java 8 extension is chosen only if its class loads. |
| ChunkedUns.SelectExtMajorMinor | ohc-core/src/main/java/org/caffinitas/ohc/chunked/Uns.java:129-155 | A version "major.minor…" picks UnsExt8 iff (major > 1 or minor ≥ 8) and the class loads; otherwise UnsExt7. |
| ChunkedUns.SelectExtMajorOnly | ohc-core/src/main/java/org/caffinitas/ohc/chunked/Uns.java:129-155 | A version with only a major number picks UnsExt8 iff major > 1 and the class loads. |
| ChunkedUns.Uns.constructor | ohc-core/src/main/java/org/caffinitas/ohc/chunked/Uns.java:44-51 | Both debug registries start empty, and the registry agrees with the allocator. |
| ChunkedUns.Uns.Allocated | ohc-core/src/main/java/org/caffinitas/ohc/chunked/Uns.java:103-112 | In debug mode, registering an address that is already live fails. Otherwise the address becomes live with its size and trace and leaves the freed map. Without debug nothing changes. |
| ChunkedUns.Uns.Freed | ohc-core/src/main/java/org/caffinitas/ohc/chunked/Uns.java:89-101 | In debug mode, freeing an address that is not live fails, reporting the earlier free's trace if there was one. Otherwise the address moves from live to freed with the new trace. |
| ChunkedUns.Uns.ClearUnsDebugForTest | ohc-core/src/main/java/org/caffinitas/ohc/chunked/Uns.java:65-87 | In debug mode both registries are emptied. It fails iff some address was still live, which is iff the allocator still had live memory. |
| ChunkedUns.Uns.Allocate | ohc-core/src/main/java/org/caffinitas/ohc/chunked/Uns.java:206-218 | A failed allocation throws OutOfMemoryError or returns null, as the flag says, and changes nothing. Success registers the address with its size, drops it from the freed-address map in debug mode, and returns a direct buffer over it. With debug off both maps stay as they were. A size over Integer.MAX_VALUE fails in directBufferFor after the allocation. The registry stays in step with the allocator. |
| ChunkedUns.Uns.Free | ohc-core/src/main/java/org/caffinitas/ohc/chunked/Uns.java:220-229 | null and heap buffers are ignored. A direct buffer's address is unregistered and returned to the allocator, unless debug finds it was not live, which fails and changes nothing. With debug off both maps stay as they were. |
| ChunkedUns.FreeTwice | ohc-core/src/main/java/org/caffinitas/ohc/chunked/Uns.java:89-101 | In debug mode a second free of an address fails and reports the trace of the first free. |
| Crc32.UpdateAppend | ohc-core-j8/src/main/java/org/caffinitas/ohc/linked/UnsExt8.java:40-41 | The CRC register over a + b is the register over a continued with b. |
| Crc32.WidenLow | ohc-core-j8/src/main/java/org/caffinitas/ohc/linked/UnsExt8.java:42-44 | The low half of `h \| h << 32` is the CRC. |
| Crc32.WidenHigh | ohc-core-j8/src/main/java/org/caffinitas/ohc/linked/UnsExt8.java:42-44 | The high half of `h \| h << 32` is the CRC. |
| Crc32.WidenProduct | ohc-core-j8/src/main/java/org/caffinitas/ohc/linked/UnsExt8.java:42-44 | The widened value is CRC × (2^32 + 1) as an unsigned long. |
| Crc32.UnsExt8Crc32 | ohc-core-j8/src/main/java/org/caffinitas/ohc/linked/UnsExt8.java:39-45 | The checksum's low half is the CRC-32 of exactly the len bytes at address + offset, and its high half equals its low half. |
| Crc32.UnsExt8Crc32IsProduct | ohc-core-j8/src/main/java/org/caffinitas/ohc/linked/UnsExt8.java:39-45 | The checksum of a range is its CRC-32 × (2^32 + 1). |
| Crc32.CheckValue | ohc-core-j8/src/main/java/org/caffinitas/ohc/linked/UnsExt8.java:40-41 | The CRC of the ASCII digits "123456789" is 0xCBF43926, the standard check value. |
| BenchmarkUtils.EncodeBytes | ohc-benchmark/src/main/java/org/caffinitas/ohc/benchmark/BenchmarkUtils.java:25-28 | The encoding is 4 + length bytes, the array after the length prefix. |
| BenchmarkUtils.WriteBytes | ohc-benchmark/src/main/java/org/caffinitas/ohc/benchmark/BenchmarkUtils.java:25-28 | Serializing succeeds iff 4 + length bytes fit. What is written is a prefix of the encoding that fits the room. |
| BenchmarkUtils.ReadBytes | ohc-benchmark/src/main/java/org/caffinitas/ohc/benchmark/BenchmarkUtils.java:31-35 | Deserializing fails with NegativeArraySize iff the prefix is negative, and with underflow iff the prefix or the array is short. It succeeds exactly when the prefix is non-negative and that many bytes follow it, and then returns those prefix-many bytes and consumes 4 + length bytes. |
| BenchmarkUtils.BytesSerializedSize | ohc-benchmark/src/main/java/org/caffinitas/ohc/benchmark/BenchmarkUtils.java:38-40 | serializedSize is the encoding's length. For arrays within 4 of Integer.MAX_VALUE the int sum overflows to a negative. |
| BenchmarkUtils.BytesRoundTrip | ohc-benchmark/src/main/java/org/caffinitas/ohc/benchmark/BenchmarkUtils.java:25-35 | deserialize(serialize(b)) == b, consuming exactly the encoding, whatever follows. |
| BenchmarkUtils.BytesSizeFits | ohc-benchmark/src/main/java/org/caffinitas/ohc/benchmark/BenchmarkUtils.java:25-40 | Serializing succeeds iff the room is at least serializedSize, and a buffer of exactly that size receives the whole encoding. |
| BenchmarkUtils.ReadManyStep | ohc-benchmark/src/main/java/org/caffinitas/ohc/benchmark/BenchmarkUtils.java:31-35 | Reading one more encoded array in front of a readable tail reads that array first. |
| BenchmarkUtils.ReadManyEncodeAll | ohc-benchmark/src/main/java/org/caffinitas/ohc/benchmark/BenchmarkUtils.java:25-35 | Arrays serialized back to back deserialize to the same arrays in order. |
| BenchmarkUtils.SerializeBytes | ohc-benchmark/src/main/java/org/caffinitas/ohc/benchmark/BenchmarkUtils.java:25-28 | The buffer receives what WriteBytes says at its position, and the position advances by that much. |
| BenchmarkUtils.DeserializeBytes | ohc-benchmark/src/main/java/org/caffinitas/ohc/benchmark/BenchmarkUtils.java:31-35 | The result and the bytes consumed are those of ReadBytes on the remaining bytes. |
| BenchmarkUtils.WriteLong | ohc-benchmark/src/main/java/org/caffinitas/ohc/benchmark/BenchmarkUtils.java:45-47 | putLong succeeds iff 8 bytes fit, and writes the big-endian encoding or nothing. |
| BenchmarkUtils.ReadLong | ohc-benchmark/src/main/java/org/caffinitas/ohc/benchmark/BenchmarkUtils.java:50-52 | getLong succeeds iff 8 bytes remain, consuming 8 and decoding them. |
| BenchmarkUtils.LongSerializedSize | ohc-benchmark/src/main/java/org/caffinitas/ohc/benchmark/BenchmarkUtils.java:55-57 | serializedSize is the encoding's length, 8. |
| BenchmarkUtils.LongRoundTripThroughBuffer | ohc-benchmark/src/main/java/org/caffinitas/ohc/benchmark/BenchmarkUtils.java:45-57 | With serializedSize bytes of room, serialize succeeds and deserialize gives the value back, consuming serializedSize bytes. |
| BenchmarkUtils.SerializeLong | ohc-benchmark/src/main/java/org/caffinitas/ohc/benchmark/BenchmarkUtils.java:45-47 | The buffer receives what WriteLong says at its position. |
| BenchmarkUtils.DeserializeLong | ohc-benchmark/src/main/java/org/caffinitas/ohc/benchmark/BenchmarkUtils.java:50-52 | The result and the bytes consumed are those of ReadLong. |
| BenchmarkUtils.Padding | ohc-benchmark/src/main/java/org/caffinitas/ohc/benchmark/BenchmarkUtils.java:70-72 | The padding loop runs keyLen times, or not at all when keyLen is negative. |
| BenchmarkUtils.EncodeKey | ohc-benchmark/src/main/java/org/caffinitas/ohc/benchmark/BenchmarkUtils.java:68-73 | A key is 8 + padding bytes. |
| BenchmarkUtils.WriteKey | ohc-benchmark/src/main/java/org/caffinitas/ohc/benchmark/BenchmarkUtils.java:68-73 | Serializing a key succeeds iff the whole key fits. Otherwise it writes nothing when the long does not fit, or fills the room with the long and some zeros. |
| BenchmarkUtils.ReadKey | ohc-benchmark/src/main/java/org/caffinitas/ohc/benchmark/BenchmarkUtils.java:76-82 | Deserializing a key succeeds iff 8 + padding bytes remain. It consumes them all and returns the leading long. |
| BenchmarkUtils.KeyIgnoresPadding | ohc-benchmark/src/main/java/org/caffinitas/ohc/benchmark/BenchmarkUtils.java:76-82 | The value read does not depend on what the padding bytes hold. |
| BenchmarkUtils.KeyRoundTrip | ohc-benchmark/src/main/java/org/caffinitas/ohc/benchmark/BenchmarkUtils.java:68-82 | With room for the key, deserialize(serialize(v)) == v, consuming exactly the bytes written. |
| BenchmarkUtils.PutZeros | ohc-benchmark/src/main/java/org/caffinitas/ohc/benchmark/BenchmarkUtils.java:70-72 | The loop puts count zero bytes at the position, or overflows after filling the remaining room with zeros. |
| BenchmarkUtils.KeySerializer.constructor | ohc-benchmark/src/main/java/org/caffinitas/ohc/benchmark/BenchmarkUtils.java:63-65 | The serializer keeps the key length it is given. |
| BenchmarkUtils.KeySerializer.SerializedSize | ohc-benchmark/src/main/java/org/caffinitas/ohc/benchmark/BenchmarkUtils.java:85-87 | serializedSize is the key's encoded length when keyLen is in range. It under-reports when keyLen is negative. |
| BenchmarkUtils.KeySerializer.Serialize | ohc-benchmark/src/main/java/org/caffinitas/ohc/benchmark/BenchmarkUtils.java:68-73 | The buffer receives what WriteKey says at its position. |
| BenchmarkUtils.KeySerializer.Deserialize | ohc-benchmark/src/main/java/org/caffinitas/ohc/benchmark/BenchmarkUtils.java:76-82 | The result and the bytes consumed are those of ReadKey. |
| FasterRandomGen.XorshiftAsWrittenNonNegative | ohc-benchmark/src/main/java/org/caffinitas/ohc/benchmark/distribution/FasterRandom.java:87-91 | With `>>`, the last step `seed ^= seed >> 27` clears the sign bit, so every seed after a draw is a non-negative long. |
| FasterRandomGen.XorshiftAsWrittenCollides | ohc-benchmark/src/main/java/org/caffinitas/ohc/benchmark/distribution/FasterRandom.java:87-91 | With `>>`, the seeds -1 and 0 both step to 0, and 0 is a fixed point. |
| FasterRandomGen.XorshiftInvertible | ohc-benchmark/src/main/java/org/caffinitas/ohc/benchmark/distribution/FasterRandom.java:87-91 | With zero-filling shifts each xorshift step can be undone, so the state step is a bijection. |
| FasterRandomGen.XorshiftZero | ohc-benchmark/src/main/java/org/caffinitas/ohc/benchmark/distribution/FasterRandom.java:87-91 | The corrected step reaches 0 only from 0. |
| FasterRandomGen.SeedOfIntsAsWrittenLosesHigh | ohc-benchmark/src/main/java/org/caffinitas/ohc/benchmark/distribution/FasterRandom.java:40-41 | {0, -1} and {1, -1} give the same seed. |
| FasterRandomGen.SeedOfIntsHalves | ohc-benchmark/src/main/java/org/caffinitas/ohc/benchmark/distribution/FasterRandom.java:40-41 | The corrected seed holds ints[0] in its high half and ints[1] in its low half. |
| FasterRandomGen.SeedOfIntsInjective | ohc-benchmark/src/main/java/org/caffinitas/ohc/benchmark/distribution/FasterRandom.java:40-41 | Distinct int pairs give distinct seeds. |
| FasterRandomGen.NextState | ohc-benchmark/src/main/java/org/caffinitas/ohc/benchmark/distribution/FasterRandom.java:82-91 | The reseed counter stays in [0, 32) and wraps to 0 exactly on the 32nd step. The seed takes one xorshift step as written, with `>>`, from the old seed or, on that step, from the reseeded one. The new seed is never negative. |
| FasterRandomGen.Run | ohc-benchmark/src/main/java/org/caffinitas/ohc/benchmark/distribution/FasterRandom.java:82-91 | Any number of draws keeps the counter in [0, 32). |
| FasterRandomGen.RunWithoutRollover | ohc-benchmark/src/main/java/org/caffinitas/ohc/benchmark/distribution/FasterRandom.java:83-91 | Between rollovers, n draws apply the xorshift step as written, with `>>`, n times. |
| FasterRandomGen.RolloverEvery32 | ohc-benchmark/src/main/java/org/caffinitas/ohc/benchmark/distribution/FasterRandom.java:53-57 | From a fresh rollover, the 32nd draw reseeds from java.util.Random, from the seed after 31 steps as written, and takes one step as written from the new seed. |
| FasterRandomGen.RunAppend | ohc-benchmark/src/main/java/org/caffinitas/ohc/benchmark/distribution/FasterRandom.java:82-93 | m + n draws are m draws followed by n draws. |
| FasterRandomGen.UnseededDrawsZero | ohc-benchmark/src/main/java/org/caffinitas/ohc/benchmark/distribution/FasterRandom.java:28-31 | A generator never seeded starts at seed 0 and returns 0 for its first 31 draws. |
| FasterRandomGen.LongBytes | ohc-benchmark/src/main/java/org/caffinitas/ohc/benchmark/distribution/FasterRandom.java:64-67 | The inner loop produces exactly as many bytes as are left to fill. |
| FasterRandomGen.LongBytesBeyondEight | ohc-benchmark/src/main/java/org/caffinitas/ohc/benchmark/distribution/FasterRandom.java:60-69 | After the long's eight bytes, the loop keeps writing zeros, because `>>>=` has emptied it. |
| FasterRandomGen.PutLongBytes | ohc-benchmark/src/main/java/org/caffinitas/ohc/benchmark/distribution/FasterRandom.java:64-67 | The inner loop fills the array to its end with the long's bytes, lowest first. Earlier elements are untouched. |
| FasterRandomGen.FasterRandom.constructor | ohc-benchmark/src/main/java/org/caffinitas/ohc/benchmark/distribution/FasterRandom.java:28-31 | A new generator has seed 0 and reseed counter 0. |
| FasterRandomGen.FasterRandom.Rollover | ohc-benchmark/src/main/java/org/caffinitas/ohc/benchmark/distribution/FasterRandom.java:53-57 | The counter resets, and the seed becomes java.util.Random's next long for the old seed. |
| FasterRandomGen.FasterRandom.SetSeedLong | ohc-benchmark/src/main/java/org/caffinitas/ohc/benchmark/distribution/FasterRandom.java:48-51 | setSeed(long) stores the seed and rolls over. |
| FasterRandomGen.FasterRandom.SetSeedInt | ohc-benchmark/src/main/java/org/caffinitas/ohc/benchmark/distribution/FasterRandom.java:34-36 | setSeed(int) seeds with the sign-extended int. |
| FasterRandomGen.FasterRandom.SetSeedInts | ohc-benchmark/src/main/java/org/caffinitas/ohc/benchmark/distribution/FasterRandom.java:39-45 | Two or more ints seed with `((long) ints[0] << 32) \| ints[1]`, `ints[1]` sign-extended as written. One int seeds like setSeed(int). An empty array fails and changes nothing. |
| FasterRandomGen.FasterRandom.NextLong | ohc-benchmark/src/main/java/org/caffinitas/ohc/benchmark/distribution/FasterRandom.java:82-93 | nextLong advances the state by NextState, the xorshift step as written with `>>`, and returns the new seed times the xorshift64* multiplier. |
| FasterRandomGen.FasterRandom.NextInt | ohc-benchmark/src/main/java/org/caffinitas/ohc/benchmark/distribution/FasterRandom.java:72-74 | nextInt is the low 32 bits of one nextLong. |
| FasterRandomGen.FasterRandom.NextIntBounded | ohc-benchmark/src/main/java/org/caffinitas/ohc/benchmark/distribution/FasterRandom.java:77-79 | nextInt(i) fails for i = 0. Otherwise it returns abs of a truncated remainder, in [0, \|i\|). |
| FasterRandomGen.FasterRandom.NextBoolean | ohc-benchmark/src/main/java/org/caffinitas/ohc/benchmark/distribution/FasterRandom.java:96-98 | nextBoolean is the lowest bit of one nextLong. |
| FasterRandomGen.FasterRandom.NextBytes | ohc-benchmark/src/main/java/org/caffinitas/ohc/benchmark/distribution/FasterRandom.java:60-69 | A non-empty array takes exactly one draw and receives its bytes, lowest first, then zeros. An empty array takes no draw. |
| DistributionInv.NewInverted | ohc-benchmark/src/main/java/org/caffinitas/ohc/benchmark/distribution/DistributionInverted.java:30-34 | The inversion wraps the distribution and captures its minimum and maximum at construction. |
| DistributionInv.Reflect | ohc-benchmark/src/main/java/org/caffinitas/ohc/benchmark/distribution/DistributionInverted.java:37-39 | `max - (v - min)` in wrapping long arithmetic is max + min - v modulo 2^64. |
| DistributionInv.ReflectInvolution | ohc-benchmark/src/main/java/org/caffinitas/ohc/benchmark/distribution/DistributionInverted.java:37-39 | Reflecting twice about the same bounds gives back every long, overflow included. |
| DistributionInv.ReflectInRange | ohc-benchmark/src/main/java/org/caffinitas/ohc/benchmark/distribution/DistributionInverted.java:37-39 | A value within the bounds reflects without overflow to a value within the bounds. |
| DistributionInv.ReflectEnds | ohc-benchmark/src/main/java/org/caffinitas/ohc/benchmark/distribution/DistributionInverted.java:37-39 | The reflection swaps min and max. |
| DistributionInv.NextReflects | ohc-benchmark/src/main/java/org/caffinitas/ohc/benchmark/distribution/DistributionInverted.java:37-49 | next() and inverseCumProb(p) of an inversion are the wrapped distribution's value, reflected. |
| DistributionInv.OutcomeInRange | ohc-benchmark/src/main/java/org/caffinitas/ohc/benchmark/distribution/DistributionInverted.java:37-49 | A wrapped value within the bounds comes out within them, with the minimum and maximum swapped. |
| DistributionInv.SetSeed | ohc-benchmark/src/main/java/org/caffinitas/ohc/benchmark/distribution/DistributionInverted.java:52-54 | setSeed passes the seed unchanged through every inversion to the distribution that draws. |
| DistributionInv.Invert | ohc-benchmark/src/main/java/org/caffinitas/ohc/benchmark/distribution/DistributionInverted.java:56-61 | invert unwraps an inversion and wraps anything else. |
| DistributionInv.InvertConstructed | ohc-benchmark/src/main/java/org/caffinitas/ohc/benchmark/distribution/DistributionInverted.java:56-61 | Inverting keeps every inversion's captured bounds equal to those of what it wraps. |
| DistributionInv.InvertReflects | ohc-benchmark/src/main/java/org/caffinitas/ohc/benchmark/distribution/DistributionInverted.java:37-61 | The inverted distribution yields the reflection of what the original yields. |
| DistributionInv.InvertTwice | ohc-benchmark/src/main/java/org/caffinitas/ohc/benchmark/distribution/DistributionInverted.java:56-61 | invert(invert(d)) is d exactly unless d is an inversion of an inversion. |
| DistributionInv.InvertTwiceOutcome | ohc-benchmark/src/main/java/org/caffinitas/ohc/benchmark/distribution/DistributionInverted.java:37-61 | A double inversion yields exactly the values of the original. |
| DistributionInv.InvertedBoundsSwap | ohc-benchmark/src/main/java/org/caffinitas/ohc/benchmark/distribution/DistributionInverted.java:30-39 | With minValue() as inverseCumProb(0) and maxValue() as inverseCumProb(1), an inversion reports the wrapped maximum as its minimum and the wrapped minimum as its maximum. |
| DistributionInv.ReflectSymmetric | ohc-benchmark/src/main/java/org/caffinitas/ohc/benchmark/distribution/DistributionInverted.java:37-39 | Swapping min and max does not change the reflection. |
| DistributionInv.InvertBounds | ohc-benchmark/src/main/java/org/caffinitas/ohc/benchmark/distribution/DistributionInverted.java:30-61 | With the same definition of the bounds, inverting swaps them, whether it wraps or unwraps. |

## Left out

- `DecompressingInputChannel.finalize`: object finalization has no counterpart. `Close` models what it calls.
- Snappy is not part of this model. Its validity test and decompression are the `Codec` parameters. A block whose decompression does not fit the decompressed window is reported as `UncompressedTooLarge`.
- `Util.readFully` is not part of this model. `DecompressingChannel.ReadFully` stands in for it: it fills the buffer from the delegate's remaining bytes or reports that they ran out. Short reads of the underlying channel are not modelled.
- The magic numbers of the linked `Util` class are not part of this model. They enter as the `Magic` parameter.
- The linked `Uns` is not part of this model: `allocateIOException`, `directBufferFor` with an offset, and `free`. The channel allocates and frees through an `Alloc.Allocator`, which also stands in for the JNA and Unsafe allocators behind chunked `Uns`.
- `DecompressingChannel.DecompressingInputChannel.Read` requires that `dst` is not a view over the channel's own region. Aliasing the output with the internal buffer is not modelled.
- Chunked `Uns`:
  - the Unsafe reflection and the `addressSize` check of the static initialiser;
  - `copyMemory`, `getTotalAllocated` and the delegation of `crc32`;
  - logging and the printed stack traces, with traces modelled as opaque values;
  - the concurrency of the `ConcurrentHashMap` registries.
- ChunkedUns.SelectExt: whether `UnsExt8` can be loaded is a boolean parameter. A `VirtualMachineError` thrown during the load is not modelled.
- ChunkedUns.ParseInt: only ASCII digits are modelled. Java's `Integer.parseInt` also accepts other Unicode decimal digits.
- UnsExt8's atomic operations (`getAndPutLong`, `getAndAddInt`, `getAndAddLong`) are outside the named core.
- Crc32.UnsExt8Crc32: the CRC is defined bit by bit, as the shift register of the standard, rather than with `java.util.zip.CRC32`'s table. Memory is a byte sequence. The direct buffer over the range is not modelled. Lengths outside [0, Integer.MAX_VALUE] are excluded by the precondition: chunked `Uns.directBufferFor` throws for them, and the linked `Uns.directBufferFor` that `UnsExt8.crc32` calls is not part of this model.
- The `CacheSerializer` interface and `null` values are not modelled. The serializers use the `Nio.ByteBuffer` model, which is big-endian as `ByteBuffer` is by default.
- `FasterRandom.nextFloat`, `nextDouble` and `nextGaussian`, and `DistributionInverted.nextDouble`: floating point is not modelled.
- `java.util.Random` is not part of this model. Seeding it and drawing one long is the function parameter `reseedFn`. Single-threaded use is assumed, as the source's comment states.
- FasterRandomGen.XorshiftZero: of the corrected xorshift64* step's properties, only that 0 is reached only from 0 and that each step is invertible are proved. Its period is not. The generator itself runs the step as written.
- FasterRandomGen.FasterRandom.SetSeedInts: an array is a sequence, so a `null` array is not modelled. An empty array, where Java throws `ArrayIndexOutOfBoundsException`, returns false.
- The `Distribution` base class and the other distributions are not part of this model. A distribution that is not an inversion is an `Other` with its bounds, and the value it draws is a parameter.
- DistributionInv.InvertBounds, DistributionInv.InvertedBoundsSwap, DistributionInv.MinValue and DistributionInv.MaxValue: `Distribution.java` is not part of this model. `minValue()` and `maxValue()` are taken to be `inverseCumProb(0)` and `inverseCumProb(1)`, which DistributionInverted does not override. The bounds these lemmas state hold under that definition.

## Findings

| source | as written | input that shows it | evidently intended | confidence | as-written member | corrected member |
|---|---|---|---|---|---|---|
| ohc-benchmark/src/main/java/org/caffinitas/ohc/benchmark/distribution/FasterRandom.java:41 | `((long) ints[0] << 32) \| ints[1]` sign-extends `ints[1]`, so a negative `ints[1]` sets all high 32 bits | `{0, -1}` and `{1, -1}` both give seed -1; `ints[0]` is lost | `ints[1]` zero-extended (`& 0xFFFFFFFFL`), so the seed holds both ints | high; not executed | FasterRandomGen.SeedOfIntsAsWrittenLosesHigh | FasterRandomGen.SeedOfIntsInjective |
| ohc-benchmark/src/main/java/org/caffinitas/ohc/benchmark/distribution/FasterRandom.java:88-90 | the xorshift steps use `>>`, which copies the sign bit, so the state step is not injective and drops the top bit | seed -1 steps to 0, and 0 steps to 0 again; both 0 and -1 lead to 0. No negative seed follows a draw | `>>>` as in xorshift64*, so the step is a bijection that reaches 0 only from 0 | medium; not executed | FasterRandomGen.XorshiftAsWrittenCollides | FasterRandomGen.XorshiftZero |
