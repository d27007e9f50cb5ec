# Entwine size framing and build manifest, in Dafny

This project models two small pieces of Entwine, the point-cloud indexer.

**Size framing (`Compression::pushSize` / `Compression::popSize`).** A compressed
blob is stored together with its uncompressed size. `pushSize` is meant to append
the size as an 8-byte marker to the blob's `std::vector<char>`, in place. As written
it appends 8 bytes, but only the first, the low byte of the size, comes from the
size; the other 7 are read from memory past it (see "## Findings"). `popSize` checks that
the vector holds at least 8 bytes and throws "Invalid uncompressed size" if it does
not. Otherwise it reads the trailing 8 bytes as a `uint64_t` and shrinks the vector
by 8, in place.

- The vector is the class `Compression.ByteVector`, whose `data: seq<byte>` field the
  methods `PushSize` and `PopSize` reassign.
- The throw is the `Failure(InvalidUncompressedSize)` result.
- Both methods are proved against the pure functions `Framed` and `Unframed`.
- The inverse law and the error cases are proved as lemmas about those functions.
- `popSize` reads the trailing 8 bytes with `memcpy`, so it reads them in the host's
  native byte order. The intended `pushSize` (an insert of the `char` range over
  `size`) would write the same order. The model fixes that order to
  **little-endian**: least significant byte first (`Bytes.ToBytes` / `Bytes.FromBytes`).
- `Compression.PushSize` writes the intended 8 bytes. `Compression.PushSizeAsWritten`
  models what the code actually appends.

**Manifest (`manifest::Item`, `manifest::create`).** `create` turns a list of input
sources into a list of manifest items, one per source, in order. Each item copies
the source's path, point count, bounds and info. It starts with `inserted = false`
and an empty error. This part is pure: it is modelled as datatypes, the functions
`ItemOf` and `Create`, and lemmas.

Files: `wrappers.dfy` (Option, Result), `bytes.dfy` (bytes, `uint64`, the
little-endian codec), `compression.dfy` (framing), `manifest.dfy` (manifest).

## Model

| member | source | states |
|---|---|---|
| `Bytes.EncodeU64` | entwine/compression/util.cpp:73 | the 8 bytes written for a size decode back to that size |
| `Bytes.DecodeU64` | entwine/compression/util.cpp:86 | the size read from 8 bytes re-encodes to exactly those 8 bytes |
| `Bytes.FromToBytes` | entwine/compression/util.cpp:86 | decoding the little-endian bytes of any number that fits the width gives back that number |
| `Bytes.ToFromBytes` | entwine/compression/util.cpp:86 | re-encoding a decoded byte sequence at its own width gives back the bytes |
| `Bytes.ToBytesInjective` | entwine/compression/util.cpp:73 | two numbers of the same width have equal byte encodings if and only if they are equal |
| `Bytes.DecodeEncodeU64` | entwine/compression/util.cpp:73 | popSize's read recovers every 64-bit value that pushSize writes |
| `Bytes.EncodeDecodeU64` | entwine/compression/util.cpp:86 | every 8-byte marker is the encoding of the size read from it |
| `Compression.Framed` | entwine/compression/util.cpp:71-74 | a framed blob is 8 bytes longer than the original, keeps the original bytes in place as its prefix, and its last 8 bytes decode to the size |
| `Compression.Unframed` | entwine/compression/util.cpp:76-90 | fails with "Invalid uncompressed size" exactly when the blob is under 8 bytes. On success the payload is 8 bytes shorter, and the payload framed with the returned size is the original blob, so the read window lies inside the blob |
| `Compression.UnframedValue` | entwine/compression/util.cpp:86 | a successful pop returns the little-endian value of exactly the blob's last 8 bytes |
| `Compression.UnframedFramed` | entwine/compression/util.cpp:71-90 | popping a just-pushed marker returns the pushed size and the original blob, for every blob and every 64-bit size |
| `Compression.FramedUnframed` | entwine/compression/util.cpp:76-90 | popping from a blob of 8 or more bytes succeeds, and pushing the popped size back rebuilds the blob |
| `Compression.FramedInjective` | entwine/compression/util.cpp:71-74 | two framed blobs are equal if and only if their payloads and sizes are equal |
| `Compression.PushSize` | entwine/compression/util.cpp:71-74 | the vector, in place, becomes its old contents framed with the size |
| `Compression.PopSize` | entwine/compression/util.cpp:76-90 | under 8 bytes: fails with "Invalid uncompressed size" and leaves the vector unchanged. Otherwise: returns the size decoded from the old last 8 bytes and truncates the vector, in place, to its old prefix. This agrees with `Unframed` |
| `Compression.PushPopSize` | entwine/compression/util.cpp:71-90 | pushSize then popSize on one vector returns the pushed size and leaves the vector byte-identical |
| `Compression.PushSizeAsWritten` | entwine/compression/util.cpp:73 | the code as written still grows the blob by exactly 8 and pops back to the original prefix |
| `Compression.AsWrittenRoundTrip` | entwine/compression/util.cpp:73 | as written, popSize returns the pushed size if and only if the 7 over-read bytes equal the upper 7 bytes of the size |
| `Compression.AsWrittenPoppedValue` | entwine/compression/util.cpp:73 | as written, popSize returns the size's low byte plus 256 times the little-endian value of the 7 over-read bytes |
| `Compression.AsWrittenLosesSize` | entwine/compression/util.cpp:71-90 | as written, pushing 256 onto an empty blob with zero memory past the size pops back as 0 |
| `Manifest.ItemOf` | entwine/types/manifest.hpp:24-49 | an item built from a source is not inserted and has no error. It carries the source's info, with points and bounds equal to that info. Path and info give back exactly the source |
| `Manifest.ItemOfUnique` | entwine/types/manifest.hpp:24-49 | the item built from a source is the only pristine, consistent item whose source is that source |
| `Manifest.Create` | entwine/types/manifest.hpp:53-56 | one item per source: the output length equals the input length, and item i is built from source i |
| `Manifest.SourcesCreate` | entwine/types/manifest.hpp:53-56 | the sources, in their original order, can be read back from the created items |
| `Manifest.CreateInjective` | entwine/types/manifest.hpp:53-56 | two source lists give the same manifest if and only if they are equal |
| `Manifest.CreatedItemsFresh` | entwine/types/manifest.hpp:42-56 | every freshly created item is not inserted, has an empty error, has info present, and has points and bounds equal to that info |
| `Manifest.CreateAppend` | entwine/types/manifest.hpp:53-56 | creating from two concatenated source lists gives the concatenation of the two manifests |

## Left out

- `Compression::compress` and `Compression::decompress` (entwine/compression/util.cpp:22-69) only drive `pdal::LazPerfCompressor`, `LazPerfDecompressor` and `CompressionStream`. None of these is part of this model. The lossless round trip is a property of LazPerf, not of this code.
- Native byte order: the size marker is fixed to little-endian. On a big-endian host `popSize` reads (and the intended `pushSize` would write) the opposite order.
- The bytes that line 73 reads past `size` are undefined behaviour. `PushSize` writes the intended 8 bytes of the size. `PushSizeAsWritten` takes the over-read bytes as a parameter (see Findings).
- `char` signedness: vector elements are modelled as unsigned byte values 0..255. `memcpy` copies bit patterns, so this changes nothing observable.
- `std::vector` allocation and reallocation, and the exceptions they can throw (`std::bad_alloc`), are not modelled.
- `source::Info` is reduced to the two fields an item reads, `points` and `bounds`. Its other fields are copied unchanged by `Item`'s `info` member, so leaving them out loses nothing here. `Bounds` is two points of reals: its geometry and floating-point behaviour are not modelled.
- `Schema`, `pdalLayout().dimTypes()` and the dimension-layout system are not part of this model.

## Findings

| source | as written | input that shows it | evidently intended | confidence | as-written member | corrected member |
|---|---|---|---|---|---|---|
| entwine/compression/util.cpp:73 | `data.insert(data.end(), &size, &size + sizeof(uint64_t))` iterates over `uint64_t*`. It appends 8 words, each narrowed to `char`. Only the first word comes from `size`, and it contributes only the low byte. The other 7 are read past `size`, which is undefined behaviour | `pushSize` of 256 onto an empty vector. If the 7 over-read bytes are zero, `popSize` returns 0 | append the 8 bytes of `size` (a `char*` range), so that `popSize` returns the pushed size | not executed | `Compression.AsWrittenPoppedValue`, `Compression.AsWrittenRoundTrip`, `Compression.AsWrittenLosesSize` (over `Compression.PushSizeAsWritten`) | `Compression.PushSize` with `Compression.UnframedFramed` and `Compression.PushPopSize` |
