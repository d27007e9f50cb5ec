/**
 * The size-framing utility of `Compression`: `pushSize` appends an 8-byte
 * uncompressed-size marker to a byte vector in place, and `popSize` removes
 * it again and returns the size, throwing "Invalid uncompressed size" when
 * the vector is too short to hold a marker.
 *
 * A framed blob is `[payload bytes][8 bytes: size, little-endian]`.
 */
module Compression {
  import opened Bytes
  import opened Wrappers

  /** What `popSize` throws (a `std::runtime_error`). */
  datatype Error = RuntimeError(message: string)

  const InvalidUncompressedSize: Error := RuntimeError("Invalid uncompressed size")

  /** The growable byte buffer (`std::vector<char>`) the framing works on, in place. */
  class ByteVector {
    var data: seq<byte>

    constructor (contents: seq<byte>)
      ensures data == contents
    {
      data := contents;
    }
  }

  // ---------------------------------------------------------------------
  // Specification: framing as functions on byte sequences
  // ---------------------------------------------------------------------

  /** `blob` with the marker for `size` appended. */
  function Framed(blob: seq<byte>, size: uint64): (r: seq<byte>)
    ensures |r| == |blob| + Uint64Width
    ensures r[..|blob|] == blob
    ensures DecodeU64(r[|blob|..]) == size
  {
    DecodeEncodeU64(size);
    blob + EncodeU64(size)
  }

  /**
   * Splits a framed blob into the size its marker holds and the payload in
   * front of it. Fails exactly when the blob is shorter than a marker, and on
   * success the blob is precisely the payload framed with that size, so the
   * read window (the last 8 bytes) always lies inside the blob.
   */
  function Unframed(blob: seq<byte>): (r: Result<(uint64, seq<byte>), Error>)
    ensures r.Failure? <==> |blob| < Uint64Width
    ensures r.Failure? ==> r.error == InvalidUncompressedSize
    ensures r.Success? ==> |r.value.1| == |blob| - Uint64Width
    ensures r.Success? ==> Framed(r.value.1, r.value.0) == blob
  {
    if |blob| < Uint64Width then
      Failure(InvalidUncompressedSize)
    else
      var start := |blob| - Uint64Width;
      var size := DecodeU64(blob[start..]);
      EncodeDecodeU64(blob[start..]);
      assert blob[..start] + EncodeU64(size) == blob;
      Success((size, blob[..start]))
  }

  /** Popping the marker that was just pushed returns its size and the original blob. */
  lemma UnframedFramed(blob: seq<byte>, size: uint64)
    ensures Unframed(Framed(blob, size)) == Success((size, blob))
  {
  }

  /** A successful pop can be undone by pushing the popped size back. */
  lemma FramedUnframed(blob: seq<byte>)
    requires |blob| >= Uint64Width
    ensures Unframed(blob).Success?
    ensures Framed(Unframed(blob).value.1, Unframed(blob).value.0) == blob
  {
  }

  /** Two framed blobs are equal only if payload and size are. */
  lemma FramedInjective(a: seq<byte>, m: uint64, b: seq<byte>, n: uint64)
    ensures Framed(a, m) == Framed(b, n) <==> a == b && m == n
  {
  }

  // ---------------------------------------------------------------------
  // The in-place operations
  // ---------------------------------------------------------------------

  /**
   * `Compression::pushSize`: appends the 8 bytes of `size` to the end of `v`.
   *
   * The C++ passes `&size` and `&size + sizeof(uint64_t)` to `insert`; these
   * are `uint64_t*` iterators, so it appends 8 WORDS narrowed to `char`, of
   * which only the first comes from `size` and the other 7 are read past it.
   * Length and prefix follow the code exactly; the bytes written are the
   * evidently intended ones, the 8 bytes of `size` in the order `PopSize`
   * reads them. `PushSizeAsWritten` below models the code as it stands.
   */
  method PushSize(v: ByteVector, size: uint64)
    modifies v
    ensures v.data == Framed(old(v.data), size)
  {
    v.data := v.data + EncodeU64(size);
  }

  /**
   * `Compression::popSize`: reads the trailing 8 bytes of `v` as a size and
   * truncates `v` by 8, or fails, leaving `v` as it was, when `v` holds fewer
   * than 8 bytes.
   */
  method PopSize(v: ByteVector) returns (r: Result<uint64, Error>)
    modifies v
    ensures |old(v.data)| < Uint64Width ==> r == Failure(InvalidUncompressedSize) && v.data == old(v.data)
    ensures |old(v.data)| >= Uint64Width ==>
      r == Success(DecodeU64(old(v.data)[|old(v.data)| - Uint64Width..])) &&
      v.data == old(v.data)[..|old(v.data)| - Uint64Width]
    ensures r.Success? <==> Unframed(old(v.data)).Success?
    ensures r.Success? ==> Unframed(old(v.data)) == Success((r.value, v.data))
  {
    var popSize := Uint64Width;
    if |v.data| < popSize {
      return Failure(InvalidUncompressedSize);
    }
    var size := DecodeU64(v.data[|v.data| - popSize..]);
    v.data := v.data[..|v.data| - popSize];
    return Success(size);
  }

  /** `pushSize` then `popSize` on the same vector returns the size and restores the vector. */
  method PushPopSize(v: ByteVector, size: uint64) returns (r: Result<uint64, Error>)
    modifies v
    ensures r == Success(size)
    ensures v.data == old(v.data)
  {
    PushSize(v, size);
    UnframedFramed(old(v.data), size);
    r := PopSize(v);
  }

  // ---------------------------------------------------------------------
  // pushSize as written
  // ---------------------------------------------------------------------

  /**
   * What line 73 appends: 8 elements, the first `size` narrowed to `char`
   * (its low byte), the other 7 narrowed from the words in memory after
   * `size`, which the model takes as the parameter `overread`.
   */
  function PushSizeAsWritten(blob: seq<byte>, size: uint64, overread: seq<byte>): (r: seq<byte>)
    requires |overread| == Uint64Width - 1
    ensures |r| == |blob| + Uint64Width
    ensures Unframed(r).Success? && Unframed(r).value.1 == blob
  {
    var r := blob + [size % 0x100] + overread;
    assert r[..|blob|] == blob;
    r
  }

  /**
   * The as-written push pops back as `size` exactly when the 7 over-read bytes
   * happen to be the upper 7 bytes of `size`.
   */
  lemma AsWrittenRoundTrip(blob: seq<byte>, size: uint64, overread: seq<byte>)
    requires |overread| == Uint64Width - 1
    ensures size / 0x100 < Pow256(Uint64Width - 1)
    ensures Unframed(PushSizeAsWritten(blob, size, overread)).value.0 == size
        <==> overread == ToBytes(size / 0x100, Uint64Width - 1)
  {
    Pow256OfUint64Width();
    var pushed := PushSizeAsWritten(blob, size, overread);
    var got := Unframed(pushed).value.0;
    assert pushed[|blob|..] == [size % 0x100] + overread;
    assert EncodeU64(got) == [size % 0x100] + overread;
    assert EncodeU64(size) == [size % 0x100] + ToBytes(size / 0x100, Uint64Width - 1);
    ToBytesInjective(got, size, Uint64Width);
  }

  /** A successful pop returns the little-endian value of the blob's last 8 bytes. */
  lemma UnframedValue(blob: seq<byte>)
    requires |blob| >= Uint64Width
    ensures Unframed(blob).value.0 == FromBytes(blob[|blob| - Uint64Width..])
  {
    var size := Unframed(blob).value.0;
    assert blob[|blob| - Uint64Width..] == EncodeU64(size);
  }

  /**
   * What the as-written push pops back as: the low byte of `size` plus 256
   * times the value of the 7 over-read bytes.
   */
  lemma AsWrittenPoppedValue(blob: seq<byte>, size: uint64, overread: seq<byte>)
    requires |overread| == Uint64Width - 1
    ensures Unframed(PushSizeAsWritten(blob, size, overread)).value.0
        == size % 0x100 + 0x100 * FromBytes(overread)
  {
    var pushed := PushSizeAsWritten(blob, size, overread);
    var tail := pushed[|pushed| - Uint64Width..];
    UnframedValue(pushed);
    assert tail == [size % 0x100] + overread;
    assert tail[1..] == overread;
  }

  /** With zeros past `size`, pushing 256 onto an empty blob pops back as 0. */
  lemma AsWrittenLosesSize()
    ensures Unframed(PushSizeAsWritten([], 256, [0, 0, 0, 0, 0, 0, 0])).value.0 == 0
  {
  }
}
