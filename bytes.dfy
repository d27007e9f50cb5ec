/**
 * Bytes and 64-bit unsigned integers, and the byte order of the size marker.
 *
 * `popSize` reads the trailing 8 bytes into a `uint64_t` with `memcpy`, so it
 * reads them in the host's native byte order. The evidently intended
 * `pushSize`, an insert of the `char` range over `size`, would write that same
 * order. Native order cannot be represented here; the model fixes it to
 * little-endian (least significant byte first), the order of the usual x86-64
 * and ARM hosts. (`pushSize` as written does not write these 8 bytes; see
 * `Compression.PushSizeAsWritten`.)
 */
module Bytes {

  /** One element of a `std::vector<char>`, read as its unsigned byte value. */
  type byte = b: int | 0 <= b < 0x100

  /** `uint64_t`. */
  type uint64 = n: int | 0 <= n < 0x1_0000_0000_0000_0000

  /** `sizeof(uint64_t)`: the width of the size marker in bytes. */
  const Uint64Width: nat := 8

  /** 256 to the power `k`: the number of values `k` bytes can hold. */
  function Pow256(k: nat): (r: nat)
    ensures r > 0
  {
    if k == 0 then 1 else 0x100 * Pow256(k - 1)
  }

  lemma Pow256OfUint64Width()
    ensures Pow256(Uint64Width) == 0x1_0000_0000_0000_0000
  {
  }

  /** The `width` bytes of `n`, least significant first. */
  function ToBytes(n: nat, width: nat): (bytes: seq<byte>)
    requires n < Pow256(width)
    ensures |bytes| == width
  {
    if width == 0 then [] else [n % 0x100] + ToBytes(n / 0x100, width - 1)
  }

  /** The number whose little-endian bytes are `bytes`. */
  function FromBytes(bytes: seq<byte>): (n: nat)
    ensures n < Pow256(|bytes|)
  {
    if bytes == [] then 0 else bytes[0] + 0x100 * FromBytes(bytes[1..])
  }

  /** Decoding the bytes of a number gives back that number. */
  lemma {:induction false} FromToBytes(n: nat, width: nat)
    requires n < Pow256(width)
    ensures FromBytes(ToBytes(n, width)) == n
  {
    if width > 0 {
      FromToBytes(n / 0x100, width - 1);
      assert ToBytes(n, width)[1..] == ToBytes(n / 0x100, width - 1);
    }
  }

  /** Encoding a decoded byte sequence in its own width gives back the bytes. */
  lemma {:induction false} ToFromBytes(bytes: seq<byte>)
    ensures ToBytes(FromBytes(bytes), |bytes|) == bytes
  {
    if bytes != [] {
      var n := FromBytes(bytes);
      assert n % 0x100 == bytes[0] && n / 0x100 == FromBytes(bytes[1..]);
      ToFromBytes(bytes[1..]);
    }
  }

  /** Two numbers of the same width with the same bytes are equal. */
  lemma ToBytesInjective(m: nat, n: nat, width: nat)
    requires m < Pow256(width) && n < Pow256(width)
    ensures ToBytes(m, width) == ToBytes(n, width) <==> m == n
  {
    if ToBytes(m, width) == ToBytes(n, width) {
      FromToBytes(m, width);
      FromToBytes(n, width);
    }
  }

  /** The 8 bytes of a `uint64_t` as they lie in memory on a little-endian host. */
  function EncodeU64(n: uint64): (bytes: seq<byte>)
    ensures |bytes| == Uint64Width
    ensures FromBytes(bytes) == n
  {
    Pow256OfUint64Width();
    FromToBytes(n, Uint64Width);
    ToBytes(n, Uint64Width)
  }

  /** The `uint64_t` that `memcpy` reads from 8 little-endian bytes. */
  function DecodeU64(bytes: seq<byte>): (n: uint64)
    requires |bytes| == Uint64Width
    ensures ToBytes(n, Uint64Width) == bytes
  {
    Pow256OfUint64Width();
    ToFromBytes(bytes);
    FromBytes(bytes)
  }

  /** Decoding undoes encoding, for every 64-bit value. */
  lemma DecodeEncodeU64(n: uint64)
    ensures DecodeU64(EncodeU64(n)) == n
  {
  }

  /** Encoding undoes decoding, for every 8-byte sequence. */
  lemma EncodeDecodeU64(bytes: seq<byte>)
    requires |bytes| == Uint64Width
    ensures EncodeU64(DecodeU64(bytes)) == bytes
  {
  }
}
