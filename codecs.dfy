/** SHA-1 (FIPS 180-4) and the zlib format (RFC 1950) are not part of this
    model: every operation that needs them receives them as a value of type
    `Codecs`. The only facts the model uses are that a digest is 20 bytes
    long and that decompression undoes compression. */
module Codecs {
  import opened Bytes

  datatype ExternalCodecs = ExternalCodecs(
    sha1: Bytes -> B20,
    compress: Bytes -> Bytes,
    decompress: Bytes -> Bytes)

  /** `decompress(compress(x)) == x` for every byte string. */
  ghost predicate ZlibRoundTrips(c: ExternalCodecs) {
    forall x :: c.decompress(c.compress(x)) == x
  }

  type Codecs = c: ExternalCodecs | ZlibRoundTrips(c)
    witness ExternalCodecs(_ => [0, 0, 0, 0, 0, 0, 0, 0, 0, 0, 0, 0, 0, 0, 0, 0, 0, 0, 0, 0], x => x, x => x)

  /** `create_sha1`: the digest as 40 lowercase hexadecimal digits. */
  function Sha1Hex(c: Codecs, input: Bytes): (h: string)
    ensures |h| == 40 && forall i :: 0 <= i < 40 ==> IsLowerHexDigit(h[i])
    ensures IsHex(h) && HexDecode(h) == c.sha1(input)
  {
    HexDecodeHex(c.sha1(input));
    Hex(c.sha1(input))
  }
}
