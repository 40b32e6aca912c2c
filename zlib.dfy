/** The compression library the log calls (`zlib.compress`, `zlib.decompress`), kept abstract. */
module Zlib {
  import opened Bytes

  /** The compression level every record is written with. */
  const Level: int := 2

  /**
   * A codec as the host supplies it: `compress(data, level)` and `decompress(data)`.
   * Its inner workings are not modelled; the log only relies on `Lossless`.
   */
  datatype Codec = Codec(compress: (seq<byte>, int) -> seq<byte>, decompress: seq<byte> -> seq<byte>)

  /** What zlib promises: decompressing a compressed record gives the record back. */
  ghost predicate Lossless(z: Codec)
  {
    forall data: seq<byte>, level: int :: z.decompress(z.compress(data, level)) == data
  }
}
