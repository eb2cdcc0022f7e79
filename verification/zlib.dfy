/** The compressor and the inflater together. */
module Zlib {
  import opened Bits
  import opened Deflater
  import opened Inflater
  import opened InflateFuel
  import opened InflateSpec

  /** What the inflater's tables and bit buffer make of the compressor's output is its input. */
  method CompressAndInflate(data: seq<byte>, quality: int) returns (status: Status, out: seq<byte>)
    ensures status == Ok && out == data
  {
    hide Inflate, InflateAll;
    var z, tokens := ZlibCompress(data, quality);
    status, out := ZlibDecode(z, true);
    FuelDecides(z, true, 8 * |z| + |data| + 1);
  }
}
