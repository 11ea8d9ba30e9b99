/** The checks of Sources/RDGZip/GZipCompression.swift around Apple's raw buffer
    codecs. The codecs are parameters: `encodeBuffer(input)` is what
    `compression_encode_buffer` writes (nothing on failure); `decodeBuffer(input, c)`
    is what `compression_decode_buffer` writes into a buffer of capacity `c`. */
module Compression {
  import opened Bytes
  import opened GZipTypes

  /** UInt32.max, the modulus the Swift code uses. */
  const UInt32Max: nat := 0xFFFF_FFFF

  /** `compress(data:)`: zero bytes written is `encodeFailed`. */
  function Compress(encodeBuffer: seq<u8> -> seq<u8>, input: seq<u8>): (r: Outcome<seq<u8>>)
    ensures !r.Traps?
    ensures r.Ok? ==> |r.value| > 0 && r.value == encodeBuffer(input)
    ensures r.Throws? ==> r.error == EncodeFailed && encodeBuffer(input) == []
  {
    var written := encodeBuffer(input);
    if |written| == 0 then Throws(EncodeFailed) else Ok(written)
  }

  /** `decompress(data:outputSize:)`: the byte count written is compared with
      `outputSize` modulo UInt32.max. Since the codec never writes more than the
      capacity, this accepts exactly a full buffer, and never one of UInt32.max bytes. */
  function Decompress(decodeBuffer: (seq<u8>, nat) -> seq<u8>, input: seq<u8>,
                      outputSize: u32): (r: Outcome<seq<u8>>)
    requires forall d, c :: |decodeBuffer(d, c)| <= c
    ensures !r.Traps?
    ensures r.Ok? <==> |decodeBuffer(input, outputSize as nat)| == outputSize as nat
                       && outputSize as nat != UInt32Max
    ensures r.Ok? ==> |r.value| == outputSize as nat && r.value == decodeBuffer(input, outputSize as nat)
    ensures r.Throws? ==>
      r.error == DecodedLengthMismatch(|decodeBuffer(input, outputSize as nat)|, outputSize)
  {
    var written := decodeBuffer(input, outputSize as nat);
    if |written| % UInt32Max == outputSize as nat then
      Ok(written)
    else
      Throws(DecodedLengthMismatch(|written|, outputSize))
  }
}
