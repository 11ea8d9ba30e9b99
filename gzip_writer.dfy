/** The append-only byte sink of Sources/RDGZip/GZipWriter.swift. */
module Writer {
  import opened Wrappers
  import opened Bytes

  class GZipWriter {
    var data: seq<u8>

    constructor ()
      ensures data == []
    {
      data := [];
    }

    /** `write(integer:)` for a `size`-byte type: its bytes in host
        (little-endian) order are appended. */
    method WriteInteger(value: nat, size: nat)
      requires value < Pow256(size)
      modifies this
      ensures data == old(data) + ToLittleEndian(value, size)
    {
      data := data + ToLittleEndian(value, size);
    }

    /** `write(asciiz:)`: `encoded` is what `value.data(using: .utf8)` gives for
        the string, `None` when Foundation reports no encoding. The bytes and one
        zero byte are appended and their count returned; without an encoding
        nothing is appended and 0 is returned. */
    method WriteAsciiz(encoded: Option<seq<u8>>) returns (n: nat)
      modifies this
      ensures encoded.None? ==> n == 0 && data == old(data)
      ensures encoded.Some? ==> n == |encoded.value| + 1 && data == old(data) + encoded.value + [0]
    {
      if encoded.Some? {
        data := data + encoded.value;
        data := data + [0];
        return |encoded.value| + 1;
      }
      return 0;
    }

    /** `write(data:)`: the bytes are appended verbatim. */
    method WriteData(value: seq<u8>)
      modifies this
      ensures data == old(data) + value
    {
      data := data + value;
    }
  }
}
