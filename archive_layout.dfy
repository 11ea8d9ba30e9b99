/** The shapes of archives and buffers that the properties of the archive codec of
    Sources/RDGZip/GZipArchive.swift are stated in. */
module ArchiveLayout {
  import opened Bytes
  import opened GZipTypes
  import opened Archive

  /** What `init(from:)` guarantees of every archive it returns: the magic, deflate,
      no reserved bit, each optional field present exactly when its flag is set and
      the extra field as long as its stored length. */
  predicate Consistent(a: GZipArchive)
  {
    a.magic == ExpectedMagic && a.compressionMethod == Deflate
    && !a.flags.Contains(Reserved5Bit) && !a.flags.Contains(Reserved6Bit)
    && !a.flags.Contains(Reserved7Bit)
    && (a.crc16.Some? <==> a.flags.Contains(Crc16))
    && (a.extraField.Some? <==> a.flags.Contains(ExtraField))
    && (a.extraFieldLength.Some? <==> a.extraField.Some?)
    && (a.extraField.Some? ==>
          |a.extraField.value| < 0x1_0000 && a.extraFieldLength.value as int == |a.extraField.value|)
    && (a.originalFileName.Some? <==> a.flags.Contains(OriginalFileName))
    && (a.comment.Some? <==> a.flags.Contains(Comment))
  }

  /** The header bytes in front of the file name and the comment. */
  function NamePrefix(a: GZipArchive): (b: seq<u8>)
    requires Consistent(a)
  {
    FixedHeaderBytes(a) + Crc16Bytes(a) + ExtraBytes(a, 2)
  }

  /** When `asciiz()` can read the strings back: as it looks for the first zero of the
      whole buffer, nothing before a string may hold a zero byte, which also rules out
      a file name and a comment together. */
  predicate Readable(a: GZipArchive)
    requires Consistent(a)
  {
    (a.originalFileName.Some? ==>
       a.comment.None? && NoZero(NamePrefix(a)) && NoZero(a.originalFileName.value))
    && (a.comment.Some? ==>
          a.originalFileName.None? && NoZero(NamePrefix(a)) && NoZero(a.comment.value))
  }

  /** The stored CRC16 is the low half of the CRC-32 of the fixed header. */
  predicate HeaderCrcMatches(a: GZipArchive, crc32: seq<u8> -> u32)
  {
    a.crc16.Some? ==> a.crc16.value as int == crc32(FixedHeaderBytes(a)) as int % 0x1_0000
  }

  /** Where the strings begin: after the CRC16 and the extra field. */
  function StringsStart(a: GZipArchive, index: nat): (n: nat)
    requires a.extraField.Some? ==> |a.extraField.value| < 0x1_0000
  {
    index + |Crc16Bytes(a)| + |ExtraBytes(a, 2)|
  }

  /** The file name and the comment, each zero terminated when present. */
  function StringBytes(a: GZipArchive): (b: seq<u8>)
  {
    AsciizBytes(a.originalFileName) + AsciizBytes(a.comment)
  }

  /** The bytes between an archive's fixed header and its payload. */
  function OptionalBytes(a: GZipArchive): (b: seq<u8>)
    requires a.extraField.Some? ==> |a.extraField.value| < 0x1_0000
  {
    Crc16Bytes(a) + ExtraBytes(a, 2) + AsciizBytes(a.originalFileName) + AsciizBytes(a.comment)
  }

  /** `init(from:)` returns `a` stage by stage: the fixed header with no reserved bit,
      then the later stages. */
  predicate DecodesInStages(data: seq<u8>, verifyHeader: bool, crc32: seq<u8> -> u32, a: GZipArchive)
  {
    FixedStage(data, a) && LaterStages(data, verifyHeader, crc32, a)
  }

  /** The fixed header of `data` holds `a`'s fields, and no reserved bit is set. */
  predicate FixedStage(data: seq<u8>, a: GZipArchive)
  {
    a.magic == ExpectedMagic
    && DecodedFixed(data).Ok?
    && DecodedFixed(data).value.value
       == FixedFields(a.compressionMethod, a.flags, a.modificationTime, a.compressionFlags, a.osType)
    && !a.flags.Contains(Reserved5Bit) && !a.flags.Contains(Reserved6Bit)
    && !a.flags.Contains(Reserved7Bit)
  }

  /** From offset 10 on, `data` holds `a`'s binary fields, then its strings, then its
      payload and trailer. */
  predicate LaterStages(data: seq<u8>, verifyHeader: bool, crc32: seq<u8> -> u32, a: GZipArchive)
  {
    10 <= |data|
    && DecodedBinary(data, 10, a.flags, verifyHeader, crc32).Ok?
    && DecodedBinary(data, 10, a.flags, verifyHeader, crc32).value.value
       == BinaryFields(a.crc16, a.extraFieldLength, a.extraField)
    && var i := DecodedBinary(data, 10, a.flags, verifyHeader, crc32).value.next;
    DecodedStrings(data, i, a.flags).Ok?
    && DecodedStrings(data, i, a.flags).value.value == StringFields(a.originalFileName, a.comment)
    && DecodedTrailer(data, DecodedStrings(data, i, a.flags).value.next)
       == Ok(Trailer(a.compressedData, a.uncompressedDataCrc32, a.uncompressedSize))
  }

  /** Where `init(from:)` finds the fields it reads: the fixed header in the first ten
      bytes, a CRC16 in the two bytes at offset 10 (section 2.3 of RFC 1952 puts FHCRC
      after the comment instead), and the payload before the 8-byte trailer of CRC-32
      and size, which ends the buffer. */
  predicate Framed(data: seq<u8>, a: GZipArchive)
  {
    18 + |a.compressedData| <= |data|
    && data[..10] == FixedHeaderBytes(a)
    && (a.crc16.Some? ==> data[10..12] == ToLittleEndian(a.crc16.value as nat, 2))
    && data[|data| - 8 - |a.compressedData|..] == PayloadBytes(a)
  }

  /** Where each part of a consistent archive sits in a buffer laid out as its
      encoding with a two-byte extra length. */
  predicate LaidOut(data: seq<u8>, a: GZipArchive)
    requires Consistent(a)
  {
    var i := StringsStart(a, 10);
    i + |StringBytes(a)| <= |data|
    && data[..10] == FixedHeaderBytes(a)
    && data[10..i] == Crc16Bytes(a) + ExtraBytes(a, 2)
    && data[..i] == NamePrefix(a)
    && data[i..i + |StringBytes(a)|] == StringBytes(a)
    && data[i + |StringBytes(a)|..] == PayloadBytes(a)
  }
}
