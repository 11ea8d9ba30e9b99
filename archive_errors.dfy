/** The checks of `init(from:verifyHeader:)` in Sources/RDGZip/GZipArchive.swift:
    what it throws, what it traps on, and in which order. */
module ArchiveErrors {
  import opened Wrappers
  import opened Bytes
  import opened Reader
  import opened GZipTypes
  import opened Archive
  import opened ArchiveLayout
  import opened ArchiveProperties

  /** The magic: a buffer too short for it traps, and any other value than 0x8b1f,
      read least-significant byte first, is thrown back as `notGZip`. */
  lemma MagicChecked(data: seq<u8>, verifyHeader: bool, crc32: seq<u8> -> u32)
    ensures |data| < 2 ==> Decoded(data, verifyHeader, crc32) == Traps
    ensures 2 <= |data| && LittleEndian(data[..2]) != ExpectedMagic as nat ==>
      var r := Decoded(data, verifyHeader, crc32);
      r.Throws? && r.error.NotGZip? && r.error.magic as nat == LittleEndian(data[..2])
  {
    if 2 <= |data| {
      assert data[..2] == data[0..2];
    }
  }

  /** The method byte after a correct magic: above 8 the forced unwrap traps, and
      every known method but deflate is thrown back. */
  lemma MethodChecked(data: seq<u8>, verifyHeader: bool, crc32: seq<u8> -> u32)
    requires 3 <= |data| && LittleEndian(data[..2]) == ExpectedMagic as nat
    ensures data[2] > 8 ==> Decoded(data, verifyHeader, crc32) == Traps
    ensures data[2] < 8 ==>
      Decoded(data, verifyHeader, crc32) == Throws(UnknownCompressionMethod(MethodFromRaw(data[2])))
  {
    assert data[..2] == data[0..2];
    assert LittleEndian(data[2..3]) == data[2] as nat;
  }

  /** With `verifyHeader` and FHCRC set, a stored CRC16 that is not the low half of
      the CRC-32 of the first ten bytes is thrown back with both values. */
  lemma HeaderCrcChecked(data: seq<u8>, crc32: seq<u8> -> u32)
    requires 12 <= |data| && LittleEndian(data[..2]) == ExpectedMagic as nat && data[2] == 8
    requires Flags(data[3]).Contains(Crc16)
    requires LittleEndian(data[10..12]) != crc32(data[..10]) as nat % 0x1_0000
    ensures var r := Decoded(data, true, crc32);
      r.Throws? && r.error.HeaderCrcFailed? && r.error.headerCrc == crc32(data[..10])
      && r.error.storedCrc16 as nat == LittleEndian(data[10..12])
  {
    assert data[..2] == data[0..2];
    assert LittleEndian(data[2..3]) == data[2] as nat;
    assert LittleEndian(data[3..4]) == data[3] as nat;
    var fixed := DecodedFixed(data);
    assert fixed.value.value.flags == Flags(data[3]);
  }

  /** Without `verifyHeader` no header CRC is ever thrown back. */
  lemma HeaderCrcUnchecked(data: seq<u8>, crc32: seq<u8> -> u32)
    ensures var r := Decoded(data, false, crc32);
      r.Throws? ==> !r.error.HeaderCrcFailed?
  {
    var fixed := DecodedFixed(data);
    if fixed.Ok? {
      var crc16 := HeaderCrc(data, 10, fixed.value.value.flags.Contains(Crc16), false, crc32);
      assert !crc16.Throws?;
    }
  }

  /** The reserved bits are looked at once the optional fields are read, in the
      order 5, 6, 7: the first one set is thrown back with its value, and with none
      set nothing more is thrown. */
  lemma ReservedFlagsChecked(data: seq<u8>, verifyHeader: bool, crc32: seq<u8> -> u32)
    requires DecodedFixed(data).Ok?
    requires DecodedOptional(data, 10, DecodedFixed(data).value.value.flags, verifyHeader, crc32).Ok?
    ensures var flags := DecodedFixed(data).value.value.flags;
      var r := Decoded(data, verifyHeader, crc32);
      (flags.Contains(Reserved5Bit) ==> r == Throws(UnknownFlag(32)))
      && (!flags.Contains(Reserved5Bit) && flags.Contains(Reserved6Bit) ==> r == Throws(UnknownFlag(64)))
      && ((!flags.Contains(Reserved5Bit) && !flags.Contains(Reserved6Bit) && flags.Contains(Reserved7Bit))
            ==> r == Throws(UnknownFlag(128)))
      && ((!flags.Contains(Reserved5Bit) && !flags.Contains(Reserved6Bit) && !flags.Contains(Reserved7Bit))
            ==> !r.Throws?)
  {
  }

  /** No buffer shorter than the fixed header and the trailer decodes. */
  lemma ShortInputRejected(data: seq<u8>, verifyHeader: bool, crc32: seq<u8> -> u32)
    requires |data| < 18
    ensures !Decoded(data, verifyHeader, crc32).Ok?
  {
    if Decoded(data, verifyHeader, crc32).Ok? {
      DecodedConsistent(data, verifyHeader, crc32);
    }
  }

  /** The flag byte of a decoded buffer is the archive's. */
  lemma DecodedFlagByte(data: seq<u8>, verifyHeader: bool, crc32: seq<u8> -> u32)
    requires Decoded(data, verifyHeader, crc32).Ok?
    ensures 4 <= |data| && Decoded(data, verifyHeader, crc32).value.flags == Flags(data[3])
  {
    var a := Decoded(data, verifyHeader, crc32).value;
    DecodedConsistent(data, verifyHeader, crc32);
    FixedHeaderSlices(a);
    assert data[3..4] == FixedHeaderBytes(a)[3..4];
    assert LittleEndian(data[3..4]) == data[3] as nat;
  }

  /** A buffer that announces a file name and a comment and holds a zero byte never
      decodes: the comment's `asciiz()` finds the name's terminator, which lies
      before the cursor, and traps. */
  lemma NameWithCommentRejected(data: seq<u8>, verifyHeader: bool, crc32: seq<u8> -> u32)
    requires 4 <= |data| && !NoZero(data)
    requires Flags(data[3]).Contains(OriginalFileName) && Flags(data[3]).Contains(Comment)
    ensures !Decoded(data, verifyHeader, crc32).Ok?
  {
    if Decoded(data, verifyHeader, crc32).Ok? {
      DecodedFlagByte(data, verifyHeader, crc32);
      EncodedCorrectedOfDecoded(data, verifyHeader, crc32);
    }
  }
}
