/** Properties of the archive codec of Sources/RDGZip/GZipArchive.swift. */
module ArchiveProperties {
  import opened Wrappers
  import opened Bytes
  import opened Reader
  import opened GZipTypes
  import opened Archive
  import opened ArchiveLayout
  import Compression

  // ---------------------------------------------------------------------------
  // Slicing helpers

  lemma IntegerAtSlice(data: seq<u8>, i: nat, k: nat, v: nat)
    requires v < Pow256(k) && i + k <= |data| && data[i..i + k] == ToLittleEndian(v, k)
    ensures IntegerAt(data, i, k) == Step(v, i + k)
  {
    ToLittleEndianInjective(IntegerAt(data, i, k).value, v, k);
  }

  // ---------------------------------------------------------------------------
  // Decoding what was encoded

  lemma FixedHeaderSlices(a: GZipArchive)
    ensures var h := FixedHeaderBytes(a);
      h[0..2] == ToLittleEndian(a.magic as nat, 2)
      && h[2..3] == ToLittleEndian(a.compressionMethod.RawValue() as nat, 1)
      && h[3..4] == ToLittleEndian(a.flags.rawValue as nat, 1)
      && h[4..8] == ToLittleEndian(a.modificationTime as nat, 4)
      && h[8..9] == ToLittleEndian(a.compressionFlags as nat, 1)
      && h[9..10] == ToLittleEndian(a.osType as nat, 1)
  {
  }

  /** The first ten bytes of an encoding decode to the archive's fixed fields. */
  lemma DecodedFixedOfBytes(data: seq<u8>, a: GZipArchive)
    requires 10 <= |data| && data[..10] == FixedHeaderBytes(a)
    requires a.magic == ExpectedMagic && a.compressionMethod == Deflate
    ensures DecodedFixed(data) == Ok(Read(FixedFields(Deflate, a.flags, a.modificationTime,
                                                      a.compressionFlags, a.osType), 10))
  {
    var h := FixedHeaderBytes(a);
    FixedHeaderSlices(a);
    assert data[0..2] == h[0..2];
    assert data[2..3] == h[2..3];
    assert data[3..4] == h[3..4];
    assert data[4..8] == h[4..8];
    assert data[8..9] == h[8..9];
    assert data[9..10] == h[9..10];
    IntegerAtSlice(data, 0, 2, a.magic as nat);
    IntegerAtSlice(data, 2, 1, 8);
    IntegerAtSlice(data, 3, 1, a.flags.rawValue as nat);
    IntegerAtSlice(data, 4, 4, a.modificationTime as nat);
    IntegerAtSlice(data, 8, 1, a.compressionFlags as nat);
    IntegerAtSlice(data, 9, 1, a.osType as nat);
  }

  lemma SliceSplit(s: seq<u8>, i: nat, j: nat, k: nat)
    requires i <= j <= k <= |s|
    ensures s[i..k] == s[i..j] + s[j..k]
  {
  }

  // ---------------------------------------------------------------------------
  // What a successful decode tells about its input

  /** A string `asciiz()` read, in a buffer that has a zero byte, ends at the first
      zero, and nothing before it is zero. */
  lemma AsciizLayout(data: seq<u8>, index: nat)
    requires AsciizAt(data, index).Step? && !NoZero(data)
    ensures var s := AsciizAt(data, index);
      s.next <= |data| && data[index..s.next] == s.value + [0]
      && NoZero(data[..index]) && NoZero(s.value)
  {
    var s := AsciizAt(data, index);
    assert data[index..s.next] == data[index..s.next - 1] + [data[s.next - 1]];
    assert forall j :: 0 <= j < index ==> data[..index][j] == data[..s.next - 1][j];
    assert forall j :: 0 <= j < |s.value| ==> s.value[j] == data[..s.next - 1][index + j];
  }

  /** The fixed header of a decoded buffer is the archive's fixed header. */
  lemma DecodedFixedLayout(data: seq<u8>, a: GZipArchive)
    requires DecodedFixed(data).Ok?
    requires var f := DecodedFixed(data).value.value;
      a.magic == ExpectedMagic && a.compressionMethod == f.compressionMethod
      && a.flags == f.flags && a.modificationTime == f.modificationTime
      && a.compressionFlags == f.compressionFlags && a.osType == f.osType
    ensures a.compressionMethod == Deflate
    ensures data[..10] == FixedHeaderBytes(a)
  {
    var magic := IntegerAt(data, 0, 2);
    var cm := IntegerAt(data, 2, 1);
    var flagByte := IntegerAt(data, 3, 1);
    var mtime := IntegerAt(data, 4, 4);
    var xfl := IntegerAt(data, 8, 1);
    var os := IntegerAt(data, 9, 1);
    assert data[..10] == data[0..2] + data[2..3] + data[3..4] + data[4..8] + data[8..9] + data[9..10];
  }

  /** The header CRC and the extra field of a decoded buffer: present exactly when
      their flags are set, the CRC16 being the two bytes at `index` and checked
      against the CRC-32 of everything before it, laid out as `compress()` with a
      two-byte extra length writes them. */
  lemma DecodedBinaryLayout(data: seq<u8>, index: nat, flags: Flags, verifyHeader: bool,
                            crc32: seq<u8> -> u32, a: GZipArchive)
    requires index <= |data|
    requires DecodedBinary(data, index, flags, verifyHeader, crc32).Ok?
    requires DecodedBinary(data, index, flags, verifyHeader, crc32).value.value
      == BinaryFields(a.crc16, a.extraFieldLength, a.extraField)
    ensures (a.crc16.Some? <==> flags.Contains(Crc16))
      && (a.extraField.Some? <==> flags.Contains(ExtraField))
      && (a.extraFieldLength.Some? <==> a.extraField.Some?)
    ensures a.extraField.Some? ==>
      |a.extraField.value| < 0x1_0000 && a.extraFieldLength.value as int == |a.extraField.value|
    ensures a.crc16.Some? ==>
      index + 2 <= |data| && data[index..index + 2] == ToLittleEndian(a.crc16.value as nat, 2)
      && (verifyHeader ==> a.crc16.value as int == crc32(data[..index]) as int % 0x1_0000)
    ensures DecodedBinary(data, index, flags, verifyHeader, crc32).value.next
      == StringsStart(a, index) <= |data|
    ensures data[index..StringsStart(a, index)] == Crc16Bytes(a) + ExtraBytes(a, 2)
  {
    var crc16 := HeaderCrc(data, index, flags.Contains(Crc16), verifyHeader, crc32).value;
    var i1 := crc16.next;
    if flags.Contains(Crc16) {
      var stored := IntegerAt(data, index, 2);
      assert i1 == index + 2;
    }
    var extraLength := Optional(flags.Contains(ExtraField), i1, IntegerAt(data, i1, 2));
    var i2 := extraLength.next;
    var extraFieldLength: Option<u16> :=
      if extraLength.value.Some? then Some(extraLength.value.value as u16) else None;
    var extra := Optional(extraFieldLength.Some?, i2,
                          DataAt(data, i2, if extraFieldLength.Some? then extraFieldLength.value as int else 0));
    var i3 := extra.next;
    assert data[i1..i3] == ExtraBytes(a, 2) by {
      if flags.Contains(ExtraField) {
        SliceSplit(data, i1, i2, i3);
      }
    }
    SliceSplit(data, index, i1, i3);
  }

  /** The strings of a decoded buffer that holds a zero byte: present exactly when
      their flags are set, laid out as `compress()` writes them, with no zero byte in
      front of them; a file name and a comment are never both read. */
  lemma DecodedStringsLayout(data: seq<u8>, index: nat, flags: Flags, a: GZipArchive)
    requires index <= |data| && !NoZero(data)
    requires DecodedStrings(data, index, flags).Ok?
    requires DecodedStrings(data, index, flags).value.value == StringFields(a.originalFileName, a.comment)
    ensures (a.originalFileName.Some? <==> flags.Contains(OriginalFileName))
      && (a.comment.Some? <==> flags.Contains(Comment))
    ensures data[index..DecodedStrings(data, index, flags).value.next]
      == AsciizBytes(a.originalFileName) + AsciizBytes(a.comment)
    ensures a.originalFileName.Some? || a.comment.Some? ==>
      NoZero(data[..index]) && !(a.originalFileName.Some? && a.comment.Some?)
      && (a.originalFileName.Some? ==> NoZero(a.originalFileName.value))
      && (a.comment.Some? ==> NoZero(a.comment.value))
  {
    var name := Optional(flags.Contains(OriginalFileName), index, AsciizAt(data, index));
    var i4 := name.next;
    var comment := Optional(flags.Contains(Comment), i4, AsciizAt(data, i4));
    var i5 := comment.next;
    if flags.Contains(OriginalFileName) {
      AsciizLayout(data, index);
    }
    if flags.Contains(Comment) {
      if flags.Contains(OriginalFileName) {
        assert false;
      }
      AsciizLayout(data, i4);
    }
    SliceSplit(data, index, i4, i5);
  }

  // ---------------------------------------------------------------------------
  // `init(from:)`: what it accepts and what it returns

  /** A successful decode is a run of successful stages. */
  lemma DecodedStages(data: seq<u8>, verifyHeader: bool, crc32: seq<u8> -> u32)
    requires Decoded(data, verifyHeader, crc32).Ok?
    ensures DecodesInStages(data, verifyHeader, crc32, Decoded(data, verifyHeader, crc32).value)
  {
  }

  lemma SplitThree(s: seq<u8>, i: nat, j: nat)
    requires i <= j <= |s|
    ensures s == s[..i] + s[i..j] + s[j..]
  {
  }

  lemma Regroup(c: seq<u8>, e: seq<u8>, n: seq<u8>, m: seq<u8>)
    ensures (c + e) + (n + m) == c + e + n + m
  {
  }

  /** The payload and the trailer `DecodedTrailer` reads are `PayloadBytes`. */
  lemma TrailerLayout(data: seq<u8>, index: nat, a: GZipArchive)
    requires DecodedTrailer(data, index) == Ok(Trailer(a.compressedData, a.uncompressedDataCrc32,
                                                       a.uncompressedSize))
    ensures data[index..] == PayloadBytes(a)
    ensures index + 8 + |a.compressedData| == |data|
    ensures data[|data| - 8 - |a.compressedData|..] == PayloadBytes(a)
  {
    var n := |a.compressedData|;
    var t := data[index..];
    assert t[..n] == data[index..|data| - 8];
    assert t[n..n + 4] == data[|data| - 8..|data| - 4];
    assert t[n + 4..] == data[|data| - 4..];
    SplitThree(t, n, n + 4);
  }

  /** Every archive decoded in stages is consistent, and with `verifyHeader` its
      CRC16 matches the first ten bytes only. */
  lemma StagesConsistent(data: seq<u8>, verifyHeader: bool, crc32: seq<u8> -> u32, a: GZipArchive)
    requires DecodesInStages(data, verifyHeader, crc32, a)
    ensures Consistent(a) && 10 <= |data| && data[..10] == FixedHeaderBytes(a)
    ensures verifyHeader ==> HeaderCrcMatches(a, crc32)
  {
    DecodedFixedLayout(data, a);
    DecodedBinaryLayout(data, 10, a.flags, verifyHeader, crc32, a);
  }

  /** Every archive decoded in stages is framed by the buffer. */
  lemma StagesFramed(data: seq<u8>, verifyHeader: bool, crc32: seq<u8> -> u32, a: GZipArchive)
    requires DecodesInStages(data, verifyHeader, crc32, a)
    ensures Framed(data, a)
  {
    StagesConsistent(data, verifyHeader, crc32, a);
    DecodedBinaryLayout(data, 10, a.flags, verifyHeader, crc32, a);
    var i := DecodedBinary(data, 10, a.flags, verifyHeader, crc32).value.next;
    TrailerLayout(data, DecodedStrings(data, i, a.flags).value.next, a);
  }

  lemma EncodedCorrectedParts(a: GZipArchive)
    requires a.extraField.Some? ==> |a.extraField.value| < 0x1_0000
    ensures EncodedCorrected(a) == FixedHeaderBytes(a) + OptionalBytes(a) + PayloadBytes(a)
  {
    GroupedFour(FixedHeaderBytes(a), Crc16Bytes(a), ExtraBytes(a, 2), AsciizBytes(a.originalFileName),
                AsciizBytes(a.comment), PayloadBytes(a));
  }

  /** Regrouping the four pieces between a header and a tail. */
  lemma GroupedFour(h: seq<u8>, c: seq<u8>, e: seq<u8>, n: seq<u8>, m: seq<u8>, t: seq<u8>)
    ensures h + c + e + n + m + t == h + (c + e + n + m) + t
  {
  }

  /** A buffer cut into an archive's fixed header, optional fields, payload and
      trailer is the archive's encoding with a two-byte extra length. */
  lemma EncodedCorrectedOfParts(data: seq<u8>, a: GZipArchive)
    requires a.extraField.Some? ==> |a.extraField.value| < 0x1_0000
    requires 10 + |OptionalBytes(a)| <= |data|
    requires data[..10] == FixedHeaderBytes(a)
    requires data[10..10 + |OptionalBytes(a)|] == OptionalBytes(a)
    requires data[10 + |OptionalBytes(a)|..] == PayloadBytes(a)
    ensures EncodedCorrected(a) == data
  {
    EncodedCorrectedParts(a);
    SplitThree(data, 10, 10 + |OptionalBytes(a)|);
  }

  /** The strings of a buffer decoded in stages, when any was zero terminated, make
      the archive readable. */
  lemma StagesReadable(data: seq<u8>, verifyHeader: bool, crc32: seq<u8> -> u32, a: GZipArchive)
    requires Consistent(a) && 10 <= |data| && data[..10] == FixedHeaderBytes(a)
    requires LaterStages(data, verifyHeader, crc32, a)
    requires a.originalFileName.Some? || a.comment.Some? ==> !NoZero(data)
    ensures Readable(a)
  {
    DecodedBinaryLayout(data, 10, a.flags, verifyHeader, crc32, a);
    var i := StringsStart(a, 10);
    if !NoZero(data) {
      DecodedStringsLayout(data, i, a.flags, a);
      NamePrefixOf(data, i, a);
    }
  }

  lemma NamePrefixOf(data: seq<u8>, i: nat, a: GZipArchive)
    requires Consistent(a) && 10 <= i <= |data|
    requires data[..10] == FixedHeaderBytes(a) && data[10..i] == Crc16Bytes(a) + ExtraBytes(a, 2)
    ensures data[..i] == NamePrefix(a)
  {
    SliceSplit(data, 0, 10, i);
  }

  /** The strings `DecodedStrings` reads, when any was zero terminated, occupy
      exactly their encoding. */
  lemma StringsRegion(data: seq<u8>, index: nat, flags: Flags, a: GZipArchive)
    requires index <= |data|
    requires DecodedStrings(data, index, flags).Ok?
    requires DecodedStrings(data, index, flags).value.value == StringFields(a.originalFileName, a.comment)
    requires a.originalFileName.Some? || a.comment.Some? ==> !NoZero(data)
    ensures var k := DecodedStrings(data, index, flags).value.next;
      k == index + |AsciizBytes(a.originalFileName) + AsciizBytes(a.comment)|
      && data[index..k] == AsciizBytes(a.originalFileName) + AsciizBytes(a.comment)
  {
    if !NoZero(data) {
      DecodedStringsLayout(data, index, flags, a);
    }
  }

  /** The optional fields as two adjacent regions. */
  lemma OptionalOfRegions(data: seq<u8>, i: nat, k: nat, a: GZipArchive)
    requires a.extraField.Some? ==> |a.extraField.value| < 0x1_0000
    requires 10 <= i <= k <= |data|
    requires data[10..i] == Crc16Bytes(a) + ExtraBytes(a, 2)
    requires data[i..k] == AsciizBytes(a.originalFileName) + AsciizBytes(a.comment)
    ensures k == 10 + |OptionalBytes(a)| && data[10..k] == OptionalBytes(a)
  {
    SliceSplit(data, 10, i, k);
    Regroup(Crc16Bytes(a), ExtraBytes(a, 2), AsciizBytes(a.originalFileName), AsciizBytes(a.comment));
  }

  /** The optional fields of a buffer decoded in stages, when any string read was
      zero terminated, are laid out as `compress()` with a two-byte extra length
      writes them, and the payload follows them. */
  lemma StagesOptionalLayout(data: seq<u8>, verifyHeader: bool, crc32: seq<u8> -> u32, a: GZipArchive)
    requires LaterStages(data, verifyHeader, crc32, a)
    requires a.originalFileName.Some? || a.comment.Some? ==> !NoZero(data)
    ensures a.extraField.Some? ==> |a.extraField.value| < 0x1_0000
    ensures 10 + |OptionalBytes(a)| <= |data|
    ensures data[10..10 + |OptionalBytes(a)|] == OptionalBytes(a)
    ensures data[10 + |OptionalBytes(a)|..] == PayloadBytes(a)
  {
    DecodedBinaryLayout(data, 10, a.flags, verifyHeader, crc32, a);
    var i := StringsStart(a, 10);
    StringsRegion(data, i, a.flags, a);
    var k := DecodedStrings(data, i, a.flags).value.next;
    OptionalOfRegions(data, i, k, a);
    TrailerLayout(data, k, a);
  }

  /** A buffer decoded in stages, when any string read was zero terminated, is the
      encoding with a two-byte extra length of a consistent, readable archive. */
  lemma StagesEncodedCorrected(data: seq<u8>, verifyHeader: bool, crc32: seq<u8> -> u32, a: GZipArchive)
    requires DecodesInStages(data, verifyHeader, crc32, a)
    requires a.originalFileName.Some? || a.comment.Some? ==> !NoZero(data)
    ensures Consistent(a) && Readable(a) && EncodedCorrected(a) == data
  {
    StagesConsistent(data, verifyHeader, crc32, a);
    StagesReadable(data, verifyHeader, crc32, a);
    StagesOptionalLayout(data, verifyHeader, crc32, a);
    EncodedCorrectedOfParts(data, a);
  }

  /** Every archive `init(from:)` returns is consistent. Its fixed header is the
      first ten bytes; a CRC16 is the two bytes at offset 10 (section 2.3 of RFC 1952
      puts FHCRC after the comment instead) and, with `verifyHeader`, is checked
      against those ten bytes only. The payload ends where the 8-byte trailer of
      CRC-32 and size begins. */
  lemma DecodedConsistent(data: seq<u8>, verifyHeader: bool, crc32: seq<u8> -> u32)
    requires Decoded(data, verifyHeader, crc32).Ok?
    ensures Consistent(Decoded(data, verifyHeader, crc32).value)
    ensures Framed(data, Decoded(data, verifyHeader, crc32).value)
    ensures verifyHeader ==> HeaderCrcMatches(Decoded(data, verifyHeader, crc32).value, crc32)
  {
    DecodedStages(data, verifyHeader, crc32);
    StagesConsistent(data, verifyHeader, crc32, Decoded(data, verifyHeader, crc32).value);
    StagesFramed(data, verifyHeader, crc32, Decoded(data, verifyHeader, crc32).value);
  }

  /** A buffer `init(from:)` accepts is the encoding, with a two-byte extra length,
      of the archive it returns, once any string it read was zero terminated (with
      no zero byte at all, `asciiz()` reads "" without consuming a terminator). */
  lemma EncodedCorrectedOfDecoded(data: seq<u8>, verifyHeader: bool, crc32: seq<u8> -> u32)
    requires Decoded(data, verifyHeader, crc32).Ok?
    requires var a := Decoded(data, verifyHeader, crc32).value;
      a.originalFileName.Some? || a.comment.Some? ==> !NoZero(data)
    ensures Consistent(Decoded(data, verifyHeader, crc32).value)
    ensures Readable(Decoded(data, verifyHeader, crc32).value)
    ensures EncodedCorrected(Decoded(data, verifyHeader, crc32).value) == data
  {
    DecodedStages(data, verifyHeader, crc32);
    StagesEncodedCorrected(data, verifyHeader, crc32, Decoded(data, verifyHeader, crc32).value);
  }

  // ---------------------------------------------------------------------------
  // Decoding what `compress()` with a two-byte extra length writes

  lemma EncodedCorrectedSlices(a: GZipArchive)
    requires a.extraField.Some? ==> |a.extraField.value| < 0x1_0000
    ensures var b := EncodedCorrected(a); var k := 10 + |OptionalBytes(a)|;
      k <= |b| && b[..10] == FixedHeaderBytes(a) && b[10..k] == OptionalBytes(a)
      && b[k..] == PayloadBytes(a)
  {
    EncodedCorrectedParts(a);
  }

  /** Two adjacent pieces of a slice. */
  lemma SplitSlice(s: seq<u8>, i: nat, j: nat, k: nat, x: seq<u8>, y: seq<u8>)
    requires i <= j <= k <= |s| && j - i == |x| && s[i..k] == x + y
    ensures s[i..j] == x && s[j..k] == y
  {
    SliceSplit(s, i, j, k);
    assert forall n :: 0 <= n < |x| ==> s[i..j][n] == (x + y)[n];
    assert forall n :: 0 <= n < |y| ==> s[j..k][n] == (x + y)[|x| + n];
  }

  /** The binary fields read back from their encoding. */
  lemma DecodedBinaryOfBytes(data: seq<u8>, verifyHeader: bool, crc32: seq<u8> -> u32, a: GZipArchive)
    requires Consistent(a) && (verifyHeader ==> HeaderCrcMatches(a, crc32))
    requires StringsStart(a, 10) <= |data|
    requires data[..10] == FixedHeaderBytes(a)
    requires data[10..StringsStart(a, 10)] == Crc16Bytes(a) + ExtraBytes(a, 2)
    ensures DecodedBinary(data, 10, a.flags, verifyHeader, crc32)
      == Ok(Read(BinaryFields(a.crc16, a.extraFieldLength, a.extraField), StringsStart(a, 10)))
  {
    var i1 := 10 + |Crc16Bytes(a)|;
    var i3 := StringsStart(a, 10);
    SplitSlice(data, 10, i1, i3, Crc16Bytes(a), ExtraBytes(a, 2));
    if a.crc16.Some? {
      IntegerAtSlice(data, 10, 2, a.crc16.value as nat);
    }
    if a.extraField.Some? {
      var ef := a.extraField.value;
      SplitSlice(data, i1, i1 + 2, i3, ToLittleEndian(|ef|, 2), ef);
      IntegerAtSlice(data, i1, 2, |ef|);
    }
  }

  /** A zero-terminated string read back by `asciiz()`, when nothing before it is zero. */
  lemma AsciizOfBytes(data: seq<u8>, i: nat, s: seq<u8>)
    requires i + |s| + 1 <= |data|
    requires NoZero(data[..i]) && NoZero(s) && data[i..i + |s| + 1] == s + [0]
    ensures AsciizAt(data, i) == Step(s, i + |s| + 1)
  {
    var k := i + |s| + 1;
    SplitThree(data, i, k);
    assert data == data[..i] + s + [0] + data[k..];
    AsciizReadsBack(data[..i], s, data[k..]);
  }

  /** `DecodedStrings` when only the file-name bit is set. */
  lemma DecodedNameOnly(data: seq<u8>, i: nat, flags: Flags, s: seq<u8>)
    requires i <= |data|
    requires flags.Contains(OriginalFileName) && !flags.Contains(Comment)
    requires AsciizAt(data, i).Step? && AsciizAt(data, i).value == s
    ensures DecodedStrings(data, i, flags) == Ok(Read(StringFields(Some(s), None), AsciizAt(data, i).next))
  {
  }

  /** `DecodedStrings` when only the comment bit is set. */
  lemma DecodedCommentOnly(data: seq<u8>, i: nat, flags: Flags, s: seq<u8>)
    requires i <= |data|
    requires !flags.Contains(OriginalFileName) && flags.Contains(Comment)
    requires AsciizAt(data, i).Step? && AsciizAt(data, i).value == s
    ensures DecodedStrings(data, i, flags) == Ok(Read(StringFields(None, Some(s)), AsciizAt(data, i).next))
  {
  }

  /** `DecodedStrings` when neither string bit is set. */
  lemma DecodedNoStrings(data: seq<u8>, i: nat, flags: Flags)
    requires i <= |data| && !flags.Contains(OriginalFileName) && !flags.Contains(Comment)
    ensures DecodedStrings(data, i, flags) == Ok(Read(StringFields(None, None), i))
  {
  }

  /** The file name alone, read back from its encoding. */
  lemma DecodedNameOfBytes(data: seq<u8>, i: nat, flags: Flags, s: seq<u8>)
    requires flags.Contains(OriginalFileName) && !flags.Contains(Comment)
    requires i + |s| + 1 <= |data|
    requires NoZero(data[..i]) && NoZero(s) && data[i..i + |s| + 1] == s + [0]
    ensures DecodedStrings(data, i, flags) == Ok(Read(StringFields(Some(s), None), i + |s| + 1))
  {
    AsciizOfBytes(data, i, s);
    DecodedNameOnly(data, i, flags, s);
  }

  /** The comment alone, read back from its encoding. */
  lemma DecodedCommentOfBytes(data: seq<u8>, i: nat, flags: Flags, s: seq<u8>)
    requires !flags.Contains(OriginalFileName) && flags.Contains(Comment)
    requires i + |s| + 1 <= |data|
    requires NoZero(data[..i]) && NoZero(s) && data[i..i + |s| + 1] == s + [0]
    ensures DecodedStrings(data, i, flags) == Ok(Read(StringFields(None, Some(s)), i + |s| + 1))
  {
    AsciizOfBytes(data, i, s);
    DecodedCommentOnly(data, i, flags, s);
  }

  /** The strings read back from their encoding, when nothing before them is zero. */
  lemma DecodedStringsOfBytes(data: seq<u8>, i: nat, a: GZipArchive)
    requires Consistent(a) && Readable(a) && i == StringsStart(a, 10)
    requires i + |StringBytes(a)| <= |data|
    requires data[..i] == NamePrefix(a) && data[i..i + |StringBytes(a)|] == StringBytes(a)
    ensures DecodedStrings(data, i, a.flags)
      == Ok(Read(StringFields(a.originalFileName, a.comment), i + |StringBytes(a)|))
  {
    if a.originalFileName.Some? || a.comment.Some? {
      PrefixNoZero(data, i, a);
    }
    if a.originalFileName.Some? {
      DecodedNameOfLayout(data, i, a);
    } else if a.comment.Some? {
      DecodedCommentOfLayout(data, i, a);
    } else {
      DecodedNoStringsOfLayout(data, i, a);
    }
  }

  /** Nothing before the strings of a readable archive with a string is zero. */
  lemma PrefixNoZero(data: seq<u8>, i: nat, a: GZipArchive)
    requires Consistent(a) && Readable(a) && (a.originalFileName.Some? || a.comment.Some?)
    requires i <= |data| && data[..i] == NamePrefix(a)
    ensures NoZero(data[..i])
  {
  }

  /** The file name alone, read back from its encoding. */
  lemma DecodedNameOfLayout(data: seq<u8>, i: nat, a: GZipArchive)
    requires a.originalFileName.Some? && a.comment.None?
    requires a.flags.Contains(OriginalFileName) && !a.flags.Contains(Comment)
    requires i <= |data| && NoZero(data[..i]) && NoZero(a.originalFileName.value)
    requires i + |StringBytes(a)| <= |data| && data[i..i + |StringBytes(a)|] == StringBytes(a)
    ensures DecodedStrings(data, i, a.flags)
      == Ok(Read(StringFields(a.originalFileName, a.comment), i + |StringBytes(a)|))
  {
    var s := a.originalFileName.value;
    assert StringBytes(a) == s + [0];
    DecodedNameOfBytes(data, i, a.flags, s);
  }

  /** The comment alone, read back from its encoding. */
  lemma DecodedCommentOfLayout(data: seq<u8>, i: nat, a: GZipArchive)
    requires a.originalFileName.None? && a.comment.Some?
    requires !a.flags.Contains(OriginalFileName) && a.flags.Contains(Comment)
    requires i <= |data| && NoZero(data[..i]) && NoZero(a.comment.value)
    requires i + |StringBytes(a)| <= |data| && data[i..i + |StringBytes(a)|] == StringBytes(a)
    ensures DecodedStrings(data, i, a.flags)
      == Ok(Read(StringFields(a.originalFileName, a.comment), i + |StringBytes(a)|))
  {
    var s := a.comment.value;
    assert StringBytes(a) == s + [0];
    DecodedCommentOfBytes(data, i, a.flags, s);
  }

  /** Neither string. */
  lemma DecodedNoStringsOfLayout(data: seq<u8>, i: nat, a: GZipArchive)
    requires a.originalFileName.None? && a.comment.None?
    requires !a.flags.Contains(OriginalFileName) && !a.flags.Contains(Comment)
    requires i <= |data|
    ensures DecodedStrings(data, i, a.flags)
      == Ok(Read(StringFields(a.originalFileName, a.comment), i + |StringBytes(a)|))
  {
    assert StringBytes(a) == [];
    DecodedNoStrings(data, i, a.flags);
  }

  lemma PayloadSlices(a: GZipArchive)
    ensures var p := PayloadBytes(a); var n := |a.compressedData|;
      p[..n] == a.compressedData
      && p[n..n + 4] == ToLittleEndian(a.uncompressedDataCrc32 as nat, 4)
      && p[n + 4..] == ToLittleEndian(a.uncompressedSize as nat, 4)
  {
  }

  /** The payload and trailer read back from their encoding. */
  lemma DecodedTrailerOfBytes(data: seq<u8>, k: nat, a: GZipArchive)
    requires k <= |data| && data[k..] == PayloadBytes(a)
    ensures DecodedTrailer(data, k) == Ok(Trailer(a.compressedData, a.uncompressedDataCrc32,
                                                  a.uncompressedSize))
  {
    var n := |a.compressedData|;
    var t := data[k..];
    var r := DecodedTrailer(data, k);
    PayloadSlices(a);
    assert data[k..|data| - 8] == t[..n];
    assert data[|data| - 8..|data| - 4] == t[n..n + 4];
    assert data[|data| - 4..] == t[n + 4..];
    ToLittleEndianInjective(r.value.uncompressedDataCrc32 as nat, a.uncompressedDataCrc32 as nat, 4);
    ToLittleEndianInjective(r.value.uncompressedSize as nat, a.uncompressedSize as nat, 4);
  }

  lemma EncodedCorrectedLaidOut(a: GZipArchive)
    requires Consistent(a)
    ensures LaidOut(EncodedCorrected(a), a)
  {
    var b := EncodedCorrected(a);
    EncodedCorrectedSlices(a);
    var i := StringsStart(a, 10);
    var k := 10 + |OptionalBytes(a)|;
    Regroup(Crc16Bytes(a), ExtraBytes(a, 2), AsciizBytes(a.originalFileName), AsciizBytes(a.comment));
    SplitSlice(b, 10, i, k, Crc16Bytes(a) + ExtraBytes(a, 2), StringBytes(a));
    NamePrefixOf(b, i, a);
  }

  /** Stages that each return `a`'s fields make `init(from:)` return `a`. */
  lemma DecodedOfStageResults(data: seq<u8>, verifyHeader: bool, crc32: seq<u8> -> u32,
                              a: GZipArchive, i: nat, k: nat)
    requires a.magic == ExpectedMagic && a.compressionMethod == Deflate
    requires !a.flags.Contains(Reserved5Bit) && !a.flags.Contains(Reserved6Bit)
    requires !a.flags.Contains(Reserved7Bit)
    requires DecodedFixed(data) == Ok(Read(FixedFields(Deflate, a.flags, a.modificationTime,
                                                      a.compressionFlags, a.osType), 10))
    requires DecodedBinary(data, 10, a.flags, verifyHeader, crc32)
      == Ok(Read(BinaryFields(a.crc16, a.extraFieldLength, a.extraField), i))
    requires DecodedStrings(data, i, a.flags) == Ok(Read(StringFields(a.originalFileName, a.comment), k))
    requires DecodedTrailer(data, k) == Ok(Trailer(a.compressedData, a.uncompressedDataCrc32,
                                                   a.uncompressedSize))
    ensures Decoded(data, verifyHeader, crc32) == Ok(a)
  {
  }

  /** A buffer laid out as a consistent, readable archive decodes to it. */
  lemma LaidOutDecodes(data: seq<u8>, verifyHeader: bool, crc32: seq<u8> -> u32, a: GZipArchive)
    requires Consistent(a) && Readable(a) && (verifyHeader ==> HeaderCrcMatches(a, crc32))
    requires LaidOut(data, a)
    ensures Decoded(data, verifyHeader, crc32) == Ok(a)
  {
    DecodedFixedOfBytes(data, a);
    DecodedBinaryOfBytes(data, verifyHeader, crc32, a);
    DecodedStringsOfBytes(data, StringsStart(a, 10), a);
    DecodedTrailerOfBytes(data, StringsStart(a, 10) + |StringBytes(a)|, a);
    DecodedOfStageResults(data, verifyHeader, crc32, a, StringsStart(a, 10),
                          StringsStart(a, 10) + |StringBytes(a)|);
  }

  /** Round trip: `init(from:)` returns every consistent, readable archive from its
      encoding with a two-byte extra length, with or without header verification
      (a CRC16 that matches is then required). */
  lemma DecodeEncodedCorrected(a: GZipArchive, verifyHeader: bool, crc32: seq<u8> -> u32)
    requires Consistent(a) && Readable(a) && (verifyHeader ==> HeaderCrcMatches(a, crc32))
    ensures Decoded(EncodedCorrected(a), verifyHeader, crc32) == Ok(a)
  {
    EncodedCorrectedLaidOut(a);
    LaidOutDecodes(EncodedCorrected(a), verifyHeader, crc32, a);
  }
}
