/** `init(with:)`, `compress()`, `init(from:)` and `decompress()` of
    Sources/RDGZip/GZipArchive.swift composed: what survives the trip through the
    container, and where the code as written loses it. */
module ArchiveRoundTrip {
  import opened Wrappers
  import opened Bytes
  import opened Reader
  import opened GZipTypes
  import opened Archive
  import opened ArchiveLayout
  import opened ArchiveProperties
  import Compression

  /** Without an extra field the two layouts are the same bytes. */
  lemma EncodedMatchesCorrected(a: GZipArchive)
    requires a.extraField.None?
    ensures Encoded(a) == EncodedCorrected(a)
  {
  }

  /** `compress()` as written is read back by `init(from:)` whenever it writes no
      extra field. */
  lemma DecodeEncoded(a: GZipArchive, verifyHeader: bool, crc32: seq<u8> -> u32)
    requires Consistent(a) && Readable(a) && (verifyHeader ==> HeaderCrcMatches(a, crc32))
    requires a.extraField.None?
    ensures Decoded(Encoded(a), verifyHeader, crc32) == Ok(a)
  {
    EncodedMatchesCorrected(a);
    DecodeEncodedCorrected(a, verifyHeader, crc32);
  }

  /** Every archive `init(with:)` builds is one `init(from:)` accepts, whatever its
      CRC-32 and whether or not the header is verified, and it compresses to the
      fixed header, the payload and the trailer alone. */
  lemma WithArchive(data: seq<u8>, encodeBuffer: seq<u8> -> seq<u8>, crc32: seq<u8> -> u32,
                    headerCrc32: seq<u8> -> u32)
    requires With(data, encodeBuffer, crc32).Ok?
    ensures var a := With(data, encodeBuffer, crc32).value;
      Consistent(a) && Readable(a) && HeaderCrcMatches(a, headerCrc32)
      && Encoded(a) == FixedHeaderBytes(a) + PayloadBytes(a)
      && |Encoded(a)| == 10 + |a.compressedData| + 8
  {
    var a := With(data, encodeBuffer, crc32).value;
    assert !a.flags.Contains(Reserved5Bit) && !a.flags.Contains(Reserved6Bit);
    assert !a.flags.Contains(Reserved7Bit) && !a.flags.Contains(Crc16);
    assert !a.flags.Contains(ExtraField) && !a.flags.Contains(OriginalFileName);
    assert !a.flags.Contains(Comment);
  }

  /** The whole trip: `init(with:)`, `compress()`, `init(from:)`, `decompress()`.
      With a codec that inflates what it deflated and an input shorter than
      UInt32.max bytes, the input comes back, and so does the archive. */
  lemma ExtractRoundTrip(payload: seq<u8>, encodeBuffer: seq<u8> -> seq<u8>,
                         decodeBuffer: (seq<u8>, nat) -> seq<u8>, crc32: seq<u8> -> u32,
                         verifyHeader: bool)
    requires forall d, c :: |decodeBuffer(d, c)| <= c
    requires encodeBuffer(payload) != []
    requires decodeBuffer(encodeBuffer(payload), |payload|) == payload
    requires |payload| < Compression.UInt32Max
    ensures With(payload, encodeBuffer, crc32).Ok?
    ensures var a := With(payload, encodeBuffer, crc32).value;
      Decoded(Encoded(a), verifyHeader, crc32) == Ok(a)
      && Decompress(a, decodeBuffer, crc32) == Ok(payload)
  {
    var a := With(payload, encodeBuffer, crc32).value;
    WithArchive(payload, encodeBuffer, crc32, crc32);
    DecodeEncoded(a, verifyHeader, crc32);
  }

  /** The size field is the input's length modulo UInt32.max, so an input of exactly
      UInt32.max bytes is recorded as empty and never comes back. */
  lemma FullSizeNotExtracted(payload: seq<u8>, encodeBuffer: seq<u8> -> seq<u8>,
                             decodeBuffer: (seq<u8>, nat) -> seq<u8>, crc32: seq<u8> -> u32)
    requires forall d, c :: |decodeBuffer(d, c)| <= c
    requires |payload| == Compression.UInt32Max
    requires With(payload, encodeBuffer, crc32).Ok?
    ensures var a := With(payload, encodeBuffer, crc32).value;
      a.uncompressedSize == 0 && Decompress(a, decodeBuffer, crc32) != Ok(payload)
  {
  }

  // ---------------------------------------------------------------------------
  // The FEXTRA length as written

  /** The 8-byte length of an extra field shorter than 2^16 bytes ends in a zero. */
  lemma ExtraLengthHasZero(a: GZipArchive)
    requires a.extraField.Some? && |a.extraField.value| < 0x1_0000
    ensures !NoZero(Encoded(a))
  {
    var n := |a.extraField.value|;
    assert Pow256(2) == 0x1_0000;
    ToLittleEndianTop(n, 8, 2);
    var k := 10 + |Crc16Bytes(a)| + 7;
    assert Encoded(a)[k] == ToLittleEndian(n, 8)[7];
  }

  /** `compress()` writes the FEXTRA length as an 8-byte `Int` where `init(from:)`
      reads a 2-byte one, so no archive with an extra field survives the trip, however
      long the field. */
  lemma EncodedExtraFieldNotDecoded(a: GZipArchive, verifyHeader: bool, crc32: seq<u8> -> u32)
    requires a.extraField.Some? && |a.extraField.value| <= IntMax
    ensures Decoded(Encoded(a), verifyHeader, crc32) != Ok(a)
  {
    if Decoded(Encoded(a), verifyHeader, crc32) == Ok(a) {
      if |a.extraField.value| < 0x1_0000 {
        ExtraLengthHasZero(a);
        EncodedCorrectedOfDecoded(Encoded(a), verifyHeader, crc32);
      } else {
        // every decoded extra field is shorter than 2^16 bytes
        DecodedConsistent(Encoded(a), verifyHeader, crc32);
      }
    }
  }

  // ---------------------------------------------------------------------------
  // `asciiz()` as written

  /** `asciiz()` finds a zero before the cursor and traps where the corrected search
      reads the string at the cursor. */
  lemma AsciizAtMissesString()
    ensures AsciizAt([0, 65, 0], 1) == Trap
    ensures AsciizFrom([0, 65, 0], 1) == Step([65], 3)
  {
    AsciizFromReadsBack([0], [65], []);
    assert [0 as u8] + [65] + [0] + [] == [0, 65, 0];
  }

  /** An archive whose header holds a zero byte before the file name never survives
      the trip, even in the layout `init(from:)` reads. */
  lemma NameAfterZeroNotDecoded(a: GZipArchive, verifyHeader: bool, crc32: seq<u8> -> u32)
    requires Consistent(a) && a.originalFileName.Some? && !NoZero(NamePrefix(a))
    ensures Decoded(EncodedCorrected(a), verifyHeader, crc32) != Ok(a)
  {
    var data := EncodedCorrected(a);
    if Decoded(data, verifyHeader, crc32) == Ok(a) {
      var j :| 0 <= j < |NamePrefix(a)| && NamePrefix(a)[j] == 0;
      EncodedCorrectedAfterPrefix(a);
      assert data[j] == 0;
      EncodedCorrectedOfDecoded(data, verifyHeader, crc32);
    }
  }

  /** The layout `init(from:)` reads begins with the bytes in front of the strings. */
  lemma EncodedCorrectedAfterPrefix(a: GZipArchive)
    requires Consistent(a)
    ensures EncodedCorrected(a)
            == NamePrefix(a) + (AsciizBytes(a.originalFileName) + AsciizBytes(a.comment) + PayloadBytes(a))
  {
  }

  /** Lines 189-199 with the corrected `asciiz()`. */
  function DecodedStringsCorrected(data: seq<u8>, index: nat, flags: Flags)
    : (r: Outcome<Read<StringFields>>)
    ensures !r.Throws?
    ensures r.Ok? ==> (r.value.value.originalFileName.Some? <==> flags.Contains(OriginalFileName))
                      && (r.value.value.comment.Some? <==> flags.Contains(Comment))
  {
    var name :- Lift(Optional(flags.Contains(OriginalFileName), index, AsciizFrom(data, index)));
    var comment :- Lift(Optional(flags.Contains(Comment), name.next, AsciizFrom(data, name.next)));
    Ok(Read(StringFields(name.value, comment.value), comment.next))
  }

  /** With the corrected search, the file name and the comment are read back
      wherever they sit and whatever precedes them, together as well as alone. */
  lemma StringsCorrectedReadBack(before: seq<u8>, name: Option<seq<u8>>, comment: Option<seq<u8>>,
                                 after: seq<u8>, flags: Flags)
    requires name.Some? <==> flags.Contains(OriginalFileName)
    requires comment.Some? <==> flags.Contains(Comment)
    requires name.Some? ==> NoZero(name.value)
    requires comment.Some? ==> NoZero(comment.value)
    ensures var strings := AsciizBytes(name) + AsciizBytes(comment);
      DecodedStringsCorrected(before + strings + after, |before|, flags)
      == Ok(Read(StringFields(name, comment), |before| + |strings|))
  {
    var n := AsciizBytes(name);
    var c := AsciizBytes(comment);
    ConcatSlices(before, n, c, after);
    StringsCorrectedAt(before + (n + c) + after, |before|, name, comment, flags);
  }

  /** Where the two pieces of the middle of a buffer sit. */
  lemma ConcatSlices(before: seq<u8>, n: seq<u8>, c: seq<u8>, after: seq<u8>)
    ensures var data := before + (n + c) + after; var k := |before|;
      data[k..k + |n|] == n && data[k + |n|..k + |n| + |c|] == c
  {
    var data := before + (n + c) + after;
    var k := |before|;
    assert data[k..k + |n|] == n;
    assert data[k + |n|..k + |n| + |c|] == c;
  }

  /** The same, for strings found at `index` in a buffer. */
  lemma StringsCorrectedAt(data: seq<u8>, index: nat, name: Option<seq<u8>>,
                           comment: Option<seq<u8>>, flags: Flags)
    requires name.Some? <==> flags.Contains(OriginalFileName)
    requires comment.Some? <==> flags.Contains(Comment)
    requires name.Some? ==> NoZero(name.value)
    requires comment.Some? ==> NoZero(comment.value)
    requires var m := index + |AsciizBytes(name)|;
      m + |AsciizBytes(comment)| <= |data|
      && data[index..m] == AsciizBytes(name)
      && data[m..m + |AsciizBytes(comment)|] == AsciizBytes(comment)
    ensures DecodedStringsCorrected(data, index, flags)
            == Ok(Read(StringFields(name, comment), index + |AsciizBytes(name)| + |AsciizBytes(comment)|))
  {
    var m := index + |AsciizBytes(name)|;
    OptionalStringReadsBack(data, index, name, flags.Contains(OriginalFileName));
    OptionalStringReadsBack(data, m, comment, flags.Contains(Comment));
    StringsCorrectedOfSteps(data, index, flags, name, comment, m, m + |AsciizBytes(comment)|);
  }

  /** The corrected strings stage is its two steps. */
  lemma StringsCorrectedOfSteps(data: seq<u8>, index: nat, flags: Flags, name: Option<seq<u8>>,
                                comment: Option<seq<u8>>, m: nat, e: nat)
    requires Optional(flags.Contains(OriginalFileName), index, AsciizFrom(data, index)) == Step(name, m)
    requires Optional(flags.Contains(Comment), m, AsciizFrom(data, m)) == Step(comment, e)
    ensures DecodedStringsCorrected(data, index, flags) == Ok(Read(StringFields(name, comment), e))
  {
  }

  /** One optional zero-terminated string at `index`, read by the corrected
      `asciiz()` when `present`. */
  lemma OptionalStringReadsBack(data: seq<u8>, index: nat, s: Option<seq<u8>>, present: bool)
    requires s.Some? <==> present
    requires s.Some? ==> NoZero(s.value)
    requires index + |AsciizBytes(s)| <= |data| && data[index..index + |AsciizBytes(s)|] == AsciizBytes(s)
    ensures Optional(present, index, AsciizFrom(data, index)) == Step(s, index + |AsciizBytes(s)|)
  {
    if s.Some? {
      var e := index + |s.value|;
      assert data == data[..index] + s.value + [0] + data[e + 1..];
      AsciizFromReadsBack(data[..index], s.value, data[e + 1..]);
    }
  }
}
