/** Properties of the legacy decoder of Sources/swift-gzip/GZipArchive.swift. */
module LegacyProperties {
  import opened Wrappers
  import opened Bytes
  import opened Reader
  import opened GZipTypes
  import opened Archive
  import opened Legacy

  // ---------------------------------------------------------------------------
  // The fixed header

  /** The fixed header is read whatever the magic: only a buffer shorter than ten
      bytes or a method byte above 8 stops it. Each field is its bytes read
      least-significant first. */
  lemma LegacyFixedOfBytes(data: seq<u8>)
    ensures LegacyFixedAt(data).Ok? <==> 10 <= |data| && data[2] <= 8
    ensures LegacyFixedAt(data).Ok? ==>
      var f := LegacyFixedAt(data).value.value;
      f.magic as nat == LittleEndian(data[..2])
      && f.compressionMethod.RawValue() == data[2]
      && f.flags == Flags(data[3])
      && f.modificationTime as nat == LittleEndian(data[4..8])
      && f.compressionFlags == data[8] && f.osType == data[9]
  {
    if 10 <= |data| {
      assert LittleEndian(data[2..3]) == data[2] as nat;
      assert LittleEndian(data[3..4]) == data[3] as nat;
      assert LittleEndian(data[8..9]) == data[8] as nat;
      assert LittleEndian(data[9..10]) == data[9] as nat;
      assert data[..2] == data[0..2];
    }
  }

  /** A method byte above 8 aborts the decoder (the forced unwrap of line 63). */
  lemma LegacyMethodTraps(data: seq<u8>)
    requires 3 <= |data| && data[2] > 8
    ensures LegacyDecoded(data) == Traps
  {
    assert LittleEndian(data[2..3]) == data[2] as nat;
  }

  // ---------------------------------------------------------------------------
  // What each later stage reads

  /** The part number is the u16 at the cursor exactly when bit 1 is set; the extra
      field follows its u16 length exactly when bit 2 is set. */
  lemma LegacyBinaryLayout(data: seq<u8>, index: nat, flags: Flags)
    requires LegacyBinaryAt(data, index, flags).Ok?
    ensures var b := LegacyBinaryAt(data, index, flags).value;
      (b.value.partNumber.Some? <==> flags.Contains(PartNumberBit))
      && (b.value.partNumber.Some? ==>
            index + 2 <= |data| && data[index..index + 2] == ToLittleEndian(b.value.partNumber.value as nat, 2))
      && (b.value.extraFieldLength.Some? <==> flags.Contains(ExtraField))
      && (b.value.extraField.Some? <==> flags.Contains(ExtraField))
      && (b.value.extraField.Some? ==>
            |b.value.extraField.value| == b.value.extraFieldLength.value as int)
      && b.next == index + (if b.value.partNumber.Some? then 2 else 0)
                   + (if b.value.extraField.Some? then 2 + |b.value.extraField.value| else 0)
  {
  }

  /** The file name and the comment are present exactly when bits 3 and 4 are set,
      and the encryption header, of exactly twelve bytes, when bit 5 is. */
  lemma LegacyTextsLayout(data: seq<u8>, index: nat, flags: Flags)
    requires LegacyTextsAt(data, index, flags).Ok?
    ensures var x := LegacyTextsAt(data, index, flags).value.value;
      (x.originalFileName.Some? <==> flags.Contains(OriginalFileName))
      && (x.comment.Some? <==> flags.Contains(Comment))
      && (x.encryptionHeader.Some? <==> flags.Contains(EncryptionHeaderBit))
      && (x.encryptionHeader.Some? ==> |x.encryptionHeader.value| == EncryptionHeaderLength)
  {
  }

  // ---------------------------------------------------------------------------
  // What a successful decode returns

  /** `a` is what each stage of `init(from:)` returned on `data`. */
  predicate LegacyInStages(data: seq<u8>, a: LegacyArchive)
  {
    LegacyFixedAt(data).Ok?
    && LegacyFixedAt(data).value.value
       == LegacyFixed(a.magic, a.compressionMethod, a.flags, a.modificationTime,
                      a.compressionFlags, a.osType)
    && LegacyBinaryAt(data, 10, a.flags).Ok?
    && LegacyBinaryAt(data, 10, a.flags).value.value
       == LegacyBinary(a.partNumber, a.extraFieldLength, a.extraField)
    && var j := LegacyBinaryAt(data, 10, a.flags).value.next;
    LegacyTextsAt(data, j, a.flags).Ok?
    && LegacyTextsAt(data, j, a.flags).value.value
       == LegacyTexts(a.originalFileName, a.comment, a.encryptionHeader)
    && DecodedTrailer(data, LegacyTextsAt(data, j, a.flags).value.next)
       == Ok(Trailer(a.compressedData, a.crc32, a.uncompressedSize))
  }

  lemma LegacyStages(data: seq<u8>)
    requires LegacyDecoded(data).Ok?
    ensures LegacyInStages(data, LegacyDecoded(data).value)
  {
  }

  /** Every archive the legacy `init(from:)` returns: the magic is the first two
      bytes whatever they are, the method any of 0 through 8, each optional field
      present exactly when its bit is set (the part number in the two bytes after
      the fixed header, the extra field as long as its length, the encryption
      header twelve bytes), and the payload runs up to the CRC-32 and the size in
      the last eight bytes. */
  lemma LegacyDecodedLayout(data: seq<u8>)
    requires LegacyDecoded(data).Ok?
    ensures var a := LegacyDecoded(data).value;
      18 <= |data|
      && a.magic as nat == LittleEndian(data[..2])
      && a.compressionMethod.RawValue() == data[2]
      && a.flags == Flags(data[3])
      && (a.partNumber.Some? <==> a.flags.Contains(PartNumberBit))
      && (a.partNumber.Some? ==> data[10..12] == ToLittleEndian(a.partNumber.value as nat, 2))
      && (a.extraFieldLength.Some? <==> a.flags.Contains(ExtraField))
      && (a.extraField.Some? <==> a.flags.Contains(ExtraField))
      && (a.extraField.Some? ==> |a.extraField.value| == a.extraFieldLength.value as int)
      && (a.originalFileName.Some? <==> a.flags.Contains(OriginalFileName))
      && (a.comment.Some? <==> a.flags.Contains(Comment))
      && (a.encryptionHeader.Some? <==> a.flags.Contains(EncryptionHeaderBit))
      && (a.encryptionHeader.Some? ==> |a.encryptionHeader.value| == EncryptionHeaderLength)
      && 18 + |a.compressedData| <= |data|
      && data[|data| - 8 - |a.compressedData|..|data| - 8] == a.compressedData
      && data[|data| - 8..|data| - 4] == ToLittleEndian(a.crc32 as nat, 4)
      && data[|data| - 4..] == ToLittleEndian(a.uncompressedSize as nat, 4)
  {
    var a := LegacyDecoded(data).value;
    LegacyStages(data);
    LegacyFixedOfBytes(data);
    LegacyBinaryLayout(data, 10, a.flags);
    var j := LegacyBinaryAt(data, 10, a.flags).value.next;
    LegacyTextsLayout(data, j, a.flags);
  }

  // ---------------------------------------------------------------------------
  // Flag bits 0, 6 and 7

  /** The flag bits the legacy decoder looks at: 1 through 5. */
  predicate SameLegacyBits(f: Flags, g: Flags)
  {
    (f.Contains(PartNumberBit) <==> g.Contains(PartNumberBit))
    && (f.Contains(ExtraField) <==> g.Contains(ExtraField))
    && (f.Contains(OriginalFileName) <==> g.Contains(OriginalFileName))
    && (f.Contains(Comment) <==> g.Contains(Comment))
    && (f.Contains(EncryptionHeaderBit) <==> g.Contains(EncryptionHeaderBit))
  }

  /** Past the flag byte, `integer()` reads the same from a buffer with another flag byte. */
  lemma IntegerOtherFlagByte(data: seq<u8>, x: u8, index: nat)
    requires 4 <= index && 4 <= |data|
    ensures forall size :: IntegerAt(data[3 := x], index, size) == IntegerAt(data, index, size)
  {
    forall size ensures IntegerAt(data[3 := x], index, size) == IntegerAt(data, index, size) {
      if index + size <= |data| {
        assert data[3 := x][index..index + size] == data[index..index + size];
      }
    }
  }

  /** Past the flag byte, `data(length:)` reads the same from a buffer with another flag byte. */
  lemma DataOtherFlagByte(data: seq<u8>, x: u8, index: nat)
    requires 4 <= index && 4 <= |data|
    ensures forall length :: DataAt(data[3 := x], index, length) == DataAt(data, index, length)
  {
    forall length ensures DataAt(data[3 := x], index, length) == DataAt(data, index, length) {
      if 0 <= length && index + length <= |data| {
        assert data[3 := x][index..index + length] == data[index..index + length];
      }
    }
  }

  /** The fixed header of either buffer reads the same but for the flags. */
  lemma LegacyFixedOtherBits(data: seq<u8>, x: u8)
    requires 4 <= |data|
    ensures var d := LegacyFixedAt(data); var e := LegacyFixedAt(data[3 := x]);
      (e.Ok? <==> d.Ok?)
      && (d.Ok? ==> e.value == Read(d.value.value.(flags := Flags(x)), 10))
  {
    var data' := data[3 := x];
    LegacyFixedOfBytes(data);
    LegacyFixedOfBytes(data');
    if 10 <= |data| {
      assert data'[..2] == data[..2];
      assert data'[4..8] == data[4..8];
    }
  }

  /** The part number and the extra field read the same from offset 4 on. */
  lemma LegacyBinaryOtherBits(data: seq<u8>, x: u8, index: nat, f: Flags, g: Flags)
    requires 4 <= index && 4 <= |data| && SameLegacyBits(f, g)
    ensures LegacyBinaryAt(data[3 := x], index, f) == LegacyBinaryAt(data, index, g)
  {
    IntegerOtherFlagByte(data, x, index);
    var part := Optional(g.Contains(PartNumberBit), index, IntegerAt(data, index, 2));
    if part.Step? {
      IntegerOtherFlagByte(data, x, part.next);
      var length := Optional(g.Contains(ExtraField), part.next, IntegerAt(data, part.next, 2));
      if length.Step? {
        DataOtherFlagByte(data, x, length.next);
      }
    }
  }

  /** `asciiz()` reads the same when a non-zero flag byte becomes another non-zero one. */
  lemma AsciizOtherFlagByte(data: seq<u8>, x: u8, index: nat)
    requires 4 <= index && 4 <= |data| && data[3] != 0 && x != 0
    ensures AsciizAt(data[3 := x], index) == AsciizAt(data, index)
  {
    FirstZeroUpdate(data, 3, x);
    match FirstZero(data)
    case None =>
    case Some(e) =>
      if index <= e {
        assert data[3 := x][index..e] == data[index..e];
      }
  }

  /** The strings and the encryption header read the same from offset 4 on. Either
      flag byte announces a string only when it is not zero, so the first zero of the
      buffer, which `asciiz()` looks for, does not move. */
  lemma LegacyTextsOtherBits(data: seq<u8>, x: u8, index: nat)
    requires 4 <= index && 4 <= |data| && SameLegacyBits(Flags(x), Flags(data[3]))
    ensures LegacyTextsAt(data[3 := x], index, Flags(x)) == LegacyTextsAt(data, index, Flags(data[3]))
  {
    var f := Flags(data[3]);
    var strings := f.Contains(OriginalFileName) || f.Contains(Comment);
    assert strings ==> x != 0 && data[3] != 0;
    OptionalAsciizOtherFlagByte(data, x, index, f.Contains(OriginalFileName), strings);
    var name := Optional(f.Contains(OriginalFileName), index, AsciizAt(data, index));
    if name.Step? {
      OptionalAsciizOtherFlagByte(data, x, name.next, f.Contains(Comment), strings);
      var comment := Optional(f.Contains(Comment), name.next, AsciizAt(data, name.next));
      if comment.Step? {
        DataOtherFlagByte(data, x, comment.next);
      }
    }
  }

  /** An optional `asciiz()` reads the same in both buffers. */
  lemma OptionalAsciizOtherFlagByte(data: seq<u8>, x: u8, index: nat, present: bool, strings: bool)
    requires 4 <= index && 4 <= |data| && (present ==> strings) && (strings ==> x != 0 && data[3] != 0)
    ensures Optional(present, index, AsciizAt(data[3 := x], index))
            == Optional(present, index, AsciizAt(data, index))
  {
    if present {
      AsciizOtherFlagByte(data, x, index);
    }
  }

  /** The payload and the trailer read the same from offset 4 on. */
  lemma TrailerOtherBits(data: seq<u8>, x: u8, index: nat)
    requires 4 <= index && 4 <= |data|
    ensures DecodedTrailer(data[3 := x], index) == DecodedTrailer(data, index)
  {
    DataOtherFlagByte(data, x, index);
    if index + 8 <= |data| {
      IntegerOtherFlagByte(data, x, |data| - 8);
      IntegerOtherFlagByte(data, x, |data| - 4);
    }
  }

  /** Flag bits 0, 6 and 7 change nothing the legacy decoder reads: with them
      changed in the flag byte, `init(from:)` succeeds or traps exactly as before and
      returns the same archive but for the flags. */
  lemma LegacyIgnoresOtherBits(data: seq<u8>, x: u8)
    requires 4 <= |data| && SameLegacyBits(Flags(x), Flags(data[3]))
    ensures var d := LegacyDecoded(data); var e := LegacyDecoded(data[3 := x]);
      (e.Ok? <==> d.Ok?) && (d.Ok? ==> e.value == d.value.(flags := Flags(x)))
  {
    var data' := data[3 := x];
    LegacyFixedOtherBits(data, x);
    if LegacyFixedAt(data).Ok? {
      LegacyFixedOfBytes(data);
      var f := Flags(data[3]);
      LegacyBinaryOtherBits(data, x, 10, Flags(x), f);
      var b := LegacyBinaryAt(data, 10, f);
      if b.Ok? {
        LegacyTextsOtherBits(data, x, b.value.next);
        var t := LegacyTextsAt(data, b.value.next, f);
        if t.Ok? {
          TrailerOtherBits(data, x, t.value.next);
        }
      }
    }
  }
}
