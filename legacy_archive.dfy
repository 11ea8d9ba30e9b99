/** The legacy decoder of Sources/swift-gzip/GZipArchive.swift, which follows the
    gzip 1.2.4 layout: flag bit 1 announces a continuation part number and flag bit 5
    a 12-byte encryption header. It checks no magic and throws nothing; whatever the
    Swift code aborts on is a trap. */
module Legacy {
  import opened Wrappers
  import opened Bytes
  import opened Reader
  import opened GZipTypes
  import opened Archive

  /** `CompressionMethod` (lines 33-43). */
  datatype LegacyMethod =
    | Store | Compress | Pack | Lzh
    | Reserved4 | Reserved5 | Reserved6 | Reserved7
    | Deflate
  {
    function RawValue(): (r: u8)
      ensures r <= 8
    {
      match this
      case Store => 0 case Compress => 1 case Pack => 2 case Lzh => 3
      case Reserved4 => 4 case Reserved5 => 5 case Reserved6 => 6
      case Reserved7 => 7 case Deflate => 8
    }
  }

  /** `CompressionMethod(rawValue:)`: defined exactly for 0 through 8. */
  function LegacyMethodFromRaw(raw: u8): (r: LegacyMethod)
    requires raw <= 8
    ensures r.RawValue() == raw
  {
    match raw
    case 0 => Store case 1 => Compress case 2 => Pack case 3 => Lzh
    case 4 => LegacyMethod.Reserved4 case 5 => LegacyMethod.Reserved5
    case 6 => LegacyMethod.Reserved6 case 7 => LegacyMethod.Reserved7
    case _ => LegacyMethod.Deflate
  }

  /** The bit positions that differ from the current variant (lines 45-52); bits 2,
      3 and 4 are the extra field, the file name and the comment there too. */
  const PartNumberBit: nat := 1
  const EncryptionHeaderBit: nat := 5

  /** `encryptionHeaderLength` (line 27). */
  const EncryptionHeaderLength: nat := 12

  /** The stored properties of the legacy `GZipArchive` (lines 14-31). */
  datatype LegacyArchive = LegacyArchive(
    magic: u16,
    compressionMethod: LegacyMethod,
    flags: Flags,
    modificationTime: u32,
    compressionFlags: u8,
    osType: u8,
    partNumber: Option<u16>,
    extraFieldLength: Option<u16>,
    extraField: Option<seq<u8>>,
    originalFileName: Option<seq<u8>>,
    comment: Option<seq<u8>>,
    encryptionHeader: Option<seq<u8>>,
    compressedData: seq<u8>,
    crc32: u32,
    uncompressedSize: u32)

  /** The 10-byte fixed header. */
  datatype LegacyFixed = LegacyFixed(
    magic: u16,
    compressionMethod: LegacyMethod,
    flags: Flags,
    modificationTime: u32,
    compressionFlags: u8,
    osType: u8)

  /** The part number and the extra field. */
  datatype LegacyBinary = LegacyBinary(
    partNumber: Option<u16>,
    extraFieldLength: Option<u16>,
    extraField: Option<seq<u8>>)

  /** The file name, the comment and the encryption header. */
  datatype LegacyTexts = LegacyTexts(
    originalFileName: Option<seq<u8>>,
    comment: Option<seq<u8>>,
    encryptionHeader: Option<seq<u8>>)

  // ---------------------------------------------------------------------------
  // The decoder as functions of the buffer

  /** Lines 61-67: six integers; the magic is kept whatever it is, and only a
      method byte above 8 stops the decoder (the forced unwrap). */
  function LegacyFixedAt(data: seq<u8>): (r: Outcome<Read<LegacyFixed>>)
    ensures !r.Throws?
    ensures r.Ok? ==> r.value.next == 10 <= |data|
  {
    var magic :- Lift(IntegerAt(data, 0, 2));
    var cm :- Lift(IntegerAt(data, magic.next, 1));
    if cm.value > 8 then Traps else
    var flagByte :- Lift(IntegerAt(data, cm.next, 1));
    var mtime :- Lift(IntegerAt(data, flagByte.next, 4));
    var xfl :- Lift(IntegerAt(data, mtime.next, 1));
    var os :- Lift(IntegerAt(data, xfl.next, 1));
    Ok(Read(LegacyFixed(magic.value as u16, LegacyMethodFromRaw(cm.value as u8),
                        Flags(flagByte.value as u8), mtime.value as u32, xfl.value as u8,
                        os.value as u8), os.next))
  }

  /** Lines 69-85: the part number, then the extra field's length and bytes. */
  function LegacyBinaryAt(data: seq<u8>, index: nat, flags: Flags): (r: Outcome<Read<LegacyBinary>>)
    ensures !r.Throws?
    ensures r.Ok? ==> index <= r.value.next
  {
    var part :- Lift(Optional(flags.Contains(PartNumberBit), index, IntegerAt(data, index, 2)));
    var extraLength :- Lift(Optional(flags.Contains(ExtraField), part.next,
                                     IntegerAt(data, part.next, 2)));
    var extraFieldLength: Option<u16> :=
      if extraLength.value.Some? then Some(extraLength.value.value as u16) else None;
    var extra :- Lift(Optional(extraFieldLength.Some?, extraLength.next,
                               DataAt(data, extraLength.next,
                                      if extraFieldLength.Some? then extraFieldLength.value as int else 0)));
    Ok(Read(LegacyBinary(if part.value.Some? then Some(part.value.value as u16) else None,
                         extraFieldLength, extra.value), extra.next))
  }

  /** Lines 87-103: the file name and the comment, each read by `asciiz()`, then the
      encryption header. */
  function LegacyTextsAt(data: seq<u8>, index: nat, flags: Flags): (r: Outcome<Read<LegacyTexts>>)
    ensures !r.Throws?
    ensures r.Ok? ==> index <= r.value.next
  {
    var name :- Lift(Optional(flags.Contains(OriginalFileName), index, AsciizAt(data, index)));
    var comment :- Lift(Optional(flags.Contains(Comment), name.next, AsciizAt(data, name.next)));
    var encryption :- Lift(Optional(flags.Contains(EncryptionHeaderBit), comment.next,
                                    DataAt(data, comment.next, EncryptionHeaderLength)));
    Ok(Read(LegacyTexts(name.value, comment.value, encryption.value), encryption.next))
  }

  /** `init(from:)`, lines 60-108; the payload and the trailer are read as in the
      current variant (lines 105-107). */
  function LegacyDecoded(data: seq<u8>): (r: Outcome<LegacyArchive>)
    ensures !r.Throws?
  {
    var fixed :- LegacyFixedAt(data);
    var f := fixed.value;
    var binary :- LegacyBinaryAt(data, fixed.next, f.flags);
    var b := binary.value;
    var texts :- LegacyTextsAt(data, binary.next, f.flags);
    var x := texts.value;
    var t :- DecodedTrailer(data, texts.next);
    Ok(LegacyArchive(f.magic, f.compressionMethod, f.flags, f.modificationTime, f.compressionFlags,
                     f.osType, b.partNumber, b.extraFieldLength, b.extraField,
                     x.originalFileName, x.comment, x.encryptionHeader,
                     t.compressedData, t.uncompressedDataCrc32, t.uncompressedSize))
  }

  // ---------------------------------------------------------------------------
  // The decoder on a `GZipReader`

  /** Lines 61-67 on the reader. */
  method ReadLegacyFixed(reader: GZipReader) returns (r: Outcome<LegacyFixed>)
    requires reader.index == 0
    modifies reader
    ensures Tracks(r, reader.index, LegacyFixedAt(reader.data))
  {
    var magic := reader.Integer(2);
    if magic.None? { return Traps; }
    var cm := reader.Integer(1);
    if cm.None? || cm.value > 8 { return Traps; }
    var flagByte := reader.Integer(1);
    if flagByte.None? { return Traps; }
    var mtime := reader.Integer(4);
    if mtime.None? { return Traps; }
    var xfl := reader.Integer(1);
    if xfl.None? { return Traps; }
    var os := reader.Integer(1);
    if os.None? { return Traps; }
    r := Ok(LegacyFixed(magic.value as u16, LegacyMethodFromRaw(cm.value as u8),
                        Flags(flagByte.value as u8), mtime.value as u32, xfl.value as u8,
                        os.value as u8));
  }

  /** Lines 69-85 on the reader. */
  method ReadLegacyBinary(reader: GZipReader, flags: Flags) returns (r: Outcome<LegacyBinary>)
    modifies reader
    ensures Tracks(r, reader.index, LegacyBinaryAt(reader.data, old(reader.index), flags))
  {
    var partNumber: Option<u16> := None;
    if flags.Contains(PartNumberBit) {
      var part := reader.Integer(2);
      if part.None? { return Traps; }
      partNumber := Some(part.value as u16);
    }

    var extraFieldLength: Option<u16> := None;
    if flags.Contains(ExtraField) {
      var length := reader.Integer(2);
      if length.None? { return Traps; }
      extraFieldLength := Some(length.value as u16);
    }

    var extraField: Option<seq<u8>> := None;
    if extraFieldLength.Some? {
      var bytes := reader.Data(extraFieldLength.value as int);
      if bytes.None? { return Traps; }
      extraField := Some(bytes.value);
    }
    r := Ok(LegacyBinary(partNumber, extraFieldLength, extraField));
  }

  /** Lines 87-103 on the reader. */
  method ReadLegacyTexts(reader: GZipReader, flags: Flags) returns (r: Outcome<LegacyTexts>)
    modifies reader
    ensures Tracks(r, reader.index, LegacyTextsAt(reader.data, old(reader.index), flags))
  {
    var originalFileName: Option<seq<u8>> := None;
    if flags.Contains(OriginalFileName) {
      var s := reader.Asciiz();
      if s.None? { return Traps; }
      originalFileName := Some(s.value);
    }

    var comment: Option<seq<u8>> := None;
    if flags.Contains(Comment) {
      var s := reader.Asciiz();
      if s.None? { return Traps; }
      comment := Some(s.value);
    }

    var encryptionHeader: Option<seq<u8>> := None;
    if flags.Contains(EncryptionHeaderBit) {
      var bytes := reader.Data(EncryptionHeaderLength);
      if bytes.None? { return Traps; }
      encryptionHeader := Some(bytes.value);
    }
    r := Ok(LegacyTexts(originalFileName, comment, encryptionHeader));
  }

  /** `init(from:)` as the Swift code runs it, on a `GZipReader`. */
  method LegacyInitFrom(data: seq<u8>) returns (r: Outcome<LegacyArchive>)
    ensures r == LegacyDecoded(data)
  {
    var reader := new GZipReader(0, data);
    var fixed := ReadLegacyFixed(reader);
    if !fixed.Ok? { return fixed.PropagateFailure(); }
    var f := fixed.value;
    var binary := ReadLegacyBinary(reader, f.flags);
    if !binary.Ok? { return binary.PropagateFailure(); }
    var b := binary.value;
    var texts := ReadLegacyTexts(reader, f.flags);
    if !texts.Ok? { return texts.PropagateFailure(); }
    var x := texts.value;
    var t := ReadTrailer(reader);
    if !t.Ok? { return t.PropagateFailure(); }
    r := Ok(LegacyArchive(f.magic, f.compressionMethod, f.flags, f.modificationTime,
                          f.compressionFlags, f.osType, b.partNumber, b.extraFieldLength,
                          b.extraField, x.originalFileName, x.comment, x.encryptionHeader,
                          t.value.compressedData, t.value.uncompressedDataCrc32,
                          t.value.uncompressedSize));
  }
}
