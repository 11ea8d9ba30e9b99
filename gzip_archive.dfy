/** The archive codec of Sources/RDGZip/GZipArchive.swift (section 2.3 of RFC 1952
    as that code lays it out). CRC-32 and the raw DEFLATE buffer codecs are
    parameters: `crc32` is zlib's `crc32(0, bytes, count)`. */
module Archive {
  import opened Wrappers
  import opened Bytes
  import opened Reader
  import opened Writer
  import opened GZipTypes
  import Compression

  const ExpectedMagic: u16 := 0x8b1f

  datatype GZipArchive = GZipArchive(
    magic: u16,
    compressionMethod: CompressionMethod,
    flags: Flags,
    modificationTime: u32,
    compressionFlags: u8,
    osType: u8,
    crc16: Option<u16>,
    extraFieldLength: Option<u16>,
    extraField: Option<seq<u8>>,
    originalFileName: Option<seq<u8>>,
    comment: Option<seq<u8>>,
    compressedData: seq<u8>,
    uncompressedDataCrc32: u32,
    uncompressedSize: u32)

  /** The fields of the 10-byte fixed header that follow the magic. */
  datatype FixedFields = FixedFields(
    compressionMethod: CompressionMethod,
    flags: Flags,
    modificationTime: u32,
    compressionFlags: u8,
    osType: u8)

  /** The header CRC and the extra field. */
  datatype BinaryFields = BinaryFields(
    crc16: Option<u16>,
    extraFieldLength: Option<u16>,
    extraField: Option<seq<u8>>)

  /** The zero-terminated strings. */
  datatype StringFields = StringFields(
    originalFileName: Option<seq<u8>>,
    comment: Option<seq<u8>>)

  /** The optional header fields, in the order `init(from:)` reads them. */
  datatype OptionalFields = OptionalFields(
    crc16: Option<u16>,
    extraFieldLength: Option<u16>,
    extraField: Option<seq<u8>>,
    originalFileName: Option<seq<u8>>,
    comment: Option<seq<u8>>)

  /** The payload and the 8-byte trailer. */
  datatype Trailer = Trailer(
    compressedData: seq<u8>,
    uncompressedDataCrc32: u32,
    uncompressedSize: u32)

  // ---------------------------------------------------------------------------
  // Decoding: `init(from:verifyHeader:)`

  /** A value read and the cursor after it. */
  datatype Read<+T> = Read(value: T, next: nat)

  /** A reader trap as a decoder trap. */
  function Lift<T>(s: Step<T>): (r: Outcome<Read<T>>)
    ensures !r.Throws?
    ensures r.Ok? <==> s.Step?
    ensures r.Ok? ==> r.value == Read(s.value, s.next)
  {
    if s.Trap? then Traps else Ok(Read(s.value, s.next))
  }

  /** A read performed only when `present`; otherwise nil and the cursor stays. */
  function Optional<T>(present: bool, index: nat, s: Step<T>): (r: Step<Option<T>>)
    ensures r.Step? <==> !present || s.Step?
    ensures r.Step? ==> r.next == (if present then s.next else index)
    ensures r.Step? ==> (r.value.Some? <==> present) && (present ==> r.value.value == s.value)
  {
    if !present then Step(None, index)
    else if s.Trap? then Trap
    else Step(Some(s.value), s.next)
  }

  /** The FHCRC branch (lines 164-175): the CRC-32 of `data[0..<index]` is taken,
      the stored UInt16 read, and with `verifyHeader` compared with the low 16 bits. */
  function HeaderCrc(data: seq<u8>, index: nat, present: bool, verifyHeader: bool,
                     crc32: seq<u8> -> u32): (r: Outcome<Read<Option<u16>>>)
    requires index <= |data|
    ensures r.Ok? ==> index <= r.value.next <= |data|
    ensures r.Ok? ==> (r.value.value.Some? <==> present)
  {
    if !present then Ok(Read(None, index)) else
    var calculatedCrc := crc32(data[..index]);
    var stored :- Lift(IntegerAt(data, index, 2));
    if verifyHeader && stored.value != calculatedCrc as nat % 0x1_0000 then
      Throws(HeaderCrcFailed(calculatedCrc, stored.value as u16))
    else
      Ok(Read(Some(stored.value as u16), stored.next))
  }

  /** Lines 148-162: magic, method, flags, mtime, xfl and os. */
  function DecodedFixed(data: seq<u8>): (r: Outcome<Read<FixedFields>>)
    ensures r.Ok? ==> r.value.next == 10 <= |data| && r.value.value.compressionMethod == Deflate
  {
    var magic :- Lift(IntegerAt(data, 0, 2));
    if magic.value != ExpectedMagic as nat then Throws(NotGZip(magic.value as u16)) else
    var cm :- Lift(IntegerAt(data, magic.next, 1));
    // `CompressionMethod(rawValue:)!` aborts on a value above 8
    if cm.value > 8 then Traps else
    var compressionMethod := MethodFromRaw(cm.value as u8);
    if compressionMethod != Deflate then Throws(UnknownCompressionMethod(compressionMethod)) else
    var flagByte :- Lift(IntegerAt(data, cm.next, 1));
    var mtime :- Lift(IntegerAt(data, flagByte.next, 4));
    var xfl :- Lift(IntegerAt(data, mtime.next, 1));
    var os :- Lift(IntegerAt(data, xfl.next, 1));
    Ok(Read(FixedFields(compressionMethod, Flags(flagByte.value as u8), mtime.value as u32,
                        xfl.value as u8, os.value as u8), os.next))
  }

  /** Lines 164-187: the header CRC, then the extra field's length and bytes. */
  function DecodedBinary(data: seq<u8>, index: nat, flags: Flags, verifyHeader: bool,
                         crc32: seq<u8> -> u32): (r: Outcome<Read<BinaryFields>>)
    requires index <= |data|
    ensures r.Ok? ==> index <= r.value.next <= |data|
  {
    var crc16 :- HeaderCrc(data, index, flags.Contains(Crc16), verifyHeader, crc32);
    var extraLength :- Lift(Optional(flags.Contains(ExtraField), crc16.next, IntegerAt(data, crc16.next, 2)));
    var extraFieldLength: Option<u16> :=
      if extraLength.value.Some? then Some(extraLength.value.value as u16) else None;
    var extra :- Lift(Optional(extraFieldLength.Some?, extraLength.next,
                               DataAt(data, extraLength.next,
                                      if extraFieldLength.Some? then extraFieldLength.value as int else 0)));
    Ok(Read(BinaryFields(crc16.value, extraFieldLength, extra.value), extra.next))
  }

  /** Lines 189-199: the file name, then the comment, each read by `asciiz()`. */
  function DecodedStrings(data: seq<u8>, index: nat, flags: Flags): (r: Outcome<Read<StringFields>>)
    requires index <= |data|
    ensures r.Ok? ==> index <= r.value.next <= |data|
  {
    var name :- Lift(Optional(flags.Contains(OriginalFileName), index, AsciizAt(data, index)));
    var comment :- Lift(Optional(flags.Contains(Comment), name.next, AsciizAt(data, name.next)));
    Ok(Read(StringFields(name.value, comment.value), comment.next))
  }

  /** Lines 164-199: the optional fields the flags announce, from `index` on. */
  function DecodedOptional(data: seq<u8>, index: nat, flags: Flags, verifyHeader: bool,
                           crc32: seq<u8> -> u32): (r: Outcome<Read<OptionalFields>>)
    requires index <= |data|
    ensures r.Ok? ==> index <= r.value.next <= |data|
  {
    var binary :- DecodedBinary(data, index, flags, verifyHeader, crc32);
    var strings :- DecodedStrings(data, binary.next, flags);
    var b := binary.value;
    Ok(Read(OptionalFields(b.crc16, b.extraFieldLength, b.extraField,
                           strings.value.originalFileName, strings.value.comment), strings.next))
  }

  /** Lines 212-218: everything up to the last eight bytes is the payload, then the
      CRC-32 and the size. A buffer too short for that traps. */
  function DecodedTrailer(data: seq<u8>, index: nat): (r: Outcome<Trailer>)
    ensures !r.Throws?
    ensures r.Ok? <==> index + 8 <= |data|
    ensures r.Ok? ==>
      index + |r.value.compressedData| + 8 == |data|
      && data[index..|data| - 8] == r.value.compressedData
      && data[|data| - 8..|data| - 4] == ToLittleEndian(r.value.uncompressedDataCrc32 as nat, 4)
      && data[|data| - 4..] == ToLittleEndian(r.value.uncompressedSize as nat, 4)
  {
    match DataAt(data, index, |data| - 4 - 4 - index)
    case Trap => Traps
    case Step(payload, next) =>
      // once the payload is read, both integers fit
      var dataCrc := IntegerAt(data, next, 4);
      var size := IntegerAt(data, next + 4, 4);
      Ok(Trailer(payload, dataCrc.value as u32, size.value as u32))
  }

  /** `init(from:verifyHeader:)`, lines 147-219: the header, the reserved bits in the
      order 5, 6, 7, then the payload up to the 8-byte trailer. */
  function Decoded(data: seq<u8>, verifyHeader: bool, crc32: seq<u8> -> u32): (r: Outcome<GZipArchive>)
    ensures r.Ok? ==>
      r.value.magic == ExpectedMagic && r.value.compressionMethod == Deflate
      && !r.value.flags.Contains(Reserved5Bit) && !r.value.flags.Contains(Reserved6Bit)
      && !r.value.flags.Contains(Reserved7Bit)
      && 10 + |r.value.compressedData| + 8 <= |data|
      && data[|data| - 8 - |r.value.compressedData|..|data| - 8] == r.value.compressedData
      && data[|data| - 8..|data| - 4] == ToLittleEndian(r.value.uncompressedDataCrc32 as nat, 4)
      && data[|data| - 4..] == ToLittleEndian(r.value.uncompressedSize as nat, 4)
  {
    var fixed :- DecodedFixed(data);
    var f := fixed.value;
    var optional :- DecodedOptional(data, fixed.next, f.flags, verifyHeader, crc32);
    var o := optional.value;
    if f.flags.Contains(Reserved5Bit) then Throws(UnknownFlag(BitValue(Reserved5Bit))) else
    if f.flags.Contains(Reserved6Bit) then Throws(UnknownFlag(BitValue(Reserved6Bit))) else
    if f.flags.Contains(Reserved7Bit) then Throws(UnknownFlag(BitValue(Reserved7Bit))) else
    var t :- DecodedTrailer(data, optional.next);
    Ok(GZipArchive(ExpectedMagic, f.compressionMethod, f.flags, f.modificationTime,
                   f.compressionFlags, f.osType, o.crc16, o.extraFieldLength, o.extraField,
                   o.originalFileName, o.comment, t.compressedData, t.uncompressedDataCrc32,
                   t.uncompressedSize))
  }

  /** The step a method took agrees with the step the specification takes. */
  predicate Tracks<T(==)>(r: Outcome<T>, index: nat, spec: Outcome<Read<T>>)
  {
    match spec
    case Ok(s) => r == Ok(s.value) && index == s.next
    case Throws(e) => r == Throws(e)
    case Traps => r == Traps
  }

  /** Lines 148-162 on the reader. */
  method ReadFixed(reader: GZipReader) returns (r: Outcome<FixedFields>)
    requires reader.index == 0
    modifies reader
    ensures Tracks(r, reader.index, DecodedFixed(reader.data))
  {
    var magic := reader.Integer(2);
    if magic.None? { return Traps; }
    if magic.value != ExpectedMagic as nat {
      return Throws(NotGZip(magic.value as u16));
    }
    var cm := reader.Integer(1);
    if cm.None? || cm.value > 8 { return Traps; }
    var compressionMethod := MethodFromRaw(cm.value as u8);
    if compressionMethod != Deflate {
      return Throws(UnknownCompressionMethod(compressionMethod));
    }
    var flagByte := reader.Integer(1);
    if flagByte.None? { return Traps; }
    var mtime := reader.Integer(4);
    if mtime.None? { return Traps; }
    var xfl := reader.Integer(1);
    if xfl.None? { return Traps; }
    var os := reader.Integer(1);
    if os.None? { return Traps; }
    r := Ok(FixedFields(compressionMethod, Flags(flagByte.value as u8), mtime.value as u32,
                        xfl.value as u8, os.value as u8));
  }

  /** Lines 164-187 on the reader. */
  method ReadBinary(reader: GZipReader, flags: Flags, verifyHeader: bool, crc32: seq<u8> -> u32)
    returns (r: Outcome<BinaryFields>)
    requires reader.index <= |reader.data|
    modifies reader
    ensures Tracks(r, reader.index,
                   DecodedBinary(reader.data, old(reader.index), flags, verifyHeader, crc32))
  {
    var crc16: Option<u16> := None;
    if flags.Contains(Crc16) {
      var headerData := reader.data[..reader.index];
      var calculatedCrc := crc32(headerData);
      var stored := reader.Integer(2);
      if stored.None? { return Traps; }
      crc16 := Some(stored.value as u16);
      if verifyHeader && stored.value != calculatedCrc as nat % 0x1_0000 {
        return Throws(HeaderCrcFailed(calculatedCrc, stored.value as u16));
      }
    }

    var extraFieldLength: Option<u16> := None;
    if flags.Contains(ExtraField) {
      var length := reader.Integer(2);
      if length.None? { return Traps; }
      extraFieldLength := Some(length.value as u16);
    }

    var extraField: Option<seq<u8>> := None;
    if extraFieldLength.Some? {
      var bytes := reader.Data(extraFieldLength.value as int);
      if bytes.None? { return Traps; }
      extraField := Some(bytes.value);
    }
    r := Ok(BinaryFields(crc16, extraFieldLength, extraField));
  }

  /** Lines 189-199 on the reader. */
  method ReadStrings(reader: GZipReader, flags: Flags) returns (r: Outcome<StringFields>)
    requires reader.index <= |reader.data|
    modifies reader
    ensures Tracks(r, reader.index, DecodedStrings(reader.data, old(reader.index), flags))
  {
    var originalFileName: Option<seq<u8>> := None;
    if flags.Contains(OriginalFileName) {
      var s := reader.Asciiz();
      if s.None? { return Traps; }
      originalFileName := Some(s.value);
    }

    var comment: Option<seq<u8>> := None;
    if flags.Contains(Comment) {
      var s := reader.Asciiz();
      if s.None? { return Traps; }
      comment := Some(s.value);
    }
    r := Ok(StringFields(originalFileName, comment));
  }

  /** Lines 164-199 on the reader. */
  method ReadOptional(reader: GZipReader, flags: Flags, verifyHeader: bool, crc32: seq<u8> -> u32)
    returns (r: Outcome<OptionalFields>)
    requires reader.index <= |reader.data|
    modifies reader
    ensures Tracks(r, reader.index,
                   DecodedOptional(reader.data, old(reader.index), flags, verifyHeader, crc32))
  {
    var binary := ReadBinary(reader, flags, verifyHeader, crc32);
    if !binary.Ok? { return binary.PropagateFailure(); }
    var strings := ReadStrings(reader, flags);
    if !strings.Ok? { return strings.PropagateFailure(); }
    var b := binary.value;
    r := Ok(OptionalFields(b.crc16, b.extraFieldLength, b.extraField,
                           strings.value.originalFileName, strings.value.comment));
  }

  /** Lines 212-218 on the reader. */
  method ReadTrailer(reader: GZipReader) returns (r: Outcome<Trailer>)
    modifies reader
    ensures r == DecodedTrailer(reader.data, old(reader.index))
  {
    var compressedData := reader.Data(|reader.data| - 4 - 4 - reader.index);
    if compressedData.None? { return Traps; }
    var dataCrc := reader.Integer(4);
    if dataCrc.None? { return Traps; }
    var size := reader.Integer(4);
    if size.None? { return Traps; }
    r := Ok(Trailer(compressedData.value, dataCrc.value as u32, size.value as u32));
  }

  /** `init(from:verifyHeader:)` as the Swift code runs it, on a `GZipReader`. */
  method InitFrom(data: seq<u8>, verifyHeader: bool, crc32: seq<u8> -> u32)
    returns (r: Outcome<GZipArchive>)
    ensures r == Decoded(data, verifyHeader, crc32)
  {
    var reader := new GZipReader(0, data);
    var fixed := ReadFixed(reader);
    if !fixed.Ok? { return fixed.PropagateFailure(); }
    var f := fixed.value;
    var optional := ReadOptional(reader, f.flags, verifyHeader, crc32);
    if !optional.Ok? { return optional.PropagateFailure(); }
    var o := optional.value;

    if f.flags.Contains(Reserved5Bit) { return Throws(UnknownFlag(BitValue(Reserved5Bit))); }
    if f.flags.Contains(Reserved6Bit) { return Throws(UnknownFlag(BitValue(Reserved6Bit))); }
    if f.flags.Contains(Reserved7Bit) { return Throws(UnknownFlag(BitValue(Reserved7Bit))); }

    var t := ReadTrailer(reader);
    if !t.Ok? { return t.PropagateFailure(); }
    r := Ok(GZipArchive(ExpectedMagic, f.compressionMethod, f.flags, f.modificationTime,
                        f.compressionFlags, f.osType, o.crc16, o.extraFieldLength, o.extraField,
                        o.originalFileName, o.comment, t.value.compressedData,
                        t.value.uncompressedDataCrc32, t.value.uncompressedSize));
  }

  // ---------------------------------------------------------------------------
  // Encoding: `compress()`

  /** Int.max: every `Data.count` is at most this. */
  const IntMax: nat := 0x7FFF_FFFF_FFFF_FFFF

  /** The 10-byte fixed header (lines 245-250). */
  function FixedHeaderBytes(a: GZipArchive): (b: seq<u8>)
    ensures |b| == 10
  {
    ToLittleEndian(a.magic as nat, 2)
    + ToLittleEndian(a.compressionMethod.RawValue() as nat, 1)
    + ToLittleEndian(a.flags.rawValue as nat, 1)
    + ToLittleEndian(a.modificationTime as nat, 4)
    + ToLittleEndian(a.compressionFlags as nat, 1)
    + ToLittleEndian(a.osType as nat, 1)
  }

  /** The stored CRC16 when there is one (lines 252-254). */
  function Crc16Bytes(a: GZipArchive): (b: seq<u8>)
    ensures |b| == if a.crc16.Some? then 2 else 0
  {
    if a.crc16.Some? then ToLittleEndian(a.crc16.value as nat, 2) else []
  }

  /** A zero-terminated string when there is one (lines 261-267). */
  function AsciizBytes(s: Option<seq<u8>>): (b: seq<u8>)
    ensures |b| == if s.Some? then |s.value| + 1 else 0
  {
    if s.Some? then s.value + [0] else []
  }

  /** Payload and trailer (lines 269-271). */
  function PayloadBytes(a: GZipArchive): (b: seq<u8>)
    ensures |b| == |a.compressedData| + 8
  {
    a.compressedData
    + ToLittleEndian(a.uncompressedDataCrc32 as nat, 4)
    + ToLittleEndian(a.uncompressedSize as nat, 4)
  }

  /** The extra field's length as a `width`-byte integer, then its bytes. */
  function ExtraBytes(a: GZipArchive, width: nat): (b: seq<u8>)
    requires a.extraField.Some? ==> |a.extraField.value| < Pow256(width)
    ensures |b| == if a.extraField.Some? then width + |a.extraField.value| else 0
  {
    if a.extraField.Some? then
      ToLittleEndian(|a.extraField.value|, width) + a.extraField.value
    else []
  }

  /** The optional-field layout length: the bytes between the fixed header and the payload. */
  function OptionalLength(a: GZipArchive, extraWidth: nat): (n: nat)
  {
    (if a.crc16.Some? then 2 else 0)
    + (if a.extraField.Some? then extraWidth + |a.extraField.value| else 0)
    + (if a.originalFileName.Some? then |a.originalFileName.value| + 1 else 0)
    + (if a.comment.Some? then |a.comment.value| + 1 else 0)
  }

  /** `compress()` as written: the FEXTRA length is `extraField.count`, an `Int`,
      so it takes 8 bytes (line 257). Fields are written when present, whatever
      the flags say. */
  function Encoded(a: GZipArchive): (b: seq<u8>)
    requires a.extraField.Some? ==> |a.extraField.value| <= IntMax
    ensures |b| == 10 + OptionalLength(a, 8) + |a.compressedData| + 8
    ensures b[..10] == FixedHeaderBytes(a)
  {
    FixedHeaderBytes(a) + Crc16Bytes(a) + ExtraBytes(a, 8) + AsciizBytes(a.originalFileName)
    + AsciizBytes(a.comment) + PayloadBytes(a)
  }

  /** `compress()` with the FEXTRA length written as the UInt16 that `init(from:)`
      reads (section 2.3 of RFC 1952: XLEN is two bytes). */
  function EncodedCorrected(a: GZipArchive): (b: seq<u8>)
    requires a.extraField.Some? ==> |a.extraField.value| < 0x1_0000
    ensures |b| == 10 + OptionalLength(a, 2) + |a.compressedData| + 8
    ensures b[..10] == FixedHeaderBytes(a)
  {
    FixedHeaderBytes(a) + Crc16Bytes(a) + ExtraBytes(a, 2) + AsciizBytes(a.originalFileName)
    + AsciizBytes(a.comment) + PayloadBytes(a)
  }

  /** Lines 245-250 on the writer. */
  method WriteFixedHeader(writer: GZipWriter, a: GZipArchive)
    modifies writer
    ensures writer.data == old(writer.data) + FixedHeaderBytes(a)
  {
    ghost var start := writer.data;
    writer.WriteInteger(a.magic as nat, 2);
    writer.WriteInteger(a.compressionMethod.RawValue() as nat, 1);
    writer.WriteInteger(a.flags.rawValue as nat, 1);
    writer.WriteInteger(a.modificationTime as nat, 4);
    writer.WriteInteger(a.compressionFlags as nat, 1);
    writer.WriteInteger(a.osType as nat, 1);
    AppendedSix(start, ToLittleEndian(a.magic as nat, 2),
                ToLittleEndian(a.compressionMethod.RawValue() as nat, 1),
                ToLittleEndian(a.flags.rawValue as nat, 1),
                ToLittleEndian(a.modificationTime as nat, 4),
                ToLittleEndian(a.compressionFlags as nat, 1),
                ToLittleEndian(a.osType as nat, 1));
  }

  /** Six appends in a row append their concatenation. */
  lemma AppendedSix(s: seq<u8>, b0: seq<u8>, b1: seq<u8>, b2: seq<u8>, b3: seq<u8>, b4: seq<u8>,
                    b5: seq<u8>)
    ensures s + b0 + b1 + b2 + b3 + b4 + b5 == s + (b0 + b1 + b2 + b3 + b4 + b5)
  {
  }

  /** Lines 252-254 on the writer. */
  method WriteCrc16(writer: GZipWriter, a: GZipArchive)
    modifies writer
    ensures writer.data == old(writer.data) + Crc16Bytes(a)
  {
    if a.crc16.Some? {
      writer.WriteInteger(a.crc16.value as nat, 2);
    }
  }

  /** Lines 256-259 on the writer. */
  method WriteExtraField(writer: GZipWriter, a: GZipArchive)
    requires a.extraField.Some? ==> |a.extraField.value| <= IntMax
    modifies writer
    ensures writer.data == old(writer.data) + ExtraBytes(a, 8)
  {
    if a.extraField.Some? {
      writer.WriteInteger(|a.extraField.value|, 8);
      writer.WriteData(a.extraField.value);
    }
  }

  /** Lines 261-267 on the writer, for the file name or the comment. */
  method WriteOptionalAsciiz(writer: GZipWriter, s: Option<seq<u8>>)
    modifies writer
    ensures writer.data == old(writer.data) + AsciizBytes(s)
  {
    if s.Some? {
      var _ := writer.WriteAsciiz(Some(s.value));
    }
  }

  /** Lines 269-271 on the writer. */
  method WritePayload(writer: GZipWriter, a: GZipArchive)
    modifies writer
    ensures writer.data == old(writer.data) + PayloadBytes(a)
  {
    writer.WriteData(a.compressedData);
    writer.WriteInteger(a.uncompressedDataCrc32 as nat, 4);
    writer.WriteInteger(a.uncompressedSize as nat, 4);
  }

  /** `compress()` as the Swift code runs it, on a `GZipWriter`. */
  method Compress(a: GZipArchive) returns (bytes: seq<u8>)
    requires a.extraField.Some? ==> |a.extraField.value| <= IntMax
    ensures bytes == Encoded(a)
  {
    var writer := new GZipWriter();
    WriteFixedHeader(writer, a);
    assert writer.data == FixedHeaderBytes(a);
    WriteCrc16(writer, a);
    WriteExtraField(writer, a);
    WriteOptionalAsciiz(writer, a.originalFileName);
    WriteOptionalAsciiz(writer, a.comment);
    WritePayload(writer, a);
    bytes := writer.data;
  }

  // ---------------------------------------------------------------------------
  // `init(with:)` and `decompress()`

  /** Line 235: the size field as written, modulo UInt32.max (2^32 - 1). */
  function UncompressedSize(count: nat): (r: u32)
    ensures r as nat < Compression.UInt32Max
    ensures count < Compression.UInt32Max ==> r as nat == count
  {
    (count % Compression.UInt32Max) as u32
  }

  /** `init(with:)`, lines 221-236: a minimal deflate archive of `data`. The CRC-32
      is taken after a successful compression, and `crc32(of:)` converts the count
      with `UInt32(data.count)` (line 291), which aborts on more than UInt32.max bytes. */
  function With(data: seq<u8>, encodeBuffer: seq<u8> -> seq<u8>, crc32: seq<u8> -> u32)
    : (r: Outcome<GZipArchive>)
    ensures r.Throws? <==> encodeBuffer(data) == []
    ensures r.Traps? <==> encodeBuffer(data) != [] && |data| > Compression.UInt32Max
    ensures r.Throws? ==> r.error == EncodeFailed
    ensures r.Ok? ==>
      var a := r.value;
      a.magic == ExpectedMagic && a.compressionMethod == Deflate && a.flags.rawValue == 0
      && a.modificationTime == 0 && a.compressionFlags == 0 && a.osType == 0xFF
      && a.crc16 == None && a.extraFieldLength == None && a.extraField == None
      && a.originalFileName == None && a.comment == None
      && a.compressedData == encodeBuffer(data) && a.uncompressedDataCrc32 == crc32(data)
      && a.uncompressedSize == UncompressedSize(|data|)
  {
    var compressedData :- Compression.Compress(encodeBuffer, data);
    if |data| > Compression.UInt32Max then Traps else
    Ok(GZipArchive(ExpectedMagic, Deflate, Flags(0), 0, 0, 0xFF, None, None, None, None, None,
                   compressedData, crc32(data), UncompressedSize(|data|)))
  }

  /** `decompress()`, lines 275-286: inflate `uncompressedSize` bytes, then compare
      their CRC-32 with the stored one. The compression method is not looked at. */
  function Decompress(a: GZipArchive, decodeBuffer: (seq<u8>, nat) -> seq<u8>,
                      crc32: seq<u8> -> u32): (r: Outcome<seq<u8>>)
    requires forall d, c :: |decodeBuffer(d, c)| <= c
    ensures !r.Traps?
    ensures r.Ok? ==> |r.value| == a.uncompressedSize as nat
                      && crc32(r.value) == a.uncompressedDataCrc32
                      && r.value == decodeBuffer(a.compressedData, a.uncompressedSize as nat)
    ensures r.Ok? <==> var out := decodeBuffer(a.compressedData, a.uncompressedSize as nat);
                       |out| == a.uncompressedSize as nat
                       && a.uncompressedSize as nat != Compression.UInt32Max
                       && crc32(out) == a.uncompressedDataCrc32
    ensures r.Throws? && r.error.DataCrcFailed? ==>
      r.error == DataCrcFailed(crc32(decodeBuffer(a.compressedData, a.uncompressedSize as nat)),
                               a.uncompressedDataCrc32)
    ensures var out := decodeBuffer(a.compressedData, a.uncompressedSize as nat);
      (|out| != a.uncompressedSize as nat || a.uncompressedSize as nat == Compression.UInt32Max)
      ==> r == Throws(DecodedLengthMismatch(|out|, a.uncompressedSize))
    ensures var out := decodeBuffer(a.compressedData, a.uncompressedSize as nat);
      (|out| == a.uncompressedSize as nat && a.uncompressedSize as nat != Compression.UInt32Max
       && crc32(out) != a.uncompressedDataCrc32)
      ==> r == Throws(DataCrcFailed(crc32(out), a.uncompressedDataCrc32))
  {
    var result :- Compression.Decompress(decodeBuffer, a.compressedData, a.uncompressedSize);
    var dataCrc := crc32(result);
    if dataCrc != a.uncompressedDataCrc32 then
      Throws(DataCrcFailed(dataCrc, a.uncompressedDataCrc32))
    else
      Ok(result)
  }
}
