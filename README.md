# swift-gzip container codec in Dafny

This project models the gzip member container of roman-dzieciol/swift-gzip. That is the byte
layout of section 2.3 of RFC 1952: a 10-byte fixed header, optional fields announced by the FLG
bitmask, the compressed payload, and an 8-byte trailer of CRC-32 and size. The project then
proves what the code promises about that layout.

Four Swift files are modelled:

- `GZipReader` (Sources/SWGZip/GZipReader.swift) is a class with a mutable `index` over an
  immutable buffer. Its methods are `Integer`, `Asciiz` and `Data`. Each is proved equal to a
  pure step function: `IntegerAt`, `AsciizAt` or `DataAt`.
- `GZipWriter` (Sources/RDGZip/GZipWriter.swift) is a class holding an append-only `data`
  sequence.
- The current `GZipArchive` (Sources/RDGZip/GZipArchive.swift):
  - `init(from:verifyHeader:)` is the method `InitFrom`. It drives a `GZipReader` stage by
    stage and is proved equal to the function `Decoded`.
  - `compress()` is the method `Compress`. It drives a `GZipWriter` and is proved equal to
    `Encoded`.
  - `init(with:)` and `decompress()` are the functions `With` and `Decompress`.
- The legacy `GZipArchive` (Sources/swift-gzip/GZipArchive.swift) follows the gzip 1.2.4 layout.
  Flag bit 1 is a part number and bit 5 a 12-byte encryption header. It checks no magic and
  throws nothing. It is `LegacyInitFrom` on the reader, proved equal to `LegacyDecoded`.

Every outcome the model covers is kept apart from the others ("## Left out" lists the aborts it does not cover):

- A returned value is `Ok`.
- A thrown `GZipError` is `Throws`. The error type is Sources/SWGZip/GZipError.swift as a
  datatype.
- A process abort is `Traps`: a `fatalError()`, an out-of-range or inverted `Data` slice,
  the forced unwrap of `CompressionMethod(rawValue:)`, or the `UInt32(data.count)` conversion
  in `crc32(of:)` (Sources/RDGZip/GZipArchive.swift:291). That conversion aborts in
  `init(with:)` on an input of more than UInt32.max bytes. It cannot abort in `decompress()`,
  because there the CRC is only taken of output whose length is the stored 32-bit size.

Integers are read and written least-significant byte first. That is host order on the targets
and the order of section 2.1 of RFC 1952. `Pow256`, `LittleEndian` and `ToLittleEndian` give
the value of k bytes and the k bytes of a value.

The model follows the code wherever it differs from the format or from the code's own
doc-comments:

- The header CRC16 is read right after the fixed header. Section 2.3 of RFC 1952 puts it after
  the comment.
- With `verifyHeader`, the CRC16 is checked against the CRC-32 of the first ten bytes only.
- Any compression method other than deflate is thrown at decode. A method byte above 8 traps.
- A buffer too short for the trailer traps. No "truncated" error is thrown.
- `asciiz()` with no zero byte anywhere in the buffer returns the empty string and consumes
  nothing.
- `decompress()` does not look at the compression method.
- The size stored by `init(with:)` is the input length modulo UInt32.max (2^32 - 1), not
  modulo 2^32.

CRC-32, `compression_encode_buffer` and `compression_decode_buffer` are function parameters
(`crc32`, `encodeBuffer`, `decodeBuffer`). The checks Sources/RDGZip/GZipCompression.swift makes
around the codecs are modelled in module `Compression`.

Modules:

- `Wrappers` and `Bytes`: bytes and little-endian integers.
- `Reader` and `Writer`: the cursor and the sink.
- `GZipTypes`: method, flags, errors and outcomes.
- `Compression`: the codec checks.
- `Archive`: the current decoder and encoder.
- `ArchiveLayout`: the predicates the properties are stated in.
- `ArchiveProperties`, `ArchiveErrors` and `ArchiveRoundTrip`: the properties of the current
  variant.
- `Legacy` and `LegacyProperties`: the legacy variant.

## Model

| member | source | states |
|---|---|---|
| Bytes.ToLittleEndian | Sources/RDGZip/GZipWriter.swift:18-22 | the k bytes of a value below 256^k, least-significant first, read back as that value |
| Bytes.ToLittleEndianOfValue | Sources/SWGZip/GZipReader.swift:27-29 | k bytes read as a number and written back in k bytes are the same bytes |
| Bytes.FirstZero | Sources/SWGZip/GZipReader.swift:35 | `firstIndex(of: 0)`: none exactly when no byte is zero; otherwise a zero with no zero before it |
| Reader.IntegerAt | Sources/SWGZip/GZipReader.swift:21-31 | `integer()` of width k succeeds iff `index + k <= count`, then advances by exactly k, and the value's k little-endian bytes are `data[index..index+k]` |
| Reader.AsciizAt | Sources/SWGZip/GZipReader.swift:34-41 | no zero in the buffer: "" and the cursor stays; otherwise it succeeds iff no zero lies before the cursor, and returns the bytes from the cursor up to the buffer's first zero, with the cursor just past it |
| Reader.DataAt | Sources/SWGZip/GZipReader.swift:43-49 | `data(length:)` succeeds iff `0 <= length` and `index + length <= count`, and returns exactly `data[index..index+length]`, advancing by `length` |
| Reader.GZipReader.constructor | Sources/SWGZip/GZipReader.swift:16-19 | the cursor starts at the given index over the given buffer |
| Reader.GZipReader.Integer | Sources/SWGZip/GZipReader.swift:21-32 | the method returns and moves the cursor as `IntegerAt` says; on a trap the cursor is unchanged; the index never decreases |
| Reader.GZipReader.Asciiz | Sources/SWGZip/GZipReader.swift:34-41 | the method returns and moves the cursor as `AsciizAt` says; the index never decreases |
| Reader.GZipReader.Data | Sources/SWGZip/GZipReader.swift:43-49 | the method returns and moves the cursor as `DataAt` says; the index never decreases |
| Reader.IntegerReadsBack | Sources/RDGZip/GZipWriter.swift:18-22 | an integer written little-endian at some offset is read back by `integer()` from that offset as the same value |
| Reader.DataReadsBack | Sources/SWGZip/GZipReader.swift:43-49 | raw bytes written at some offset are read back verbatim by `data(length:)` |
| Reader.AsciizReadsBack | Sources/SWGZip/GZipReader.swift:34-41 | a zero-terminated string is read back by `asciiz()` when nothing before it holds a zero |
| Reader.AsciizTrapsAfterZero | Sources/SWGZip/GZipReader.swift:35-38 | a zero byte anywhere before the cursor makes `asciiz()` trap |
| Reader.AsciizFrom | Sources/SWGZip/GZipReader.swift:34-41 | the corrected `asciiz()`, searching from the cursor: "" when no zero follows it, otherwise the zero-free bytes up to the next zero |
| Reader.AsciizFromReadsBack | Sources/SWGZip/GZipReader.swift:34-41 | the corrected `asciiz()` reads a zero-terminated string back at any offset, whatever precedes it |
| Writer.GZipWriter.constructor | Sources/RDGZip/GZipWriter.swift:14-16 | a new writer holds an empty buffer |
| Writer.GZipWriter.WriteInteger | Sources/RDGZip/GZipWriter.swift:18-22 | appends exactly the value's `size` little-endian bytes to the unchanged old buffer |
| Writer.GZipWriter.WriteAsciiz | Sources/RDGZip/GZipWriter.swift:25-32 | with an encoding, appends its bytes and one zero and returns their count + 1; without one, appends nothing and returns 0 |
| Writer.GZipWriter.WriteData | Sources/RDGZip/GZipWriter.swift:34-36 | appends its argument verbatim to the unchanged old buffer |
| GZipTypes.CompressionMethod.RawValue | Sources/RDGZip/GZipArchive.swift:72-82 | raw values 0-8, and the raw value is 8 exactly for deflate |
| GZipTypes.MethodFromRaw | Sources/RDGZip/GZipArchive.swift:72-82 | `CompressionMethod(rawValue:)` on 0-8 is the method with that raw value |
| Compression.Compress | Sources/RDGZip/GZipCompression.swift:41-59 | never traps; the written bytes when any were written, `encodeFailed` exactly when none were |
| Compression.Decompress | Sources/RDGZip/GZipCompression.swift:19-39 | the output when its length equals `outputSize` modulo UInt32.max, which for a codec bounded by its capacity holds iff the buffer is full and `outputSize` is not UInt32.max; otherwise `decodedLengthMismatch(written, outputSize)` |
| Archive.HeaderCrc | Sources/RDGZip/GZipArchive.swift:164-175 | the CRC16 is present iff its flag is set and the cursor stays inside the buffer |
| Archive.DecodedFixed | Sources/RDGZip/GZipArchive.swift:148-162 | a successful fixed header ends at offset 10 and has method deflate |
| Archive.DecodedBinary | Sources/RDGZip/GZipArchive.swift:164-187 | the CRC16 and extra-field stage keeps the cursor inside the buffer; DecodedBinaryOfBytes and DecodedBinaryLayout state its outcome on every buffer and that it reads back a laid-out CRC16 and extra field |
| Archive.DecodedStrings | Sources/RDGZip/GZipArchive.swift:189-199 | the file-name and comment stage keeps the cursor inside the buffer; DecodedStringsOfBytes and DecodedStringsLayout state its outcome and that it reads back strings with no earlier zero byte |
| Archive.DecodedOptional | Sources/RDGZip/GZipArchive.swift:164-199 | the binary stage, then the string stage, the cursor staying inside the buffer; LaidOutDecodes states that `Decoded`, which runs it, reads back every laid-out `Consistent` and `Readable` archive |
| Archive.Decoded | Sources/RDGZip/GZipArchive.swift:147-219 | every archive `init(from:)` returns has magic 0x8b1f, deflate and no reserved bit, and its payload, CRC-32 and size are the last `count + 8` bytes after a 10-byte header; DecodedConsistent, LaidOutDecodes and the ArchiveErrors lemmas state the rest |
| Archive.DecodedTrailer | Sources/RDGZip/GZipArchive.swift:213-218 | never throws; succeeds iff 8 bytes remain after the cursor; the payload is everything up to the last 8 bytes, then the CRC-32 and the size are the u32s at `count - 8` and `count - 4` |
| Archive.ReadFixed | Sources/RDGZip/GZipArchive.swift:148-162 | the fixed header read on a `GZipReader` returns, throws or traps as `DecodedFixed`, leaving the cursor at its `next` |
| Archive.ReadBinary | Sources/RDGZip/GZipArchive.swift:164-187 | the CRC16 and extra field read on the reader, as `DecodedBinary` |
| Archive.ReadStrings | Sources/RDGZip/GZipArchive.swift:189-199 | the file name and comment read on the reader, as `DecodedStrings` |
| Archive.ReadOptional | Sources/RDGZip/GZipArchive.swift:164-199 | all optional fields read on the reader, as `DecodedOptional` |
| Archive.ReadTrailer | Sources/RDGZip/GZipArchive.swift:213-218 | payload and trailer read on the reader, as `DecodedTrailer` |
| Archive.InitFrom | Sources/RDGZip/GZipArchive.swift:147-219 | `init(from:verifyHeader:)` run on a `GZipReader` returns, throws or traps exactly as `Decoded` |
| Archive.FixedHeaderBytes | Sources/RDGZip/GZipArchive.swift:245-250 | the fixed header is ten bytes |
| Archive.Crc16Bytes | Sources/RDGZip/GZipArchive.swift:252-254 | two bytes when a CRC16 is present, else none; DecodedBinaryLayout states that the decoder reads them back |
| Archive.ExtraBytes | Sources/RDGZip/GZipArchive.swift:256-259 | the length in `width` bytes plus the field when present, else nothing; DecodedBinaryLayout states the 2-byte form reads back and EncodedExtraFieldNotDecoded that the 8-byte form does not |
| Archive.AsciizBytes | Sources/RDGZip/GZipArchive.swift:261-267 | the string and one terminator byte when present, else nothing; DecodedStringsLayout and StringsCorrectedReadBack state that they read back |
| Archive.PayloadBytes | Sources/RDGZip/GZipArchive.swift:269-271 | the payload with 8 trailer bytes; TrailerLayout states that the trailer stage reads back the payload, CRC-32 and size |
| Archive.Encoded | Sources/RDGZip/GZipArchive.swift:243-273 | `compress()` as written: header, then the fields present, then payload and trailer; the extra length takes 8 bytes; the first ten bytes are the fixed header |
| Archive.EncodedCorrected | Sources/RDGZip/GZipArchive.swift:243-273 | the same layout with the 2-byte extra length `init(from:)` reads |
| Archive.WriteFixedHeader | Sources/RDGZip/GZipArchive.swift:244-250 | the six writes append exactly the fixed header |
| Archive.WriteCrc16 | Sources/RDGZip/GZipArchive.swift:252-254 | appends the CRC16's two bytes when present, else nothing |
| Archive.WriteExtraField | Sources/RDGZip/GZipArchive.swift:256-259 | appends the 8-byte `Int` count and the extra field when present, else nothing |
| Archive.WriteOptionalAsciiz | Sources/RDGZip/GZipArchive.swift:261-267 | appends the string and a zero when present, else nothing |
| Archive.WritePayload | Sources/RDGZip/GZipArchive.swift:269-271 | appends the payload, the CRC-32 and the size |
| Archive.Compress | Sources/RDGZip/GZipArchive.swift:243-273 | `compress()` run on a `GZipWriter` returns exactly `Encoded` |
| Archive.UncompressedSize | Sources/RDGZip/GZipArchive.swift:235 | the stored size is below UInt32.max and equals the length of any shorter input |
| Archive.With | Sources/RDGZip/GZipArchive.swift:221-236 | `init(with:)` throws `encodeFailed` iff the codec writes nothing, traps iff the codec writes something and the input is longer than UInt32.max bytes, and otherwise builds magic 0x8b1f, deflate, empty flags, mtime 0, xfl 0, os 0xFF, no optional field, the codec's output, the input's CRC-32 and its length modulo UInt32.max |
| Archive.Decompress | Sources/RDGZip/GZipArchive.swift:275-286 | `decompress()` succeeds iff the codec fills exactly `uncompressedSize` bytes, that size is not UInt32.max, and their CRC-32 is the stored one; the output is those bytes; a short output or a size of UInt32.max throws `decodedLengthMismatch(written, uncompressedSize)`, and a full buffer with another CRC-32 throws `dataCrcFailed(computed, stored)` |
| ArchiveProperties.DecodedFixedOfBytes | Sources/RDGZip/GZipArchive.swift:148-162 | a fixed header with magic 0x8b1f and deflate decodes to its own fields, ending at 10 |
| ArchiveProperties.DecodedFixedLayout | Sources/RDGZip/GZipArchive.swift:148-162 | the first ten bytes of a buffer whose fixed header decodes are that header, and its method is deflate |
| ArchiveProperties.DecodedBinaryLayout | Sources/RDGZip/GZipArchive.swift:164-187 | a decoded CRC16 is present iff bit 1 and is the two bytes after the header, matching the low half of the CRC-32 of the bytes before it under `verifyHeader`; the extra length and field are present iff bit 2, of the stored length |
| ArchiveProperties.DecodedStringsLayout | Sources/RDGZip/GZipArchive.swift:189-199 | the file name and comment are present iff bits 3 and 4; in a buffer with a zero they are zero-terminated, zero-free, preceded by no zero, and never both present |
| ArchiveProperties.TrailerLayout | Sources/RDGZip/GZipArchive.swift:213-218 | a decoded payload and trailer are the last `count + 8` bytes of the buffer |
| ArchiveProperties.DecodedConsistent | Sources/RDGZip/GZipArchive.swift:147-219 | every archive `init(from:)` returns has the magic and deflate, no reserved bit, each optional field present iff its flag, the extra field as long as its length, the fixed header as its first ten bytes, the CRC16 at offset 10 (checked with `verifyHeader`), and payload, CRC-32 and size in the last `count + 8` bytes |
| ArchiveProperties.EncodedCorrectedOfDecoded | Sources/RDGZip/GZipArchive.swift:147-219 | every buffer `init(from:)` accepts, once any string it read was terminated, is exactly the encoding (with a 2-byte extra length) of the archive returned |
| ArchiveProperties.DecodedBinaryOfBytes | Sources/RDGZip/GZipArchive.swift:164-187 | an encoded CRC16 and extra field read back as themselves, ending where the strings begin |
| ArchiveProperties.DecodedStringsOfBytes | Sources/RDGZip/GZipArchive.swift:189-199 | an encoded name or comment read back as itself when nothing before it is zero |
| ArchiveProperties.DecodedTrailerOfBytes | Sources/RDGZip/GZipArchive.swift:213-218 | an encoded payload and trailer read back as themselves |
| ArchiveProperties.LaidOutDecodes | Sources/RDGZip/GZipArchive.swift:147-219 | a buffer laid out as a consistent, readable archive decodes to that archive |
| ArchiveProperties.DecodeEncodedCorrected | Sources/RDGZip/GZipArchive.swift:243-273 | round trip: every consistent archive with decodable strings comes back from its encoding with a 2-byte extra length, under `verifyHeader` too when its CRC16 matches |
| ArchiveErrors.MagicChecked | Sources/RDGZip/GZipArchive.swift:149-152 | under 2 bytes traps; any other first two bytes than 0x8b1f (little-endian) throw `notGZip` with that value |
| ArchiveErrors.MethodChecked | Sources/RDGZip/GZipArchive.swift:154-157 | after a good magic, a method byte above 8 traps and one below 8 throws `unknownCompressionMethod` of that method |
| ArchiveErrors.HeaderCrcChecked | Sources/RDGZip/GZipArchive.swift:164-172 | with `verifyHeader` and bit 1, a stored CRC16 other than the low half of the CRC-32 of bytes [0, 10) throws `headerCrcFailed` with the computed CRC and the stored value |
| ArchiveErrors.HeaderCrcUnchecked | Sources/RDGZip/GZipArchive.swift:168-172 | without `verifyHeader` no `headerCrcFailed` is ever thrown |
| ArchiveErrors.ReservedFlagsChecked | Sources/RDGZip/GZipArchive.swift:201-211 | once the optional fields are read, bits 5, 6 and 7 are checked in that order; the first set throws `unknownFlag` with 32, 64 or 128; with none set nothing more is thrown |
| ArchiveErrors.ShortInputRejected | Sources/RDGZip/GZipArchive.swift:213-218 | no buffer shorter than 18 bytes decodes |
| ArchiveErrors.DecodedFlagByte | Sources/RDGZip/GZipArchive.swift:159 | the flags of a decoded archive are its fourth byte |
| ArchiveErrors.NameWithCommentRejected | Sources/RDGZip/GZipArchive.swift:189-199 | a buffer announcing both a file name and a comment that holds any zero byte never decodes |
| ArchiveRoundTrip.EncodedMatchesCorrected | Sources/RDGZip/GZipArchive.swift:256-259 | without an extra field, `compress()` as written is the corrected layout |
| ArchiveRoundTrip.DecodeEncoded | Sources/RDGZip/GZipArchive.swift:243-273 | `compress()` as written is read back by `init(from:)` when it writes no extra field |
| ArchiveRoundTrip.WithArchive | Sources/RDGZip/GZipArchive.swift:221-236 | every archive `init(with:)` builds is consistent and readable, and compresses to 10 + payload + 8 bytes: header, payload, trailer |
| ArchiveRoundTrip.ExtractRoundTrip | Sources/RDGZip/GZipArchive.swift:221-286 | `init(with:)`, `compress()`, `init(from:)`, `decompress()`: with a codec that inflates what it deflated and an input shorter than UInt32.max, the archive and the input both come back |
| ArchiveRoundTrip.FullSizeNotExtracted | Sources/RDGZip/GZipArchive.swift:235 | an input of exactly UInt32.max bytes is stored with size 0 and never comes back |
| ArchiveRoundTrip.ExtraLengthHasZero | Sources/RDGZip/GZipArchive.swift:257 | the 8-byte length of an extra field shorter than 2^16 holds a zero byte |
| ArchiveRoundTrip.EncodedExtraFieldNotDecoded | Sources/RDGZip/GZipArchive.swift:256-259 | no archive with an extra field, of any length, comes back from `compress()` as written |
| ArchiveRoundTrip.AsciizAtMissesString | Sources/SWGZip/GZipReader.swift:35-38 | on `[0, 65, 0]` at cursor 1 `asciiz()` traps where the corrected search reads `[65]` |
| ArchiveRoundTrip.NameAfterZeroNotDecoded | Sources/RDGZip/GZipArchive.swift:189-190 | an archive with a file name and a zero byte in the header before it never comes back, even in the layout `init(from:)` reads |
| ArchiveRoundTrip.DecodedStringsCorrected | Sources/RDGZip/GZipArchive.swift:189-199 | with the corrected `asciiz()`, never throws, and the name and comment are present iff their bits |
| ArchiveRoundTrip.StringsCorrectedReadBack | Sources/RDGZip/GZipArchive.swift:189-199 | with the corrected `asciiz()`, any zero-free name and comment, alone or together, are read back wherever they sit and whatever precedes them |
| Legacy.LegacyMethod.RawValue | Sources/swift-gzip/GZipArchive.swift:33-43 | raw values 0-8 |
| Legacy.LegacyMethodFromRaw | Sources/swift-gzip/GZipArchive.swift:33-43 | `CompressionMethod(rawValue:)` on 0-8 is the method with that raw value |
| Legacy.LegacyFixedAt | Sources/swift-gzip/GZipArchive.swift:61-67 | never throws; a successful fixed header ends at offset 10 |
| Legacy.LegacyBinaryAt | Sources/swift-gzip/GZipArchive.swift:69-85 | never throws and never moves the cursor back |
| Legacy.LegacyTextsAt | Sources/swift-gzip/GZipArchive.swift:87-103 | never throws and never moves the cursor back |
| Legacy.LegacyDecoded | Sources/swift-gzip/GZipArchive.swift:60-108 | the legacy decoder never throws |
| Legacy.ReadLegacyFixed | Sources/swift-gzip/GZipArchive.swift:61-67 | the fixed header read on a `GZipReader`, as `LegacyFixedAt` |
| Legacy.ReadLegacyBinary | Sources/swift-gzip/GZipArchive.swift:69-85 | part number and extra field read on the reader, as `LegacyBinaryAt` |
| Legacy.ReadLegacyTexts | Sources/swift-gzip/GZipArchive.swift:87-103 | strings and encryption header read on the reader, as `LegacyTextsAt` |
| Legacy.LegacyInitFrom | Sources/swift-gzip/GZipArchive.swift:60-108 | legacy `init(from:)` run on a `GZipReader` returns or traps exactly as `LegacyDecoded` |
| LegacyProperties.LegacyFixedOfBytes | Sources/swift-gzip/GZipArchive.swift:61-67 | the fixed header reads iff there are 10 bytes and the method byte is at most 8, whatever the magic; the magic is the first two bytes little-endian, and each field is its bytes |
| LegacyProperties.LegacyMethodTraps | Sources/swift-gzip/GZipArchive.swift:63 | a method byte above 8 traps |
| LegacyProperties.LegacyBinaryLayout | Sources/swift-gzip/GZipArchive.swift:69-85 | the part number is present iff bit 1, as the u16 at the cursor; the extra length and field are present iff bit 2, the field as long as the length; the cursor moves by exactly what was read |
| LegacyProperties.LegacyTextsLayout | Sources/swift-gzip/GZipArchive.swift:87-103 | name and comment are present iff bits 3 and 4; the encryption header is present iff bit 5, and is then 12 bytes |
| LegacyProperties.LegacyDecodedLayout | Sources/swift-gzip/GZipArchive.swift:60-108 | every legacy archive: magic = first two bytes, method byte at most 8, flags = fourth byte, each optional field present iff its bit (part number right after the fixed header), and payload, CRC-32 and size in the last `count + 8` bytes |
| LegacyProperties.LegacyFixedOtherBits | Sources/swift-gzip/GZipArchive.swift:61-67 | another flag byte changes only the flags of the fixed header |
| LegacyProperties.LegacyBinaryOtherBits | Sources/swift-gzip/GZipArchive.swift:69-85 | part number and extra field read the same under flags that agree on bits 1-5 |
| LegacyProperties.LegacyTextsOtherBits | Sources/swift-gzip/GZipArchive.swift:87-103 | strings and encryption header read the same under a flag byte that agrees on bits 1-5 |
| LegacyProperties.TrailerOtherBits | Sources/swift-gzip/GZipArchive.swift:105-107 | payload and trailer read the same with another flag byte |
| LegacyProperties.LegacyIgnoresOtherBits | Sources/swift-gzip/GZipArchive.swift:45-52 | flag bits 0, 6 and 7 never change what is consumed: with them changed, the legacy decoder succeeds or traps exactly as before and returns the same archive but for the flags |

## Left out

- `write(to:options:)` (Sources/RDGZip/GZipArchive.swift:238-241) is file I/O.
- `crc32(of:)` calls zlib, so CRC-32 is the parameter `crc32`. The DEFLATE codecs behind
  Sources/RDGZip/GZipCompression.swift are the parameters `encodeBuffer` and `decodeBuffer`. Only
  the checks around them are modelled.
- The legacy `decompress()` and Sources/swift-gzip/GZipCompression.swift are not part of this
  model. They are pointer-level wrappers over Apple's streaming codec. The same holds for the
  `compression_stream` extension (Sources/swift-gzip/GZipArchive.swift:118-122).
- The legacy decoder's own reader is not among the sources. The legacy decoder is modelled on
  the reader of Sources/SWGZip/GZipReader.swift: `IntegerAt`, `DataAt`, and `AsciizAt` with its
  search for the first zero of the whole buffer. Its `data(offset:)` is modelled as
  `data(length:)`.
- Every `Data` buffer is taken to start at index 0. The reader starts at index 0, and
  `firstIndex(of:)` returns an absolute index, so a slice with a non-zero `startIndex` is not
  modelled.
- Reader.AsciizAt: the name and comment are byte sequences. The forced unwrap of
  `String(bytes:encoding: .utf8)` on bytes that are not UTF-8 is not modelled as a trap.
- Writer.GZipWriter.WriteAsciiz: takes the outcome of `value.data(using: .utf8)` as its
  argument. `compress()` on byte-sequence strings always passes an encoding.
- Reader.IntegerAt: `integer()` reads host byte order. The model fixes it to little-endian, the
  order of the targets.
- ArchiveErrors.ShortInputRejected: states only that no buffer shorter than 18 bytes decodes. It
  does not say whether the decoder throws or traps there: that depends on which check a prefix
  fails first. MagicChecked and MethodChecked state those cases.
- GZipTypes.Flags.Contains carries no contract of its own. It is a bit test, and the lemmas
  about the decoder state what each flag it tests does.
- Archive.With: the CRC-32 value is the parameter `crc32`. Of `crc32(of:)` only its abort on
  more than UInt32.max bytes is modelled.
- Concurrency and object identity: the Swift classes are single-owner, so one reader or writer
  per call is modelled.

## Findings

| source | as written | input that shows it | evidently intended | confidence | as-written member | corrected member |
|---|---|---|---|---|---|---|
| Sources/RDGZip/GZipArchive.swift:257 | `compress()` writes `extraField.count` as an `Int`, 8 bytes, but `init(from:)` reads a 2-byte `UInt16` length (line 178) | any archive with an extra field, e.g. a 1-byte extra field: its 8-byte length holds zero bytes, and the decoder reads 2 length bytes and then misplaces every later field | XLEN written as a 2-byte little-endian length (section 2.3 of RFC 1952) | high, not executed | Archive.Encoded, ArchiveRoundTrip.EncodedExtraFieldNotDecoded | Archive.EncodedCorrected, ArchiveProperties.DecodeEncodedCorrected |
| Sources/SWGZip/GZipReader.swift:35 | `asciiz()` looks for the first zero byte of the whole buffer, from position 0, not from the cursor | buffer `[0, 65, 0]` with the cursor at 1: the zero at 0 is found and the slice `data[1..<0]` traps | search for the terminator from `index` on | high, not executed | Reader.AsciizAt, ArchiveRoundTrip.AsciizAtMissesString | Reader.AsciizFrom, ArchiveRoundTrip.StringsCorrectedReadBack |
