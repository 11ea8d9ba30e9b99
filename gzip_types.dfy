/** The value types of Sources/RDGZip/GZipArchive.swift (the CompressionMethod
    enum and the Flags option set) and the error enum of Sources/SWGZip/GZipError.swift. */
module GZipTypes {
  import opened Bytes

  /** CM: 0-7 reserved, 8 deflate. */
  datatype CompressionMethod =
    | Reserved0 | Reserved1 | Reserved2 | Reserved3
    | Reserved4 | Reserved5 | Reserved6 | Reserved7
    | Deflate
  {
    function RawValue(): (r: u8)
      ensures r <= 8
      ensures r == 8 <==> this == Deflate
    {
      match this
      case Reserved0 => 0 case Reserved1 => 1 case Reserved2 => 2
      case Reserved3 => 3 case Reserved4 => 4 case Reserved5 => 5
      case Reserved6 => 6 case Reserved7 => 7 case Deflate => 8
    }
  }

  /** `CompressionMethod(rawValue:)`: defined exactly for 0 through 8. */
  function MethodFromRaw(raw: u8): (r: CompressionMethod)
    requires raw <= 8
    ensures r.RawValue() == raw
  {
    match raw
    case 0 => Reserved0 case 1 => Reserved1 case 2 => Reserved2
    case 3 => Reserved3 case 4 => Reserved4 case 5 => Reserved5
    case 6 => Reserved6 case 7 => Reserved7 case _ => Deflate
  }

  /** 2^bit for the eight bit positions of a flag byte. */
  function BitValue(bit: nat): (r: u8)
    requires bit < 8
  {
    match bit
    case 0 => 1 case 1 => 2 case 2 => 4 case 3 => 8
    case 4 => 16 case 5 => 32 case 6 => 64 case _ => 128
  }

  /** Bit positions of the FLG byte's members. */
  const Ascii: nat := 0
  const Crc16: nat := 1
  const ExtraField: nat := 2
  const OriginalFileName: nat := 3
  const Comment: nat := 4
  const Reserved5Bit: nat := 5
  const Reserved6Bit: nat := 6
  const Reserved7Bit: nat := 7

  /** FLG as an option set over its raw byte. */
  datatype Flags = Flags(rawValue: u8)
  {
    /** `contains(_:)` for the single-bit member at position `bit`. */
    predicate Contains(bit: nat)
      requires bit < 8
    {
      (rawValue as int / BitValue(bit) as int) % 2 == 1
    }
  }

  /** Sources/SWGZip/GZipError.swift. */
  datatype GZipError =
    | UnknownCompressionMethod(cm: CompressionMethod)
    | DecodedLengthMismatch(written: int, expected: u32)
    | DataCrcFailed(dataCrc: u32, storedCrc32: u32)
    | HeaderCrcFailed(headerCrc: u32, storedCrc16: u16)
    | UnknownFlag(flag: u8)
    | NotGZip(magic: u16)
    | EncodeFailed

  /** What a throwing Swift call does: return a value, throw, or abort the process. */
  datatype Outcome<+T> = Ok(value: T) | Throws(error: GZipError) | Traps
  {
    predicate IsFailure() { !Ok? }

    function PropagateFailure<U>(): (r: Outcome<U>)
      requires IsFailure()
    {
      if Throws? then Throws(error) else Traps
    }

    function Extract(): (v: T)
      requires Ok?
    {
      value
    }
  }
}
