/** The byte cursor of Sources/SWGZip/GZipReader.swift: a mutable index over an
    immutable buffer. Every call that the Swift code would abort (`fatalError`, an
    out-of-range or inverted slice) yields `Trap` and leaves the cursor alone. */
module Reader {
  import opened Wrappers
  import opened Bytes

  /** The outcome of one read: the value and the index after it, or a trap. */
  datatype Step<+T> = Step(value: T, next: nat) | Trap

  /** `integer()` of a `size`-byte unsigned type at `index`: guarded by
      `index + size <= data.count`, read least-significant byte first. */
  function IntegerAt(data: seq<u8>, index: nat, size: nat): (r: Step<nat>)
    ensures r.Step? <==> index + size <= |data|
    ensures r.Step? ==> r.next == index + size && r.value < Pow256(size)
    ensures r.Step? ==> ToLittleEndian(r.value, size) == data[index..index + size]
  {
    if index + size <= |data| then
      ToLittleEndianOfValue(data[index..index + size]);
      Step(LittleEndian(data[index..index + size]), index + size)
    else
      Trap
  }

  /** `asciiz()`: the first zero byte is looked for in the WHOLE buffer, from
      position 0, and the bytes from the cursor up to it are returned. */
  function AsciizAt(data: seq<u8>, index: nat): (r: Step<seq<u8>>)
    // no zero byte anywhere: "" and the cursor stays put
    ensures NoZero(data) ==> r == Step([], index)
    // a zero byte before the cursor is found first, and the slice is inverted
    ensures !NoZero(data) ==> (r.Step? <==> NoZeroBefore(data, index))
    // otherwise: the bytes up to the terminator, and the cursor just past it
    ensures r.Step? && !NoZero(data) ==>
      index < r.next <= |data| && data[r.next - 1] == 0 && NoZero(data[..r.next - 1])
      && r.value == data[index..r.next - 1]
  {
    match FirstZero(data)
    case None => Step([], index)
    case Some(e) =>
      if index <= e then
        Step(data[index..e], e + 1)
      else
        Trap
  }

  /** `data(length:)`: no bounds check of its own, so an inverted range
      (negative length) or one past the end traps at the slice. */
  function DataAt(data: seq<u8>, index: nat, length: int): (r: Step<seq<u8>>)
    ensures r.Step? <==> 0 <= length && index + length <= |data|
    ensures r.Step? ==> |r.value| == length && r.next == index + length
    ensures r.Step? ==> data[index..r.next] == r.value
  {
    if 0 <= length && index + length <= |data| then
      Step(data[index..index + length], index + length)
    else
      Trap
  }

  /** The corrected `asciiz()`: the terminator is looked for from the cursor on. */
  function AsciizFrom(data: seq<u8>, index: nat): (r: Step<seq<u8>>)
    ensures index <= |data| && NoZero(data[index..]) ==> r == Step([], index)
    ensures r.Step? && r.next != index ==>
      index < r.next <= |data| && data[r.next - 1] == 0 && r.value == data[index..r.next - 1]
      && NoZero(r.value)
  {
    if |data| < index then Trap
    else match FirstZero(data[index..])
      case None => Step([], index)
      case Some(e) =>
        assert data[index..][..e] == data[index..index + e];
        Step(data[index..index + e], index + e + 1)
  }

  /** Section 2.1 of RFC 1952: an integer written least-significant byte first at
      some offset is read back, from that offset, as the same value. */
  lemma IntegerReadsBack(before: seq<u8>, v: nat, size: nat, after: seq<u8>)
    requires v < Pow256(size)
    ensures IntegerAt(before + ToLittleEndian(v, size) + after, |before|, size)
            == Step(v, |before| + size)
  {
    var data := before + ToLittleEndian(v, size) + after;
    assert data[|before|..|before| + size] == ToLittleEndian(v, size);
    var r := IntegerAt(data, |before|, size);
    ToLittleEndianInjective(r.value, v, size);
  }

  /** Raw bytes written at some offset are read back verbatim. */
  lemma DataReadsBack(before: seq<u8>, d: seq<u8>, after: seq<u8>)
    ensures DataAt(before + d + after, |before|, |d|) == Step(d, |before| + |d|)
  {
    assert (before + d + after)[|before|..|before| + |d|] == d;
  }

  /** A zero-terminated string written at some offset is read back by `asciiz()`
      only when nothing before it holds a zero byte. */
  lemma {:induction false} AsciizReadsBack(before: seq<u8>, s: seq<u8>, after: seq<u8>)
    requires NoZero(before) && NoZero(s)
    ensures AsciizAt(before + s + [0] + after, |before|) == Step(s, |before| + |s| + 1)
  {
    var data := before + s + [0] + after;
    var e := |before| + |s|;
    assert data[..e] == before + s;
    FirstZeroAt(data, e);
    assert data[|before|..e] == s;
  }

  /** `asciiz()` never returns a string that spans a zero byte the decoder has
      already passed: with a zero before the cursor the call always traps. */
  lemma AsciizTrapsAfterZero(data: seq<u8>, index: nat, z: nat)
    requires z < index && z < |data| && data[z] == 0
    ensures AsciizAt(data, index) == Trap
  {
    assert !NoZero(data);
  }

  /** The corrected `asciiz()` reads a zero-terminated string back from any
      offset, whatever precedes it. */
  lemma AsciizFromReadsBack(before: seq<u8>, s: seq<u8>, after: seq<u8>)
    requires NoZero(s)
    ensures AsciizFrom(before + s + [0] + after, |before|) == Step(s, |before| + |s| + 1)
  {
    var data := before + s + [0] + after;
    assert data[|before|..] == s + [0] + after;
    assert (s + [0] + after)[..|s|] == s;
    FirstZeroAt(s + [0] + after, |s|);
    assert data[|before|..|before| + |s|] == s;
  }

  /** The cursor of Sources/SWGZip/GZipReader.swift. */
  class GZipReader {
    var index: nat
    const data: seq<u8>

    constructor (index: nat, data: seq<u8>)
      ensures this.index == index && this.data == data
    {
      this.index := index;
      this.data := data;
    }

    /** `integer<T>()` for a type of `size` bytes; `None` is the `fatalError()`. */
    method Integer(size: nat) returns (r: Option<nat>)
      modifies this
      ensures old(index) <= index
      ensures match IntegerAt(data, old(index), size)
              case Step(v, next) => r == Some(v) && index == next
              case Trap => r == None && index == old(index)
    {
      if index + size <= |data| {
        r := Some(LittleEndian(data[index..index + size]));
        index := index + size;
      } else {
        r := None;
      }
    }

    /** `asciiz()`; `None` is the trap on the inverted slice. */
    method Asciiz() returns (r: Option<seq<u8>>)
      modifies this
      ensures old(index) <= index
      ensures match AsciizAt(data, old(index))
              case Step(s, next) => r == Some(s) && index == next
              case Trap => r == None && index == old(index)
    {
      var endIndex := FirstZero(data);
      if endIndex.None? {
        return Some([]);
      }
      if endIndex.value < index {
        return None;
      }
      r := Some(data[index..endIndex.value]);
      index := endIndex.value + 1;
    }

    /** `data(length:)`; `None` is the trap on an inverted or out-of-range slice. */
    method Data(length: int) returns (r: Option<seq<u8>>)
      modifies this
      ensures old(index) <= index
      ensures match DataAt(data, old(index), length)
              case Step(s, next) => r == Some(s) && index == next
              case Trap => r == None && index == old(index)
    {
      var endIndex := index + length;
      if endIndex < index || |data| < endIndex {
        return None;
      }
      r := Some(data[index..endIndex]);
      index := endIndex;
    }
  }
}
