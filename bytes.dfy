/** Option, as used for Swift optionals. */
module Wrappers {

  datatype Option<+T> = None | Some(value: T)
}

/** Byte-level vocabulary shared by the reader, the writer and both archive codecs. */
module Bytes {
  import opened Wrappers

  newtype u8 = x: int | 0 <= x < 0x100
  newtype u16 = x: int | 0 <= x < 0x1_0000
  newtype u32 = x: int | 0 <= x < 0x1_0000_0000

  /** 256^k: one more than the largest value k bytes hold. */
  function Pow256(k: nat): (r: nat)
    ensures r > 0
  {
    if k == 0 then 1 else 256 * Pow256(k - 1)
  }

  /** The unsigned value of `s` read least-significant byte first
      (host order on the targets, and the order of section 2.1 of RFC 1952). */
  function LittleEndian(s: seq<u8>): (v: nat)
  {
    if s == [] then 0 else s[0] as nat + 256 * LittleEndian(s[1..])
  }

  /** The k bytes of `v`, least-significant first. */
  function ToLittleEndian(v: nat, k: nat): (s: seq<u8>)
    requires v < Pow256(k)
    ensures |s| == k
    ensures LittleEndian(s) == v
  {
    if k == 0 then [] else [(v % 256) as u8] + ToLittleEndian(v / 256, k - 1)
  }

  lemma {:induction false} LittleEndianBound(s: seq<u8>)
    ensures LittleEndian(s) < Pow256(|s|)
  {
    if s != [] {
      LittleEndianBound(s[1..]);
    }
  }

  /** Reading k bytes as a number and writing it back in k bytes gives the same bytes. */
  lemma {:induction false} ToLittleEndianOfValue(s: seq<u8>)
    ensures LittleEndian(s) < Pow256(|s|)
    ensures ToLittleEndian(LittleEndian(s), |s|) == s
  {
    LittleEndianBound(s);
    if s != [] {
      ToLittleEndianOfValue(s[1..]);
      assert LittleEndian(s) % 256 == s[0] as nat;
      assert LittleEndian(s) / 256 == LittleEndian(s[1..]);
    }
  }

  /** A value that fits in fewer than k bytes leaves the last of its k bytes zero. */
  lemma {:induction false} ToLittleEndianTop(v: nat, k: nat, j: nat)
    requires j < k && v < Pow256(j) && v < Pow256(k)
    ensures ToLittleEndian(v, k)[k - 1] == 0
  {
    if k == 1 {
      assert v == 0;
    } else if j == 0 {
      ToLittleEndianTop(v / 256, k - 1, 0);
    } else {
      assert v / 256 < Pow256(j - 1);
      ToLittleEndianTop(v / 256, k - 1, j - 1);
    }
  }

  /** Two k-byte encodings are equal exactly when the values are. */
  lemma ToLittleEndianInjective(v: nat, w: nat, k: nat)
    requires v < Pow256(k) && w < Pow256(k)
    ensures ToLittleEndian(v, k) == ToLittleEndian(w, k) <==> v == w
  {
  }

  predicate NoZero(s: seq<u8>)
  {
    forall j :: 0 <= j < |s| ==> s[j] != 0
  }

  /** No zero byte among the first n bytes of s (all of s when n exceeds its length). */
  predicate NoZeroBefore(s: seq<u8>, n: nat)
  {
    forall j :: 0 <= j < |s| && j < n ==> s[j] != 0
  }

  /** Foundation's `firstIndex(of: 0x00)` over a whole buffer. */
  function FirstZero(s: seq<u8>): (r: Option<nat>)
    ensures r.None? <==> NoZero(s)
    ensures r.Some? ==> r.value < |s| && s[r.value] == 0 && NoZero(s[..r.value])
  {
    if s == [] then None
    else if s[0] == 0 then Some(0)
    else match FirstZero(s[1..])
      case None => None
      case Some(e) =>
        assert s[..e + 1] == [s[0]] + s[1..][..e];
        Some(e + 1)
  }

  /** The first zero byte is the one that has no zero before it. */
  lemma FirstZeroAt(s: seq<u8>, e: nat)
    requires e < |s| && s[e] == 0 && NoZero(s[..e])
    ensures FirstZero(s) == Some(e)
  {
  }

  /** Changing one non-zero byte into another non-zero byte leaves the first zero where it was. */
  lemma FirstZeroUpdate(s: seq<u8>, k: nat, x: u8)
    requires k < |s| && s[k] != 0 && x != 0
    ensures FirstZero(s[k := x]) == FirstZero(s)
  {
    var t := s[k := x];
    match FirstZero(s)
    case None =>
      assert NoZero(t) by {
        forall j | 0 <= j < |t| ensures t[j] != 0 {
          if j != k { assert t[j] == s[j]; }
        }
      }
    case Some(e) =>
      assert NoZero(t[..e]) by {
        forall j | 0 <= j < e ensures t[..e][j] != 0 {
          if j != k { assert t[j] == s[..e][j]; }
        }
      }
      FirstZeroAt(t, e);
  }
}
