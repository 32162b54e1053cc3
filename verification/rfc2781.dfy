/** A reference UTF-16 encoder, written from section 2.1 of RFC 2781: a value
    below U+10000 is one 16-bit unit; any other scalar value U is written as
    the pair 0xD800 + ((U - 0x10000) >> 10), 0xDC00 + ((U - 0x10000) & 0x3FF).
    Units are serialized as two bytes in either byte order (section 3 of
    RFC 2781). The UTF-16 decoder is checked against it. */
module Rfc2781 {
  import opened Types
  import opened Utils

  /** The low sixteen bits of a value: for a value below U+10000, its one
      code unit. */
  function Low16(v: uint32): uint16 {
    (v & 0xFFFF) as uint16
  }

  /** The high (leading) surrogate of a supplementary value: 0xD800 plus the
      top ten bits of U - 0x10000. */
  function HighSurrogate(v: uint32): uint16 {
    0xD800 | ((((v - 0x10000) >> 10) & 0x3FF) as uint16)
  }

  /** The low (trailing) surrogate of a supplementary value: 0xDC00 plus the
      bottom ten bits of U - 0x10000. */
  function LowSurrogate(v: uint32): uint16 {
    0xDC00 | (((v - 0x10000) & 0x3FF) as uint16)
  }

  /** The UTF-16 code units of one scalar value. */
  function Units(v: uint32): (r: seq<uint16>)
    requires IsValidUnicodeRange(v)
    ensures |r| == (if v < 0x10000 then 1 else 2)
    ensures |r| == 1 ==> r[0] as uint32 == v
    ensures |r| == 2 ==> 0xD800 <= r[0] <= 0xDBFF && 0xDC00 <= r[1] <= 0xDFFF
  {
    if v < 0x10000 then [Low16(v)]
    else [HighSurrogate(v), LowSurrogate(v)]
  }

  /** The two bytes of a code unit in byte order `e`. */
  function UnitBytes(u: uint16, e: Endianness): (r: seq<byte>)
    ensures |r| == 2
  {
    var hi := (u >> 8) as byte;
    var lo := (u & 0xFF) as byte;
    match e
    case BigEndian => [hi, lo]
    case LittleEndian => [lo, hi]
  }

  /** Code units serialized one after the other. */
  function UnitsBytes(us: seq<uint16>, e: Endianness): (r: seq<byte>)
    ensures |r| == 2 * |us|
  {
    if |us| == 0 then [] else UnitBytes(us[0], e) + UnitsBytes(us[1..], e)
  }

  /** The UTF-16 encoding of one scalar value in byte order `e`. */
  function Encode(v: uint32, e: Endianness): (r: seq<byte>)
    requires IsValidUnicodeRange(v)
    ensures |r| == 2 * |Units(v)|
  {
    UnitsBytes(Units(v), e)
  }

  /** The encodings of a run of scalar values, one after the other. */
  function EncodeSeq(vs: seq<uint32>, e: Endianness): (r: seq<byte>)
    requires forall k :: 0 <= k < |vs| ==> IsValidUnicodeRange(vs[k])
    ensures |r| % 2 == 0
    ensures |vs| == 0 <==> |r| == 0
  {
    if |vs| == 0 then [] else Encode(vs[0], e) + EncodeSeq(vs[1..], e)
  }

  /** The bytes of a value below U+10000 are its one unit. */
  lemma EncodeBelow(v: uint32, rest: seq<byte>, e: Endianness)
    requires IsValidUnicodeRange(v) && v < 0x10000
    ensures Encode(v, e) + rest == UnitBytes(Low16(v), e) + rest
  {
    assert Units(v)[1..] == [];
  }

  /** The bytes of a supplementary value are its high and then its low
      surrogate. */
  lemma EncodeAbove(v: uint32, rest: seq<byte>, e: Endianness)
    requires IsValidUnicodeRange(v) && v >= 0x10000
    ensures Encode(v, e) + rest == UnitBytes(HighSurrogate(v), e) + (UnitBytes(LowSurrogate(v), e) + rest)
  {
    var us := Units(v);
    assert us[1..][1..] == [];
    assert UnitsBytes(us[1..], e) == UnitBytes(us[1], e) + [];
  }

  /** The UTF-16 byte order mark, U+FEFF as one unit: `FE FF` big-endian and
      `FF FE` little-endian. */
  function Utf16Bom(e: Endianness): (r: seq<byte>)
    ensures r == Encode(0xFEFF, e)
  {
    match e
    case BigEndian => [0xFE, 0xFF]
    case LittleEndian => [0xFF, 0xFE]
  }
}
