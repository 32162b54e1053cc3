/** A reference UTF-8 encoder, written from the table in section 3 of RFC 3629:

      U+0000..U+007F     0xxxxxxx
      U+0080..U+07FF     110xxxxx 10xxxxxx
      U+0800..U+FFFF     1110xxxx 10xxxxxx 10xxxxxx
      U+10000..U+10FFFF  11110xxx 10xxxxxx 10xxxxxx 10xxxxxx

    The converters are checked against it. */
module Rfc3629 {
  import opened Types
  import opened Utils

  /** Number of bytes the encoding of `v` takes. */
  function Width(v: uint32): nat {
    if v <= 0x7F then 1 else if v <= 0x7FF then 2 else if v <= 0xFFFF then 3 else 4
  }

  /** The continuation byte `10xxxxxx` carrying bits `shift`..`shift+5` of `v`. */
  function Continuation(v: uint32, shift: bv32): (r: byte)
    requires shift <= 18
    ensures r & 0xC0 == 0x80
  {
    Low8(0x80 | ((v >> shift) & 0x3F))
  }

  /** `0xxxxxxx` for U+0000..U+007F. */
  function Encode1(v: uint32): (r: seq<byte>)
    requires v <= 0x7F
    ensures |r| == 1 && r[0] & 0x80 == 0x00
    ensures v != 0 ==> r[0] != 0
  {
    [Low8(v)]
  }

  /** `110xxxxx 10xxxxxx` for U+0080..U+07FF. */
  function Encode2(v: uint32): (r: seq<byte>)
    requires 0x80 <= v <= 0x7FF
    ensures |r| == 2 && r[0] & 0xE0 == 0xC0 && r[1] & 0xC0 == 0x80
  {
    [Low8(0xC0 | (v >> 6)), Continuation(v, 0)]
  }

  /** `1110xxxx 10xxxxxx 10xxxxxx` for U+0800..U+FFFF. */
  function Encode3(v: uint32): (r: seq<byte>)
    requires 0x800 <= v <= 0xFFFF
    ensures |r| == 3 && r[0] & 0xF0 == 0xE0 && r[1] & 0xC0 == 0x80 && r[2] & 0xC0 == 0x80
  {
    [Low8(0xE0 | (v >> 12)), Continuation(v, 6), Continuation(v, 0)]
  }

  /** `11110xxx 10xxxxxx 10xxxxxx 10xxxxxx` for U+10000..U+10FFFF. */
  function Encode4(v: uint32): (r: seq<byte>)
    requires 0x10000 <= v <= 0x10FFFF
    ensures |r| == 4 && r[0] & 0xF8 == 0xF0
    ensures r[1] & 0xC0 == 0x80 && r[2] & 0xC0 == 0x80 && r[3] & 0xC0 == 0x80
  {
    [Low8(0xF0 | (v >> 18)), Continuation(v, 12), Continuation(v, 6), Continuation(v, 0)]
  }

  /** The UTF-8 encoding of one scalar value. */
  function Encode(v: uint32): (r: seq<byte>)
    requires IsValidUnicodeRange(v)
    ensures |r| == Width(v)
    ensures |r| == 1 ==> r[0] & 0x80 == 0x00
    ensures |r| == 2 ==> r[0] & 0xE0 == 0xC0
    ensures |r| == 3 ==> r[0] & 0xF0 == 0xE0
    ensures |r| == 4 ==> r[0] & 0xF8 == 0xF0
    ensures forall k :: 1 <= k < |r| ==> r[k] & 0xC0 == 0x80
  {
    if v <= 0x7F then Encode1(v)
    else if v <= 0x7FF then Encode2(v)
    else if v <= 0xFFFF then Encode3(v)
    else Encode4(v)
  }

  /** Only U+0000 is encoded with a zero byte. */
  lemma EncodeNoZero(v: uint32)
    requires IsValidUnicodeRange(v) && v != 0
    ensures 0 !in Encode(v)
  {
    var r := Encode(v);
    forall k | 0 <= k < |r|
      ensures r[k] != 0
    {
      if k > 0 {
        assert r[k] & 0xC0 == 0x80;
      }
    }
  }

  /** U+FFFD, the replacement character, is `EF BF BD`. */
  lemma ReplacementBytes()
    ensures Encode(0xFFFD) == [0xEF, 0xBF, 0xBD]
  {
  }

  /** The encodings of a run of scalar values, one after the other. */
  function EncodeSeq(vs: seq<uint32>): (r: seq<byte>)
    requires forall k :: 0 <= k < |vs| ==> IsValidUnicodeRange(vs[k])
    ensures |vs| == 0 <==> |r| == 0
  {
    if |vs| == 0 then [] else Encode(vs[0]) + EncodeSeq(vs[1..])
  }

  /** Encoding a value in front of a run. */
  lemma EncodeSeqCons(v: uint32, vs: seq<uint32>)
    requires IsValidUnicodeRange(v)
    requires forall k :: 0 <= k < |vs| ==> IsValidUnicodeRange(vs[k])
    ensures EncodeSeq([v] + vs) == Encode(v) + EncodeSeq(vs)
  {
    assert ([v] + vs)[1..] == vs;
  }

  /** Encoding a run of non-zero values never produces a zero byte. */
  lemma {:induction false} EncodeSeqNoZero(vs: seq<uint32>)
    requires forall k :: 0 <= k < |vs| ==> IsValidUnicodeRange(vs[k]) && vs[k] != 0
    ensures 0 !in EncodeSeq(vs)
  {
    if |vs| > 0 {
      EncodeNoZero(vs[0]);
      EncodeSeqNoZero(vs[1..]);
    }
  }

  /** The byte order mark, U+FEFF encoded: `EF BB BF`. */
  function Utf8Bom(): (r: seq<byte>)
    ensures r == Encode(0xFEFF)
  {
    [0xEF, 0xBB, 0xBF]
  }
}
