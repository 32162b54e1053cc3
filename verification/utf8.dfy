/** utf8/utf8.go: UTF-8 to UTF-32. A leading UTF-8 BOM is skipped, the bytes are
    decoded leniently by their lead-bit pattern, every value is validated and
    replaced when invalid, and each is written as one 4-byte word in the
    target's byte order, optionally behind a UTF-32 BOM. */
module Utf8 {
  import opened Types
  import Utils
  import Rfc3629

  /** Sequence length announced by a lead byte, from the table in section 3 of
      RFC 3629; 0 for a byte that cannot start a sequence. */
  function LeadLength(b: byte): nat {
    if b & 0x80 == 0x00 then 1
    else if b & 0xE0 == 0xC0 then 2
    else if b & 0xF0 == 0xE0 then 3
    else if b & 0xF8 == 0xF0 then 4
    else 0
  }

  /** One step of the decoding loop at the front of `s`: the value and the
      number of bytes consumed. A lead announcing 2 to 4 bytes consumes that
      many when they are there, without looking at the continuation bytes; any
      other byte, and a lead cut short by the end of the buffer, stands for
      itself and consumes one byte. */
  function DecodeStep(s: seq<byte>): (r: (uint32, nat))
    requires |s| > 0
    ensures r.1 == (if 2 <= LeadLength(s[0]) <= |s| then LeadLength(s[0]) else 1)
    ensures r.1 == 1 ==> r.0 == s[0] as uint32
    ensures r.0 <= 0x1FFFFF
  {
    if s[0] & 0xF8 == 240 && 3 < |s| then
      ((((s[0] & 0x07) as uint32) << 18) | (((s[1] & 0x3F) as uint32) << 12)
       | (((s[2] & 0x3F) as uint32) << 6) | ((s[3] & 0x3F) as uint32), 4)
    else if s[0] & 0xF0 == 224 && 2 < |s| then
      ((((s[0] & 0x0F) as uint32) << 12) | (((s[1] & 0x3F) as uint32) << 6)
       | ((s[2] & 0x3F) as uint32), 3)
    else if s[0] & 0xE0 == 192 && 1 < |s| then
      ((((s[0] & 0x1F) as uint32) << 6) | ((s[1] & 0x3F) as uint32), 2)
    else
      (s[0] as uint32, 1)
  }

  /** The values the decoding loop produces, before validation. */
  function Decode(s: seq<byte>): (r: seq<uint32>)
    ensures |s| / 4 <= |r| <= |s|
    ensures |s| > 0 ==> |r| > 0
    decreases |s|
  {
    if |s| == 0 then []
    else
      var (bits, n) := DecodeStep(s);
      [bits] + Decode(s[n..])
  }

  /** The value of a step, for any bytes after the lead: the payload bits of a
      2-, 3- or 4-byte lead followed by the low six bits of each byte after
      it, whether or not those bytes are continuation bytes. */
  lemma DecodeStepLenient(s: seq<byte>)
    requires |s| > 0
    ensures LeadLength(s[0]) == 2 && |s| >= 2 ==>
      DecodeStep(s).0 == Low6(s[0] & 0x1F) * 0x40 + Low6(s[1])
    ensures LeadLength(s[0]) == 3 && |s| >= 3 ==>
      DecodeStep(s).0 == Low6(s[0] & 0x0F) * 0x1000 + Low6(s[1]) * 0x40 + Low6(s[2])
    ensures LeadLength(s[0]) == 4 && |s| >= 4 ==>
      DecodeStep(s).0
      == Low6(s[0] & 0x07) * 0x40000 + Low6(s[1]) * 0x1000 + Low6(s[2]) * 0x40 + Low6(s[3])
  {
    if LeadLength(s[0]) == 2 && |s| >= 2 {
      JoinTwo(s[0] & 0x1F, s[1]);
    } else if LeadLength(s[0]) == 3 && |s| >= 3 {
      JoinThree(s[0] & 0x0F, s[1], s[2]);
    } else if LeadLength(s[0]) == 4 && |s| >= 4 {
      JoinFour(s[0] & 0x07, s[1], s[2], s[3]);
    }
  }

  /** The low six bits of a byte, as a 32-bit word. */
  function Low6(b: byte): uint32 {
    (b & 0x3F) as uint32
  }

  /** Shifting and or-ing two payloads is placing them side by side. */
  lemma JoinTwo(a: byte, b: byte)
    requires a < 0x20
    ensures ((a as uint32) << 6) | Low6(b) == Low6(a) * 0x40 + Low6(b)
  {
  }

  /** The same for three payloads. */
  lemma JoinThree(a: byte, b: byte, c: byte)
    requires a < 0x10
    ensures ((a as uint32) << 12) | (Low6(b) << 6) | Low6(c)
         == Low6(a) * 0x1000 + Low6(b) * 0x40 + Low6(c)
  {
  }

  /** The same for four payloads. */
  lemma JoinFour(a: byte, b: byte, c: byte, d: byte)
    requires a < 0x08
    ensures ((a as uint32) << 18) | (Low6(b) << 12) | (Low6(c) << 6) | Low6(d)
         == Low6(a) * 0x40000 + Low6(b) * 0x1000 + Low6(c) * 0x40 + Low6(d)
  {
  }

  /** A two-byte lead followed by "A", not a continuation byte, still reads
      as one value: `C3 41` is 0xC1 and consumes both bytes. */
  lemma LenientExample()
    ensures DecodeStep([0xC3, 0x41]) == (0xC1, 2)
  {
  }

  /** The bits the four-byte branch gathers from an RFC 3629 encoding. */
  lemma Gather4(v: uint32)
    requires 0x10000 <= v <= 0x10FFFF
    ensures var e := Rfc3629.Encode4(v);
      ((((e[0] & 0x07) as uint32) << 18) | (((e[1] & 0x3F) as uint32) << 12)
       | (((e[2] & 0x3F) as uint32) << 6) | ((e[3] & 0x3F) as uint32)) == v
  {
  }

  /** The bits the three-byte branch gathers from an RFC 3629 encoding. */
  lemma Gather3(v: uint32, b0: byte, b1: byte, b2: byte)
    requires 0x800 <= v <= 0xFFFF
    requires var e := Rfc3629.Encode3(v); b0 == e[0] && b1 == e[1] && b2 == e[2]
    ensures ((((b0 & 0x0F) as uint32) << 12) | (((b1 & 0x3F) as uint32) << 6)
             | ((b2 & 0x3F) as uint32)) == v
  {
  }

  /** The bits the two-byte branch gathers from an RFC 3629 encoding. */
  lemma Gather2(v: uint32)
    requires 0x80 <= v <= 0x7FF
    ensures var e := Rfc3629.Encode2(v);
      ((((e[0] & 0x1F) as uint32) << 6) | ((e[1] & 0x3F) as uint32)) == v
  {
  }

  /** A four-byte encoding at the front of `s` decodes to its value. */
  lemma DecodeStep4(v: uint32, s: seq<byte>)
    requires 0x10000 <= v <= 0x10FFFF
    requires |s| >= 4 && s[..4] == Rfc3629.Encode4(v)
    ensures DecodeStep(s) == (v, 4)
  {
    var e := Rfc3629.Encode4(v);
    assert s[0] == e[0] && s[1] == e[1] && s[2] == e[2] && s[3] == e[3];
    Gather4(v);
  }

  /** A three-byte encoding at the front of `s` decodes to its value. */
  lemma DecodeStep3(v: uint32, s: seq<byte>)
    requires 0x800 <= v <= 0xFFFF
    requires |s| >= 3 && s[..3] == Rfc3629.Encode3(v)
    ensures DecodeStep(s) == (v, 3)
  {
    var e := Rfc3629.Encode3(v);
    assert s[0] == e[0] && s[1] == e[1] && s[2] == e[2];
    ThreeByteBranch(s);
    Gather3(v, s[0], s[1], s[2]);
  }

  /** A `1110xxxx` lead with two bytes after it takes the three-byte branch. */
  lemma ThreeByteBranch(s: seq<byte>)
    requires |s| >= 3 && s[0] & 0xF0 == 0xE0
    ensures DecodeStep(s) == ((((s[0] & 0x0F) as uint32) << 12) | (((s[1] & 0x3F) as uint32) << 6)
                              | ((s[2] & 0x3F) as uint32), 3)
  {
    BitsDiffer(s[0]);
  }

  /** A two-byte encoding at the front of `s` decodes to its value. */
  lemma DecodeStep2(v: uint32, s: seq<byte>)
    requires 0x80 <= v <= 0x7FF
    requires |s| >= 2 && s[..2] == Rfc3629.Encode2(v)
    ensures DecodeStep(s) == (v, 2)
  {
    var e := Rfc3629.Encode2(v);
    assert s[0] == e[0] && s[1] == e[1];
    TwoByteBranch(s);
    Gather2(v);
  }

  /** A `110xxxxx` lead with a byte after it takes the two-byte branch. */
  lemma TwoByteBranch(s: seq<byte>)
    requires |s| >= 2 && s[0] & 0xE0 == 0xC0
    ensures DecodeStep(s) == ((((s[0] & 0x1F) as uint32) << 6) | ((s[1] & 0x3F) as uint32), 2)
  {
    BitsDiffer(s[0]);
  }

  /** The lead-byte patterns exclude one another. */
  lemma BitsDiffer(b: byte)
    ensures b & 0xF0 == 0xE0 ==> b & 0xF8 != 0xF0
    ensures b & 0xE0 == 0xC0 ==> b & 0xF8 != 0xF0 && b & 0xF0 != 0xE0
    ensures b & 0x80 == 0x00 ==> b & 0xF8 != 0xF0 && b & 0xF0 != 0xE0 && b & 0xE0 != 0xC0
  {
  }

  /** The decoder reads the RFC 3629 encoding of a scalar value back as that
      value and consumes exactly its bytes, whatever follows them. */
  lemma DecodeStepEncode(v: uint32, rest: seq<byte>)
    requires Utils.IsValidUnicodeRange(v)
    ensures DecodeStep(Rfc3629.Encode(v) + rest) == (v, Rfc3629.Width(v))
  {
    var e := Rfc3629.Encode(v);
    var s := e + rest;
    assert s[..|e|] == e;
    if v <= 0x7F {
      assert s[0] & 0x80 == 0;
      BitsDiffer(s[0]);
    } else if v <= 0x7FF {
      DecodeStep2(v, s);
    } else if v <= 0xFFFF {
      DecodeStep3(v, s);
    } else {
      DecodeStep4(v, s);
    }
  }

  /** Decoding the UTF-8 encoding of a run of scalar values gives them back. */
  lemma {:induction false} DecodeEncodeSeq(vs: seq<uint32>)
    requires forall k :: 0 <= k < |vs| ==> Utils.IsValidUnicodeRange(vs[k])
    ensures Decode(Rfc3629.EncodeSeq(vs)) == vs
  {
    if |vs| > 0 {
      var tail := Rfc3629.EncodeSeq(vs[1..]);
      var s := Rfc3629.Encode(vs[0]) + tail;
      assert Rfc3629.EncodeSeq(vs) == s;
      DecodeStepEncode(vs[0], tail);
      assert s[Rfc3629.Width(vs[0])..] == tail;
      DecodeEncodeSeq(vs[1..]);
    }
  }

  /** The number of leading bytes to skip: 3 when the buffer starts with the
      UTF-8 BOM `EF BB BF`, else none. */
  function SkipBom(input: seq<byte>): (r: nat)
    ensures r == 3 <==> |input| >= 3 && input[..3] == Rfc3629.Utf8Bom()
    ensures r == 0 || r == 3
  {
    if |input| > 2 && input[0] == 0xEF && input[1] == 0xBB && input[2] == 0xBF then 3 else 0
  }

  /** The decoding loop: decode one value, validate and replace it, write it as
      a 4-byte word; repeat on the rest. */
  function ConvertLoop(s: seq<byte>, targetEncoding: string): (r: seq<byte>)
    ensures |r| == 4 * |Decode(s)|
    decreases |s|
  {
    if |s| == 0 then []
    else
      var (bits, n) := DecodeStep(s);
      var isTargetBigEndian := Utils.TargetByteOrder(targetEncoding) == BigEndian;
      Utils.EmitLoop(Utils.Sanitize(bits, targetEncoding), isTargetBigEndian, 4)
      + ConvertLoop(s[n..], targetEncoding)
  }

  /** The loop writes the sanitized decoded values as words in the target order. */
  lemma {:induction false} ConvertLoopWords(s: seq<byte>, targetEncoding: string)
    ensures ConvertLoop(s, targetEncoding)
         == EmitWords(Utils.SanitizeAll(Decode(s), targetEncoding), Utils.TargetByteOrder(targetEncoding))
    decreases |s|
  {
    if |s| > 0 {
      var (bits, n) := DecodeStep(s);
      var rest := Decode(s[n..]);
      assert Decode(s) == [bits] + rest;
      ConvertLoopWords(s[n..], targetEncoding);
      Utils.EmitSanitizedCons(bits, rest, targetEncoding);
    }
  }

  /** UTF-8 to UTF-32 for target id `targetEncoding`. The error is always nil.
      The output is the optional UTF-32 BOM in the target order followed by one
      word per decoded value of the input after its UTF-8 BOM; read back in the
      target order, the words are the decoded values with invalid ones
      replaced, hence scalar values for every target other than "utf-8". */
  function ConvertToUTF32(input: seq<byte>, targetEncoding: string, addBOM: bool): (r: Converted)
    ensures r.err == None
    ensures |input| == 0 && !addBOM ==> r.output == []
    ensures addBOM ==> |r.output| >= 4 && r.output[..4] == Utf32Bom(Utils.TargetByteOrder(targetEncoding))
    ensures r.output[if addBOM then 4 else 0..]
         == EmitWords(Utils.SanitizeAll(Decode(input[SkipBom(input)..]), targetEncoding),
                      Utils.TargetByteOrder(targetEncoding))
  {
    var isTargetBigEndian := Utils.TargetByteOrder(targetEncoding) == BigEndian;
    var startIdx := SkipBom(input);
    var bom := if addBOM then
                 (if isTargetBigEndian then [0x00, 0x00, 0xFE, 0xFF] else [0xFF, 0xFE, 0x00, 0x00])
               else [];
    var body := ConvertLoop(input[startIdx..], targetEncoding);
    ConvertLoopWords(input[startIdx..], targetEncoding);
    assert (bom + body)[|bom|..] == body;
    Converted(bom + body, None)
  }

  /** The output of the conversion, read back: its length is the BOM plus four
      bytes per decoded value, so a whole number of words, and its words, in
      the target order, are the decoded values with invalid ones replaced. */
  lemma ConvertToUTF32Words(input: seq<byte>, targetEncoding: string, addBOM: bool)
    ensures var out := ConvertToUTF32(input, targetEncoding, addBOM).output;
      && |out| == (if addBOM then 4 else 0) + 4 * |Decode(input[SkipBom(input)..])|
      && |out| % 4 == 0
      && ReadWords(out[if addBOM then 4 else 0..], Utils.TargetByteOrder(targetEncoding))
         == Utils.SanitizeAll(Decode(input[SkipBom(input)..]), targetEncoding)
  {
    var out := ConvertToUTF32(input, targetEncoding, addBOM).output;
    var clean := Utils.SanitizeAll(Decode(input[SkipBom(input)..]), targetEncoding);
    WordsAfter(out, if addBOM then 4 else 0, clean, Utils.TargetByteOrder(targetEncoding));
  }

  /** For every target other than "utf-8", every word of the output, read in
      the target order, is a Unicode scalar value. */
  lemma ConvertToUTF32Scalars(input: seq<byte>, targetEncoding: string, addBOM: bool)
    requires targetEncoding != UTF8.Name()
    ensures var out := ConvertToUTF32(input, targetEncoding, addBOM).output;
      var words := ReadWords(out[if addBOM then 4 else 0..], Utils.TargetByteOrder(targetEncoding));
      forall k :: 0 <= k < |words| ==> Utils.IsValidUnicodeRange(words[k])
  {
    ConvertToUTF32Words(input, targetEncoding, addBOM);
  }

  /** Round trip from RFC 3629's side: the UTF-8 encoding of scalar values not
      starting with U+FEFF converts to exactly those values as words in the
      target order. */
  lemma EncodedToUTF32(vs: seq<uint32>, targetEncoding: string, addBOM: bool)
    requires forall k :: 0 <= k < |vs| ==> Utils.IsValidUnicodeRange(vs[k])
    requires |vs| == 0 || vs[0] != 0xFEFF
    ensures ConvertToUTF32(Rfc3629.EncodeSeq(vs), targetEncoding, addBOM).output
         == (if addBOM then Utf32Bom(Utils.TargetByteOrder(targetEncoding)) else [])
            + EmitWords(vs, Utils.TargetByteOrder(targetEncoding))
  {
    var s := Rfc3629.EncodeSeq(vs);
    if |vs| > 0 {
      NoLeadingBom(vs);
    }
    assert s[SkipBom(s)..] == s;
    ConvertLoopWords(s, targetEncoding);
    DecodeEncodeSeq(vs);
    Utils.SanitizeAllValid(vs, targetEncoding);
  }

  /** The encoding of a run that does not start with U+FEFF does not start
      with the UTF-8 BOM. */
  lemma NoLeadingBom(vs: seq<uint32>)
    requires forall k :: 0 <= k < |vs| ==> Utils.IsValidUnicodeRange(vs[k])
    requires |vs| > 0 && vs[0] != 0xFEFF
    ensures SkipBom(Rfc3629.EncodeSeq(vs)) == 0
  {
    var s := Rfc3629.EncodeSeq(vs);
    var tail := Rfc3629.EncodeSeq(vs[1..]);
    assert s == Rfc3629.Encode(vs[0]) + tail;
    DecodeStepEncode(vs[0], tail);
  }

  /** A leading UTF-8 BOM contributes nothing: behind it, the encoding of any
      run of scalar values, U+FEFF first or not, converts to those values. */
  lemma MarkedToUTF32(vs: seq<uint32>, targetEncoding: string, addBOM: bool)
    requires forall k :: 0 <= k < |vs| ==> Utils.IsValidUnicodeRange(vs[k])
    ensures ConvertToUTF32(Rfc3629.Utf8Bom() + Rfc3629.EncodeSeq(vs), targetEncoding, addBOM).output
         == (if addBOM then Utf32Bom(Utils.TargetByteOrder(targetEncoding)) else [])
            + EmitWords(vs, Utils.TargetByteOrder(targetEncoding))
  {
    var s := Rfc3629.Utf8Bom() + Rfc3629.EncodeSeq(vs);
    assert s[..3] == Rfc3629.Utf8Bom();
    assert s[SkipBom(s)..] == Rfc3629.EncodeSeq(vs);
    ConvertLoopWords(Rfc3629.EncodeSeq(vs), targetEncoding);
    DecodeEncodeSeq(vs);
    Utils.SanitizeAllValid(vs, targetEncoding);
  }
}
