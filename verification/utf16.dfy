/** utf16/utf16.go: UTF-16 to UTF-32. The byte order comes from a leading
    UTF-16 BOM, which is skipped, and is big-endian without one. The input is
    read one 16-bit unit at a time: a unit whose high byte is D8..DF, with
    another unit after it, is combined with that unit as a surrogate pair,
    whatever the second unit is; any other unit stands for itself. Every value
    is validated and replaced when invalid and written as one 4-byte word in
    the target's byte order, optionally behind a UTF-32 BOM. A trailing odd
    byte is never read. */
module Utf16 {
  import opened Types
  import Utils
  import Rfc2781

  /** Byte-order detection at the front of the input: `FF FE` is the
      little-endian BOM and `FE FF` the big-endian one, and either is skipped;
      without a BOM, and for inputs shorter than two bytes, the source is read
      big-endian from the first byte. */
  function DetectSourceOrder(input: seq<byte>): (r: (Endianness, nat))
    ensures r.1 == 2 <==> |input| >= 2 && (input[..2] == Rfc2781.Utf16Bom(LittleEndian)
                                           || input[..2] == Rfc2781.Utf16Bom(BigEndian))
    ensures r.1 == 0 || r.1 == 2
    ensures r.0 == LittleEndian <==> |input| >= 2 && input[..2] == Rfc2781.Utf16Bom(LittleEndian)
  {
    if |input| > 1 then
      if input[0] == 0xFF && input[1] == 0xFE then (LittleEndian, 2)
      else if input[0] == 0xFE && input[1] == 0xFF then (BigEndian, 2)
      else (BigEndian, 0)
    else (BigEndian, 0)
  }

  /** Go's `uint16(hi)<<8 | uint16(lo)`. */
  function Unit(hi: byte, lo: byte): uint16 {
    ((hi as uint16) << 8) | (lo as uint16)
  }

  /** The code unit at the front of `s` in byte order `e`. */
  function UnitAt(s: seq<byte>, e: Endianness): uint16
    requires |s| >= 2
  {
    match e
    case BigEndian => Unit(s[0], s[1])
    case LittleEndian => Unit(s[1], s[0])
  }

  /** A unit split into its high and low bytes and put back together. */
  lemma UnitSplit(u: uint16)
    ensures Unit((u >> 8) as byte, (u & 0xFF) as byte) == u
  {
  }

  /** Reading back a written unit gives the unit, whatever follows it. */
  lemma UnitAtBytes(u: uint16, rest: seq<byte>, e: Endianness)
    ensures UnitAt(Rfc2781.UnitBytes(u, e) + rest, e) == u
  {
    var s := Rfc2781.UnitBytes(u, e) + rest;
    UnitSplit(u);
    match e
    case BigEndian =>
      assert s[0] == (u >> 8) as byte && s[1] == (u & 0xFF) as byte;
    case LittleEndian =>
      assert s[1] == (u >> 8) as byte && s[0] == (u & 0xFF) as byte;
  }

  /** The byte the loop inspects is the unit's high byte, and it is D8..DF
      exactly when the unit is a surrogate, U+D800..U+DFFF. */
  lemma HighByteSurrogate(hi: byte, lo: byte)
    ensures (0xD8 <= hi <= 0xDF) <==> (0xD800 <= Unit(hi, lo) <= 0xDFFF)
  {
  }

  /** The pair arithmetic of the loop, `uint32(lead - 0xD800)<<10 |
      uint32((trail - 0xDC00) & 0x3FF)` plus 0x10000, with Go's wrap-around
      `uint16` subtraction. */
  function Combine(lead: uint16, trail: uint16): (r: uint32)
    ensures r >= 0x10000
    ensures (r - 0x10000) >> 10 == (lead - 0xD800) as uint32
    ensures r & 0x3FF == (trail & 0x3FF) as uint32
  {
    var leadingTenBits := lead - 0xD800;
    var trailingTenBits := trail - 0xDC00;
    (((leadingTenBits as uint32) << 10) | ((trailingTenBits & 0x3FF) as uint32)) + 0x10000
  }

  /** A high-surrogate lead gives a supplementary value. */
  lemma PairRange(lead: uint16, trail: uint16)
    requires 0xD800 <= lead <= 0xDBFF
    ensures 0x10000 <= Combine(lead, trail) <= 0x10FFFF
  {
  }

  /** The high surrogate of the value is the lead. */
  lemma PairLead(lead: uint16, trail: uint16)
    requires 0xD800 <= lead <= 0xDBFF
    ensures Rfc2781.HighSurrogate(Combine(lead, trail)) == lead
  {
  }

  /** The low surrogate of the value is the second unit's bottom ten bits
      behind the low-surrogate prefix. */
  lemma PairTrail(lead: uint16, trail: uint16)
    requires 0xD800 <= lead <= 0xDBFF
    ensures Rfc2781.LowSurrogate(Combine(lead, trail)) == 0xDC00 | (trail & 0x3FF)
  {
  }

  /** A high-surrogate lead gives the supplementary value whose RFC 2781 pair
      is the lead and the second unit's low ten bits behind a low-surrogate
      prefix: the second unit is never checked. */
  lemma CombineHigh(lead: uint16, trail: uint16)
    requires 0xD800 <= lead <= 0xDBFF
    ensures Utils.IsValidUnicodeRange(Combine(lead, trail))
    ensures Rfc2781.Units(Combine(lead, trail)) == [lead, 0xDC00 | (trail & 0x3FF)]
  {
    PairRange(lead, trail);
    PairLead(lead, trail);
    PairTrail(lead, trail);
  }

  /** A low-surrogate lead gives a value in 0x110000..0x20FFFF, above
      U+10FFFF, so not a scalar value. */
  lemma CombineLow(lead: uint16, trail: uint16)
    requires 0xDC00 <= lead <= 0xDFFF
    ensures 0x110000 <= Combine(lead, trail) <= 0x20FFFF
    ensures !Utils.IsValidUnicodeRange(Combine(lead, trail))
  {
  }

  /** Combining the RFC 2781 pair of a supplementary value gives back the
      value. */
  lemma CombineSurrogates(v: uint32)
    requires 0x10000 <= v <= 0x10FFFF
    ensures Combine(Rfc2781.HighSurrogate(v), Rfc2781.LowSurrogate(v)) == v
  {
  }

  /** The byte the loop tests for a surrogate lead: the high byte of the unit,
      `input[i]` big-endian and `input[i+1]` little-endian. */
  function HighByte(s: seq<byte>, e: Endianness): byte
    requires |s| >= 2
  {
    match e
    case BigEndian => s[0]
    case LittleEndian => s[1]
  }

  /** The high byte is D8..DF exactly when the unit is a surrogate. */
  lemma HighByteOfUnit(s: seq<byte>, e: Endianness)
    requires |s| >= 2
    ensures (0xD8 <= HighByte(s, e) <= 0xDF) <==> (0xD800 <= UnitAt(s, e) <= 0xDFFF)
  {
    match e
    case BigEndian => HighByteSurrogate(s[0], s[1]);
    case LittleEndian => HighByteSurrogate(s[1], s[0]);
  }

  /** One step of the loop at the front of `s`, at least one unit long: the
      value and the number of bytes consumed, one unit or two. */
  function DecodeStep(s: seq<byte>, e: Endianness): (r: (uint32, nat))
    requires |s| >= 2
    ensures r.1 == 2 || (r.1 == 4 && |s| >= 4)
    ensures r.1 == 2 ==> r.0 <= 0xFFFF
    ensures r.1 == 4 ==> r.0 >= 0x10000
  {
    var hi := HighByte(s, e);
    if 3 < |s| && hi >= 0xD8 && hi <= 0xDF then
      (Combine(UnitAt(s, e), UnitAt(s[2..], e)), 4)
    else
      (UnitAt(s, e) as uint32, 2)
  }

  /** What one step does: a surrogate lead with a second unit after it
      consumes both and combines them, whatever the second unit is; anything
      else consumes one unit and stands for itself. */
  lemma DecodeStepUnits(s: seq<byte>, e: Endianness)
    requires |s| >= 2
    ensures var r := DecodeStep(s, e);
      && r.1 == (if |s| >= 4 && 0xD800 <= UnitAt(s, e) <= 0xDFFF then 4 else 2)
      && (r.1 == 2 ==> r.0 == UnitAt(s, e) as uint32)
      && (r.1 == 4 ==> r.0 == Combine(UnitAt(s, e), UnitAt(s[2..], e)))
  {
    HighByteOfUnit(s, e);
  }

  /** The values the loop produces, before validation, while a whole unit remains. */
  function Decode(s: seq<byte>, e: Endianness): (r: seq<uint32>)
    ensures |s| / 4 <= |r| <= |s| / 2
    decreases |s|
  {
    if |s| < 2 then []
    else
      var (bits, n) := DecodeStep(s, e);
      [bits] + Decode(s[n..], e)
  }

  /** The decoding loop: decode one value, validate and replace it, write it as
      a 4-byte word; repeat on the rest. */
  function ConvertLoop(s: seq<byte>, e: Endianness, targetEncoding: string): (r: seq<byte>)
    ensures |r| == 4 * |Decode(s, e)|
    decreases |s|
  {
    if |s| < 2 then []
    else
      var (bits, n) := DecodeStep(s, e);
      var isTargetBigEndian := Utils.TargetByteOrder(targetEncoding) == BigEndian;
      Utils.EmitLoop(Utils.Sanitize(bits, targetEncoding), isTargetBigEndian, 4)
      + ConvertLoop(s[n..], e, targetEncoding)
  }

  /** The loop writes the sanitized decoded values as words in the target order. */
  lemma {:induction false} ConvertLoopWords(s: seq<byte>, e: Endianness, targetEncoding: string)
    ensures ConvertLoop(s, e, targetEncoding)
         == EmitWords(Utils.SanitizeAll(Decode(s, e), targetEncoding), Utils.TargetByteOrder(targetEncoding))
    decreases |s|
  {
    if |s| >= 2 {
      var (bits, n) := DecodeStep(s, e);
      var rest := Decode(s[n..], e);
      assert Decode(s, e) == [bits] + rest;
      ConvertLoopWords(s[n..], e, targetEncoding);
      Utils.EmitSanitizedCons(bits, rest, targetEncoding);
    }
  }

  /** The UTF-32 BOM the converter writes when asked to: the target order's. */
  function TargetBom(targetEncoding: string, addBOM: bool): (r: seq<byte>)
    ensures addBOM ==> r == Utf32Bom(Utils.TargetByteOrder(targetEncoding))
    ensures !addBOM ==> r == []
  {
    var isTargetBigEndian := Utils.TargetByteOrder(targetEncoding) == BigEndian;
    if addBOM then
      (if isTargetBigEndian then [0x00, 0x00, 0xFE, 0xFF] else [0xFF, 0xFE, 0x00, 0x00])
    else []
  }

  /** UTF-16 to UTF-32 for target id `targetEncoding`. The error is always nil.
      The output is the optional UTF-32 BOM in the target order followed by one
      word per value decoded after the UTF-16 BOM, in the detected order. */
  function ConvertToUTF32(input: seq<byte>, targetEncoding: string, addBOM: bool): (r: Converted)
    ensures r.err == None
    ensures |input| < 2 && !addBOM ==> r.output == []
    ensures addBOM ==> |r.output| >= 4 && r.output[..4] == Utf32Bom(Utils.TargetByteOrder(targetEncoding))
    ensures var d := DetectSourceOrder(input);
      r.output[if addBOM then 4 else 0..]
      == EmitWords(Utils.SanitizeAll(Decode(input[d.1..], d.0), targetEncoding),
                   Utils.TargetByteOrder(targetEncoding))
  {
    var (order, startIdx) := DetectSourceOrder(input);
    var bom := TargetBom(targetEncoding, addBOM);
    var body := ConvertLoop(input[startIdx..], order, targetEncoding);
    ConvertLoopWords(input[startIdx..], order, targetEncoding);
    assert (bom + body)[|bom|..] == body;
    Converted(bom + body, None)
  }

  /** The output of the conversion, read back: its length is the BOM plus four
      bytes per decoded value, so a whole number of words, and its words, in
      the target order, are the decoded values with invalid ones replaced. */
  lemma ConvertToUTF32Words(input: seq<byte>, targetEncoding: string, addBOM: bool)
    ensures var out := ConvertToUTF32(input, targetEncoding, addBOM).output;
      var d := DetectSourceOrder(input);
      && |out| == (if addBOM then 4 else 0) + 4 * |Decode(input[d.1..], d.0)|
      && |out| % 4 == 0
      && ReadWords(out[if addBOM then 4 else 0..], Utils.TargetByteOrder(targetEncoding))
         == Utils.SanitizeAll(Decode(input[d.1..], d.0), targetEncoding)
  {
    var out := ConvertToUTF32(input, targetEncoding, addBOM).output;
    var d := DetectSourceOrder(input);
    var clean := Utils.SanitizeAll(Decode(input[d.1..], d.0), targetEncoding);
    WordsAfter(out, if addBOM then 4 else 0, clean, Utils.TargetByteOrder(targetEncoding));
  }

  /** For every target other than "utf-8", every word of the output, read in
      the target order, is a Unicode scalar value. */
  lemma ConvertToUTF32Scalars(input: seq<byte>, targetEncoding: string, addBOM: bool)
    requires targetEncoding != UTF8.Name()
    ensures var out := ConvertToUTF32(input, targetEncoding, addBOM).output;
      var words := ReadWords(out[if addBOM then 4 else 0..], Utils.TargetByteOrder(targetEncoding));
      forall k :: 0 <= k < |words| ==> Utils.IsValidUnicodeRange(words[k])
  {
    ConvertToUTF32Words(input, targetEncoding, addBOM);
  }

  /** A trailing odd byte is never read: the loop stops when less than a unit
      remains. */
  lemma {:induction false} TrailingByteIgnored(s: seq<byte>, x: byte, e: Endianness)
    requires |s| % 2 == 0
    ensures Decode(s + [x], e) == Decode(s, e)
    decreases |s|
  {
    if |s| >= 2 {
      var t := s + [x];
      assert t[..2] == s[..2];
      assert |s| >= 4 ==> t[2..4] == s[2..4];
      DecodeStepSame(t, s, e);
      var n := DecodeStep(s, e).1;
      assert t[n..] == s[n..] + [x];
      TrailingByteIgnored(s[n..], x, e);
    }
  }

  /** Widening a unit keeps it inside or outside the surrogate block. */
  lemma WidenSurrogate(u: uint16)
    ensures (0xD800 <= u <= 0xDFFF) <==> (0xD800 <= u as uint32 <= 0xDFFF)
  {
  }

  /** A unit that does not start a pair is one step on its own. */
  lemma StepSingle(s: seq<byte>, u: uint16, e: Endianness)
    requires |s| >= 2 && UnitAt(s, e) == u
    requires !(|s| >= 4 && 0xD800 <= u <= 0xDFFF)
    ensures DecodeStep(s, e) == (u as uint32, 2)
  {
    DecodeStepUnits(s, e);
  }

  /** A surrogate with a unit after it is one step, combined with that unit. */
  lemma StepPair(s: seq<byte>, lead: uint16, trail: uint16, e: Endianness)
    requires |s| >= 4 && UnitAt(s, e) == lead && UnitAt(s[2..], e) == trail
    requires 0xD800 <= lead <= 0xDFFF
    ensures DecodeStep(s, e) == (Combine(lead, trail), 4)
  {
    DecodeStepUnits(s, e);
  }

  /** Two inputs that agree on the bytes one step can see take the same step. */
  lemma DecodeStepSame(s: seq<byte>, t: seq<byte>, e: Endianness)
    requires |s| >= 2 && |t| >= 2 && s[..2] == t[..2]
    requires |s| >= 4 <==> |t| >= 4
    requires |s| >= 4 ==> s[2..4] == t[2..4]
    ensures DecodeStep(s, e) == DecodeStep(t, e)
  {
    assert s[0] == t[0] && s[1] == t[1];
    var u := UnitAt(s, e);
    assert UnitAt(t, e) == u;
    if |s| >= 4 && 0xD800 <= u <= 0xDFFF {
      assert s[2] == s[2..4][0] == t[2..4][0] == t[2];
      assert s[3] == s[2..4][1] == t[2..4][1] == t[3];
      var w := UnitAt(s[2..], e);
      assert UnitAt(t[2..], e) == w;
      StepPair(s, u, w, e);
      StepPair(t, u, w, e);
    } else {
      StepSingle(s, u, e);
      StepSingle(t, u, e);
    }
  }

  /** A written unit outside the surrogate block is one step on its own. */
  lemma DecodeStepSingle(u: uint16, rest: seq<byte>, e: Endianness)
    requires !(0xD800 <= u <= 0xDFFF)
    ensures DecodeStep(Rfc2781.UnitBytes(u, e) + rest, e) == (u as uint32, 2)
  {
    var s := Rfc2781.UnitBytes(u, e) + rest;
    UnitAtBytes(u, rest, e);
    StepSingle(s, u, e);
  }

  /** A written surrogate with a written unit after it is one step, combined. */
  lemma DecodeStepPair(lead: uint16, trail: uint16, rest: seq<byte>, e: Endianness)
    requires 0xD800 <= lead <= 0xDFFF
    ensures DecodeStep(Rfc2781.UnitBytes(lead, e) + (Rfc2781.UnitBytes(trail, e) + rest), e)
         == (Combine(lead, trail), 4)
  {
    var tail := Rfc2781.UnitBytes(trail, e) + rest;
    var s := Rfc2781.UnitBytes(lead, e) + tail;
    UnitAtBytes(lead, tail, e);
    assert s[2..] == tail;
    UnitAtBytes(trail, rest, e);
    StepPair(s, lead, trail, e);
  }

  /** A value below U+10000, written as its one unit, is one step. */
  lemma StepBelow(v: uint32, rest: seq<byte>, e: Endianness)
    requires Utils.IsValidUnicodeRange(v) && v < 0x10000
    ensures DecodeStep(Rfc2781.UnitBytes(Rfc2781.Low16(v), e) + rest, e) == (v, 2)
  {
    WidenSurrogate(Rfc2781.Low16(v));
    DecodeStepSingle(Rfc2781.Low16(v), rest, e);
  }

  /** A supplementary value, written as its surrogate pair, is one step. */
  lemma StepAbove(v: uint32, rest: seq<byte>, e: Endianness)
    requires 0x10000 <= v <= 0x10FFFF
    ensures DecodeStep(Rfc2781.UnitBytes(Rfc2781.HighSurrogate(v), e)
                       + (Rfc2781.UnitBytes(Rfc2781.LowSurrogate(v), e) + rest), e) == (v, 4)
  {
    CombineSurrogates(v);
    DecodeStepPair(Rfc2781.HighSurrogate(v), Rfc2781.LowSurrogate(v), rest, e);
  }

  /** The decoder reads the RFC 2781 encoding of a scalar value back as that
      value and consumes exactly its bytes, whatever follows them. */
  lemma DecodeStepEncode(v: uint32, s: seq<byte>, rest: seq<byte>, e: Endianness)
    requires Utils.IsValidUnicodeRange(v) && s == Rfc2781.Encode(v, e) + rest
    ensures DecodeStep(s, e) == (v, |Rfc2781.Encode(v, e)|)
  {
    if v < 0x10000 {
      Rfc2781.EncodeBelow(v, rest, e);
      StepBelow(v, rest, e);
    } else {
      Rfc2781.EncodeAbove(v, rest, e);
      StepAbove(v, rest, e);
    }
  }

  /** Decoding the UTF-16 encoding of a run of scalar values gives them back. */
  lemma {:induction false} DecodeEncodeSeq(vs: seq<uint32>, e: Endianness)
    requires forall k :: 0 <= k < |vs| ==> Utils.IsValidUnicodeRange(vs[k])
    ensures Decode(Rfc2781.EncodeSeq(vs, e), e) == vs
  {
    if |vs| > 0 {
      var head := Rfc2781.Encode(vs[0], e);
      var tail := Rfc2781.EncodeSeq(vs[1..], e);
      var s := head + tail;
      assert Rfc2781.EncodeSeq(vs, e) == s;
      DecodeStepEncode(vs[0], s, tail, e);
      assert s[|head|..] == tail;
      DecodeEncodeSeq(vs[1..], e);
    }
  }

  /** Big-endian UTF-16 without a BOM is the default: the encoding of scalar
      values that do not start with U+FEFF or U+FFFE (whose big-endian bytes
      read as the little-endian BOM) converts to exactly those values as words
      in the target order. */
  lemma EncodedToUTF32(vs: seq<uint32>, targetEncoding: string, addBOM: bool)
    requires forall k :: 0 <= k < |vs| ==> Utils.IsValidUnicodeRange(vs[k])
    requires |vs| == 0 || (vs[0] != 0xFEFF && vs[0] != 0xFFFE)
    ensures ConvertToUTF32(Rfc2781.EncodeSeq(vs, BigEndian), targetEncoding, addBOM).output
         == TargetBom(targetEncoding, addBOM) + EmitWords(vs, Utils.TargetByteOrder(targetEncoding))
  {
    var s := Rfc2781.EncodeSeq(vs, BigEndian);
    if |vs| > 0 {
      NoLeadingBom(vs);
    }
    assert DetectSourceOrder(s) == (BigEndian, 0);
    assert s[0..] == s;
    DecodeEncodeSeq(vs, BigEndian);
    Utils.SanitizeAllValid(vs, targetEncoding);
  }

  /** The big-endian encoding of a run that starts with neither U+FEFF nor
      U+FFFE does not start with a UTF-16 BOM. */
  lemma NoLeadingBom(vs: seq<uint32>)
    requires forall k :: 0 <= k < |vs| ==> Utils.IsValidUnicodeRange(vs[k])
    requires |vs| > 0 && vs[0] != 0xFEFF && vs[0] != 0xFFFE
    ensures DetectSourceOrder(Rfc2781.EncodeSeq(vs, BigEndian)) == (BigEndian, 0)
  {
    var s := Rfc2781.EncodeSeq(vs, BigEndian);
    var v := vs[0];
    var more := Rfc2781.EncodeSeq(vs[1..], BigEndian);
    assert s == Rfc2781.Encode(v, BigEndian) + more;
    if v < 0x10000 {
      Rfc2781.EncodeBelow(v, more, BigEndian);
      UnitAtBytes(Rfc2781.Low16(v), more, BigEndian);
    } else {
      var after := Rfc2781.UnitBytes(Rfc2781.LowSurrogate(v), BigEndian) + more;
      Rfc2781.EncodeAbove(v, more, BigEndian);
      UnitAtBytes(Rfc2781.HighSurrogate(v), after, BigEndian);
    }
    DetectFromUnit(s);
  }

  /** An input whose first big-endian unit is neither U+FEFF nor U+FFFE has
      no BOM. */
  lemma DetectFromUnit(s: seq<byte>)
    requires |s| >= 2 && UnitAt(s, BigEndian) != 0xFEFF && UnitAt(s, BigEndian) != 0xFFFE
    ensures DetectSourceOrder(s) == (BigEndian, 0)
  {
  }

  /** Behind a UTF-16 BOM in either order, the encoding of any run of scalar
      values in that order, U+FEFF first or not, converts to those values. */
  lemma MarkedToUTF32(vs: seq<uint32>, e: Endianness, targetEncoding: string, addBOM: bool)
    requires forall k :: 0 <= k < |vs| ==> Utils.IsValidUnicodeRange(vs[k])
    ensures ConvertToUTF32(Rfc2781.Utf16Bom(e) + Rfc2781.EncodeSeq(vs, e), targetEncoding, addBOM).output
         == TargetBom(targetEncoding, addBOM) + EmitWords(vs, Utils.TargetByteOrder(targetEncoding))
  {
    var s := Rfc2781.Utf16Bom(e) + Rfc2781.EncodeSeq(vs, e);
    assert s[..2] == Rfc2781.Utf16Bom(e);
    assert DetectSourceOrder(s) == (e, 2);
    assert s[2..] == Rfc2781.EncodeSeq(vs, e);
    DecodeEncodeSeq(vs, e);
    Utils.SanitizeAllValid(vs, targetEncoding);
  }

  /** As written, a lead surrogate followed by a unit that is not a low
      surrogate is still combined with it: big-endian `D8 00 00 41` (an
      unpaired U+D800, then "A") converts to the single value U+10041, and
      `DC 00 00 41` (an unpaired U+DC00, then "A") to a single U+FFFD; the "A"
      is lost in both. */
  lemma UnpairedLeadSwallowsNext()
    ensures ConvertToUTF32([0xD8, 0x00, 0x00, 0x41], UTF32BE.Name(), false).output
         == [0x00, 0x01, 0x00, 0x41]
    ensures ConvertToUTF32([0xDC, 0x00, 0x00, 0x41], UTF32BE.Name(), false).output
         == [0x00, 0x00, 0xFF, 0xFD]
  {
    SwallowedHigh();
    SwallowedLow();
  }

  /** `D8 00 00 41` decodes to U+10041. */
  lemma SwallowedHigh()
    ensures ConvertToUTF32([0xD8, 0x00, 0x00, 0x41], UTF32BE.Name(), false).output == [0x00, 0x01, 0x00, 0x41]
  {
    var s: seq<byte> := [0xD8, 0x00, 0x00, 0x41];
    assert s[0..] == s;
    assert DecodeStep(s, BigEndian) == (0x10041, 4);
    assert s[4..] == [];
    assert Decode(s, BigEndian) == [0x10041];
    assert Utils.SanitizeAll([0x10041], UTF32BE.Name()) == [0x10041];
  }

  /** `DC 00 00 41` decodes to 0x110041, which validation replaces. */
  lemma SwallowedLow()
    ensures ConvertToUTF32([0xDC, 0x00, 0x00, 0x41], UTF32BE.Name(), false).output == [0x00, 0x00, 0xFF, 0xFD]
  {
    var s: seq<byte> := [0xDC, 0x00, 0x00, 0x41];
    assert s[0..] == s;
    assert DecodeStep(s, BigEndian) == (0x110041, 4);
    assert s[4..] == [];
    assert Decode(s, BigEndian) == [0x110041];
    assert Utils.SanitizeAll([0x110041], UTF32BE.Name()) == [0xFFFD];
  }

  /** One step of a decoder that pairs surrogates as section 2.2 of RFC 2781
      says: a high surrogate combines only with a low surrogate right after
      it; an unpaired surrogate stands for itself, so it is replaced by
      validation, and the unit after it is decoded on its own. */
  function DecodeStepStrict(s: seq<byte>, e: Endianness): (r: (uint32, nat))
    requires |s| >= 2
    ensures r.1 == 2 || (r.1 == 4 && |s| >= 4)
  {
    var lead := UnitAt(s, e);
    if |s| >= 4 && 0xD800 <= lead <= 0xDBFF && 0xDC00 <= UnitAt(s[2..], e) <= 0xDFFF then
      (Combine(lead, UnitAt(s[2..], e)), 4)
    else
      (lead as uint32, 2)
  }

  /** A low surrogate is its low ten bits behind the low-surrogate prefix. */
  lemma LowSurrogateBits(t: uint16)
    requires 0xDC00 <= t <= 0xDFFF
    ensures 0xDC00 | (t & 0x3FF) == t
  {
  }

  /** A well-formed pair is one corrected step, yielding the value it encodes. */
  lemma StrictStepPair(s: seq<byte>, lead: uint16, trail: uint16, e: Endianness)
    requires |s| >= 4 && UnitAt(s, e) == lead && UnitAt(s[2..], e) == trail
    requires 0xD800 <= lead <= 0xDBFF && 0xDC00 <= trail <= 0xDFFF
    ensures DecodeStepStrict(s, e) == (Combine(lead, trail), 4)
    ensures Utils.IsValidUnicodeRange(Combine(lead, trail)) && Combine(lead, trail) >= 0x10000
    ensures Rfc2781.Units(Combine(lead, trail)) == [lead, trail]
  {
    CombineHigh(lead, trail);
    PairRange(lead, trail);
    LowSurrogateBits(trail);
  }

  /** Anything but a well-formed pair is one corrected step of one unit. */
  lemma StrictStepSingle(s: seq<byte>, u: uint16, e: Endianness)
    requires |s| >= 2 && UnitAt(s, e) == u
    requires !(|s| >= 4 && 0xD800 <= u <= 0xDBFF && 0xDC00 <= UnitAt(s[2..], e) <= 0xDFFF)
    ensures DecodeStepStrict(s, e) == (u as uint32, 2)
  {
  }

  /** The values the corrected decoder produces, before validation. */
  function DecodeStrict(s: seq<byte>, e: Endianness): (r: seq<uint32>)
    ensures |r| <= |s| / 2
    decreases |s|
  {
    if |s| < 2 then []
    else
      var (bits, n) := DecodeStepStrict(s, e);
      [bits] + DecodeStrict(s[n..], e)
  }

  /** UTF-16 to UTF-32 with surrogates paired as RFC 2781 says; byte-order
      detection, validation and output as in `ConvertToUTF32`. */
  function ConvertToUTF32Strict(input: seq<byte>, targetEncoding: string, addBOM: bool): (r: Converted)
    ensures r.err == None
    ensures addBOM ==> |r.output| >= 4 && r.output[..4] == Utf32Bom(Utils.TargetByteOrder(targetEncoding))
    ensures var d := DetectSourceOrder(input);
      |r.output| == (if addBOM then 4 else 0) + 4 * |DecodeStrict(input[d.1..], d.0)|
    ensures |r.output| % 4 == 0
    ensures var d := DetectSourceOrder(input);
      ReadWords(r.output[if addBOM then 4 else 0..], Utils.TargetByteOrder(targetEncoding))
      == Utils.SanitizeAll(DecodeStrict(input[d.1..], d.0), targetEncoding)
  {
    var (order, startIdx) := DetectSourceOrder(input);
    var bom := TargetBom(targetEncoding, addBOM);
    var clean := Utils.SanitizeAll(DecodeStrict(input[startIdx..], order), targetEncoding);
    var body := EmitWords(clean, Utils.TargetByteOrder(targetEncoding));
    assert (bom + body)[|bom|..] == body;
    WordsAfter(bom + body, |bom|, clean, Utils.TargetByteOrder(targetEncoding));
    Converted(bom + body, None)
  }

  /** The corrected decoder never swallows a unit: after an unpaired
      surrogate, which validation will replace, the next unit is decoded on
      its own. */
  lemma UnpairedStandsAlone(lead: uint16, next: uint16, rest: seq<byte>, e: Endianness)
    requires 0xD800 <= lead <= 0xDFFF
    requires !(0xD800 <= lead <= 0xDBFF && 0xDC00 <= next <= 0xDFFF)
    ensures var tail := Rfc2781.UnitBytes(next, e) + rest;
      DecodeStrict(Rfc2781.UnitBytes(lead, e) + tail, e) == [lead as uint32] + DecodeStrict(tail, e)
    ensures !Utils.IsValidUnicodeRange(lead as uint32)
  {
    var tail := Rfc2781.UnitBytes(next, e) + rest;
    var s := Rfc2781.UnitBytes(lead, e) + tail;
    UnitAtBytes(lead, tail, e);
    assert s[2..] == tail;
    UnitAtBytes(next, rest, e);
    StrictStepSingle(s, lead, e);
    WidenSurrogate(lead);
  }

  /** A written unit outside the surrogate block is one corrected step on its own. */
  lemma DecodeStepStrictSingle(u: uint16, rest: seq<byte>, e: Endianness)
    requires !(0xD800 <= u <= 0xDFFF)
    ensures DecodeStepStrict(Rfc2781.UnitBytes(u, e) + rest, e) == (u as uint32, 2)
  {
    var s := Rfc2781.UnitBytes(u, e) + rest;
    UnitAtBytes(u, rest, e);
    StrictStepSingle(s, u, e);
  }

  /** A written well-formed pair is one corrected step. */
  lemma DecodeStepStrictPair(lead: uint16, trail: uint16, rest: seq<byte>, e: Endianness)
    requires 0xD800 <= lead <= 0xDBFF && 0xDC00 <= trail <= 0xDFFF
    ensures DecodeStepStrict(Rfc2781.UnitBytes(lead, e) + (Rfc2781.UnitBytes(trail, e) + rest), e)
         == (Combine(lead, trail), 4)
  {
    var tail := Rfc2781.UnitBytes(trail, e) + rest;
    var s := Rfc2781.UnitBytes(lead, e) + tail;
    UnitAtBytes(lead, tail, e);
    assert s[2..] == tail;
    UnitAtBytes(trail, rest, e);
    StrictStepPair(s, lead, trail, e);
  }

  /** The corrected decoder reads the RFC 2781 encoding of a scalar value back
      as that value and consumes exactly its bytes. */
  lemma DecodeStepStrictEncode(v: uint32, s: seq<byte>, rest: seq<byte>, e: Endianness)
    requires Utils.IsValidUnicodeRange(v) && s == Rfc2781.Encode(v, e) + rest
    ensures DecodeStepStrict(s, e) == (v, |Rfc2781.Encode(v, e)|)
  {
    if v < 0x10000 {
      Rfc2781.EncodeBelow(v, rest, e);
      StrictStepBelow(v, rest, e);
    } else {
      Rfc2781.EncodeAbove(v, rest, e);
      StrictStepAbove(v, rest, e);
    }
  }

  /** `StepBelow` for the corrected decoder. */
  lemma StrictStepBelow(v: uint32, rest: seq<byte>, e: Endianness)
    requires Utils.IsValidUnicodeRange(v) && v < 0x10000
    ensures DecodeStepStrict(Rfc2781.UnitBytes(Rfc2781.Low16(v), e) + rest, e) == (v, 2)
  {
    WidenSurrogate(Rfc2781.Low16(v));
    DecodeStepStrictSingle(Rfc2781.Low16(v), rest, e);
  }

  /** `StepAbove` for the corrected decoder. */
  lemma StrictStepAbove(v: uint32, rest: seq<byte>, e: Endianness)
    requires 0x10000 <= v <= 0x10FFFF
    ensures DecodeStepStrict(Rfc2781.UnitBytes(Rfc2781.HighSurrogate(v), e)
                             + (Rfc2781.UnitBytes(Rfc2781.LowSurrogate(v), e) + rest), e) == (v, 4)
  {
    CombineSurrogates(v);
    DecodeStepStrictPair(Rfc2781.HighSurrogate(v), Rfc2781.LowSurrogate(v), rest, e);
  }

  /** The corrected decoder also gives back every run of scalar values from
      its RFC 2781 encoding. */
  lemma {:induction false} DecodeStrictEncodeSeq(vs: seq<uint32>, e: Endianness)
    requires forall k :: 0 <= k < |vs| ==> Utils.IsValidUnicodeRange(vs[k])
    ensures DecodeStrict(Rfc2781.EncodeSeq(vs, e), e) == vs
  {
    if |vs| > 0 {
      var head := Rfc2781.Encode(vs[0], e);
      var tail := Rfc2781.EncodeSeq(vs[1..], e);
      var s := head + tail;
      assert Rfc2781.EncodeSeq(vs, e) == s;
      DecodeStepStrictEncode(vs[0], s, tail, e);
      assert s[|head|..] == tail;
      DecodeStrictEncodeSeq(vs[1..], e);
    }
  }

  /** With the correction, the inputs of `UnpairedLeadSwallowsNext` convert to
      U+FFFD followed by "A". */
  lemma UnpairedLeadReplacedStrict()
    ensures ReadWords(ConvertToUTF32Strict([0xD8, 0x00, 0x00, 0x41], UTF32BE.Name(), false).output, BigEndian)
         == [0xFFFD, 0x41]
    ensures ReadWords(ConvertToUTF32Strict([0xDC, 0x00, 0x00, 0x41], UTF32BE.Name(), false).output, BigEndian)
         == [0xFFFD, 0x41]
  {
    UnpairedReplacedStrict(0xD8, 0xD800);
    UnpairedReplacedStrict(0xDC, 0xDC00);
  }

  /** The corrected conversion of `xx 00 00 41`, for a surrogate `xx00` that
      is not followed by a low surrogate. */
  lemma UnpairedReplacedStrict(hi: byte, lead: uint16)
    requires lead == (hi as uint16) << 8 && 0xD8 <= hi <= 0xDF
    ensures ReadWords(ConvertToUTF32Strict([hi, 0x00, 0x00, 0x41], UTF32BE.Name(), false).output, BigEndian)
         == [0xFFFD, 0x41]
  {
    var input: seq<byte> := [hi, 0x00, 0x00, 0x41];
    UnpairedInput(hi, lead);
    StrictDecodeUnpaired(hi, lead);
    assert input[0..] == input;
    SanitizeUnpaired(lead as uint32);
    var out := ConvertToUTF32Strict(input, UTF32BE.Name(), false).output;
    assert out[0..] == out;
  }

  /** The corrected decoder on `xx 00 00 41`: the lone surrogate, then "A". */
  lemma StrictDecodeUnpaired(hi: byte, lead: uint16)
    requires lead == (hi as uint16) << 8 && 0xD8 <= hi <= 0xDF
    ensures DecodeStrict([hi, 0x00, 0x00, 0x41], BigEndian) == [lead as uint32, 0x41]
    ensures !Utils.IsValidUnicodeRange(lead as uint32)
  {
    UnpairedInput(hi, lead);
    UnpairedStandsAlone(lead, 0x0041, [], BigEndian);
    StrictLetterA();
  }

  /** Validation for "utf-32be" replaces the lone surrogate and keeps "A". */
  lemma SanitizeUnpaired(x: uint32)
    requires !Utils.IsValidUnicodeRange(x)
    ensures Utils.SanitizeAll([x, 0x41], UTF32BE.Name()) == [0xFFFD, 0x41]
  {
    assert [x, 0x41][1..] == [0x41];
  }

  /** "A" alone, big-endian, decodes to U+0041. */
  lemma StrictLetterA()
    ensures DecodeStrict(Rfc2781.UnitBytes(0x0041, BigEndian) + [], BigEndian) == [0x41]
  {
    var a := Rfc2781.UnitBytes(0x0041, BigEndian) + [];
    DecodeStepStrictSingle(0x0041, [], BigEndian);
    assert a[2..] == [];
  }

  /** `xx 00 00 41` is the big-endian bytes of `xx00` and "A", with no BOM. */
  lemma UnpairedInput(hi: byte, lead: uint16)
    requires lead == (hi as uint16) << 8 && 0xD8 <= hi <= 0xDF
    ensures [hi, 0x00, 0x00, 0x41]
         == Rfc2781.UnitBytes(lead, BigEndian) + (Rfc2781.UnitBytes(0x0041, BigEndian) + [])
    ensures DetectSourceOrder([hi, 0x00, 0x00, 0x41]) == (BigEndian, 0)
  {
  }
}
