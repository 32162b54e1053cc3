/** utf32/utf32.go: UTF-32 to UTF-8. The buffer's byte order is sniffed, every
    4-byte unit is repacked into UTF-8 bit by bit inside a `[4]byte`, and the
    non-zero bytes of that array are emitted, most significant first. */
module Utf32 {
  import opened Types
  import Utils
  import Rfc3629

  /** The three UTF-8 bytes of U+FFFD in a `[4]byte`, lowest first. */
  function GenerateGarbageCharacter(): (w: Word)
    ensures EmitNonZero(w) == Rfc3629.Encode(0xFFFD)
  {
    Word(0xBD, 0xBF, 0xEF, 0x00)
  }

  /** Unit `k` of an unmarked buffer hints at big-endian order: its fourth byte
      is set, or one of the top three bits of its third byte is. */
  predicate SignalsBigEndian(bytes: seq<byte>, k: nat)
    requires 4 * k + 3 < |bytes|
  {
    bytes[4 * k + 3] > 0 || bytes[4 * k + 2] & 0xE0 != 0
  }

  /** The scan over the aligned units from unit `k` on. */
  function ScanForBigEndian(bytes: seq<byte>, k: nat): (r: bool)
    ensures r <==> exists j: nat :: k <= j && 4 * j + 3 < |bytes| && SignalsBigEndian(bytes, j)
    decreases |bytes| - 4 * k
  {
    if 4 * k + 3 < |bytes| then
      SignalsBigEndian(bytes, k) || ScanForBigEndian(bytes, k + 1)
    else
      false
  }

  /** Byte order and BOM presence of a UTF-32 buffer. A leading `FF FE 00 00`
      means little-endian with a BOM, a leading `00 00 FE FF` big-endian with a
      BOM; otherwise the buffer is big-endian exactly when some aligned unit
      signals it, and little-endian by default. */
  function CheckUTF32Endianness(bytes: seq<byte>): (r: (Endianness, bool))
    requires |bytes| >= 4
    ensures bytes[..4] == Utf32Bom(LittleEndian) ==> r == (LittleEndian, true)
    ensures bytes[..4] == Utf32Bom(BigEndian) ==> r == (BigEndian, true)
    ensures r.1 <==> bytes[..4] == Utf32Bom(LittleEndian) || bytes[..4] == Utf32Bom(BigEndian)
    ensures !r.1 ==>
      (r.0 == BigEndian <==> exists j: nat :: 4 * j + 3 < |bytes| && SignalsBigEndian(bytes, j))
  {
    if bytes[0] == 255 && bytes[1] == 254 && bytes[2] == 0 && bytes[3] == 0 then
      (LittleEndian, true)
    else if bytes[0] == 0 && bytes[1] == 0 && bytes[2] == 254 && bytes[3] == 255 then
      (BigEndian, true)
    else if ScanForBigEndian(bytes, 0) then
      (BigEndian, false)
    else
      (LittleEndian, false)
  }

  /** The byte-array validity test: it agrees with the scalar-value test on the
      value the four bytes spell. */
  function IsValidUnicodeRange(w: Word): (r: bool)
    ensures r == Utils.IsValidUnicodeRange(w.Value())
  {
    if w.b3 & 0xFF != 0 || w.b2 > 0x10 then false
    else if w.b1 >= 216 && w.b1 <= 223 && w.b2 == 0 && w.b3 == 0 then false
    else true
  }

  /** The UTF-8 width chosen from the bytes: the width section 3 of RFC 3629
      gives the value they spell. */
  function GetWordLength(w: Word): (r: nat)
    ensures r == Rfc3629.Width(w.Value())
  {
    if w.b3 != 0 || w.b2 != 0 then 4
    else if w.b1 & 0xF8 != 0 then 3
    else if w.b1 != 0 || w.b0 & 0x80 != 0 then 2
    else 1
  }

  /** A buffer is accepted when it is non-empty and a whole number of units:
      at least one unit, and no trailing partial unit that reading words in
      either order would leave out. */
  predicate IsValidInput(input: seq<byte>): (r: bool)
    ensures r ==> |input| >= 4
    ensures r <==> |input| > 0 && 4 * |ReadWords(input, LittleEndian)| == |input|
    ensures r <==> |input| > 0 && 4 * |ReadWords(input, BigEndian)| == |input|
  {
    |input| != 0 && |input| % 4 == 0
  }

  /** The in-place repacking of a unit into UTF-8, as the four branches write it:
      each statement reads only bytes not yet overwritten. Byte shifts drop the
      bits that leave the byte, as Go's `byte` arithmetic does. */
  function PackUTF8(w: Word, width: nat): (r: Word)
    ensures width == 4 ==> r.b3 & 0xF8 == 0xF0 && r.b2 & 0xC0 == 0x80
                           && r.b1 & 0xC0 == 0x80 && r.b0 & 0xC0 == 0x80
    ensures width == 3 ==> r.b3 == w.b3 && r.b2 & 0xF0 == 0xE0
                           && r.b1 & 0xC0 == 0x80 && r.b0 & 0xC0 == 0x80
    ensures width == 2 ==> r.b3 == w.b3 && r.b2 == w.b2
                           && r.b1 & 0xE0 == 0xC0 && r.b0 & 0xC0 == 0x80
    ensures !(2 <= width <= 4) ==> r == w
  {
    if width == 4 then
      Word((w.b0 | 0x80) & 0xBF,
           (((w.b1 << 2) | (w.b0 >> 6)) & 0x3F) | 0x80,
           (((w.b2 << 4) | (w.b1 >> 4)) & 0x3F) | 0x80,
           0xF0 | ((w.b2 & 0x1C) >> 2))
    else if width == 3 then
      Word((w.b0 & 0x3F) | 0x80,
           (((w.b1 << 2) | (w.b0 >> 6)) & 0x3F) | 0x80,
           0xE0 | (w.b1 >> 4),
           w.b3)
    else if width == 2 then
      Word((w.b0 & 0x3F) | 0x80,
           (((w.b1 << 2) & 0x1F) | 0xC0) | (w.b0 >> 6),
           w.b2,
           w.b3)
    else
      w
  }

  /** The bytes of `s` that are not zero, in their order. */
  function DropZeros(s: seq<byte>): (r: seq<byte>)
    ensures 0 !in r
    ensures |r| <= |s|
  {
    if |s| == 0 then [] else Keep(s[0]) + DropZeros(s[1..])
  }

  /** One byte unless it is zero. */
  function Keep(b: byte): seq<byte> {
    if b == 0 then [] else [b]
  }

  /** The emission loop: the bytes of the array from the highest down, skipping
      every zero byte. */
  function EmitNonZero(w: Word): (r: seq<byte>)
    ensures r == DropZeros([w.b3, w.b2, w.b1, w.b0])
    ensures 0 !in r
    ensures |r| <= 4
  {
    DropZerosOfFour(w.b3, w.b2, w.b1, w.b0);
    Keep(w.b3) + (Keep(w.b2) + (Keep(w.b1) + Keep(w.b0)))
  }

  /** `DropZeros` on four bytes, one byte at a time. */
  lemma DropZerosOfFour(a: byte, b: byte, c: byte, d: byte)
    ensures DropZeros([a, b, c, d]) == Keep(a) + (Keep(b) + (Keep(c) + Keep(d)))
  {
    DropZerosCons(d, []);
    DropZerosCons(c, [d]);
    DropZerosCons(b, [c, d]);
    DropZerosCons(a, [b, c, d]);
  }

  /** `DropZeros` of a byte in front of a sequence. */
  lemma DropZerosCons(x: byte, s: seq<byte>)
    ensures DropZeros([x] + s) == Keep(x) + DropZeros(s)
  {
    assert ([x] + s)[1..] == s;
  }

  /** The bytes the four-byte branch writes are the RFC 3629 bytes of the value. */
  lemma Pack4Bytes(w: Word)
    requires w.b3 == 0 && w.b2 != 0 && w.b2 <= 0x10
    ensures PackUTF8(w, 4) == Word(Rfc3629.Continuation(w.Value(), 0), Rfc3629.Continuation(w.Value(), 6),
                                   Rfc3629.Continuation(w.Value(), 12), Low8(0xF0 | (w.Value() >> 18)))
  {
  }

  /** The bytes the three-byte branch writes are the RFC 3629 bytes of the value. */
  lemma Pack3Bytes(w: Word)
    requires w.b3 == 0 && w.b2 == 0 && w.b1 & 0xF8 != 0
    ensures PackUTF8(w, 3) == Word(Rfc3629.Continuation(w.Value(), 0), Rfc3629.Continuation(w.Value(), 6),
                                   Low8(0xE0 | (w.Value() >> 12)), 0)
  {
  }

  /** The bytes the two-byte branch writes are the RFC 3629 bytes of the value. */
  lemma Pack2Bytes(w: Word)
    requires w.b3 == 0 && w.b2 == 0 && w.b1 & 0xF8 == 0 && (w.b1 != 0 || w.b0 & 0x80 != 0)
    ensures PackUTF8(w, 2) == Word(Rfc3629.Continuation(w.Value(), 0), Low8(0xC0 | (w.Value() >> 6)), 0, 0)
  {
  }

  /** Four-byte packing of U+10000..U+10FFFF is the RFC 3629 encoding. */
  lemma Pack4(w: Word)
    requires w.b3 == 0 && w.b2 != 0 && w.b2 <= 0x10
    ensures EmitNonZero(PackUTF8(w, 4)) == Rfc3629.Encode4(w.Value())
  {
    Pack4Bytes(w);
  }

  /** Three-byte packing of U+0800..U+FFFF is the RFC 3629 encoding. */
  lemma Pack3(w: Word)
    requires w.b3 == 0 && w.b2 == 0 && w.b1 & 0xF8 != 0
    ensures EmitNonZero(PackUTF8(w, 3)) == Rfc3629.Encode3(w.Value())
  {
    Pack3Bytes(w);
  }

  /** Two-byte packing of U+0080..U+07FF is the RFC 3629 encoding. */
  lemma Pack2(w: Word)
    requires w.b3 == 0 && w.b2 == 0 && w.b1 & 0xF8 == 0 && (w.b1 != 0 || w.b0 & 0x80 != 0)
    ensures EmitNonZero(PackUTF8(w, 2)) == Rfc3629.Encode2(w.Value())
  {
    Pack2Bytes(w);
  }

  /** One unit of the conversion loop: validate, repack, emit. A valid non-zero
      value comes out as its RFC 3629 encoding, an invalid one as `EF BF BD`,
      and U+0000 as nothing at all, since its only byte is zero. */
  function EncodeUnit(w: Word): (r: seq<byte>)
    ensures Utils.IsValidUnicodeRange(w.Value()) && w.Value() != 0 ==> r == Rfc3629.Encode(w.Value())
    ensures !Utils.IsValidUnicodeRange(w.Value()) ==> r == Rfc3629.Encode(0xFFFD)
    ensures w.Value() == 0 ==> r == []
    ensures 0 !in r
  {
    var width := GetWordLength(w);
    if !IsValidUnicodeRange(w) then
      EmitNonZero(GenerateGarbageCharacter())
    else if width == 4 then
      Pack4(w);
      EmitNonZero(PackUTF8(w, width))
    else if width == 3 then
      Pack3(w);
      EmitNonZero(PackUTF8(w, width))
    else if width == 2 then
      Pack2(w);
      EmitNonZero(PackUTF8(w, width))
    else
      EmitNonZero(PackUTF8(w, width))
  }

  /** The conversion loop over the units of `s`, read in byte order `e`. */
  function ConvertUnits(s: seq<byte>, e: Endianness): (r: seq<byte>)
    ensures 0 !in r
    decreases |s|
  {
    if |s| < 4 then [] else EncodeUnit(WordAt(s, e)) + ConvertUnits(s[4..], e)
  }

  /** UTF-32 to UTF-8, with the `-addbom` flag as the parameter `addBOM`. An
      empty buffer or one whose length is not a multiple of 4 gives an error and
      no output; otherwise there is no error, the output starts with `EF BB BF`
      exactly when `addBOM` is set, and it never holds a zero byte. */
  function ConvertToUTF8(input: seq<byte>, addBOM: bool): (r: Converted)
    ensures r.err.Some? <==> !(|input| > 0 && |input| % 4 == 0)
    ensures r.err.Some? ==> r.output == []
    ensures r.err.None? && addBOM ==> |r.output| >= 3 && r.output[..3] == Rfc3629.Utf8Bom()
    ensures 0 !in r.output
  {
    if !IsValidInput(input) then
      Converted([], Some(InvalidInput))
    else
      var (endianness, hasBOM) := CheckUTF32Endianness(input);
      var startIdx := if hasBOM then 4 else 0;
      var output := ConvertUnits(input[startIdx..], endianness);
      Converted(if addBOM then Rfc3629.Utf8Bom() + output else output, None)
  }

  /** What the conversion does to the values it reads, stated on values: U+0000
      disappears and every value that is not a scalar value becomes U+FFFD. */
  function Repair(vs: seq<uint32>): (r: seq<uint32>)
    ensures forall k :: 0 <= k < |r| ==> Utils.IsValidUnicodeRange(r[k]) && r[k] != 0
    ensures |r| <= |vs|
  {
    if |vs| == 0 then []
    else if vs[0] == 0 then Repair(vs[1..])
    else [if Utils.IsValidUnicodeRange(vs[0]) then vs[0] else 0xFFFD] + Repair(vs[1..])
  }

  /** Repair leaves a run of non-zero scalar values alone. */
  lemma {:induction false} RepairKeepsScalars(vs: seq<uint32>)
    requires forall k :: 0 <= k < |vs| ==> Utils.IsValidUnicodeRange(vs[k]) && vs[k] != 0
    ensures Repair(vs) == vs
  {
    if |vs| > 0 {
      RepairKeepsScalars(vs[1..]);
    }
  }

  /** The loop over a whole number of units is the RFC 3629 encoding of the
      repaired values those units spell. */
  lemma {:induction false} ConvertUnitsEncodes(s: seq<byte>, e: Endianness)
    requires |s| % 4 == 0
    ensures ConvertUnits(s, e) == Rfc3629.EncodeSeq(Repair(ReadWords(s, e)))
  {
    if |s| >= 4 {
      var v := ReadWord(s, e);
      var rest := ReadWords(s[4..], e);
      assert ReadWords(s, e) == [v] + rest;
      assert ([v] + rest)[1..] == rest;
      ConvertUnitsEncodes(s[4..], e);
      if v != 0 {
        var v' := if Utils.IsValidUnicodeRange(v) then v else 0xFFFD;
        assert Repair(ReadWords(s, e)) == [v'] + Repair(rest);
        Rfc3629.EncodeSeqCons(v', Repair(rest));
      }
    }
  }

  /** The whole conversion of an accepted buffer: after the optional UTF-8 BOM
      comes the RFC 3629 encoding of the repaired values of the units that
      follow the UTF-32 BOM, if there is one, read in the sniffed byte order. */
  lemma ConvertToUTF8Encodes(input: seq<byte>, addBOM: bool)
    requires |input| > 0 && |input| % 4 == 0
    ensures ConvertToUTF8(input, addBOM).err == None
    ensures ConvertToUTF8(input, addBOM).output ==
      (if addBOM then Rfc3629.Utf8Bom() else [])
      + Rfc3629.EncodeSeq(Repair(ReadWords(input[if CheckUTF32Endianness(input).1 then 4 else 0..],
                                           CheckUTF32Endianness(input).0)))
  {
    var (e, hasBOM) := CheckUTF32Endianness(input);
    var body := input[if hasBOM then 4 else 0..];
    ConvertUnitsEncodes(body, e);
    PrefixBom(ConvertToUTF8(input, addBOM), ConvertUnits(body, e), Rfc3629.EncodeSeq(Repair(ReadWords(body, e))), addBOM);
  }

  /** The output with the optional UTF-8 BOM in front, restated through an
      equal body. */
  lemma PrefixBom(r: Converted, output: seq<byte>, same: seq<byte>, addBOM: bool)
    requires r.output == (if addBOM then Rfc3629.Utf8Bom() + output else output)
    requires output == same
    ensures r.output == (if addBOM then Rfc3629.Utf8Bom() else []) + same
  {
    if !addBOM {
      assert [] + same == same;
    }
  }

  /** Whole words written back to back are exactly the words read from them. */
  lemma {:induction false} EmitReadWords(s: seq<byte>, e: Endianness)
    requires |s| % 4 == 0
    ensures EmitWords(ReadWords(s, e), e) == s
    decreases |s|
  {
    if |s| >= 4 {
      var v := ReadWord(s, e);
      assert ReadWords(s, e) == [v] + ReadWords(s[4..], e);
      assert ([v] + ReadWords(s[4..], e))[1..] == ReadWords(s[4..], e);
      WordBytesOfRead(s, e);
      EmitReadWords(s[4..], e);
      assert s == s[..4] + s[4..];
    }
  }

  /** A scalar value other than U+FEFF, written little-endian, is neither BOM. */
  lemma NotABom(v: uint32)
    requires Utils.IsValidUnicodeRange(v) && v != 0xFEFF
    ensures WordBytes(v, LittleEndian) != Utf32Bom(LittleEndian)
    ensures WordBytes(v, LittleEndian) != Utf32Bom(BigEndian)
  {
    assert WordBytes(v, LittleEndian)[3] == 0;
    ReadWordBytes(v, [], LittleEndian);
    ReadWordBytes(0xFEFF, [], LittleEndian);
    assert WordBytes(v, LittleEndian) + [] == WordBytes(v, LittleEndian);
    assert WordBytes(0xFEFF, LittleEndian) + [] == WordBytes(0xFEFF, LittleEndian);
  }

  /** No unit of a little-endian run of scalar values signals big-endian order. */
  lemma LittleEndianQuiet(vs: seq<uint32>)
    requires forall k :: 0 <= k < |vs| ==> Utils.IsValidUnicodeRange(vs[k])
    ensures forall j: nat :: 4 * j + 3 < |EmitWords(vs, LittleEndian)| ==>
      !SignalsBigEndian(EmitWords(vs, LittleEndian), j)
  {
    var s := EmitWords(vs, LittleEndian);
    forall j: nat | 4 * j + 3 < |s|
      ensures !SignalsBigEndian(s, j)
    {
      EmitWordsAt(vs, LittleEndian, j);
      assert s[4 * j + 3] == WordBytes(vs[j], LittleEndian)[3];
      assert s[4 * j + 2] == WordBytes(vs[j], LittleEndian)[2];
    }
  }

  /** Written words make a whole number of units. */
  lemma WholeWords(vs: seq<uint32>, e: Endianness)
    ensures |EmitWords(vs, e)| % 4 == 0
  {
    var n := |vs|;
    assert |EmitWords(vs, e)| == 4 * n;
  }

  /** Little-endian scalar values never look big-endian, so an unmarked
      little-endian buffer whose first value is not U+FEFF is sniffed as
      little-endian without a BOM. */
  lemma LittleEndianSniffed(vs: seq<uint32>)
    requires |vs| > 0 && vs[0] != 0xFEFF
    requires forall k :: 0 <= k < |vs| ==> Utils.IsValidUnicodeRange(vs[k])
    ensures CheckUTF32Endianness(EmitWords(vs, LittleEndian)) == (LittleEndian, false)
  {
    var s := EmitWords(vs, LittleEndian);
    assert s[..4] == WordBytes(vs[0], LittleEndian) by {
      EmitWordsAt(vs, LittleEndian, 0);
    }
    NotABom(vs[0]);
    LittleEndianQuiet(vs);
  }

  /** Round trip from RFC 3629's side: an unmarked little-endian buffer of
      non-zero scalar values, not starting with U+FEFF, converts to exactly the
      UTF-8 encoding of those values. */
  lemma LittleEndianToUTF8(vs: seq<uint32>, addBOM: bool)
    requires |vs| > 0 && vs[0] != 0xFEFF
    requires forall k :: 0 <= k < |vs| ==> Utils.IsValidUnicodeRange(vs[k]) && vs[k] != 0
    ensures ConvertToUTF8(EmitWords(vs, LittleEndian), addBOM)
         == Converted((if addBOM then Rfc3629.Utf8Bom() else []) + Rfc3629.EncodeSeq(vs), None)
  {
    var s := EmitWords(vs, LittleEndian);
    WholeWords(vs, LittleEndian);
    LittleEndianSniffed(vs);
    Unmarked(s, addBOM);
    ReadEmitWords(vs, LittleEndian);
    RepairKeepsScalars(vs);
  }

  /** The conversion of an unmarked buffer sniffed as little-endian. */
  lemma Unmarked(s: seq<byte>, addBOM: bool)
    requires |s| > 0 && |s| % 4 == 0 && CheckUTF32Endianness(s) == (LittleEndian, false)
    ensures ConvertToUTF8(s, addBOM)
         == Converted((if addBOM then Rfc3629.Utf8Bom() else [])
                      + Rfc3629.EncodeSeq(Repair(ReadWords(s, LittleEndian))), None)
  {
    Sniffed(s, LittleEndian, false, addBOM);
    assert s[0..] == s;
  }

  /** A buffer that starts with a UTF-32 BOM is read in the BOM's byte order and
      the BOM itself contributes nothing: the output is the UTF-8 encoding of the
      non-zero scalar values that follow it. */
  lemma MarkedToUTF8(vs: seq<uint32>, e: Endianness, addBOM: bool)
    requires forall k :: 0 <= k < |vs| ==> Utils.IsValidUnicodeRange(vs[k]) && vs[k] != 0
    ensures ConvertToUTF8(Utf32Bom(e) + EmitWords(vs, e), addBOM)
         == Converted((if addBOM then Rfc3629.Utf8Bom() else []) + Rfc3629.EncodeSeq(vs), None)
  {
    var body := EmitWords(vs, e);
    WholeWords(vs, e);
    Marked(body, e, addBOM);
    ReadEmitWords(vs, e);
    RepairKeepsScalars(vs);
  }

  /** The conversion of a buffer behind a UTF-32 BOM: the units after the BOM,
      read in its order. */
  lemma Marked(body: seq<byte>, e: Endianness, addBOM: bool)
    requires |body| % 4 == 0
    ensures ConvertToUTF8(Utf32Bom(e) + body, addBOM)
         == Converted((if addBOM then Rfc3629.Utf8Bom() else [])
                      + Rfc3629.EncodeSeq(Repair(ReadWords(body, e))), None)
  {
    var s := Utf32Bom(e) + body;
    BehindBom(s, body, e);
    Sniffed(s, e, true, addBOM);
  }

  /** A buffer that starts with a BOM is sniffed in the BOM's order. */
  lemma BehindBom(s: seq<byte>, body: seq<byte>, e: Endianness)
    requires s == Utf32Bom(e) + body && |body| % 4 == 0
    ensures |s| > 0 && |s| % 4 == 0 && s[4..] == body
    ensures CheckUTF32Endianness(s) == (e, true)
  {
    assert s[..4] == Utf32Bom(e);
  }

  /** The conversion of an accepted buffer, once its byte order and BOM are
      known. */
  lemma Sniffed(s: seq<byte>, e: Endianness, hasBOM: bool, addBOM: bool)
    requires |s| > 0 && |s| % 4 == 0 && CheckUTF32Endianness(s) == (e, hasBOM)
    ensures ConvertToUTF8(s, addBOM)
         == Converted((if addBOM then Rfc3629.Utf8Bom() else [])
                      + Rfc3629.EncodeSeq(Repair(ReadWords(s[if hasBOM then 4 else 0..], e))), None)
  {
    ConvertToUTF8Encodes(s, addBOM);
  }

  /** Emission by width: the low `width` bytes of the array, highest first. */
  function EmitWidth(w: Word, width: nat): (r: seq<byte>)
    requires 1 <= width <= 4
    ensures |r| == width
    ensures width == 4 ==> r == [w.b3, w.b2, w.b1, w.b0]
    ensures width == 1 ==> r == [w.b0]
  {
    if width == 4 then [w.b3, w.b2, w.b1, w.b0]
    else if width == 3 then [w.b2, w.b1, w.b0]
    else if width == 2 then [w.b1, w.b0]
    else [w.b0]
  }

  /** One unit with the zero test replaced by the width the code already
      computed: every scalar value, U+0000 included, comes out as its RFC 3629
      encoding, and every other value as `EF BF BD`. */
  function EncodeUnitCorrected(w: Word): (r: seq<byte>)
    ensures Utils.IsValidUnicodeRange(w.Value()) ==> r == Rfc3629.Encode(w.Value())
    ensures !Utils.IsValidUnicodeRange(w.Value()) ==> r == Rfc3629.Encode(0xFFFD)
  {
    var width := GetWordLength(w);
    if !IsValidUnicodeRange(w) then
      EmitWidth(GenerateGarbageCharacter(), 3)
    else if width == 4 then
      Pack4Bytes(w);
      EmitWidth(PackUTF8(w, width), width)
    else if width == 3 then
      Pack3Bytes(w);
      EmitWidth(PackUTF8(w, width), width)
    else if width == 2 then
      Pack2Bytes(w);
      EmitWidth(PackUTF8(w, width), width)
    else
      EmitWidth(PackUTF8(w, width), width)
  }

  /** The conversion loop with the corrected unit encoder. */
  function ConvertUnitsCorrected(s: seq<byte>, e: Endianness): seq<byte>
    decreases |s|
  {
    if |s| < 4 then [] else EncodeUnitCorrected(WordAt(s, e)) + ConvertUnitsCorrected(s[4..], e)
  }

  /** UTF-32 to UTF-8 with the corrected unit encoder; all else as written. */
  function ConvertToUTF8Corrected(input: seq<byte>, addBOM: bool): (r: Converted)
    ensures r.err.Some? <==> !(|input| > 0 && |input| % 4 == 0)
    ensures r.err.Some? ==> r.output == []
  {
    if !IsValidInput(input) then
      Converted([], Some(InvalidInput))
    else
      var (endianness, hasBOM) := CheckUTF32Endianness(input);
      var startIdx := if hasBOM then 4 else 0;
      var output := ConvertUnitsCorrected(input[startIdx..], endianness);
      Converted(if addBOM then Rfc3629.Utf8Bom() + output else output, None)
  }

  /** Every value that is not a scalar value becomes U+FFFD; nothing is dropped. */
  function ReplaceInvalid(vs: seq<uint32>): (r: seq<uint32>)
    ensures |r| == |vs|
    ensures forall k :: 0 <= k < |vs| ==>
      r[k] == (if Utils.IsValidUnicodeRange(vs[k]) then vs[k] else 0xFFFD)
  {
    if |vs| == 0 then [] else
      [if Utils.IsValidUnicodeRange(vs[0]) then vs[0] else 0xFFFD] + ReplaceInvalid(vs[1..])
  }

  /** The corrected loop is the RFC 3629 encoding of the values read, with
      invalid ones replaced and none dropped. */
  lemma {:induction false} ConvertUnitsCorrectedEncodes(s: seq<byte>, e: Endianness)
    requires |s| % 4 == 0
    ensures ConvertUnitsCorrected(s, e) == Rfc3629.EncodeSeq(ReplaceInvalid(ReadWords(s, e)))
  {
    if |s| >= 4 {
      var v := ReadWord(s, e);
      var rest := ReadWords(s[4..], e);
      assert ReadWords(s, e) == [v] + rest;
      var v' := if Utils.IsValidUnicodeRange(v) then v else 0xFFFD;
      assert ReplaceInvalid(ReadWords(s, e)) == [v'] + ReplaceInvalid(rest);
      ConvertUnitsCorrectedEncodes(s[4..], e);
      Rfc3629.EncodeSeqCons(v', ReplaceInvalid(rest));
    }
  }

  /** The whole corrected conversion of an accepted buffer. */
  lemma ConvertToUTF8CorrectedEncodes(input: seq<byte>, addBOM: bool)
    requires |input| > 0 && |input| % 4 == 0
    ensures ConvertToUTF8Corrected(input, addBOM).err == None
    ensures ConvertToUTF8Corrected(input, addBOM).output ==
      (if addBOM then Rfc3629.Utf8Bom() else [])
      + Rfc3629.EncodeSeq(ReplaceInvalid(ReadWords(input[if CheckUTF32Endianness(input).1 then 4 else 0..],
                                                   CheckUTF32Endianness(input).0)))
  {
    var (e, hasBOM) := CheckUTF32Endianness(input);
    var body := input[if hasBOM then 4 else 0..];
    ConvertUnitsCorrectedEncodes(body, e);
    PrefixBom(ConvertToUTF8Corrected(input, addBOM), ConvertUnitsCorrected(body, e),
              Rfc3629.EncodeSeq(ReplaceInvalid(ReadWords(body, e))), addBOM);
  }

  /** `ReplaceInvalid` leaves a run of scalar values alone. */
  lemma ReplaceInvalidKeepsScalars(vs: seq<uint32>)
    requires forall k :: 0 <= k < |vs| ==> Utils.IsValidUnicodeRange(vs[k])
    ensures ReplaceInvalid(vs) == vs
  {
  }

  /** The corrected conversion of an unmarked buffer sniffed as little-endian. */
  lemma UnmarkedCorrected(s: seq<byte>, addBOM: bool)
    requires |s| > 0 && |s| % 4 == 0 && CheckUTF32Endianness(s) == (LittleEndian, false)
    ensures ConvertToUTF8Corrected(s, addBOM)
         == Converted((if addBOM then Rfc3629.Utf8Bom() else [])
                      + Rfc3629.EncodeSeq(ReplaceInvalid(ReadWords(s, LittleEndian))), None)
  {
    ConvertToUTF8CorrectedEncodes(s, addBOM);
    assert s[0..] == s;
  }

  /** The round trip the corrected converter restores: an unmarked little-endian
      buffer of scalar values, U+0000 allowed, not starting with U+FEFF, converts
      to exactly their UTF-8 encoding. */
  lemma LittleEndianToUTF8Corrected(vs: seq<uint32>, addBOM: bool)
    requires |vs| > 0 && vs[0] != 0xFEFF
    requires forall k :: 0 <= k < |vs| ==> Utils.IsValidUnicodeRange(vs[k])
    ensures ConvertToUTF8Corrected(EmitWords(vs, LittleEndian), addBOM)
         == Converted((if addBOM then Rfc3629.Utf8Bom() else []) + Rfc3629.EncodeSeq(vs), None)
  {
    var s := EmitWords(vs, LittleEndian);
    WholeWords(vs, LittleEndian);
    LittleEndianSniffed(vs);
    UnmarkedCorrected(s, addBOM);
    ReadEmitWords(vs, LittleEndian);
    ReplaceInvalidKeepsScalars(vs);
  }

  /** The code as written loses U+0000: a lone `00 00 00 00` unit converts to
      nothing, where RFC 3629 encodes U+0000 as the single byte `00`, which the
      corrected converter produces. */
  lemma NulUnitDropped()
    ensures ConvertToUTF8([0, 0, 0, 0], false) == Converted([], None)
    ensures Rfc3629.Encode(0) == [0]
    ensures ConvertToUTF8Corrected([0, 0, 0, 0], false) == Converted([0], None)
  {
    NulAsWritten();
    NulCorrected();
  }

  /** `00 00 00 00` as written: no output. */
  lemma NulAsWritten()
    ensures ConvertToUTF8([0, 0, 0, 0], false) == Converted([], None)
  {
    NulSniffed();
    Unmarked([0, 0, 0, 0], false);
    ReadWordsNul();
  }

  /** `00 00 00 00` corrected: the byte `00`. */
  lemma NulCorrected()
    ensures Rfc3629.Encode(0) == [0]
    ensures ConvertToUTF8Corrected([0, 0, 0, 0], false) == Converted([0], None)
  {
    NulSniffed();
    UnmarkedCorrected([0, 0, 0, 0], false);
    ReadWordsNul();
    NulEncoded();
  }

  /** `00 00 00 00` carries no BOM and no big-endian hint. */
  lemma NulSniffed()
    ensures CheckUTF32Endianness([0, 0, 0, 0]) == (LittleEndian, false)
  {
    assert !SignalsBigEndian([0, 0, 0, 0], 0);
  }

  /** U+0000 alone is the single byte `00` in UTF-8. */
  lemma NulEncoded()
    ensures Rfc3629.Encode(0) == [0]
    ensures Rfc3629.EncodeSeq([0]) == [0]
  {
    assert Rfc3629.EncodeSeq([0]) == Rfc3629.Encode(0) + Rfc3629.EncodeSeq([]);
  }

  /** `00 00 00 00` is the one value U+0000. */
  lemma ReadWordsNul()
    ensures ReadWords([0, 0, 0, 0], LittleEndian) == [0]
  {
    var s: seq<byte> := [0, 0, 0, 0];
    assert s[4..] == [];
  }
}
