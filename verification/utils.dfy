/** utils/utils.go: the scalar-value validator and the per-charset replacement
    value, plus the validate-then-replace step and the target byte order that
    both UTF-32 emitters (utf8.go and utf16.go) repeat inline. */
module Utils {
  import opened Types

  /** True iff `bits` is a Unicode scalar value: at most U+10FFFF and outside the
      surrogate block U+D800..U+DFFF. */
  function IsValidUnicodeRange(bits: uint32): (r: bool)
    ensures r <==> bits <= 0xD7FF || (0xE000 <= bits && bits <= 0x10FFFF)
  {
    if bits > 0x10FFFF then false
    else if bits >= 0xD800 && bits <= 0xDFFF then false
    else true
  }

  /** The value written in place of an invalid one for target `charset`. For
      "utf-8" it is the three UTF-8 bytes of U+FFFD packed into one integer,
      which is itself not a scalar value; for every other id, known or not, it
      is U+FFFD. */
  function GenerateUnknownCharacter(charset: string): (r: uint32)
    ensures charset == UTF8.Name() ==> WordBytes(r, BigEndian) == [0x00, 0xEF, 0xBF, 0xBD]
    ensures charset != UTF8.Name() ==> r == 0xFFFD
    ensures IsValidUnicodeRange(r) <==> charset != UTF8.Name()
  {
    if charset == UTF8.Name() then 0xEFBFBD
    else if charset == UTF16.Name() || charset == UTF16BE.Name() || charset == UTF16LE.Name() then 0xFFFD
    else if charset == UTF32.Name() || charset == UTF32BE.Name() || charset == UTF32LE.Name() then 0x0000FFFD
    else 0xFFFD
  }

  /** Byte order of a UTF-32 target: big-endian for "utf-32be" and for the bare
      family id "utf-32", little-endian for every other id. */
  function TargetByteOrder(target: string): (e: Endianness)
    ensures e == BigEndian <==> target == UTF32BE.Name() || target == UTF32.Name()
  {
    if target == UTF32BE.Name() || target == UTF32.Name() then BigEndian else LittleEndian
  }

  /** Validate one decoded value and replace it when it is not a scalar value. */
  function Sanitize(bits: uint32, target: string): (r: uint32)
    ensures IsValidUnicodeRange(bits) ==> r == bits
    ensures !IsValidUnicodeRange(bits) ==> r == GenerateUnknownCharacter(target)
    ensures target != UTF8.Name() ==> IsValidUnicodeRange(r)
  {
    if !IsValidUnicodeRange(bits) then GenerateUnknownCharacter(target) else bits
  }

  /** Sanitize every value of a sequence, in order. */
  function SanitizeAll(vs: seq<uint32>, target: string): (r: seq<uint32>)
    ensures |r| == |vs|
    ensures forall k :: 0 <= k < |vs| ==> r[k] == Sanitize(vs[k], target)
  {
    if |vs| == 0 then [] else [Sanitize(vs[0], target)] + SanitizeAll(vs[1..], target)
  }

  /** Sanitizing values that are already scalar values changes nothing. */
  lemma SanitizeAllValid(vs: seq<uint32>, target: string)
    requires forall k :: 0 <= k < |vs| ==> IsValidUnicodeRange(vs[k])
    ensures SanitizeAll(vs, target) == vs
  {
  }

  /** The `for range 4` emission loop: `n` more bytes of `bits`, taking the top
      byte and shifting left for a big-endian target, the bottom byte and
      shifting right otherwise. The loop writes the word in the target order. */
  function EmitLoop(bits: uint32, isTargetBigEndian: bool, n: nat): (r: seq<byte>)
    requires n <= 4
    ensures r == WordBytes(bits, if isTargetBigEndian then BigEndian else LittleEndian)[..n]
    decreases n
  {
    if n == 0 then []
    else if isTargetBigEndian then
      [Low8(bits >> 24)] + EmitLoop(bits << 8, isTargetBigEndian, n - 1)
    else
      [Low8(bits)] + EmitLoop(bits >> 8, isTargetBigEndian, n - 1)
  }

  /** One pass of a converter's loop body, validate and emit, followed by the
      words of the rest of the values, is the words of all the values. */
  lemma EmitSanitizedCons(bits: uint32, rest: seq<uint32>, target: string)
    ensures EmitLoop(Sanitize(bits, target), TargetByteOrder(target) == BigEndian, 4)
            + EmitWords(SanitizeAll(rest, target), TargetByteOrder(target))
         == EmitWords(SanitizeAll([bits] + rest, target), TargetByteOrder(target))
  {
    var clean := SanitizeAll([bits] + rest, target);
    assert ([bits] + rest)[1..] == rest;
    assert clean[1..] == SanitizeAll(rest, target);
  }
}
