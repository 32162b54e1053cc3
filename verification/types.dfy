/** Shared vocabulary of the transcoder: bytes and fixed-width words, byte
    orders, the seven encoding identifiers and the `(output, error)` pair every
    converter returns. Go's fixed-width integers are bit-vectors here, so the
    wrap-around of Go's `byte`, `uint16` and `uint32` arithmetic is exact. */
module Types {

  /** Go's `byte`. */
  type byte = bv8
  /** Go's `uint16`: `-` wraps modulo 2^16. */
  type uint16 = bv16
  /** Go's `uint32`. */
  type uint32 = bv32

  datatype Option<+T> = None | Some(value: T)

  /** `types.Endianness`: "le" or "be". */
  datatype Endianness = LittleEndian | BigEndian

  /** The encoding identifiers of `types/types.go`, as spelled on the command line. */
  datatype Encoding = UTF8 | UTF16 | UTF16LE | UTF16BE | UTF32 | UTF32LE | UTF32BE
  {
    function Name(): string {
      match this
      case UTF8 => "utf-8"
      case UTF16 => "utf-16"
      case UTF16LE => "utf-16le"
      case UTF16BE => "utf-16be"
      case UTF32 => "utf-32"
      case UTF32LE => "utf-32le"
      case UTF32BE => "utf-32be"
    }
  }

  /** The identifier spelled `name`, if there is one. */
  function EncodingNamed(name: string): (r: Option<Encoding>)
    ensures r.Some? ==> r.value.Name() == name
    ensures r.None? ==> forall e: Encoding :: e.Name() != name
  {
    if name == UTF8.Name() then Some(UTF8)
    else if name == UTF16.Name() then Some(UTF16)
    else if name == UTF16LE.Name() then Some(UTF16LE)
    else if name == UTF16BE.Name() then Some(UTF16BE)
    else if name == UTF32.Name() then Some(UTF32)
    else if name == UTF32LE.Name() then Some(UTF32LE)
    else if name == UTF32BE.Name() then Some(UTF32BE)
    else None
  }

  /** Two identifiers never share a spelling, so a name determines its encoding. */
  lemma NameInjective(e1: Encoding, e2: Encoding)
    ensures e1.Name() == e2.Name() ==> e1 == e2
  {
    if e1.Name() == e2.Name() {
      var r := EncodingNamed(e1.Name());
      assert r.Some?;
      match e1
      case UTF8 => assert e1.Name()[4] == '8';
      case UTF16 => assert |e1.Name()| == 6;
      case UTF16LE => assert e1.Name()[6] == 'l';
      case UTF16BE => assert e1.Name()[6] == 'b';
      case UTF32 => assert |e1.Name()| == 6;
      case UTF32LE => assert e1.Name()[6] == 'l';
      case UTF32BE => assert e1.Name()[6] == 'b';
    }
  }

  /** The only error a converter reports: `errors.New("invalid input")`. */
  datatype Error = InvalidInput

  /** A converter's result, Go's `([]byte, error)`. */
  datatype Converted = Converted(output: seq<byte>, err: Option<Error>)

  /** A 32-bit word as Go's `[4]byte`, `b0` the least significant byte. */
  datatype Word = Word(b0: byte, b1: byte, b2: byte, b3: byte)
  {
    /** The number b0 + b1·2^8 + b2·2^16 + b3·2^24. */
    function Value(): uint32 {
      ((b3 as uint32) << 24) | ((b2 as uint32) << 16) | ((b1 as uint32) << 8) | (b0 as uint32)
    }
  }

  /** The least significant byte of `x`, Go's `byte(x)`. */
  function Low8(x: uint32): byte {
    (x & 0xFF) as byte
  }

  /** Splits a value into its four bytes. */
  function WordOf(v: uint32): (w: Word)
    ensures w.Value() == v
  {
    Word(Low8(v), Low8(v >> 8), Low8(v >> 16), Low8(v >> 24))
  }

  /** A word is determined by its value. */
  lemma WordOfValue(w: Word)
    ensures WordOf(w.Value()) == w
  {
  }

  /** The four bytes at the front of `s`, read in byte order `e`. */
  function WordAt(s: seq<byte>, e: Endianness): Word
    requires |s| >= 4
  {
    match e
    case LittleEndian => Word(s[0], s[1], s[2], s[3])
    case BigEndian => Word(s[3], s[2], s[1], s[0])
  }

  /** The value of the four bytes at the front of `s` in byte order `e`. */
  function ReadWord(s: seq<byte>, e: Endianness): uint32
    requires |s| >= 4
  {
    WordAt(s, e).Value()
  }

  /** `v` written as four bytes in byte order `e`. */
  function WordBytes(v: uint32, e: Endianness): (r: seq<byte>)
    ensures |r| == 4
    ensures e == BigEndian ==> r[0] == Low8(v >> 24) && r[3] == Low8(v)
    ensures e == LittleEndian ==> r[0] == Low8(v) && r[3] == Low8(v >> 24)
  {
    var w := WordOf(v);
    match e
    case LittleEndian => [w.b0, w.b1, w.b2, w.b3]
    case BigEndian => [w.b3, w.b2, w.b1, w.b0]
  }

  /** Reading back a written word gives the value, whatever follows it. */
  lemma ReadWordBytes(v: uint32, rest: seq<byte>, e: Endianness)
    ensures ReadWord(WordBytes(v, e) + rest, e) == v
  {
    var s := WordBytes(v, e) + rest;
    assert WordAt(s, e) == WordOf(v);
  }

  /** Writing a read word gives back the four bytes it was read from. */
  lemma WordBytesOfRead(s: seq<byte>, e: Endianness)
    requires |s| >= 4
    ensures WordBytes(ReadWord(s, e), e) == s[..4]
  {
    WordOfValue(WordAt(s, e));
  }

  /** A sequence of values written as consecutive 4-byte words. */
  function EmitWords(vs: seq<uint32>, e: Endianness): (r: seq<byte>)
    ensures |r| == 4 * |vs|
  {
    if |vs| == 0 then [] else WordBytes(vs[0], e) + EmitWords(vs[1..], e)
  }

  /** The consecutive 4-byte words of `s`; a trailing partial word is not read. */
  function ReadWords(s: seq<byte>, e: Endianness): (r: seq<uint32>)
    ensures |r| == |s| / 4
    decreases |s|
  {
    if |s| < 4 then [] else [ReadWord(s, e)] + ReadWords(s[4..], e)
  }

  /** Reading the words back recovers the values written. */
  lemma {:induction false} ReadEmitWords(vs: seq<uint32>, e: Endianness)
    ensures ReadWords(EmitWords(vs, e), e) == vs
  {
    if |vs| > 0 {
      var tail := EmitWords(vs[1..], e);
      assert EmitWords(vs, e) == WordBytes(vs[0], e) + tail;
      ReadWordBytes(vs[0], tail, e);
      assert EmitWords(vs, e)[4..] == tail;
      ReadEmitWords(vs[1..], e);
    }
  }

  /** Output whose bytes from `p` on, `p` a multiple of four, are the words of
      `vs`: it is a whole number of words, and reading from `p` gives `vs`. */
  lemma WordsAfter(out: seq<byte>, p: nat, vs: seq<uint32>, e: Endianness)
    requires p <= |out| && p % 4 == 0 && out[p..] == EmitWords(vs, e)
    ensures |out| == p + 4 * |vs| && |out| % 4 == 0
    ensures ReadWords(out[p..], e) == vs
  {
    WordMultiple(|out|, p, |vs|);
    ReadEmitWords(vs, e);
  }

  /** `p` bytes, a whole number of words, followed by `n` words. */
  lemma WordMultiple(len: nat, p: nat, n: nat)
    requires p % 4 == 0 && len == p + 4 * n
    ensures len % 4 == 0
  {
    assert len == 4 * (p / 4 + n);
  }

  /** Word `k` of a written sequence is the k-th value. */
  lemma {:induction false} EmitWordsAt(vs: seq<uint32>, e: Endianness, k: nat)
    requires k < |vs|
    ensures EmitWords(vs, e)[4 * k .. 4 * k + 4] == WordBytes(vs[k], e)
  {
    var w := WordBytes(vs[0], e);
    var tail := EmitWords(vs[1..], e);
    assert EmitWords(vs, e) == w + tail;
    if k == 0 {
      SliceOfConcat(w, tail, 0, 4);
    } else {
      EmitWordsAt(vs[1..], e, k - 1);
      SliceOfConcat(w, tail, 4 * k, 4 * k + 4);
    }
  }

  /** A slice of `a + b` that lies inside `a` or inside `b`. */
  lemma SliceOfConcat(a: seq<byte>, b: seq<byte>, i: nat, j: nat)
    requires i <= j <= |a| + |b|
    requires j <= |a| || |a| <= i
    ensures j <= |a| ==> (a + b)[i..j] == a[i..j]
    ensures |a| <= i ==> (a + b)[i..j] == b[i - |a|..j - |a|]
  {
  }

  /** The UTF-32 byte order mark, U+FEFF written as one word:
      `FF FE 00 00` little-endian and `00 00 FE FF` big-endian. */
  function Utf32Bom(e: Endianness): (r: seq<byte>)
    ensures r == WordBytes(0xFEFF, e)
  {
    match e
    case LittleEndian => [0xFF, 0xFE, 0x00, 0x00]
    case BigEndian => [0x00, 0x00, 0xFE, 0xFF]
  }
}
