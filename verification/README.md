# utfcoder in Dafny

A model of the conversion core of utfcoder, a small command-line transcoder
between UTF-8, UTF-16 and UTF-32. The model covers:

- `utils`: the scalar-value test `IsValidUnicodeRange` and the per-charset
  replacement value `GenerateUnknownCharacter`;
- `utf32`: UTF-32 to UTF-8. The byte order is sniffed from a BOM or from the
  bytes themselves. Each 4-byte unit is repacked in place into UTF-8 and its
  non-zero bytes are emitted;
- `utf8`: UTF-8 to UTF-32. The decoder is lenient: it reads a multi-byte
  sequence from its lead byte alone;
- `utf16`: UTF-16 to UTF-32. Any unit whose high byte is D8..DF is combined
  with whatever unit follows it;
- `precheck`: the command-line checks, `isValidEncoding` and `RunPrechecks`;
- the seven encoding identifiers of `types`.

Go's `byte`, `uint16` and `uint32` are the bit-vector types `bv8`, `bv16` and
`bv32`, so the wrap-around of Go's fixed-width arithmetic is exact (for
example the `uint16` subtraction in the surrogate combination). Each converter
is a pure function from the input bytes, the `addBOM` flag and, for the utf8
and utf16 converters, the target encoding id to `Converted(output, err)`, Go's
`([]byte, error)` pair; the utf32 converter always targets UTF-8.

Two reference encoders give the converters something independent to be
checked against:

- `Rfc3629` is the UTF-8 table of section 3 of RFC 3629;
- `Rfc2781` is the UTF-16 pair arithmetic of section 2.1 of RFC 2781, with
  the byte serialization of its section 3.

The main properties proved are:

- the UTF-32 converter's output is exactly the RFC 3629 encoding of the
  repaired values it reads;
- each decoder gives back the scalar values of a reference encoding, in both
  byte orders and behind a BOM;
- every emitted word is a scalar value;
- the prechecks raise each diagnostic exactly when its check fails.

Files:

- `types.dfy` (module `Types`): bytes, words, byte orders, encoding ids and
  the result pair.
- `utils.dfy` (module `Utils`): validation, replacement, the target byte order
  and the emission loop.
- `rfc3629.dfy` and `rfc2781.dfy`: the reference encoders.
- `utf32.dfy`, `utf8.dfy` and `utf16.dfy`: the three converters.
- `precheck.dfy` (module `Precheck`): the command-line checks.

## Model

| member | source | states |
|---|---|---|
| Types.EncodingNamed | types/types.go:10-18 | A name finds an identifier only when that identifier is spelled exactly so; when it finds none, no identifier is spelled that way |
| Types.NameInjective | types/types.go:10-18 | No two of the seven identifiers share a spelling |
| Utils.IsValidUnicodeRange | utils/utils.go:19-31 | True exactly for U+0000..U+D7FF and U+E000..U+10FFFF, the Unicode scalar values |
| Utils.GenerateUnknownCharacter | utils/utils.go:5-17 | "utf-8" gets the bytes `00 EF BF BD`, which are not a scalar value; every other id, known or not, gets U+FFFD, a scalar value |
| Utils.TargetByteOrder | utf8/utf8.go:14 | The target is big-endian exactly for "utf-32be" and "utf-32"; every other id is little-endian |
| Utils.Sanitize | utf8/utf8.go:48-50 | A scalar value is kept. Anything else becomes the target's replacement value, which is a scalar value for every target but "utf-8" |
| Utils.SanitizeAllValid | utf16/utf16.go:72-74 | Validation leaves a run of scalar values unchanged |
| Utils.EmitLoop | utf8/utf8.go:52-62 | The shift-and-take loop writes the first n bytes of the word in the target byte order |
| Utils.EmitSanitizedCons | utf16/utf16.go:72-86 | One validate-and-emit pass, followed by the words of the rest, is the words of the whole validated run |
| Utf32.GenerateGarbageCharacter | utf32/utf32.go:12-14 | The garbage array's non-zero bytes, highest first, are the RFC 3629 encoding of U+FFFD |
| Utf32.ScanForBigEndian | utf32/utf32.go:25-32 | The scan finds a hint exactly when some aligned unit has its fourth byte set or one of the top three bits of its third byte set |
| Utf32.CheckUTF32Endianness | utf32/utf32.go:17-36 | A BOM is reported exactly for `FF FE 00 00` (little-endian) and `00 00 FE FF` (big-endian). Without a BOM the order is big-endian exactly when some aligned unit hints at it |
| Utf32.IsValidUnicodeRange | utf32/utf32.go:38-50 | The byte-wise test agrees with the scalar-value test on the value the four bytes spell |
| Utf32.GetWordLength | utf32/utf32.go:52-62 | The byte-wise width is the RFC 3629 width of the value the bytes spell |
| Utf32.IsValidInput | utf32/utf32.go:64-66 | True exactly for a non-empty buffer that is a whole number of 4-byte units, with no trailing partial unit left unread in either byte order; `Utf32.ConvertToUTF8` errs exactly when it is false |
| Utf32.PackUTF8 | utf32/utf32.go:97-109 | For widths 2 to 4 the repacked array carries the lead and continuation tag bits of an RFC 3629 sequence of that width, and the bytes above the width are untouched; any other width leaves the array as it is. The values it emits are in `Utf32.Pack4`, `Utf32.Pack3` and `Utf32.Pack2` |
| Utf32.EmitNonZero | utf32/utf32.go:111-115 | The emission loop writes exactly the array's bytes from highest to lowest with every zero byte removed: never a zero byte, at most four |
| Utf32.Pack4 | utf32/utf32.go:97-101 | The four-byte repacking of U+10000..U+10FFFF emits its RFC 3629 encoding |
| Utf32.Pack3 | utf32/utf32.go:102-105 | The three-byte repacking of U+0800..U+FFFF emits its RFC 3629 encoding |
| Utf32.Pack2 | utf32/utf32.go:106-108 | The two-byte repacking of U+0080..U+07FF emits its RFC 3629 encoding |
| Utf32.EncodeUnit | utf32/utf32.go:93-115 | A valid non-zero unit comes out as its RFC 3629 encoding and an invalid one as `EF BF BD`. U+0000 comes out as nothing. No zero byte is ever written |
| Utf32.ConvertUnits | utf32/utf32.go:84-116 | The unit loop never writes a zero byte |
| Utf32.ConvertToUTF8 | utf32/utf32.go:68-126 | There is an error exactly when the input is empty or not a whole number of units, and then no output. Otherwise the output starts with `EF BB BF` when the BOM is asked for, and it holds no zero byte |
| Utf32.Repair | utf32/utf32.go:93-115 | The repaired run holds only non-zero scalar values and is no longer than the input run |
| Utf32.RepairKeepsScalars | utf32/utf32.go:93-115 | Repair leaves a run of non-zero scalar values unchanged |
| Utf32.ConvertUnitsEncodes | utf32/utf32.go:84-116 | The unit loop's output is the RFC 3629 encoding of the repaired values of the units |
| Utf32.ConvertToUTF8Encodes | utf32/utf32.go:68-126 | An accepted input converts to the optional UTF-8 BOM, then the RFC 3629 encoding of the repaired values after the UTF-32 BOM, read in the sniffed order |
| Utf32.LittleEndianSniffed | utf32/utf32.go:24-35 | Little-endian scalar values never hint at big-endian order. An unmarked run not starting with U+FEFF is sniffed as little-endian without a BOM |
| Utf32.LittleEndianToUTF8 | utf32/utf32.go:68-126 | Round trip: the little-endian words of non-zero scalar values not starting with U+FEFF convert to exactly their RFC 3629 encoding |
| Utf32.MarkedToUTF8 | utf32/utf32.go:75-82 | Behind a UTF-32 BOM in either order, the words of non-zero scalar values convert to their RFC 3629 encoding; the BOM contributes nothing |
| Utf32.NulUnitDropped | utf32/utf32.go:111-115 | `00 00 00 00` converts to no output as written, although U+0000 is the byte `00`; with the correction it converts to `00` |
| Utf32.EncodeUnitCorrected | utf32/utf32.go:93-115 | With emission by width, every scalar value, U+0000 included, comes out as its RFC 3629 encoding; anything else comes out as `EF BF BD` |
| Utf32.ConvertToUTF8Corrected | utf32/utf32.go:68-126 | The corrected conversion has the same error cases as the original: an error, and no output, exactly for an empty input or one that is not a whole number of units |
| Utf32.ConvertToUTF8CorrectedEncodes | utf32/utf32.go:68-126 | The corrected conversion is the RFC 3629 encoding of the units' values with only the invalid ones replaced |
| Utf32.LittleEndianToUTF8Corrected | utf32/utf32.go:68-126 | Round trip for the corrected conversion: the little-endian words of any scalar values, U+0000 included and not starting with U+FEFF, convert to their RFC 3629 encoding |
| Utf8.DecodeStep | utf8/utf8.go:35-46 | A lead announcing 2 to 4 bytes consumes that many when they are there. Any other byte, or a lead cut short by the end, stands for itself and consumes one byte. The value is at most 21 bits |
| Utf8.DecodeStepLenient | utf8/utf8.go:35-46 | For any bytes after a 2-, 3- or 4-byte lead, the value is the lead's payload bits followed by the low six bits of each following byte, continuation byte or not |
| Utf8.LenientExample | utf8/utf8.go:41-43 | `C3 41` reads as the single value 0xC1 and consumes both bytes |
| Utf8.DecodeStepEncode | utf8/utf8.go:35-46 | The step reads an RFC 3629 encoding back as its value and consumes exactly its bytes, whatever follows |
| Utf8.Decode | utf8/utf8.go:32-47 | One value per step: at least one per four bytes and at most one per byte. `Utf8.DecodeEncodeSeq` shows it inverts the RFC 3629 encoder |
| Utf8.ConvertLoop | utf8/utf8.go:32-63 | The loop writes one 4-byte word per decoded value; `Utf8.ConvertLoopWords` gives the words |
| Utf8.DecodeEncodeSeq | utf8/utf8.go:32-47 | Decoding the RFC 3629 encoding of a run of scalar values gives the run back |
| Utf8.SkipBom | utf8/utf8.go:16-20 | Three bytes are skipped exactly when the input starts with `EF BB BF`; otherwise none are |
| Utf8.ConvertLoopWords | utf8/utf8.go:32-63 | The loop writes the validated decoded values as 4-byte words in the target order |
| Utf8.ConvertToUTF32 | utf8/utf8.go:9-68 | The error is always nil. The output starts with the target-order UTF-32 BOM when asked, and the rest is the words of the validated values decoded after the UTF-8 BOM |
| Utf8.ConvertToUTF32Words | utf8/utf8.go:9-68 | The output is a whole number of words, one per decoded value after the optional BOM. Read back in the target order, they are the validated values |
| Utf8.ConvertToUTF32Scalars | utf8/utf8.go:48-50 | For every target but "utf-8", every output word read in the target order is a scalar value |
| Utf8.EncodedToUTF32 | utf8/utf8.go:9-68 | Round trip: the RFC 3629 encoding of scalar values not starting with U+FEFF converts to exactly those values as target-order words |
| Utf8.MarkedToUTF32 | utf8/utf8.go:16-20 | Behind a UTF-8 BOM, the encoding of any run of scalar values converts to those values; the BOM contributes nothing |
| Utf16.DetectSourceOrder | utf16/utf16.go:18-33 | `FF FE` means little-endian and `FE FF` big-endian, and either is skipped. Anything else, including an input shorter than two bytes, is big-endian with nothing skipped |
| Utf16.Combine | utf16/utf16.go:50-54 | The pair arithmetic with `uint16` wrap-around: never below 0x10000, the lead minus 0xD800 sits above bit 10 and the second unit's low ten bits below it, whatever the second unit is. `Utf16.CombineHigh`, `Utf16.CombineLow` and `Utf16.CombineSurrogates` give the value by lead kind |
| Utf16.HighByteOfUnit | utf16/utf16.go:49-60 | The byte the loop tests is D8..DF exactly when the unit is a surrogate |
| Utf16.DecodeStep | utf16/utf16.go:48-70 | One step consumes one unit, giving a value up to 0xFFFF, or two units when there are two, giving a value from 0x10000 up. `Utf16.DecodeStepUnits` says which |
| Utf16.DecodeStepUnits | utf16/utf16.go:48-70 | A surrogate with a unit after it is combined with that unit, whatever it is; anything else is one unit standing for itself |
| Utf16.CombineHigh | utf16/utf16.go:50-54 | A high-surrogate lead gives the scalar value whose RFC 2781 pair is the lead and the second unit's low ten bits: the second unit is never checked |
| Utf16.CombineLow | utf16/utf16.go:50-54 | A low-surrogate lead gives a value in 0x110000..0x20FFFF, above U+10FFFF, so validation replaces it |
| Utf16.CombineSurrogates | utf16/utf16.go:50-54 | Combining the RFC 2781 pair of a supplementary value gives back the value |
| Utf16.ConvertLoopWords | utf16/utf16.go:45-87 | The loop writes the validated decoded values as 4-byte words in the target order |
| Utf16.Decode | utf16/utf16.go:45-70 | At most one value per unit and at least one per two units, while a whole unit remains. `Utf16.DecodeEncodeSeq` shows it inverts the RFC 2781 encoder |
| Utf16.ConvertLoop | utf16/utf16.go:45-87 | The loop writes one 4-byte word per decoded value; `Utf16.ConvertLoopWords` gives the words |
| Utf16.ConvertToUTF32 | utf16/utf16.go:9-92 | The error is always nil. The output starts with the target-order UTF-32 BOM when asked, and the rest is the words of the validated values decoded after the UTF-16 BOM in the detected order |
| Utf16.ConvertToUTF32Words | utf16/utf16.go:9-92 | The output is a whole number of words, one per decoded value. Read back in the target order, they are the validated values |
| Utf16.ConvertToUTF32Scalars | utf16/utf16.go:72-74 | For every target but "utf-8", every output word read in the target order is a scalar value |
| Utf16.TrailingByteIgnored | utf16/utf16.go:45 | A trailing odd byte changes nothing in the decoded values |
| Utf16.DecodeStepEncode | utf16/utf16.go:48-70 | The step reads an RFC 2781 encoding back as its value and consumes exactly its bytes |
| Utf16.DecodeEncodeSeq | utf16/utf16.go:45-70 | Decoding the RFC 2781 encoding of a run of scalar values, in either byte order, gives the run back |
| Utf16.EncodedToUTF32 | utf16/utf16.go:9-92 | Round trip: big-endian UTF-16 without a BOM, not starting with U+FEFF or U+FFFE, converts to exactly its values as target-order words |
| Utf16.MarkedToUTF32 | utf16/utf16.go:20-33 | Behind a UTF-16 BOM in either order, the encoding of any run of scalar values in that order converts to those values |
| Utf16.UnpairedLeadSwallowsNext | utf16/utf16.go:49-55 | As written, `D8 00 00 41` converts to U+10041 and `DC 00 00 41` to U+FFFD; the "A" is lost in both |
| Utf16.ConvertToUTF32Strict | utf16/utf16.go:9-92 | With surrogates paired as RFC 2781 says: no error, the target-order BOM under `addBOM`, then a whole number of words, one per value of the strict decoder, that read back in the target order as those values validated (their meaning is in `Utf16.DecodeStrictEncodeSeq`, `Utf16.UnpairedStandsAlone` and `Utf16.UnpairedLeadReplacedStrict`) |
| Utf16.UnpairedStandsAlone | utf16/utf16.go:49-55 | In the corrected decoder an unpaired surrogate is one value, which validation replaces, and the next unit is decoded on its own |
| Utf16.DecodeStrictEncodeSeq | utf16/utf16.go:45-70 | The corrected decoder also gives back every run of scalar values from its RFC 2781 encoding |
| Utf16.UnpairedLeadReplacedStrict | utf16/utf16.go:49-55 | With the correction, `D8 00 00 41` and `DC 00 00 41` both convert to U+FFFD followed by "A" |
| Precheck.AllListed | main.go:22 | Every encoding identifier is in the list of valid encodings |
| Precheck.Listed | precheck.go:8-13 | The linear search succeeds exactly when some list entry is spelled `name` |
| Precheck.IsValidEncoding | precheck.go:7-14 | A name is valid exactly when it is some identifier's spelling |
| Precheck.ValidIffNamed | precheck.go:7-14 | The list search agrees with looking the identifier up by name |
| Precheck.EmptyNameInvalid | precheck.go:21-25 | The empty name is never valid, so the length tests add nothing to the list search |
| Precheck.RunPrechecks | precheck.go:16-32 | The diagnostics come out in the order of the four checks, each at most once |
| Precheck.PrecheckDiagnostics | precheck.go:16-32 | Each diagnostic is raised exactly when its check fails. The same-encoding diagnostic names the two encodings |
| Precheck.PrechecksPass | precheck.go:16-32 | Nothing is raised exactly when a source file is named and the source and target are two different known encodings |
| Precheck.FirstFatal | precheck.go:16-32 | The program stops with a message exactly when some check fails, and the message is that of the first failing check in the order missing file name, unknown source encoding, unknown target encoding, same encodings |
| Precheck.SameEncodingMessage | precheck.go:29-31 | The same-encoding items, joined with spaces, read "incorrect source/target encoding provided. cannot encode X again to Y" |
| Precheck.PrecheckScenarios | precheck_test.go:12-71 | Each of the four test scenarios raises exactly its own diagnostic |

## Left out

- The file I/O, flag parsing and routing of `main.go`, the `logger` package
  and `scraper.js` are not part of this model. `logger.Log` calls are side
  effects with no bearing on the output and are dropped.
- `strings.ToLower` on the `-from` and `-to` flags is not modelled: the
  prechecks take the names as already lowered.
- `ConvertToUTF16` of the utf32 and utf8 packages and `ConvertToUTF8` of the
  utf16 package are not part of this model; their source is not among the
  modelled files.
- The `-addbom` flag that `utf32.go` reads as a package global is the
  parameter `addBOM` of `Utf32.ConvertToUTF8`. `main.go` registers its own
  `-bom` flag and passes it as a second argument to the one-argument
  `UTF32.ConvertToUTF8` (main.go:49 against utf32.go:68), so that call does not
  compile as written; had it compiled, the UTF-32 path would read only
  `-addbom`. The parameter covers both readings.
- Precheck.RunPrechecks: `fatal` ends the process, so in the program only the
  first failing check is reported. The model returns every failing check
  (what the tests see with `fatal` replaced); `Precheck.FirstFatal` gives what
  the program reports.
- Utf32.LittleEndianToUTF8: the round trip is stated for little-endian input
  only. Unmarked big-endian input is sniffed correctly only when some unit
  hints at it. Big-endian round trips are stated behind a BOM
  (`Utf32.MarkedToUTF8`).
- Utf16.EncodedToUTF32: runs whose first value is U+FEFF or U+FFFE are
  excluded. Unmarked big-endian U+FEFF is `FE FF`, which is skipped as the
  big-endian BOM, and U+FFFE is `FF FE`, which reads as the little-endian BOM.
- Utf8.EncodedToUTF32: a run whose first value is U+FEFF is excluded, since
  its encoding is the UTF-8 BOM, which is skipped.
- Utf8.ConvertToUTF32Scalars: the target "utf-8" is excluded, since its
  replacement value 0xEFBFBD is not a scalar value; `main.go` only hands
  UTF-32 targets to these converters.
- Utf16.ConvertToUTF32Scalars: the target "utf-8" is excluded, for the same
  reason.

## Findings

| source | as written | input that shows it | evidently intended | confidence | as-written member | corrected member |
|---|---|---|---|---|---|---|
| utf32/utf32.go:111-115 | The emission loop skips every zero byte, so U+0000, whose one UTF-8 byte is `00`, produces no output | `00 00 00 00` converts to empty output instead of `00` | emit the `wordLength` low bytes of the packed array, so every scalar value keeps its RFC 3629 encoding | not executed | Utf32.NulUnitDropped | Utf32.LittleEndianToUTF8Corrected |
| utf16/utf16.go:49-55 | Any unit whose high byte is D8..DF is combined with the next unit, without checking that the lead is a high surrogate or the next unit a low one | big-endian `D8 00 00 41` converts to U+10041 and `DC 00 00 41` to a single U+FFFD; the "A" is lost both times | pair a high surrogate only with a following low surrogate; an unpaired surrogate becomes U+FFFD and the next unit is decoded on its own | not executed | Utf16.UnpairedLeadSwallowsNext | Utf16.UnpairedLeadReplacedStrict |
