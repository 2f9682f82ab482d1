# Dotted-decimal engine ID to hex, in Dafny

This project models the SNMP engine ID converter in `src/main.rs`.

`convert_objid_dotted_decimal_to_hex` takes an engine ID written as a
dotted-decimal object identifier, such as `1.3.6.1.4.1.29240.1.1.3.5.15`. It
returns the identifier's BER content octets as lowercase hex text, with one
length field in front. The function works in four steps:

- It splits the input on `.`. Fewer than two parts give the empty string.
- Part 0 emits nothing by itself. Part 1 emits the folded first octet
  `part0 * 40 + part1`, as in section 8.19.4 of ITU-T X.690.
- Every later part emits its base-128 subidentifier, as in section 8.19.2 of
  X.690. Bit 8 is set on every octet except the last, and the most
  significant group comes first. A part longer than 19 bytes is skipped
  without stopping the loop.
- Every emitted value is rendered with `{:02x}`. The rendering of
  `hex.len() / 2` is then put in front of the text.

The command line's rule for telling the three input forms apart is modelled
too.

The project has these modules:

- `RustStr` holds `str::split`, `str::len` and `u64::from_str`.
- `HexFormat` holds `{:02x}` and a reader of hex text.
- `Subidentifier` holds one arc's base-128 encoding, its decoding, and the
  canonical form.
- `OidCodec` holds a whole OID's content octets and a decoder for them.
- `EngineId` holds the converter. It has two layers of pure specification,
  `ReadParts` and then `Payload`/`EngineIdHex`. It also has methods that build
  the hex text the way the source does: appending in the `for` loop,
  prepending in the `while` loop, then prepending the length field.
- `EngineIdDecoding` decodes the converter's output. The source has no
  decoder; this one exists only to state the round trips.
- `Cli` holds the input classifier in `main`.

In the table below, the first rows give the definitions that model the
program's computations and what each computes. A method's row states what its
`ensures` ties the method to. The lemma rows state the properties of the
specification functions.

## Model

| member | source | states |
|---|---|---|
| EngineId.DottedToHex | src/main.rs:11-55 | The converter's result as a function of its input: the text is split on `.`, each part is read, and the result is `EngineIdHex` of what was read. |
| EngineId.EngineIdHex | src/main.rs:13-54 | Fewer than two parts give the empty string. Otherwise the result is `{:02x}` of half the payload text's length, followed by the payload text. |
| EngineId.IsSkipped | src/main.rs:20-23 | A part is skipped when its UTF-8 byte length `part.len()` is above 19. |
| EngineId.ReadPart | src/main.rs:20-24 | What one part yields: whether it is skipped, and the value `parse::<u64>()` gives it (0 stands in where the parse fails). |
| EngineId.ReadParts | src/main.rs:18-24 | `ReadPart` applied to every part, in order. There is one entry per part. |
| EngineId.PartsDoNotPanic | src/main.rs:20-29 | The source completes on these parts. With two parts or more, every part that is not skipped parses as a `u64`. When part 1 is not skipped, part 0 parses too, even if part 0 was skipped, and `part0 * 40 + part1` stays below 2^64. |
| EngineId.ConvertDoesNotPanic | src/main.rs:12-29 | `PartsDoNotPanic` of the input split on `.`. |
| EngineId.FirstOctet | src/main.rs:27-29 | The value emitted at part 1: `part0 * 40 + part1`. |
| EngineId.PartOctets | src/main.rs:19-48 | The values part `i` hands to `{:02x}`. A skipped part and part 0 give none. Part 1 gives the first octet. A later part gives its subidentifier, which is its value alone when that is below 128. |
| EngineId.PayloadPrefix | src/main.rs:17-50 | The values emitted for the first `n` parts, in part order. |
| EngineId.Payload | src/main.rs:17-50 | The values emitted for all parts. |
| EngineId.PrependGroups | src/main.rs:38-46 | The text `largenum` holds when the `while value > 0` loop ends. It starts from the shifted value `rest` and from `acc`; each pass prepends `{:02x}` of `(rest & 0x7F)` with bit 8 set, then shifts `rest` right by 7. |
| EngineId.Emitted | src/main.rs:17-50 | The invariant of the `for` loop: after `i` passes, `hex` holds the renderings of the values the first `i` parts emit. |
| Subidentifier.EncodeArc | src/main.rs:31-47 | One arc's subidentifier. Below 128 it is the single value. Otherwise it is the groups of `v >> 7`, each with bit 8 set and the most significant first, followed by `v & 0x7F`. |
| Subidentifier.HighGroups | src/main.rs:39-46 | The octets the `while` loop prepends for a shifted value `w`, most significant first, each with bit 8 set. There are none for 0. |
| OidCodec.EncodeArcs | src/main.rs:31-47 | The subidentifiers of a sequence of arcs, concatenated in order. |
| HexFormat.Format02x | src/main.rs:29-51 | `format!("{:02x}", v)`: the lowercase base-16 digits of `v` without leading zeros, padded on the left with `0` to two digits and never truncated. |
| HexFormat.HexOf | src/main.rs:17-50 | The `{:02x}` renderings of a sequence of values, concatenated in order. This is what the `push_str` calls build up. |
| RustStr.Split | src/main.rs:12 | `split('.').collect()`: the maximal runs between separators, empty runs included. There is always at least one part, and no part contains the separator. |
| RustStr.Utf8Length | src/main.rs:20 | `str::len`: the number of bytes in the UTF-8 encoding, with 1 to 4 bytes per character. It is never less than the character count. |
| RustStr.ParseU64 | src/main.rs:24 | `parse::<u64>()`: an optional leading `+`, then one or more ASCII digits (leading zeros allowed) whose value is below 2^64. Anything else is `None`. |
| Cli.ClassifyInput | src/main.rs:66-79 | `main`'s choice of form: text containing `.` is dotted; otherwise text of 24 bytes is a serial number; anything else is taken as a hex engine ID. |
| EngineId.ConvertObjidDottedDecimalToHex | src/main.rs:11-55 | The method, which splits, loops over the parts and prepends the length, returns exactly the specification `DottedToHex` of its input. It applies whenever the source would not panic. |
| EngineId.PayloadHex | src/main.rs:17-50 | The `for` loop over all parts leaves in `hex` the `{:02x}` renderings of the whole payload, in order. |
| EngineId.PushPart | src/main.rs:18-49 | One pass of the `for` loop extends text holding the hex of parts `0..i-1` to text holding the hex of parts `0..i`. |
| EngineId.EmittedBounds | src/main.rs:17-50 | Before the first pass nothing has been emitted. After the pass over the last part, the text is the hex of the whole payload. |
| EngineId.PartHex | src/main.rs:19-49 | One part's text follows the source's branches: a skipped part or part 0 gives nothing, part 1 gives the folded first octet, and a later part gives its subidentifier. |
| EngineId.EncodeLargeArcHex | src/main.rs:33-47 | For `128 <= value < 2^64`, the `largenum` loop (low group first, then each shifted group with `0x80` prepended) yields the hex of `EncodeArc(value)`. |
| EngineId.PrependGroupsIsHexOf | src/main.rs:38-46 | Prepending `{:02x}` of the low seven bits of `rest` with bit 8 set while `rest >>= 7` is non-zero gives the hex of the high groups of `rest`, followed by what was already built. |
| EngineId.HexOfPartOctets | src/main.rs:25-48 | Branch by branch, part `i` appends nothing (skipped, or `i == 0`), `{:02x}` of `part0*40+part1` (`i == 1`), `{:02x}` of the value itself (a later part below 128), or the hex of its subidentifier. |
| EngineId.AppendPartHex | src/main.rs:29-47 | `push_str` of a part's text onto the text of the earlier parts gives the text of the parts up to and including it. |
| EngineId.ReadPartsAt | src/main.rs:19-24 | What is read from part `i` is skipped exactly when the part has more than 19 UTF-8 bytes, and otherwise holds the `u64` the part parses to. |
| EngineId.PayloadShape | src/main.rs:18-49 | The payload is the folded first octet (when part 1 is handled) followed by the subidentifiers of the handled later parts, in order. A skipped part contributes nothing and the parts after it still do. The first value is `part0*40+part1`. |
| EngineId.PayloadPrefixShape | src/main.rs:18-49 | The same decomposition holds after the first `n` parts, for every `n >= 2`. |
| EngineId.LaterArcsStep | src/main.rs:31-47 | A later part appends its subidentifier octets to the encoding of the earlier later arcs, or nothing when it is skipped. |
| EngineId.PayloadOctets | src/main.rs:29-47 | Every emitted value is an octet exactly when the first octet `part0*40+part1` is below 256 or is not emitted. |
| EngineId.LengthPrefix | src/main.rs:51-52 | When all values are octets, the output is `{:02x}` of the payload octet count followed by two digits per payload octet. When that count is also below 256, reading the output two digits at a time gives the count and then the payload. |
| EngineId.LengthPrefixedOctets | src/main.rs:51-52 | A length octet followed by the rendered payload octets has `2 + 2n` digits and reads back as `[n] + payload`. |
| EngineId.OutputIsLowerHex | src/main.rs:29-52 | For every input, the output is lowercase hex digits only. |
| EngineId.EmptyExactlyWithoutDot | src/main.rs:12-15 | The output is empty if and only if the input contains no `.`, which means fewer than two parts. |
| Subidentifier.EncodeArcShape | src/main.rs:31-47 | The encoding of one arc has at least one octet. Every octet but the last is in 128..255 (bit 8 set), and the last is `v & 0x7F`. It is a single octet exactly when `v < 128`, and a multi-octet encoding never starts with `0x80`. |
| Subidentifier.HighGroupsShape | src/main.rs:39-46 | The octets the `while` loop prepends all have bit 8 set. There are none exactly when the shifted value is 0, and the first is above `0x80`. |
| Subidentifier.EncodeArcIsGroups | src/main.rs:36-46 | The encoding of an arc is the groups of `v >> 7`, each with bit 8 set, followed by `v & 0x7F`. |
| Subidentifier.DecodeArcSnoc | src/main.rs:36-46 | Specification side, since the source has no decoder; it inverts the encoding at these lines. Decoding one more octet multiplies the value so far by 128 and adds the octet's low seven bits. |
| Subidentifier.DecodeHighGroups | src/main.rs:39-46 | Accumulating `acc*128 + (b & 0x7F)` over the groups the loop prepends recovers the shifted value. |
| Subidentifier.DecodeEncodeArc | src/main.rs:31-47 | Accumulating `acc*128 + (b & 0x7F)` over an arc's encoding recovers the arc. |
| Subidentifier.HighGroupsLength | src/main.rs:39-46 | The loop prepends `k` groups for a shifted value `w` with `128^(k-1) <= w < 128^k`, which is the least number of groups that can hold `w`. |
| Subidentifier.EncodeArcLength | src/main.rs:31-47 | An arc takes `n` octets with `v < 128^n`, and `128^(n-1) <= v` when `n > 1`. This is the minimal count, ⌈bitlen(v)/7⌉ for `v >= 128`. |
| Subidentifier.EncodeArcIsCanonical | src/main.rs:31-47 | Every arc's encoding is canonical: octets only, continuation bits on all but the last, and no leading `0x80`. |
| Subidentifier.DecodeArcPositive | src/main.rs:39-46 | Specification side, since the source has no decoder; it inverts the encoding at these lines. A group sequence whose first octet has non-zero low bits denotes a positive value. |
| Subidentifier.HighGroupsOfDecode | src/main.rs:39-46 | Specification side, since the source has no decoder; it inverts the encoding at these lines. A sequence of continuation octets without a leading `0x80` is exactly the groups the loop prepends for the value it denotes. |
| Subidentifier.EncodeDecodeArc | src/main.rs:31-47 | Every canonical subidentifier is the encoding of the value it decodes to, so the encoding is onto the canonical forms. |
| OidCodec.UnfoldFold | src/main.rs:27-29 | When `part0 <= 1 && part1 < 40`, or `part0 == 2 && part1 < 176`, the folded octet is below 256 and unfolds back to the two arcs. |
| OidCodec.EncodeArcsSnoc | src/main.rs:31-47 | Encoding one more arc appends its subidentifier. |
| OidCodec.EncodeArcsAreOctets | src/main.rs:31-47 | Every octet of the later arcs' encoding is below 256, whatever the arcs. |
| OidCodec.SubidentifierEndIsFirstFinal | src/main.rs:31-47 | Specification side, since the source has no decoder; it inverts the encoding at these lines. The end of the first subidentifier is the first octet with bit 8 clear. |
| OidCodec.SubidentifierEndOfEncoding | src/main.rs:31-47 | Specification side, since the source has no decoder; it inverts the encoding at these lines. In an arc's encoding followed by anything, the first subidentifier ends at the encoding's last octet. |
| OidCodec.DecodeEncodeArcs | src/main.rs:31-47 | Decoding the concatenated subidentifiers of any arcs gives the arcs back. |
| OidCodec.EncodeDecodeArcs | src/main.rs:31-47 | Every octet sequence the decoder accepts is the encoding of the arcs it decodes to. |
| OidCodec.OidRoundTrip | src/main.rs:25-47 | When the first two arcs fold into one octet, decoding the content octets gives all the arcs back. |
| OidCodec.OidReencode | src/main.rs:25-47 | Every content-octet sequence the decoder accepts is the encoding of what it decodes to. |
| HexFormat.Format02xLength | src/main.rs:29-51 | `{:02x}` yields at least two digits, and exactly two when the value is below 256. A first octet or length of 256 or more gets three or more digits. |
| HexFormat.Format02xValue | src/main.rs:29-51 | `{:02x}` writes lowercase digits that denote the value exactly. |
| HexFormat.Format02xOfPair | src/main.rs:29-51 | Any two lowercase hex digits are the `{:02x}` rendering of the value below 256 that they denote. |
| HexFormat.HexOfAppend | src/main.rs:29-47 | The rendering of concatenated values is the concatenation of their renderings. |
| HexFormat.HexOfLength | src/main.rs:51 | When every value is an octet, the text has exactly two digits per value, so `hex.len() / 2` counts the values. |
| HexFormat.HexOfIsLowerHex | src/main.rs:29-47 | The rendering of any values contains lowercase hex digits only. |
| HexFormat.HexToBytesOfHexOf | src/main.rs:29-51 | Reading back the rendering of octets, two digits at a time, gives the octets. |
| HexFormat.HexOfHexToBytes | src/main.rs:29-51 | Text that reads as octets is their rendering, so the reading is injective. |
| RustStr.JoinSplit | src/main.rs:12 | `split('.')` loses nothing: joining the parts with `.` gives the input back. |
| RustStr.SplitJoin | src/main.rs:12 | Splitting a `.`-join of `.`-free parts gives those parts. |
| RustStr.SplitHasTwoParts | src/main.rs:12-13 | The split has two parts or more exactly when the input contains `.`. |
| RustStr.Utf8LengthOfAscii | src/main.rs:20 | For ASCII text, `len()` in bytes equals the number of characters. |
| RustStr.NineteenDigitsParse | src/main.rs:19-24 | A string of 1 to 19 decimal digits is never skipped, and `parse::<u64>()` never fails on it: it yields the digits' value. |
| RustStr.DecimalStringValue | src/main.rs:24 | The decimal digits of a number denote that number. |
| RustStr.ParseDecimalString | src/main.rs:24 | `parse::<u64>()` of a `u64`'s decimal rendering gives the value back. |
| EngineIdDecoding.PayloadIsEncodeOid | src/main.rs:18-49 | When no part is skipped, the payload is the content-octet encoding of the parsed arcs. |
| EngineIdDecoding.EngineIdRoundTrip | src/main.rs:11-55 | When part 1 is handled, the first two arcs fold into one octet and the payload has fewer than 256 octets, decoding the output gives the arcs of the handled parts. |
| EngineIdDecoding.DottedRoundTrip | src/main.rs:11-55 | When no part is skipped and the same conditions hold, decoding the output gives one arc per part, each equal to what the part parses to. |
| EngineIdDecoding.DecodedIsLengthPrefixed | src/main.rs:51-52 | Everything the decoder accepts is a length field holding the number of content octets, followed by those octets. |
| EngineIdDecoding.EngineIdReencode | src/main.rs:11-55 | Every engine ID the decoder accepts whose arcs are below 10^19 is what the converter returns for those arcs written in decimal, and the converter does not panic on that text. |
| EngineIdDecoding.SplitDotted | src/main.rs:12 | Splitting arcs written in decimal and joined with `.` gives each arc's decimal string. |
| EngineIdDecoding.ReadDecimalStrings | src/main.rs:19-24 | Arcs below 10^19, written in decimal, are all handled and read back as themselves. |
| EngineIdDecoding.DecimalStringsDoNotPanic | src/main.rs:24-28 | The converter does not panic on such text when the first two arcs fold into one octet. |
| Cli.ClassifyDottedExactly | src/main.rs:66-69 | An argument is taken as dotted exactly when it has two parts or more, which is exactly when the converter returns non-empty text. |
| Cli.ClassifyConverterOutput | src/main.rs:66-79 | The converter's output is never taken as dotted. It is taken as a serial number exactly when it is 24 digits long. |
| Cli.LowerHexUtf8Length | src/main.rs:73 | For lowercase hex text, `len()` equals the number of digits. |

## Left out

- `main`'s I/O is not modelled: `env::args` and the printing of the results (src/main.rs:58-85). The format test in `main` is kept as `Cli.ClassifyInput`.
- The `println!("Unhandled part: …")` side effect (src/main.rs:21) is not modelled. The part is simply skipped.
- Panics and wrap-around are not modelled. A failing `unwrap` on a part that does not parse (src/main.rs:24, 28) is excluded by the precondition `ConvertDoesNotPanic`. So is an overflow of `part0 * 40 + value` (src/main.rs:29). With overflow checks on (a debug build), that overflow panics. Without them (a release build), the sum wraps modulo 2^64 and the program returns text; for example, `461168601842738791.0` gives `0118`. The precondition rules out both. Because of it, no `u64` arithmetic in the converter wraps.
- `PartInfo` stores 0 for a part that does not parse. The precondition keeps that stand-in from reaching the output.
- `u64::from_str` is modelled as the standard library defines it: an optional leading `+` and one or more digits, leading zeros allowed. The `+` sign and leading zeros mean an accepted part is not always the decimal rendering of its value.
- `value & 0x7F` and `value >> 7` are written as `value % 128` and `value / 128`. These are equal for the non-negative values involved.
- Hex-to-dotted conversion and serial-number extraction or injection do not exist in the source: only comments and empty branches (src/main.rs:70-71, 75, 78) mention them. `EngineIdDecoding.DecodeEngineId` and `OidCodec.DecodeOid` are specification-side decoders. They serve only to state the round trips and stand for no code of the program.
- The sample dotted engine ID in the source's header comment (src/main.rs:6-7) ends with a 29-digit arc. The code does not produce the sample hex ID for it: that part is longer than 19 bytes, so the code skips it. The model follows the code.
- The sample hex ID is written in uppercase, but the code's `{:02x}` emits lowercase. The model follows the code.
- The first-arc rule of X.690 (arc 0 in 0..2, arc 1 below 40 unless arc 0 is 2) is not enforced by the converter, and the model does not add it. The converter does not require `OidCodec.FoldsIntoOneOctet`. It is a hypothesis of the round-trip lemmas and a conclusion of the decoder's lemmas (`UnfoldFirstOctet`, `OidReencode`, `DecodedIsLengthPrefixed`).
- EngineIdDecoding.EngineIdRoundTrip: applies only when part 1 is handled, the first octet folds as X.690 requires, and the payload has fewer than 256 octets. Outside those cases the output is not a well-formed length-prefixed identifier: the first octet or the length takes three hex digits, or the first two arcs cannot be recovered.
- EngineIdDecoding.DottedRoundTrip: additionally requires that no part is skipped, because a skipped part leaves no trace in the output.
- EngineIdDecoding.EngineIdReencode: covers arcs below 10^19 only. A longer arc has a decimal string of more than 19 bytes, which the converter skips.
- The `for` loop body is written as the methods `EngineId.PushPart` and `EngineId.PartHex`. The `while` loop stays inside `EngineId.EncodeLargeArcHex`.
- The model includes no concrete input/output examples. The properties are stated for all inputs.
