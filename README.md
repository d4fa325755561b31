# polybar cairo text path, in Dafny

This project models the part of polybar's cairo renderer that turns a text
block into glyph runs:

- **UTF-8 codec.** `utf8_to_ucs4` turns a NUL-terminated byte string into
  records of (codepoint, byte offset, byte length). `ucs4_to_utf8` encodes one
  codepoint into a caller's buffer. Both are in module `Utf8`.
- **Font.** `font::match` counts the leading characters that have a glyph in a
  font. `font::render` shapes the text, counts the bytes of the leading glyphs
  that exist, and shows that prefix at the pen. This is module `Fonts`, with
  class `Font`.
- **Phase A and Phase B of the textblock operator** (module `CairoContext`,
  with class `Context`; Phase B is in module `CairoDraw`).
  - Phase A filters the characters. A leading run that some font covers is
    passed over. A front character that no font covers is cut out of the text
    and logged, and the offsets of the characters after it are moved left.
  - Phase B draws. It makes passes over the font list, and each font draws
    the prefix it can shape. It stops when the text is used up, or when a
    whole pass draws nothing; that remaining text is logged as dropped.
  - Font registration appends to the cascade.
- **Colour helpers** (module `ColorUtil`). These are the channel extractors
  for `uint8_t` and `uint16_t`, `premultiply_alpha`, `parse_hex`, `parse` and
  `simplify_hex`. A colour string is the sequence of the `std::string`'s
  bytes, so its lengths and indices count bytes, as the source's do.
- **Operator names** (module `CairoUtils`). `str2operator` maps an operator
  name to a cairo compositing operator, with a fallback.

FreeType and cairo are not modelled. Each `Font` carries three functions that
stand in for them:

- `charIndex` stands for `FT_Get_Char_Index`;
- `textToGlyphs` stands for `cairo_scaled_font_text_to_glyphs`, as a list of
  (glyph index, cluster byte count) pairs;
- `advance` is the pen advance after a run is shown.

The cairo drawing surface is a `Canvas`. It holds the pen's x position and the
runs shown so far. The logger is the `warnings` sequence of the `Context`.

Bit operations are written as arithmetic:

- a right shift by k is division by 2^k;
- a mask is `%`;
- `|` of fields that do not overlap is `+`.

A C string is a `seq<byte>`. Reading past its end gives the NUL terminator. A
null `src` is `None`.

Each step-by-step operation is a method proved against a specification function:

- `Utf8ToUcs4` against `Decode`;
- `Match` against `MatchCount`;
- `Render` against `ShapedBytes`;
- `DropUncovered` against `Filtered` and `DropWarnings`;
- `DrawRuns` against `Draw`;
- `ParseHex` against `Canonical`;
- `SimplifyHex` against `Shortest`;
- `Str2Operator` against `Resolve`.

The specification functions are then tied to independent reference
definitions. For example, `Filter` is shown to equal `Kept`, which keeps the
bytes of exactly the characters that some font covers.

## Model

| member | source | states |
|---|---|---|
| Utf8.Utf8ToUcs4 | include/cairo/font.hpp:34-70 | A missing source gives false and leaves the list alone. Otherwise the flag and the records appended to the list are those of the decoder `Decode`. |
| Utf8.LeadClasses | include/cairo/font.hpp:42-56 | A byte below 0x80 starts a 1-byte character, 110xxxxx a 2-byte one, 1110xxxx a 3-byte one and 11110xxx a 4-byte one. Every other byte (a continuation byte, or 11111xxx) is not a valid lead byte. Each direction holds. |
| Utf8.DecodeShape | include/cairo/font.hpp:38-69 | The records lie back to back from offset 0 inside the string. In each record, the first byte is not the NUL terminator, it announces at least the record's length, and the other bytes are continuation bytes inside the string. A record stops at its announced length or before a byte that does not continue it. Its codepoint is the lead byte's payload bits followed by six bits from each continuation byte, so an ASCII byte decodes to itself. Decoding succeeds exactly when it stops at the NUL terminator; a failure stops at an invalid lead byte and keeps the records read so far. |
| Utf8.ReadContinuationPayload | include/cairo/font.hpp:58-61 | The continuation loop's accumulator is the payload of the bytes it has taken: the lead bits followed by six bits from each continuation byte. |
| Utf8.DecodeWellFormed | include/cairo/font.hpp:39-67 | Every decoded record is 1 to 4 bytes long and has a codepoint of at most 21 bits. |
| Utf8.Encode | include/cairo/font.hpp:72-108 | The encoding takes 1, 2, 3, 4, 5 or 6 bytes according to the codepoint's range, and 0 bytes above 0x7FFFFFFF. |
| Utf8.Ucs4ToUtf8 | include/cairo/font.hpp:72-108 | Writes the encoding at the start of the buffer, leaves the rest of the buffer as it was, and returns the number of bytes written. |
| Utf8.EncodeNoNul | include/cairo/font.hpp:73-105 | A nonzero codepoint encodes without any NUL byte. |
| Utf8.DecodeEncode | include/cairo/font.hpp:34-108 | Round trip: every codepoint from 1 to 0x1FFFFF that is encoded and then decoded gives back exactly one record, with that codepoint, at offset 0, covering all the bytes, and decoding succeeds. |
| Utf8.DecodeRejectsLegacy | include/cairo/font.hpp:51-55 | The 5- and 6-byte forms that the encoder still writes (codepoints 0x200000 to 0x7FFFFFFF) are rejected by the decoder, which returns no record. |
| Fonts.Font.Match | include/cairo/font.hpp:162-175 | Returns `MatchCount`: the length of the longest prefix of the list whose characters all have a glyph in the font. |
| Fonts.MatchCount | include/cairo/font.hpp:165-172 | The count is at most the list length. Every character before it has a nonzero glyph index. The character at the count, if there is one, has glyph index 0. |
| Fonts.MatchCountUnique | include/cairo/font.hpp:165-172 | Any number with the three properties of `MatchCount` equals it, so the count is fully determined by them. |
| Fonts.Font.Render | include/cairo/font.hpp:211-249 | Returns the summed cluster bytes of the leading glyphs with a nonzero index. When that is 0, the canvas is untouched. Otherwise the first min(bytes, size) bytes are shown at the old pen position, and the pen moves by their advance. |
| Fonts.GlyphRun | include/cairo/font.hpp:232-238 | Every glyph before the count has a nonzero index, and the glyph at the count, if there is one, has index 0. |
| Fonts.GlyphRunUnique | include/cairo/font.hpp:232-238 | The leading run of nonzero glyphs is determined by those properties. |
| Fonts.SumBytesAppend | include/cairo/font.hpp:231-238 | Cluster byte counts add up over a concatenation. |
| Fonts.ShapedBytesFirstMissing | include/cairo/font.hpp:232-238 | When the first glyph is missing, `render` reports 0 bytes. |
| CairoDraw.DrawRuns | include/cairo/context.hpp:164-190 | The outer loop of Phase B. The canvas gains exactly the runs of `Draw`, the pen ends where `Draw` leaves it, and the text returned for logging is what `Draw` drops. |
| CairoDraw.DrawPass | include/cairo/context.hpp:166-183 | One pass over the fonts. Before each render the pen goes back to the base position, and after a successful render the base moves to the new pen position. The result is the runs, pen and remaining text of `PassFrom`. |
| CairoDraw.PassFrom | include/cairo/context.hpp:166-183 | A pass never lengthens the text. When it does not shorten it, the pass draws nothing and leaves the pen where it was. |
| CairoDraw.PassFlatten | include/cairo/context.hpp:166-183 | The bytes of a pass's runs, followed by the text left after it, are the text the pass started with. |
| CairoDraw.PassChain | include/cairo/context.hpp:166-183 | Each run of a pass starts where the previous one left the pen. Every run is non-empty and is drawn by a font of the cascade. |
| CairoDraw.PassStuck | include/cairo/context.hpp:166-185 | A pass makes no progress exactly when no font in the cascade shapes a leading byte of the text. |
| CairoDraw.DrawFlatten | include/cairo/context.hpp:164-190 | Phase B loses and duplicates nothing: the bytes of the drawn runs, followed by the dropped text, are the input text. |
| CairoDraw.DrawChain | include/cairo/context.hpp:164-190 | The drawn runs chain from the starting pen position to the final one. The pen never moves left. Every run is non-empty and is drawn by a font of the cascade. |
| CairoDraw.DrawDropped | include/cairo/context.hpp:185-188 | Dropped text is never shaped by any font: Phase B gives up only when no font can start it. |
| CairoDraw.OneFontDrawsAll | include/cairo/context.hpp:164-190 | A single font that shapes the whole text draws it as one run from the pen and drops nothing. |
| CairoDraw.NoFontsDropAll | include/cairo/context.hpp:164-190 | With no fonts, nothing is drawn and the whole text is dropped. |
| CairoContext.DropUncovered | include/cairo/context.hpp:139-162 | Phase A leaves the text `Filtered` and logs `DropWarnings`, one warning per dropped character, in order. |
| CairoContext.MatchRound | include/cairo/context.hpp:141-150 | The first font in cascade order that matches at least one leading character has those characters erased from the list. If no font matches, the list is unchanged. |
| CairoContext.DropFront | include/cairo/context.hpp:152-161 | The drop branch. The front character's bytes are erased from the text. Every record moves left by its length, and the front record is erased. The warning names the character. |
| CairoContext.WarnChar | include/cairo/context.hpp:153-155 | The warning's glyph is what `%s` prints from the zeroed 5-byte buffer after `ucs4_to_utf8` fills it. |
| CairoContext.ShiftLeft | include/cairo/context.hpp:157-159 | Every record's offset goes down by the same amount, and nothing else changes. |
| CairoContext.CString | include/cairo/context.hpp:153-155 | `%s` prints the bytes before the first NUL. |
| CairoContext.FirstMatchCovers | include/cairo/context.hpp:141-152 | A round takes nothing exactly when no font has a glyph for the front character. Every character it takes is covered by some font. |
| CairoContext.FilterIsKept | include/cairo/context.hpp:139-162 | What Phase A keeps is exactly the bytes of the characters that some font covers, in order (`Kept`). |
| CairoContext.DropWarningsAreUncovered | include/cairo/context.hpp:152-161 | Phase A logs exactly one warning per character that no font covers, in order (`Uncovered`). |
| CairoContext.AllCoveredKeepsAll | include/cairo/context.hpp:139-162 | When every character is covered, the text is kept whole and nothing is logged. |
| CairoContext.NoFontsKeepNothing | include/cairo/context.hpp:139-162 | With no fonts, every character is cut and each one is logged. |
| CairoContext.CStringNoNul | include/cairo/context.hpp:153-155 | Bytes without a NUL print whole. |
| CairoContext.WarningGlyph | include/cairo/context.hpp:153-155 | For a nonzero codepoint, the printed glyph is its full 1- to 4-byte UTF-8 encoding, and it decodes back to that codepoint. |
| CairoContext.Chars | include/cairo/context.hpp:134-137 | The records decoded from the contents are well formed for that text. |
| CairoContext.TextPath | include/cairo/context.hpp:119-193 | The whole textblock path. The runs drawn, then the dropped text, are the bytes of the covered decoded characters, then the bytes the decoder did not reach. The characters logged by Phase A are exactly the uncovered ones. |
| CairoContext.DrawBlock | include/cairo/context.hpp:134-190 | Decode, Phase A, then Phase B. The canvas gains the runs of `Layout` and the pen ends at its x. The log is Phase A's warnings, followed by one for the dropped text when there is any. |
| CairoContext.Context.DrawText | include/cairo/context.hpp:119-193 | `operator<<(const textblock&)` on the context: as `DrawBlock`, over the registered fonts, with the warnings appended to the log. |
| CairoContext.Context.AddFont | include/cairo/context.hpp:195-198 | The font joins the end of the cascade, and nothing else changes. |
| ColorUtil.AlphaChannel | include/utils/color.hpp:11-18 | The 8-bit alpha channel is byte 3 of the value (`8 / 0xff` is 0, so the shift leaves the byte as it is). |
| ColorUtil.RedChannel | include/utils/color.hpp:20-27 | The 8-bit red channel is byte 2 of the value. |
| ColorUtil.GreenChannel | include/utils/color.hpp:29-36 | The 8-bit green channel is byte 1 of the value. |
| ColorUtil.BlueChannel | include/utils/color.hpp:38-45 | The 8-bit blue channel is byte 0 of the value. |
| ColorUtil.AlphaChannel16 | include/utils/color.hpp:11-18 | The 16-bit alpha channel is the 8-bit one times 257: the byte in both halves, so 0xff becomes 0xffff. |
| ColorUtil.RedChannel16 | include/utils/color.hpp:20-27 | The 16-bit red channel is the 8-bit one times 257. |
| ColorUtil.GreenChannel16 | include/utils/color.hpp:29-36 | The 16-bit green channel is the 8-bit one times 257. |
| ColorUtil.BlueChannel16 | include/utils/color.hpp:38-45 | The 16-bit blue channel is the 8-bit one times 257. |
| ColorUtil.ChannelsPack | include/utils/color.hpp:11-54 | Packing the four channels of a value gives the value back, and each channel of a packed value is the byte it was packed from. |
| ColorUtil.PackBytes | include/utils/color.hpp:53 | The shifted fields of the packed value do not overlap. |
| ColorUtil.PremultiplyAlpha | include/utils/color.hpp:47-54 | The result keeps the alpha byte of the value and is never greater than the value. |
| ColorUtil.PremultiplyBounds | include/utils/color.hpp:47-54 | Premultiplying keeps alpha. Each colour channel becomes channel × alpha / 255, which is never brighter than before. An opaque colour is unchanged, and a fully transparent one becomes 0. |
| ColorUtil.ParseHex | include/utils/color.hpp:75-85 | Returns `Canonical` of the input, counting bytes: after an optional leading `#` (the first byte of an empty string reads as NUL), 3 bytes are doubled and prefixed by `#ff`, 6 bytes are prefixed by `#ff`, 8 bytes by `#`, and any other count gives the empty string. |
| ColorUtil.CanonicalForms | include/utils/color.hpp:75-85 | The result is empty or a 9-byte string starting with `#`. It is non-empty exactly when the part after an optional `#` has 3, 6 or 8 bytes. A 9-byte `#` string is returned unchanged. |
| ColorUtil.CanonicalIdempotent | include/utils/color.hpp:75-85 | Parsing the parsed form again changes nothing. |
| ColorUtil.Parse | include/utils/color.hpp:87-91 | Returns the fallback when `parse_hex` gives the empty string. Otherwise returns the `strtoul` base-16 value of the digits after `#`, narrowed to 32 bits. |
| ColorUtil.ParseDigits | include/utils/color.hpp:87-91 | Eight hex digits `#aarrggbb` parse to the colour whose channels are those four byte pairs. |
| ColorUtil.StrToULDigits | include/utils/color.hpp:90 | `strtoul` reads eight hex digits as they stand, with no white space, sign or `0x` prefix to skip. |
| ColorUtil.HexRunColour | include/utils/color.hpp:90 | Eight hex digits, read as one base-16 number, are the four digit-pair bytes packed as alpha, red, green, blue. |
| ColorUtil.SimplifyHex | include/utils/color.hpp:93-107 | Returns `Shortest` of the input, counting bytes: a 9-byte string whose bytes 1 and 2 are `ff` loses them, and a 7-byte string whose three byte pairs repeat becomes `#` and one byte of each pair. |
| ColorUtil.ShortestRoundTrip | include/utils/color.hpp:75-107 | For a 9-byte `#` string, simplifying gives 4, 7 or 9 bytes, and `parse_hex` of the result gives the original string back. |
| ColorUtil.ShortestShape | include/utils/color.hpp:93-107 | Simplifying never lengthens a string. Strings of any length other than 7 or 9 are returned unchanged, and so is a 9-byte string whose alpha is not `ff`. |
| CairoUtils.FromNameName | include/cairo/utils.hpp:22-50 | Reading an operator's name (`FromName`, the table read name by name) gives that operator back. |
| CairoUtils.NameFromName | include/cairo/utils.hpp:22-50 | A string that reads as an operator is exactly that operator's name. |
| CairoUtils.NameInjective | include/cairo/utils.hpp:22-50 | No two operators share a name. |
| CairoUtils.AllListed | include/cairo/utils.hpp:22-50 | Every operator is inserted into the table. |
| CairoUtils.TableLookup | include/cairo/utils.hpp:21-51 | After a run of insertions, a name is a key exactly when its operator was inserted. It maps to that operator, and every key is the name of its value. |
| CairoUtils.FullTable | include/cairo/utils.hpp:21-51 | The filled table maps every one of the 29 names to its own operator, and has no other keys. |
| CairoUtils.OperatorTable.Fill | include/cairo/utils.hpp:21-51 | The one-time fill leaves the static map equal to the full table. |
| CairoUtils.OperatorTable.Str2Operator | include/cairo/utils.hpp:16-54 | The empty name returns the fallback and leaves the map alone. Otherwise the map is filled if it is still empty and left full. The result is `Resolve`, whichever call did the fill. |
| CairoUtils.ResolveByName | include/cairo/utils.hpp:16-53 | The lookup in the filled map agrees with reading the name: a name that stands for an operator gives that operator, and anything else, including the empty name, gives the fallback. |
| CairoUtils.ResolveNames | include/cairo/utils.hpp:22-53 | Each listed name resolves to its own operator, whatever the fallback. |
| CairoUtils.ResolveUnknown | include/cairo/utils.hpp:17-19 | The empty name, and any name not in the table, resolve to the fallback. |
| CairoUtils.ResolveInjective | include/cairo/utils.hpp:22-53 | Distinct operators' names resolve to distinct operators. |
| CairoUtils.Examples | include/cairo/utils.hpp:24-53 | "over" gives OVER and "xor" gives XOR. The empty name and "Over" (the match is case-sensitive) give the fallback. |

## Left out

- The font sort at the top of `operator<<(const textblock&)` (include/cairo/context.hpp:124-132) is not modelled. Its comparator returns an `int` that is used as a `bool`, so it is not a strict weak ordering. The model uses the fonts in registration order, and the text block's `fontindex` has no effect.
- The pen's y coordinate, the baseline move `height / 2 - descent + offset` in `render`, and all `double` geometry are not modelled. The pen is an integer x, and each run's advance is a natural number, so the pen only moves forward.
- `render` throws when shaping reports an error status. The model takes shaping to succeed.
- The font constructor (FreeType face and charmap selection, `size`, `name`, `file`) and the font destructor are not modelled. A font is given by its coverage, shaping and advance functions.
- `DrawBlock` ignores the `false` that `utf8_to_ucs4` returns on an invalid lead byte, as the source does. The records read so far are used, and the undecoded tail of the text goes to Phase B unfiltered.
- DecodeEncode: the round trip excludes codepoint 0. Its encoding is the NUL byte, which ends the C string.
- DrawBlock: the "Dropping unmatched characters: %s" warning carries all the dropped bytes. A NUL inside the contents would cut the printed text short, and that is not modelled.
- PremultiplyAlpha: `a << 24` is evaluated on a promoted `int`, which overflows for alpha values of 128 and above. The model takes the resulting bit pattern, which is what the `uint32_t` return receives on the usual two's-complement targets.
- Parse: `strtoul` is modelled without its overflow clamp to `ULONG_MAX`. The digit string it reads here is at most 8 bytes long, so it cannot overflow 64 bits.
- The channel templates fall off the end without a return for a type other than `uint8_t` or `uint16_t`. Only those two instantiations are modelled.
- `hex()` (include/utils/color.hpp:56-73) is not part of this model.
- Fill: the 29 insertions of the static map are modelled as a loop over the insertion list (`Operators`), in source order. `Name` gives each operator's string. The resulting map is the same.
- The logger's formatting and its levels are not modelled. A warning is a value holding what it prints.
