# RimWorld-Stego in Dafny

RimWorld-Stego hides a byte payload in a RimWorld save file in one of three ways:

- **Grass fields.** The payload goes into the fields of the PlantGrass and PlantTallGrass elements. Each element carries 70 bits: 18 in the number after the def name in its id, 6 in its health (stored plus 5), 26 in its growth (a fraction over 10^8) and 20 in its age. An element without an age carries only the first 50. The bit stream starts with a 22-bit count of the payload bits that follow.
- **Whitespace.** The payload becomes spaces (bit 0) and tabs (bit 1). One glyph is appended to each line of the pretty-printed document, and lines are joined by line feed then carriage return.
- **Decimal fractions.** Each payload byte `b` becomes the fraction `b/1000` of one floating-point value of the document. The first four such values hold the byte count, most significant byte first.

This project models the encoders and decoders of all three schemes and proves these properties:

- the schemes' round trips;
- the framing of the grass stream;
- the line layout of the whitespace scheme;
- the way `extract_tags` cuts a document into tokens.

Modules:

- `BitStream` (`bitstream.dfy`): bits as `seq<bool>`, plus the conversions `bin(x)[2:].zfill(w)` and `int(s, 2)` and the grouping of bits eight at a time.
- `Text` (`text.dfy`): Python's `str.split`, `str.join` and `''.join`.
- `WhitespaceCodec` (`whitespace.dfy`): the whitespace scheme and `extract_tags`.
- `GrassCodec` (`grass.dfy`): the grass scheme. A plant element is a class `Plant` whose fields `set_grass_bits` updates in place.
- `FractionalCodec` (`fractional.dfy`): the decimal-fraction scheme. The carriers are an `array<Number>` that `bytes_to_floats` updates in place.
- `Wrappers` (`wrappers.dfy`): `Option`, used where the program raises `IndexError`.

Each operation the program runs step by step is a method. Each method's `ensures` ties its result, or the new state, to a specification function. The properties are lemmas about those functions.

## Model

| member | source | states |
|---|---|---|
| BitStream.BytesToBits | rimworld_stego.py:99 | The payload bits are eight per byte. |
| BitStream.BytesToBitsAt | rimworld_stego.py:99 | Bits `8i .. 8i+8` of the stream spell byte `i` in 8 binary digits, most significant first, and read back as that byte. |
| BitStream.FromBitsBound | rimworld_stego.py:160 | `int(s, 2)` of `n` binary digits is below 2^n. |
| BitStream.ZeroFilled | rimworld_stego.py:130 | `bin(n)[2:].zfill(w)` has at least one digit and at least `w`. |
| BitStream.FromZeroFilled | rimworld_stego.py:130 | `int(bin(n)[2:].zfill(w), 2) == n` for every `n` and width, even when `n` is too wide for `w`. |
| BitStream.FieldWidth | rimworld_stego.py:130 | A value below 2^w zero-fills to exactly `w` digits. |
| BitStream.FieldRead | rimworld_stego.py:64-84 | A window holding the zero-filled digits of a value that fits reads back as that value. |
| BitStream.ZeroFilledFromBits | rimworld_stego.py:64 | Reading a non-empty bit string as a number and zero-filling it back to its width gives the same bits. |
| BitStream.ZerosTimes | rimworld_stego.py:174 | `'0' * n` has `n` characters when `n` is positive and none otherwise, and every one of them is a zero. |
| BitStream.Take | rimworld_stego.py:172 | The slice `s[:n]` has `min(n, len(s))` elements and is a prefix of `s`. |
| BitStream.GroupsShape | rimworld_stego.py:176-180 | Reading bits eight at a time gives one value per started group of eight, each below 256. |
| BitStream.Groups | rimworld_stego.py:176-180 | Reading `n` bits eight at a time gives `ceil(n/8)` values. |
| BitStream.GroupsAt | rimworld_stego.py:178-180 | Value `k` is bits `8k .. min(8k+8, n)` read as a binary number. |
| BitStream.GroupsOfBytes | rimworld_stego.py:176-180 | Grouping the bits of a byte list by eight gives the byte list back. |
| BitStream.FromBitsZeros | rimworld_stego.py:279-280 | Appending `m` zero bits multiplies a binary number by 2^m. |
| BitStream.PaddedLastGroup | rimworld_stego.py:279-286 | Padding a short last group of bits with zeros to a multiple of eight adds one group, whose value is the short group shifted left by the number of zeros added. |
| BitStream.Digits | rimworld_stego.py:160 | A text is a string of binary digits exactly when it holds no letter 'b'. The digits it gives spell the text back. |
| BitStream.FieldText | rimworld_stego.py:129-142 | `bin(n)[2:].zfill(w)` as text has at least `w` characters, for a negative `n` too. |
| BitStream.ParseBinary | rimworld_stego.py:160 | A value `int(t, 2)` reads from `n` characters is below 2^n. |
| BitStream.ParseBinaryAccepts | rimworld_stego.py:160 | `int(t, 2)` succeeds exactly on a non-empty string of digits, or on "0b" followed by one. An empty text, a lone "0b" and a 'b' anywhere else raise (`None`). |
| BitStream.ParseText | rimworld_stego.py:160 | A non-empty string of digits reads as its binary value. |
| BitStream.ParsePrefixedText | rimworld_stego.py:160 | Digits behind the prefix "0b" read as their binary value. |
| BitStream.ParseFieldText | rimworld_stego.py:130-142 | The zero-filled text of a value that fits its field width reads back as the value. |
| BitStream.ParseGroups | rimworld_stego.py:176-180 | Reading a text eight characters at a time gives one value per started group, each below 256, or `None`. |
| BitStream.ParseGroupsFrom | rimworld_stego.py:178-179 | From any position, the groups are the value of the next eight (or fewer) characters and then the groups after them. |
| BitStream.ParseGroupsText | rimworld_stego.py:176-180 | Reading a string of digits in groups gives the values of its bits in groups. |
| Text.Split | rimworld_stego.py:324 | `str.split` always gives at least one piece. |
| Text.JoinSplit | rimworld_stego.py:360 | Joining the pieces of a split with the same separator gives the text back. |
| Text.SplitAfter | rimworld_stego.py:306 | A line with no separator character, then the separator, then the rest, splits into that line followed by the pieces of the rest. |
| Text.SplitWhole | rimworld_stego.py:311 | A text without the separator's first character splits into itself alone. |
| Text.SplitJoined | rimworld_stego.py:309 | Lines joined by the separator, with one more separator after them, split back into the lines plus one empty piece. |
| WhitespaceCodec.BytesToWhitespace | rimworld_stego.py:255-265 | The result has eight glyphs per byte, each a space or a tab. |
| WhitespaceCodec.WhitespaceOfByte | rimworld_stego.py:263-264 | The glyphs of byte `i` spell its eight binary digits, most significant first, tab for 1, and read back as the byte. |
| WhitespaceCodec.GlyphBitsOfBytes | rimworld_stego.py:263-264 | Any slice of the glyphs reads back as the same slice of the payload bits. |
| WhitespaceCodec.DecodeGlyphs | rimworld_stego.py:268-288 | `whitespace_to_bytes` gives `ceil(n/8)` values for `n` glyphs. |
| WhitespaceCodec.DecodeGlyphsRange | rimworld_stego.py:279-288 | There are `ceil(n/8)` decoded values and each is below 256. |
| WhitespaceCodec.DecodeGlyphsFullGroup | rimworld_stego.py:284-287 | Every full group of eight glyphs decodes to its binary value, tab = 1. |
| WhitespaceCodec.DecodeGlyphsLastGroup | rimworld_stego.py:279-280 | A short last group is padded on the right with zeros, so its value is shifted left by the number of missing glyphs. |
| WhitespaceCodec.WhitespaceRoundTrip | rimworld_stego.py:255-288 | `whitespace_to_bytes(bytes_to_whitespace(p)) == p` for every byte list. |
| WhitespaceCodec.WhitespaceToBytes | rimworld_stego.py:268-288 | The padding and the byte loop compute exactly `DecodeGlyphs`. |
| WhitespaceCodec.GlyphBits | rimworld_stego.py:277 | One bit per character. On a space or a tab, the bit turns back into that glyph under the encoder's mapping. |
| WhitespaceCodec.IntersperseWhitespace | rimworld_stego.py:291-312 | The result is `Interspersed`. While both last, each line is followed by its glyph and "\n\r". Then come either the leftover lines, joined by "\n\r" and followed by one more, or the leftover glyphs alone. |
| WhitespaceCodec.ExtractWhitespace | rimworld_stego.py:315-347 | The result is `Extracted`. It takes the last glyph of each piece but the final one until a piece ends in something else. An empty piece raises IndexError (`None`). If no piece stops the scan, the whole final piece is appended. |
| WhitespaceCodec.ExtractInterspersed | rimworld_stego.py:291-347 | With cover lines that are non-empty, contain no line feed and do not end in a glyph, extracting from an interspersed text gives back exactly the glyphs. This holds both when lines are left over and when glyphs are. |
| WhitespaceCodec.WhitespaceSchemeRoundTrip | rimworld_stego.py:255-347 | Bytes written as whitespace into any such cover are extracted and decoded back unchanged. |
| WhitespaceCodec.ExtractPrinted | rimworld_stego.py:291-347 | The printed cover split on line feeds ends in an empty piece. With that piece, extraction gives back the glyphs unless there are exactly as many glyphs as real lines. In that case the empty piece is read before the last one and raises IndexError (`None`). |
| WhitespaceCodec.PrintedSchemeRoundTrip | rimworld_stego.py:255-347 | Bytes written into a printed cover come back as their glyphs, except when the cover has exactly eight lines per byte. Then the decoder raises. |
| WhitespaceCodec.ExtractTags | rimworld_stego.py:350-364 | There is one token per piece of the split on "><". |
| WhitespaceCodec.ExtractTagsTokens | rimworld_stego.py:360-363 | Token `k` is piece `k`, with '<' before it unless it is the first and '>' after it unless it is the last. |
| WhitespaceCodec.ConcatTokens | rimworld_stego.py:360-364 | Tokens built from pieces as `extract_tags` builds them concatenate to the pieces joined by "><". |
| WhitespaceCodec.ExtractTagsReconstructs | rimworld_stego.py:350-364 | Concatenating the tokens gives the text back. Every token but the first starts with '<', and every token but the last ends with '>'. |
| GrassCodec.GetBits | rimworld_stego.py:115-145 | Reading an element gives at least 70 bits, or 50 without an age. A value too wide for its field keeps all its digits. |
| GrassCodec.GetText | rimworld_stego.py:115-145 | The text read from an element has at least 70 characters, or 50 without an age, for any health. A health below 5 puts the letter 'b' of `bin` of a negative number into it. |
| GrassCodec.TextOfReadable | rimworld_stego.py:115-145 | For health ≥ 5 the text is exactly the digits of `GetBits`. |
| GrassCodec.SetGrass | rimworld_stego.py:61-84 | A written element keeps whether it has an age. Every field fits its width: id < 2^18, health in [5, 68], growth < 2^26, age < 2^20. |
| GrassCodec.Plant.SetGrassBits | rimworld_stego.py:47-85 | The element's new fields are `SetGrass` of its old fields at `bitIndex`. The returned cursor is `bitIndex` plus 70, or plus 50 without an age. |
| GrassCodec.GetAfterSet | rimworld_stego.py:115-145 | Reading back an element written from the bits at `i` gives exactly the 70 (or 50) bits there, zero-padded past the end of the stream. |
| GrassCodec.GetBitsLayout | rimworld_stego.py:126-145 | For an element whose fields fit, the bits are exactly 70 (or 50). Their 18-, 6-, 26- and 20-bit fields read back as id, health − 5, growth and age. |
| GrassCodec.GetBitsWindows | rimworld_stego.py:126-145 | For an element whose fields fit, the zero-filled id, health − 5, growth and age sit at bit offsets 0, 18, 24 and 50. |
| GrassCodec.SetAfterGet | rimworld_stego.py:115-145 | Writing the bits read from a fitting element back into it reproduces the element. |
| GrassCodec.CursorBounds | rimworld_stego.py:105-111 | After `k` elements the cursor is between 50k and 70k. |
| GrassCodec.CursorMonotone | rimworld_stego.py:107-111 | The cursor never decreases from one element to the next. |
| GrassCodec.FramedBits | rimworld_stego.py:99-103 | The framed stream has 22 + 8 × (payload length) bits. |
| GrassCodec.FramedParts | rimworld_stego.py:102-103 | The first 22 bits are the zero-filled `min(70 × elements − 22, 8 × payload length)`. The rest are the payload bits. |
| GrassCodec.ElementAfter | rimworld_stego.py:105-111 | An element keeps whether it has an age. One that the loop reaches with the cursor short of the bit count gets fields that fit their widths, with health ≥ 5. |
| GrassCodec.EncodeGrasses | rimworld_stego.py:88-112 | The encoding has one element per element. |
| GrassCodec.BytesToGrasses | rimworld_stego.py:88-112 | For distinct elements, the loop that breaks at the first cursor ≥ size + 22 leaves the fields equal to `EncodeGrasses` of the old fields. Each element reached short of that size gets the stream bits at its cursor. Every later element is untouched. |
| GrassCodec.WriteStream | rimworld_stego.py:105-111 | Starting from fields `gs`, the loop over distinct elements leaves every element holding what the plan `enc` gives it. |
| GrassCodec.WriteAt | rimworld_stego.py:111 | `set_grass_bits` on element `k` gives it `SetGrass` of its old fields at the cursor and moves the cursor on by its capacity. Every other element keeps its fields. |
| GrassCodec.PlannedAt | rimworld_stego.py:107-111 | In a plan, element `k` holds the stream bits at its cursor when the cursor is short of the bit count, and its old fields otherwise. |
| GrassCodec.WriteFromPlanned | rimworld_stego.py:105-111 | `WriteFrom` is a plan for the loop. |
| GrassCodec.PlannedRest | rimworld_stego.py:109-110 | Once the cursor reaches the bit count, the `break` leaves every later element as it was. |
| GrassCodec.TextUpTo | rimworld_stego.py:162-169 | The text of one or more elements has at least 50 characters. |
| GrassCodec.TextPrefix | rimworld_stego.py:164-170 | Reading more elements only appends text. |
| GrassCodec.ReadCount | rimworld_stego.py:164-170 | The loop stops after at least `k` elements and at most all of them. It stops either at the end of the list or once the text after the header has at least `num` characters. `num` counts the 22 header characters. |
| GrassCodec.ReadCountFrom | rimworld_stego.py:164-168 | When every shorter run of elements leaves less than `num` characters after the header, the loop reads at least `w` elements. |
| GrassCodec.DecodedText | rimworld_stego.py:158-172 | Decoding an empty list fails (`IndexError`, as `None`). |
| GrassCodec.Kept | rimworld_stego.py:172 | The slice keeps at most the number of characters the header announces. |
| GrassCodec.DecodeGrasses | rimworld_stego.py:148-181 | Every decoded value is below 256. |
| GrassCodec.BytesFromGrasses | rimworld_stego.py:148-181 | The decoder returns `DecodeGrasses` of the elements' fields. |
| GrassCodec.DecodeElements | rimworld_stego.py:148-181 | Decoding the fields of the elements step by step computes `DecodeGrasses`: `None` for an empty list or when the first 22 characters do not read as a number, and otherwise the kept text read in groups of eight. |
| GrassCodec.ReadPayload | rimworld_stego.py:160-170 | The loop's text is the text, after the header, of the elements `ReadCount` gives. Cut to the announced size, it is the kept text. |
| GrassCodec.PadToBytes | rimworld_stego.py:173-174 | The zero padding leaves the text unchanged. |
| GrassCodec.NoPadding | rimworld_stego.py:174 | `ceil(n/8) - n` is never positive, so `'0'` times it appends nothing. |
| GrassCodec.TextToBytes | rimworld_stego.py:175-180 | The byte loop computes `ParseGroups`. It reads groups of eight characters, a short last group as it is, and fails at the first group that does not read. |
| GrassCodec.WrittenText | rimworld_stego.py:88-145 | The text of the first `j` encoded elements spells the framed stream up to the cursor at `j`, zero-padded past its end. |
| GrassCodec.EncodedWritten | rimworld_stego.py:105-111 | Every element that the encoding loop reaches with its cursor short of the bit count holds the framed stream bits at its cursor. |
| GrassCodec.Reach | rimworld_stego.py:105-111 | The encoding loop stops at the first element whose cursor has reached the bit count, or at the end. Every earlier cursor is short of the bit count. |
| GrassCodec.KeptText | rimworld_stego.py:172 | From a text that spells the padded stream up to `c`, the slice keeps the payload bits up to `min(size + 22, c)`. |
| GrassCodec.HeaderText | rimworld_stego.py:160 | The framed stream's first 22 characters read back as the stored size. |
| GrassCodec.WrittenHeader | rimworld_stego.py:160 | The first encoded element's first 22 characters read as the stored size. |
| GrassCodec.WrittenRead | rimworld_stego.py:164-170 | The decoding loop reads at least every element the encoding loop wrote. |
| GrassCodec.DecodeWritten | rimworld_stego.py:88-172 | The elements the encoding loop wrote decode to the payload bits they hold. This holds whatever the later elements hold, and whatever their health. |
| GrassCodec.ReachedLength | rimworld_stego.py:102-111 | The loop writes `min(size, capacity − 22)` payload bits. |
| GrassCodec.DecodeStream | rimworld_stego.py:88-172 | Elements written with the zero-filled size `s` followed by a payload decode to the first `min(s, capacity − 22)` payload bits. |
| GrassCodec.DecodeEncodedText | rimworld_stego.py:88-172 | For every non-empty cover, whatever the health of its elements, decoding what was encoded gives the leading `min(size, capacity − 22)` payload bits. |
| GrassCodec.RoomForPayload | rimworld_stego.py:102 | When the payload and header fit the elements, the size stored is the whole payload. |
| GrassCodec.GrassRoundTrip | rimworld_stego.py:88-181 | A payload that fits the elements with its header, and whose bit count the header can express, decodes back exactly. This holds for every cover, including elements with health below 5. |
| FractionalCodec.Thousandths | rimworld_stego.py:474 | The fraction truncated to thousandths is below 1000. |
| FractionalCodec.ThreeDigits | rimworld_stego.py:450-451 | `b * 0.001` has three fraction digits. |
| FractionalCodec.ThousandthsOfThreeDigits | rimworld_stego.py:454 | A value with integer part `w` and fraction `b/1000` reads back as `b`. |
| FractionalCodec.Conceal | rimworld_stego.py:454 | A concealed carrier keeps its integer part, and its thousandths read back as the byte. |
| FractionalCodec.ClampedCountBounds | rimworld_stego.py:443-446 | The count is at most the payload length. The count plus 4 is within the carriers. The count is clamped only when the payload does not fit, and is negative exactly when there are fewer than four carriers. |
| FractionalCodec.CountBytes | rimworld_stego.py:449-450 | The four count bytes, summed with weights 256^(3−i), give the count modulo 2^32. |
| FractionalCodec.CountDigits | rimworld_stego.py:449-450 | The count's four base-256 digits modulo 2^32, most significant first, sum back to it. |
| FractionalCodec.CountValue | rimworld_stego.py:475-476 | Four values below 256 sum to less than 2^32. |
| FractionalCodec.NegativeCountBytes | rimworld_stego.py:447-450 | A negative count of −1..−4 is written as 255, 255, 255 and 256 + count. |
| FractionalCodec.Stream | rimworld_stego.py:447-451 | The concealed stream is 4 + (payload length) bytes. |
| FractionalCodec.EncodeFloats | rimworld_stego.py:432-454 | Encoding keeps the number of carriers. |
| FractionalCodec.Fractions | rimworld_stego.py:471-479 | Reading carriers `lo .. hi` succeeds exactly when the list reaches `hi` (or the range is empty), and gives one value per carrier. |
| FractionalCodec.EncodeFloatsLayout | rimworld_stego.py:452-454 | Every integer part is kept. Carrier `i` below `count + 4` gets stream byte `i` as its thousandths. The other carriers are unchanged. |
| FractionalCodec.EncodedFractions | rimworld_stego.py:452-479 | The thousandths of encoded carriers `lo .. hi` within `count + 4` are stream bytes `lo .. hi`. |
| FractionalCodec.FloatsRoundTrip | rimworld_stego.py:432-479 | Decoding without a count gives the four count bytes, then the payload cut to the clamped count (mod 2^32). Dropping the first four gives the fitting part of the payload. Fewer than four carriers raise IndexError. |
| FractionalCodec.FloatsRoundTripCarried | rimworld_stego.py:432-479 | With four carriers or more, decoding without a count gives the four count bytes and then the payload cut to the clamped count (mod 2^32). |
| FractionalCodec.FloatsRoundTripCounted | rimworld_stego.py:457-479 | Decoding with the clamped count given returns the payload cut to the carriers available. |
| FractionalCodec.BytesToFloats | rimworld_stego.py:432-454 | The carrier array afterwards is `EncodeFloats` of its old contents. |
| FractionalCodec.FloatsToBytes | rimworld_stego.py:457-479 | The result is `DecodeFloats`. With no count, it reads four header values and then the count they announce. With a count, it reads only that many. It is `None` where the list runs out. |
| FractionalCodec.ReadFractions | rimworld_stego.py:477-478 | A loop over `range(lo, hi)` returns the thousandths of each carrier in turn, or `None` when the list ends first: exactly `Fractions`. The header loop at lines 473-474 is the same loop over `range(4)`. |
| FractionalCodec.SumCount | rimworld_stego.py:475-476 | The loop summing the four header values with weights 256^(3−i) computes `CountValue`. |

## Left out

- File I/O and the command-line wrappers (`load_savefile`, the conceal and reveal functions for each scheme, `main` and its argument parsing) read and write files. They are not part of this model.
- The carrier search is not modelled: `find_grass_elements`, `find_floating_point_elements` and `recursive_children` walk the parsed XML tree. The carriers enter the model as a list of `Plant` objects or an array of `Number`s.
- WhitespaceCodec.IntersperseWhitespace: the lxml pretty-print of the cover (line 303) is a foreign library call. The cover lines are an input, already printed and split on line feeds. The printed text ends in a line feed, so the split ends in an empty piece; `ExtractPrinted` covers that list. With it, a payload of exactly one byte per eight cover lines (8 × bytes = lines − 1, counting the empty piece) makes `extract_whitespace` raise IndexError on the empty piece, so that payload does not round-trip.
- FractionalCodec.BytesToFloats: binary floating point is not modelled. `b * 0.001 + floor(x)` is taken as the exact decimal with integer part `floor(x)` and fraction `b/1000`. Python 2's `str` of a float prints 12 significant digits. That is enough for the three fraction digits only while the integer part has at most 9 digits. For a carrier of 10 or more integer digits, `str` rounds the third decimal (or more) away, and the byte is lost. The model does not capture that loss.
- FractionalCodec.Number: carrier texts are kept as values (an integer part and fraction digits), not as the strings `str` and `Decimal` produce and parse.
- GrassCodec.Grass: the growth text is modelled as its exact numerator over 10^8. Values below 2^26 need 8 digits, well within `Decimal`'s 28-digit default precision.
- GrassCodec.Grass: the id text is modelled as the number after the def name. The def name is the constant `Plant.prefix`, since `int(...)` of the rest ignores it.
- GrassCodec.GetBits: requires health ≥ 5. It is the bit view of an element whose text is all digits. For a lower health, `bin(health - 5)[2:]` is 'b' followed by the digits, and the decoder is modelled on that text (`GetText`, `ParseBinary`), where the 'b' is a character like any other.
- GrassCodec.Plant.SetGrassBits: requires `bitIndex < |bits|`. At or past the end, the padding adds nothing and `int('', 2)` raises. `bytes_to_grasses` never calls it there.
- GrassCodec.BytesToGrasses: requires the elements to be distinct objects, as the carrier search lists each element once.
- GrassCodec.BytesToGrasses: requires a stored size below 2^22. A wider size zero-fills to more than 22 bits, and the decoder then misreads the header.
- GrassCodec.BytesFromGrasses: the padding `'0' * (ceil(len / 8) - len)` at line 174 multiplies by a non-positive number and so adds nothing. It is modelled as written, so a short last group is read as it is rather than shifted.
- GrassCodec.BytesToGrasses: with no elements, the stored size is negative (−22) and nothing is written. This is modelled.
- WhitespaceCodec.ExtractWhitespace: the two `Exception('Not whitespace.')` expressions build an exception object but never raise it, so they have no effect. `encoded_text[-1]` on an empty text raises inside the handler and only skips an empty append.
- WhitespaceCodec.WhitespaceToBytes: requires a string of spaces and tabs. Other characters that `int(..., 2)` would also accept, such as the digits '0' and '1', are not modelled.
- Python's `IndexError` and `ValueError` are modelled as `None` of `Option`. That covers an empty line in `extract_whitespace`, too few carriers in `floats_to_bytes`, and an empty element list or a group that `int(..., 2)` rejects in `bytes_from_grasses`. The other exceptions are the ones the preconditions listed above exclude.
