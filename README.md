# Image steganography codec, modelled in Dafny

This project models the codec at the heart of the image steganography tool.
The tool hides a text message in the pixels of an image and reads it back.
An image is a row-major grid of pixels, each pixel a sequence of byte
channels (R, G, B and, in RGBA mode, alpha). A message is a sequence of
character codes.

The model covers three parts of the tool:

- `ImageEncoder` (encoder.py). It has four hiding schemes:
  - LSB: one message bit in the low bit of each R, G and B channel;
  - alpha LSB: one bit in the low bit of each alpha channel;
  - direct alpha: one whole character code per alpha channel, 255 past the end;
  - combined: LSB followed by direct alpha.
- `ImageProcessor` (core/image_processor.py). It is a second LSB codec. It
  counts capacity in characters, refuses empty messages, and stops reading at
  a byte-aligned zero group.
- The helper rules of image_utils.py: the accepted-format gate, the
  per-method capacity formula and the RGBA normalisation.

Module layout:

- `Status`: the error kinds and the `Result` / `Outcome` wrappers that stand
  for Python's exceptions.
- `Bits`: the bit-string level.
  - `format(ord(c), '08b')` and its concatenation over a message.
  - The three decoding rules over a bit string.
  - The prefix lemmas that make the round trips.
- `Grid`: the pixel level, as specification functions.
  - The low-bit stream of a grid, and embedding a bit string into it.
  - The alpha-level counterparts of the stream and the embedding.
  - Direct-alpha writing and reading, and the RGB-to-RGBA conversion.
- `Scan`: the nested row/column/channel loops of the source as methods over
  an `array` (writers) or a `seq` (readers). Each is proved equal to its
  `Grid` or `Bits` specification function.
- `Encoder`: the specification of each `ImageEncoder` operation, its round
  trips, and the class `ImageEncoder` with the fields `image` and
  `encodedImage`. The class methods update these fields as the source does.
- `Processor`: the class `ImageProcessor` (field `image`), its capacity
  function, its `_extract_lsb_message` loop, and its round trip.
- `ImageUtils`: format validation, capacity and conversion over what an
  opened file reports (format name, mode name, size), tied to the codecs.

Conventions:

- Pixel values are bytes (0..255).
- `(v & ~1) | b` is written `v - v % 2 + b`. numpy's `clip` is the identity
  on that value.
- Characters are their code points. A message of codes above 255 expands to
  more than eight bits per character, as `format(..., '08b')` does. The round
  trips are stated for byte messages.
- File loading is replaced by a `LoadImage` that receives the decoded grid.

## Model

| member | source | states |
|---|---|---|
| Bits.CharBits | image_steganography/steganography/encoder.py:26 | the digits of one character read back as its code; there are eight of them exactly when the code is a byte |
| Bits.MessageBits | image_steganography/steganography/encoder.py:26 | the bit string of a message has at least eight digits per character, and exactly eight per character for byte text |
| Bits.DecodeUntilNul | image_steganography/steganography/encoder.py:103-111 | decode_lsb's grouping yields at most one code per full group of eight, and never the code 0 |
| Bits.DecodeGroups | image_steganography/steganography/encoder.py:135-138 | decode_alpha's grouping yields one byte code per group of eight, a shorter last group included |
| Bits.ExtractUntilNul | image_steganography/steganography/core/image_processor.py:221-231 | _extract_lsb_message's grouping yields at most one byte code per group, the last partial group included |
| Bits.CharBitsNul | image_steganography/steganography/encoder.py:92 | a byte character's bits are the terminator group exactly when the character is chr(0) |
| Bits.DecodeUntilNulPrefix | image_steganography/steganography/encoder.py:103-111 | a message of codes 1..255, followed by any digits, decodes to the message followed by what those digits decode to |
| Bits.DecodeGroupsPrefix | image_steganography/steganography/encoder.py:135-138 | a byte message, followed by any digits, decodes to the message followed by what those digits decode to |
| Bits.ExtractUntilNulPrefix | image_steganography/steganography/core/image_processor.py:226-231 | a message of codes 1..255, followed by any digits, extracts to the message followed by what those digits extract to |
| Bits.ExtractAllGroups | image_steganography/steganography/core/image_processor.py:230-231 | with no aligned zero group, extraction keeps every group; it keeps every group only when there is no aligned zero group |
| Bits.NoNulAppend | image_steganography/steganography/core/image_processor.py:225-226 | appending a digit that does not complete a zero group keeps the string free of aligned zero groups |
| Bits.NoNulPrefix | image_steganography/steganography/core/image_processor.py:226 | an aligned prefix of a string free of zero groups is free of them too |
| Bits.ExtractAfterPrefix | image_steganography/steganography/core/image_processor.py:226-229 | extraction across an aligned prefix free of zero groups decodes that prefix in full and then goes on |
| Bits.DecodeUntilNulOnes | image_steganography/steganography/encoder.py:107-111 | a group of eight ones is read as chr(255) and decoding continues past it |
| Bits.ExtractUntilNulTenOnes | image_steganography/steganography/core/image_processor.py:228-231 | ten one bits extract to chr(255) followed by chr(3) from the two leftover bits |
| Bits.BitsValue | image_steganography/steganography/encoder.py:108 | int(byte, 2): the value of a digit string read most significant digit first, below 2 to the power of its length; with CharBits it reads back each character's code |
| Grid.ToRgba | image_steganography/steganography/encoder.py:148-149 | conversion to RGBA keeps size and R, G, B, gives RGB pixels an opaque alpha, and leaves an RGBA image unchanged |
| Grid.SetLowBit | image_steganography/steganography/encoder.py:44 | the new value keeps every bit of the channel but the lowest, which becomes the message bit |
| Grid.EmbedLsb | image_steganography/steganography/encoder.py:38-45 | slot 3q+c (channel c < 3 of pixel q) gets the low bit bits[3q+c] while there are bits; every other channel, alpha included, and every higher bit is unchanged |
| Grid.LsbStreamAfterEmbed | image_steganography/steganography/encoder.py:38-45 | after embedding, the R, G, B low bits read back as the embedded bits followed by the cover's remaining low bits (truncated to the slots when too long) |
| Grid.EmbedAlpha | image_steganography/steganography/encoder.py:70-76 | the alpha of pixel q gets the low bit bits[q] while there are bits; R, G, B and every higher bit are unchanged |
| Grid.AlphaStreamAfterEmbed | image_steganography/steganography/encoder.py:70-76 | after embedding, the alpha low bits read back as the embedded bits followed by the cover's remaining ones |
| Grid.LsbStream | image_steganography/steganography/encoder.py:94-100 | the R, G, B low bits of the grid in row-major order, three per pixel; the same collection as image_processor.py:222-225 |
| Grid.LsbSlot | image_steganography/steganography/core/image_processor.py:222-225 | slot 3q+c of the LSB stream is the low bit of channel c of pixel q |
| Grid.AlphaStream | image_steganography/steganography/encoder.py:130-132 | the alpha low bits of the grid in row-major order, one per pixel |
| Grid.DirectAlphaPixels | image_steganography/steganography/encoder.py:164-178 | the grid that encode_direct_alpha's loop writes keeps every pixel's R, G, B and stays RGBA; its alpha values are stated by Encoder.DirectAlphaEncoding |
| Grid.DirectAlphaDecode | image_steganography/steganography/encoder.py:204-217 | decode_direct_alpha's reading rule yields at most one code per pixel; which codes it yields is stated by Grid.DirectAlphaDecodeStops |
| Grid.DirectAlphaDecodeStops | image_steganography/steganography/encoder.py:204-217 | the decoded codes are the leading alphas, none of them 255, and the alpha right after them, if any, is 255 |
| Grid.DirectAlphaDecodeExact | image_steganography/steganography/encoder.py:204-217 | alphas that spell a text free of 255 and are then followed by 255 or by the end of the grid decode to exactly that text |
| Grid.LsbStreamRgbOnly | image_steganography/steganography/encoder.py:97-100 | the LSB stream depends on the R, G, B values alone |
| Grid.EmbedLsbCapacity | image_steganography/steganography/encoder.py:42 | bits past the last R, G, B slot are never written |
| Scan.ApplyLsbEncoding | image_steganography/steganography/encoder.py:38-45 | the i/j/k loop over the array with its running index leaves exactly the grid that Grid.EmbedLsb specifies |
| Scan.ApplyAlphaEncoding | image_steganography/steganography/encoder.py:70-76 | the i/j loop over the alpha channels leaves exactly the grid that Grid.EmbedAlpha specifies |
| Scan.ApplyDirectAlpha | image_steganography/steganography/encoder.py:164-178 | the loop succeeds exactly when every code is a byte; the grid it then leaves has message codes, then 255, in the alphas |
| Scan.CollectLsbBits | image_steganography/steganography/encoder.py:90-100 | the collected digits are exactly the R, G, B low bits in row-major order |
| Scan.CollectAlphaBits | image_steganography/steganography/encoder.py:129-132 | the collected digits are exactly the alpha low bits in row-major order |
| Scan.ReadUntilNul | image_steganography/steganography/encoder.py:103-111 | the stepping loop with its two breaks computes Bits.DecodeUntilNul |
| Scan.ReadGroups | image_steganography/steganography/encoder.py:135-138 | the stepping loop computes Bits.DecodeGroups |
| Scan.ReadDirectAlpha | image_steganography/steganography/encoder.py:204-217 | the row loop, broken out of at the first alpha 255, computes Grid.DirectAlphaDecode |
| Encoder.LsbEncoding | image_steganography/steganography/encoder.py:20-47 | encode_lsb succeeds exactly when the message's bits fit the R, G, B slots; otherwise it raises "too large". On success, size and mode are kept and the LSB stream starts with the message's bits |
| Encoder.AlphaEncoding | image_steganography/steganography/encoder.py:49-78 | encode_alpha refuses an image without alpha, and otherwise succeeds exactly when the bits fit one per pixel. On success, the alpha low bits start with the message's bits |
| Encoder.DirectAlphaEncoding | image_steganography/steganography/encoder.py:151-185 | encode_direct_alpha succeeds exactly when the message has at most one code per pixel and every code is at most 255. The two failures are wrapped as "Encoding failed". On success, R, G, B are kept and alpha q holds m[q], or 255 past the end |
| Encoder.CombinedEncoding | image_steganography/steganography/encoder.py:224-242 | encode_combined succeeds exactly when the bits fit the LSB slots and every code is a byte. Too many bits fail as wrapped MessageTooLarge; a code above 255 fails as InvalidCharacter, wrapped twice. On success the result is RGBA with the cover's own R, G, B values, and alpha q holds m[q], or 255 past the end |
| Encoder.LsbRoundTrip | image_steganography/steganography/encoder.py:20-116 | decode_lsb after encode_lsb returns the message followed by what the untouched slots decode to |
| Encoder.AlphaRoundTrip | image_steganography/steganography/encoder.py:49-140 | decode_alpha after encode_alpha returns the message followed by what the remaining alpha bits decode to |
| Encoder.DirectAlphaRoundTrip | image_steganography/steganography/encoder.py:142-222 | decode_direct_alpha after encode_direct_alpha returns exactly the message when no code is 255, also when the message fills every pixel |
| Encoder.DirectAlphaTruncates | image_steganography/steganography/encoder.py:208-210 | a code 255 in the message ends decoding there: only the codes before the first 255 come back |
| Encoder.CombinedDirectRoundTrip | image_steganography/steganography/encoder.py:224-242 | after encode_combined, decode_direct_alpha returns exactly a message free of 255 |
| Encoder.CombinedKeepsCoverLsb | image_steganography/steganography/encoder.py:234-238 | as written, the combined result's R, G, B low bits are the cover's: the LSB pass leaves no trace |
| Encoder.CombinedLosesLsbMessage | image_steganography/steganography/encoder.py:224-242 | for a cover whose first eight low bits are 0 and any non-empty byte message, encode_combined succeeds and decode_lsb then returns the empty text |
| Encoder.LayeredCombinedEncoding | image_steganography/steganography/encoder.py:230-238 | the combined encoding with the direct-alpha pass run on the LSB pass's output has the same success condition as the original |
| Encoder.LayeredCombinedRoundTrip | image_steganography/steganography/encoder.py:230-238 | with the passes layered, decode_lsb returns the message as a prefix and decode_direct_alpha returns it exactly |
| Encoder.LsbDecodeRunsPastMessage | image_steganography/steganography/encoder.py:20-116 | when the cover's slots after the message hold eight ones, decode_lsb returns the message followed by chr(255) |
| Encoder.TerminatedLsbEncoding | image_steganography/steganography/encoder.py:26-45 | encode_lsb with a chr(0) terminator appended succeeds exactly when message and terminator fit; the stream then holds message, terminator, then the cover |
| Encoder.TerminatedLsbRoundTrip | image_steganography/steganography/encoder.py:80-116 | with the terminator written, both decode_lsb's and _extract_lsb_message's rules return exactly the message |
| Encoder.ImageEncoder.constructor | image_steganography/steganography/encoder.py:5-7 | a new encoder has neither an image nor an encoded image |
| Encoder.ImageEncoder.LoadImage | image_steganography/steganography/encoder.py:9-13 | the loaded grid becomes `image`; `encodedImage` is untouched |
| Encoder.ImageEncoder.EncodeLsb | image_steganography/steganography/encoder.py:20-47 | "No image loaded" without an image; otherwise `encodedImage` becomes Encoder.LsbEncoding's image, or the error is returned and nothing changes; `image` is never touched |
| Encoder.ImageEncoder.EncodeAlpha | image_steganography/steganography/encoder.py:49-78 | the same as EncodeLsb, against Encoder.AlphaEncoding |
| Encoder.ImageEncoder.DecodeLsb | image_steganography/steganography/encoder.py:80-116 | "No image loaded", or the loaded image's LSB stream decoded up to the first chr(0) |
| Encoder.ImageEncoder.DecodeAlpha | image_steganography/steganography/encoder.py:118-140 | "No image loaded", "must have alpha channel", or every group of the alpha stream decoded |
| Encoder.ImageEncoder.EncodeDirectAlpha | image_steganography/steganography/encoder.py:142-185 | `image` is replaced by its RGBA conversion (also when encoding then fails); `encodedImage` becomes Encoder.DirectAlphaEncoding's result, or None on failure |
| Encoder.ImageEncoder.DecodeDirectAlpha | image_steganography/steganography/encoder.py:187-222 | `image` is replaced by its RGBA conversion, and the alphas are decoded up to the first 255 |
| Encoder.ImageEncoder.EncodeCombined | image_steganography/steganography/encoder.py:224-242 | `image` is converted to RGBA when the LSB pass succeeds and kept otherwise; `encodedImage` becomes Encoder.CombinedEncoding's result, or None with a "Combined encoding failed" error |
| Processor.MaxMessageSize | image_steganography/steganography/core/image_processor.py:181-191 | capacity is 0 with no image, else the largest character count whose eight bits each fit the R, G, B slots |
| Processor.ProcessorLsbEncoding | image_steganography/steganography/core/image_processor.py:80-108 | encode_lsb refuses an empty message and one over capacity; it succeeds exactly otherwise, keeping size and mode and embedding the message's bits |
| Processor.ProcessorLsbStream | image_steganography/steganography/core/image_processor.py:193-210 | after encode_lsb the R, G, B low bits read back as the message's bits, then the cover's remaining ones |
| Processor.ExtractLsbMessage | image_steganography/steganography/core/image_processor.py:212-231 | the bit-by-bit loop with its early return at a byte-aligned zero group computes Bits.ExtractUntilNul of the LSB stream |
| Processor.FoundTerminator | image_steganography/steganography/core/image_processor.py:226-229 | when the digits read so far end in the first aligned zero group, the groups before it are the whole extraction |
| Processor.ImageProcessor.constructor | image_steganography/steganography/core/image_processor.py:55-57 | a new processor has no image |
| Processor.ImageProcessor.LoadImage | image_steganography/steganography/core/image_processor.py:74 | the loaded image is the RGBA conversion of the decoded grid |
| Processor.ImageProcessor.CalculateMaxMessageSize | image_steganography/steganography/core/image_processor.py:181-191 | 0 without an image, else the largest character count whose bits fit the R, G, B slots |
| Processor.ImageProcessor.EncodeLsb | image_steganography/steganography/core/image_processor.py:80-108 | "No image loaded"; otherwise `image` becomes Processor.ProcessorLsbEncoding's result, or the error is returned and `image` is unchanged |
| Processor.ImageProcessor.DecodeLsb | image_steganography/steganography/core/image_processor.py:110-126 | "No image loaded", or the LSB stream extracted up to the first aligned zero group |
| Processor.EncodeThenDecode | image_steganography/steganography/core/image_processor.py:80-126 | encode_lsb on one processor, then decode_lsb on a second processor holding the first one's image, returns the message followed by what the cover's remaining low bits extract to |
| Processor.ProcessorDecodeRunsPastMessage | image_steganography/steganography/core/image_processor.py:80-126 | when the cover's ten slots after the message are ones and nothing follows, decode_lsb returns the message, chr(255) and chr(3) |
| Processor.TenByTenCapacity | image_steganography/steganography/core/image_processor.py:96-98 | a 10 x 10 image holds 37 characters: 37 are accepted and 38 refused |
| Processor.TerminatedProcessorEncoding | image_steganography/steganography/core/image_processor.py:96-106 | encode_lsb with a terminator group appended refuses an empty message and succeeds exactly when message and terminator fit the capacity |
| Processor.TerminatedProcessorRoundTrip | image_steganography/steganography/core/image_processor.py:212-231 | with the terminator written, decode_lsb returns exactly the message whatever the cover holds |
| ImageUtils.ValidateImageFormat | image_steganography/steganography/image_utils.py:4-16 | accepted exactly when the file opens and is PNG, BMP or TIFF, or WEBP in mode RGB or RGBA. An accepted file gets no reason; an open failure returns its error; any other file gets "Unsupported format: ..." |
| ImageUtils.UnsupportedMessageText | image_steganography/steganography/image_utils.py:6-13 | the rejection text names the format and lists "PNG, BMP, TIFF" |
| ImageUtils.WebpNeedsRgbMode | image_steganography/steganography/image_utils.py:10-13 | a WEBP file in any mode other than RGB or RGBA is rejected, and the reason names WEBP |
| ImageUtils.CalculateMaxCapacity | image_steganography/steganography/image_utils.py:18-32 | 'lsb' gives the largest character count fitting three bits per pixel; 'alpha' on RGBA gives the largest fitting one bit per pixel; anything else gives 0 |
| ImageUtils.ConvertToRgba | image_steganography/steganography/image_utils.py:34-39 | the result is RGBA of the same size; an RGBA file is returned as it is; a converted copy reports no format |
| ImageUtils.ConvertToRgbaIdempotent | image_steganography/steganography/image_utils.py:37-39 | converting twice is converting once |
| ImageUtils.ConvertAgreesWithGrid | image_steganography/steganography/image_utils.py:34-39 | the file-level rule and the pixel-level conversion agree on the resulting mode |
| ImageUtils.LsbCapacityExact | image_steganography/steganography/image_utils.py:23-25 | a byte message passes ImageEncoder's encode_lsb check exactly when it is within the 'lsb' capacity |
| ImageUtils.AlphaCapacityExact | image_steganography/steganography/image_utils.py:26-30 | on RGBA, a byte message passes encode_alpha's check exactly when it is within the 'alpha' capacity; without alpha the capacity is 0 and encode_alpha refuses |
| ImageUtils.LsbCapacityMatchesProcessor | image_steganography/steganography/image_utils.py:23-25 | the 'lsb' capacity is the one ImageProcessor enforces |

## Left out

- File input and output are outside the model: `Image.open`, `save`, `fromarray`, `save_image` and `get_image_preview` (image_utils.py:41-45). Each `LoadImage` receives the already decoded grid.
- The module functions `encode` and `decode` of image_processor.py (lines 7-31) are not modelled. They go through `load_image` and the file system. EncodeThenDecode covers only the encode_lsb and decode_lsb calls between them.
- `ImageEncoder.load_image` converts modes other than RGB and RGBA. Grids here are RGB or RGBA only, so that branch (encoder.py:12-13) does not arise.
- `ImageProcessor.load_image` (image_processor.py:71-78) is modelled only by its RGBA conversion. ImageProcessor.LoadImage receives the decoded grid. Two things about the source are not captured:
  - Line 73 calls validate_image_format and discards its (bool, reason) result, so the format check never refuses a file.
  - Lines 73 and 74 pass the opened `Image` object to validate_image_format and convert_to_rgba. Both of those expect a path and call `Image.open` on it again (image_utils.py:8, 36). Read that way, convert_to_rgba raises, and load_image re-raises (lines 76-78) for every file. The model does not include PIL's `Image.open`, so this is neither modelled nor proved.
- `ImageProcessor.encode_alpha` and `decode_alpha` (image_processor.py:127-159) are not modelled. They call `_apply_alpha_encoding` and `_extract_alpha_message`, which the class never defines. As written, both raise AttributeError once an image is loaded.
- The unused `ImageProcessor.mode` field is not modelled.
- Errors are modelled as kinds, not as texts. The message texts of the raised errors are not modelled, except the rejection text of validate_image_format.
- Some checks cannot fail once the image is RGBA, so they have no branch in the model:
  - the "must have 4 channels" checks (encoder.py:157-158, 201-202);
  - the alpha range check (encoder.py:212-213);
  - the catch-and-rethrow of decode_lsb and decode_direct_alpha.
- calculate_max_capacity and convert_to_rgba open the file themselves, and an open failure raises. The model takes what the opened file reports.
- ImageUtils.CalculateMaxCapacity: the default argument `method='lsb'` (image_utils.py:18) is not modelled. A call that omits the method behaves as CalculateMaxCapacity with "lsb".
- Which format PIL detects for a file is outside the model.
- Messages with codes above 255 are expanded by MessageBits as the source expands them. The LSB and alpha-LSB round trips are stated only for byte messages.
- Logging, the GUI, the settings, the history database and the application shell are not modelled.

## Findings

| source | as written | input that shows it | evidently intended | confidence | as-written member | corrected member |
|---|---|---|---|---|---|---|
| image_steganography/steganography/encoder.py:20-47, 80-116 | encode_lsb writes only the message's bits, while decode_lsb reads on until a chr(0) group | the message "A" in a white 4 x 4 image, whose low bits are all 1: decode_lsb returns "A" followed by chr(255) characters | a chr(0) terminator written after the message | high, not executed | Encoder.LsbDecodeRunsPastMessage | Encoder.TerminatedLsbRoundTrip |
| image_steganography/steganography/core/image_processor.py:80-108, 212-231 | encode_lsb writes no zero group, while _extract_lsb_message stops only at one | the message "A" in a 2 x 3 image whose other ten low bits are 1: decode_lsb returns "A", chr(255), chr(3) | a zero group written after the message, with room for it checked | high, not executed | Processor.ProcessorDecodeRunsPastMessage | Processor.TerminatedProcessorRoundTrip |
| image_steganography/steganography/encoder.py:224-242 | encode_direct_alpha runs on `self.image`, the cover, so the LSB pass's `encoded_image` is discarded | the message "A" in a black image: encode_combined succeeds, and decode_lsb of its output returns "" | the direct-alpha pass layered on the LSB pass's output | high, not executed | Encoder.CombinedLosesLsbMessage | Encoder.LayeredCombinedRoundTrip |
