# LSB steganography encoder, modelled in Dafny

This project models the encoder of pixel-hunt, a small LSB (least significant bit)
steganography library that hides a text message in an image's pixels. The PHP,
Java and TypeScript variants of `Image.encodeMessage` share one bit layout, so
one shared model covers all three:

- **Copy.** The encoder works on a copy of the source image. The source is
  never written.
- **Header pass (`writeBinaryLength`).** The message's byte count is rendered
  as 32 binary digits, most significant first, zero-padded on the left. Digit
  `i` goes into the least significant bit of channel `i % 3` (red, green, blue)
  of pixel `(i % width, i / width)`, which is scan index `i`. That is one bit
  per pixel.
- **Payload pass (`writeMessage`).** Each message byte becomes 8 binary digits,
  most significant first. The pass scans pixels row by row and skips scan
  indices below 32. It writes three bits per pixel (red, then green, then
  blue) and stops when the bits run out. There is no capacity check: bits that
  do not fit are dropped.

Header digits and payload bits use two separate index spaces. Header digit `i`
sits at scan index `i`. Payload bit `k` sits in channel `k % 3` of scan index
`32 + k / 3`.

Files:

- `binary.dfy` (module `Binary`): binary strings. `DecBin` models `decbin`,
  `Integer.toBinaryString` and `toString(2)`. `PadLeft` models `str_pad`,
  `String.format("%Ns")` with `replace(' ', '0')`, and `padStart`. The module
  also has the per-byte and whole-message renderings and `FromBinary`, which
  reads a digit string back.
- `pixel.dfy` (module `Pixels`): 8-bit channels, `Pixel` (r, g, b and a
  carried alpha), `replaceLSB`, and the packed `0x00RRGGBB` colour that Java
  builds as `setRGB`'s argument and that GD's `imagecolorallocate` returns
  for a true-colour image. The values read back by `getRGB` (`0xAARRGGBB`)
  and `imagecolorat` (a 7-bit alpha in bits 24 to 30) carry more in their top
  byte, which the channel masks discard.
- `grid.dfy` (module `Grids`): the class `Grid`. It stands for the image
  object of each library: width, height, row-major pixels, get, set and
  clone.
- `encoder.dfy` (module `Steganography`): `EncodeMessage`,
  `WriteBinaryLength` and `WriteMessage` as imperative methods. Each is proved
  to produce a closed-form function of the old pixels (`Encoded`,
  `WithHeader`, `WithPayload`). Lemmas state where each bit lands and what
  stays unchanged.
- `decoder.dfy` (module `Decoding`): a decoder written as a specification
  function. The repository's `decodeMessage` only throws. The lemmas here
  prove the round trip that the repository's tests expect.

Capacity:

- **No check.** The code never checks capacity. The payload has
  `3·(W·H − 32)` channels, and later bits are dropped.
- **Over-long messages.** `Decoding.OverCapacityIsLost` proves the
  consequence of the missing check. An over-long message is cut short, and its
  header still gives the full length, so `Decode` returns None instead of
  the message. `Decoding.SamePrefixSameImage` proves that the dropped bits
  never reach the image. Two messages of the same length that agree on the
  bits that fit encode to the same image, so no decoder can tell them apart.

## Model

| member | source | states |
|---|---|---|
| `Pixels.ReplaceLsb` | src/php/src/Steganography/Image.php:99-105 | the result's least significant bit is `bit` and its seven upper bits are those of `value`; the result is an 8-bit channel |
| `Pixels.DigitRoundTrip` | src/java/src/main/java/lsb/Image.java:93-98 | hiding the bit of a '0'/'1' digit with `replaceLSB` and reading the channel's LSB back gives the digit |
| `Pixels.BitOf` | src/java/src/main/java/lsb/Image.java:74 | on a binary digit c, the bit is the character difference `c - '0'`, so '0' gives 0 and '1' gives 1 |
| `Pixels.PackRgb` | src/java/src/main/java/lsb/Image.java:86 | the bitwise or of r << 16, g << 8 and b fits in 24 bits, and the unpacking masks `(rgb>>16)&0xFF`, `(rgb>>8)&0xFF` and `rgb&0xFF` give back r, g and b |
| `Pixels.RepackDropsAlpha` | src/java/src/main/java/lsb/Image.java:68-70 | unpacking and repacking any 32-bit colour keeps the low 24 bits and clears the top (alpha) byte |
| `Binary.DecBin` | src/php/src/Steganography/Image.php:55 | `decbin(n)` is a non-empty string of '0'/'1' whose value, read most significant digit first, is n |
| `Binary.PadLeftDecBin` | src/php/src/Steganography/Image.php:190 | `str_pad(decbin(n), w, '0', STR_PAD_LEFT)` for n < 2^w is exactly w binary digits whose value is n |
| `Binary.ToBinary` | src/php/src/Steganography/Image.php:188-191 | one byte becomes exactly 8 binary digits, and reading them back gives the byte |
| `Binary.ToBinaryBits` | src/ts/src/image.ts:138 | digit j of a byte's 8-digit rendering is bit 7 − j of the byte (most significant bit first) |
| `Binary.LengthHeader` | src/java/src/main/java/lsb/Image.java:51-52 | the header string is binary and at least 32 long; for a length below 2^32 it is exactly 32 digits whose value is the length |
| `Binary.LengthHeaderBits` | src/ts/src/image.ts:51 | for a length below 2^32, header digit i is bit 31 − i of the length |
| `Binary.BinaryMessage` | src/ts/src/image.ts:135-140 | the message bit string has 8 digits per byte and contains only '0' and '1' |
| `Binary.BinaryMessageChunk` | src/php/src/Steganography/Image.php:182-184 | digits 8k..8k+7 of the message bit string are the 8-digit rendering of byte k |
| `Binary.BinaryMessageDigit` | src/php/src/Steganography/Image.php:182-191 | digit j of byte k's rendering sits at index 8k + j of the message bit string and is bit 7 − j of the byte |
| `Binary.BinaryMessageBit` | src/java/src/main/java/lsb/Image.java:172-175 | digit i of the message bit string is bit 7 − i % 8 of byte i / 8 (bytes in order, most significant bit first) |
| `Binary.RegroupBytes` | src/php/src/Steganography/Image.php:177-191 | regrouping the message bit string by 8 and reading each group gives back every byte |
| `Binary.ToBinaryMessage` | src/php/src/Steganography/Image.php:177-186 | the loop that appends each byte's rendering returns exactly the message bit string |
| `Grids.ScanIndex` | src/php/src/Steganography/Image.php:127 | pixel (x, y) has scan index y·width + x inside the grid, and that index maps back to (x, y) |
| `Grids.ScanCoordinates` | src/php/src/Steganography/Image.php:62-63 | for i below width·height, pixel (i % width, i / width) lies inside the grid and has scan index i |
| `Grids.Grid.Clone` | src/ts/src/image.ts:17 | the copy is a fresh image with the same dimensions and pixels |
| `Grids.Grid.SetPixel` | src/php/src/Steganography/Image.php:95 | setting pixel (x, y) changes the pixel at scan index y·width + x and nothing else |
| `Steganography.EncodeMessage` | src/php/src/Steganography/Image.php:25-36 | returns a fresh image of the same size whose pixels are `Encoded(source pixels, message)`; the source pixels are unchanged |
| `Steganography.WriteBinaryLength` | src/php/src/Steganography/Image.php:47-97 | afterwards the pixels are `WithHeader(old pixels, header of the byte length)`: header digit i is in channel i % 3 of scan index i |
| `Steganography.WriteMessage` | src/php/src/Steganography/Image.php:118-167 | afterwards the pixels are `WithPayload(old pixels, bits)`: bit k is in channel k % 3 of scan index 32 + k / 3 if that pixel exists, and nothing else changes |
| `Steganography.PayloadChannel` | src/php/src/Steganography/Image.php:147-159 | a channel that may receive a payload bit keeps its seven upper bits |
| `Steganography.HideLengthDigit` | src/php/src/Steganography/Image.php:76-89 | the pixel after one step of the header loop is `HeaderPixel`: header digit i replaces the LSB of channel i % 3 and the rest of the pixel is kept |
| `Steganography.HeaderPlacement` | src/php/src/Steganography/Image.php:58-95 | the header pass stores digit i as the LSB of channel i % 3 of pixel i, for each i < 32 |
| `Steganography.HeaderPassFootprint` | src/php/src/Steganography/Image.php:58-95 | the header pass leaves the other two channels of pixels 0..31, alpha and every pixel from index 32 on unchanged, and every channel keeps its upper 7 bits |
| `Steganography.PayloadPlacement` | src/php/src/Steganography/Image.php:142-160 | payload bit k is the LSB of channel k % 3 of scan index 32 + k / 3 |
| `Steganography.PayloadSkipsHeader` | src/php/src/Steganography/Image.php:124-127 | the payload pass leaves the pixels at scan indices below 32 as they are |
| `Steganography.PayloadPassFootprint` | src/php/src/Steganography/Image.php:124-160 | the payload pass keeps alpha and the upper 7 bits of every channel, and leaves every channel after the last bit unchanged, including the rest of a partly written pixel |
| `Steganography.EncodedHeaderBit` | src/java/src/main/java/lsb/Image.java:55-89 | in the encoded image, the LSB of channel i % 3 of pixel (i % width, i / width) is bit 31 − i of the byte length, for each i < 32 |
| `Steganography.EncodedPayloadBit` | src/java/src/main/java/lsb/Image.java:120-155 | in the encoded image, the LSB of channel k % 3 of scan index 32 + k / 3 is bit 7 − k % 8 of byte k / 8, for every bit that fits |
| `Steganography.EncodedChangesOnlyLsbs` | src/ts/src/image.ts:63-68 | encoding keeps the seven upper bits of every channel and the alpha of every pixel; the two non-header channels of header pixels and every channel after the last payload bit are unchanged |
| `Decoding.Decode` | src/java/src/test/java/lsb/ImageTest.java:27-36 | a message is only returned when the image has 32 header pixels; its length is exactly the length the header declares, and its bits fit in the channels after the header |
| `Decoding.ReadEncodedHeader` | src/php/src/Steganography/Image.php:50-63 | the 32 header digits read back from an encoded image are the 32-digit rendering of the message's byte length |
| `Decoding.ReadEncodedPayload` | src/ts/src/image.ts:95-126 | when the message fits, its first 8 × length payload digits read back are exactly its bit string |
| `Decoding.EncodeDecodeRoundTrip` | src/tests/SteganographyTest.php:14-22 | decoding the encoded image gives the message back whenever its length is below 2^32 and 8 × length ≤ 3 × (width·height − 32) |
| `Decoding.OverCapacityIsLost` | src/php/src/Steganography/Image.php:121-130 | a message with more bits than 3 × (width·height − 32) is cut short without error, and the encoded image does not decode to it |
| `Decoding.PayloadPixelAgrees` | src/php/src/Steganography/Image.php:142-160 | a payload pixel depends only on the three bits it holds: bit strings that agree below a bound covering those indices give the same pixel |
| `Decoding.SamePrefixSameImage` | src/php/src/Steganography/Image.php:121-130 | two equal-length messages that do not fit and agree on the first 3 × (width·height − 32) bits encode to the same image |
| `Decoding.EmptyMessage` | src/php/src/Steganography/Image.php:129-130 | for the empty message the header is 32 zeros, no pixel from scan index 32 on changes, and it decodes to the empty message |
| `Decoding.SantaMessageRoundTrip` | src/ts/tests/image.spec.ts:9-16 | on a 256×256 white image, "Ho! Ho! Ho! 🎅" stores the length 16 (UTF-8 bytes, not the 13 characters) and decodes back |

## Left out

- The image libraries are replaced by `Grids.Grid`: GD (`imagecreatetruecolor`, `imagecopy`, `imagecolorat`, `imagecolorallocate`, `imagesetpixel`), AWT (`BufferedImage`, `drawImage`, `getRGB`, `setRGB`) and Jimp (`clone`, `getPixelColor`, `intToRGBA`, `rgbaToInt`, `setPixelColor`). The grid offers width, height, get, set and clone. The copy is modelled as an exact clone.
- Alpha in the PHP and Java variants is not modelled. `imagecolorallocate` and `TYPE_INT_RGB` replace alpha in ways each library defines. The passes write back the alpha they read, which is the TypeScript behaviour. `Pixels.RepackDropsAlpha` shows that the packed colour carries no alpha. No alpha-preservation claim is made for PHP or Java.
- The message is taken as its UTF-8 bytes. Encoding text to UTF-8 (`getBytes`, `Buffer.from`, `Buffer.byteLength`, PHP byte strings) is library code.
- The TypeScript `async`/`Promise` wrapping is left out; the model is sequential.
- The `decodeMessage` stubs only throw, so `Decoding.Decode` is a specification, not a model of them. Decode returns None when the grid has fewer than 32 pixels or the declared length does not fit. Decoding the bytes back into text is left out, because the model works on bytes.
- Images with fewer than 32 pixels make the header pass read outside the image, which each library handles its own way. `EncodeMessage` and `WriteBinaryLength` require width·height ≥ 32 instead.
- Steganography.WriteMessage: requires a bit string of only '0' and '1'. The public PHP `writeMessage` accepts any string: in PHP the numeric characters '2' to '9' are silently or-ed in as integers with higher bits set, and only non-numeric characters raise a type error; Java gives arbitrary integers. Callers inside the library only ever pass `toBinaryMessage` output, and `Binary.BinaryMessage` proves that output is binary.
- Steganography.WriteMessage: takes width and height from the grid. The PHP and Java versions receive them as separate arguments, and `encodeMessage` passes the image's own dimensions.
- Steganography.WriteMessage: models PHP's `break`, which leaves only the inner `x` loop. Java and TypeScript `return` instead. The final pixels are the same, because once the bits are exhausted every later pixel also stops before writing.
- Integer widths are not modelled. Lengths of 2^32 bytes or more cannot occur in Java, whose length is an `int`. In PHP and TypeScript they render as more than 32 digits, and the header keeps the first 32 of them. `Binary.LengthHeader` models that rendering. The header-bit and round-trip lemmas require a length below 2^32.
- Binary.ToBinaryMessage: assumes PHP 8.2 or later, where `str_split("")` returns an empty array. Before PHP 8.2 it returns `[""]`, so the empty message renders as "00000000" and the payload pass writes eight 0 bits into pixels 32 to 34. `Decoding.EmptyMessage` ("no pixel from scan index 32 on changes") therefore holds for Java, TypeScript and PHP 8.2 or later, not for PHP 8.0 and 8.1.
- The C# variant and the test fixtures (fill colours, and the TypeScript helper that ignores its size arguments) are not part of this model.
