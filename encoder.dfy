/** The LSB encoder (`Image::encodeMessage` and its two passes). The encoder
    copies the image, then
    - the header pass writes the message's byte length as 32 binary digits,
      digit i into the least significant bit of channel i % 3 of the pixel at
      scan index i (one bit per pixel);
    - the payload pass writes the message's bit string from scan index 32 on,
      three bits per pixel (red, green, blue), and stops when the bits run out.
    Bits that do not fit in the image are dropped without error.

    The two passes are imperative methods over a Grid; each is proved to leave
    the pixels equal to a closed-form specification of the old pixels
    (WithHeader, WithPayload), and the properties of the encoding are lemmas
    about those specifications. Header digits are indexed by the scan index
    i < 32; payload bits by the bit index k, which lands at scan index
    32 + k / 3. */
module Steganography {
  import opened Binary
  import opened Pixels
  import opened Grids

  /** Scan indices 0..31 are reserved for the length header. */
  const PIXELS_TO_FIND_LENGTH: nat := 32

  /** The pixel at scan index i after header digit `digit` is hidden in it:
      channel i % 3 takes the digit as its least significant bit. */
  function HeaderPixel(px: Pixel, i: nat, digit: char): Pixel
  {
    WithChannel(px, i % 3, ReplaceLsb(ChannelOf(px, i % 3), BitOf(digit)))
  }

  /** The pixels after the header pass has written `header`. */
  function WithHeader(ps: seq<Pixel>, header: string): (qs: seq<Pixel>)
    requires |header| >= PIXELS_TO_FIND_LENGTH
    ensures |qs| == |ps|
  {
    seq(|ps|, i requires 0 <= i < |ps| =>
      if i < PIXELS_TO_FIND_LENGTH then HeaderPixel(ps[i], i, header[i]) else ps[i])
  }

  /** A channel that receives payload bit k, if there is one. */
  function PayloadChannel(v: Channel, k: nat, bits: string): (w: Channel)
    ensures w & 0xFE == v & 0xFE
  {
    if k < |bits| then ReplaceLsb(v, BitOf(bits[k])) else v
  }

  /** The pixel at scan index p after the payload pass: from index 32 on, the
      pixel receives bits 3(p-32), 3(p-32)+1 and 3(p-32)+2 in its red, green
      and blue channels, as far as there are bits. */
  function PayloadPixel(px: Pixel, p: nat, bits: string): Pixel
  {
    if p < PIXELS_TO_FIND_LENGTH then px
    else
      var k := 3 * (p - PIXELS_TO_FIND_LENGTH);
      Pixel(PayloadChannel(px.r, k, bits), PayloadChannel(px.g, k + 1, bits),
            PayloadChannel(px.b, k + 2, bits), px.a)
  }

  /** The pixels after the payload pass has written `bits`. */
  function WithPayload(ps: seq<Pixel>, bits: string): (qs: seq<Pixel>)
    ensures |qs| == |ps|
  {
    seq(|ps|, p requires 0 <= p < |ps| => PayloadPixel(ps[p], p, bits))
  }

  /** The pixels of the encoded image, given those of the source image. */
  function Encoded(ps: seq<Pixel>, message: seq<Byte>): (qs: seq<Pixel>)
    ensures |qs| == |ps|
  {
    WithPayload(WithHeader(ps, LengthHeader(|message|)), BinaryMessage(message))
  }

  /** Number of payload bits written once the scan reaches index s. */
  function Consumed(s: nat, count: nat): nat
  {
    if s <= PIXELS_TO_FIND_LENGTH then 0
    else if 3 * (s - PIXELS_TO_FIND_LENGTH) < count then 3 * (s - PIXELS_TO_FIND_LENGTH)
    else count
  }

  /** `encodeMessage`: copies the source image and runs both passes on the
      copy; the source image is left as it was. */
  method EncodeMessage(sourceImage: Grid, secretMessage: seq<Byte>) returns (encodedImage: Grid)
    requires sourceImage.Valid()
    requires sourceImage.width * sourceImage.height >= PIXELS_TO_FIND_LENGTH
    ensures fresh(encodedImage) && fresh(encodedImage.pixels) && encodedImage.Valid()
    ensures encodedImage.width == sourceImage.width && encodedImage.height == sourceImage.height
    ensures sourceImage.pixels[..] == old(sourceImage.pixels[..])
    ensures encodedImage.pixels[..] == Encoded(sourceImage.pixels[..], secretMessage)
  {
    encodedImage := sourceImage.Clone();
    WriteBinaryLength(secretMessage, encodedImage);
    var binaryMessage := ToBinaryMessage(secretMessage);
    WriteMessage(encodedImage, binaryMessage);
  }

  /** One step of the header pass: digit i of the header goes into the least
      significant bit of channel i % 3 of the pixel. */
  method HideLengthDigit(pixel: Pixel, i: nat, digit: char) returns (hidden: Pixel)
    ensures hidden == HeaderPixel(pixel, i, digit)
  {
    var r, g, b := pixel.r, pixel.g, pixel.b;
    var bit := BitOf(digit);
    if i % 3 == 0 {
      r := ReplaceLsb(r, bit);
    } else if i % 3 == 1 {
      g := ReplaceLsb(g, bit);
    } else {
      b := ReplaceLsb(b, bit);
    }
    hidden := Pixel(r, g, b, pixel.a);
  }

  /** `writeBinaryLength`: hides the 32-digit rendering of the message's byte
      length in the pixels at scan indices 0..31, one digit per pixel, in
      channel i % 3 of pixel (i % width, i / width). */
  method WriteBinaryLength(secretMessage: seq<Byte>, image: Grid)
    requires image.Valid() && image.width * image.height >= PIXELS_TO_FIND_LENGTH
    modifies image.pixels
    ensures image.pixels[..] == WithHeader(old(image.pixels[..]), LengthHeader(|secretMessage|))
  {
    var width := image.width;
    var messageLength := |secretMessage|;
    var binaryLength := LengthHeader(messageLength);
    for i := 0 to PIXELS_TO_FIND_LENGTH
      invariant forall p :: 0 <= p < i ==> image.pixels[p] == HeaderPixel(old(image.pixels[p]), p, binaryLength[p])
      invariant forall p :: i <= p < image.pixels.Length ==> image.pixels[p] == old(image.pixels[p])
    {
      assert width > 0 && 0 <= i / width < image.height by {
        ScanCoordinates(i, width, image.height);
      }
      var x := i % width;
      var y := i / width;
      assert y * width + x == i by {
        ScanCoordinates(i, width, image.height);
      }
      var pixel := image.PixelAt(x, y);
      var hidden := HideLengthDigit(pixel, i, binaryLength[i]);
      image.SetPixel(x, y, hidden);
    }
    assert image.pixels[..] == WithHeader(old(image.pixels[..]), binaryLength);
  }

  /** `writeMessage`: scans the pixels row by row, skips scan indices below 32,
      and hides the bits of `binaryMessage` three per pixel (red, green, blue)
      until they run out. Once they have, the row's scan is left (`break`) and
      every later pixel is left alone. */
  method WriteMessage(encodingImage: Grid, binaryMessage: string)
    requires encodingImage.Valid() && IsBinary(binaryMessage)
    modifies encodingImage.pixels
    ensures encodingImage.pixels[..] == WithPayload(old(encodingImage.pixels[..]), binaryMessage)
  {
    var width, height := encodingImage.width, encodingImage.height;
    ghost var n := encodingImage.pixels.Length;
    ghost var count := |binaryMessage|;
    var bitIndex := 0;
    for y := 0 to height
      invariant y * width <= n
      invariant bitIndex == Consumed(y * width, count)
      invariant forall p :: 0 <= p < y * width ==>
        encodingImage.pixels[p] == PayloadPixel(old(encodingImage.pixels[p]), p, binaryMessage)
      invariant forall p :: y * width <= p < n ==> encodingImage.pixels[p] == old(encodingImage.pixels[p])
    {
      MulMonotone(y + 1, height, width);
      assert (y + 1) * width == y * width + width;
      for x := 0 to width
        invariant bitIndex == Consumed(y * width + x, count)
        invariant forall p :: 0 <= p < y * width + x ==>
          encodingImage.pixels[p] == PayloadPixel(old(encodingImage.pixels[p]), p, binaryMessage)
        invariant forall p :: y * width + x <= p < n ==> encodingImage.pixels[p] == old(encodingImage.pixels[p])
      {
        if y * width + x < PIXELS_TO_FIND_LENGTH {
          continue;
        }
        if bitIndex >= |binaryMessage| {
          break;
        }
        ScanIndex(x, y, width, height);
        var pixel := encodingImage.PixelAt(x, y);
        var r, g, b := pixel.r, pixel.g, pixel.b;
        ghost var k := bitIndex;
        for channel := 0 to 3
          invariant bitIndex == k + channel <= count
          invariant r == if channel > 0 then PayloadChannel(pixel.r, k, binaryMessage) else pixel.r
          invariant g == if channel > 1 then PayloadChannel(pixel.g, k + 1, binaryMessage) else pixel.g
          invariant b == if channel > 2 then PayloadChannel(pixel.b, k + 2, binaryMessage) else pixel.b
        {
          if bitIndex >= |binaryMessage| {
            break;
          }
          var bit := BitOf(binaryMessage[bitIndex]);
          bitIndex := bitIndex + 1;
          if channel == 0 {
            r := ReplaceLsb(r, bit);
          } else if channel == 1 {
            g := ReplaceLsb(g, bit);
          } else {
            b := ReplaceLsb(b, bit);
          }
        }
        assert Pixel(r, g, b, pixel.a) == PayloadPixel(pixel, y * width + x, binaryMessage);
        encodingImage.SetPixel(x, y, Pixel(r, g, b, pixel.a));
      }
    }
    assert encodingImage.pixels[..] == WithPayload(old(encodingImage.pixels[..]), binaryMessage);
  }

  /** The header pass stores header digit i (i < 32) as the least
      significant bit of channel i % 3 of the pixel at scan index i. */
  lemma HeaderPlacement(ps: seq<Pixel>, header: string, i: nat)
    requires |header| >= PIXELS_TO_FIND_LENGTH && IsBinary(header)
    requires i < PIXELS_TO_FIND_LENGTH <= |ps|
    ensures DigitOf(ChannelOf(WithHeader(ps, header)[i], i % 3)) == header[i]
  {
    DigitRoundTrip(ChannelOf(ps[i], i % 3), header[i]);
  }

  /** The header pass touches only channel i % 3 of the pixels at scan
      indices i < 32, and of that channel only the least significant bit;
      alpha and every pixel from index 32 on are unchanged. */
  lemma HeaderPassFootprint(ps: seq<Pixel>, header: string, p: nat, c: nat)
    requires |header| >= PIXELS_TO_FIND_LENGTH
    requires p < |ps| && c < 3
    ensures WithHeader(ps, header)[p].a == ps[p].a
    ensures p >= PIXELS_TO_FIND_LENGTH || c != p % 3 ==>
      ChannelOf(WithHeader(ps, header)[p], c) == ChannelOf(ps[p], c)
    ensures ChannelOf(WithHeader(ps, header)[p], c) & 0xFE == ChannelOf(ps[p], c) & 0xFE
  {
  }

  /** The payload pass stores payload bit k as the least significant bit of
      channel k % 3 of the pixel at scan index 32 + k / 3. */
  lemma PayloadPlacement(ps: seq<Pixel>, bits: string, k: nat)
    requires IsBinary(bits) && k < |bits| && PIXELS_TO_FIND_LENGTH + k / 3 < |ps|
    ensures DigitOf(ChannelOf(WithPayload(ps, bits)[PIXELS_TO_FIND_LENGTH + k / 3], k % 3)) == bits[k]
  {
    var p := PIXELS_TO_FIND_LENGTH + k / 3;
    assert 3 * (p - PIXELS_TO_FIND_LENGTH) + k % 3 == k;
    DigitRoundTrip(ChannelOf(ps[p], k % 3), bits[k]);
  }

  /** The payload pass leaves the pixels below scan index 32 as they are. */
  lemma PayloadSkipsHeader(ps: seq<Pixel>, bits: string, p: nat)
    requires p < PIXELS_TO_FIND_LENGTH && p < |ps|
    ensures WithPayload(ps, bits)[p] == ps[p]
  {
  }

  /** The payload pass keeps alpha and the upper seven bits of every channel,
      and leaves whole every channel past the last payload bit, including the
      rest of a partly written pixel. */
  lemma PayloadPassFootprint(ps: seq<Pixel>, bits: string, p: nat, c: nat)
    requires p < |ps| && c < 3
    ensures WithPayload(ps, bits)[p].a == ps[p].a
    ensures p >= PIXELS_TO_FIND_LENGTH && 3 * (p - PIXELS_TO_FIND_LENGTH) + c >= |bits| ==>
      ChannelOf(WithPayload(ps, bits)[p], c) == ChannelOf(ps[p], c)
    ensures ChannelOf(WithPayload(ps, bits)[p], c) & 0xFE == ChannelOf(ps[p], c) & 0xFE
  {
    var q := WithPayload(ps, bits)[p];
    assert q == PayloadPixel(ps[p], p, bits);
  }

  /** Header digit i of the encoded image, read from channel i % 3 of the
      pixel at scan index i, is bit 31 - i of the message's byte length. */
  lemma EncodedHeaderBit(ps: seq<Pixel>, message: seq<Byte>, i: nat)
    requires |ps| >= PIXELS_TO_FIND_LENGTH && |message| < Pow2(32) && i < PIXELS_TO_FIND_LENGTH
    ensures LsbValue(ChannelOf(Encoded(ps, message)[i], i % 3)) == BitAt(|message|, 31 - i)
  {
    var header := LengthHeader(|message|);
    var hs := WithHeader(ps, header);
    PayloadSkipsHeader(hs, BinaryMessage(message), i);
    HeaderPlacement(ps, header, i);
    LengthHeaderBits(|message|, i);
  }

  /** Payload bit k of the encoded image, read from channel k % 3 of the pixel
      at scan index 32 + k / 3, is bit 7 - k % 8 of message byte k / 8: bytes
      in order, most significant bit first. */
  lemma EncodedPayloadBit(ps: seq<Pixel>, message: seq<Byte>, k: nat)
    requires k < 8 * |message| && PIXELS_TO_FIND_LENGTH + k / 3 < |ps|
    ensures LsbValue(ChannelOf(Encoded(ps, message)[PIXELS_TO_FIND_LENGTH + k / 3], k % 3)) ==
            BitAt(message[k / 8], 7 - k % 8)
  {
    var hs := WithHeader(ps, LengthHeader(|message|));
    PayloadPlacement(hs, BinaryMessage(message), k);
    BinaryMessageBit(message, k);
  }

  /** Encoding changes nothing but least significant bits: every channel
      keeps its seven upper bits and alpha is kept whole. A channel that is
      neither the header channel of a header pixel nor reached by a payload
      bit is kept whole. */
  lemma EncodedChangesOnlyLsbs(ps: seq<Pixel>, message: seq<Byte>, p: nat, c: nat)
    requires p < |ps| && c < 3
    ensures Encoded(ps, message)[p].a == ps[p].a
    ensures ChannelOf(Encoded(ps, message)[p], c) & 0xFE == ChannelOf(ps[p], c) & 0xFE
    ensures (p < PIXELS_TO_FIND_LENGTH && c != p % 3) ||
            (p >= PIXELS_TO_FIND_LENGTH && 3 * (p - PIXELS_TO_FIND_LENGTH) + c >= 8 * |message|) ==>
      ChannelOf(Encoded(ps, message)[p], c) == ChannelOf(ps[p], c)
  {
    var header := LengthHeader(|message|);
    var bits := BinaryMessage(message);
    var hs := WithHeader(ps, header);
    assert Encoded(ps, message) == WithPayload(hs, bits);
    HeaderPassFootprint(ps, header, p, c);
    PayloadPassFootprint(hs, bits, p, c);
  }
}
