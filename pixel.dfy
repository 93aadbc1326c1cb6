/** Pixels and their colour channels. A channel is an 8-bit value; a pixel has
    red, green and blue channels, which the encoder writes, and an alpha
    channel, which only the Jimp-based variant carries and which the encoder
    writes back unchanged. */
module Pixels {
  import opened Binary

  type Channel = bv8

  /** A single hidden bit, as the value 0 or 1 of a channel. */
  type Bit = b: bv8 | b <= 1

  datatype Pixel = Pixel(r: Channel, g: Channel, b: Channel, a: Channel)

  /** Clears the least significant bit of a channel. */
  const LSB_MASK: bv8 := 0xFE

  /** Channel c of a pixel, in the cyclic order red (0), green (1), blue (2). */
  function ChannelOf(p: Pixel, c: nat): Channel
    requires c < 3
  {
    if c == 0 then p.r else if c == 1 then p.g else p.b
  }

  /** The pixel p with channel c replaced by v. */
  function WithChannel(p: Pixel, c: nat, v: Channel): (q: Pixel)
    requires c < 3
    ensures ChannelOf(q, c) == v && q.a == p.a
    ensures forall d :: 0 <= d < 3 && d != c ==> ChannelOf(q, d) == ChannelOf(p, d)
  {
    if c == 0 then p.(r := v) else if c == 1 then p.(g := v) else p.(b := v)
  }

  /** `replaceLSB`: the least significant bit becomes `bit`, the seven upper
      bits are those of `value`. */
  function ReplaceLsb(value: Channel, bit: Bit): (r: Channel)
    ensures r & 1 == bit
    ensures r & 0xFE == value & 0xFE
  {
    (value & LSB_MASK) | bit
  }

  /** A binary digit of a bit string turned into the bit it stands for
      (`charAt(i) - '0'` in Java, `parseInt` in TypeScript, the numeric string
      in PHP): the digit's value as a channel-sized number. */
  function BitOf(c: char): (b: Bit)
    ensures c == '0' || c == '1' ==> b as int == c as int - '0' as int
  {
    if DigitValue(c) == 1 then 1 else 0
  }

  /** The least significant bit of a channel, as a number. */
  function LsbValue(v: Channel): (n: nat)
    ensures n <= 1
    ensures n == 1 <==> v & 1 == 1
  {
    if v & 1 == 0 then 0 else 1
  }

  /** The least significant bit of a channel, as a binary digit. */
  function DigitOf(v: Channel): (c: char)
    ensures IsBinary([c])
    ensures DigitValue(c) == LsbValue(v)
  {
    Digit(LsbValue(v))
  }

  /** Writing a binary digit into a channel and reading it back gives the
      digit. */
  lemma DigitRoundTrip(v: Channel, c: char)
    requires c == '0' || c == '1'
    ensures DigitOf(ReplaceLsb(v, BitOf(c))) == c
  {
  }

  /** The packed 24-bit colour `(r << 16) | (g << 8) | b` that Java's
      `setRGB` receives (and that GD's `imagecolorallocate` returns for a
      true-colour image). Unpacking it gives the three channels back. */
  function PackRgb(r: Channel, g: Channel, b: Channel): (rgb: bv32)
    ensures RedOf(rgb) == r && GreenOf(rgb) == g && BlueOf(rgb) == b
    ensures rgb >> 24 == 0
  {
    ((r as bv32) << 16) | ((g as bv32) << 8) | (b as bv32)
  }

  /** `(rgb >> 16) & 0xFF`. Java's `>>` is an arithmetic shift of a signed
      int; the mask keeps only bits 16..23, where it agrees with a logical
      shift. */
  function RedOf(rgb: bv32): Channel
  {
    ((rgb >> 16) & 0xFF) as bv8
  }

  /** `(rgb >> 8) & 0xFF`. */
  function GreenOf(rgb: bv32): Channel
  {
    ((rgb >> 8) & 0xFF) as bv8
  }

  /** `rgb & 0xFF`. */
  function BlueOf(rgb: bv32): Channel
  {
    (rgb & 0xFF) as bv8
  }

  /** Unpacking and repacking keeps the colour channels and drops the top
      byte (alpha), which is why the Java and PHP variants do not preserve
      alpha. */
  lemma RepackDropsAlpha(rgb: bv32)
    ensures PackRgb(RedOf(rgb), GreenOf(rgb), BlueOf(rgb)) == rgb & 0xFF_FFFF
  {
  }
}
