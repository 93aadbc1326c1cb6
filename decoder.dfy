/** The decoder as a specification: it reads the encoder's layout back. The
    repository's `decodeMessage` only throws; the round trip stated here is the
    one its tests expect of it. Decoding reads the 32 header digits from
    channel i % 3 of the pixels at scan indices i < 32, then 8 × length payload
    digits from channel k % 3 of the pixel at scan index 32 + k / 3, and
    regroups them by 8 into bytes. A grid with fewer than 32 pixels, or too few
    pixels for the length its header declares, decodes to None. */
module Decoding {
  import opened Binary
  import opened Pixels
  import opened Steganography

  datatype Option<T> = None | Some(value: T)

  /** The 32 header digits hidden in the pixels at scan indices 0..31. */
  function ReadHeader(ps: seq<Pixel>): (s: string)
    requires |ps| >= PIXELS_TO_FIND_LENGTH
    ensures |s| == PIXELS_TO_FIND_LENGTH && IsBinary(s)
  {
    seq(PIXELS_TO_FIND_LENGTH, i requires 0 <= i < PIXELS_TO_FIND_LENGTH => DigitOf(ChannelOf(ps[i], i % 3)))
  }

  /** The first `count` payload digits, three per pixel from scan index 32. */
  function ReadPayload(ps: seq<Pixel>, count: nat): (s: string)
    requires |ps| >= PIXELS_TO_FIND_LENGTH && count <= 3 * (|ps| - PIXELS_TO_FIND_LENGTH)
    ensures |s| == count && IsBinary(s)
  {
    seq(count, k requires 0 <= k < count => DigitOf(ChannelOf(ps[PIXELS_TO_FIND_LENGTH + k / 3], k % 3)))
  }

  /** Groups of 8 digits read as bytes. */
  function Regroup(bits: string, n: nat): (bytes: seq<Byte>)
    requires |bits| == 8 * n
    ensures |bytes| == n
  {
    seq(n, j requires 0 <= j < n =>
      var v := FromBinary(bits[8 * j..8 * j + 8]);
      assert Pow2(8) == 256;
      v)
  }

  function Decode(ps: seq<Pixel>): (r: Option<seq<Byte>>)
    ensures r.Some? ==> |ps| >= PIXELS_TO_FIND_LENGTH &&
                        |r.value| == FromBinary(ReadHeader(ps)) &&
                        8 * |r.value| <= 3 * (|ps| - PIXELS_TO_FIND_LENGTH)
  {
    if |ps| < PIXELS_TO_FIND_LENGTH then None
    else
      var n := FromBinary(ReadHeader(ps));
      if 8 * n > 3 * (|ps| - PIXELS_TO_FIND_LENGTH) then None
      else Some(Regroup(ReadPayload(ps, 8 * n), n))
  }

  /** The header digits read back from an encoded image are the 32-digit
      rendering of the message length. */
  lemma ReadEncodedHeader(ps: seq<Pixel>, message: seq<Byte>)
    requires |ps| >= PIXELS_TO_FIND_LENGTH && |message| < Pow2(32)
    ensures ReadHeader(Encoded(ps, message)) == LengthHeader(|message|)
  {
    var header := LengthHeader(|message|);
    var hs := WithHeader(ps, header);
    var qs := Encoded(ps, message);
    forall i | 0 <= i < PIXELS_TO_FIND_LENGTH
      ensures ReadHeader(qs)[i] == header[i]
    {
      PayloadSkipsHeader(hs, BinaryMessage(message), i);
      HeaderPlacement(ps, header, i);
    }
  }

  /** The payload digits read back from an encoded image are the message's
      bit string, when it fits. */
  lemma ReadEncodedPayload(ps: seq<Pixel>, message: seq<Byte>)
    requires |ps| >= PIXELS_TO_FIND_LENGTH && 8 * |message| <= 3 * (|ps| - PIXELS_TO_FIND_LENGTH)
    ensures ReadPayload(Encoded(ps, message), 8 * |message|) == BinaryMessage(message)
  {
    var bits := BinaryMessage(message);
    var hs := WithHeader(ps, LengthHeader(|message|));
    var qs := Encoded(ps, message);
    assert qs == WithPayload(hs, bits);
    forall k | 0 <= k < |bits|
      ensures ReadPayload(qs, |bits|)[k] == bits[k]
    {
      PayloadPlacement(hs, bits, k);
    }
  }

  /** Round trip: decoding the encoded image gives the message back, whenever
      its length fits the 32-bit header and its 8 × length bits fit in the
      3 × (width × height − 32) channels after the header. */
  lemma EncodeDecodeRoundTrip(ps: seq<Pixel>, message: seq<Byte>)
    requires |ps| >= PIXELS_TO_FIND_LENGTH && |message| < Pow2(32)
    requires 8 * |message| <= 3 * (|ps| - PIXELS_TO_FIND_LENGTH)
    ensures Decode(Encoded(ps, message)) == Some(message)
  {
    var qs := Encoded(ps, message);
    var n := |message|;
    ReadEncodedHeader(ps, message);
    assert FromBinary(ReadHeader(qs)) == n;
    assert Decode(qs) == Some(Regroup(ReadPayload(qs, 8 * n), n));
    ReadEncodedPayload(ps, message);
    RegroupMessage(message);
  }

  /** Regrouping a message's bit string by 8 gives the message. */
  lemma RegroupMessage(message: seq<Byte>)
    ensures Regroup(BinaryMessage(message), |message|) == message
  {
    RegroupBytes(message);
  }

  /** A message too long for the image is silently cut short by the encoder:
      the header still declares its full length, so the image decodes to
      None rather than to the message. */
  lemma OverCapacityIsLost(ps: seq<Pixel>, message: seq<Byte>)
    requires |ps| >= PIXELS_TO_FIND_LENGTH && |message| < Pow2(32)
    requires 8 * |message| > 3 * (|ps| - PIXELS_TO_FIND_LENGTH)
    ensures Decode(Encoded(ps, message)) == None
  {
    ReadEncodedHeader(ps, message);
  }

  /** A payload pixel depends only on the payload bits it can hold: when all
      three of its bit indices lie below `cap`, bit strings that agree on
      their first `cap` bits give the same pixel. */
  lemma PayloadPixelAgrees(px: Pixel, p: nat, b1: string, b2: string, cap: nat)
    requires p >= PIXELS_TO_FIND_LENGTH && 3 * (p - PIXELS_TO_FIND_LENGTH) + 3 <= cap
    requires cap <= |b1| && cap <= |b2| && b1[..cap] == b2[..cap]
    ensures PayloadPixel(px, p, b1) == PayloadPixel(px, p, b2)
  {
    var k := 3 * (p - PIXELS_TO_FIND_LENGTH);
    assert b1[k] == b1[..cap][k] && b2[k] == b2[..cap][k];
    assert b1[k + 1] == b1[..cap][k + 1] && b2[k + 1] == b2[..cap][k + 1];
    assert b1[k + 2] == b1[..cap][k + 2] && b2[k + 2] == b2[..cap][k + 2];
  }

  /** Bits past the 3 × (width × height − 32) payload channels never reach
      the image: two messages of the same length that do not fit, and agree
      on the bits that do, encode to the same image. No decoder can tell
      them apart. */
  lemma SamePrefixSameImage(ps: seq<Pixel>, m1: seq<Byte>, m2: seq<Byte>)
    requires |ps| >= PIXELS_TO_FIND_LENGTH && |m1| == |m2|
    requires 3 * (|ps| - PIXELS_TO_FIND_LENGTH) <= 8 * |m1|
    requires BinaryMessage(m1)[..3 * (|ps| - PIXELS_TO_FIND_LENGTH)] ==
             BinaryMessage(m2)[..3 * (|ps| - PIXELS_TO_FIND_LENGTH)]
    ensures Encoded(ps, m1) == Encoded(ps, m2)
  {
    var cap := 3 * (|ps| - PIXELS_TO_FIND_LENGTH);
    var hs := WithHeader(ps, LengthHeader(|m1|));
    var b1, b2 := BinaryMessage(m1), BinaryMessage(m2);
    var e1, e2 := Encoded(ps, m1), Encoded(ps, m2);
    assert e1 == WithPayload(hs, b1) && e2 == WithPayload(hs, b2);
    forall p | 0 <= p < |ps|
      ensures e1[p] == e2[p]
    {
      if p >= PIXELS_TO_FIND_LENGTH {
        PayloadPixelAgrees(hs[p], p, b1, b2, cap);
      }
    }
  }

  /** The empty message: the header is 32 zero digits, no pixel from scan
      index 32 on changes, and it decodes to the empty message. */
  lemma EmptyMessage(ps: seq<Pixel>)
    requires |ps| >= PIXELS_TO_FIND_LENGTH
    ensures ReadHeader(Encoded(ps, [])) == Zeros(32)
    ensures forall p :: PIXELS_TO_FIND_LENGTH <= p < |ps| ==> Encoded(ps, [])[p] == ps[p]
    ensures Decode(Encoded(ps, [])) == Some([])
  {
    assert Pow2(32) > 0;
    ReadEncodedHeader(ps, []);
    assert LengthHeader(0) == Zeros(32);
    EncodeDecodeRoundTrip(ps, []);
  }

  /** "Ho! Ho! Ho! 🎅" as UTF-8: twelve ASCII bytes and the four bytes of
      U+1F385. */
  const SANTA_MESSAGE: seq<Byte> :=
    [72, 111, 33, 32, 72, 111, 33, 32, 72, 111, 33, 32, 0xF0, 0x9F, 0x8E, 0x85]

  /** A 256 × 256 opaque white image. */
  function WhiteImage(): (ps: seq<Pixel>)
    ensures |ps| == 256 * 256
  {
    seq(256 * 256, _ => Pixel(0xFF, 0xFF, 0xFF, 0xFF))
  }

  /** The multibyte test case: the stored length is the UTF-8 byte count (16,
      not the 13 characters), and decoding gives the message back. */
  lemma SantaMessageRoundTrip()
    ensures FromBinary(ReadHeader(Encoded(WhiteImage(), SANTA_MESSAGE))) == 16
    ensures Decode(Encoded(WhiteImage(), SANTA_MESSAGE)) == Some(SANTA_MESSAGE)
  {
    assert Pow2(32) > 16 by {
      assert Pow2(8) == 256;
      Pow2Grows(8, 32);
    }
    ReadEncodedHeader(WhiteImage(), SANTA_MESSAGE);
    EncodeDecodeRoundTrip(WhiteImage(), SANTA_MESSAGE);
  }
}
