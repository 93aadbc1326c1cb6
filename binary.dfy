/** Binary strings as the encoder builds them: the shortest binary numeral of a
    number (PHP `decbin`, Java `Integer.toBinaryString`, JavaScript
    `toString(2)`), left padding with '0' (`str_pad`, `String.format("%Ns")`
    followed by `replace(' ', '0')`, `padStart`), the 8-digit rendering of one
    byte and the concatenated rendering of a whole message. A string of '0'/'1'
    is read back, most significant digit first, by FromBinary. */
module Binary {

  /** One unsigned byte of the UTF-8 encoded message. */
  type Byte = x: int | 0 <= x < 256

  function Pow2(k: nat): (r: nat)
    ensures r >= 1
  {
    if k == 0 then 1 else 2 * Pow2(k - 1)
  }

  lemma {:induction false} Pow2Grows(j: nat, k: nat)
    requires j <= k
    ensures Pow2(j) <= Pow2(k)
    decreases k
  {
    if j < k {
      Pow2Grows(j, k - 1);
    }
  }

  /** Bit j of n, counting from the least significant bit (j = 0). */
  function BitAt(n: nat, j: nat): (b: nat)
    ensures b <= 1
  {
    if j == 0 then n % 2 else BitAt(n / 2, j - 1)
  }

  predicate IsBinary(s: string)
  {
    forall i :: 0 <= i < |s| ==> s[i] == '0' || s[i] == '1'
  }

  /** The numeric value of one binary digit: `c - '0'` for '0' and '1'. */
  function DigitValue(c: char): (v: nat)
    ensures v <= 1
    ensures c == '0' || c == '1' ==> v == c as int - '0' as int
  {
    if c == '1' then 1 else 0
  }

  function Digit(b: nat): char
    requires b <= 1
  {
    if b == 1 then '1' else '0'
  }

  /** The value of a binary string read most significant digit first. */
  function FromBinary(s: string): (n: nat)
    ensures n < Pow2(|s|)
  {
    if s == [] then 0 else 2 * FromBinary(s[..|s| - 1]) + DigitValue(s[|s| - 1])
  }

  /** The shortest binary numeral of n; zero is rendered as "0". */
  function DecBin(n: nat): (s: string)
    ensures 1 <= |s| && IsBinary(s)
    ensures FromBinary(s) == n
    decreases n
  {
    if n < 2 then [Digit(n)]
    else
      var s := DecBin(n / 2) + [Digit(n % 2)];
      assert s[..|s| - 1] == DecBin(n / 2);
      s
  }

  /** Left padding with '0' up to `width` characters; a longer string is
      returned whole, never truncated. */
  function PadLeft(s: string, width: nat): (r: string)
    ensures |r| == if |s| >= width then |s| else width
    ensures IsBinary(s) ==> IsBinary(r)
  {
    if |s| >= width then s else Zeros(width - |s|) + s
  }

  function Zeros(k: nat): (z: string)
    ensures |z| == k && IsBinary(z)
  {
    seq(k, _ => '0')
  }

  lemma {:induction false} ZerosValue(k: nat)
    ensures FromBinary(Zeros(k)) == 0
  {
    if k > 0 {
      assert Zeros(k)[..k - 1] == Zeros(k - 1);
      ZerosValue(k - 1);
    }
  }

  /** Leading zeros do not change the value of a binary numeral. */
  lemma {:induction false} LeadingZeros(k: nat, s: string)
    ensures FromBinary(Zeros(k) + s) == FromBinary(s)
  {
    if s == [] {
      assert Zeros(k) + s == Zeros(k);
      ZerosValue(k);
    } else {
      var t := Zeros(k) + s;
      assert t[..|t| - 1] == Zeros(k) + s[..|s| - 1];
      assert t[|t| - 1] == s[|s| - 1];
      LeadingZeros(k, s[..|s| - 1]);
    }
  }

  /** A numeral of n has at most w digits when n < 2^w. */
  lemma {:induction false} DecBinFits(n: nat, w: nat)
    requires 1 <= w && n < Pow2(w)
    ensures |DecBin(n)| <= w
    decreases n
  {
    if n >= 2 {
      assert n / 2 < Pow2(w - 1);
      DecBinFits(n / 2, w - 1);
    }
  }

  /** Digit i of a binary string (most significant first) is bit |s|-1-i of
      its value. */
  lemma {:induction false} DigitIsBit(s: string, i: nat)
    requires IsBinary(s) && i < |s|
    ensures DigitValue(s[i]) == BitAt(FromBinary(s), |s| - 1 - i)
  {
    var p := s[..|s| - 1];
    assert FromBinary(s) == 2 * FromBinary(p) + DigitValue(s[|s| - 1]);
    if i < |s| - 1 {
      assert (2 * FromBinary(p) + DigitValue(s[|s| - 1])) / 2 == FromBinary(p);
      assert p[i] == s[i];
      DigitIsBit(p, i);
    }
  }

  /** Left-padded rendering of n on `width` digits: zero-padded, value n, and
      exactly `width` long when n fits. */
  lemma PadLeftDecBin(n: nat, width: nat)
    requires 1 <= width && n < Pow2(width)
    ensures |PadLeft(DecBin(n), width)| == width
    ensures IsBinary(PadLeft(DecBin(n), width))
    ensures FromBinary(PadLeft(DecBin(n), width)) == n
  {
    var d := DecBin(n);
    DecBinFits(n, width);
    if |d| < width {
      assert PadLeft(d, width) == Zeros(width - |d|) + d;
      LeadingZeros(width - |d|, d);
    }
  }

  /** PHP `toBinary`: one byte as exactly 8 binary digits, most significant
      first; reading the digits back gives the byte. */
  function ToBinary(b: Byte): (s: string)
    ensures |s| == 8 && IsBinary(s)
    ensures FromBinary(s) == b
  {
    assert Pow2(8) == 256;
    PadLeftDecBin(b, 8);
    PadLeft(DecBin(b), 8)
  }

  /** Digit j of the 8-digit rendering of b is bit 7-j of b. */
  lemma ToBinaryBits(b: Byte, j: nat)
    requires j < 8
    ensures DigitValue(ToBinary(b)[j]) == BitAt(b, 7 - j)
  {
    DigitIsBit(ToBinary(b), j);
  }

  /** The 32-digit header string: the message length in binary, most
      significant first, zero-padded on the left. A length of 2^32 or more
      renders as more than 32 digits, since the padding never truncates. */
  function LengthHeader(n: nat): (s: string)
    ensures |s| >= 32 && IsBinary(s)
    ensures n < Pow2(32) ==> |s| == 32 && FromBinary(s) == n
  {
    if n < Pow2(32) then PadLeftDecBin(n, 32); PadLeft(DecBin(n), 32)
    else PadLeft(DecBin(n), 32)
  }

  /** Header digit i (i < 32) is bit 31-i of the length. */
  lemma LengthHeaderBits(n: nat, i: nat)
    requires n < Pow2(32) && i < 32
    ensures DigitValue(LengthHeader(n)[i]) == BitAt(n, 31 - i)
  {
    DigitIsBit(LengthHeader(n), i);
  }

  /** The bit string of a whole message: the 8-digit renderings of its bytes,
      concatenated in byte order. */
  function BinaryMessage(m: seq<Byte>): (s: string)
    ensures |s| == 8 * |m| && IsBinary(s)
  {
    if m == [] then [] else BinaryMessage(m[..|m| - 1]) + ToBinary(m[|m| - 1])
  }

  /** Digits 8k..8k+7 of the message bit string are the rendering of byte k. */
  lemma {:induction false} BinaryMessageChunk(m: seq<Byte>, k: nat)
    requires k < |m|
    ensures BinaryMessage(m)[8 * k..8 * k + 8] == ToBinary(m[k])
  {
    var init := m[..|m| - 1];
    assert BinaryMessage(m) == BinaryMessage(init) + ToBinary(m[|m| - 1]);
    if k < |m| - 1 {
      BinaryMessageChunk(init, k);
    }
  }

  /** Digit j of the rendering of byte k sits at 8k + j in the message bit
      string. */
  lemma BinaryMessageDigit(m: seq<Byte>, k: nat, j: nat)
    requires k < |m| && j < 8
    ensures DigitValue(BinaryMessage(m)[8 * k + j]) == BitAt(m[k], 7 - j)
  {
    BinaryMessageChunk(m, k);
    assert BinaryMessage(m)[8 * k + j] == ToBinary(m[k])[j];
    ToBinaryBits(m[k], j);
  }

  /** Digit i of the message bit string is bit 7 - i % 8 of byte i / 8. */
  lemma BinaryMessageBit(m: seq<Byte>, i: nat)
    requires i < 8 * |m|
    ensures DigitValue(BinaryMessage(m)[i]) == BitAt(m[i / 8], 7 - i % 8)
  {
    BinaryMessageDigit(m, i / 8, i % 8);
  }

  /** Regrouping the message bit string by 8 and reading each group gives the
      bytes back. */
  lemma RegroupBytes(m: seq<Byte>)
    ensures forall k :: 0 <= k < |m| ==> FromBinary(BinaryMessage(m)[8 * k..8 * k + 8]) == m[k]
  {
    forall k | 0 <= k < |m|
      ensures FromBinary(BinaryMessage(m)[8 * k..8 * k + 8]) == m[k]
    {
      BinaryMessageChunk(m, k);
    }
  }

  /** PHP and Java `toBinaryMessage`: appends the rendering of each byte in
      turn. */
  method ToBinaryMessage(message: seq<Byte>) returns (binaryMessage: string)
    ensures binaryMessage == BinaryMessage(message)
  {
    binaryMessage := "";
    for i := 0 to |message|
      invariant binaryMessage == BinaryMessage(message[..i])
    {
      assert message[..i + 1][..i] == message[..i];
      binaryMessage := binaryMessage + ToBinary(message[i]);
    }
    assert message[..|message|] == message;
  }
}
