/** The WS2812 single-wire protocol as the strip drivers emulate it on an SPI bus
    clocked at 2.4 MHz: the pixel type, the byte stream `show()` builds from a pixel
    buffer, a decoder for that stream, and the facts relating the two. */
module Ws2812 {

  /** An 8-bit unsigned value (`uint8_t`). */
  type byte = x: int | 0 <= x < 256

  /** A 32-bit unsigned value (`uint32_t`). */
  type u32 = x: int | 0 <= x < 0x1_0000_0000

  datatype Option<T> = None | Some(value: T)

  /** One LED: three 8-bit channels. */
  datatype Pixel = Pixel(r: byte, g: byte, b: byte)

  const Black: Pixel := Pixel(0, 0, 0)

  /** A buffer of `n` black pixels. */
  function Blank(n: nat): (ps: seq<Pixel>)
    ensures |ps| == n && forall i :: 0 <= i < n ==> ps[i] == Black
  {
    seq(n, _ => Black)
  }

  /** SPI bytes sent for one WS2812 bit: `0b100` (4) for a 0, `0b110` (6) for a 1.
      Indexed by the bit, as the driver's `spi_pattern` table is. */
  const SpiZero: byte := 4
  const SpiOne: byte := 6
  const SpiPatterns: seq<byte> := [SpiZero, SpiOne]

  /** The header's `PATTERN_0` and `PATTERN_1`: the same three SPI bits, left-aligned
      in a byte. No driver code uses them. */
  const Pattern0: byte := 0x80
  const Pattern1: byte := 0xC0

  lemma HeaderPatternsAlign()
    ensures Pattern1 / 32 == SpiOne && Pattern1 % 32 == 0
    ensures Pattern0 / 32 == SpiZero && Pattern0 % 32 == 0
  {
  }

  /** `c >> i` on a non-negative value. */
  function Shr(c: nat, i: nat): (r: nat)
    ensures r <= c
  {
    if i == 0 then c else Shr(c, i - 1) / 2
  }

  function Pow2(n: nat): (r: nat)
    ensures r >= 1
  {
    if n == 0 then 1 else 2 * Pow2(n - 1)
  }

  /** A byte shifted right by `i` has at most `8 - i` significant bits. */
  lemma {:induction false} ShrBelow(c: byte, i: nat)
    requires i <= 8
    ensures Shr(c, i) < Pow2(8 - i)
  {
    if i == 0 {
      assert Pow2(8) == 256;
    } else {
      ShrBelow(c, i - 1);
      assert Pow2(8 - (i - 1)) == 2 * Pow2(8 - i);
    }
  }

  /** `(c >> i) & 1`: bit `i` of `c`. */
  function BitAt(c: byte, i: nat): (bit: int)
    ensures bit == 0 || bit == 1
  {
    Shr(c, i) % 2
  }

  /** The eight SPI bytes of one colour channel, most significant bit first. */
  function EncodeChannel(c: byte): (s: seq<byte>)
    ensures |s| == 8
  {
    seq(8, j requires 0 <= j < 8 => SpiPatterns[BitAt(c, 7 - j)])
  }

  /** The order in which a pixel's channels go on the wire: green, red, blue. */
  function Grb(p: Pixel): seq<byte>
  {
    [p.g, p.r, p.b]
  }

  function EncodeChannels(cs: seq<byte>): (s: seq<byte>)
    ensures |s| == 8 * |cs|
  {
    if cs == [] then [] else EncodeChannels(cs[..|cs| - 1]) + EncodeChannel(cs[|cs| - 1])
  }

  function EncodePixel(p: Pixel): (s: seq<byte>)
    ensures |s| == 24
  {
    EncodeChannels(Grb(p))
  }

  /** The stream the final pass of `show()` pushes into `spi_buffer`: 24 bytes per
      pixel, every byte one of the two SPI patterns. */
  function Encode(ps: seq<Pixel>): (s: seq<byte>)
    ensures |s| == 24 * |ps|
    ensures forall k :: 0 <= k < |s| ==> s[k] == SpiZero || s[k] == SpiOne
  {
    if ps == [] then []
    else
      var s := Encode(ps[..|ps| - 1]) + EncodePixel(ps[|ps| - 1]);
      assert forall k :: |s| - 24 <= k < |s| ==> s[k] == EncodePixel(ps[|ps| - 1])[k - (|s| - 24)];
      forall k | |s| - 24 <= k < |s| ensures s[k] == SpiZero || s[k] == SpiOne {
        PixelAlphabet(ps[|ps| - 1], k - (|s| - 24));
      }
      s
  }

  lemma PixelAlphabet(p: Pixel, m: nat)
    requires m < 24
    ensures EncodePixel(p)[m] == SpiZero || EncodePixel(p)[m] == SpiOne
  {
    PixelAt(p, m);
  }

  /** Byte `m` of a channel list is bit `7 - m % 8` of channel `m / 8`. */
  lemma {:induction false} ChannelsAt(cs: seq<byte>, m: nat)
    requires m < 8 * |cs|
    ensures EncodeChannels(cs)[m] == SpiPatterns[BitAt(cs[m / 8], 7 - m % 8)]
  {
    var n := |cs|;
    if m < 8 * (n - 1) {
      ChannelsAt(cs[..n - 1], m);
    } else {
      assert m / 8 == n - 1;
    }
  }

  lemma PixelAt(p: Pixel, m: nat)
    requires m < 24
    ensures EncodePixel(p)[m] == SpiPatterns[BitAt(Grb(p)[m / 8], 7 - m % 8)]
  {
    ChannelsAt(Grb(p), m);
  }

  /** Division of a stream position into pixel and offset. */
  lemma SplitPosition(k: int, q: int, m: int)
    requires 0 <= m < 24 && k == 24 * q + m
    ensures k / 24 == q && k % 24 == m
  {
  }

  lemma EncodeSnoc(ps: seq<Pixel>)
    requires ps != []
    ensures Encode(ps) == Encode(ps[..|ps| - 1]) + EncodePixel(ps[|ps| - 1])
  {
  }

  /** The byte at position `k` of the stream is the pattern of bit `7 - k % 8` of
      channel `(k % 24) / 8` (green, red, blue) of pixel `k / 24`; in particular it is
      `0b110` exactly when that bit is set. */
  lemma {:induction false} EncodeAt(ps: seq<Pixel>, k: nat)
    requires k < 24 * |ps|
    ensures Encode(ps)[k] == SpiPatterns[BitAt(Grb(ps[k / 24])[(k % 24) / 8], 7 - k % 8)]
    ensures Encode(ps)[k] == SpiOne <==> BitAt(Grb(ps[k / 24])[(k % 24) / 8], 7 - k % 8) == 1
  {
    var n := |ps|;
    var init := ps[..n - 1];
    EncodeSnoc(ps);
    var q, m := k / 24, k % 24;
    if k < 24 * (n - 1) {
      EncodeAt(init, k);
      assert Encode(ps)[k] == Encode(init)[k];
      assert init[q] == ps[q];
    } else {
      SplitPosition(k, n - 1, k - 24 * (n - 1));
      assert Encode(ps)[k] == EncodePixel(ps[n - 1])[m];
      PixelAt(ps[n - 1], m);
    }
  }

  /** A cleared strip goes out as `0b100` bytes only: 24 per pixel. */
  lemma EncodeBlank(n: nat)
    ensures Encode(Blank(n)) == seq(24 * n, _ => SpiZero)
  {
    var s := Encode(Blank(n));
    forall k | 0 <= k < 24 * n ensures s[k] == SpiZero {
      EncodeAt(Blank(n), k);
    }
  }

  // ---------------------------------------------------------------------------
  // Decoding: reading each group of eight SPI bytes back as one channel byte.

  /** The WS2812 bit an SPI byte stands for (`0b110` is a 1, anything else a 0). */
  function BitOf(b: byte): int
  {
    if b == SpiOne then 1 else 0
  }

  /** The value of a run of SPI bytes read most significant bit first. */
  function BitsValue(s: seq<byte>): (v: nat)
    ensures v < Pow2(|s|)
  {
    if s == [] then 0 else 2 * BitsValue(s[..|s| - 1]) + BitOf(s[|s| - 1])
  }

  predicate WellFormed(s: seq<byte>)
  {
    |s| % 24 == 0 && forall k :: 0 <= k < |s| ==> s[k] == SpiZero || s[k] == SpiOne
  }

  function DecodeChannel(t: seq<byte>): (c: byte)
    requires |t| == 8
  {
    assert Pow2(8) == 256;
    BitsValue(t)
  }

  function DecodePixel(t: seq<byte>): Pixel
    requires |t| == 24
  {
    Pixel(DecodeChannel(t[8..16]), DecodeChannel(t[..8]), DecodeChannel(t[16..]))
  }

  function DecodePixels(s: seq<byte>): (ps: seq<Pixel>)
    requires |s| % 24 == 0
    ensures 24 * |ps| == |s|
  {
    if s == [] then [] else DecodePixels(s[..|s| - 24]) + [DecodePixel(s[|s| - 24..])]
  }

  /** Decodes an SPI stream into pixels; fails on a stream that `Encode` cannot produce. */
  function Decode(s: seq<byte>): Option<seq<Pixel>>
  {
    if WellFormed(s) then Some(DecodePixels(s)) else None
  }

  /** The first `n` bytes of a channel's encoding read back as the channel shifted right
      by `8 - n`. */
  lemma {:induction false} ChannelPrefixValue(c: byte, n: nat)
    requires n <= 8
    ensures BitsValue(EncodeChannel(c)[..n]) == Shr(c, 8 - n)
  {
    if n == 0 {
      ShrBelow(c, 8);
    } else {
      var e := EncodeChannel(c);
      ChannelPrefixValue(c, n - 1);
      assert e[..n][..n - 1] == e[..n - 1];
      assert BitOf(e[n - 1]) == BitAt(c, 8 - n);
    }
  }

  lemma ChannelRoundTrip(c: byte)
    ensures DecodeChannel(EncodeChannel(c)) == c
  {
    ChannelPrefixValue(c, 8);
    assert EncodeChannel(c)[..8] == EncodeChannel(c);
  }

  lemma PixelSplit(p: Pixel)
    ensures EncodePixel(p) == EncodeChannel(p.g) + EncodeChannel(p.r) + EncodeChannel(p.b)
  {
    var cs := Grb(p);
    var gr, g: seq<byte> := [p.g, p.r], [p.g];
    assert cs[..|cs| - 1] == gr && gr[..|gr| - 1] == g && g[..|g| - 1] == [];
    assert EncodeChannels(g) == EncodeChannel(p.g);
    assert EncodeChannels(gr) == EncodeChannel(p.g) + EncodeChannel(p.r);
  }

  lemma PixelRoundTrip(p: Pixel)
    ensures DecodePixel(EncodePixel(p)) == p
  {
    PixelSplit(p);
    var t := EncodePixel(p);
    assert t[..8] == EncodeChannel(p.g);
    assert t[8..16] == EncodeChannel(p.r);
    assert t[16..] == EncodeChannel(p.b);
    ChannelRoundTrip(p.g);
    ChannelRoundTrip(p.r);
    ChannelRoundTrip(p.b);
  }

  lemma DecodeSnoc(s: seq<byte>)
    requires |s| % 24 == 0 && s != []
    ensures DecodePixels(s) == DecodePixels(s[..|s| - 24]) + [DecodePixel(s[|s| - 24..])]
  {
  }

  /** Round trip: decoding the stream `show()` builds gives back the pixel buffer. */
  lemma {:induction false} DecodeEncode(ps: seq<Pixel>)
    ensures Decode(Encode(ps)) == Some(ps)
  {
    if ps != [] {
      var n := |ps|;
      var init, last := ps[..n - 1], ps[n - 1];
      var s := Encode(ps);
      EncodeSnoc(ps);
      DecodeEncode(init);
      assert s[..|s| - 24] == Encode(init);
      assert s[|s| - 24..] == EncodePixel(last);
      DecodeSnoc(s);
      PixelRoundTrip(last);
      assert DecodePixels(s) == init + [last];
      assert init + [last] == ps;
    }
  }

  /** Shifting a decoded value right by `k` drops the last `k` SPI bytes. */
  lemma {:induction false} ShrBitsValue(t: seq<byte>, k: nat)
    requires k <= |t|
    ensures Shr(BitsValue(t), k) == BitsValue(t[..|t| - k])
  {
    if k == 0 {
      assert t[..|t|] == t;
    } else {
      ShrBitsValue(t, k - 1);
      var u := t[..|t| - (k - 1)];
      assert u[..|u| - 1] == t[..|t| - k];
    }
  }

  lemma ChannelOfValue(t: seq<byte>)
    requires |t| == 8
    requires forall k :: 0 <= k < 8 ==> t[k] == SpiZero || t[k] == SpiOne
    ensures EncodeChannel(DecodeChannel(t)) == t
  {
    var c := DecodeChannel(t);
    forall j | 0 <= j < 8 ensures EncodeChannel(c)[j] == t[j] {
      ShrBitsValue(t, 7 - j);
      assert t[..j + 1][..j] == t[..j];
    }
  }

  lemma PixelOfValue(t: seq<byte>)
    requires |t| == 24
    requires forall k :: 0 <= k < 24 ==> t[k] == SpiZero || t[k] == SpiOne
    ensures EncodePixel(DecodePixel(t)) == t
  {
    var p := DecodePixel(t);
    ChannelOfValue(t[..8]);
    ChannelOfValue(t[8..16]);
    ChannelOfValue(t[16..]);
    PixelSplit(p);
    assert t == t[..8] + t[8..16] + t[16..];
  }

  /** The converse round trip: a stream that decodes is exactly the encoding of what it
      decodes to, so `Encode` and `Decode` are inverse on well-formed streams. */
  lemma {:induction false} EncodeDecode(s: seq<byte>, ps: seq<Pixel>)
    requires Decode(s) == Some(ps)
    ensures Encode(ps) == s
  {
    if s != [] {
      var n := |ps|;
      var init := s[..|s| - 24];
      var last := s[|s| - 24..];
      assert ps[..n - 1] == DecodePixels(init) && ps[n - 1] == DecodePixel(last);
      assert WellFormed(init) by {
        assert forall k :: 0 <= k < |init| ==> init[k] == s[k];
      }
      EncodeDecode(init, ps[..n - 1]);
      assert forall k :: 0 <= k < 24 ==> last[k] == s[|s| - 24 + k];
      PixelOfValue(last);
      assert s == init + last;
    }
  }

  // ---------------------------------------------------------------------------
  // The encoding loop of `show()`.

  /** The innermost loop: pushes one byte per bit of `c`, bit 7 down to bit 0. */
  method PushChannel(buffer: seq<byte>, c: byte) returns (out: seq<byte>)
    ensures out == buffer + EncodeChannel(c)
  {
    out := buffer;
    var i := 7;
    while i >= 0
      invariant -1 <= i <= 7
      invariant out == buffer + EncodeChannel(c)[..7 - i]
    {
      assert EncodeChannel(c)[..8 - i] == EncodeChannel(c)[..7 - i] + [SpiPatterns[BitAt(c, i)]];
      out := out + [SpiPatterns[BitAt(c, i)]];
      i := i - 1;
    }
    assert EncodeChannel(c)[..8] == EncodeChannel(c);
  }

  /** The middle loop: pushes the channels of `p` in wire order (green, red, blue). */
  method PushPixel(buffer: seq<byte>, p: Pixel) returns (out: seq<byte>)
    ensures out == buffer + EncodePixel(p)
  {
    var colors := Grb(p);
    out := buffer;
    var j := 0;
    while j < 3
      invariant 0 <= j <= 3
      invariant out == buffer + EncodeChannels(colors[..j])
    {
      out := PushChannel(out, colors[j]);
      assert colors[..j + 1][..j] == colors[..j];
      j := j + 1;
    }
    assert colors[..3] == colors;
  }

  /** Builds the SPI buffer from the pixel buffer, pixel by pixel, channel by channel
      (green, red, blue), bit 7 down to bit 0, one pushed byte per bit. */
  method EncodeFrame(pixels: array<Pixel>) returns (buffer: seq<byte>)
    ensures buffer == Encode(pixels[..])
  {
    buffer := [];
    var k := 0;
    while k < pixels.Length
      invariant 0 <= k <= pixels.Length
      invariant buffer == Encode(pixels[..k])
    {
      buffer := PushPixel(buffer, pixels[k]);
      assert pixels[..k + 1][..k] == pixels[..k];
      k := k + 1;
    }
    assert pixels[..k] == pixels[..];
  }
}
