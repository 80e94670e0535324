/** The strip driver the note display uses. It differs from the stand-alone driver in
    one respect: `set_pixel` halves every channel before storing it. */
module LedStrip {
  import opened Ws2812

  /** `c * 0.5` computed in floating point and cast back to `uint8_t`: the product is
      exact for every byte, and the cast truncates, so this is halving rounded down. */
  function Halve(c: byte): (h: byte)
    ensures h == c / 2
  {
    ((c as real) * 0.5).Floor
  }

  /** The colour `set_pixel` actually stores for a requested colour. */
  function Dimmed(p: Pixel): (d: Pixel)
    ensures 2 * d.r <= p.r <= 2 * d.r + 1
    ensures 2 * d.g <= p.g <= 2 * d.g + 1
    ensures 2 * d.b <= p.b <= 2 * d.b + 1
  {
    Pixel(Halve(p.r), Halve(p.g), Halve(p.b))
  }

  /** A strip of `numLeds` WS2812 LEDs driven over SPI. The pixel buffer has the
      strip's length for the object's lifetime; `frames` records every buffer handed
      to the bus's `write`, in order. */
  class Pi5NeoCpp {
    const numLeds: u32
    const pixels: array<Pixel>
    var deviceOpen: bool
    ghost var frames: seq<seq<byte>>

    ghost predicate Valid()
    {
      pixels.Length == numLeds
    }

    /** Sizes the buffer to `num` black pixels and opens the device (its failures are
        not modelled). Nothing is sent. */
    constructor (num: u32)
      ensures Valid() && numLeds == num && fresh(pixels)
      ensures pixels[..] == Blank(num)
      ensures deviceOpen && frames == []
    {
      numLeds := num;
      pixels := new Pixel[num](_ => Black);
      deviceOpen := true;
      frames := [];
    }

    /** Stores the halved colour at `index` when the index is on the strip; otherwise
        does nothing. Only the local buffer changes. */
    method SetPixel(index: u32, r: byte, g: byte, b: byte)
      requires Valid()
      modifies pixels
      ensures index < numLeds ==> pixels[..] == old(pixels[..])[index := Pixel(r / 2, g / 2, b / 2)]
      ensures index >= numLeds ==> pixels[..] == old(pixels[..])
    {
      if index < numLeds {
        pixels[index] := Dimmed(Pixel(r, g, b));
      }
    }

    /** Turns every pixel of the local buffer black. */
    method Clear()
      requires Valid()
      modifies pixels
      ensures pixels[..] == Blank(numLeds)
    {
      var i: u32 := 0;
      while i < numLeds
        invariant i <= numLeds
        invariant forall j :: 0 <= j < i ==> pixels[j] == Black
      {
        pixels[i] := Black;
        i := i + 1;
      }
    }

    /** Encodes the buffer and writes it to the bus in one call; `written` is what that
        `write` returns. Fails (the source throws) exactly on a short write. The pixel
        buffer is left as it was. */
    method Show(written: int) returns (ok: bool)
      requires Valid()
      modifies this`frames
      ensures frames == old(frames) + [Encode(pixels[..])]
      ensures ok <==> written == 24 * numLeds
    {
      var buffer := EncodeFrame(pixels);
      frames := frames + [buffer];
      ok := written == |buffer|;
    }

    /** The destructor: clears the strip, sends the black frame whatever the write
        returns (a failure is swallowed), then closes the device. */
    method Dispose(written: int)
      requires Valid()
      modifies this, pixels
      ensures pixels[..] == Blank(numLeds)
      ensures frames == old(frames) + [Encode(Blank(numLeds))]
      ensures !deviceOpen
    {
      Clear();
      var sent := Show(written);
      deviceOpen := false;
    }
  }
}
