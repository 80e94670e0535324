/** The stand-alone WS2812 driver and its chase demo: a strip whose `set_pixel` stores
    colours unscaled. */
module LedDriver {
  import opened Ws2812

  /** A strip of `numLeds` WS2812 LEDs driven over SPI. The pixel buffer has the
      strip's length for the object's lifetime; `frames` records every buffer handed
      to the bus's `write`, in order. */
  class Pi5NeoCpp {
    const numLeds: u32
    const pixels: array<Pixel>
    var deviceOpen: bool
    ghost var frames: seq<seq<byte>>

    ghost predicate Valid()
    {
      pixels.Length == numLeds
    }

    /** Opens the device (its failures are not modelled) with every pixel black and
        nothing sent yet. */
    constructor (num: u32)
      ensures Valid() && numLeds == num && fresh(pixels)
      ensures pixels[..] == Blank(num)
      ensures deviceOpen && frames == []
    {
      numLeds := num;
      pixels := new Pixel[num](_ => Black);
      deviceOpen := true;
      frames := [];
    }

    /** Stores `(r, g, b)` at `index` when the index is on the strip; otherwise does
        nothing. Only the local buffer changes. */
    method SetPixel(index: u32, r: byte, g: byte, b: byte)
      requires Valid()
      modifies pixels
      ensures index < numLeds ==> pixels[..] == old(pixels[..])[index := Pixel(r, g, b)]
      ensures index >= numLeds ==> pixels[..] == old(pixels[..])
    {
      if index < numLeds {
        pixels[index] := Pixel(r, g, b);
      }
    }

    /** Turns every pixel of the local buffer black. */
    method Clear()
      requires Valid()
      modifies pixels
      ensures pixels[..] == Blank(numLeds)
    {
      var i: u32 := 0;
      while i < numLeds
        invariant i <= numLeds
        invariant forall j :: 0 <= j < i ==> pixels[j] == Black
      {
        pixels[i] := Black;
        i := i + 1;
      }
    }

    /** Encodes the buffer and writes it to the bus in one call; `written` is what that
        `write` returns. Fails (the source throws) exactly on a short write. The pixel
        buffer is left as it was. */
    method Show(written: int) returns (ok: bool)
      requires Valid()
      modifies this`frames
      ensures frames == old(frames) + [Encode(pixels[..])]
      ensures ok <==> written == 24 * numLeds
    {
      var buffer := EncodeFrame(pixels);
      frames := frames + [buffer];
      ok := written == |buffer|;
    }

    /** The destructor: clears the strip, sends the black frame whatever the write
        returns (a failure is swallowed), then closes the device. */
    method Dispose(written: int)
      requires Valid()
      modifies this, pixels
      ensures pixels[..] == Blank(numLeds)
      ensures frames == old(frames) + [Encode(Blank(numLeds))]
      ensures !deviceOpen
    {
      Clear();
      var sent := Show(written);
      deviceOpen := false;
    }
  }

  /** The demo's strip length and the number of frames the chase sends: three runs over
      every LED. */
  const ChaseLeds: u32 := 140
  const ChaseSteps: nat := 3 * 140

  /** The buffer after `clear(); set_pixel(i, 255, 0, 0)` on a strip of `n` LEDs. */
  function RedAt(n: nat, i: nat): (ps: seq<Pixel>)
    requires i < n
    ensures |ps| == n
    ensures forall j :: 0 <= j < n ==> (ps[j] != Black <==> j == i)
  {
    Blank(n)[i := Pixel(255, 0, 0)]
  }

  lemma AllOnes(i: nat)
    requires i < 8
    ensures BitAt(255, i) == 1
  {
    ShrAllOnes(i);
    assert Pow2(8 - i) == 2 * Pow2(7 - i);
  }

  lemma {:induction false} ShrAllOnes(i: nat)
    requires i <= 8
    ensures Shr(255, i) + 1 == Pow2(8 - i)
  {
    if i == 0 {
      assert Pow2(8) == 256;
    } else {
      ShrAllOnes(i - 1);
      assert Pow2(8 - (i - 1)) == 2 * Pow2(8 - i);
    }
  }

  /** The frame of one chase step: the only `0b110` bytes on the wire are the eight of
      pixel `i`'s red channel. */
  lemma ChaseFrameBytes(n: nat, i: nat, k: nat)
    requires i < n && k < 24 * n
    ensures Encode(RedAt(n, i))[k] == SpiOne <==> 24 * i + 8 <= k < 24 * i + 16
  {
    EncodeAt(RedAt(n, i), k);
    SplitPosition(k, k / 24, k % 24);
    if k / 24 == i && 8 <= k % 24 < 16 {
      AllOnes(7 - k % 8);
    }
  }

  /** The first `t` frames of the chase: frame `s` lights LED `s mod 140` red. */
  ghost function ChaseFrames(t: nat): (fs: seq<seq<byte>>)
    ensures |fs| == t
  {
    seq(t, s requires 0 <= s => Encode(RedAt(ChaseLeds, s % ChaseLeds)))
  }

  lemma ChaseFramesSnoc(t: nat)
    ensures ChaseFrames(t + 1) == ChaseFrames(t) + [Encode(RedAt(ChaseLeds, t % ChaseLeds))]
  {
    assert ChaseFrames(t + 1)[..t] == ChaseFrames(t);
  }

  /** One step of the chase: `clear(); set_pixel(i, 255, 0, 0); show();`. */
  method ChaseStep(strip: Pi5NeoCpp, i: u32, written: int) returns (ok: bool)
    requires strip.Valid() && i < strip.numLeds
    modifies strip`frames, strip.pixels
    ensures strip.pixels[..] == RedAt(strip.numLeds, i)
    ensures strip.frames == old(strip.frames) + [Encode(RedAt(strip.numLeds, i))]
    ensures ok <==> written == 24 * strip.numLeds
  {
    strip.Clear();
    strip.SetPixel(i, 255, 0, 0);
    assert strip.pixels[..] == RedAt(strip.numLeds, i);
    ok := strip.Show(written);
  }

  /** The demo's `main`: three chase runs, each frame lighting one LED red after a
      clear, then a final clear; leaving the scope runs the destructor, which clears and
      sends once more. The first failed write ends the demo with exit code 1, after
      the destructor. `written[t]` is what the `t`-th `write` returns; `frames` is what the
      strip handed to the bus. */
  method ChaseDemo(written: seq<int>) returns (exitCode: int, ghost frames: seq<seq<byte>>)
    requires |written| >= ChaseSteps + 2
    ensures exitCode == 0 || exitCode == 1
    ensures exitCode == 0 <==> forall t :: 0 <= t <= ChaseSteps ==> written[t] == 24 * ChaseLeds
    ensures 2 <= |frames| <= ChaseSteps + 2
    ensures forall t :: 0 <= t < |frames| - 1 && t < ChaseSteps ==> frames[t] == Encode(RedAt(ChaseLeds, t % ChaseLeds))
    ensures frames[|frames| - 1] == Encode(Blank(ChaseLeds))
    ensures exitCode == 0 ==> |frames| == ChaseSteps + 2 && frames[ChaseSteps] == Encode(Blank(ChaseLeds))
    ensures |frames| == ChaseSteps + 2 ==> frames[ChaseSteps] == Encode(Blank(ChaseLeds))
    ensures exitCode == 1 ==>
              && written[|frames| - 2] != 24 * ChaseLeds
              && forall t :: 0 <= t < |frames| - 2 ==> written[t] == 24 * ChaseLeds
  {
    var strip := new Pi5NeoCpp(ChaseLeds);
    var t := 0;
    var j := 0;
    while j < 3
      invariant 0 <= j <= 3 && t == ChaseLeds * j
      invariant strip.Valid() && strip.numLeds == ChaseLeds && fresh(strip.pixels)
      invariant strip.frames == ChaseFrames(t)
      invariant forall s :: 0 <= s < t ==> written[s] == 24 * ChaseLeds
    {
      var i: u32 := 0;
      while i < ChaseLeds
        invariant 0 <= i <= ChaseLeds && t == ChaseLeds * j + i
        invariant strip.Valid() && strip.numLeds == ChaseLeds && fresh(strip.pixels)
        invariant strip.frames == ChaseFrames(t)
        invariant forall s :: 0 <= s < t ==> written[s] == 24 * ChaseLeds
      {
        assert t % ChaseLeds == i;
        ChaseFramesSnoc(t);
        var ok := ChaseStep(strip, i, written[t]);
        t := t + 1;
        if !ok {
          strip.Dispose(written[t]);
          return 1, strip.frames;
        }
        i := i + 1;
      }
      j := j + 1;
    }
    strip.Clear();
    var ok := strip.Show(written[t]);
    if !ok {
      strip.Dispose(written[t + 1]);
      return 1, strip.frames;
    }
    strip.Dispose(written[t + 1]);
    return 0, strip.frames;
  }
}
