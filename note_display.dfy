/** The note display: what one analysis cycle shows on the 48-LED strip, the
    single-note display `freq_to_leds`, and the shutdown sequence of `main`. */
module NoteDisplay {
  import opened Ws2812
  import opened Pitch
  import opened Spectrum
  import opened LedStrip

  /** The pixel `j` of the strip after `detect_notes` has shown the notes `detected`:
      LEDs `4n .. 4n + 3` carry note `n`'s colour (halved by `set_pixel`) when `n` is
      detected, and every other LED is black. */
  function Layout(detected: seq<bool>, j: nat): Pixel
    requires |detected| == 12
  {
    if j < NumLeds && detected[j / LedsPerNote] then Dimmed(NoteColors[j / LedsPerNote]) else Black
  }

  /** The same layout for the notes detected in a spectrum. */
  ghost function NoteLayout(mags: seq<real>, semitone: real -> int, j: nat): Pixel
  {
    Layout(seq(12, n => NoteSounds(mags, semitone, n)), j)
  }

  /** Each note owns a block of four LEDs, all inside the 48-LED strip, and the block
      shows the note's colour exactly when the note is detected. */
  lemma NoteBlock(mags: seq<real>, semitone: real -> int, n: nat, j: nat)
    requires n < 12 && LedsPerNote * n <= j < LedsPerNote * n + LedsPerNote
    ensures j < NumLeds
    ensures NoteLayout(mags, semitone, j) == if NoteSounds(mags, semitone, n) then Dimmed(NoteColors[n]) else Black
  {
    assert j / LedsPerNote == n;
  }

  /** `detect_notes`: clears the strip, finds the detected notes, lights the block of
      each detected note with its colour and shows the strip once. */
  method DetectNotes(strip: Pi5NeoCpp, fftMagnitude: array<real>, semitone: real -> int, written: int) returns (ok: bool)
    requires strip.Valid() && fftMagnitude.Length == NOut
    requires forall i :: MinIndex <= i < NOut && fftMagnitude[i] > MinMagnitude as real ==> BinMidi(semitone, i) >= 0
    modifies strip`frames, strip.pixels
    ensures forall j :: 0 <= j < strip.numLeds ==> strip.pixels[j] == NoteLayout(fftMagnitude[..], semitone, j)
    ensures strip.frames == old(strip.frames) + [Encode(strip.pixels[..])]
    ensures ok <==> written == 24 * strip.numLeds
  {
    strip.Clear();
    var detected, magnitude := FindNotes(fftMagnitude[..], semitone);
    var noteIdx := 0;
    while noteIdx < 12
      invariant 0 <= noteIdx <= 12
      invariant strip.frames == old(strip.frames)
      invariant forall j :: 0 <= j < strip.numLeds ==>
                  strip.pixels[j] == if j < LedsPerNote * noteIdx then Layout(detected, j) else Black
    {
      if detected[noteIdx] {
        var color := NoteColors[noteIdx];
        var i := 0;
        while i < LedsPerNote
          invariant 0 <= i <= LedsPerNote
          invariant strip.frames == old(strip.frames)
          invariant forall j :: 0 <= j < strip.numLeds ==>
                      strip.pixels[j] == if j < LedsPerNote * noteIdx + i then Layout(detected, j) else Black
        {
          assert (LedsPerNote * noteIdx + i) / LedsPerNote == noteIdx;
          strip.SetPixel(LedsPerNote * noteIdx + i, color.r, color.g, color.b);
          i := i + 1;
        }
      } else {
        forall j | LedsPerNote * noteIdx <= j < LedsPerNote * noteIdx + LedsPerNote
          ensures Layout(detected, j) == Black
        {
          assert j / LedsPerNote == noteIdx;
        }
      }
      noteIdx := noteIdx + 1;
    }
    ok := strip.Show(written);
  }

  /** `freq_to_leds`: a frequency of 0 changes nothing and sends nothing. Any other
      frequency paints the first 48 LEDs with its note's colour (halved) and shows the
      strip once. The frequency's MIDI number must be non-negative: its note index is
      used as a table position. */
  method FreqToLeds(strip: Pi5NeoCpp, frequency: real, semitone: real -> int, written: int) returns (ok: bool)
    requires strip.Valid()
    requires frequency != 0.0 ==> semitone(frequency) + A4Midi >= 0
    modifies strip`frames, strip.pixels
    ensures frequency == 0.0 ==> ok && strip.pixels[..] == old(strip.pixels[..]) && strip.frames == old(strip.frames)
    ensures frequency != 0.0 ==>
              var color := Dimmed(NoteColors[PitchOf(semitone(frequency) + A4Midi).index]);
              && (forall j :: 0 <= j < strip.numLeds ==>
                    strip.pixels[j] == if j < NumLeds then color else old(strip.pixels[j]))
              && strip.frames == old(strip.frames) + [Encode(strip.pixels[..])]
              && (ok <==> written == 24 * strip.numLeds)
  {
    if frequency == 0.0 {
      return true;
    }
    var midi := semitone(frequency) + A4Midi;
    var note := PitchOf(midi);
    var color := NoteColors[note.index];
    var i := 0;
    while i < NumLeds
      invariant 0 <= i <= NumLeds
      invariant strip.frames == old(strip.frames)
      invariant forall j :: 0 <= j < strip.numLeds ==>
                  strip.pixels[j] == if j < i then Dimmed(color) else old(strip.pixels[j])
    {
      strip.SetPixel(i, color.r, color.g, color.b);
      i := i + 1;
    }
    ok := strip.Show(written);
  }

  /** One pass of the main loop when a new frame is flagged: the magnitudes of the new
      spectrum are stored, the peak search runs (its result is not used), and
      `detect_notes` shows the notes of that spectrum. */
  method AnalysisCycle(strip: Pi5NeoCpp, fftMagnitude: array<real>, spectrum: seq<real>, semitone: real -> int, written: int)
    returns (ok: bool)
    requires strip.Valid() && fftMagnitude.Length == NOut && |spectrum| == NOut
    requires forall i :: MinIndex <= i < NOut && spectrum[i] > MinMagnitude as real ==> BinMidi(semitone, i) >= 0
    modifies fftMagnitude, strip`frames, strip.pixels
    ensures forall i :: 0 <= i < MinIndex ==> fftMagnitude[i] == old(fftMagnitude[i])
    ensures forall i :: MinIndex <= i < NOut ==> fftMagnitude[i] == spectrum[i]
    ensures forall j :: 0 <= j < strip.numLeds ==> strip.pixels[j] == NoteLayout(spectrum, semitone, j)
    ensures strip.frames == old(strip.frames) + [Encode(strip.pixels[..])]
    ensures ok <==> written == 24 * strip.numLeds
  {
    var peak := CalculateMagnitudes(fftMagnitude, spectrum);
    ok := DetectNotes(strip, fftMagnitude, semitone, written);
    forall n | 0 <= n < 12
      ensures NoteSounds(fftMagnitude[..], semitone, n) <==> NoteSounds(spectrum, semitone, n)
    {
      NoteSoundsIgnoresLowBins(fftMagnitude[..], spectrum, semitone, n);
    }
  }

  /** The end of `main`: clear and show the strip, then the strip's destructor clears and
      shows once more, swallowing a failure. A failure of the first show leaves `main`
      as an uncaught exception, which the model ends there. `written` and
      `writtenAtExit` are what the two writes return. */
  method Shutdown(strip: Pi5NeoCpp, written: int, writtenAtExit: int) returns (ok: bool)
    requires strip.Valid()
    modifies strip, strip.pixels
    ensures strip.pixels[..] == Blank(strip.numLeds)
    ensures ok <==> written == 24 * strip.numLeds
    ensures ok ==> strip.frames == old(strip.frames) + [Encode(Blank(strip.numLeds)), Encode(Blank(strip.numLeds))]
    ensures ok ==> !strip.deviceOpen
    ensures !ok ==> strip.frames == old(strip.frames) + [Encode(Blank(strip.numLeds))]
  {
    strip.Clear();
    ok := strip.Show(written);
    if ok {
      strip.Dispose(writtenAtExit);
    }
  }
}
