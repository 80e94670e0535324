/** The fixed configuration of the note display and its integer pitch arithmetic: which
    frequency an FFT bin stands for, and which note and octave a MIDI number names.
    The step from a frequency to a MIDI number, `round(12 * log2(f / 440)) + 69`, is
    floating point; it reaches this model as a function `semitone` from a frequency to
    its rounded distance in semitones from A4. */
module Pitch {
  import opened Ws2812

  const FramesPerBuf := 2048
  const SampleRate := 44100
  /** Number of bins of a real-to-complex FFT of one frame. */
  const NOut := FramesPerBuf / 2 + 1
  /** Bins below 70 Hz are never computed or considered. */
  const MinFreq := 70
  const MinIndex := (MinFreq * FramesPerBuf) / SampleRate
  /** A bin counts as sounding when its magnitude exceeds this threshold. */
  const MinMagnitude := 45
  /** A4 (440 Hz) is MIDI note 69. */
  const A4Midi := 69
  /** The display's strip length and the LEDs it gives each of the 12 notes. */
  const NumLeds := 48
  const LedsPerNote := 4

  lemma Configuration()
    ensures NOut == 1025 && MinIndex == 3
    ensures BinFrequency(MinIndex) == 64
    ensures 12 * LedsPerNote == NumLeds
  {
  }

  /** `(fft_idx * SAMPLE_RATE) / FRAMES_PER_BUF` in integer arithmetic: the bin's
      frequency in Hz, rounded down, before it is converted to floating point. */
  function BinFrequency(idx: nat): (f: nat)
    ensures f * FramesPerBuf <= idx * SampleRate < (f + 1) * FramesPerBuf
  {
    (idx * SampleRate) / FramesPerBuf
  }

  /** C's `/` on `int`: truncation toward zero. */
  function CDiv(a: int, d: int): int
    requires d > 0
  {
    if a >= 0 then a / d else -((-a) / d)
  }

  /** C's `%` on `int`: the remainder takes the sign of the dividend. */
  function CRem(a: int, d: int): int
    requires d > 0
  {
    a - d * CDiv(a, d)
  }

  /** C's `/` truncates toward zero and `%` is what is left over, for the divisor 12 the
      note arithmetic uses: the quotient times 12 lies on the dividend's side of zero,
      within 12 of it, and the remainder has the dividend's sign. */
  lemma TruncatingDivision(a: int)
    ensures a == 12 * CDiv(a, 12) + CRem(a, 12)
    ensures a >= 0 ==> 0 <= 12 * CDiv(a, 12) <= a < 12 * CDiv(a, 12) + 12 && 0 <= CRem(a, 12) < 12
    ensures a < 0 ==> 12 * CDiv(a, 12) - 12 < a <= 12 * CDiv(a, 12) <= 0 && -12 < CRem(a, 12) <= 0
  {
    var n := if a >= 0 then a else -a;
    assert n == 12 * (n / 12) + n % 12 && 0 <= n % 12 < 12;
  }

  /** A note within its octave (0 is C, 9 is A) and the octave number. */
  datatype Note = Note(index: int, octave: int)

  /** `note_index = midi % 12` and `octave = midi / 12 - 1` with C's truncating
      operators. For a non-negative MIDI number this is the pitch class and scientific
      octave; for a negative one the index is not a valid table position. */
  function PitchOf(midi: int): (n: Note)
    ensures midi >= 0 ==> 0 <= n.index < 12 && midi == 12 * (n.octave + 1) + n.index
    ensures midi < 0 ==> -12 < n.index <= 0 && midi == 12 * (n.octave + 1) + n.index
  {
    Note(CRem(midi, 12), CDiv(midi, 12) - 1)
  }

  /** A4 is note 9 in octave 4 and middle C (MIDI 60) is note 0 in octave 4. */
  lemma ReferencePitches()
    ensures PitchOf(A4Midi) == Note(9, 4)
    ensures PitchOf(60) == Note(0, 4)
  {
  }

  /** Twelve semitones up is the same note one octave higher. */
  lemma {:induction false} OctaveUp(midi: int)
    requires midi >= 0
    ensures PitchOf(midi + 12) == Note(PitchOf(midi).index, PitchOf(midi).octave + 1)
  {
    var n, m := PitchOf(midi), PitchOf(midi + 12);
    assert 12 * (m.octave - n.octave - 1) == n.index - m.index;
  }

  /** The MIDI number the display assigns to FFT bin `idx`. */
  function BinMidi(semitone: real -> int, idx: nat): int
  {
    semitone(BinFrequency(idx) as real) + A4Midi
  }

  /** `fft_idx_to_note`: the note index of the bin's nearest semitone. */
  function BinNote(semitone: real -> int, idx: nat): (note: int)
    ensures BinMidi(semitone, idx) >= 0 ==> 0 <= note < 12
    ensures BinMidi(semitone, idx) >= 0 ==> (BinMidi(semitone, idx) - note) % 12 == 0
  {
    PitchOf(BinMidi(semitone, idx)).index
  }

  /** If a frequency twice as high lies twelve semitones higher, as it does under exact
      `log2`, both frequencies show the same note. */
  lemma SameNoteOctaveApart(semitone: real -> int, f: real)
    requires semitone(f) + A4Midi >= 0
    requires semitone(2.0 * f) == semitone(f) + 12
    ensures PitchOf(semitone(2.0 * f) + A4Midi).index == PitchOf(semitone(f) + A4Midi).index
  {
    OctaveUp(semitone(f) + A4Midi);
  }

  /** `notes_RGB`: the colour of each note index. */
  const NoteColors: seq<Pixel> := [
    Pixel(0, 0, 255),
    Pixel(0, 128, 255),
    Pixel(0, 255, 255),
    Pixel(0, 255, 128),
    Pixel(0, 255, 0),
    Pixel(128, 255, 0),
    Pixel(255, 255, 0),
    Pixel(255, 128, 0),
    Pixel(255, 0, 0),
    Pixel(255, 0, 128),
    Pixel(255, 0, 255),
    Pixel(128, 0, 255)
  ]

  /** The colours are twelve distinct colours, none of them black. */
  lemma NoteColorsDistinct()
    ensures |NoteColors| == 12
    ensures forall i, j :: 0 <= i < j < 12 ==> NoteColors[i] != NoteColors[j]
    ensures forall i :: 0 <= i < 12 ==> NoteColors[i] != Black
  {
  }
}
