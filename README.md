# Chromesthat note display and WS2812 strip driver, modelled in Dafny

Chromesthat listens to a mono audio stream, runs an FFT of every 2048-sample frame at
44100 Hz, and finds the musical notes whose bins are loud enough. It then lights a
48-LED WS2812 strip on a Raspberry Pi 5: four LEDs per note, each note in its own colour.
The drivers' comments intend three SPI bits per WS2812 bit at 2.4 MHz: `110` for a 1
and `100` for a 0. On an 8-bit SPI bus, the code actually sends each WS2812 bit as a
whole byte, `0b00000110` or `0b00000100` (see "Stream length" below).

This project models two parts of that system and proves properties of them.

- **The strip driver `Pi5NeoCpp`**, in both of its copies:
  - `LedStrip`: the one the display uses. Its `set_pixel` halves every channel.
  - `LedDriver`: the stand-alone driver with its chase demo. It stores colours unscaled.
  - `Ws2812`: the encoder both copies share. It gives the byte stream `show()` sends
    and a decoder for that stream.
  - The pixel buffer is a fixed-length `array<Pixel>`. `SetPixel` and `Clear` update it
    in place.
  - `Show` builds the stream with the source's nested push-back loops (`EncodeFrame`),
    then hands it to the bus in one write.
- **Note detection** in `src/main.cpp`:
  - `Pitch`: the configuration constants, the integer bin-to-Hz step, and MIDI number to
    note index and octave.
  - `Spectrum`: the truncated running-maximum peak search of `fft_calculate_magnitudes`
    and the note search of `detect_notes`.
  - `NoteDisplay`: how `detect_notes` and `freq_to_leds` light the strip, one analysis
    cycle, and the shutdown sequence of `main`.

Several things are outside the model and become parameters:

- **SPI write.** Each `Show` takes `written`, the byte count that `write` returns.
- **Bus log.** A ghost field `frames` records every buffer handed to `write`.
- **Spectrum.** The FFT magnitudes arrive as a `seq<real>`, one value per bin.
- **`log2`/`round`.** The floating-point step `round(12 * log2(f / 440))` is a function
  parameter `semitone: real -> int`. Everything around it is integer logic and is
  modelled exactly.

## Where the code and its documentation differ (the model follows the code)

- **Stream length.** `show()` goes through three encoding passes. Only the last one is
  transmitted: the first two are discarded by `spi_buffer.clear()`. The last pass pushes
  one SPI byte (`0b110` or `0b100`) per WS2812 bit. So the stream is `24 * num_leds`
  bytes, not the `9 * num_leds` that the comments in `show()` and the packed 3-bits-per-bit
  design promise. `Encode` models the pass that is sent.
- **Header constants.** `PATTERN_1`/`PATTERN_0` in the header are the same 3-bit
  patterns, left-aligned in a byte. No code uses them (`HeaderPatternsAlign`).
- **Halving.** The `src/` copy of `set_pixel` halves each channel through a
  floating-point `* 0.5` and a cast back to `uint8_t`. This is exactly `c / 2` rounded
  down (`Halve`). The other copy does not scale.
- **No flush on construction.** The constructor sizes the buffer to black pixels but
  sends nothing.
- **Two flushes at shutdown.** `main` clears and shows once, then the destructor clears
  and shows again (`Shutdown`).
- **Truncated peak search.** The peak search keeps an `int` running maximum, so each
  magnitude is truncated before it is stored. Its threshold test is on that truncated
  value.
- **Strict threshold in note detection.** `detect_notes` compares the untruncated
  magnitude strictly against 45.
- **Last write wins.** A note's recorded magnitude is that of its last sounding bin, not
  the maximum. The value is never read.
- **Note index and octave.** These use C's truncating `%` and `/`. For a non-negative
  MIDI number they are the pitch class and octave (`PitchOf`). For a negative one the
  index is zero or negative, so the model requires non-negative MIDI numbers wherever the
  index is used as a table position.
- **Colour-table labels.** The comments on `notes_RGB` label its rows in circle-of-fifths
  order (C, G, D, A, ...). The rows are indexed by chromatic note index (C, C#, D, ...),
  so row 1's colour is shown for C#.

## Model

| member | source | states |
|---|---|---|
| `Ws2812.HeaderPatternsAlign` | src/led_strip.h:29-36 | `PATTERN_1 >> 5` is `0b110` and `PATTERN_0 >> 5` is `0b100`; their low five bits are zero |
| `Ws2812.BitAt` | src/led_strip.cpp:138 | `(c >> i) & 1` is always 0 or 1 |
| `Ws2812.Encode` | src/led_strip.cpp:132-141 | the transmitted stream has exactly 24 bytes per pixel, and every byte is `0b100` or `0b110` |
| `Ws2812.EncodeAt` | src/led_strip.cpp:134-139 | byte `k` is the pattern of bit `7 - k % 8` of channel `(k % 24) / 8` (green, red, blue order) of pixel `k / 24`; it is `0b110` exactly when that bit is set |
| `Ws2812.EncodeBlank` | LED_Drivers/led_strip.cpp:65-75 | after a clear, the stream is `24 * num_leds` copies of `0b100` |
| `Ws2812.ChannelRoundTrip` | src/led_strip.cpp:136-140 | reading a channel's eight SPI bytes MSB-first (6 as 1, 4 as 0) gives back the channel byte |
| `Ws2812.DecodeEncode` | src/led_strip.cpp:132-141 | decoding the stream gives back the g, r, b bytes of every pixel, in order |
| `Ws2812.EncodeDecode` | src/led_strip.cpp:132-141 | a stream that decodes is exactly the encoding of the pixels it decodes to, so encoder and decoder are inverse |
| `Ws2812.PushChannel` | src/led_strip.cpp:137-139 | the bit loop appends exactly the channel's eight SPI bytes, most significant bit first, to the buffer |
| `Ws2812.PushPixel` | src/led_strip.cpp:135-140 | the channel loop appends exactly the pixel's 24 bytes, green then red then blue |
| `Ws2812.EncodeFrame` | src/led_strip.cpp:132-141 | the nested push-back loops build exactly `Encode` of the pixel buffer |
| `LedStrip.Halve` | src/led_strip.cpp:54-57 | multiplying a byte by 0.5 and casting back to `uint8_t` is halving rounded down |
| `LedStrip.Dimmed` | src/led_strip.cpp:54-59 | each stored channel is the requested channel halved, rounded down |
| `LedStrip.Pi5NeoCpp.constructor` | src/led_strip.cpp:9-10 | the buffer has exactly `num` pixels, all black, and nothing has been sent |
| `LedStrip.Pi5NeoCpp.SetPixel` | src/led_strip.cpp:52-61 | an index on the strip gets `(r/2, g/2, b/2)` and every other pixel is unchanged; an index off the strip changes nothing; nothing is sent |
| `LedStrip.Pi5NeoCpp.Clear` | src/led_strip.cpp:66-70 | every pixel is black and the length is unchanged; the result does not depend on the previous buffer, so clearing is idempotent |
| `LedStrip.Pi5NeoCpp.Show` | src/led_strip.cpp:75-148 | exactly the encoding of the current buffer is written, in one write; the call fails exactly when the bytes written differ from the buffer length; the pixels are not modified |
| `LedStrip.Pi5NeoCpp.Dispose` | src/led_strip.cpp:33-43 | the destructor clears, sends the black frame whether or not the write succeeds (the error is swallowed), and closes the device |
| `LedDriver.Pi5NeoCpp.constructor` | LED_Drivers/led_strip.cpp:41-42 | the buffer has exactly `num` pixels, all black, and nothing has been sent |
| `LedDriver.Pi5NeoCpp.SetPixel` | LED_Drivers/led_strip.cpp:84-88 | an index on the strip gets `(r, g, b)` unscaled and nothing else changes; an index off the strip is a silent no-op |
| `LedDriver.Pi5NeoCpp.Clear` | LED_Drivers/led_strip.cpp:93-97 | every pixel becomes black |
| `LedDriver.Pi5NeoCpp.Show` | LED_Drivers/led_strip.cpp:159-174 | writes exactly the encoding of the buffer (24 bytes per pixel, GRB, MSB first); a short write is an error; the pixels are not modified |
| `LedDriver.Pi5NeoCpp.Dispose` | LED_Drivers/led_strip.cpp:65-75 | clears, sends the black frame and swallows a write failure, then closes the device |
| `LedDriver.RedAt` | LED_Drivers/led_strip.cpp:188-191 | after `clear(); set_pixel(i, 255, 0, 0)` exactly pixel `i` is not black |
| `LedDriver.ChaseStep` | LED_Drivers/led_strip.cpp:189-191 | one chase step leaves exactly pixel `i` red, sends the encoding of that buffer once, and fails exactly on a short write |
| `LedDriver.ChaseFrameBytes` | LED_Drivers/led_strip.cpp:188-191 | in a chase frame, the only `0b110` bytes are the eight of pixel `i`'s red channel |
| `LedDriver.ChaseDemo` | LED_Drivers/led_strip.cpp:178-207 | the demo sends the 420 chase frames in order (frame `t` lights LED `t mod 140`), then a black frame, and the destructor sends one more; it exits with 0 exactly when none of the 421 writes in the try block comes up short, and otherwise returns 1 after the destructor, with the last try-block write sent being the first short one and every earlier write whole; when `main`'s own final write is reached, the frame it sends is black |
| `Pitch.Configuration` | src/main.cpp:131-132 | `min_index = (70 * 2048) / 44100 = 3`, `N_out = 1025`, bin 3 is 64 Hz, and 12 notes of four LEDs fill the 48 LEDs |
| `Pitch.BinFrequency` | src/main.cpp:256 | the bin frequency is `idx * 44100 / 2048` rounded down, in integer arithmetic |
| `Pitch.TruncatingDivision` | src/main.cpp:276-277 | for the divisor 12 used at these lines, C's integer `/` (`CDiv`) truncates toward zero and `%` (`CRem`) is the rest: `a == 12 * (a / 12) + a % 12`; for a non-negative dividend `12 * q <= a < 12 * q + 12` and the remainder is in `[0, 12)`, for a negative one `12 * q - 12 < a <= 12 * q <= 0` and the remainder is in `(-12, 0]` |
| `Pitch.PitchOf` | src/main.cpp:274-277 | for a non-negative MIDI number, `note_index = midi % 12` is in 0..11 and `octave = midi / 12 - 1`; for a negative one the truncating `%` gives an index in -11..0 |
| `Pitch.ReferencePitches` | src/main.cpp:227-228 | A4 (MIDI 69) is note 9 in octave 4, and middle C (MIDI 60) is note 0 in octave 4 |
| `Pitch.OctaveUp` | src/main.cpp:274-277 | twelve semitones up is the same note index, one octave higher |
| `Pitch.BinNote` | src/main.cpp:253-281 | `fft_idx_to_note` (with `BinMidi`, the bin's MIDI number `semitone(bin Hz) + 69`) gives a note index in 0..11, congruent to the bin's MIDI number modulo 12, whenever that MIDI number is non-negative |
| `Pitch.SameNoteOctaveApart` | src/main.cpp:267-272 | two frequencies an octave apart show the same note, provided the frequency-to-semitone step puts them twelve semitones apart |
| `Pitch.NoteColorsDistinct` | src/main.cpp:200-213 | `notes_RGB` has twelve distinct colours, none black |
| `Spectrum.Trunc` | src/main.cpp:140 | converting a `double` to `int` truncates toward zero |
| `Spectrum.ScanPeakFacts` | src/main.cpp:134-143 | the running maximum never goes below 0 and is at least the truncation of every bin scanned; either no bin went above 0, or the peak bin holds the maximum, its magnitude exceeds the truncation of every earlier bin, and no later bin's magnitude exceeds the maximum |
| `Spectrum.PeakIndexSpec` | src/main.cpp:128-149 | the result is 0 exactly when every bin from 3 truncates below 45. Otherwise the result `r` is a bin in `[3, 1025)` and `trunc(mag[r])` is the maximum truncated magnitude. Every later bin has magnitude at most `trunc(mag[r])`, and `mag[r]` exceeds the truncation of every earlier bin. So a later bin with the same truncated value takes over only when its magnitude is strictly above that whole number; an exact tie keeps the earlier bin |
| `Spectrum.PeakIndexUnique` | src/main.cpp:134-149 | the conditions of `PeakIndexSpec` pick out a single bin: any bin meeting them is the returned index |
| `Spectrum.ScanPeak` | src/main.cpp:134-143 | the running maximum of the scan is never negative, and its bin is 0 or a scanned bin |
| `Spectrum.PeakIndex` | src/main.cpp:145-149 | the returned index is 0 or a considered bin in `[3, 1025)` |
| `Spectrum.ScanPeakIgnoresLowBins` | src/main.cpp:131-134 | the peak search depends only on the bins it scans |
| `Spectrum.CalculateMagnitudes` | src/main.cpp:114-150 | bins from 3 up get their magnitude stored; bins below 3 are never written; the returned index is the peak search's result, both for the input spectrum and for the stored array (its low bins play no part) |
| `Spectrum.NoteSoundsIgnoresLowBins` | src/main.cpp:295-299 | whether a note is detected depends only on bins 3 and up |
| `Spectrum.FindNotes` | src/main.cpp:298-305 | note `n` is detected exactly when some bin from 3 up has magnitude above 45 and maps to `n`. A detected note's recorded magnitude is that of its last such bin; an undetected note's is 0 |
| `NoteDisplay.NoteBlock` | src/main.cpp:308-316 | note `n`'s LEDs `4n .. 4n + 3` all lie below 48 and show the note's colour exactly when it is detected, else black |
| `NoteDisplay.DetectNotes` | src/main.cpp:283-321 | after the call, each LED of a detected note's block carries that note's (halved) colour, and every other LED is black; the strip is shown exactly once; the call fails exactly on a short write |
| `NoteDisplay.FreqToLeds` | src/main.cpp:215-251 | frequency 0 changes nothing and shows nothing; any other frequency paints LEDs 0..47 in its note's (halved) colour, leaves the rest, and shows once |
| `NoteDisplay.AnalysisCycle` | src/main.cpp:383-386 | one cycle stores the spectrum's magnitudes in bins 3 and up, leaves bins 0 to 2 as they were, and then shows exactly that spectrum's note layout, in one frame |
| `NoteDisplay.Shutdown` | src/main.cpp:418-424 | the strip ends black. When the first write is whole, two black frames are sent, `main`'s and the destructor's, and the device is closed |

## Left out

- Audio capture: the callback, the mutex-guarded frame copy, `new_data`, `keepRunning`,
  the signal handler and the busy-poll loop. Their subject is cross-thread hand-off, and
  the model has no threads. `AnalysisCycle` models one pass of the loop body.
- The FFT plan, `fftw_execute` and the `sqrt` of each bin: a foreign library and
  floating-point arithmetic. The magnitudes are an input.
- `log2` and `round` in `fft_idx_to_note` and `freq_to_leds`: floating point. They are
  the `semitone` parameter.
- Device selection, console printing, the cycles-per-second timer and `usleep`:
  interactive I/O and timing.
- SPI `open`, `ioctl` and `close`: device I/O. Constructors always succeed, so the
  exceptions thrown when the device cannot be opened or configured are not modelled.
  `write` is the `written` parameter.
- The first two encoding passes of `show()` and the `reserve`/`resize` calls. Their
  output is discarded before the write.
- The `magnitude_to_leds` stub: it does nothing.
- `AudioTest/audio_in.cpp` and the `FFT_Test` programs: stand-alone demos of capture
  and FFTW with file and console I/O.
- Spectrum.CalculateMagnitudes: does not model the undefined conversion of a magnitude
  above 2^31 - 1 to `int`. Frame samples are at most 1 in magnitude, so bin magnitudes
  stay below 2048.
- NoteDisplay.Shutdown: when `main`'s own show fails, the exception leaves `main`
  uncaught. Whether the destructor still runs is then implementation-defined, so the
  model stops at that point.
- Pitch.BinFrequency: integers are unbounded. `fft_idx * 44100` does not overflow an
  `int` for the bins used (below 1025).
- Pitch.TruncatingDivision: states C's `/` and `%` for the divisor 12 only. That is the
  one divisor the note arithmetic uses, and with a fixed divisor the proof stays in
  linear arithmetic.
