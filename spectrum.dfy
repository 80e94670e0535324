/** The analysis of one spectrum: the peak search of `fft_calculate_magnitudes` and the
    note search of `detect_notes`. The FFT and the square roots are outside the model:
    the per-bin magnitudes arrive as a sequence of reals, one per bin. */
module Spectrum {
  import opened Pitch

  /** Conversion of a `double` to `int`: truncation toward zero. */
  function Trunc(x: real): (n: int)
    ensures x >= 0.0 ==> n as real <= x < n as real + 1.0
    ensures x < 0.0 ==> n as real - 1.0 < x <= n as real
  {
    if x >= 0.0 then x.Floor else -((-x).Floor)
  }

  /** The running state of the peak search: the truncated maximum so far and the bin
      it came from. */
  datatype Peak = Peak(maxMag: int, maxIdx: int)

  /** The state of the peak search after bins `lo .. hi - 1`: a bin replaces the
      maximum when its magnitude exceeds the truncated maximum so far. */
  function ScanPeak(mags: seq<real>, lo: nat, hi: nat): (p: Peak)
    requires lo <= hi <= |mags|
    ensures p.maxMag >= 0
    ensures p.maxIdx == 0 || lo <= p.maxIdx < hi
    decreases hi - lo
  {
    if hi == lo then Peak(0, 0)
    else
      var p := ScanPeak(mags, lo, hi - 1);
      if mags[hi - 1] > p.maxMag as real then Peak(Trunc(mags[hi - 1]), hi - 1) else p
  }

  /** What the peak search finds. Either no bin rose above zero, or the peak bin is in
      range, holds the truncated maximum, no bin exceeds that maximum after truncation,
      no later bin's magnitude exceeds it at all, and its own magnitude exceeds the
      truncation of every earlier bin. */
  lemma {:induction false} ScanPeakFacts(mags: seq<real>, lo: nat, hi: nat)
    requires 1 <= lo <= hi <= |mags|
    ensures var p := ScanPeak(mags, lo, hi);
      && p.maxMag >= 0
      && (forall i :: lo <= i < hi ==> Trunc(mags[i]) <= p.maxMag)
      && (p.maxIdx == 0 ==> p.maxMag == 0 && forall i :: lo <= i < hi ==> mags[i] <= 0.0)
      && (p.maxIdx != 0 ==>
            && lo <= p.maxIdx < hi
            && mags[p.maxIdx] > 0.0
            && Trunc(mags[p.maxIdx]) == p.maxMag
            && (forall i :: lo <= i < p.maxIdx ==> (Trunc(mags[i]) as real) < mags[p.maxIdx])
            && forall j :: p.maxIdx < j < hi ==> mags[j] <= p.maxMag as real)
  {
    if hi > lo {
      ScanPeakFacts(mags, lo, hi - 1);
    }
  }

  /** The value `fft_calculate_magnitudes` returns for a spectrum. */
  function PeakIndex(mags: seq<real>): (r: int)
    requires |mags| == NOut
    ensures r == 0 || MinIndex <= r < NOut
  {
    var p := ScanPeak(mags, MinIndex, NOut);
    if p.maxMag < MinMagnitude then 0 else p.maxIdx
  }

  /** The peak index is 0 exactly when every considered bin truncates below the
      threshold. Otherwise it is a considered bin whose truncated magnitude is the
      largest and at least the threshold; no later bin's magnitude exceeds that
      truncated maximum, and its own magnitude exceeds the truncation of every earlier
      bin. So among bins equal after truncation, a later one takes over only when its
      magnitude lies strictly above the whole number; an exact tie keeps the earlier. */
  lemma PeakIndexSpec(mags: seq<real>)
    requires |mags| == NOut
    ensures PeakIndex(mags) == 0 <==> forall i :: MinIndex <= i < NOut ==> Trunc(mags[i]) < MinMagnitude
    ensures var r := PeakIndex(mags);
      r != 0 ==>
        && MinIndex <= r < NOut
        && Trunc(mags[r]) >= MinMagnitude
        && (forall i :: MinIndex <= i < NOut ==> Trunc(mags[i]) <= Trunc(mags[r]))
        && (forall i :: MinIndex <= i < r ==> (Trunc(mags[i]) as real) < mags[r])
        && (forall j :: r < j < NOut ==> mags[j] <= Trunc(mags[r]) as real)
  {
    ScanPeakFacts(mags, MinIndex, NOut);
  }

  /** The conditions of `PeakIndexSpec` single out one bin: any considered bin that
      meets them is the peak index. */
  lemma PeakIndexUnique(mags: seq<real>, r: int)
    requires |mags| == NOut && MinIndex <= r < NOut
    requires Trunc(mags[r]) >= MinMagnitude
    requires forall i :: MinIndex <= i < NOut ==> Trunc(mags[i]) <= Trunc(mags[r])
    requires forall i :: MinIndex <= i < r ==> (Trunc(mags[i]) as real) < mags[r]
    requires forall j :: r < j < NOut ==> mags[j] <= Trunc(mags[r]) as real
    ensures PeakIndex(mags) == r
  {
    PeakIndexSpec(mags);
    var q := PeakIndex(mags);
    assert q != 0 by {
      assert Trunc(mags[r]) >= MinMagnitude;
    }
    if q < r {
      assert false;
    } else if q > r {
      assert false;
    }
  }

  /** The bins below `MinIndex` have no influence on the peak search. */
  lemma {:induction false} ScanPeakIgnoresLowBins(a: seq<real>, b: seq<real>, lo: nat, hi: nat)
    requires lo <= hi <= |a| == |b|
    requires forall i :: lo <= i < hi ==> a[i] == b[i]
    ensures ScanPeak(a, lo, hi) == ScanPeak(b, lo, hi)
  {
    if hi > lo {
      ScanPeakIgnoresLowBins(a, b, lo, hi - 1);
    }
  }

  /** `fft_calculate_magnitudes` after the transform: stores each considered bin's
      magnitude into `fftMagnitude` (the bins below `MinIndex` are never written) and
      tracks the truncated running maximum, returning its bin or 0 when it stays
      below the threshold. */
  method CalculateMagnitudes(fftMagnitude: array<real>, spectrum: seq<real>) returns (peak: int)
    requires fftMagnitude.Length == NOut && |spectrum| == NOut
    modifies fftMagnitude
    ensures forall i :: 0 <= i < MinIndex ==> fftMagnitude[i] == old(fftMagnitude[i])
    ensures forall i :: MinIndex <= i < NOut ==> fftMagnitude[i] == spectrum[i]
    ensures peak == PeakIndex(spectrum) && peak == PeakIndex(fftMagnitude[..])
  {
    var maxMag := 0;
    var maxIdx := 0;
    var i := MinIndex;
    while i < NOut
      invariant MinIndex <= i <= NOut
      invariant forall j :: 0 <= j < MinIndex ==> fftMagnitude[j] == old(fftMagnitude[j])
      invariant forall j :: MinIndex <= j < i ==> fftMagnitude[j] == spectrum[j]
      invariant Peak(maxMag, maxIdx) == ScanPeak(spectrum, MinIndex, i)
    {
      fftMagnitude[i] := spectrum[i];
      if fftMagnitude[i] > maxMag as real {
        maxMag := Trunc(fftMagnitude[i]);
        maxIdx := i;
      }
      i := i + 1;
    }
    ScanPeakIgnoresLowBins(spectrum, fftMagnitude[..], MinIndex, NOut);
    if maxMag < MinMagnitude {
      return 0;
    }
    return maxIdx;
  }

  /** Bin `i` is considered, exceeds the threshold, and maps to note `n`. */
  ghost predicate Sounds(mags: seq<real>, semitone: real -> int, i: int, n: int)
  {
    MinIndex <= i < |mags| && mags[i] > MinMagnitude as real && BinNote(semitone, i) == n
  }

  /** Note `n` is detected in the spectrum. */
  ghost predicate NoteSounds(mags: seq<real>, semitone: real -> int, n: int)
  {
    exists i :: Sounds(mags, semitone, i, n)
  }

  /** The detection of every note depends on the considered bins only. */
  lemma NoteSoundsIgnoresLowBins(a: seq<real>, b: seq<real>, semitone: real -> int, n: int)
    requires |a| == |b|
    requires forall i :: MinIndex <= i < |a| ==> a[i] == b[i]
    ensures NoteSounds(a, semitone, n) <==> NoteSounds(b, semitone, n)
  {
    if NoteSounds(a, semitone, n) {
      var i :| Sounds(a, semitone, i, n);
      assert Sounds(b, semitone, i, n);
    }
    if NoteSounds(b, semitone, n) {
      var i :| Sounds(b, semitone, i, n);
      assert Sounds(a, semitone, i, n);
    }
  }

  /** The search loop of `detect_notes`: every considered bin above the threshold marks
      its note as detected and overwrites that note's magnitude, so a note's recorded
      magnitude is that of its last sounding bin, and 0 for a note not detected. The
      caller must ensure those bins have non-negative MIDI numbers, since the note
      index is used as an array index. */
  method FindNotes(mags: seq<real>, semitone: real -> int) returns (detected: seq<bool>, magnitude: seq<real>)
    requires |mags| == NOut
    requires forall i :: MinIndex <= i < NOut && mags[i] > MinMagnitude as real ==> BinMidi(semitone, i) >= 0
    ensures |detected| == 12 && |magnitude| == 12
    ensures forall n :: 0 <= n < 12 ==> (detected[n] <==> NoteSounds(mags, semitone, n))
    ensures forall n :: 0 <= n < 12 && !detected[n] ==> magnitude[n] == 0.0
    ensures forall n :: 0 <= n < 12 && detected[n] ==>
              exists i :: Sounds(mags, semitone, i, n) && magnitude[n] == mags[i] &&
                forall j :: i < j < NOut ==> !Sounds(mags, semitone, j, n)
  {
    detected := seq(12, _ => false);
    magnitude := seq(12, _ => 0.0);
    var i := MinIndex;
    while i < NOut
      invariant MinIndex <= i <= NOut
      invariant |detected| == 12 && |magnitude| == 12
      invariant forall n :: 0 <= n < 12 ==> (detected[n] <==> exists j :: j < i && Sounds(mags, semitone, j, n))
      invariant forall n :: 0 <= n < 12 && !detected[n] ==> magnitude[n] == 0.0
      invariant forall n :: 0 <= n < 12 && detected[n] ==>
                  exists j :: j < i && Sounds(mags, semitone, j, n) && magnitude[n] == mags[j] &&
                    forall k :: j < k < i ==> !Sounds(mags, semitone, k, n)
    {
      if mags[i] > MinMagnitude as real {
        var note := BinNote(semitone, i);
        assert Sounds(mags, semitone, i, note);
        detected := detected[note := true];
        magnitude := magnitude[note := mags[i]];
      }
      i := i + 1;
    }
    forall n | 0 <= n < 12 ensures detected[n] <==> NoteSounds(mags, semitone, n) {
      if NoteSounds(mags, semitone, n) {
        var j :| Sounds(mags, semitone, j, n);
        assert j < i;
      }
    }
  }
}
