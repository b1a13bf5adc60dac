/** Judging a spectrum bin by bin (the verdict loops of run_fft). */
module FftVerdict {

  const FAILED_AT_1K: bv8 := 0x1
  const FAILED_AT_2K: bv8 := 0x2
  const FAILED_AT_3K: bv8 := 0x4
  const FAILED_AT_OTHER: bv8 := 0x8

  const AT_1K := 999
  const AT_2K := 1999
  const AT_3K := 2999
  // The configuration accepts windows up to this.
  const MAX_WINDOW := 20.0
  const FIRST_BIN := 3

  datatype Limits = Limits(signal1k: real, floor: real, floor2k: real, floor3k: real)

  predicate Near(i: int, centre: int, window: real) {
    centre as real - window <= i as real <= centre as real + window
  }

  predicate Elsewhere(i: int, window: real) {
    !Near(i, AT_1K, window) && !Near(i, AT_2K, window) && !Near(i, AT_3K, window)
  }

  // The signal reaches its limit in no bin of its window.
  ghost predicate NoSignal(mag: seq<real>, window: real, limits: Limits) {
    forall i :: 0 <= i < |mag| && Near(i, AT_1K, window) ==> mag[i] < limits.signal1k
  }

  // Some bin of a window exceeds both the limit of the window and the general floor.
  ghost predicate NoisyAt(mag: seq<real>, upTo: int, centre: int, window: real, own: real, floor: real)
    requires upTo <= |mag|
  {
    exists i :: FIRST_BIN <= i < upTo && Near(i, centre, window) && mag[i] > own && mag[i] > floor
  }

  ghost predicate NoisyElsewhere(mag: seq<real>, upTo: int, window: real, floor: real)
    requires upTo <= |mag|
  {
    exists i :: FIRST_BIN <= i < upTo && Elsewhere(i, window) && mag[i] > floor
  }

  // m is the largest of `least` and the magnitudes in a window.
  ghost predicate IsPeak(mag: seq<real>, from: int, upTo: int, centre: int, window: real, least: real, m: real)
    requires 0 <= from && upTo <= |mag|
  {
    && m >= least && (forall i :: from <= i < upTo && Near(i, centre, window) ==> mag[i] <= m)
    && (m == least || exists i :: from <= i < upTo && Near(i, centre, window) && mag[i] == m)
  }

  // m is the largest of `least` and the magnitudes outside all windows.
  ghost predicate IsOtherPeak(mag: seq<real>, from: int, upTo: int, window: real, least: real, m: real)
    requires 0 <= from && upTo <= |mag|
  {
    && m >= least && (forall i :: from <= i < upTo && Elsewhere(i, window) ==> mag[i] <= m)
    && (m == least || exists i :: from <= i < upTo && Elsewhere(i, window) && mag[i] == m)
  }

  // An integer bin lies within a fractional window exactly when it lies within the truncated one.
  lemma TruncatedWindow(i: int, centre: int, window: real)
    requires window >= 0.0
    ensures Near(i, centre, window) <==> centre - window.Floor <= i <= centre + window.Floor
  {
  }

  lemma NothingJudged(mag: seq<real>, window: real, limits: Limits)
    requires FIRST_BIN <= |mag|
    ensures !NoisyAt(mag, FIRST_BIN, AT_2K, window, limits.floor2k, limits.floor)
    ensures !NoisyAt(mag, FIRST_BIN, AT_3K, window, limits.floor3k, limits.floor)
    ensures !NoisyElsewhere(mag, FIRST_BIN, window, limits.floor)
    ensures IsPeak(mag, FIRST_BIN, FIRST_BIN, AT_2K, window, 1.0, 1.0)
    ensures IsPeak(mag, FIRST_BIN, FIRST_BIN, AT_3K, window, 1.0, 1.0)
    ensures IsOtherPeak(mag, FIRST_BIN, FIRST_BIN, window, 1.0, 1.0)
  {
  }

  lemma NoisyStep(mag: seq<real>, i: nat, centre: int, window: real, own: real, floor: real)
    requires FIRST_BIN <= i < |mag|
    ensures NoisyAt(mag, i + 1, centre, window, own, floor) <==>
            NoisyAt(mag, i, centre, window, own, floor) || (Near(i, centre, window) && mag[i] > own && mag[i] > floor)
  {
  }

  lemma ElsewhereStep(mag: seq<real>, i: nat, window: real, floor: real)
    requires FIRST_BIN <= i < |mag|
    ensures NoisyElsewhere(mag, i + 1, window, floor) <==>
            NoisyElsewhere(mag, i, window, floor) || (Elsewhere(i, window) && mag[i] > floor)
  {
  }

  lemma PeakStep(mag: seq<real>, from: nat, i: nat, centre: int, window: real, least: real, m: real)
    requires from <= i < |mag| && IsPeak(mag, from, i, centre, window, least, m)
    ensures IsPeak(mag, from, i + 1, centre, window, least, if Near(i, centre, window) && mag[i] > m then mag[i] else m)
  {
  }

  lemma OtherPeakStep(mag: seq<real>, from: nat, i: nat, window: real, least: real, m: real)
    requires from <= i < |mag| && IsOtherPeak(mag, from, i, window, least, m)
    ensures IsOtherPeak(mag, from, i + 1, window, least, if Elsewhere(i, window) && mag[i] > m then mag[i] else m)
  {
  }

  // One round of the noise loop.
  method JudgeBin(m: real, i: int, window: real, limits: Limits,
                  flags: bv8, noise2k: real, noise3k: real, noiseOther: real)
    returns (flags': bv8, noise2k': real, noise3k': real, noiseOther': real)
    requires window <= MAX_WINDOW
    ensures flags' & FAILED_AT_1K == flags & FAILED_AT_1K && (flags < 0x10 ==> flags' < 0x10)
    ensures flags' & FAILED_AT_2K != 0 <==>
            flags & FAILED_AT_2K != 0 || (Near(i, AT_2K, window) && m > limits.floor2k && m > limits.floor)
    ensures flags' & FAILED_AT_3K != 0 <==>
            flags & FAILED_AT_3K != 0 || (Near(i, AT_3K, window) && m > limits.floor3k && m > limits.floor)
    ensures flags' & FAILED_AT_OTHER != 0 <==>
            flags & FAILED_AT_OTHER != 0 || (Elsewhere(i, window) && m > limits.floor)
    ensures noise2k' == if Near(i, AT_2K, window) && m > noise2k then m else noise2k
    ensures noise3k' == if Near(i, AT_3K, window) && m > noise3k then m else noise3k
    ensures noiseOther' == if Elsewhere(i, window) && m > noiseOther then m else noiseOther
  {
    flags', noise2k', noise3k', noiseOther' := flags, noise2k, noise3k, noiseOther;
    var near1k, near2k, near3k := Near(i, AT_1K, window), Near(i, AT_2K, window), Near(i, AT_3K, window);
    if (m <= limits.floor2k && near2k) || (m <= limits.floor3k && near3k) || near1k || m <= limits.floor {
      // in order
    } else if near2k {
      flags' := flags | FAILED_AT_2K;
    } else if near3k {
      flags' := flags | FAILED_AT_3K;
    } else {
      flags' := flags | FAILED_AT_OTHER;
    }
    if near2k || near1k || near3k {
      if near1k {
      } else if near2k {
        if m > noise2k {
          noise2k' := m;
        }
      } else if near3k {
        if m > noise3k {
          noise3k' := m;
        }
      }
    } else {
      if m > noiseOther {
        noiseOther' := m;
      }
    }
  }

  // What the noise loop knows after the bins below upTo.
  ghost predicate Tallied(mag: seq<real>, upTo: nat, window: real, limits: Limits,
                          flags: bv8, noise2k: real, noise3k: real, noiseOther: real)
    requires upTo <= |mag|
  {
    && (flags & FAILED_AT_2K != 0 <==> NoisyAt(mag, upTo, AT_2K, window, limits.floor2k, limits.floor))
    && (flags & FAILED_AT_3K != 0 <==> NoisyAt(mag, upTo, AT_3K, window, limits.floor3k, limits.floor))
    && (flags & FAILED_AT_OTHER != 0 <==> NoisyElsewhere(mag, upTo, window, limits.floor))
    && IsPeak(mag, FIRST_BIN, upTo, AT_2K, window, 1.0, noise2k)
    && IsPeak(mag, FIRST_BIN, upTo, AT_3K, window, 1.0, noise3k)
    && IsOtherPeak(mag, FIRST_BIN, upTo, window, 1.0, noiseOther)
  }

  method NoiseLoop(mag: seq<real>, window: real, limits: Limits, first: bv8)
    returns (flags: bv8, noise2k: real, noise3k: real, noiseOther: real)
    requires FIRST_BIN <= |mag| / 2 && window <= MAX_WINDOW && first <= FAILED_AT_1K
    ensures flags & FAILED_AT_1K == first & FAILED_AT_1K && flags < 0x10
    ensures Tallied(mag, |mag| / 2, window, limits, flags, noise2k, noise3k, noiseOther)
  {
    hide NoisyAt, NoisyElsewhere, IsPeak, IsOtherPeak, Near, Elsewhere;
    NothingJudged(mag, window, limits);
    flags, noise2k, noise3k, noiseOther := first, 1.0, 1.0, 1.0;
    var i := FIRST_BIN;
    while i < |mag| / 2
      invariant FIRST_BIN <= i <= |mag| / 2
      invariant flags & FAILED_AT_1K == first & FAILED_AT_1K && flags < 0x10
      invariant Tallied(mag, i, window, limits, flags, noise2k, noise3k, noiseOther)
    {
      NoisyStep(mag, i, AT_2K, window, limits.floor2k, limits.floor);
      NoisyStep(mag, i, AT_3K, window, limits.floor3k, limits.floor);
      ElsewhereStep(mag, i, window, limits.floor);
      PeakStep(mag, FIRST_BIN, i, AT_2K, window, 1.0, noise2k);
      PeakStep(mag, FIRST_BIN, i, AT_3K, window, 1.0, noise3k);
      OtherPeakStep(mag, FIRST_BIN, i, window, 1.0, noiseOther);
      flags, noise2k, noise3k, noiseOther := JudgeBin(mag[i], i, window, limits, flags, noise2k, noise3k, noiseOther);
      i := i + 1;
    }
  }

  // The bits, the peaks and the verdict, bin by bin: the windows of w bins on either side of 999, 1999 and 2999 Hz.
  method Judge(mag: seq<real>, window: real, limits: Limits)
    returns (flags: bv8, peak: real, noise2k: real, noise3k: real, noiseOther: real, verdict: int)
    requires |mag| / 2 > AT_3K + 20 && 0.0 <= window <= MAX_WINDOW
    ensures var w := window.Floor;
            && (flags & 1 != 0 <==> forall i :: 999 - w <= i <= 999 + w ==> mag[i] < limits.signal1k)
            && (flags & 2 != 0 <==>
                exists i :: 1999 - w <= i <= 1999 + w && mag[i] > limits.floor2k && mag[i] > limits.floor)
            && (flags & 4 != 0 <==>
                exists i :: 2999 - w <= i <= 2999 + w && mag[i] > limits.floor3k && mag[i] > limits.floor)
            && (flags & 8 != 0 <==>
                exists i :: 3 <= i < |mag| / 2 && Outside(i, w) && mag[i] > limits.floor)
    ensures flags < 0x10 && verdict == if flags == 0 then 1 else -1
    ensures var w := window.Floor;
            && IsMaximum(mag, 999 - w, 999 + w, 0.0, peak)
            && IsMaximum(mag, 1999 - w, 1999 + w, 1.0, noise2k) && IsMaximum(mag, 2999 - w, 2999 + w, 1.0, noise3k)
            && noiseOther >= 1.0 && (forall i :: 3 <= i < |mag| / 2 && Outside(i, w) ==> mag[i] <= noiseOther)
            && (noiseOther == 1.0 || exists i :: 3 <= i < |mag| / 2 && Outside(i, w) && mag[i] == noiseOther)
  {
    flags, peak := JudgeSignal(mag, window, limits);
    flags, noise2k, noise3k, noiseOther := NoiseLoop(mag, window, limits, flags);
    verdict := if flags != 0 then -1 else 1;
    JudgedBins(mag, window, limits, flags, peak, noise2k, noise3k, noiseOther);
  }

  // Outside the three windows.
  predicate Outside(i: int, w: int) {
    !(999 - w <= i <= 999 + w) && !(1999 - w <= i <= 1999 + w) && !(2999 - w <= i <= 2999 + w)
  }

  // m is the largest of `least` and the magnitudes from one bin to another.
  ghost predicate IsMaximum(mag: seq<real>, from: int, to: int, least: real, m: real)
    requires 0 <= from && to < |mag|
  {
    && m >= least && (forall i :: from <= i <= to ==> mag[i] <= m)
    && (m == least || exists i :: from <= i <= to && mag[i] == m)
  }

  lemma JudgedBins(mag: seq<real>, window: real, limits: Limits, flags: bv8, peak: real, noise2k: real, noise3k: real,
                   noiseOther: real)
    requires |mag| / 2 > AT_3K + 20 && 0.0 <= window <= MAX_WINDOW
    requires flags & FAILED_AT_1K != 0 <==> NoSignal(mag, window, limits)
    requires IsPeak(mag, 0, |mag|, AT_1K, window, 0.0, peak)
    requires Tallied(mag, |mag| / 2, window, limits, flags, noise2k, noise3k, noiseOther)
    ensures var w := window.Floor;
            && 0 <= w <= 20
            && (flags & 1 != 0 <==> forall i :: 999 - w <= i <= 999 + w ==> mag[i] < limits.signal1k)
            && (flags & 2 != 0 <==>
                exists i :: 1999 - w <= i <= 1999 + w && mag[i] > limits.floor2k && mag[i] > limits.floor)
            && (flags & 4 != 0 <==>
                exists i :: 2999 - w <= i <= 2999 + w && mag[i] > limits.floor3k && mag[i] > limits.floor)
            && (flags & 8 != 0 <==>
                exists i :: 3 <= i < |mag| / 2 && Outside(i, w) && mag[i] > limits.floor)
    ensures var w := window.Floor;
            && IsMaximum(mag, 999 - w, 999 + w, 0.0, peak)
            && IsMaximum(mag, 1999 - w, 1999 + w, 1.0, noise2k) && IsMaximum(mag, 2999 - w, 2999 + w, 1.0, noise3k)
            && noiseOther >= 1.0 && (forall i :: 3 <= i < |mag| / 2 && Outside(i, w) ==> mag[i] <= noiseOther)
            && (noiseOther == 1.0 || exists i :: 3 <= i < |mag| / 2 && Outside(i, w) && mag[i] == noiseOther)
  {
    var w := window.Floor;
    forall i: int
      ensures Near(i, AT_1K, window) <==> 999 - w <= i <= 999 + w
      ensures Near(i, AT_2K, window) <==> 1999 - w <= i <= 1999 + w
      ensures Near(i, AT_3K, window) <==> 2999 - w <= i <= 2999 + w
    {
      TruncatedWindow(i, AT_1K, window);
      TruncatedWindow(i, AT_2K, window);
      TruncatedWindow(i, AT_3K, window);
    }
    forall i: int
      ensures Elsewhere(i, window) <==> Outside(i, w)
    {
    }
    hide Near, Elsewhere, Outside;
  }

  method JudgeSignal(mag: seq<real>, window: real, limits: Limits) returns (flags: bv8, peak: real)
    requires |mag| / 2 > AT_3K + 20 && 0.0 <= window <= MAX_WINDOW
    ensures flags == if NoSignal(mag, window, limits) then FAILED_AT_1K else 0
    ensures IsPeak(mag, 0, |mag|, AT_1K, window, 0.0, peak)
  {
    forall k
      ensures Near(k, AT_1K, window) <==> AT_1K - window.Floor <= k <= AT_1K + window.Floor
    {
      TruncatedWindow(k, AT_1K, window);
    }
    hide Near;
    flags, peak := FAILED_AT_1K, 0.0;
    var w := window.Floor;
    var i := AT_1K - w;
    while i <= AT_1K + w
      invariant AT_1K - w <= i <= AT_1K + w + 1
      invariant flags == if forall k :: AT_1K - w <= k < i ==> mag[k] < limits.signal1k then FAILED_AT_1K else 0
      invariant IsPeak(mag, AT_1K - w, i, AT_1K, window, 0.0, peak)
    {
      if peak < mag[i] {
        peak := mag[i];
      }
      if mag[i] >= limits.signal1k {
        flags := flags & !FAILED_AT_1K;
      }
      i := i + 1;
    }
  }
}
