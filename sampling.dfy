/** Frame extraction for spectral analysis: SampleWindowExtractor slices a
    full-length integer waveform into fixed-length analysis windows, downmixes
    interleaved stereo to mono, zero-pads, and shapes each window with a
    window function.

    The specification functions below work on values (`seq<int>` for the
    waveform); the class SampleWindowExtractor works on arrays, as the source
    does, and its methods are proved against those functions. */
module Sampling {

  /** The kinds of window function a caller may choose. Only the distinction
      between Rectangular and the others affects this model: the coefficients
      of the others come from a generator that is not part of this model. */
  datatype WindowFunction = Rectangular | Triangular | Hanning | Hamming | Blackman

  // ---------------------------------------------------------------------------
  // Frame geometry
  // ---------------------------------------------------------------------------

  /** Number of mono samples in a waveform of `waveLength` entries:
      a stereo waveform interleaves left and right samples. */
  function MonoLength(waveLength: nat, isStereo: bool): nat
  {
    if isStereo then waveLength / 2 else waveLength
  }

  /** The frame count the constructor computes, ceil(MonoLength / windowSize)
      in integer arithmetic (FrameCountIsCeiling). */
  function FrameCount(waveLength: nat, isStereo: bool, windowSize: int): nat
    requires windowSize > 0
  {
    (MonoLength(waveLength, isStereo) + windowSize - 1) / windowSize
  }

  /** Index into the (interleaved) waveform of the first sample frame `i` reads. */
  function FirstRead(isStereo: bool, windowSize: nat, i: nat): nat
  {
    if isStereo then 2 * (windowSize * i) else windowSize * i
  }

  /** How many mono samples frame `i` takes from the waveform: the `remaining`
      count of extractWindow, exactly as the source computes it. For a stereo
      last frame the remainder is taken of the INTERLEAVED length. */
  function ValidCount(waveLength: nat, isStereo: bool, windowSize: int, i: nat): (c: nat)
    requires windowSize > 0
    ensures 0 < c <= windowSize
  {
    var numFrames := FrameCount(waveLength, isStereo, windowSize);
    if isStereo then
      var remaining := if i == numFrames - 1 then (waveLength % windowSize) / 2 else windowSize;
      if remaining == 0 then windowSize else remaining
    else if i < numFrames - 1 then windowSize
    else
      var remaining := waveLength % windowSize;
      if remaining == 0 then windowSize else remaining
  }

  /** `count` mono samples read from waveform index `first` on stay inside a
      waveform of `waveLength` entries (a stereo sample takes two entries). */
  predicate Fits(waveLength: nat, isStereo: bool, first: nat, count: nat)
  {
    if isStereo then first + 2 * count <= waveLength else first + count <= waveLength
  }

  /** Every waveform index frame `i` reads lies inside the waveform. */
  predicate ReadsInBounds(waveLength: nat, isStereo: bool, windowSize: int, i: nat)
    requires windowSize > 0
  {
    Fits(waveLength, isStereo, FirstRead(isStereo, windowSize, i), ValidCount(waveLength, isStereo, windowSize, i))
  }

  // ---------------------------------------------------------------------------
  // Frame contents
  // ---------------------------------------------------------------------------

  /** Stereo downmix of one left/right pair, `(int) Math.round((L + R) / 2.0)`.
      Math.round(x) is floor(x + 0.5), so halves round toward +infinity. */
  function Downmix(left: int, right: int): (m: int)
    ensures m as real <= (left + right) as real / 2.0 + 0.5 < m as real + 1.0
  {
    (left + right + 1) / 2
  }

  /** Entry `t` of a frame that takes `count` samples starting at waveform
      index `first`: a sample (or the downmix of a pair) below `count`, and
      the zero of the fresh array above it. */
  function FrameEntry(wave: seq<int>, isStereo: bool, first: nat, count: nat, t: nat): int
    requires Fits(|wave|, isStereo, first, count)
  {
    if t >= count then 0
    else if isStereo then Downmix(wave[first + 2 * t], wave[first + 2 * t + 1])
    else wave[first + t]
  }

  /** Frame `i` before the window function is applied: `windowSize +
      zeroPadLength` entries, the first ValidCount of them taken from the
      waveform and the rest left at the zero the allocation put there. */
  function RawFrame(wave: seq<int>, isStereo: bool, windowSize: int, zeroPadLength: int, i: nat): (f: seq<int>)
    requires windowSize > 0 && zeroPadLength >= 0
    requires ReadsInBounds(|wave|, isStereo, windowSize, i)
    ensures |f| == windowSize + zeroPadLength
  {
    var count := ValidCount(|wave|, isStereo, windowSize, i);
    var first := FirstRead(isStereo, windowSize, i);
    seq(windowSize + zeroPadLength, t requires 0 <= t < windowSize + zeroPadLength => FrameEntry(wave, isStereo, first, count, t))
  }

  /** The window function applied to the first `windowSize` entries of a
      frame. `weigh(k, x)` stands for the rounded product of sample `x` with
      the k-th coefficient of the window function; a rectangular window is
      skipped altogether. */
  function Shape(frame: seq<int>, windowFunction: WindowFunction, windowSize: nat, weigh: (nat, int) -> int): (r: seq<int>)
    requires windowSize <= |frame|
    ensures |r| == |frame|
  {
    if windowFunction == Rectangular then frame
    else seq(|frame|, k requires 0 <= k < |frame| => if k < windowSize then weigh(k, frame[k]) else frame[k])
  }

  // ---------------------------------------------------------------------------
  // The extractor
  // ---------------------------------------------------------------------------

  /** Copies `length` entries of `src` from `srcPos` into `dest` at `destPos`,
      as System.arraycopy does for two distinct arrays. */
  method ArrayCopy(src: array<int>, srcPos: nat, dest: array<int>, destPos: nat, length: nat)
    requires src != dest
    requires srcPos + length <= src.Length && destPos + length <= dest.Length
    modifies dest
    ensures forall t :: 0 <= t < dest.Length ==>
      dest[t] == if destPos <= t < destPos + length then src[srcPos + t - destPos] else old(dest[t])
  {
    for n := 0 to length
      invariant forall t :: 0 <= t < dest.Length ==>
        dest[t] == if destPos <= t < destPos + n then src[srcPos + t - destPos] else old(dest[t])
    {
      dest[destPos + n] := src[srcPos + n];
    }
  }

  class SampleWindowExtractor {
    /** Full-length waveform of the audio file, interleaved when stereo. */
    const wave: array<int>
    const isStereo: bool
    /** Samples per window, excluding zero padding. */
    const windowSize: int
    const windowFunction: WindowFunction
    /** Zeroes appended after the windowed samples. */
    const zeroPadLength: int
    const numFrames: int
    /** Rounded product of a sample with the window function's coefficient at
        an index; supplied by the caller in place of the coefficient generator. */
    const weigh: (nat, int) -> int

    predicate Valid()
    {
      && windowSize > 0
      && zeroPadLength >= 0
      && numFrames == FrameCount(wave.Length, isStereo, windowSize)
    }

    constructor (wave: array<int>, isStereo: bool, windowSize: int, windowFunction: WindowFunction,
                 zeroPadLength: int, weigh: (nat, int) -> int)
      requires windowSize > 0 && zeroPadLength >= 0
      ensures Valid()
      ensures this.wave == wave && this.isStereo == isStereo && this.windowSize == windowSize
      ensures this.windowFunction == windowFunction && this.zeroPadLength == zeroPadLength
      ensures this.weigh == weigh
    {
      this.wave := wave;
      this.isStereo := isStereo;
      this.windowSize := windowSize;
      this.windowFunction := windowFunction;
      this.zeroPadLength := zeroPadLength;
      this.weigh := weigh;
      var lengthOfWave := wave.Length / (if isStereo then 2 else 1);
      this.numFrames := (lengthOfWave + windowSize - 1) / windowSize;
    }

    /** Extracts window `i`: a fresh, zero-filled array of `windowSize +
        zeroPadLength` entries, filled from the waveform and then shaped. */
    method ExtractWindow(i: int) returns (window: array<int>)
      requires Valid()
      requires 0 <= i < numFrames
      requires ReadsInBounds(wave.Length, isStereo, windowSize, i)
      ensures fresh(window)
      ensures window[..] == Shape(RawFrame(wave[..], isStereo, windowSize, zeroPadLength, i),
                                  windowFunction, windowSize, weigh)
    {
      window := new int[windowSize + zeroPadLength](_ => 0);
      ghost var w := wave[..];
      ghost var count := ValidCount(wave.Length, isStereo, windowSize, i);
      ghost var first := FirstRead(isStereo, windowSize, i);

      var s := windowSize * (i + 1);
      if isStereo {
        s := s * 2;
      }
      assert s == if isStereo then 2 * (windowSize * i + windowSize) else windowSize * i + windowSize by {
        assert windowSize * (i + 1) == windowSize * i + windowSize;
      }

      if isStereo {
        var remaining := windowSize;
        if i == numFrames - 1 {
          remaining := (wave.Length % windowSize) / 2;
        }
        if remaining == 0 {
          remaining := windowSize;
        }
        assert remaining == count;
        var j := s - windowSize * 2;
        for k := 0 to remaining
          invariant j == first + 2 * k
          invariant forall t :: 0 <= t < k ==> window[t] == FrameEntry(w, isStereo, first, count, t)
          invariant forall t :: k <= t < window.Length ==> window[t] == 0
        {
          window[k] := Downmix(wave[j], wave[j + 1]);
          j := j + 2;
        }
      } else {
        assert s - windowSize == first;
        if i < numFrames - 1 {
          ArrayCopy(wave, s - windowSize, window, 0, windowSize);
        } else {
          var remaining := wave.Length % windowSize;
          if remaining == 0 {
            remaining := windowSize;
          }
          ArrayCopy(wave, s - windowSize, window, 0, remaining);
        }
      }
      assert forall t :: 0 <= t < window.Length ==> window[t] == FrameEntry(w, isStereo, first, count, t);
      assert window[..] == RawFrame(w, isStereo, windowSize, zeroPadLength, i);

      ApplyWindowingFunction(window);
    }

    /** Multiplies the first `windowSize` entries of `window` by the window
        function's coefficients in place; does nothing for a rectangular window. */
    method ApplyWindowingFunction(window: array<int>)
      requires Valid()
      requires windowSize <= window.Length
      modifies window
      ensures window[..] == Shape(old(window[..]), windowFunction, windowSize, weigh)
    {
      if windowFunction != Rectangular {
        for k := 0 to windowSize
          invariant forall t :: 0 <= t < k ==> window[t] == weigh(t, old(window[t]))
          invariant forall t :: k <= t < window.Length ==> window[t] == old(window[t])
        {
          window[k] := weigh(k, window[k]);
        }
      }
    }
  }

  /** Extraction reads the waveform and the extractor and changes neither, so
      two extractions of the same index give equal, distinct arrays. */
  method ExtractWindowIsRepeatable(e: SampleWindowExtractor, i: int) returns (first: array<int>, second: array<int>)
    requires e.Valid()
    requires 0 <= i < e.numFrames
    requires ReadsInBounds(e.wave.Length, e.isStereo, e.windowSize, i)
    ensures first != second && first != e.wave && second != e.wave
    ensures first[..] == second[..]
  {
    first := e.ExtractWindow(i);
    second := e.ExtractWindow(i);
  }

  // ---------------------------------------------------------------------------
  // Arithmetic helpers
  // ---------------------------------------------------------------------------

  /** Multiplying by a non-negative factor preserves order. */
  lemma MulMonotone(d: nat, a: int, b: int)
    ensures a <= b ==> d * a <= d * b
  {
    assert d * b - d * a == d * (b - a);
  }

  /** Euclidean division is determined by quotient and remainder. */
  lemma DivModUnique(x: int, d: int, q: int, r: int)
    requires d > 0 && x == q * d + r && 0 <= r < d
    ensures x / d == q && x % d == r
  {
    var q' := x / d;
    assert d * (q - q') == x % d - r;
    MulMonotone(d, 1, q - q');
    MulMonotone(d, 1, q' - q);
    assert d * (q' - q) == -(d * (q - q'));
  }

  /** Position `k` of block `i` lies inside a length `len` cut into blocks
      of `d`: the block is at most the last, and in the last partial block
      the position is below the remainder. */
  lemma PositionInFrame(len: nat, d: int, i: nat, k: nat)
    requires d > 0 && k < d && d * i + k < len
    ensures i <= len / d
    ensures i == len / d ==> k < len % d
  {
    var q := len / d;
    assert len == d * q + len % d;
    MulMonotone(d, q + 1, i);
    assert d * (q + 1) == d * q + d;
  }

  /** The remainder of an interleaved length `2 * (d * q + m)` over `d`. */
  lemma StereoRemainder(waveLength: int, d: int, q: int, m: int)
    requires d > 0 && 0 <= m < d
    requires waveLength == 2 * (d * q + m)
    ensures waveLength % d == if 2 * m < d then 2 * m else 2 * m - d
  {
    assert waveLength == (2 * q) * d + 2 * m;
    if 2 * m < d {
      DivModUnique(waveLength, d, 2 * q, 2 * m);
    } else {
      DivModUnique(waveLength, d, 2 * q + 1, 2 * m - d);
    }
  }

  /** Where the last stereo frame starts when the mono length is `d * q + m`. */
  lemma LastStereoFrameStart(d: int, q: int, m: int)
    requires d > 0 && 0 <= m < d
    requires m == 0 ==> q >= 1
    requires m != 0 ==> q >= 0
    ensures FirstRead(true, d, if m == 0 then q - 1 else q) == 2 * (d * q + m) - 2 * (if m == 0 then d else m)
  {
    assert d * (q - 1) == d * q - d;
  }

  /** The frame count as quotient and remainder of the mono length. */
  lemma FrameCountDivMod(waveLength: nat, isStereo: bool, windowSize: int)
    requires windowSize > 0
    ensures var len := MonoLength(waveLength, isStereo);
            var q, m := len / windowSize, len % windowSize;
            && len == windowSize * q + m
            && 0 <= m < windowSize
            && FrameCount(waveLength, isStereo, windowSize) == q + (if m == 0 then 0 else 1)
  {
    var len := MonoLength(waveLength, isStereo);
    var q, m := len / windowSize, len % windowSize;
    if m == 0 {
      DivModUnique(len + windowSize - 1, windowSize, q, windowSize - 1);
    } else {
      DivModUnique(len + windowSize - 1, windowSize, q + 1, m - 1);
    }
  }

  /** A frame before the last holds a full window of mono samples. */
  lemma InnerFrameFits(waveLength: nat, isStereo: bool, windowSize: int, i: nat)
    requires windowSize > 0
    requires i < FrameCount(waveLength, isStereo, windowSize) - 1
    ensures windowSize * i + windowSize <= MonoLength(waveLength, isStereo)
  {
    FrameCountDivMod(waveLength, isStereo, windowSize);
    var q := MonoLength(waveLength, isStereo) / windowSize;
    MulMonotone(windowSize, i + 1, q);
    assert windowSize * (i + 1) == windowSize * i + windowSize;
  }

  // ---------------------------------------------------------------------------
  // Frame geometry lemmas
  // ---------------------------------------------------------------------------

  /** The frame count is the ceiling of the mono length over the window size:
      the last frame starts before the end of the mono samples, and the frames
      together have room for all of them. */
  lemma FrameCountIsCeiling(waveLength: nat, isStereo: bool, windowSize: int)
    requires windowSize > 0
    ensures var n := FrameCount(waveLength, isStereo, windowSize);
            (n - 1) * windowSize < MonoLength(waveLength, isStereo) <= n * windowSize
  {
    FrameCountDivMod(waveLength, isStereo, windowSize);
    var n := FrameCount(waveLength, isStereo, windowSize);
    var q := MonoLength(waveLength, isStereo) / windowSize;
    assert (q - 1) * windowSize == windowSize * q - windowSize;
    assert (q + 1) * windowSize == windowSize * q + windowSize;
    assert n == q || n == q + 1;
  }

  /** Worked sizes: 2048 mono samples in windows of 1024 give two full frames;
      2050 give three, the last holding two samples; a stereo waveform whose
      length is a multiple of twice the window size has a full last frame. */
  lemma FrameCountExamples()
    ensures FrameCount(2048, false, 1024) == 2
    ensures ValidCount(2048, false, 1024, 1) == 1024
    ensures FrameCount(2050, false, 1024) == 3
    ensures ValidCount(2050, false, 1024, 2) == 2
    ensures FrameCount(4096, true, 1024) == 2
    ensures ValidCount(4096, true, 1024, 1) == 1024
  {
    FrameCountDivMod(2048, false, 1024);
    FrameCountDivMod(2050, false, 1024);
    FrameCountDivMod(4096, true, 1024);
  }

  /** A mono frame other than the last copies a full window starting at
      `windowSize * i`. */
  lemma MonoInnerFrame(wave: seq<int>, windowSize: int, zeroPadLength: int, i: nat)
    requires windowSize > 0 && zeroPadLength >= 0
    requires i < FrameCount(|wave|, false, windowSize) - 1
    ensures ValidCount(|wave|, false, windowSize, i) == windowSize
    ensures ReadsInBounds(|wave|, false, windowSize, i)
    ensures forall k :: 0 <= k < windowSize ==>
      RawFrame(wave, false, windowSize, zeroPadLength, i)[k] == wave[windowSize * i + k]
  {
    InnerFrameFits(|wave|, false, windowSize, i);
  }

  /** The last mono frame takes `|wave| % windowSize` samples, or a full
      window when that is 0; it ends exactly at the end of the waveform, and
      the rest of its window stays zero. */
  lemma MonoLastFrame(wave: seq<int>, windowSize: int, zeroPadLength: int)
    requires windowSize > 0 && zeroPadLength >= 0
    requires |wave| > 0
    ensures var last := FrameCount(|wave|, false, windowSize) - 1;
            var r := if |wave| % windowSize == 0 then windowSize else |wave| % windowSize;
            && last >= 0
            && ValidCount(|wave|, false, windowSize, last) == r
            && FirstRead(false, windowSize, last) + r == |wave|
            && ReadsInBounds(|wave|, false, windowSize, last)
            && (forall k :: 0 <= k < r ==>
                  RawFrame(wave, false, windowSize, zeroPadLength, last)[k] == wave[windowSize * last + k])
            && (forall k :: r <= k < windowSize + zeroPadLength ==>
                  RawFrame(wave, false, windowSize, zeroPadLength, last)[k] == 0)
  {
    MonoLastFrameGeometry(|wave|, windowSize);
  }

  /** Position and sample count of the last mono frame. */
  lemma MonoLastFrameGeometry(waveLength: nat, windowSize: int)
    requires windowSize > 0 && waveLength > 0
    ensures var last := FrameCount(waveLength, false, windowSize) - 1;
            var r := if waveLength % windowSize == 0 then windowSize else waveLength % windowSize;
            && last >= 0
            && ValidCount(waveLength, false, windowSize, last) == r
            && FirstRead(false, windowSize, last) + r == waveLength
  {
    FrameCountDivMod(waveLength, false, windowSize);
    var q, m := waveLength / windowSize, waveLength % windowSize;
    if m == 0 {
      assert windowSize * (q - 1) + windowSize == windowSize * q;
    }
  }

  /** Every mono frame reads inside the waveform. */
  lemma MonoReadsInBounds(waveLength: nat, windowSize: int, i: nat)
    requires windowSize > 0
    requires i < FrameCount(waveLength, false, windowSize)
    ensures ReadsInBounds(waveLength, false, windowSize, i)
  {
    var wave := seq(waveLength, _ => 0);
    if i < FrameCount(waveLength, false, windowSize) - 1 {
      MonoInnerFrame(wave, windowSize, 0, i);
    } else {
      MonoLastFrame(wave, windowSize, 0);
    }
  }

  /** The mono frames tile the waveform: every sample index can be written
      `windowSize * i + k` with `k < windowSize`, and that sample is entry `k`
      of frame `i`, which exists and takes it from the waveform. */
  lemma MonoFramesCoverWave(wave: seq<int>, windowSize: int, zeroPadLength: int, i: nat, k: nat)
    requires windowSize > 0 && zeroPadLength >= 0
    requires k < windowSize && windowSize * i + k < |wave|
    ensures i < FrameCount(|wave|, false, windowSize)
    ensures ReadsInBounds(|wave|, false, windowSize, i)
    ensures k < ValidCount(|wave|, false, windowSize, i)
    ensures RawFrame(wave, false, windowSize, zeroPadLength, i)[k] == wave[windowSize * i + k]
  {
    FrameCountDivMod(|wave|, false, windowSize);
    PositionInFrame(|wave|, windowSize, i, k);
    MonoReadsInBounds(|wave|, windowSize, i);
  }

  /** A stereo frame other than the last averages a full window of pairs and
      reads inside the waveform. */
  lemma StereoInnerFrame(waveLength: nat, windowSize: int, i: nat)
    requires windowSize > 0
    requires i < FrameCount(waveLength, true, windowSize) - 1
    ensures ValidCount(waveLength, true, windowSize, i) == windowSize
    ensures ReadsInBounds(waveLength, true, windowSize, i)
  {
    InnerFrameFits(waveLength, true, windowSize, i);
  }

  /** Entry `k` of a stereo frame is the downmix of the `k`-th pair from the
      frame's start; the entries after ValidCount stay zero. */
  lemma StereoFrameDownmixes(wave: seq<int>, windowSize: int, zeroPadLength: int, i: nat)
    requires windowSize > 0 && zeroPadLength >= 0
    requires ReadsInBounds(|wave|, true, windowSize, i)
    ensures var f := RawFrame(wave, true, windowSize, zeroPadLength, i);
            var c := ValidCount(|wave|, true, windowSize, i);
            && (forall k :: 0 <= k < c ==>
                  f[k] == Downmix(wave[2 * (windowSize * i) + 2 * k], wave[2 * (windowSize * i) + 2 * k + 1]))
            && (forall k :: c <= k < windowSize + zeroPadLength ==> f[k] == 0)
  {
  }

  /** The pair count of the last stereo frame of an even-length waveform, as
      the code computes it from the interleaved length. With `m` the pairs
      left over after the full frames, it is `m` only while `2 * m` is below
      the window size. */
  lemma StereoLastFrameCount(waveLength: nat, windowSize: int)
    requires windowSize > 0
    requires waveLength % 2 == 0 && waveLength >= 2
    ensures var last := FrameCount(waveLength, true, windowSize) - 1;
            var m := (waveLength / 2) % windowSize;
            && last >= 0
            && FirstRead(true, windowSize, last) == waveLength - 2 * (if m == 0 then windowSize else m)
            && ValidCount(waveLength, true, windowSize, last) ==
                 if m == 0 then windowSize
                 else if 2 * m < windowSize then m
                 else if 2 * m <= windowSize + 1 then windowSize
                 else (2 * m - windowSize) / 2
  {
    FrameCountDivMod(waveLength, true, windowSize);
    var q, m := (waveLength / 2) / windowSize, (waveLength / 2) % windowSize;
    assert waveLength == 2 * (windowSize * q + m);
    StereoRemainder(waveLength, windowSize, q, m);
    if m == 0 {
      assert q >= 1;
    }
    LastStereoFrameStart(windowSize, q, m);
  }

  /** The last stereo frame of an even-length waveform reads inside it exactly
      when the leftover pair count `m` is 0 or `2 * m` is not the window size
      or one more: in those two cases the count falls back to a full window
      and the loop reads past the end. */
  lemma StereoLastFrameInBoundsIff(waveLength: nat, windowSize: int)
    requires windowSize > 0
    requires waveLength % 2 == 0 && waveLength >= 2
    ensures var last := FrameCount(waveLength, true, windowSize) - 1;
            var m := (waveLength / 2) % windowSize;
            last >= 0 &&
            (ReadsInBounds(waveLength, true, windowSize, last) <==>
               m == 0 || 2 * m < windowSize || 2 * m > windowSize + 1)
  {
    StereoLastFrameCount(waveLength, windowSize);
  }

  /** When `2 * m` exceeds the window size by two or more, the last stereo
      frame reads inside the waveform but averages fewer pairs than remain. */
  lemma StereoLastFrameDropsPairs(waveLength: nat, windowSize: int)
    requires windowSize > 0
    requires waveLength % 2 == 0 && waveLength >= 2
    requires 2 * ((waveLength / 2) % windowSize) > windowSize + 1
    ensures var last := FrameCount(waveLength, true, windowSize) - 1;
            && last >= 0
            && ReadsInBounds(waveLength, true, windowSize, last)
            && ValidCount(waveLength, true, windowSize, last) < (waveLength / 2) % windowSize
  {
    StereoLastFrameCount(waveLength, windowSize);
  }

  /** Six pairs in windows of four: the last frame has two pairs left, but
      `(12 % 4) / 2` is 0, the count falls back to four, and the loop reads
      entries 12 to 15 of a twelve-entry waveform. */
  lemma StereoLastFrameOverrun()
    ensures FrameCount(12, true, 4) == 2
    ensures ValidCount(12, true, 4, 1) == 4
    ensures !ReadsInBounds(12, true, 4, 1)
  {
    FrameCountDivMod(12, true, 4);
  }

  /** The pair count the stereo branch evidently intends: the pairs left over
      after the full frames, taken of the pair count rather than of the
      interleaved length, or a full window when none are left over. */
  function IntendedPairCount(waveLength: nat, windowSize: int, i: nat): nat
    requires windowSize > 0
  {
    var m := (waveLength / 2) % windowSize;
    if i == FrameCount(waveLength, true, windowSize) - 1 && m != 0 then m else windowSize
  }

  /** The intended count is the number of pairs that remain from the frame's
      start, capped at the window size, so every read stays in the waveform. */
  lemma IntendedPairCountIsRemainingPairs(waveLength: nat, windowSize: int, i: nat)
    requires windowSize > 0
    requires i < FrameCount(waveLength, true, windowSize)
    ensures var pairsLeft := waveLength / 2 - windowSize * i;
            var c := IntendedPairCount(waveLength, windowSize, i);
            && c == (if pairsLeft < windowSize then pairsLeft else windowSize)
            && FirstRead(true, windowSize, i) + 2 * c <= waveLength
  {
    var n := FrameCount(waveLength, true, windowSize);
    FrameCountDivMod(waveLength, true, windowSize);
    var pairs := waveLength / 2;
    var q, m := pairs / windowSize, pairs % windowSize;
    assert pairs == windowSize * q + m;
    var c := IntendedPairCount(waveLength, windowSize, i);
    if i < n - 1 {
      InnerFrameFits(waveLength, true, windowSize, i);
    } else if m == 0 {
      assert i == q - 1 && c == windowSize;
      assert windowSize * i == windowSize * q - windowSize;
    } else {
      assert i == q && c == m;
    }
  }

  /** On an even-length waveform the code's last-frame count agrees with the
      intended one exactly when the leftover pair count `m` is 0 or `2 * m`
      is below the window size. */
  lemma StereoLastFrameAgreesIff(waveLength: nat, windowSize: int)
    requires windowSize > 0
    requires waveLength % 2 == 0 && waveLength >= 2
    ensures var last := FrameCount(waveLength, true, windowSize) - 1;
            var m := (waveLength / 2) % windowSize;
            last >= 0 &&
            (ValidCount(waveLength, true, windowSize, last) == IntendedPairCount(waveLength, windowSize, last) <==>
               m == 0 || 2 * m < windowSize)
  {
    StereoLastFrameCount(waveLength, windowSize);
  }

  // ---------------------------------------------------------------------------
  // Downmix and shaping
  // ---------------------------------------------------------------------------

  /** Halves round toward +infinity, as Math.round does: -1.5 becomes -1. */
  lemma DownmixExamples()
    ensures Downmix(1, 2) == 2 && Downmix(-1, -2) == -1 && Downmix(3, 3) == 3 && Downmix(-4, 1) == -1
  {
  }

  /** The window function touches only the first `windowSize` entries, and a
      rectangular window leaves the frame as it is. */
  lemma ShapeTouchesOnlyWindow(frame: seq<int>, windowFunction: WindowFunction, windowSize: nat, weigh: (nat, int) -> int)
    requires windowSize <= |frame|
    ensures forall k :: windowSize <= k < |frame| ==> Shape(frame, windowFunction, windowSize, weigh)[k] == frame[k]
    ensures windowFunction == Rectangular ==> Shape(frame, windowFunction, windowSize, weigh) == frame
  {
  }

  /** Every extracted window ends in `zeroPadLength` zeroes, whatever the
      window function. */
  lemma PaddingIsZero(wave: seq<int>, isStereo: bool, windowSize: int, zeroPadLength: int, i: nat,
                      windowFunction: WindowFunction, weigh: (nat, int) -> int)
    requires windowSize > 0 && zeroPadLength >= 0
    requires ReadsInBounds(|wave|, isStereo, windowSize, i)
    ensures var w := Shape(RawFrame(wave, isStereo, windowSize, zeroPadLength, i), windowFunction, windowSize, weigh);
            |w| == windowSize + zeroPadLength &&
            forall k :: windowSize <= k < |w| ==> w[k] == 0
  {
  }

  /** `Math.round(0 * c)` is 0 for every coefficient `c` (NaN and the
      infinities included, as `Math.round(NaN)` is 0): weighing keeps a zero. */
  ghost predicate KeepsZero(weigh: (nat, int) -> int)
  {
    forall k: nat :: weigh(k, 0) == 0
  }

  /** Every entry a frame does not take from the waveform stays 0 after
      shaping, also the ones below `windowSize` in a short last frame. */
  lemma UnfilledEntriesStayZero(wave: seq<int>, isStereo: bool, windowSize: int, zeroPadLength: int, i: nat,
                                windowFunction: WindowFunction, weigh: (nat, int) -> int)
    requires windowSize > 0 && zeroPadLength >= 0
    requires ReadsInBounds(|wave|, isStereo, windowSize, i)
    requires KeepsZero(weigh)
    ensures var w := Shape(RawFrame(wave, isStereo, windowSize, zeroPadLength, i), windowFunction, windowSize, weigh);
            forall k :: ValidCount(|wave|, isStereo, windowSize, i) <= k < |w| ==> w[k] == 0
  {
    var f := RawFrame(wave, isStereo, windowSize, zeroPadLength, i);
    var w := Shape(f, windowFunction, windowSize, weigh);
    forall k | ValidCount(|wave|, isStereo, windowSize, i) <= k < |w|
      ensures w[k] == 0
    {
      assert f[k] == 0;
      if windowFunction != Rectangular && k < windowSize {
        assert w[k] == weigh(k, 0);
      }
    }
  }

  /** With a rectangular window an inner mono frame is exactly the slice of
      the waveform at `windowSize * i`. */
  lemma RectangularMonoFrameIsSlice(wave: seq<int>, windowSize: int, zeroPadLength: int, i: nat, weigh: (nat, int) -> int)
    requires windowSize > 0 && zeroPadLength >= 0
    requires i < FrameCount(|wave|, false, windowSize) - 1
    ensures ReadsInBounds(|wave|, false, windowSize, i)
    ensures Shape(RawFrame(wave, false, windowSize, zeroPadLength, i), Rectangular, windowSize, weigh)[..windowSize]
            == wave[windowSize * i .. windowSize * i + windowSize]
  {
    MonoInnerFrame(wave, windowSize, zeroPadLength, i);
  }
}
