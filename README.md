# QuiFFT frame extraction and reader dispatch, in Dafny

This project models two parts of QuiFFT, a Java library that computes spectra of audio files.

- **Sample window extraction** (`Sampling`, `sampling.dfy`). `SampleWindowExtractor` holds a full-length integer waveform. Stereo waveforms are interleaved L/R. The extractor cuts the waveform into analysis windows of `windowSize` samples.
  - The constructor computes the frame count once, as a ceiling division of the mono length.
  - `extractWindow(i)` allocates a zero-filled array of `windowSize + zeroPadLength` entries. For mono it copies samples. For stereo it averages L/R pairs with `Math.round((L + R) / 2.0)`. The last frame takes a "remainder, or a full window if the remainder is 0" count of samples.
  - A window function is then applied in place to the first `windowSize` entries. A rectangular window is skipped.

  The class keeps the source's fields as `const` fields, because the source sets them once in the constructor. Its methods work on `array<int>` as the source does. Each method is proved against a specification function over sequences: `FrameCount`, `ValidCount`, `RawFrame` (entry by entry, `FrameEntry`) and `Shape`. The lemmas state the properties of those functions.
- **Reader dispatch** (`AudioRead`, `audioread.dfy`). `AudioReaderFactory` takes the extension of a file name from its last `.` and rejects a name with no dot. It selects the MP3 reader for exactly `.mp3` and the WAV reader for exactly `.wav`, and rejects every other extension. The model returns a reader kind, `MP3 | WAV | Unsupported`, instead of constructing a reader. `Unsupported` stands for the thrown `UnsupportedAudioFileException`.

Notes on the model:
- The window coefficients come from a generator that is not part of this model. They are applied with floating-point multiplication and rounding. The extractor therefore takes a function `weigh(k, x)` that stands for `Math.round(x * coefficients[k])`. The model proves what does not depend on it: only entries below `windowSize` are touched, and a rectangular window changes nothing.
- `Math.round` rounds halves toward +infinity, so the stereo downmix is `floor((L + R + 1) / 2)`. For example, `(-1, -2)` gives `-1`. Rounding ties away from zero would give `-2`; `Math.round` gives `-1`, and the model follows the code.
- The source throws when the stereo last-frame count makes the loop read past the end of the waveform. The model makes that obligation explicit as `requires ReadsInBounds(...)` on `ExtractWindow`. The lemmas characterize exactly when it holds (see Findings).

## Model

| member | source | states |
|---|---|---|
| `Sampling.FrameCountIsCeiling` | src/main/java/org/quifft/sampling/SampleWindowExtractor.java:45-47 | the frame count n is the ceiling of the mono length over the window size: `(n-1)*windowSize < monoLength <= n*windowSize`, where the mono length halves the stereo waveform length |
| `Sampling.FrameCountExamples` | src/main/java/org/quifft/sampling/SampleWindowExtractor.java:45-80 | 2048 mono samples in windows of 1024 make 2 full frames; 2050 make 3, the last with 2 samples; 4096 stereo entries make 2 frames, the last a full window |
| `Sampling.ValidCount` | src/main/java/org/quifft/sampling/SampleWindowExtractor.java:63-81 | the number of samples a frame takes from the waveform (`remaining`, as the code computes it) is between 1 and `windowSize` |
| `Sampling.Downmix` | src/main/java/org/quifft/sampling/SampleWindowExtractor.java:71 | the downmixed sample m satisfies `m <= (L+R)/2 + 0.5 < m + 1` over the reals, i.e. it is `Math.round((L+R)/2.0)` |
| `Sampling.DownmixExamples` | src/main/java/org/quifft/sampling/SampleWindowExtractor.java:71 | halves round toward +infinity: (1,2) gives 2 and (-1,-2) gives -1 |
| `Sampling.RawFrame` | src/main/java/org/quifft/sampling/SampleWindowExtractor.java:57-82 | an unshaped frame has exactly `windowSize + zeroPadLength` entries |
| `Sampling.Shape` | src/main/java/org/quifft/sampling/SampleWindowExtractor.java:94-101 | shaping keeps the frame length |
| `Sampling.ArrayCopy` | src/main/java/org/quifft/sampling/SampleWindowExtractor.java:76-80 | `System.arraycopy` between distinct arrays: entries `destPos..destPos+length-1` become the source range, and every other entry keeps its value |
| `Sampling.SampleWindowExtractor.constructor` | src/main/java/org/quifft/sampling/SampleWindowExtractor.java:38-48 | stores the parameters and sets `numFrames` to `FrameCount` of the waveform |
| `Sampling.SampleWindowExtractor.ExtractWindow` | src/main/java/org/quifft/sampling/SampleWindowExtractor.java:56-88 | for `0 <= i < numFrames` with in-bounds reads, returns a fresh array equal to the shaped raw frame `i` |
| `Sampling.SampleWindowExtractor.ApplyWindowingFunction` | src/main/java/org/quifft/sampling/SampleWindowExtractor.java:94-101 | the window array afterwards equals `Shape` of its old contents: the first `windowSize` entries are weighed unless the window is rectangular, and the rest are unchanged |
| `Sampling.ExtractWindowIsRepeatable` | src/main/java/org/quifft/sampling/SampleWindowExtractor.java:56-88 | two extractions of the same index return distinct arrays, neither of them the waveform, with equal contents |
| `Sampling.MonoInnerFrame` | src/main/java/org/quifft/sampling/SampleWindowExtractor.java:75-76 | a mono frame before the last takes a full window, reads in bounds, and entry k is `wave[windowSize*i + k]` |
| `Sampling.MonoLastFrame` | src/main/java/org/quifft/sampling/SampleWindowExtractor.java:77-80 | the last mono frame takes `r = |wave| % windowSize` samples, or `windowSize` when that is 0. It ends exactly at the end of the waveform. Its first r entries are the trailing samples and the rest of the frame is 0 |
| `Sampling.MonoLastFrameGeometry` | src/main/java/org/quifft/sampling/SampleWindowExtractor.java:74-80 | the last mono frame starts at `windowSize*(numFrames-1)` and takes `r = length % windowSize` samples, or `windowSize` when that is 0, so it ends exactly at the end of the waveform |
| `Sampling.MonoReadsInBounds` | src/main/java/org/quifft/sampling/SampleWindowExtractor.java:74-81 | every mono frame reads only inside the waveform |
| `Sampling.MonoFramesCoverWave` | src/main/java/org/quifft/sampling/SampleWindowExtractor.java:60-80 | the mono frames tile the waveform: for `k < windowSize`, sample `windowSize*i + k` lies in frame i, which exists, reads in bounds and takes more than k samples, and it is entry k of that frame |
| `Sampling.StereoInnerFrame` | src/main/java/org/quifft/sampling/SampleWindowExtractor.java:64-69 | a stereo frame before the last averages exactly `windowSize` pairs and reads in bounds |
| `Sampling.StereoFrameDownmixes` | src/main/java/org/quifft/sampling/SampleWindowExtractor.java:68-73 | entry k of a stereo frame is `Downmix(wave[j], wave[j+1])` with `j = 2*windowSize*i + 2*k`, and the entries after the count are 0 |
| `Sampling.StereoLastFrameCount` | src/main/java/org/quifft/sampling/SampleWindowExtractor.java:65-66 | for an even-length waveform with m leftover pairs, the last frame's count is: `windowSize` if m = 0; m if 2m < windowSize; `windowSize` if 2m is windowSize or windowSize+1; otherwise `(2m - windowSize)/2` |
| `Sampling.StereoLastFrameInBoundsIff` | src/main/java/org/quifft/sampling/SampleWindowExtractor.java:65-72 | the last stereo frame reads in bounds if and only if m = 0, 2m < windowSize or 2m > windowSize+1 |
| `Sampling.StereoLastFrameDropsPairs` | src/main/java/org/quifft/sampling/SampleWindowExtractor.java:65-69 | when 2m > windowSize+1, the last stereo frame reads in bounds but averages fewer than m pairs |
| `Sampling.StereoLastFrameOverrun` | src/main/java/org/quifft/sampling/SampleWindowExtractor.java:65-72 | 12 stereo entries in windows of 4: the last frame's count is 4 and its reads leave the waveform |
| `Sampling.IntendedPairCountIsRemainingPairs` | src/main/java/org/quifft/sampling/SampleWindowExtractor.java:64-66 | the corrected count is the smaller of `windowSize` and the pairs remaining from the frame's start, so every read stays in bounds |
| `Sampling.StereoLastFrameAgreesIff` | src/main/java/org/quifft/sampling/SampleWindowExtractor.java:65-66 | the code's last-frame count equals the corrected one if and only if m = 0 or 2m < windowSize |
| `Sampling.ShapeTouchesOnlyWindow` | src/main/java/org/quifft/sampling/SampleWindowExtractor.java:95-98 | entries at or after `windowSize` keep their value, and a rectangular window leaves the frame unchanged |
| `Sampling.PaddingIsZero` | src/main/java/org/quifft/sampling/SampleWindowExtractor.java:57-98 | an extracted window has `windowSize + zeroPadLength` entries, and every padding entry is 0 whatever the window function |
| `Sampling.UnfilledEntriesStayZero` | src/main/java/org/quifft/sampling/SampleWindowExtractor.java:57-98 | when weighing keeps a zero (as `Math.round(0 * c)` does for every coefficient), every entry a frame does not take from the waveform is 0 after shaping, including the entries below `windowSize` of a short last frame |
| `Sampling.RectangularMonoFrameIsSlice` | src/main/java/org/quifft/sampling/SampleWindowExtractor.java:75-95 | with a rectangular window, the first `windowSize` entries of an inner mono frame equal the waveform slice at `windowSize*i` |
| `AudioRead.LastIndexOf` | src/main/java/org/quifft/audioread/AudioReaderFactory.java:43 | the result is -1 exactly when the character is absent; otherwise the character is at that position and nowhere after it |
| `AudioRead.FileExtension` | src/main/java/org/quifft/audioread/AudioReaderFactory.java:38-44 | None exactly for a name without '.'. Otherwise the extension is a suffix of the name that starts with '.' and contains no other '.' |
| `AudioRead.ExtensionIsLastDottedSuffix` | src/main/java/org/quifft/audioread/AudioReaderFactory.java:43 | any suffix that starts at a '.' with no '.' after it is the extension |
| `AudioRead.AudioReaderFor` | src/main/java/org/quifft/audioread/AudioReaderFactory.java:19-30 | the reader kind: MP3 exactly when the extension is ".mp3", WAV exactly when it is ".wav", and Unsupported for any other extension or a name without a dot |
| `AudioRead.SelectsMp3Iff` | src/main/java/org/quifft/audioread/AudioReaderFactory.java:22-24 | the MP3 reader is selected if and only if the name ends in ".mp3" |
| `AudioRead.SelectsWavIff` | src/main/java/org/quifft/audioread/AudioReaderFactory.java:25-26 | the WAV reader is selected if and only if the name ends in ".wav" |
| `AudioRead.RejectsOtherNames` | src/main/java/org/quifft/audioread/AudioReaderFactory.java:27-28 | a name is rejected if and only if it ends in neither ".mp3" nor ".wav"; a name without '.' is rejected |
| `AudioRead.LastExtensionDecides` | src/main/java/org/quifft/audioread/AudioReaderFactory.java:22-26 | only the text after the last dot decides: "a.mp3.wav" selects WAV and "a.wav.mp3" selects MP3 |
| `AudioRead.DispatchRejects` | src/main/java/org/quifft/audioread/AudioReaderFactory.java:27-28 | the match is case sensitive and exact: "song.WAV" and "clip.aiff" are rejected, and "song." has the extension "." and is rejected |

## Left out

- Window coefficients: `WindowFunctionGenerator.generateWindow` is not part of this model, and the product `Math.round(window[i] * coefficients[i])` is floating point. The model replaces it with the caller-supplied function `weigh(k, x)`. The source's `Math.round(0 * c)` is 0 for every `double` coefficient, NaN and the infinities included; the model states this fact as `KeepsZero(weigh)` where a lemma needs it (`UnfilledEntriesStayZero`) rather than building it into the extractor.
- Sampling.SampleWindowExtractor.ExtractWindow: it requires the reads to be in bounds rather than modelling the `ArrayIndexOutOfBoundsException` the stereo last frame can raise. `StereoLastFrameInBoundsIff` states exactly when that requirement holds.
- Sampling.SampleWindowExtractor.constructor: requires `windowSize > 0` and `zeroPadLength >= 0`. The source does not check either value. With `windowSize = 0`, `numFrames` becomes `Integer.MAX_VALUE` (or 0 for an empty waveform); with a rectangular window the earlier frames hold no samples, and the last throws `ArithmeticException` at `wave.length % windowSize`. With a negative `zeroPadLength` the frame is shorter than `windowSize`: allocation throws when `windowSize + zeroPadLength < 0`, and otherwise the copy, the stereo loop or the shaping loop throws once it writes past the end (only a rectangular frame whose samples fit the shorter array, such as a short last frame, comes back). The model excludes both as caller errors. `numFrames` is computed as the integer ceiling, which agrees with `Math.ceil` of the `double` quotient for lengths a `double` represents exactly.
- Sampling.SampleWindowExtractor.ExtractWindow: requires `0 <= i < numFrames`. For any other index the source reads outside the waveform and throws.
- Sampling.ArrayCopy: covers only copies between two distinct arrays, the only use in the extractor. `System.arraycopy` also handles overlapping copies within one array.
- Java's 32-bit `int`: `windowSize * (i + 1)` and `wave[j] + wave[j + 1]` can overflow in the source. The model uses unbounded integers; samples are 16-bit in practice.
- Stereo lemmas assume an even waveform length, as a stereo waveform has. The extractor itself and `ReadsInBounds` accept any length.
- `PCMReader` and the other readers: opening and decoding files, and widening 8-bit samples, go through `javax.sound.sampled`. The duration formula is floating point.
- `FFTOutputObject.setMetadata`: frequency resolution and window duration are computed with floating-point division.
- Construction of `MP3Reader` and `WAVReader`: the model returns the reader kind. The file name is a string parameter standing for `File.getName()`.
- The `WindowFunction` enumeration is not part of this model. The datatype lists the usual kinds, and only "rectangular or not" matters.

## Findings

| source | as written | input that shows it | evidently intended | confidence | as-written member | corrected member |
|---|---|---|---|---|---|---|
| src/main/java/org/quifft/sampling/SampleWindowExtractor.java:65 | the stereo last-frame count is `(wave.length % windowSize) / 2`, the remainder of the interleaved length, with a fallback to `windowSize` when that is 0 | 12 stereo entries (6 pairs) in windows of 4: 2 frames, 2 pairs left for the last one. The count is `(12 % 4) / 2 = 0`, which falls back to 4, and the loop reads `wave[12]` | the pairs left over, `(wave.length / 2) % windowSize`, or `windowSize` when that is 0 | high (not executed) | `Sampling.StereoLastFrameOverrun` | `Sampling.IntendedPairCountIsRemainingPairs` |

The extractor keeps the count as written, so that it models what the code does. Where that count differs from the corrected one, `StereoLastFrameInBoundsIff`, `StereoLastFrameDropsPairs` and `StereoLastFrameAgreesIff` give the consequences: a read past the end, or leftover pairs that are dropped.
