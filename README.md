# SDT analysis: zero crossing rate, spectral features and pitch

A Dafny model of the per-sample streaming logic of the three analysers in
`src/SDT/SDTAnalysis.c` of the Sound Design Toolkit.

- **SDTZeroCrossing** reports the zero crossing rate of a sliding window.
- **SDTSpectralFeats** reports eight spectral descriptors of a sliding
  window: magnitude, brightness, spread, skewness, kurtosis, flatness, flux
  and onset.
- **SDTPitch** reports pitch and clarity by McLeod and Wyvill's normalised
  square difference function (NSDF).

All three share the same streaming skeleton:

- a double-length ("mirrored") input buffer written at a moving index;
- a hop counter `j = (j + 1) % skip`, where `dsp` produces output exactly
  when the counter wraps to 0;
- `setOverlap`, which clamps the hop to `[1, size]`.

Each analyser is a `class` over `array<real>` buffers.

- The spectral features extractor and the pitch tracker also carry a ghost
  `history` of every sample they have received. Their invariant `Valid()`
  ties the input buffer to that history through `Stream.RingState`: the
  buffer is the mirrored image of the last `size` samples, zero-padded
  before that many have arrived.
- The zero crossing detector writes its input buffer as the source does
  (see Findings). It has no history, and its `Valid()` keeps only buffer
  shapes, ranges and `in[0] == 0`.

Loops that the source runs in place are methods with loop invariants. Each
is proved against a specification function:

| module | method | specification |
|---|---|---|
| `ZeroCrossingRate` | `CopyCounting` | `Crossings` |
| `SpectralFeatures` | `WhitenBand`, `Accumulate` | `BandSum`, `MomentSum`, `FluxSum`, `OnsetSum`, … |
| `PitchTracker` | `PowerSpectrum` | `Nsdf.Power` |
| `PitchTracker` | `Normalise` | `Nsdf.NsdfValues` |
| `PitchTracker` | `SkipPositive` | `Nsdf.FirstNegative` |
| `PitchTracker` | `PickPeak` | `Nsdf.Best` / `Nsdf.Estimated` |

Lemmas state what those functions mean.

The FFTs are function parameters, and so are square root, logarithm,
exponential, `pow(10, ·)`, the sample rate and `SDT_MICRO`:

- `PitchTracker` takes `r2hc` and `hc2r`.
- `SpectralFeatures` takes `magnitudes`: Hann taper, r2c transform and bin
  moduli in one function.

A division the source performs unguarded carries a precondition that holds
only when the call emits a frame:

- `SpectralSums.FrameDefined`: positive band sum, non-zero spread;
- `PitchTracker.FrameDefined`: non-zero NSDF normaliser.

The code and its header comments disagree in three places. The model
follows the code in each:

- The header comment of `SDTSpectralFeats_dsp` says it writes seven doubles
  (`src/SDT/SDTAnalysis.h:103`). The code writes eight (`outs[0..7]`): the
  eight fields of `SpectralSums.Features`, in order.
- The header comment of `SDTPitch_setTolerance`
  (`src/SDT/SDTAnalysis.h:151-160`) describes the chosen peak as the one of
  lowest frequency among those close to the global maximum. The code
  multiplies each peak value by `1 - i * tol / seek`
  (`src/SDT/SDTAnalysis.c:310`), which penalises larger lags, that is,
  lower frequencies: a higher tolerance favours earlier peaks, not the last
  one. `Nsdf.RebiasInUnit` and `Nsdf.BestMeaning` state that selection.
- The header comment of `SDTPitch_dsp` gives clarity the range `[0.0, 1.0]`
  (`src/SDT/SDTAnalysis.h:174`). The peak value the code reports can exceed
  1 (see Findings), so the model states only that clarity is positive and at
  least the NSDF value at the peak (`Nsdf.EstimateMeaning`).

Modules:
- `Common`: clamps, `fmax`, integer powers, `Option`.
- `Stream`: mirrored ring buffer, hop and hop counter.
- `ZeroCrossingRate`: the zero crossing detector.
- `SpectralSums`: per-frame sums and descriptors.
- `SpectralFeatures`: per-bin buffers and the extractor class.
- `Nsdf`: power spectrum, NSDF and peak selection.
- `PitchTracker`: the pitch tracker class and its in-place loops.

## Model

| member | source | states |
|---|---|---|
| Common.Max | src/SDT/SDTAnalysis.c:176 | `fmax`: the result is at least both arguments and is one of them |
| Common.IntClip | src/SDT/SDTAnalysis.c:38 | `SDT_clip`: the result lies in `[lo, hi]`, equals `v` when `v` is in range, and otherwise is the bound `v` overshot |
| Common.FClip | src/SDT/SDTAnalysis.c:268 | `SDT_fclip`: the same for reals |
| Stream.LastNAt | src/SDT/SDTAnalysis.c:167-168 | window slot `k` holds the input that arrived `size - k` samples ago, or 0 before that many arrived |
| Stream.LastNSlides | src/SDT/SDTAnalysis.c:149-151 | one more input shifts the window left by one and appends the input |
| Stream.Clear | src/SDT/SDTAnalysis.c:237 | the constructor loop leaves the single-length buffer all zeros |
| Stream.ClearHalves | src/SDT/SDTAnalysis.c:228-236 | writing slots `k` and `size + k` for every `k < size` leaves the whole double buffer zero |
| Stream.Next | src/SDT/SDTAnalysis.c:277 | the advanced write index stays in `[0, size)` |
| Stream.NextIsMod | src/SDT/SDTAnalysis.c:277 | it equals `(curr + 1) % size` |
| Stream.RingImage | src/SDT/SDTAnalysis.c:275-276 | the buffer of a window is mirrored: `in[k] == in[k + size]` for every `k < size` |
| Stream.RingWrite | src/SDT/SDTAnalysis.c:149-150 | writing slot `i` of both halves keeps a mirrored buffer mirrored |
| Stream.WriteSlidesWindow | src/SDT/SDTAnalysis.c:149-151 | write plus index advance turns the buffer of window `w` into the buffer of `w` slid by the new sample |
| Stream.RingWindow | src/SDT/SDTAnalysis.c:280-281 | `in[curr .. curr + size)` is the window in arrival order |
| Stream.ZerosHoldEmptyWindow | src/SDT/SDTAnalysis.c:82-86 | the zeroed buffer with index 0 is the buffer of the empty history |
| Stream.StoreSample | src/SDT/SDTAnalysis.c:275-277 | the write keeps the buffer equal to the mirrored last `size` inputs of the extended history |
| Stream.Hop | src/SDT/SDTAnalysis.c:37-39 | `setOverlap` gives `skip` in `[1, size]` for every `f`, and the converted `(1 - f) * size` itself when that is in range |
| Stream.Wrap | src/SDT/SDTAnalysis.c:46 | the new hop counter lies in `[0, skip)` and is the incremented counter when it is below `skip` |
| Stream.WrapIsMod | src/SDT/SDTAnalysis.c:46 | it equals `(j + 1) % skip`, even after `skip` was lowered below the counter |
| Stream.OneEmissionPerHop | src/SDT/SDTAnalysis.c:45-47 | with `skip` unchanged, exactly one of any `skip` consecutive calls returns 1 |
| ZeroCrossingRate.CrossingIff | src/SDT/SDTAnalysis.c:52 | a pair counts iff the second sample is non-zero and the product is `<= 0`; in particular zero to zero never counts |
| ZeroCrossingRate.Crossings | src/SDT/SDTAnalysis.c:50-53 | a window of `size` samples has at most `size - 1` crossings |
| ZeroCrossingRate.Rate | src/SDT/SDTAnalysis.c:54 | the output lies in `[0, (size - 1) / size]` |
| ZeroCrossingRate.AlternatingCrossesEverywhere | src/SDT/SDTAnalysis.c:50-53 | a window that changes strict sign at every sample has `size - 1` crossings |
| ZeroCrossingRate.OneSidedNoCrossings | src/SDT/SDTAnalysis.c:50-53 | an all-positive or all-zero window has none |
| ZeroCrossingRate.ZcWrite | src/SDT/SDTAnalysis.c:43-44 | the write as written never touches slot 0 |
| ZeroCrossingRate.ConstantSignalReadsACrossing | src/SDT/SDTAnalysis.c:43-44 | size 3, three inputs of 1.0: the window read is `[0, 1, 1]` with one crossing, where the mirrored write reads `[1, 1, 1]` with none |
| ZeroCrossingRate.CopyCounting | src/SDT/SDTAnalysis.c:48-53 | the loop copies the `size` samples from index `i` and returns exactly their crossing count |
| ZeroCrossingRate.ZeroCrossing.constructor | src/SDT/SDTAnalysis.c:12-29 | zeroed buffers, index and counter 0, hop equal to size |
| ZeroCrossingRate.ZeroCrossing.SetOverlap | src/SDT/SDTAnalysis.c:37-39 | `skip` becomes the clamped hop |
| ZeroCrossingRate.ZeroCrossing.Dsp | src/SDT/SDTAnalysis.c:41-56 | buffer written as written, index advanced modulo size, counter advanced modulo skip; output iff the counter is 0, and then the window is `in[i .. i + size)` and the output is its crossing rate |
| SpectralSums.Whiten | src/SDT/SDTAnalysis.c:176 | a bin's new whitener is at least `SDT_MICRO`, the decayed old whitener and the magnitude, and equals one of them |
| SpectralSums.WhitenedInUnit | src/SDT/SDTAnalysis.c:177 | a non-negative magnitude over its new whitener lies in `[0, 1]` |
| SpectralSums.WhitenedTimesWhitener | src/SDT/SDTAnalysis.c:176-177 | whitened magnitude times whitener gives back the magnitude, and lies in `[0, 1]` for a non-negative magnitude |
| SpectralSums.OverlayTwice | src/SDT/SDTAnalysis.c:175-185 | the normalising second pass over the band overwrites what the first pass stored there |
| SpectralSums.FluxSum | src/SDT/SDTAnalysis.c:190 | the flux accumulator is non-negative |
| SpectralSums.OnsetSum | src/SDT/SDTAnalysis.c:191 | the onset accumulator, a sum of `fmax(0, ·)`, is non-negative |
| SpectralSums.ScaledBandSum | src/SDT/SDTAnalysis.c:185 | dividing every magnitude by `s` divides the band sum by `s` |
| SpectralSums.BandSumNonNegative | src/SDT/SDTAnalysis.c:178 | non-negative magnitudes give a non-negative `sum` |
| SpectralSums.CentroidWithinSum | src/SDT/SDTAnalysis.c:180 | the brightness accumulator lies between 0 and `sum` for non-negative magnitudes |
| SpectralSums.CentroidTermWithin | src/SDT/SDTAnalysis.c:180 | one bin adds between 0 and its magnitude to it |
| SpectralSums.EvenMomentNonNegative | src/SDT/SDTAnalysis.c:187 | the spread accumulator is non-negative |
| SpectralSums.AccumulatorsAssemble | src/SDT/SDTAnalysis.c:193-198 | accumulators holding the sums of a defined frame finalise into that frame's descriptors, and their divisors are non-zero |
| SpectralSums.DescriptorBounds | src/SDT/SDTAnalysis.c:182-198 | for non-negative magnitudes: magnitude > 0, brightness in `[0, 1]`, onset >= 0 |
| SpectralFeatures.CopyDoubled | src/SDT/SDTAnalysis.c:167-169 | the window is the `size` samples from index `i`, each doubled |
| SpectralFeatures.MinBin | src/SDT/SDTAnalysis.c:134-137 | `0 <= min <= size / 2` |
| SpectralFeatures.TopFrequency | src/SDT/SDTAnalysis.c:140 | a positive request is kept |
| SpectralFeatures.MaxBin | src/SDT/SDTAnalysis.c:139-143 | `1 <= max <= size / 2 + 1 == fftSize`, so every bin the loops touch exists |
| SpectralFeatures.NonPositiveMaxIsNyquist | src/SDT/SDTAnalysis.c:140-141 | a non-positive maximum frequency selects the same bin as asking for half the sample rate |
| SpectralFeatures.WhitenBand | src/SDT/SDTAnalysis.c:174-181 | the first pass: the band of `ampli`, `whitener` and `white` receives magnitudes, new whiteners and whitened magnitudes (the rest untouched); the three accumulators are the band sums |
| SpectralFeatures.Accumulate | src/SDT/SDTAnalysis.c:184-192 | the second pass: the band is normalised by `sum`, and the five accumulators are the moment, flux and onset sums of the normalised band |
| SpectralFeatures.UpdatedOutsideBand | src/SDT/SDTAnalysis.c:161-166 | the pairs swap; outside `[min, max)` the current buffers keep the previous frame's values and the whitener is unchanged |
| SpectralFeatures.UpdatedWhitener | src/SDT/SDTAnalysis.c:176 | inside the band `whitener'[k] >= max(SDT_MICRO, alpha * whitener[k], ampli[k])` |
| SpectralFeatures.UpdatedWhitening | src/SDT/SDTAnalysis.c:177 | inside the band `white[0][k] = ampli[k] / whitener'[k]` with a positive whitener, in `[0, 1]` for a non-negative magnitude |
| SpectralFeatures.UpdatedScaling | src/SDT/SDTAnalysis.c:185 | inside the band the current magnitude times `sum` is the raw magnitude |
| SpectralFeatures.UpdatedNormalised | src/SDT/SDTAnalysis.c:185 | the normalised magnitudes of the band sum to 1 |
| SpectralFeatures.Analyse | src/SDT/SDTAnalysis.c:161-198 | swap plus both passes: the buffers become `Updated` and the features are the frame's `Descriptors` |
| SpectralFeatures.SpectralFeats.constructor | src/SDT/SDTAnalysis.c:68-114 | zeroed input, window and per-bin buffers, whitener all 1, alpha 1, full band `[0, size / 2 + 1)`, hop equal to size |
| SpectralFeatures.SpectralFeats.SetOverlap | src/SDT/SDTAnalysis.c:129-132 | `skip` is the clamped hop and `alpha` its decay |
| SpectralFeatures.SpectralFeats.SetMinFreq | src/SDT/SDTAnalysis.c:134-137 | `min` from `MinBin`, `span == max - min` |
| SpectralFeatures.SpectralFeats.SetMaxFreq | src/SDT/SDTAnalysis.c:139-143 | `max` from `MaxBin`, `span == max - min` |
| SpectralFeatures.SpectralFeats.Store | src/SDT/SDTAnalysis.c:149-152 | mirrored write at `i`, index and counter advanced, buffer still the image of the history |
| SpectralFeatures.SpectralFeats.FillWindow | src/SDT/SDTAnalysis.c:167-169 | the window is the last `size` inputs in arrival order, doubled |
| SpectralFeatures.SpectralFeats.Frame | src/SDT/SDTAnalysis.c:154-206 | buffers swapped and updated from the window's magnitudes; the outputs are that frame's descriptors |
| SpectralFeatures.SpectralFeats.Dsp | src/SDT/SDTAnalysis.c:145-208 | store, index and counter as above; output iff the counter is 0, and then exactly the frame of the last `size` inputs; otherwise buffers and features unchanged |
| Nsdf.Seek | src/SDT/SDTAnalysis.c:248 | `seek` is `0.85 * size` truncated: at most `size` |
| Nsdf.Tolerance | src/SDT/SDTAnalysis.c:267-269 | `tol` lies in `[0, 1]` and is `f` when `f` does |
| Nsdf.ToleranceIdempotent | src/SDT/SDTAnalysis.c:267-269 | setting the tolerance twice to the same value is setting it once |
| Nsdf.Power | src/SDT/SDTAnalysis.c:285-291 | after the rewrite, `fft[size + 1 .. 2 * size)` are all 0 |
| Nsdf.PowerIsSquaredModulus | src/SDT/SDTAnalysis.c:285-291 | `fft[k]`, `k <= size`, is the squared modulus of half-complex bin `k`, hence `>= 0` |
| Nsdf.NormNonIncreasing | src/SDT/SDTAnalysis.c:297 | the normaliser never grows from lag to lag |
| Nsdf.NsdfNormalised | src/SDT/SDTAnalysis.c:293-296 | each NSDF value times its normaliser is `acf[k]`, and lag 0 is 1 |
| Nsdf.FirstNegative | src/SDT/SDTAnalysis.c:299-301 | the skip stops at the first lag `>= 1` with a negative value, or at `seek` |
| Nsdf.Curvature | src/SDT/SDTAnalysis.c:311 | `2b - a - c > 0` at a strict local maximum |
| Nsdf.Offset | src/SDT/SDTAnalysis.c:314 | the lag correction lies in `(-1/2, 1/2)` |
| Nsdf.PeakValue | src/SDT/SDTAnalysis.c:311 | `peakValue >= b` |
| Nsdf.PeakValueDoublesVertex | src/SDT/SDTAnalysis.c:311-314 | the parabola through the three samples peaks at the lag correction, and `peakValue - b` is twice its rise above `b` |
| Nsdf.VertexValue | src/SDT/SDTAnalysis.c:311 | the corrected clarity, the value at the vertex of the interpolating parabola: at least `b` |
| Nsdf.VertexValueIsParabolaMaximum | src/SDT/SDTAnalysis.c:311-314 | the vertex value is the parabola's maximum, reached at the lag correction of :314, and the code's peak value lies as far above it as it lies above `b` |
| Nsdf.ClarityAboveOne | src/SDT/SDTAnalysis.c:311 | NSDF values 0.7022, 0.9833, 0.9117 give a peak value above 1 and a vertex value below 1; for 0.5, 0.99, 0.9 even the vertex value exceeds 1 |
| Nsdf.RebiasWithoutTolerance | src/SDT/SDTAnalysis.c:310 | with `tol = 0` the bias is 1 |
| Nsdf.RebiasInUnit | src/SDT/SDTAnalysis.c:310 | over the examined lags the bias is in `[0, 1]` and does not increase with the lag |
| Nsdf.Best | src/SDT/SDTAnalysis.c:305-319 | the kept lag, when there is one, is a strict local maximum inside the searched range |
| Nsdf.BestMeaning | src/SDT/SDTAnalysis.c:305-319 | the kept peak is the earliest one maximising the biased value and that value is positive; no peak is kept iff no biased value exceeds 0 |
| Nsdf.EstimateMeaning | src/SDT/SDTAnalysis.c:302-319 | no peak kept iff no biased value exceeds 0, and then pitch = clarity = 0; otherwise clarity is the kept peak value, positive and at least its NSDF value, and for a positive sample rate the pitch is positive with `sampleRate / pitch` within half a lag of the kept lag |
| Nsdf.KeptClarity | src/SDT/SDTAnalysis.c:312-315 | a peak with a positive biased value has a positive peak value |
| Nsdf.KeptPitch | src/SDT/SDTAnalysis.c:314 | the reported pitch is positive, and `sampleRate / pitch` is the interpolated lag |
| PitchTracker.Window | src/SDT/SDTAnalysis.c:280-283 | `win[0]` is 1, slots 1 to `size - 1` are the window, the upper half is zero |
| PitchTracker.Execute | src/SDT/SDTAnalysis.c:284 | the destination receives the plan's transform of the source |
| PitchTracker.CopyWindow | src/SDT/SDTAnalysis.c:280-283 | the lower half becomes `1` followed by samples `curr + 1 .. curr + size - 1`; the upper half is untouched |
| PitchTracker.RewriteBin | src/SDT/SDTAnalysis.c:287-289 | one bin of the rewrite loop extends the rewritten prefix by one bin |
| PitchTracker.PowerSpectrum | src/SDT/SDTAnalysis.c:285-291 | the in-place rewrite leaves exactly `Power` of the transform |
| PitchTracker.Normalise | src/SDT/SDTAnalysis.c:293-298 | `nsdf[..seek]` are the NSDF values of the first `seek` lags; the rest is untouched |
| PitchTracker.SkipPositive | src/SDT/SDTAnalysis.c:299-301 | the scan returns `FirstNegative` from lag 1 |
| PitchTracker.PickPeak | src/SDT/SDTAnalysis.c:302-319 | the peak loop returns the estimate of the kept peak, or 0 and 0 |
| PitchTracker.Pitch.constructor | src/SDT/SDTAnalysis.c:218-250 | zeroed buffers, tolerance 0.2, pitch and clarity 0, hop equal to size, `seek = Seek(size)` |
| PitchTracker.Pitch.SetOverlap | src/SDT/SDTAnalysis.c:263-265 | `skip` becomes the clamped hop |
| PitchTracker.Pitch.SetTolerance | src/SDT/SDTAnalysis.c:267-269 | `tol` becomes the clipped tolerance |
| PitchTracker.Pitch.Store | src/SDT/SDTAnalysis.c:275-278 | mirrored write at `curr`, index and counter advanced, other buffers unchanged |
| PitchTracker.Pitch.FillWindow | src/SDT/SDTAnalysis.c:280-283 | the transform input is `Window` of the last `size` inputs |
| PitchTracker.Pitch.Correlate | src/SDT/SDTAnalysis.c:284-292 | `fft` holds the power spectrum of the forward transform, `acf` its inverse transform |
| PitchTracker.Pitch.Analyse | src/SDT/SDTAnalysis.c:293-322 | `nsdf` holds the NSDF of the examined lags; pitch and clarity are the estimate of the peak search from the first negative lag; `nsdf` from `seek` on is untouched |
| PitchTracker.Pitch.Frame | src/SDT/SDTAnalysis.c:279-322 | nothing unless the counter is 0; otherwise the whole frame pipeline of the last `size` inputs, leaving `nsdf` from `seek` on untouched |
| PitchTracker.Pitch.Dsp | src/SDT/SDTAnalysis.c:271-323 | store, index and counter as above; output iff the counter is 0, and then the frame's estimate with `nsdf` from `seek` on untouched; otherwise pitch, clarity and buffers unchanged |

## Left out

- FFTW: plans, `fftw_execute` and `fftw_malloc` are foreign calls. The transforms are function parameters (`r2hc`, `hc2r`, `magnitudes`), and lengths are their only assumed property. `SDT_hanning` is folded into `magnitudes`.
- FFTW side effects on buffers: plans are created with `FFTW_MEASURE`, which may overwrite the buffers during planning, and a half-complex-to-real transform may destroy its input. The model assumes planning leaves the zeroed buffers as they are and that the inverse transform reads `fft` without changing it.
- `sqrt`, `log`, `exp` and `pow(10, ·)` are uninterpreted function parameters. Nothing is claimed about how well spread, skewness, kurtosis, flatness or flux approximate their ideal values.
- `SDT_sampleRate`, `SDT_timeStep` and `SDT_MICRO` are parameters, since `SDTCommon.h` is not part of this model. `SDT_MICRO` is assumed positive.
- The conversion of the double argument of `SDT_clip` is not visible. It is a parameter `toInt`, and the clamp is applied after it.
- Floating point is modelled by exact reals: no rounding, no NaN or infinity.
- Unguarded divisions (by a zero band sum, spread or NSDF normaliser) are excluded by preconditions that hold only on calls that emit a frame. The IEEE results those divisions would give are not modelled.
- Nsdf.Seek: takes 0.85 as the exact decimal. The double nearest 0.85 is slightly below it, so for a `size` where `0.85 * size` is a whole number the source may get one less after truncation.
- Nsdf.Rebias: takes the lag and `seek` already converted to reals, as C converts them before the division.
- SpectralFeatures.SpectralFeats.constructor: the source's per-bin zeroing loop runs to `fftSize` inclusive, one past the end of every per-bin buffer. The model allocates `fftSize` elements and initialises exactly those.
- SpectralFeatures.SpectralFeats.constructor: the source leaves `magnitude` uninitialised. The model puts a value there and states nothing about it.
- SpectralFeatures.SpectralFeats.constructor: the `fft` buffer of complex bins is not a field of the model, because the transform is a function parameter.
- Per-bin buffers: the five per-bin buffers of SpectralFeats are one `Bins` value held in a field. The pointer swap of `ampli[0]/ampli[1]` and `white[0]/white[1]` is therefore a swap of sequences, and the aliasing between the swapped buffers is not modelled.
- SpectralFeatures.SpectralFeats.Frame: the seven feature fields the source zeroes before recomputing them are not modelled as separate writes. Only their final values are stated.
- SpectralSums.FrameDefined: nothing is said about a non-positive band sum (for instance silence). The source divides by it.
- SpectralFeatures.SpectralFeats.Frame: the source tapers `win` in place with `SDT_hanning` before the transform. The model folds the taper into `magnitudes`, so its `win` keeps the untapered doubled window after a frame. The same holds for `SpectralFeatures.SpectralFeats.Dsp`.
- All three constructors require `size >= 1`. The source's `_new` functions accept any `unsigned int`, but with size 0 every `dsp` call divides by zero in `% size` (`src/SDT/SDTAnalysis.c:45, 151, 277`).
- The `_free` functions and `malloc`/`free`: memory management only.
- Concurrency between setters and the audio thread is not modelled.
- The counter update `(j + 1) % skip` is modelled by `Stream.Wrap`, proved equal to `%` by `Stream.WrapIsMod`.

## Findings

| source | as written | input that shows it | evidently intended | confidence | as-written member | corrected member |
|---|---|---|---|---|---|---|
| src/SDT/SDTAnalysis.c:311 | The peak value adds `(c - a)^2 / (4(2b - a - c))` to `b`: twice the rise of the vertex of the parabola through the three NSDF values. It is reported as clarity, which the header gives the range `[0.0, 1.0]`. | NSDF values 0.7022, 0.9833, 0.9117 at lags 9, 10 and 11, as from a sinusoid with a period of 10.3 samples: the reported clarity is about 1.014 | the vertex value `b + (c - a)^2 / (8(2b - a - c))`, about 0.999 here; the lag correction at :314 already uses that vertex | medium (not executed) | Nsdf.ClarityAboveOne | Nsdf.VertexValueIsParabolaMaximum |
| src/SDT/SDTAnalysis.c:43 | `SDTZeroCrossing_dsp` writes the new sample to `in[i + 1]` in the lower half and to `in[size + i]` in the upper half. Slot 0 is never written, and the two halves disagree. | a fresh detector of size 3 with the default hop, fed 1.0, 1.0, 1.0: it reads the window `[0, 1, 1]` and reports one crossing (rate 1/3) for a constant positive signal | `in[i] = in` as in SDTSpectralFeats_dsp and SDTPitch_dsp, which reads `[1, 1, 1]` and reports 0 | high (not executed) | ZeroCrossingRate.ConstantSignalReadsACrossing | Stream.StoreSample |

The zero crossing detector itself (`ZeroCrossingRate.ZeroCrossing.Dsp`) is
kept as written, through `ZcWrite`. The corrected write is `Stream.RingWrite`.
Two results are proved about it:

- it keeps the buffer mirrored (`Stream.RingWrite`);
- it keeps the buffer equal to the last `size` inputs (`Stream.StoreSample`).

It is the write that the spectral features extractor and the pitch tracker
use.

The pitch tracker likewise keeps the peak value as written. The corrected
value is `Nsdf.VertexValue`, proved to be the maximum of the interpolating
parabola. Not even the vertex value is bounded by 1 for arbitrary samples in
`[-1, 1]` (`Nsdf.ClarityAboveOne` also shows 0.5, 0.99, 0.9), so the model
claims no clarity bound for either value.
