# Voice-activity detection: windowing and speech-interval extraction

This project models `detectSpeechTimestamps` from a browser voice-activity-detection
demo (`index.js`). The function takes a buffer of collected microphone samples and
does two things:

1. **Windowing.** It cuts the buffer into consecutive windows of `windowSizeSamples`
   samples (256 by default), starting at offsets `0, W, 2W, …`. A short final window
   is zero-padded on the right to `W` samples. It asks the speech model for one
   probability per window and keeps the probabilities in stream order.
2. **Hysteresis.** A two-state machine (silence / speech) walks the probabilities.
   It enters speech when a probability is strictly above the threshold (0.1 by
   default) and records `start = i*W`. It leaves speech when a probability is at or
   below the threshold and emits `{start, end: i*W}`. An interval that is still open
   at the end closes at the true, unpadded buffer length.

The model has three modules, one per step plus the composition:

- `Windowing` (`windowing.dfy`) holds the window loop as the method `SpeechProbabilities`.
  It is proved against `Windows`, a reference definition that peels one window at a
  time off the front of the buffer.
- `Hysteresis` (`hysteresis.dfy`) holds the interval loop as the method `ExtractSpeeches`.
  It is proved against `Intervals`, the state machine written as a function. `Intervals`
  is in turn proved equal to an independent definition: the maximal runs of
  above-threshold windows (`RunsFrom`, built from `NextAbove` and `NextBelow`).
- `SpeechDetection` (`detection.dfy`) composes the two.

Samples and probabilities are `real`. The speech model (`processAudioData`) is a
parameter `prob: seq<real> -> real`: a deterministic function from one window to
one probability. This matches the source, which zero-fills the recurrent `h`/`c`
tensors on every call, so no state passes from one window to the next.

## Model

| member | source | states |
|---|---|---|
| `Windowing.WindowCount` | index.js:45 | the number of loop iterations for a buffer of `L` samples is the unique `n` with `L <= n*W < L + W` (ceil(L/W)); it is 0 exactly for an empty buffer |
| `Windowing.Pad` | index.js:48-52 | a short chunk becomes a window of exactly `W` samples: the chunk first, then zeros |
| `Windowing.WindowsShape` | index.js:45-52 | there are exactly ceil(L/W) windows, and every window has exactly `W` samples |
| `Windowing.WindowsAt` | index.js:45-52 | window `k` holds the samples `[k*W, min(k*W+W, L))`, zero-padded, so it starts at sample offset `k*W` |
| `Windowing.FlattenWindows` | index.js:46-52 | the windows laid end to end are the buffer followed only by zeros: padding is never interleaved or prepended |
| `Windowing.UnpaddedWindows` | index.js:46-52 | concatenating the unpadded part of each window gives back the input buffer |
| `Windowing.SpeechProbabilities` | index.js:44-56 | the loop collects exactly ceil(L/W) probabilities, and entry `k` is the estimate of window `k` of the reference windowing |
| `Windowing.WindowChunkAsWritten` | index.js:46-52 | as written, the loop body throws exactly when the chunk at offset `i` is shorter than `W`; when it does not throw, the chunk has `W` samples |
| `Windowing.AsWrittenThrowsOnShortTail` | index.js:45-52 | as written, only the last window can throw, and it throws exactly when `W` does not divide `L` |
| `Windowing.AsWrittenAgreesOnFullWindows` | index.js:46-52 | where the code as written does not throw, it passes the same window as the padded version |
| `Windowing.LastWindowFull` | index.js:45-46 | the last window starts inside the buffer, and it is full exactly when `W` divides `L` |
| `Windowing.AsWrittenThrowsOn300Samples` | index.js:46-51 | for every 300-sample buffer with 256-sample windows, the code as written throws at offset 256; the padded version gives 2 windows, and the second is the buffer's last 44 samples followed by 212 zeros |
| `Hysteresis.NextAbove` | index.js:63 | the first window at or after `i` whose probability is strictly above the threshold; every window before it is at or below |
| `Hysteresis.NextBelow` | index.js:66 | the first window at or after `i` whose probability is at or below the threshold; every window before it is above |
| `Hysteresis.SilenceScan` | index.js:62-65 | from silence at window `i`, the state machine emits exactly the maximal runs that begin at or after `i` |
| `Hysteresis.SpeechScan` | index.js:66-72 | in speech since window `a`, the machine closes that run at the next window at or below the threshold, or at `L` if there is none, and then continues as from silence |
| `Hysteresis.IntervalsAreRuns` | index.js:59-73 | the state machine's output equals the spans of the maximal above-threshold runs, in order |
| `Hysteresis.RunsFromExact` | index.js:62-73 | a run is listed if and only if it is maximal (all windows above the threshold, neither neighbour above) |
| `Hysteresis.RunsFromOrdered` | index.js:62-73 | runs are non-empty and within the windows; each starts on an above-threshold window; every run but the last ends before the last window; consecutive runs have a gap between them |
| `Hysteresis.RunsFromCover` | index.js:63-66 | a window's probability is above the threshold if and only if some run contains that window |
| `Hysteresis.IntervalsMatchMaximalRuns` | index.js:59-73 | every emitted interval is the span of a maximal run, and every maximal run is emitted |
| `Hysteresis.SpanBounds` | index.js:65-72 | a run's interval has `start < end <= L` and a start that is a multiple of `W`; if the run stops before the last window, its end is a multiple of `W` below `L` |
| `Hysteresis.SpanContains` | index.js:65-68 | a window's start offset lies inside a run's interval exactly when the run contains that window |
| `Hysteresis.IntervalsWellFormed` | index.js:62-73 | every interval lies in `[0, L]`, has `start < end` and starts at a multiple of `W`; every end except the last is a multiple of `W` below `L`; every end, the last included, is either `L` or a multiple of `W` below `L`; intervals are sorted and pairwise disjoint, with a gap between them |
| `Hysteresis.TrailingIntervalEndsAtLength` | index.js:71-72 | the last interval ends at the true length `L` (not the padded length) exactly when the last window's probability is above the threshold |
| `Hysteresis.IntervalsCoverSpeech` | index.js:63-66 | window `i` falls inside an emitted interval exactly when its probability is strictly above the threshold, so a probability equal to the threshold counts as silence |
| `Hysteresis.NoSpeechIffNothingAbove` | index.js:62-73 | the result is empty exactly when no probability exceeds the threshold |
| `Hysteresis.BoundaryCases` | index.js:62-73 | `[0.05, 0.2, 0.05]` gives `[{256, 512}]`; `[0.1, 0.1]` at threshold 0.1 gives nothing (over exact reals; see "Left out" on Float32); `[0.9, 0.9]` over 500 samples gives `[{0, 500}]` |
| `Hysteresis.ExtractSpeeches` | index.js:59-73 | the loop, together with the final close of an open interval, emits exactly the state machine's intervals, which are the spans of the maximal runs |
| `SpeechDetection.ProbabilitiesCoverBuffer` | index.js:44-56 | the collected probabilities number ceil(L/W), which is what the interval lemmas need |
| `SpeechDetection.DetectSpeechTimestamps` | index.js:43-82 | the whole function with its defaults (threshold 0.1, 256-sample windows): the intervals are the maximal-run spans over the per-window estimates; they are well formed, within `[0, L]` and sorted and disjoint; each ends at `L` or on a window boundary; they are empty exactly when no window's estimate exceeds the threshold |
| `SpeechDetection.EmptyBufferHasNoSpeech` | index.js:44-73 | an empty buffer gives no windows and no intervals |

## Findings

| source | as written | input that shows it | evidently intended | confidence | as-written member | corrected member |
|---|---|---|---|---|---|---|
| index.js:46-51 | `chunk` is declared `const` and is then assigned the padded buffer, so JavaScript throws a `TypeError` whenever the last chunk is short | a 300-sample buffer with `windowSizeSamples = 256`: the chunk at offset 256 has 44 samples | zero-pad the short chunk to 256 samples and estimate it, as the comment on index.js:47 says | not executed; the in-file caller `startAudioProcessing` appends 4096-sample blocks, and 4096 is a multiple of 256, so that caller never reaches the branch | `Windowing.AsWrittenThrowsOn300Samples` | `Windowing.SpeechProbabilities` |

The rest of the model uses the padded behaviour. `Windowing.WindowChunkAsWritten` and
`Windowing.AsWrittenThrowsOnShortTail` describe the code as written in general.

## Left out

- `loadModel` and the internals of `processAudioData` (index.js:4-40): creating the ONNX session, building tensors and running inference are calls into an external library. They are replaced by the estimator parameter `prob`, which also takes the place of reading `outputs.output.data[0]`.
- Estimator failures: if the model call rejects, the exception passes through `detectSpeechTimestamps` and no intervals are returned. `prob` is total, so this path is not modelled.
- `startAudioProcessing` (index.js:86-114): microphone capture, the `AudioContext`/`ScriptProcessor` callback and the growing `audioDataBuffer`. This is I/O and event plumbing.
- The button wiring (index.js:117-119) and the `console.log` messages (index.js:75-79) are UI and logging side effects.
- `webpack.config.js` is bundler configuration and holds no program logic.
- Float32 and `BigInt64Array` details (index.js:14, 22, 49): samples and probabilities are exact `real`s, so float rounding is not modelled. One consequence: the estimator's output is a Float32 value, and the Float32 value nearest 0.1 is slightly above the double 0.1. So the equality case in `Hysteresis.BoundaryCases` (a probability of exactly 0.1 at the default threshold counts as silence) is a statement about exact reals. The real estimator cannot produce that input. A NaN probability is also left out: at index.js:63 and 66 both `>` and `<=` are false for NaN, so the machine keeps its state and a NaN window extends a run that is already open, which the maximal-run lemmas do not describe.
- `async`/`await`: each estimator call is an ordinary call, made in loop order.
- A window size of 0 or less: the source never checks it, and its `i += windowSizeSamples` loop never ends on a non-empty buffer. The model requires a window size above 0 instead.
- The threshold is not range-checked in the source, and the model accepts any real threshold.
- No state passes between estimator calls (index.js:25-26): the `h` and `c` tensors are zero-filled on every call, which is why `prob` is a plain function of one window.
