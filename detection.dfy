/**
 * `detectSpeechTimestamps` (index.js:43-82) end to end: window the buffer,
 * estimate one probability per window, and turn the probabilities into
 * speech intervals. Its defaults are a threshold of 0.1 and 256-sample
 * windows.
 */
module SpeechDetection {
  import opened Windowing
  import opened Hysteresis

  /** The probabilities describe exactly the buffer: ceil(len / w) windows of `w` samples. */
  lemma ProbabilitiesCoverBuffer(samples: seq<real>, prob: Estimator, w: nat)
    requires w > 0
    ensures |SpeechProbs(samples, prob, w)| == WindowCount(|samples|, w)
    ensures Covers(|SpeechProbs(samples, prob, w)|, w, |samples|)
  {
    WindowsShape(samples, w);
  }

  /**
   * The whole of `detectSpeechTimestamps`: the intervals are those of the
   * hysteresis state machine over the per-window probabilities; each is the
   * span of a maximal run of windows whose probability exceeds the threshold,
   * they are well formed, lie within the buffer, are sorted and apart, and
   * there are none exactly when no window's probability exceeds the threshold.
   */
  method DetectSpeechTimestamps(samples: seq<real>, prob: Estimator,
                                threshold: real := 0.1, windowSize: nat := 256)
    returns (speeches: seq<Interval>)
    requires windowSize > 0
    ensures speeches == Intervals(SpeechProbs(samples, prob, windowSize), windowSize, threshold, |samples|)
    ensures speeches == Spans(RunsFrom(SpeechProbs(samples, prob, windowSize), threshold, 0),
                              windowSize, |samples|, WindowCount(|samples|, windowSize))
    ensures WellFormed(speeches, windowSize, |samples|)
    ensures InnerEndsOnBoundary(speeches, windowSize, |samples|)
    ensures EndsOnBoundaryOrLength(speeches, windowSize, |samples|)
    ensures SortedApart(speeches)
    ensures speeches == [] <==>
            forall k :: 0 <= k < |Windows(samples, windowSize)| ==> prob(Windows(samples, windowSize)[k]) <= threshold
  {
    var probs := SpeechProbabilities(samples, prob, windowSize);
    speeches := ExtractSpeeches(probs, windowSize, threshold, |samples|);
    ProbabilitiesCoverBuffer(samples, prob, windowSize);
    IntervalsWellFormed(probs, windowSize, threshold, |samples|);
    NoSpeechIffNothingAbove(probs, windowSize, threshold, |samples|);
    ghost var ws := Windows(samples, windowSize);
    forall k | 0 <= k < |ws| ensures probs[k] == prob(ws[k]) {}
    if exists i :: 0 <= i < |probs| && probs[i] > threshold {
      var i :| 0 <= i < |probs| && probs[i] > threshold;
      assert prob(ws[i]) > threshold;
    }
  }

  /** An empty buffer yields no windows and no speech. */
  lemma EmptyBufferHasNoSpeech(prob: Estimator, threshold: real, w: nat)
    requires w > 0
    ensures Windows([], w) == []
    ensures Intervals(SpeechProbs([], prob, w), w, threshold, 0) == []
  {
  }
}
