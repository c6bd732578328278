/**
 * Turning per-window speech probabilities into speech intervals: the second
 * loop of `detectSpeechTimestamps` (index.js:59-73), a two-state machine
 * (silence / speech) driven by a strict `> threshold` test.
 *
 * Window `i` covers sample offsets `[i*w, (i+1)*w)`; `len` is the true,
 * unpadded number of samples in the buffer.
 */
module Hysteresis {

  /** One emitted `{start, end}` record, in sample offsets. */
  datatype Interval = Interval(start: nat, end: nat)

  /** A probability counts as speech only when it is strictly above the threshold. */
  predicate Above(probs: seq<real>, threshold: real, i: int)
  {
    0 <= i < |probs| && probs[i] > threshold
  }

  /**
   * The state machine run from window `i` on, in state `inSpeech` with the
   * recorded `start`, having emitted `acc` so far; at the end an interval that
   * is still open is closed at `len`.
   */
  ghost function ScanFrom(probs: seq<real>, w: nat, threshold: real, len: nat,
                          i: nat, inSpeech: bool, start: nat, acc: seq<Interval>): seq<Interval>
    requires i <= |probs|
    decreases |probs| - i
  {
    if i == |probs| then
      if inSpeech then acc + [Interval(start, len)] else acc
    else if probs[i] > threshold && !inSpeech then
      ScanFrom(probs, w, threshold, len, i + 1, true, i * w, acc)
    else if probs[i] <= threshold && inSpeech then
      ScanFrom(probs, w, threshold, len, i + 1, false, start, acc + [Interval(start, i * w)])
    else
      ScanFrom(probs, w, threshold, len, i + 1, inSpeech, start, acc)
  }

  /** The intervals the state machine emits, starting in silence at window 0. */
  ghost function Intervals(probs: seq<real>, w: nat, threshold: real, len: nat): seq<Interval>
  {
    ScanFrom(probs, w, threshold, len, 0, false, 0, [])
  }

  // ---------------------------------------------------------------------------
  // Reference definition: maximal runs of above-threshold windows.

  /** Windows `lo .. hi-1`. */
  datatype WindowRun = WindowRun(lo: nat, hi: nat)

  /** A run of above-threshold windows that cannot be extended on either side. */
  ghost predicate IsMaximalRun(probs: seq<real>, threshold: real, r: WindowRun)
  {
    && r.lo < r.hi <= |probs|
    && (forall j :: r.lo <= j < r.hi ==> Above(probs, threshold, j))
    && (r.lo == 0 || !Above(probs, threshold, r.lo - 1))
    && (r.hi == |probs| || !Above(probs, threshold, r.hi))
  }

  /** The first window at or after `i` whose probability is above the threshold (or `|probs|`). */
  function NextAbove(probs: seq<real>, threshold: real, i: nat): (j: nat)
    requires i <= |probs|
    ensures i <= j <= |probs|
    ensures forall k :: i <= k < j ==> !Above(probs, threshold, k)
    ensures j < |probs| ==> Above(probs, threshold, j)
    decreases |probs| - i
  {
    if i == |probs| || Above(probs, threshold, i) then i else NextAbove(probs, threshold, i + 1)
  }

  /** The first window at or after `i` whose probability is not above the threshold (or `|probs|`). */
  function NextBelow(probs: seq<real>, threshold: real, i: nat): (j: nat)
    requires i <= |probs|
    ensures i <= j <= |probs|
    ensures forall k :: i <= k < j ==> Above(probs, threshold, k)
    ensures j < |probs| ==> !Above(probs, threshold, j)
    decreases |probs| - i
  {
    if i == |probs| || !Above(probs, threshold, i) then i else NextBelow(probs, threshold, i + 1)
  }

  /** The maximal runs that begin at or after window `i`, left to right. */
  ghost function RunsFrom(probs: seq<real>, threshold: real, i: nat): seq<WindowRun>
    requires i <= |probs|
    decreases |probs| - i
  {
    var a := NextAbove(probs, threshold, i);
    if a == |probs| then []
    else
      var b := NextBelow(probs, threshold, a);
      [WindowRun(a, b)] + RunsFrom(probs, threshold, b)
  }

  /** The interval a run is reported as: a run reaching the last window ends at `len`. */
  function Span(r: WindowRun, w: nat, len: nat, count: nat): Interval
  {
    Interval(r.lo * w, if r.hi == count then len else r.hi * w)
  }

  ghost function Spans(runs: seq<WindowRun>, w: nat, len: nat, count: nat): (rs: seq<Interval>)
    ensures |rs| == |runs|
    ensures forall k :: 0 <= k < |runs| ==> rs[k] == Span(runs[k], w, len, count)
  {
    seq(|runs|, k requires 0 <= k < |runs| => Span(runs[k], w, len, count))
  }

  lemma SpansCons(r: WindowRun, runs: seq<WindowRun>, w: nat, len: nat, count: nat)
    ensures Spans([r] + runs, w, len, count) == [Span(r, w, len, count)] + Spans(runs, w, len, count)
  {
  }

  // ---------------------------------------------------------------------------
  // The state machine emits exactly the maximal runs.

  /** From silence at window `i`, the machine emits the runs that begin at or after `i`. */
  lemma {:induction false} SilenceScan(probs: seq<real>, w: nat, threshold: real, len: nat,
                                       i: nat, start: nat, acc: seq<Interval>)
    requires i <= |probs|
    ensures ScanFrom(probs, w, threshold, len, i, false, start, acc)
            == acc + Spans(RunsFrom(probs, threshold, i), w, len, |probs|)
    decreases |probs| - i, 0
  {
    var n := |probs|;
    if i == n {
      assert acc + [] == acc;
    } else if !Above(probs, threshold, i) {
      SilenceScan(probs, w, threshold, len, i + 1, start, acc);
      assert RunsFrom(probs, threshold, i) == RunsFrom(probs, threshold, i + 1);
    } else {
      SpeechScan(probs, w, threshold, len, i, i + 1, acc);
      var b := NextBelow(probs, threshold, i + 1);
      assert NextBelow(probs, threshold, i) == b;
      assert RunsFrom(probs, threshold, i) == [WindowRun(i, b)] + RunsFrom(probs, threshold, b);
      SpansCons(WindowRun(i, b), RunsFrom(probs, threshold, b), w, len, n);
    }
  }

  /**
   * In speech since window `a` (all of `a .. i-1` above the threshold), the
   * machine closes the run at the next window that is not above it, then
   * goes on as from silence.
   */
  lemma {:induction false} SpeechScan(probs: seq<real>, w: nat, threshold: real, len: nat,
                                      a: nat, i: nat, acc: seq<Interval>)
    requires a < i <= |probs|
    requires forall j :: a <= j < i ==> Above(probs, threshold, j)
    ensures var b := NextBelow(probs, threshold, i);
      ScanFrom(probs, w, threshold, len, i, true, a * w, acc)
      == acc + [Span(WindowRun(a, b), w, len, |probs|)] + Spans(RunsFrom(probs, threshold, b), w, len, |probs|)
    decreases |probs| - i, 1
  {
    var n := |probs|;
    if i == n {
      assert RunsFrom(probs, threshold, n) == [];
    } else if Above(probs, threshold, i) {
      SpeechScan(probs, w, threshold, len, a, i + 1, acc);
    } else {
      var closed := acc + [Interval(a * w, i * w)];
      SilenceScan(probs, w, threshold, len, i + 1, a * w, closed);
      assert RunsFrom(probs, threshold, i) == RunsFrom(probs, threshold, i + 1);
    }
  }

  /** The intervals are exactly the maximal runs, each reported by `Span`, in order. */
  lemma IntervalsAreRuns(probs: seq<real>, w: nat, threshold: real, len: nat)
    ensures Intervals(probs, w, threshold, len)
            == Spans(RunsFrom(probs, threshold, 0), w, len, |probs|)
  {
    SilenceScan(probs, w, threshold, len, 0, 0, []);
    assert [] + Spans(RunsFrom(probs, threshold, 0), w, len, |probs|)
        == Spans(RunsFrom(probs, threshold, 0), w, len, |probs|);
  }

  // ---------------------------------------------------------------------------
  // Properties of the runs.

  /**
   * A run appears in `RunsFrom(i)` exactly when it is maximal and begins at
   * or after `i` (provided `i` is not inside a run).
   */
  lemma {:induction false} RunsFromExact(probs: seq<real>, threshold: real, i: nat, r: WindowRun)
    requires i <= |probs|
    requires 0 < i < |probs| ==> !Above(probs, threshold, i)
    ensures r in RunsFrom(probs, threshold, i) <==> IsMaximalRun(probs, threshold, r) && i <= r.lo
    decreases |probs| - i
  {
    var n := |probs|;
    var a := NextAbove(probs, threshold, i);
    if a == n {
      assert IsMaximalRun(probs, threshold, r) && i <= r.lo ==> Above(probs, threshold, r.lo);
    } else {
      var b := NextBelow(probs, threshold, a);
      var first := WindowRun(a, b);
      assert RunsFrom(probs, threshold, i) == [first] + RunsFrom(probs, threshold, b);
      RunsFromExact(probs, threshold, b, r);
      assert a > 0 ==> !Above(probs, threshold, a - 1);
      // a maximal run beginning at or after `i` begins at `a` or at `b` or later ...
      assert IsMaximalRun(probs, threshold, r) && i <= r.lo ==>
               Above(probs, threshold, r.lo) && a <= r.lo;
      assert IsMaximalRun(probs, threshold, r) && a < r.lo < b ==> Above(probs, threshold, r.lo - 1);
      // ... and one beginning at `a` ends at `b`
      assert IsMaximalRun(probs, threshold, r) && r.lo == a && r.hi < b ==> Above(probs, threshold, r.hi);
      assert IsMaximalRun(probs, threshold, r) && r.lo == a && b < r.hi ==> Above(probs, threshold, b);
    }
  }

  ghost predicate RunsOrdered(probs: seq<real>, threshold: real, i: nat, runs: seq<WindowRun>)
  {
    && (forall k :: 0 <= k < |runs| ==>
          i <= runs[k].lo < runs[k].hi <= |probs| && Above(probs, threshold, runs[k].lo))
    && (forall k :: 0 <= k < |runs| - 1 ==> runs[k].hi < |probs|)
    && (forall j, k :: 0 <= j < k < |runs| ==> runs[j].hi < runs[k].lo)
  }

  /** Runs are non-empty, inside `[i, |probs|]`, and strictly ordered with a gap between consecutive ones. */
  lemma {:induction false} RunsFromOrdered(probs: seq<real>, threshold: real, i: nat)
    requires i <= |probs|
    ensures RunsOrdered(probs, threshold, i, RunsFrom(probs, threshold, i))
    decreases |probs| - i
  {
    var a := NextAbove(probs, threshold, i);
    if a < |probs| {
      var b := NextBelow(probs, threshold, a);
      RunsFromOrdered(probs, threshold, b);
      var rest := RunsFrom(probs, threshold, b);
      assert rest != [] ==> b < |probs| && !Above(probs, threshold, b);
      var runs := RunsFrom(probs, threshold, i);
      assert runs == [WindowRun(a, b)] + rest;
      forall k | 0 < k < |runs|
        ensures b <= runs[k].lo < runs[k].hi <= |probs| && Above(probs, threshold, runs[k].lo)
      {
        assert runs[k] == rest[k - 1];
      }
      forall j, k | 0 <= j < k < |runs| ensures runs[j].hi < runs[k].lo {
        if j > 0 { assert runs[j] == rest[j - 1] && runs[k] == rest[k - 1]; }
        else { assert runs[k] == rest[k - 1]; }
      }
    }
  }

  /** Window `j` is above the threshold exactly when some run contains it. */
  lemma {:induction false} RunsFromCover(probs: seq<real>, threshold: real, i: nat, j: nat)
    requires i <= j < |probs|
    requires 0 < i < |probs| ==> !Above(probs, threshold, i)
    ensures Above(probs, threshold, j) <==>
            exists k :: 0 <= k < |RunsFrom(probs, threshold, i)| &&
                        RunsFrom(probs, threshold, i)[k].lo <= j < RunsFrom(probs, threshold, i)[k].hi
    decreases |probs| - i
  {
    var runs := RunsFrom(probs, threshold, i);
    var a := NextAbove(probs, threshold, i);
    if a < |probs| {
      var b := NextBelow(probs, threshold, a);
      var rest := RunsFrom(probs, threshold, b);
      assert runs == [WindowRun(a, b)] + rest;
      if j < a {
        assert !Above(probs, threshold, j);
        RunsFromOrdered(probs, threshold, i);
      } else if j < b {
        assert runs[0].lo <= j < runs[0].hi;
      } else {
        RunsFromCover(probs, threshold, b, j);
        RunsFromOrdered(probs, threshold, i);
        forall k | 0 < k < |runs| ensures runs[k].lo <= j < runs[k].hi ==> Above(probs, threshold, j) {
          assert runs[k] == rest[k - 1];
        }
        if Above(probs, threshold, j) {
          var k :| 0 <= k < |rest| && rest[k].lo <= j < rest[k].hi;
          assert runs[k + 1] == rest[k];
        }
      }
    } else {
      assert runs == [];
      assert !Above(probs, threshold, j);
    }
  }

  // ---------------------------------------------------------------------------
  // What the emitted intervals promise.

  /** Each emitted interval is exactly the span of one maximal above-threshold run, and every maximal run is emitted. */
  lemma IntervalsMatchMaximalRuns(probs: seq<real>, w: nat, threshold: real, len: nat)
    ensures var runs := RunsFrom(probs, threshold, 0);
      && Intervals(probs, w, threshold, len) == Spans(runs, w, len, |probs|)
      && forall r :: r in runs <==> IsMaximalRun(probs, threshold, r)
  {
    IntervalsAreRuns(probs, w, threshold, len);
    forall r ensures r in RunsFrom(probs, threshold, 0) <==> IsMaximalRun(probs, threshold, r) {
      RunsFromExact(probs, threshold, 0, r);
    }
  }

  /**
   * `w` is positive and there are ceil(len / w) windows. This is the same relation
   * as the ensures of `Windowing.WindowCount`, restated here so that this module
   * stands on its own.
   */
  ghost predicate Covers(count: nat, w: nat, len: nat)
  {
    w > 0 && len <= count * w < len + w
  }

  /** Every interval is non-empty, inside `[0, len]`, and starts on a window boundary. */
  ghost predicate WellFormed(rs: seq<Interval>, w: nat, len: nat)
    requires w > 0
  {
    forall k :: 0 <= k < |rs| ==> rs[k].start < rs[k].end <= len && rs[k].start % w == 0
  }

  /** Every interval but the last ends on a window boundary strictly before `len`. */
  ghost predicate InnerEndsOnBoundary(rs: seq<Interval>, w: nat, len: nat)
    requires w > 0
  {
    forall k :: 0 <= k < |rs| - 1 ==> rs[k].end % w == 0 && rs[k].end < len
  }

  /**
   * Every interval, the last one included, ends either at `len` or on a window
   * boundary strictly before `len`: an interval closed by a silent window ends
   * on that window's start.
   */
  ghost predicate EndsOnBoundaryOrLength(rs: seq<Interval>, w: nat, len: nat)
    requires w > 0
  {
    forall k :: 0 <= k < |rs| ==> rs[k].end == len || (rs[k].end % w == 0 && rs[k].end < len)
  }

  /** Sorted by start, and each interval ends strictly before the next one starts. */
  ghost predicate SortedApart(rs: seq<Interval>)
  {
    forall j, k :: 0 <= j < k < |rs| ==> rs[j].end < rs[k].start
  }

  /** Multiplying by a positive `w` keeps strict order (the counterpart of `Windowing.MulStep`). */
  lemma MulLess(a: nat, b: nat, w: nat)
    requires w > 0
    ensures a < b <==> a * w < b * w
  {
    if a < b {
      assert b * w == a * w + (b - a) * w;
    } else {
      assert a * w == b * w + (a - b) * w;
    }
  }

  lemma MulMod(a: nat, w: nat)
    requires w > 0
    ensures (a * w) % w == 0
  {
    var q, r := (a * w) / w, (a * w) % w;
    assert a * w == q * w + r && 0 <= r < w;
    assert (a - q) * w == r;
    if a > q {
      MulLess(1, a - q, w);
    } else if a < q {
      assert (q - a) * w == -r;
      MulLess(0, q - a, w);
    }
  }

  /** The first sample of the last window lies inside the buffer (as in `Windowing.LastWindowFull`). */
  lemma LastWindowStart(count: nat, w: nat, len: nat)
    requires Covers(count, w, len) && count > 0
    ensures (count - 1) * w < len
  {
  }

  /** The interval reported for one run of windows. */
  lemma SpanBounds(r: WindowRun, w: nat, len: nat, count: nat)
    requires Covers(count, w, len) && r.lo < r.hi <= count
    ensures Span(r, w, len, count).start < Span(r, w, len, count).end <= len
    ensures Span(r, w, len, count).start % w == 0
    ensures r.hi < count ==> Span(r, w, len, count).end % w == 0 && Span(r, w, len, count).end < len
  {
    LastWindowStart(count, w, len);
    MulLess(r.lo, r.hi, w);
    MulLess(r.lo, count - 1, w);
    MulMod(r.lo, w);
    if r.hi < count {
      MulLess(r.hi, count - 1, w);
      MulMod(r.hi, w);
    }
  }

  /**
   * Every interval is non-empty and inside `[0, len]`, starts on a window
   * boundary, and every interval but the last also ends on one, strictly
   * before `len`; any interval, the last included, that does not end at `len`
   * ends on a window boundary; intervals are sorted and do not touch.
   */
  lemma IntervalsWellFormed(probs: seq<real>, w: nat, threshold: real, len: nat)
    requires Covers(|probs|, w, len)
    ensures WellFormed(Intervals(probs, w, threshold, len), w, len)
    ensures InnerEndsOnBoundary(Intervals(probs, w, threshold, len), w, len)
    ensures EndsOnBoundaryOrLength(Intervals(probs, w, threshold, len), w, len)
    ensures SortedApart(Intervals(probs, w, threshold, len))
  {
    var n := |probs|;
    var runs := RunsFrom(probs, threshold, 0);
    IntervalsAreRuns(probs, w, threshold, len);
    RunsFromOrdered(probs, threshold, 0);
    var rs := Intervals(probs, w, threshold, len);
    forall k | 0 <= k < |rs|
      ensures rs[k].start < rs[k].end <= len && rs[k].start % w == 0
      ensures k < |rs| - 1 ==> rs[k].end % w == 0 && rs[k].end < len
      ensures rs[k].end == len || (rs[k].end % w == 0 && rs[k].end < len)
    {
      SpanBounds(runs[k], w, len, n);
    }
    forall j, k | 0 <= j < k < |rs| ensures rs[j].end < rs[k].start {
      MulLess(runs[j].hi, runs[k].lo, w);
    }
  }

  /** The last interval ends at the true length `len` exactly when the last window is speech. */
  lemma TrailingIntervalEndsAtLength(probs: seq<real>, w: nat, threshold: real, len: nat)
    requires Covers(|probs|, w, len)
    ensures (Intervals(probs, w, threshold, len) != [] &&
             Intervals(probs, w, threshold, len)[|Intervals(probs, w, threshold, len)| - 1].end == len)
            <==> Above(probs, threshold, |probs| - 1)
  {
    var n := |probs|;
    var runs := RunsFrom(probs, threshold, 0);
    var rs := Intervals(probs, w, threshold, len);
    IntervalsAreRuns(probs, w, threshold, len);
    RunsFromOrdered(probs, threshold, 0);
    if n > 0 {
      RunsFromCover(probs, threshold, 0, n - 1);
    }
    if runs != [] {
      var last := runs[|runs| - 1];
      assert rs[|rs| - 1] == Span(last, w, len, n);
      SpanBounds(last, w, len, n);
      assert rs[|rs| - 1].end == len <==> last.hi == n;
      assert last.hi == n ==> last.lo <= n - 1 < last.hi;
      if Above(probs, threshold, n - 1) {
        var k :| 0 <= k < |runs| && runs[k].lo <= n - 1 < runs[k].hi;
        assert k == |runs| - 1;
      }
    }
  }

  /** A window lies inside some interval exactly when its probability is above the threshold; equality is silence. */
  lemma IntervalsCoverSpeech(probs: seq<real>, w: nat, threshold: real, len: nat, i: nat)
    requires Covers(|probs|, w, len) && i < |probs|
    ensures probs[i] > threshold <==>
            exists k :: 0 <= k < |Intervals(probs, w, threshold, len)| &&
                        Intervals(probs, w, threshold, len)[k].start <= i * w < Intervals(probs, w, threshold, len)[k].end
  {
    var n := |probs|;
    var runs := RunsFrom(probs, threshold, 0);
    var rs := Intervals(probs, w, threshold, len);
    IntervalsAreRuns(probs, w, threshold, len);
    RunsFromOrdered(probs, threshold, 0);
    RunsFromCover(probs, threshold, 0, i);
    if probs[i] > threshold {
      var k :| 0 <= k < |runs| && runs[k].lo <= i < runs[k].hi;
      SpanContains(runs[k], w, len, n, i);
      assert rs[k].start <= i * w < rs[k].end;
    } else {
      forall k | 0 <= k < |rs| ensures !(rs[k].start <= i * w < rs[k].end) {
        SpanContains(runs[k], w, len, n, i);
      }
    }
  }

  /** Window `i` starts inside a run's interval exactly when the run contains window `i`. */
  lemma SpanContains(r: WindowRun, w: nat, len: nat, count: nat, i: nat)
    requires Covers(count, w, len) && r.lo < r.hi <= count && i < count
    ensures Span(r, w, len, count).start <= i * w < Span(r, w, len, count).end <==> r.lo <= i < r.hi
  {
    LastWindowStart(count, w, len);
    MulLess(i, count - 1, w);
    MulLess(i, r.lo, w);
    MulLess(i, r.hi, w);
  }

  /** No interval at all exactly when no probability exceeds the threshold. */
  lemma NoSpeechIffNothingAbove(probs: seq<real>, w: nat, threshold: real, len: nat)
    ensures Intervals(probs, w, threshold, len) == [] <==> forall i :: 0 <= i < |probs| ==> probs[i] <= threshold
  {
    IntervalsAreRuns(probs, w, threshold, len);
    var runs := RunsFrom(probs, threshold, 0);
    RunsFromOrdered(probs, threshold, 0);
    assert runs != [] ==> probs[runs[0].lo] > threshold;
    if exists i :: 0 <= i < |probs| && probs[i] > threshold {
      var i :| 0 <= i < |probs| && probs[i] > threshold;
      RunsFromCover(probs, threshold, 0, i);
    }
  }

  /**
   * Boundary cases with the default threshold 0.1 and 256-sample windows: a
   * single loud window in the middle, probabilities equal to the threshold,
   * and speech running to the end of a 500-sample buffer, which closes at 500
   * rather than at the padded 512.
   */
  lemma BoundaryCases()
    ensures Intervals([0.05, 0.2, 0.05], 256, 0.1, 768) == [Interval(256, 512)]
    ensures Intervals([0.1, 0.1], 256, 0.1, 512) == []
    ensures Intervals([0.9, 0.9], 256, 0.1, 500) == [Interval(0, 500)]
  {
  }

  // ---------------------------------------------------------------------------
  // The loop itself.

  /**
   * The second loop of `detectSpeechTimestamps` and the closing of a still
   * open interval: it emits exactly `Intervals(probs, w, threshold, len)`,
   * that is, one interval per maximal run of above-threshold windows.
   */
  method ExtractSpeeches(probs: seq<real>, w: nat, threshold: real, len: nat) returns (speeches: seq<Interval>)
    ensures speeches == Intervals(probs, w, threshold, len)
    ensures speeches == Spans(RunsFrom(probs, threshold, 0), w, len, |probs|)
  {
    speeches := [];
    var isSpeech := false;
    var speechStart: nat := 0;
    var i := 0;
    while i < |probs|
      invariant i <= |probs|
      invariant ScanFrom(probs, w, threshold, len, i, isSpeech, speechStart, speeches)
                == Intervals(probs, w, threshold, len)
    {
      if probs[i] > threshold && !isSpeech {
        isSpeech := true;
        speechStart := i * w;
      } else if probs[i] <= threshold && isSpeech {
        isSpeech := false;
        speeches := speeches + [Interval(speechStart, i * w)];
      }
      i := i + 1;
    }
    if isSpeech {
      speeches := speeches + [Interval(speechStart, len)];
    }
    IntervalsAreRuns(probs, w, threshold, len);
  }
}
