/**
 * Splitting the collected audio buffer into fixed-size windows and asking the
 * speech-probability estimator about each one: the first loop of
 * `detectSpeechTimestamps` (index.js:44-56).
 *
 * Samples are `real`s; the estimator (the ONNX model behind `processAudioData`)
 * is a deterministic, stateless function from one window to one probability,
 * passed in as a parameter.
 */
module Windowing {

  /** The speech-probability estimator: one window in, one probability out. */
  type Estimator = seq<real> -> real

  function Min(a: int, b: int): int { if a < b then a else b }

  /** `n` zero samples: what a freshly allocated `Float32Array` holds. */
  function Zeros(n: nat): (z: seq<real>)
    ensures |z| == n && forall j :: 0 <= j < n ==> z[j] == 0.0
  {
    seq(n, _ => 0.0)
  }

  /** Number of windows the loop visits for a buffer of `len` samples: ceil(len / w). */
  function WindowCount(len: nat, w: nat): (n: nat)
    requires w > 0
    ensures len <= n * w < len + w
    ensures n == 0 <==> len == 0
  {
    var n := (len + w - 1) / w;
    assert n * w + (len + w - 1) % w == len + w - 1;
    n
  }

  /** A short chunk is copied into the front of a zero-filled buffer of `w` samples. */
  function Pad(chunk: seq<real>, w: nat): (p: seq<real>)
    requires |chunk| <= w
    ensures |p| == w
    ensures p[..|chunk|] == chunk
    ensures forall j :: |chunk| <= j < w ==> p[j] == 0.0
  {
    if |chunk| < w then chunk + Zeros(w - |chunk|) else chunk
  }

  /**
   * The window that the loop hands to the estimator when its offset is `k * w`:
   * the samples `[k*w, min(k*w + w, len))`, padded on the right with zeros.
   */
  ghost function WindowAt(s: seq<real>, w: nat, k: nat): seq<real>
    requires w > 0 && k * w < |s|
  {
    Pad(s[k * w .. Min(k * w + w, |s|)], w)
  }

  /**
   * The windows of a buffer, defined by peeling one window off the front at a
   * time: this is the reference the offset-stepping loop is proved against.
   */
  ghost function Windows(s: seq<real>, w: nat): seq<seq<real>>
    requires w > 0
    decreases |s|
  {
    if |s| == 0 then []
    else if |s| <= w then [Pad(s, w)]
    else [s[..w]] + Windows(s[w..], w)
  }

  /** All windows laid end to end. */
  ghost function Flatten(ws: seq<seq<real>>): seq<real>
  {
    if ws == [] then [] else ws[0] + Flatten(ws[1..])
  }

  /**
   * The real (unpadded) samples of consecutive windows that together cover
   * `len` samples: the first `min(|window|, remaining)` samples of each.
   */
  ghost function Unpadded(ws: seq<seq<real>>, len: nat): seq<real>
  {
    if ws == [] then []
    else
      var m := Min(|ws[0]|, len);
      ws[0][..m] + Unpadded(ws[1..], len - m)
  }

  /** One probability per window, in window order. */
  ghost function Estimates(ws: seq<seq<real>>, prob: Estimator): (ps: seq<real>)
    ensures |ps| == |ws| && forall k :: 0 <= k < |ws| ==> ps[k] == prob(ws[k])
  {
    seq(|ws|, k requires 0 <= k < |ws| => prob(ws[k]))
  }

  /** The probability sequence `detectSpeechTimestamps` collects for a buffer. */
  ghost function SpeechProbs(samples: seq<real>, prob: Estimator, w: nat): seq<real>
    requires w > 0
  {
    Estimates(Windows(samples, w), prob)
  }

  /** There are exactly ceil(len / w) windows, and every one holds exactly `w` samples. */
  lemma {:induction false} WindowsShape(s: seq<real>, w: nat)
    requires w > 0
    ensures |Windows(s, w)| == WindowCount(|s|, w)
    ensures forall k :: 0 <= k < |Windows(s, w)| ==> |Windows(s, w)[k]| == w
    decreases |s|
  {
    if |s| > w {
      WindowsShape(s[w..], w);
      var n := WindowCount(|s|, w);
      var m := WindowCount(|s| - w, w);
      // both m + 1 and n satisfy the characterisation of ceil(|s| / w)
      assert (m + 1) * w == m * w + w;
      CeilUnique(|s|, w, n, m + 1);
    } else if |s| > 0 {
      CeilUnique(|s|, w, WindowCount(|s|, w), 1);
    }
  }

  /** ceil(len / w) is the only `n` with len <= n*w < len + w. */
  lemma CeilUnique(len: nat, w: nat, n: nat, m: nat)
    requires w > 0
    requires len <= n * w < len + w
    requires len <= m * w < len + w
    ensures n == m
  {
    MulStep(n, m, w);
    MulStep(m, n, w);
  }

  lemma MulLeft(a: nat, b: nat, w: nat)
    requires a <= b
    ensures a * w <= b * w
  {}

  /** Multiples of `w` that differ are at least `w` apart. */
  lemma MulStep(a: nat, b: nat, w: nat)
    ensures a < b ==> a * w + w <= b * w
  {
    if a < b {
      assert b * w == a * w + (b - a) * w;
      MulLeft(1, b - a, w);
    }
  }

  /** Window `k` starts at sample offset `k * w`: the reference agrees with the loop's slicing. */
  lemma WindowsAt(s: seq<real>, w: nat, k: nat)
    requires w > 0 && k * w < |s|
    ensures k < |Windows(s, w)|
    ensures Windows(s, w)[k] == WindowAt(s, w, k)
  {
    OffsetIsProduct(k, w);
    WindowsFrom(s, w, k);
  }

  /** The sample offset of window `k`, counted up in strides of `w` as the loop does. */
  function Offset(k: nat, w: nat): nat
  {
    if k == 0 then 0 else Offset(k - 1, w) + w
  }

  lemma {:induction false} OffsetIsProduct(k: nat, w: nat)
    ensures Offset(k, w) == k * w
  {
    if k > 0 {
      OffsetIsProduct(k - 1, w);
      assert (k - 1) * w + w == k * w;
    }
  }

  lemma {:induction false} WindowsFrom(s: seq<real>, w: nat, k: nat)
    requires w > 0 && Offset(k, w) < |s|
    ensures k < |Windows(s, w)|
    ensures Windows(s, w)[k] == Pad(s[Offset(k, w) .. Min(Offset(k, w) + w, |s|)], w)
  {
    if k == 0 {
      assert s[0 .. Min(w, |s|)] == if |s| <= w then s else s[..w];
    } else {
      var off := Offset(k, w);
      var t := s[w..];
      assert |s| > w && off - w == Offset(k - 1, w);
      assert Windows(s, w) == [s[..w]] + Windows(t, w);
      WindowsFrom(t, w, k - 1);
      assert Windows(s, w)[k] == Windows(t, w)[k - 1];
      DropSlice(s, w, off - w, Min(off, |t|));
      assert Min(off, |t|) + w == Min(off + w, |s|);
    }
  }

  /** Slicing after dropping the first `w` samples is slicing `w` further along. */
  lemma DropSlice(s: seq<real>, w: nat, lo: nat, hi: nat)
    requires w <= |s| && lo <= hi <= |s| - w
    ensures s[w..][lo..hi] == s[lo + w .. hi + w]
  {
  }

  /** Padding only ever appends zeros after the last real sample: the windows laid end to end are the buffer followed by zeros. */
  lemma FlattenWindows(s: seq<real>, w: nat)
    requires w > 0
    ensures |Flatten(Windows(s, w))| == WindowCount(|s|, w) * w
    ensures Flatten(Windows(s, w)) == s + Zeros(WindowCount(|s|, w) * w - |s|)
  {
    WindowsShape(s, w);
    FlattenLength(Windows(s, w), w);
    FlattenIsPadded(s, w);
  }

  lemma {:induction false} FlattenIsPadded(s: seq<real>, w: nat)
    requires w > 0
    ensures |s| <= |Flatten(Windows(s, w))|
    ensures Flatten(Windows(s, w)) == s + Zeros(|Flatten(Windows(s, w))| - |s|)
    decreases |s|
  {
    var ws := Windows(s, w);
    if |s| == 0 {
    } else if |s| <= w {
      assert ws[1..] == [];
      assert Flatten(ws) == Pad(s, w);
    } else {
      var t := s[w..];
      FlattenIsPadded(t, w);
      assert ws[1..] == Windows(t, w);
      assert Flatten(ws) == s[..w] + Flatten(Windows(t, w));
      assert s[..w] + t == s;
    }
  }

  lemma {:induction false} FlattenLength(ws: seq<seq<real>>, w: nat)
    requires forall k :: 0 <= k < |ws| ==> |ws[k]| == w
    ensures |Flatten(ws)| == |ws| * w
  {
    if ws != [] {
      FlattenLength(ws[1..], w);
      assert |ws| * w == (|ws| - 1) * w + w;
    }
  }

  /** Keeping only the real samples of each window and concatenating them gives back the buffer. */
  lemma {:induction false} UnpaddedWindows(s: seq<real>, w: nat)
    requires w > 0
    ensures Unpadded(Windows(s, w), |s|) == s
    decreases |s|
  {
    if |s| == 0 {
    } else if |s| <= w {
      var ws := Windows(s, w);
      assert ws[1..] == [];
      assert ws[0][..|s|] == s;
    } else {
      var t := s[w..];
      UnpaddedWindows(t, w);
      var ws := Windows(s, w);
      assert ws[1..] == Windows(t, w);
      assert ws[0][..w] == s[..w];
      assert s[..w] + t == s;
    }
  }

  /**
   * The first loop of `detectSpeechTimestamps`: step through the buffer in
   * strides of `w`, pad a short final chunk with zeros, and collect one
   * estimate per window, in stream order.
   */
  method SpeechProbabilities(samples: seq<real>, prob: Estimator, w: nat) returns (probs: seq<real>)
    requires w > 0
    ensures |probs| == WindowCount(|samples|, w)
    ensures probs == SpeechProbs(samples, prob, w)
  {
    ghost var ws := Windows(samples, w);
    WindowsShape(samples, w);
    probs := [];
    var i := 0;
    while i < |samples|
      invariant i == |probs| * w
      invariant |probs| == 0 || i < |samples| + w
      invariant |probs| <= |ws|
      invariant probs == Estimates(ws[..|probs|], prob)
    {
      var chunk := samples[i .. Min(i + w, |samples|)];
      if |chunk| < w {
        // index.js:51 assigns to the `const` declared at index.js:46, which
        // throws a TypeError; this is the zero padding that the comment at
        // index.js:47 asks for (see WindowChunkAsWritten below).
        chunk := chunk + Zeros(w - |chunk|);
      }
      WindowsAt(samples, w, |probs|);
      assert chunk == ws[|probs|];
      assert ws[..|probs| + 1] == ws[..|probs|] + [chunk];
      assert (|probs| + 1) * w == i + w;
      probs := probs + [prob(chunk)];
      i := i + w;
    }
    CeilUnique(|samples|, w, |probs|, WindowCount(|samples|, w));
    assert ws[..|probs|] == ws;
  }

  /** What the window loop's body does as written: the padding branch raises. */
  datatype JsError = AssignmentToConstant

  datatype Outcome<T> = Returned(value: T) | Thrown(error: JsError)

  /**
   * The chunk at offset `i` as index.js:46-52 is written: `chunk` is `const`,
   * so the assignment at index.js:51 throws whenever the chunk is short.
   */
  function WindowChunkAsWritten(samples: seq<real>, w: nat, i: nat): (r: Outcome<seq<real>>)
    requires i < |samples|
    ensures r.Returned? ==> |r.value| == w
    ensures r.Thrown? <==> |samples| - i < w
  {
    var chunk := samples[i .. Min(i + w, |samples|)];
    if |chunk| < w then Thrown(AssignmentToConstant) else Returned(chunk)
  }

  /**
   * As written, the window loop gets through the whole buffer exactly when its
   * length is a multiple of `w`: every window before the last is full, and the
   * last one throws unless it is full too.
   */
  lemma AsWrittenThrowsOnShortTail(samples: seq<real>, w: nat, k: nat)
    requires w > 0 && k < WindowCount(|samples|, w)
    ensures k * w < |samples|
    ensures WindowChunkAsWritten(samples, w, k * w).Thrown? <==>
              k == WindowCount(|samples|, w) - 1 && |samples| % w != 0
  {
    var last := WindowCount(|samples|, w) - 1;
    LastWindowFull(|samples|, w);
    MulLeft(k, last, w);
    if k < last {
      MulLeft(k + 1, last, w);
      assert (k + 1) * w == k * w + w;
    }
  }

  /** Where the code as written does not throw, it hands the estimator the same window as the padded version. */
  lemma AsWrittenAgreesOnFullWindows(samples: seq<real>, w: nat, k: nat)
    requires w > 0 && k * w < |samples|
    requires WindowChunkAsWritten(samples, w, k * w).Returned?
    ensures k < |Windows(samples, w)|
    ensures WindowChunkAsWritten(samples, w, k * w).value == Windows(samples, w)[k]
  {
    WindowsAt(samples, w, k);
  }

  /** The last window is full exactly when `w` divides the buffer length. */
  lemma LastWindowFull(len: nat, w: nat)
    requires w > 0 && len > 0
    ensures var last := WindowCount(len, w) - 1;
      last * w < len && (len - last * w == w <==> len % w == 0)
  {
    var n := WindowCount(len, w);
    assert (n - 1) * w == n * w - w;
    var q, r := len / w, len % w;
    assert len == q * w + r && 0 <= r < w;
    if r == 0 {
      CeilUnique(len, w, n, q);
    } else {
      assert (q + 1) * w == q * w + w;
      CeilUnique(len, w, n, q + 1);
    }
  }

  /**
   * Any buffer of 300 samples shows it with 256-sample windows: the code as
   * written throws at offset 256, while the padded version gives two windows,
   * the second being the 44 real samples and then 212 zeros.
   */
  lemma AsWrittenThrowsOn300Samples(s: seq<real>)
    requires |s| == 300
    ensures WindowChunkAsWritten(s, 256, 256) == Thrown(AssignmentToConstant)
    ensures |Windows(s, 256)| == 2
    ensures Windows(s, 256)[1] == s[256..] + Zeros(212)
  {
    assert Windows(s, 256) == [s[..256]] + Windows(s[256..], 256);
    assert Windows(s[256..], 256) == [Pad(s[256..], 256)];
  }
}
