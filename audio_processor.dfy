/** `AudioProcessor.create_chunks`: a window of `chunk_samples` slides over the
    audio with a step of `chunk_samples - overlap_samples`; the last window is
    clipped to the audio, the walk stops once less than half a chunk is left,
    and a window is kept only when its speech estimate reaches the threshold.
    Times are kept as sample indices: the source's seconds are these indices
    divided by the sample rate. */
module AudioChunking {
  import opened Numbers

  /** The fields of `AUDIO_CONFIG` that `create_chunks` reads; durations are
      whole seconds, as in the shipped configuration. */
  datatype AudioConfig = AudioConfig(
    sampleRate: nat,
    chunkDuration: nat,
    overlapDuration: nat,
    minSpeechThreshold: real)

  /** `int(chunk_duration * sample_rate)`. */
  function ChunkSamples(config: AudioConfig): nat {
    config.chunkDuration * config.sampleRate
  }

  /** `int(overlap_duration * sample_rate)`. */
  function OverlapSamples(config: AudioConfig): nat {
    config.overlapDuration * config.sampleRate
  }

  /** A configuration the loop can run on: a non-zero sample rate (the source
      divides by it) and an overlap shorter than a chunk, so every step moves
      forward. */
  predicate WellFormed(config: AudioConfig) {
    config.sampleRate > 0 && config.overlapDuration < config.chunkDuration
  }

  /** `chunk_samples - overlap_samples`. */
  function StepSamples(config: AudioConfig): (step: nat)
    requires WellFormed(config)
    ensures 0 < step <= ChunkSamples(config)
    ensures step + OverlapSamples(config) == ChunkSamples(config)
  {
    StepBetween(config);
    ChunkSamples(config) - OverlapSamples(config)
  }

  lemma StepBetween(config: AudioConfig)
    requires WellFormed(config)
    ensures OverlapSamples(config) < ChunkSamples(config)
  {
    var r := config.sampleRate;
    assert ChunkSamples(config) - OverlapSamples(config) == (config.chunkDuration - config.overlapDuration) * r;
  }

  /** The shipped `AUDIO_CONFIG`: 16 kHz, 30-second chunks, 8 seconds of
      overlap, at least 3 seconds of speech. */
  const ShippedConfig := AudioConfig(16000, 30, 8, 3.0)

  /** The shipped configuration runs: chunks of 480000 samples, advancing by
      352000 samples (22 seconds). */
  lemma ShippedConfigSteps()
    ensures WellFormed(ShippedConfig)
    ensures ChunkSamples(ShippedConfig) == 480000 && StepSamples(ShippedConfig) == 352000
  {
  }

  /** The sample range `[start, end)` of one examined window. */
  datatype Window = Window(start: nat, end: nat)

  /** One element of the returned list: the samples of a kept window and its
      boundaries (as sample indices). */
  datatype Chunk = Chunk(samples: seq<real>, start: nat, end: nat)

  // ---------------------------------------------------------------------------
  // The examined windows

  /** Every window lies inside an audio of `n` samples. */
  predicate InBounds(ws: seq<Window>, n: nat) {
    forall i :: 0 <= i < |ws| ==> ws[i].start <= ws[i].end <= n
  }

  /** The windows the loop examines when it reaches `start`: none once `start`
      is past the audio; otherwise the window `[start, min(start + size, n))`,
      followed by the windows from `start + step` unless fewer than half a
      chunk of samples would be left there. */
  function WindowsFrom(n: nat, size: nat, step: nat, start: nat): (ws: seq<Window>)
    requires 0 < step <= size
    ensures ws != [] <==> start < n
    ensures ws != [] ==> ws[0] == Window(start, Min(start + size, n))
    ensures InBounds(ws, n)
    ensures forall i :: 0 <= i < |ws| ==> start <= ws[i].start < ws[i].end
    ensures forall i :: 0 <= i < |ws| ==> ws[i].end == Min(ws[i].start + size, n)
    decreases n - start
  {
    if start >= n then []
    else
      var next := start + step;
      [Window(start, Min(start + size, n))] +
        (if 2 * (n - next) < size then [] else WindowsFrom(n, size, step, next))
  }

  /** Every window the loop examines on `n` samples. */
  function Examined(n: nat, config: AudioConfig): seq<Window>
    requires WellFormed(config)
  {
    WindowsFrom(n, ChunkSamples(config), StepSamples(config), 0)
  }

  /** The walk goes on from the window at `start` exactly when at least half
      a chunk is left at the next start. */
  lemma WindowsStep(n: nat, size: nat, step: nat, start: nat)
    requires 0 < step <= size && start < n
    ensures var ws, next := WindowsFrom(n, size, step, start), start + step;
      ws[1..] == if 2 * (n - next) < size then [] else WindowsFrom(n, size, step, next)
  {
  }

  /** Consecutive examined windows start `step` apart, and the walk went on
      to window `i` only because at least half a chunk was left at its
      start. */
  lemma {:induction false} StepAt(n: nat, size: nat, step: nat, start: nat, i: nat)
    requires 0 < step <= size
    requires 0 < i < |WindowsFrom(n, size, step, start)|
    ensures var ws := WindowsFrom(n, size, step, start);
      ws[i].start == ws[i - 1].start + step && 2 * (n - ws[i].start) >= size
    decreases i
  {
    var next := start + step;
    LaterWindow(n, size, step, start, i);
    if i > 1 {
      LaterWindow(n, size, step, start, i - 1);
      StepAt(n, size, step, next, i - 1);
    }
  }

  /** A window after the first one is a window of the walk from the next
      start, which the walk reached because at least half a chunk was left
      there. */
  lemma LaterWindow(n: nat, size: nat, step: nat, start: nat, i: nat)
    requires 0 < step <= size
    requires 0 < i < |WindowsFrom(n, size, step, start)|
    ensures var ws, rest := WindowsFrom(n, size, step, start), WindowsFrom(n, size, step, start + step);
      && 2 * (n - (start + step)) >= size
      && i - 1 < |rest| && ws[i] == rest[i - 1]
  {
    var ws := WindowsFrom(n, size, step, start);
    WindowsStep(n, size, step, start);
    assert ws[i] == ws[1..][i - 1];
  }

  /** Where the walk from `start` examines its last window. */
  function LastStart(n: nat, size: nat, step: nat, start: nat): (last: nat)
    requires 0 < step <= size && start < n
    ensures start <= last < n
    ensures 2 * (n - (last + step)) < size
    decreases n - start
  {
    var next := start + step;
    if 2 * (n - next) < size then start else LastStart(n, size, step, next)
  }

  /** When the walk goes on, the last window from `start` is the last window
      from the next start. */
  lemma LastOfRest(n: nat, size: nat, step: nat, start: nat)
    requires 0 < step <= size && start < n && 2 * (n - (start + step)) >= size
    ensures var ws, rest := WindowsFrom(n, size, step, start), WindowsFrom(n, size, step, start + step);
      rest != [] && ws[|ws| - 1] == rest[|rest| - 1]
  {
    var ws := WindowsFrom(n, size, step, start);
    WindowsStep(n, size, step, start);
    assert ws[|ws| - 1] == ws[1..][|ws| - 2];
  }

  /** When the walk stops, the window at `start` is the only one. */
  lemma OnlyWindow(n: nat, size: nat, step: nat, start: nat)
    requires 0 < step <= size && start < n && 2 * (n - (start + step)) < size
    ensures |WindowsFrom(n, size, step, start)| == 1
  {
    WindowsStep(n, size, step, start);
  }

  /** The last examined window starts where the walk stops. */
  lemma {:induction false} LastIsLastStart(n: nat, size: nat, step: nat, start: nat)
    requires 0 < step <= size && start < n
    ensures var ws := WindowsFrom(n, size, step, start);
      ws[|ws| - 1].start == LastStart(n, size, step, start)
    decreases n - start
  {
    var next := start + step;
    if 2 * (n - next) >= size {
      LastOfRest(n, size, step, start);
      LastIsLastStart(n, size, step, next);
    } else {
      OnlyWindow(n, size, step, start);
    }
  }

  /** After the last examined window the walk stopped because less than half
      a chunk was left at the next start. */
  lemma LastStop(n: nat, size: nat, step: nat, start: nat)
    requires 0 < step <= size && start < n
    ensures var ws := WindowsFrom(n, size, step, start);
      2 * (n - (ws[|ws| - 1].start + step)) < size
  {
    LastIsLastStart(n, size, step, start);
  }

  /** The `i`-th examined window starts at `start + i * step`. */
  lemma {:induction false} StartsAreMultiples(n: nat, size: nat, step: nat, start: nat, i: nat)
    requires 0 < step <= size
    requires i < |WindowsFrom(n, size, step, start)|
    ensures WindowsFrom(n, size, step, start)[i].start == start + i * step
  {
    if i > 0 {
      StartsAreMultiples(n, size, step, start, i - 1);
      StepAt(n, size, step, start, i);
      assert (i - 1) * step + step == i * step;
    }
  }

  /** Start positions strictly increase along a list of windows. */
  predicate Increasing(ws: seq<Window>) {
    forall i, j :: 0 <= i < j < |ws| ==> ws[i].start < ws[j].start
  }

  /** The examined windows come in strictly increasing start order. */
  lemma {:induction false} ExaminedIncreasing(n: nat, size: nat, step: nat, start: nat)
    requires 0 < step <= size
    ensures Increasing(WindowsFrom(n, size, step, start))
    decreases n - start
  {
    var ws := WindowsFrom(n, size, step, start);
    if start < n {
      var next := start + step;
      if 2 * (n - next) >= size {
        var rest := WindowsFrom(n, size, step, next);
        ExaminedIncreasing(n, size, step, next);
        assert ws == [ws[0]] + rest;
        forall i, j | 0 <= i < j < |ws| ensures ws[i].start < ws[j].start {
          assert ws[j] == rest[j - 1];
          if i > 0 {
            assert ws[i] == rest[i - 1];
          }
        }
      }
    }
  }

  /** Coverage: consecutive examined windows leave no gap between them, and
      a window that is not clipped overlaps the next by exactly
      `size - step` samples. */
  lemma Coverage(n: nat, size: nat, step: nat)
    requires 0 < step <= size
    ensures var ws := WindowsFrom(n, size, step, 0);
      forall i :: 0 < i < |ws| ==> ws[i].start <= ws[i - 1].end
    ensures var ws := WindowsFrom(n, size, step, 0);
      forall i :: 0 < i < |ws| && ws[i - 1].end == ws[i - 1].start + size ==>
        ws[i - 1].end - ws[i].start == size - step
  {
    var ws := WindowsFrom(n, size, step, 0);
    forall i | 0 < i < |ws| ensures ws[i].start == ws[i - 1].start + step && ws[i].start < n {
      StepAt(n, size, step, 0, i);
    }
  }

  /** The samples after the last examined window are fewer than half a
      chunk. */
  lemma UncoveredTail(n: nat, size: nat, step: nat)
    requires 0 < step <= size
    ensures var ws := WindowsFrom(n, size, step, 0);
      ws != [] ==> 2 * (n - ws[|ws| - 1].end) < size
  {
    if n > 0 {
      LastStop(n, size, step, 0);
    }
  }

  /** Empty audio examines no window; any other audio examines the window at
      index 0 first, and all windows start before `n`: at most
      `ceil(n / step)` of them. */
  lemma ExaminedCount(n: nat, size: nat, step: nat)
    requires 0 < step <= size
    ensures var ws := WindowsFrom(n, size, step, 0);
      && (n == 0 <==> ws == [])
      && (n > 0 ==> ws[0] == Window(0, Min(size, n)))
      && (ws != [] ==> (|ws| - 1) * step < n)
  {
    var ws := WindowsFrom(n, size, step, 0);
    if ws != [] {
      StartsAreMultiples(n, size, step, 0, |ws| - 1);
    }
  }

  // ---------------------------------------------------------------------------
  // The speech gate

  /** The chunk a window cuts out of the audio. */
  function ChunkOf(audio: seq<real>, w: Window): (c: Chunk)
    requires w.start <= w.end <= |audio|
    ensures c.start == w.start && c.end == w.end && |c.samples| == w.end - w.start
  {
    Chunk(audio[w.start..w.end], w.start, w.end)
  }

  /** `speech_duration >= min_speech_threshold`, with the speech estimate of
      `detect_speech_activity` supplied as `speech`. */
  predicate Passes(audio: seq<real>, w: Window, speech: seq<real> -> real, threshold: real)
    requires w.start <= w.end <= |audio|
  {
    speech(audio[w.start..w.end]) >= threshold
  }

  /** The chunks of the windows that pass the gate, in window order. */
  function Kept(audio: seq<real>, ws: seq<Window>, speech: seq<real> -> real, threshold: real): (cs: seq<Chunk>)
    requires InBounds(ws, |audio|)
    ensures |cs| <= |ws|
  {
    if ws == [] then []
    else
      (if Passes(audio, ws[0], speech, threshold) then [ChunkOf(audio, ws[0])] else []) +
        Kept(audio, ws[1..], speech, threshold)
  }

  /** Nothing is invented: every kept chunk is the audio cut at one of the
      windows, and that window passed the gate. */
  lemma {:induction false} KeptSound(audio: seq<real>, ws: seq<Window>, speech: seq<real> -> real, threshold: real)
    requires InBounds(ws, |audio|)
    ensures forall c :: c in Kept(audio, ws, speech, threshold) ==>
      && Window(c.start, c.end) in ws
      && c.start <= c.end <= |audio|
      && c.samples == audio[c.start..c.end]
      && speech(c.samples) >= threshold
  {
    if ws != [] {
      KeptSound(audio, ws[1..], speech, threshold);
      forall c | c in Kept(audio, ws[1..], speech, threshold) ensures Window(c.start, c.end) in ws {
        assert Window(c.start, c.end) in ws[1..];
      }
    }
  }

  /** Nothing that passes is lost: the chunk of every window that passes the
      gate is kept, and, since windows start at distinct places, the chunk of
      a window that fails the gate is not. */
  lemma {:induction false} KeptComplete(audio: seq<real>, ws: seq<Window>, speech: seq<real> -> real, threshold: real)
    requires InBounds(ws, |audio|) && Increasing(ws)
    ensures forall i :: 0 <= i < |ws| ==>
      (ChunkOf(audio, ws[i]) in Kept(audio, ws, speech, threshold) <==> Passes(audio, ws[i], speech, threshold))
  {
    if ws != [] {
      var rest := ws[1..];
      assert Increasing(rest) by {
        forall i, j | 0 <= i < j < |rest| ensures rest[i].start < rest[j].start {
          assert rest[i] == ws[i + 1] && rest[j] == ws[j + 1];
        }
      }
      KeptComplete(audio, rest, speech, threshold);
      KeptStartsAfter(audio, rest, speech, threshold, ws[0].start);
      forall i | 0 <= i < |ws|
        ensures ChunkOf(audio, ws[i]) in Kept(audio, ws, speech, threshold) <==> Passes(audio, ws[i], speech, threshold)
      {
        if i > 0 {
          assert ws[i] == rest[i - 1];
          assert ws[0].start < ws[i].start;
        }
      }
    }
  }

  /** Kept chunks start where some window of the list starts. */
  lemma {:induction false} KeptStartsAfter(audio: seq<real>, ws: seq<Window>, speech: seq<real> -> real, threshold: real, bound: nat)
    requires InBounds(ws, |audio|)
    requires forall i :: 0 <= i < |ws| ==> bound < ws[i].start
    ensures forall c :: c in Kept(audio, ws, speech, threshold) ==> bound < c.start
  {
    if ws != [] {
      KeptStartsAfter(audio, ws[1..], speech, threshold, bound);
    }
  }

  /** Start positions strictly increase along a list of chunks. */
  predicate ChunksIncreasing(cs: seq<Chunk>) {
    forall i, j :: 0 <= i < j < |cs| ==> cs[i].start < cs[j].start
  }

  /** A chunk that starts before every chunk of an increasing list can go in
      front of it. */
  lemma PrependIncreasing(c: Chunk, cs: seq<Chunk>)
    requires ChunksIncreasing(cs)
    requires forall d :: d in cs ==> c.start < d.start
    ensures ChunksIncreasing([c] + cs)
  {
    var r := [c] + cs;
    forall i, j | 0 <= i < j < |r| ensures r[i].start < r[j].start {
      assert r[j] == cs[j - 1];
      if i > 0 {
        assert r[i] == cs[i - 1];
      }
    }
  }

  /** Kept chunks keep the windows' order: their starts strictly increase. */
  lemma {:induction false} KeptIncreasing(audio: seq<real>, ws: seq<Window>, speech: seq<real> -> real, threshold: real)
    requires InBounds(ws, |audio|) && Increasing(ws)
    ensures ChunksIncreasing(Kept(audio, ws, speech, threshold))
  {
    if ws != [] {
      var rest := ws[1..];
      assert Increasing(rest) by {
        forall i, j | 0 <= i < j < |rest| ensures rest[i].start < rest[j].start {
          assert rest[i] == ws[i + 1] && rest[j] == ws[j + 1];
        }
      }
      KeptIncreasing(audio, rest, speech, threshold);
      if Passes(audio, ws[0], speech, threshold) {
        assert forall i :: 0 <= i < |rest| ==> ws[0].start < rest[i].start by {
          forall i | 0 <= i < |rest| ensures ws[0].start < rest[i].start {
            assert rest[i] == ws[i + 1];
          }
        }
        KeptStartsAfter(audio, rest, speech, threshold, ws[0].start);
        PrependIncreasing(ChunkOf(audio, ws[0]), Kept(audio, rest, speech, threshold));
      }
    }
  }

  // ---------------------------------------------------------------------------
  // create_chunks

  /** What `create_chunks` returns for `audio`. */
  function Emitted(audio: seq<real>, config: AudioConfig, speech: seq<real> -> real): seq<Chunk>
    requires WellFormed(config)
  {
    Kept(audio, Examined(|audio|, config), speech, config.minSpeechThreshold)
  }

  /** The gate rule on the whole output: the chunk of an examined window is
      returned exactly when its speech estimate reaches the threshold. */
  lemma EmittedIsGated(audio: seq<real>, config: AudioConfig, speech: seq<real> -> real)
    requires WellFormed(config)
    ensures var ws, cs := Examined(|audio|, config), Emitted(audio, config, speech);
      forall i :: 0 <= i < |ws| ==>
        (ChunkOf(audio, ws[i]) in cs <==> Passes(audio, ws[i], speech, config.minSpeechThreshold))
  {
    ExaminedIncreasing(|audio|, ChunkSamples(config), StepSamples(config), 0);
    KeptComplete(audio, Examined(|audio|, config), speech, config.minSpeechThreshold);
  }

  /** Every returned chunk is the audio cut at an examined window whose
      speech estimate reached the threshold, and there are never more chunks
      than examined windows. */
  lemma EmittedIsSound(audio: seq<real>, config: AudioConfig, speech: seq<real> -> real)
    requires WellFormed(config)
    ensures var ws, cs := Examined(|audio|, config), Emitted(audio, config, speech);
      && |cs| <= |ws|
      && forall c :: c in cs ==>
        && Window(c.start, c.end) in ws
        && c.start <= c.end <= |audio|
        && c.samples == audio[c.start..c.end]
        && speech(c.samples) >= config.minSpeechThreshold
  {
    KeptSound(audio, Examined(|audio|, config), speech, config.minSpeechThreshold);
  }

  /** The returned chunks come in strictly increasing start order. */
  lemma EmittedInOrder(audio: seq<real>, config: AudioConfig, speech: seq<real> -> real)
    requires WellFormed(config)
    ensures ChunksIncreasing(Emitted(audio, config, speech))
  {
    ExaminedIncreasing(|audio|, ChunkSamples(config), StepSamples(config), 0);
    KeptIncreasing(audio, Examined(|audio|, config), speech, config.minSpeechThreshold);
  }

  /** The chunk of the window at `start` when it passes the gate, else
      nothing. */
  function HeadChunk(audio: seq<real>, size: nat, start: nat, speech: seq<real> -> real, threshold: real): (cs: seq<Chunk>)
    requires start < |audio|
    ensures |cs| <= 1
  {
    var w := Window(start, Min(start + size, |audio|));
    if Passes(audio, w, speech, threshold) then [ChunkOf(audio, w)] else []
  }

  /** A turn of the loop that goes on: after the chunks `acc` collected so
      far, the chunks still to come from `start` are this window's chunk, if
      it passes, then those from the next start. */
  lemma KeptGoesOn(audio: seq<real>, size: nat, step: nat, start: nat, speech: seq<real> -> real, threshold: real,
                   acc: seq<Chunk>)
    requires 0 < step <= size && start < |audio| && 2 * (|audio| - (start + step)) >= size
    ensures acc + Kept(audio, WindowsFrom(|audio|, size, step, start), speech, threshold) ==
      (acc + HeadChunk(audio, size, start, speech, threshold)) +
      Kept(audio, WindowsFrom(|audio|, size, step, start + step), speech, threshold)
  {
    WindowsStep(|audio|, size, step, start);
  }

  /** A turn of the loop that stops: only this window's chunk, if it passes,
      is still to come. */
  lemma KeptStops(audio: seq<real>, size: nat, step: nat, start: nat, speech: seq<real> -> real, threshold: real)
    requires 0 < step <= size && start < |audio| && 2 * (|audio| - (start + step)) < size
    ensures Kept(audio, WindowsFrom(|audio|, size, step, start), speech, threshold) ==
      HeadChunk(audio, size, start, speech, threshold)
  {
    WindowsStep(|audio|, size, step, start);
  }

  /** The loop of `create_chunks` run from `start` with `acc` collected so
      far, one turn per call. */
  function Walk(audio: seq<real>, size: nat, step: nat, start: nat, speech: seq<real> -> real, threshold: real,
                acc: seq<Chunk>): seq<Chunk>
    requires 0 < step <= size
    decreases |audio| - start
  {
    if start >= |audio| then acc
    else
      var end := Min(start + size, |audio|);
      var chunk := audio[start..end];
      var acc' := if speech(chunk) >= threshold then acc + [Chunk(chunk, start, end)] else acc;
      if 2 * (|audio| - (start + step)) < size then acc'
      else Walk(audio, size, step, start + step, speech, threshold, acc')
  }

  /** One turn appends the window's chunk exactly when it passes the gate. */
  lemma TurnAppendsHead(audio: seq<real>, size: nat, start: nat, speech: seq<real> -> real, threshold: real, acc: seq<Chunk>)
    requires start < |audio|
    ensures var end := Min(start + size, |audio|);
      var chunk := audio[start..end];
      (if speech(chunk) >= threshold then acc + [Chunk(chunk, start, end)] else acc) ==
        acc + HeadChunk(audio, size, start, speech, threshold)
  {
    var end := Min(start + size, |audio|);
    if !(speech(audio[start..end]) >= threshold) {
      assert acc + [] == acc;
    }
  }

  /** The walk appends to what it was given exactly the chunks of the windows
      from `start` that pass the gate. */
  lemma {:induction false} WalkKeeps(audio: seq<real>, size: nat, step: nat, start: nat, speech: seq<real> -> real,
                                     threshold: real, acc: seq<Chunk>)
    requires 0 < step <= size
    ensures Walk(audio, size, step, start, speech, threshold, acc) ==
      acc + Kept(audio, WindowsFrom(|audio|, size, step, start), speech, threshold)
    decreases |audio| - start
  {
    var n := |audio|;
    if start < n {
      var head := HeadChunk(audio, size, start, speech, threshold);
      TurnAppendsHead(audio, size, start, speech, threshold, acc);
      if 2 * (n - (start + step)) < size {
        KeptStops(audio, size, step, start, speech, threshold);
      } else {
        WalkKeeps(audio, size, step, start + step, speech, threshold, acc + head);
        KeptGoesOn(audio, size, step, start, speech, threshold, acc);
      }
    } else {
      assert acc + [] == acc;
    }
  }

  /** `create_chunks`: the sample counts of a chunk and of a step, then the
      walk over the windows. */
  method CreateChunks(audio: seq<real>, config: AudioConfig, speech: seq<real> -> real)
    returns (chunks: seq<Chunk>)
    requires WellFormed(config)
    ensures chunks == Emitted(audio, config, speech)
  {
    var chunkSamples := ChunkSamples(config);
    var overlapSamples := OverlapSamples(config);
    var stepSamples := chunkSamples - overlapSamples;
    assert stepSamples == StepSamples(config);
    chunks := SlideWindows(audio, chunkSamples, stepSamples, speech, config.minSpeechThreshold);
  }

  /** The loop of `create_chunks`: cuts the window at each start, asks
      `speech` for its speech estimate, appends the chunk when that reaches
      the threshold, and stops once less than half a chunk is left. */
  method SlideWindows(audio: seq<real>, chunkSamples: nat, stepSamples: nat, speech: seq<real> -> real, threshold: real)
    returns (chunks: seq<Chunk>)
    requires 0 < stepSamples <= chunkSamples
    ensures chunks == Kept(audio, WindowsFrom(|audio|, chunkSamples, stepSamples, 0), speech, threshold)
  {
    chunks := [];
    WalkKeeps(audio, chunkSamples, stepSamples, 0, speech, threshold, []);
    ghost var goal := Walk(audio, chunkSamples, stepSamples, 0, speech, threshold, []);
    var startIdx: nat := 0;
    while startIdx < |audio|
      invariant Walk(audio, chunkSamples, stepSamples, startIdx, speech, threshold, chunks) == goal
      decreases |audio| - startIdx
    {
      var endIdx := Min(startIdx + chunkSamples, |audio|);
      var chunk := audio[startIdx..endIdx];
      var speechDuration := speech(chunk);
      if speechDuration >= threshold {
        chunks := chunks + [Chunk(chunk, startIdx, endIdx)];
      }
      startIdx := startIdx + stepSamples;
      if 2 * (|audio| - startIdx) < chunkSamples {
        break;
      }
    }
  }
}
