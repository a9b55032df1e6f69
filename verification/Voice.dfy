/**
 * The sequential core of voice.py's recogniser: the chunk-size constant, the
 * consumer's buffer arithmetic, the capture callback's queue policy and the
 * recording flag. Samples are left abstract (`T`); recognition itself is not
 * modelled.
 */
module Voice {
  import opened Wrappers

  const SampleRate: nat := 16000
  /** Seconds of audio per recognised chunk. */
  const ChunkDuration: nat := 3
  /** Samples per chunk, `int(sample_rate * chunk_duration)`. */
  const ChunkSize: nat := SampleRate * ChunkDuration

  lemma ChunkSizeIs48000()
    ensures ChunkSize == 48000
  {
  }

  /** The consumer's state after one dequeued frame: the retained buffer and,
      when one was split off, the chunk handed to recognition. */
  datatype Step<T> = Step(buffer: seq<T>, chunk: Option<seq<T>>)

  /** One pass of `processing_thread`'s loop body: append the frame, and once
      the buffer holds at least a chunk, split exactly one chunk off the front. */
  function ConsumeFrame<T>(buffer: seq<T>, frame: seq<T>): (r: Step<T>)
    ensures r.chunk.Some? <==> |buffer| + |frame| >= ChunkSize
    ensures r.chunk.Some? ==> |r.chunk.value| == ChunkSize && r.chunk.value + r.buffer == buffer + frame
    ensures r.chunk.None? ==> r.buffer == buffer + frame
  {
    var joined := buffer + frame;
    if |joined| >= ChunkSize then Step(joined[ChunkSize..], Some(joined[..ChunkSize]))
    else Step(joined, None)
  }

  /** Concatenation of a sequence of frames or chunks. */
  function Flatten<T>(xs: seq<seq<T>>): seq<T>
    decreases |xs|
  {
    if |xs| == 0 then [] else Flatten(xs[..|xs| - 1]) + xs[|xs| - 1]
  }

  lemma FlattenSnoc<T>(xs: seq<seq<T>>, x: seq<T>)
    ensures Flatten(xs + [x]) == Flatten(xs) + x
  {
    assert (xs + [x])[..|xs|] == xs;
  }

  /**
   * Feeds `frames` through the consumer, starting from an empty buffer. No
   * sample is lost, duplicated or reordered: the chunks handed out, followed by
   * the final buffer, spell out the frames in arrival order. Every chunk is
   * exactly one chunk long and at most one chunk is split per frame. When no
   * frame is longer than a chunk (the stream delivers 1024-sample frames), the
   * consumer keeps up: less than a chunk is ever left waiting.
   */
  method ProcessFrames<T>(frames: seq<seq<T>>) returns (chunks: seq<seq<T>>, buffer: seq<T>)
    ensures Flatten(chunks) + buffer == Flatten(frames)
    ensures forall i :: 0 <= i < |chunks| ==> |chunks[i]| == ChunkSize
    ensures |chunks| <= |frames|
    ensures (forall i :: 0 <= i < |frames| ==> |frames[i]| <= ChunkSize) ==> |buffer| < ChunkSize
  {
    chunks := [];
    buffer := [];
    var n := 0;
    while n < |frames|
      invariant 0 <= n <= |frames|
      invariant Flatten(chunks) + buffer == Flatten(frames[..n])
      invariant forall i :: 0 <= i < |chunks| ==> |chunks[i]| == ChunkSize
      invariant |chunks| <= n
      invariant (forall i :: 0 <= i < n ==> |frames[i]| <= ChunkSize) ==> |buffer| < ChunkSize
    {
      var step := ConsumeFrame(buffer, frames[n]);
      assert frames[..n + 1] == frames[..n] + [frames[n]];
      FlattenSnoc(frames[..n], frames[n]);
      if step.chunk.Some? {
        var c := step.chunk.value;
        FlattenSnoc(chunks, c);
        assert Flatten(chunks + [c]) + step.buffer == Flatten(chunks) + (c + step.buffer);
        chunks := chunks + [c];
      } else {
        assert Flatten(chunks) + step.buffer == (Flatten(chunks) + buffer) + frames[n];
      }
      buffer := step.buffer;
      n := n + 1;
    }
    assert frames[..n] == frames;
  }

  /** Only one chunk is split per frame: a frame of two chunks' worth leaves a
      full chunk behind in the buffer. */
  lemma OneChunkPerFrame<T>(buffer: seq<T>, frame: seq<T>)
    requires |frame| >= 2 * ChunkSize
    ensures |ConsumeFrame(buffer, frame).buffer| >= ChunkSize
  {
  }

  /** `audio_queue = queue.Queue()`: a maxsize of 0 means unbounded. */
  const AudioQueueMaxsize: int := 0

  /** `audio_callback`'s put policy on a queue with Python `maxsize`: a bounded,
      full queue first drops its oldest frame. */
  function PutDropOldest<T>(queue: seq<seq<T>>, frame: seq<T>, maxsize: int): (r: seq<seq<T>>)
    ensures |r| > 0 && r[|r| - 1] == frame
    ensures r[..|r| - 1] == queue || (|queue| > 0 && r[..|r| - 1] == queue[1..])
    ensures maxsize > 0 && |queue| <= maxsize ==> |r| <= maxsize
    ensures (maxsize <= 0 || |queue| < maxsize) <==> r == queue + [frame]
  {
    if maxsize > 0 && |queue| >= maxsize then queue[1..] + [frame] else queue + [frame]
  }

  /** The recogniser's queue is unbounded, so each callback simply appends. */
  lemma CallbackAppends<T>(queue: seq<seq<T>>, frame: seq<T>)
    ensures PutDropOldest(queue, frame, AudioQueueMaxsize) == queue + [frame]
  {
  }

  function PutAll<T>(queue: seq<seq<T>>, frames: seq<seq<T>>, maxsize: int): seq<seq<T>>
    decreases |frames|
  {
    if |frames| == 0 then queue
    else PutAll(PutDropOldest(queue, frames[0], maxsize), frames[1..], maxsize)
  }

  /** A bounded queue that starts within its capacity stays within it however
      many callbacks arrive, and always ends with the newest frame. */
  lemma {:induction false} PutAllBounded<T>(queue: seq<seq<T>>, frames: seq<seq<T>>, maxsize: int)
    requires 0 < maxsize && |queue| <= maxsize
    requires |frames| > 0
    ensures 0 < |PutAll(queue, frames, maxsize)| <= maxsize
    ensures PutAll(queue, frames, maxsize)[|PutAll(queue, frames, maxsize)| - 1] == frames[|frames| - 1]
    decreases |frames|
  {
    var q' := PutDropOldest(queue, frames[0], maxsize);
    if |frames| > 1 {
      PutAllBounded(q', frames[1..], maxsize);
      assert frames[1..][|frames[1..]| - 1] == frames[|frames| - 1];
    }
  }

  /** State of the audio stream object the recogniser holds. */
  datatype Stream = NoStream | Opened | Running | Closed

  /** `is_recording`, `is_processing` and the stream. Only `run`, which is not
      part of this model, sets `is_processing`; here it is carried unchanged. */
  datatype Recorder = Recorder(isRecording: bool, isProcessing: bool, stream: Stream)

  const InitialRecorder: Recorder := Recorder(false, false, NoStream)

  /** Where `start_recording` raised, if it did: looking up the device or
      opening the stream (before the flag is set), or starting the opened
      stream (after the flag is set). */
  datatype StartFault = NoFault | OpenFails | StartFails

  datatype StartResult = StartResult(recorder: Recorder, ok: bool)

  function StartRecording(r: Recorder, fault: StartFault): (s: StartResult)
    ensures s.ok <==> fault == NoFault
    ensures s.ok ==> s.recorder.isRecording && s.recorder.stream == Running
    ensures fault == OpenFails ==> s.recorder == r
    ensures fault == StartFails ==> s.recorder.isRecording && s.recorder.stream == Opened
    ensures s.recorder.isProcessing == r.isProcessing
  {
    match fault
    case OpenFails => StartResult(r, false)
    case StartFails => StartResult(r.(isRecording := true, stream := Opened), false)
    case NoFault => StartResult(r.(isRecording := true, stream := Running), true)
  }

  function StopRecording(r: Recorder): (s: Recorder)
    ensures !s.isRecording
    ensures !r.isRecording ==> s == r
    ensures r.isRecording ==> s.stream == Closed && s.isProcessing == r.isProcessing
  {
    if r.isRecording then r.(isRecording := false, stream := Closed) else r
  }

  /** Stopping twice is the same as stopping once. */
  lemma StopIdempotent(r: Recorder)
    ensures StopRecording(StopRecording(r)) == StopRecording(r)
  {
  }

  /** A failure while starting an already opened stream reports failure yet
      leaves the recording flag set, so a later stop still closes the stream. */
  lemma StartFailureLeavesFlagSet(r: Recorder)
    ensures !StartRecording(r, StartFails).ok
    ensures StartRecording(r, StartFails).recorder.isRecording
    ensures StopRecording(StartRecording(r, StartFails).recorder).stream == Closed
  {
  }
}
