/** Size-driven segmentation of a decoded audio stream (split_audio in app.py).
    An audio stream is abstracted to its encoded byte size and its duration;
    a cut segment is abstracted to its order index and its millisecond
    interval [startMs, endMs). Arithmetic is exact (real, not float). */
module Segmenter {

  /** A decoded audio stream: byte length of its raw data and its duration. */
  datatype AudioStream = AudioStream(sizeBytes: nat, durationSeconds: real)

  /** One element of the list split_audio returns: either the input stream
      itself, unsplit, or the slice [startMs, endMs) with its order index. */
  datatype Chunk =
    | Whole(stream: AudioStream)
    | Slice(index: nat, startMs: real, endMs: real)

  /** Default of the max_size_mb parameter, used by process_audio. */
  const DefaultMaxSizeMb: nat := 25

  const BytesPerMb: nat := 1024 * 1024

  /** The byte budget derived from a budget in megabytes. */
  function MaxSizeBytes(maxSizeMb: nat): nat
  {
    maxSizeMb * BytesPerMb
  }

  /** ceil(n / d) on naturals: the least k with k * d >= n. */
  function CeilDiv(n: nat, d: nat): (q: nat)
    requires d > 0
    ensures q * d >= n
    ensures q == 0 || (q - 1) * d < n
  {
    var q := (n + d - 1) / d;
    assert q * d + (n + d - 1) % d == n + d - 1;
    q
  }

  function Min(a: real, b: real): (m: real)
    ensures m <= a && m <= b
    ensures m == a || m == b
  {
    if a <= b then a else b
  }

  /** Number of parts for a stream over budget. */
  function Parts(sizeBytes: nat, budget: nat): nat
    requires budget > 0
  {
    CeilDiv(sizeBytes, budget)
  }

  /** Nominal duration of every part, in seconds. */
  function ChunkLength(durationSeconds: real, parts: nat): real
    requires parts > 0
  {
    durationSeconds / parts as real
  }

  /** Start of part i, in milliseconds. */
  function StartMs(durationSeconds: real, parts: nat, i: nat): real
    requires parts > 0
  {
    i as real * ChunkLength(durationSeconds, parts) * 1000.0
  }

  /** End of part i, in milliseconds, clipped to the stream's end. */
  function EndMs(durationSeconds: real, parts: nat, i: nat): real
    requires parts > 0
  {
    Min((i + 1) as real * ChunkLength(durationSeconds, parts) * 1000.0, durationSeconds * 1000.0)
  }

  /** The descriptor emitted on iteration i of the splitting loop. */
  function SliceAt(durationSeconds: real, parts: nat, i: nat): Chunk
    requires parts > 0
  {
    Slice(i, StartMs(durationSeconds, parts, i), EndMs(durationSeconds, parts, i))
  }

  /** The list split_audio returns, as a function of its inputs. */
  function Split(audio: AudioStream, maxSizeMb: nat): seq<Chunk>
    requires maxSizeMb > 0
  {
    var budget := MaxSizeBytes(maxSizeMb);
    if audio.sizeBytes <= budget then
      [Whole(audio)]
    else
      var parts := Parts(audio.sizeBytes, budget);
      seq(parts, i requires 0 <= i < parts => SliceAt(audio.durationSeconds, parts, i))
  }

  /** split_audio: return the stream unsplit when it fits the budget,
      otherwise append one slice per part, in ascending order. */
  method SplitAudio(audio: AudioStream, maxSizeMb: nat) returns (chunks: seq<Chunk>)
    requires maxSizeMb > 0
    ensures chunks == Split(audio, maxSizeMb)
  {
    var maxSizeBytes := maxSizeMb * BytesPerMb;
    var durationSeconds := audio.durationSeconds;
    var filesizeBytes := audio.sizeBytes;

    if filesizeBytes <= maxSizeBytes {
      return [Whole(audio)];
    }

    var parts := CeilDiv(filesizeBytes, maxSizeBytes);
    var chunkLength := durationSeconds / parts as real;
    chunks := [];

    for i := 0 to parts
      invariant |chunks| == i
      invariant forall k :: 0 <= k < i ==> chunks[k] == SliceAt(durationSeconds, parts, k)
    {
      var start := i as real * chunkLength * 1000.0;
      var end := Min((i + 1) as real * chunkLength * 1000.0, durationSeconds * 1000.0);
      chunks := chunks + [Slice(i, start, end)];
    }
  }

  // ---------------------------------------------------------------------
  // Properties of the part count

  /** The part count is the least k whose k budgets hold the stream. */
  lemma PartsIsLeast(sizeBytes: nat, budget: nat, k: nat)
    requires budget > 0
    requires k * budget >= sizeBytes
    ensures Parts(sizeBytes, budget) <= k
    ensures Parts(sizeBytes, budget) * budget >= sizeBytes
  {
    var p := Parts(sizeBytes, budget);
    if p > k {
      MulLeMonoNat(k, p - 1, budget);
      assert false;
    }
  }

  /** Multiplication by a natural is monotone. The solver finds this
      nonlinear step only on some random seeds, so the proofs that need it
      call it explicitly. */
  lemma MulLeMonoNat(a: nat, b: nat, c: nat)
    requires a <= b
    ensures a * c <= b * c
  {
  }

  /** A stream over budget is cut into at least two parts. */
  lemma PartsAtLeastTwo(sizeBytes: nat, budget: nat)
    requires budget > 0
    requires sizeBytes > budget
    ensures Parts(sizeBytes, budget) >= 2
  {
    var p := Parts(sizeBytes, budget);
    if p < 2 {
      MulLeMonoNat(p, 1, budget);
      assert false;
    }
  }

  // ---------------------------------------------------------------------
  // Properties of the split

  /** The budget process_audio uses is 25 MiB. */
  lemma DefaultBudget()
    ensures MaxSizeBytes(DefaultMaxSizeMb) == 26214400
  {
  }

  /** Within budget: exactly the input stream, unsplit. Over budget: the
      least number of parts that holds the stream, at least two. */
  lemma SplitCount(audio: AudioStream, maxSizeMb: nat)
    requires maxSizeMb > 0
    ensures audio.sizeBytes <= MaxSizeBytes(maxSizeMb) <==> Split(audio, maxSizeMb) == [Whole(audio)]
    ensures audio.sizeBytes > MaxSizeBytes(maxSizeMb) ==>
              |Split(audio, maxSizeMb)| >= 2 &&
              |Split(audio, maxSizeMb)| * MaxSizeBytes(maxSizeMb) >= audio.sizeBytes &&
              (|Split(audio, maxSizeMb)| - 1) * MaxSizeBytes(maxSizeMb) < audio.sizeBytes
  {
    var budget := MaxSizeBytes(maxSizeMb);
    if audio.sizeBytes > budget {
      PartsAtLeastTwo(audio.sizeBytes, budget);
    }
  }

  /** Over budget: element k is a slice with order index k that starts at
      k times the nominal part length, in milliseconds. */
  lemma SplitSlices(audio: AudioStream, maxSizeMb: nat, k: nat)
    requires maxSizeMb > 0
    requires audio.sizeBytes > MaxSizeBytes(maxSizeMb)
    requires k < |Split(audio, maxSizeMb)|
    ensures Split(audio, maxSizeMb)[k].Slice?
    ensures Split(audio, maxSizeMb)[k].index == k
    ensures Split(audio, maxSizeMb)[k].startMs
            == k as real * (audio.durationSeconds / |Split(audio, maxSizeMb)| as real) * 1000.0
  {
  }

  /** Multiplication by a non-negative real is monotone. Stated and called
      explicitly for the same reason as MulLeMonoNat: without it the real
      lemmas below verify on some random seeds and not on others. */
  lemma MulLeMonoReal(a: real, b: real, c: real)
    requires a <= b && c >= 0.0
    ensures a * c <= b * c
  {
  }

  /** In exact arithmetic the clipping min never bites: for a stream of
      non-negative duration, the nominal end of part i (i < parts) lies
      within the stream, and that of the last part is the stream's end. */
  lemma NominalEndWithin(durationSeconds: real, parts: nat, i: nat)
    requires parts > 0 && i < parts
    requires durationSeconds >= 0.0
    ensures EndMs(durationSeconds, parts, i) == (i + 1) as real * ChunkLength(durationSeconds, parts) * 1000.0
    ensures i == parts - 1 ==> EndMs(durationSeconds, parts, i) == durationSeconds * 1000.0
  {
    var c := ChunkLength(durationSeconds, parts);
    assert c * parts as real == durationSeconds;
    assert c >= 0.0;
    MulLeMonoReal((i + 1) as real, parts as real, c);
    MulLeMonoReal((i + 1) as real * c, durationSeconds, 1000.0);
  }

  /** Every slice lies inside [0, duration * 1000] and is not reversed. */
  lemma SplitBounded(audio: AudioStream, maxSizeMb: nat, k: nat)
    requires maxSizeMb > 0
    requires audio.durationSeconds >= 0.0
    requires k < |Split(audio, maxSizeMb)|
    requires Split(audio, maxSizeMb)[k].Slice?
    ensures 0.0 <= Split(audio, maxSizeMb)[k].startMs <= Split(audio, maxSizeMb)[k].endMs
    ensures Split(audio, maxSizeMb)[k].endMs <= audio.durationSeconds * 1000.0
  {
    var parts := |Split(audio, maxSizeMb)|;
    var c := ChunkLength(audio.durationSeconds, parts);
    assert c >= 0.0;
    NominalEndWithin(audio.durationSeconds, parts, k);
    MulLeMonoReal(k as real, (k + 1) as real, c);
    MulLeMonoReal(k as real * c, (k + 1) as real * c, 1000.0);
  }

  /** Consecutive slices meet: the end of slice k is the start of slice k+1. */
  lemma SplitContiguous(audio: AudioStream, maxSizeMb: nat, k: nat)
    requires maxSizeMb > 0
    requires audio.durationSeconds >= 0.0
    requires audio.sizeBytes > MaxSizeBytes(maxSizeMb)
    requires k + 1 < |Split(audio, maxSizeMb)|
    ensures Split(audio, maxSizeMb)[k].endMs == Split(audio, maxSizeMb)[k + 1].startMs
  {
    NominalEndWithin(audio.durationSeconds, |Split(audio, maxSizeMb)|, k);
  }

  /** Together the slices cover [0, duration * 1000]: the first starts at 0
      and the last ends exactly at the stream's end. */
  lemma SplitCovers(audio: AudioStream, maxSizeMb: nat)
    requires maxSizeMb > 0
    requires audio.durationSeconds >= 0.0
    requires audio.sizeBytes > MaxSizeBytes(maxSizeMb)
    ensures |Split(audio, maxSizeMb)| > 0
    ensures Split(audio, maxSizeMb)[0].startMs == 0.0
    ensures Split(audio, maxSizeMb)[|Split(audio, maxSizeMb)| - 1].endMs == audio.durationSeconds * 1000.0
  {
    var parts := |Split(audio, maxSizeMb)|;
    SplitCount(audio, maxSizeMb);
    NominalEndWithin(audio.durationSeconds, parts, parts - 1);
  }

  /** Slices are emitted in ascending order of start time. */
  lemma SplitAscending(audio: AudioStream, maxSizeMb: nat, j: nat, k: nat)
    requires maxSizeMb > 0
    requires audio.durationSeconds >= 0.0
    requires audio.sizeBytes > MaxSizeBytes(maxSizeMb)
    requires j <= k < |Split(audio, maxSizeMb)|
    ensures Split(audio, maxSizeMb)[j].index <= Split(audio, maxSizeMb)[k].index
    ensures Split(audio, maxSizeMb)[j].startMs <= Split(audio, maxSizeMb)[k].startMs
  {
    var parts := |Split(audio, maxSizeMb)|;
    var c := ChunkLength(audio.durationSeconds, parts);
    assert c >= 0.0;
    MulLeMonoReal(j as real, k as real, c);
    MulLeMonoReal(j as real * c, k as real * c, 1000.0);
  }

  /** Uniform-bitrate share: each of the parts carries at most one budget
      of bytes, i.e. sizeBytes / parts <= budget. */
  lemma SplitShareWithinBudget(audio: AudioStream, maxSizeMb: nat)
    requires maxSizeMb > 0
    ensures audio.sizeBytes as real / |Split(audio, maxSizeMb)| as real <= MaxSizeBytes(maxSizeMb) as real
  {
    SplitCount(audio, maxSizeMb);
  }
}
