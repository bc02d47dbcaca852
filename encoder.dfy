/** The encoder: a file's bytes, cut into chunks, each chunk followed by the
    file's extension, every byte sent as one fixed-length tone segment. */
module Encoder {
  import opened Common

  const SampleRate: nat := 7500
  const BaseFrequency: int := 100
  const FrequencyMultiplier: int := 10
  /** The segment duration, 0.1 s, in milliseconds. */
  const DurationMs: nat := 100
  const ChunkSize: nat := 1024

  // ---------------------------------------------------------------------
  // Tones

  /** The tone that carries byte `b`, in Hz. */
  function ToneFrequency(b: Byte): (f: int)
    ensures BaseFrequency <= f <= BaseFrequency + 255 * FrequencyMultiplier
    ensures (f - BaseFrequency) % FrequencyMultiplier == 0
    ensures (f - BaseFrequency) / FrequencyMultiplier == b
  {
    b * FrequencyMultiplier + BaseFrequency
  }

  /** Distinct bytes get distinct tones: the ladder is strictly increasing. */
  lemma ToneFrequencyIncreasing(a: Byte, b: Byte)
    requires a < b
    ensures ToneFrequency(a) + FrequencyMultiplier <= ToneFrequency(b)
  {
  }

  /** The segment length at the encoder's defaults. */
  const SegmentSamples: nat := SegmentLength(SampleRate, DurationMs)

  lemma SegmentSamplesValue()
    ensures SegmentSamples == 750
  {
  }

  /** Sample number `index` of a tone of `frequency` Hz. The sample's value,
      `amplitude * sin(2 pi frequency index / sample_rate)`, is a function of
      these two numbers and the sample rate, so it is kept symbolic. */
  datatype Sample = Sample(frequency: int, index: nat)

  /** One segment: the first `int(sample_rate * duration)` samples of the tone,
      taken at times 0, 1/sample_rate, 2/sample_rate, ... */
  function GenerateFrequency(frequency: int, durationMs: nat, sampleRate: nat): (segment: seq<Sample>)
    ensures |segment| == SegmentLength(sampleRate, durationMs)
    ensures forall j :: 0 <= j < |segment| ==> segment[j].frequency == frequency && segment[j].index == j
  {
    var n := SegmentLength(sampleRate, durationMs);
    seq(n, j requires 0 <= j < n => Sample(frequency, j))
  }

  /** The segment for byte `b`, at the default duration and sample rate. */
  function Tone(b: Byte): seq<Sample>
  {
    GenerateFrequency(ToneFrequency(b), DurationMs, SampleRate)
  }

  /** The segments for a list of symbols, in order. */
  function Tones(symbols: seq<Byte>): seq<seq<Sample>>
  {
    seq(|symbols|, i requires 0 <= i < |symbols| => Tone(symbols[i]))
  }

  lemma TonesAppend(a: seq<Byte>, b: seq<Byte>)
    ensures Tones(a + b) == Tones(a) + Tones(b)
  {
  }

  /** The ladder frequencies of a list of symbols, one per symbol. */
  function ToneFrequencies(symbols: seq<Byte>): (fs: seq<int>)
    ensures |fs| == |symbols|
    ensures forall i :: 0 <= i < |symbols| ==>
              BaseFrequency <= fs[i] && (fs[i] - BaseFrequency) % FrequencyMultiplier == 0
    ensures forall i :: 0 <= i < |symbols| ==> (fs[i] - BaseFrequency) / FrequencyMultiplier == symbols[i]
  {
    seq(|symbols|, i requires 0 <= i < |symbols| => ToneFrequency(symbols[i]))
  }

  // ---------------------------------------------------------------------
  // Chunks

  /** The chunks `read_file_in_chunks` yields once the file position is at
      `pos`: reads of `chunkSize` bytes until a read comes back empty. */
  function ChunksFrom(file: seq<Byte>, chunkSize: nat, pos: nat): seq<seq<Byte>>
    requires pos <= |file|
    decreases |file| - pos
  {
    var chunk := Slice(file, pos, pos + chunkSize);
    if |chunk| == 0 then [] else [chunk] + ChunksFrom(file, chunkSize, pos + |chunk|)
  }

  /** The chunks of a whole file, read from its start. */
  function Chunks(file: seq<Byte>, chunkSize: nat): seq<seq<Byte>>
  {
    ChunksFrom(file, chunkSize, 0)
  }

  /** `read_file_in_chunks`, its yields collected in order. */
  method ReadFileInChunks(file: seq<Byte>, chunkSize: nat) returns (chunks: seq<seq<Byte>>)
    ensures chunks == Chunks(file, chunkSize)
  {
    chunks := [];
    var pos: nat := 0;
    var chunk := Slice(file, pos, pos + chunkSize);
    while chunk != []
      invariant pos <= |file|
      invariant chunk == Slice(file, pos, pos + chunkSize)
      invariant chunks + ChunksFrom(file, chunkSize, pos) == Chunks(file, chunkSize)
      decreases |file| - pos
    {
      assert ChunksFrom(file, chunkSize, pos) == [chunk] + ChunksFrom(file, chunkSize, pos + |chunk|);
      assert chunks + ([chunk] + ChunksFrom(file, chunkSize, pos + |chunk|))
          == (chunks + [chunk]) + ChunksFrom(file, chunkSize, pos + |chunk|);
      chunks := chunks + [chunk];
      pos := pos + |chunk|;
      chunk := Slice(file, pos, pos + chunkSize);
    }
    assert chunks + [] == chunks;
  }

  /** The number of chunks main announces: `(file_size + CHUNK_SIZE - 1) // CHUNK_SIZE`. */
  function NumChunks(fileSize: nat, chunkSize: nat): nat
    requires chunkSize > 0
  {
    (fileSize + chunkSize - 1) / chunkSize
  }

  /** One read: nothing at the end of the file, otherwise the next
      `chunkSize` bytes, or fewer at the end, then the chunks after them. */
  lemma ChunksFromStep(file: seq<Byte>, chunkSize: nat, pos: nat)
    requires pos <= |file|
    ensures pos == |file| || chunkSize == 0 ==> ChunksFrom(file, chunkSize, pos) == []
    ensures pos < |file| && chunkSize > 0 ==>
              var end := Min(pos + chunkSize, |file|);
              pos < end && ChunksFrom(file, chunkSize, pos) == [file[pos..end]] + ChunksFrom(file, chunkSize, end)
  {
  }

  lemma {:induction false} ChunksFromFlatten(file: seq<Byte>, chunkSize: nat, pos: nat)
    requires chunkSize > 0 && pos <= |file|
    ensures Flatten(ChunksFrom(file, chunkSize, pos)) == file[pos..]
    decreases |file| - pos
  {
    ChunksFromStep(file, chunkSize, pos);
    if pos < |file| {
      var end := Min(pos + chunkSize, |file|);
      ChunksFromFlatten(file, chunkSize, end);
      FlattenCons(file[pos..end], ChunksFrom(file, chunkSize, end));
      assert file[pos..end] + file[end..] == file[pos..];
    }
  }

  /** Joining the chunks gives the file back. */
  lemma ChunksFlatten(file: seq<Byte>, chunkSize: nat)
    requires chunkSize > 0
    ensures Flatten(Chunks(file, chunkSize)) == file
  {
    ChunksFromFlatten(file, chunkSize, 0);
  }

  lemma {:induction false} ChunksFromAt(file: seq<Byte>, chunkSize: nat, pos: nat, k: nat)
    requires pos <= |file| && k < |ChunksFrom(file, chunkSize, pos)|
    ensures pos + k * chunkSize < |file|
    ensures ChunksFrom(file, chunkSize, pos)[k] == Slice(file, pos + k * chunkSize, pos + k * chunkSize + chunkSize)
    decreases |file| - pos
  {
    var chunk := Slice(file, pos, pos + chunkSize);
    var rest := ChunksFrom(file, chunkSize, pos + |chunk|);
    assert |chunk| > 0;
    assert ChunksFrom(file, chunkSize, pos) == [chunk] + rest;
    if k > 0 {
      ChunksFromAt(file, chunkSize, pos + |chunk|, k - 1);
      assert |chunk| == chunkSize;
      MulStep(k, chunkSize);
    }
  }

  /** Chunk `k` is the slice of the file from `k * chunkSize`, of `chunkSize`
      bytes or up to the end of the file: chunks are consecutive, non-empty,
      and all full except possibly the last. */
  lemma ChunkAt(file: seq<Byte>, chunkSize: nat, k: nat)
    requires k < |Chunks(file, chunkSize)|
    ensures k * chunkSize < |file|
    ensures Chunks(file, chunkSize)[k] == file[k * chunkSize..Min(k * chunkSize + chunkSize, |file|)]
    ensures 0 < |Chunks(file, chunkSize)[k]| <= chunkSize
    ensures k + 1 < |Chunks(file, chunkSize)| ==> |Chunks(file, chunkSize)[k]| == chunkSize
  {
    MulMonotone(0, k, chunkSize);
    ChunksFromAt(file, chunkSize, 0, k);
    if k + 1 < |Chunks(file, chunkSize)| {
      ChunksFromAt(file, chunkSize, 0, k + 1);
      MulStep(k + 1, chunkSize);
    }
  }

  lemma {:induction false} ChunkCountSplit(file: seq<Byte>, chunkSize: nat, pos: nat, m: nat, r: nat)
    requires chunkSize > 0 && r < chunkSize && pos <= |file| && |file| - pos == m * chunkSize + r
    ensures |ChunksFrom(file, chunkSize, pos)| == m + (if r > 0 then 1 else 0)
    decreases m
  {
    ChunksFromStep(file, chunkSize, pos);
    if m == 0 {
      if r > 0 {
        ChunksFromStep(file, chunkSize, |file|);
      }
    } else {
      MulStep(m, chunkSize);
      MulMonotone(0, m - 1, chunkSize);
      ChunkCountSplit(file, chunkSize, pos + chunkSize, m - 1, r);
    }
  }

  /** There are `ceil(size / chunkSize)` chunks, the count main computes. */
  lemma ChunkCount(file: seq<Byte>, chunkSize: nat)
    requires chunkSize > 0
    ensures |Chunks(file, chunkSize)| == NumChunks(|file|, chunkSize)
  {
    var m, r := |file| / chunkSize, |file| % chunkSize;
    assert |file| == m * chunkSize + r;
    ChunkCountSplit(file, chunkSize, 0, m, r);
    var total := |file| + chunkSize - 1;
    if r == 0 {
      assert total == m * chunkSize + (chunkSize - 1);
      DivUnique(total, chunkSize, m, chunkSize - 1);
    } else {
      MulStep(m + 1, chunkSize);
      assert total == (m + 1) * chunkSize + (r - 1);
      DivUnique(total, chunkSize, m + 1, r - 1);
    }
  }

  // ---------------------------------------------------------------------
  // Symbols

  /** The symbols of a list of chunks: every chunk followed by the extension. */
  function SymbolsOfChunks(chunks: seq<seq<Byte>>, extData: seq<Byte>): seq<Byte>
  {
    if chunks == [] then []
    else SymbolsOfChunks(chunks[..|chunks| - 1], extData) + chunks[|chunks| - 1] + extData
  }

  /** The whole symbol sequence main sends for a file. */
  function SymbolStream(file: seq<Byte>, extData: seq<Byte>, chunkSize: nat): seq<Byte>
  {
    SymbolsOfChunks(Chunks(file, chunkSize), extData)
  }

  lemma {:induction false} SymbolsOfChunksAppend(a: seq<seq<Byte>>, b: seq<seq<Byte>>, extData: seq<Byte>)
    ensures SymbolsOfChunks(a + b, extData) == SymbolsOfChunks(a, extData) + SymbolsOfChunks(b, extData)
    decreases |b|
  {
    if b == [] {
      assert a + b == a;
    } else {
      var b' := b[..|b| - 1];
      assert (a + b)[..|a + b| - 1] == a + b';
      SymbolsOfChunksAppend(a, b', extData);
    }
  }

  lemma {:induction false} SymbolsOfChunksLength(chunks: seq<seq<Byte>>, extData: seq<Byte>)
    ensures |SymbolsOfChunks(chunks, extData)| == |Flatten(chunks)| + |chunks| * |extData|
    decreases |chunks|
  {
    if chunks != [] {
      var n := |chunks|;
      SymbolsOfChunksLength(chunks[..n - 1], extData);
      assert (n - 1) * |extData| + |extData| == n * |extData|;
    }
  }

  /** The symbol sequence is as long as the file plus one extension per chunk. */
  lemma SymbolStreamLength(file: seq<Byte>, extData: seq<Byte>, chunkSize: nat)
    requires chunkSize > 0
    ensures |SymbolStream(file, extData, chunkSize)| == |file| + NumChunks(|file|, chunkSize) * |extData|
  {
    SymbolsOfChunksLength(Chunks(file, chunkSize), extData);
    ChunksFlatten(file, chunkSize);
    ChunkCount(file, chunkSize);
  }

  /** An empty file has no chunk, so not even the extension is sent. */
  lemma SymbolStreamEmpty(extData: seq<Byte>, chunkSize: nat)
    ensures SymbolStream([], extData, chunkSize) == []
  {
  }

  /** Without an extension, the symbols of the chunks are the chunks joined. */
  lemma {:induction false} SymbolsOfChunksNoExtension(chunks: seq<seq<Byte>>)
    ensures SymbolsOfChunks(chunks, []) == Flatten(chunks)
    decreases |chunks|
  {
    if chunks != [] {
      SymbolsOfChunksNoExtension(chunks[..|chunks| - 1]);
    }
  }

  /** A file without an extension (`splitext` gives "" for `Makefile`) is
      sent as its bytes alone, whatever its size. */
  lemma SymbolStreamNoExtension(file: seq<Byte>, chunkSize: nat)
    requires chunkSize > 0
    ensures SymbolStream(file, [], chunkSize) == file
  {
    SymbolsOfChunksNoExtension(Chunks(file, chunkSize));
    ChunksFlatten(file, chunkSize);
  }

  /** A file that fits in one chunk is sent as its bytes followed by the extension. */
  lemma SymbolStreamSingleChunk(file: seq<Byte>, extData: seq<Byte>, chunkSize: nat)
    requires 0 < |file| <= chunkSize
    ensures SymbolStream(file, extData, chunkSize) == file + extData
  {
    ChunksFromStep(file, chunkSize, 0);
    ChunksFromStep(file, chunkSize, |file|);
    var one: seq<seq<Byte>> := [file];
    assert file[0..|file|] == file;
    assert Chunks(file, chunkSize) == one;
    assert one[..0] == [];
    assert SymbolsOfChunks(one, extData) == SymbolsOfChunks(one[..0], extData) + file + extData;
  }

  /** A non-empty list of chunks is sent ending with the extension. */
  lemma SymbolsOfChunksEndWithExtension(chunks: seq<seq<Byte>>, extData: seq<Byte>)
    requires chunks != []
    ensures |extData| <= |SymbolsOfChunks(chunks, extData)|
    ensures SymbolsOfChunks(chunks, extData)[|SymbolsOfChunks(chunks, extData)| - |extData|..] == extData
  {
    var s := SymbolsOfChunks(chunks, extData);
    assert s == SymbolsOfChunks(chunks[..|chunks| - 1], extData) + chunks[|chunks| - 1] + extData;
  }

  /** A file longer than one chunk: the first chunk, the extension, then the
      chunks read after the first, which exist, sent the same way. */
  lemma SymbolStreamSplit(file: seq<Byte>, extData: seq<Byte>, chunkSize: nat)
    requires 0 < chunkSize < |file|
    ensures ChunksFrom(file, chunkSize, chunkSize) != []
    ensures SymbolStream(file, extData, chunkSize)
         == file[..chunkSize] + extData + SymbolsOfChunks(ChunksFrom(file, chunkSize, chunkSize), extData)
  {
    var chunk := Slice(file, 0, chunkSize);
    assert chunk == file[..chunkSize];
    var rest := ChunksFrom(file, chunkSize, chunkSize);
    assert Chunks(file, chunkSize) == [chunk] + rest;
    assert |Slice(file, chunkSize, chunkSize + chunkSize)| > 0;
    SymbolsOfChunksAppend([chunk], rest, extData);
    assert SymbolsOfChunks([chunk], extData) == chunk + extData by {
      var one: seq<seq<Byte>> := [chunk];
      assert one[..0] == [];
    }
  }

  /** A non-empty file's symbol sequence ends with the extension. */
  lemma SymbolStreamEndsWithExtension(file: seq<Byte>, extData: seq<Byte>, chunkSize: nat)
    requires file != [] && chunkSize > 0
    ensures |extData| <= |SymbolStream(file, extData, chunkSize)|
    ensures SymbolStream(file, extData, chunkSize)[|SymbolStream(file, extData, chunkSize)| - |extData|..] == extData
  {
    ChunksFromStep(file, chunkSize, 0);
    SymbolsOfChunksEndWithExtension(Chunks(file, chunkSize), extData);
  }

  // ---------------------------------------------------------------------
  // The encoding loops

  /** `process_chunk_to_frequencies`: one segment per chunk byte, then one per
      extension byte. */
  method ProcessChunkToFrequencies(chunk: seq<Byte>, extData: seq<Byte>) returns (frequencies: seq<seq<Sample>>)
    ensures |frequencies| == |chunk| + |extData|
    ensures forall i :: 0 <= i < |chunk| ==> frequencies[i] == Tone(chunk[i])
    ensures forall i :: 0 <= i < |extData| ==> frequencies[|chunk| + i] == Tone(extData[i])
    ensures frequencies == Tones(chunk + extData)
  {
    frequencies := [];
    for k := 0 to |chunk|
      invariant |frequencies| == k
      invariant forall i :: 0 <= i < k ==> frequencies[i] == Tone(chunk[i])
    {
      var freq := GenerateFrequency(chunk[k] * FrequencyMultiplier + BaseFrequency, DurationMs, SampleRate);
      frequencies := frequencies + [freq];
    }
    for k := 0 to |extData|
      invariant |frequencies| == |chunk| + k
      invariant forall i :: 0 <= i < |chunk| ==> frequencies[i] == Tone(chunk[i])
      invariant forall i :: 0 <= i < k ==> frequencies[|chunk| + i] == Tone(extData[i])
    {
      var freq := GenerateFrequency(extData[k] * FrequencyMultiplier + BaseFrequency, DurationMs, SampleRate);
      frequencies := frequencies + [freq];
    }
  }

  /** The accumulation loop of main: the segments of every chunk, extension
      included, in chunk order. */
  method CollectFrequencies(file: seq<Byte>, extData: seq<Byte>, chunkSize: nat) returns (allFrequencies: seq<seq<Sample>>)
    ensures allFrequencies == Tones(SymbolStream(file, extData, chunkSize))
  {
    var chunks := ReadFileInChunks(file, chunkSize);
    allFrequencies := [];
    for i := 0 to |chunks|
      invariant allFrequencies == Tones(SymbolsOfChunks(chunks[..i], extData))
    {
      var frequencies := ProcessChunkToFrequencies(chunks[i], extData);
      assert chunks[..i + 1][..i] == chunks[..i];
      TonesAppend(SymbolsOfChunks(chunks[..i], extData), chunks[i] + extData);
      assert SymbolsOfChunks(chunks[..i + 1], extData) == SymbolsOfChunks(chunks[..i], extData) + (chunks[i] + extData);
      allFrequencies := allFrequencies + frequencies;
    }
    assert chunks[..|chunks|] == chunks;
  }

  /** `write_wave_file`: the frames written are the segments one after another. */
  method WriteWaveFile(frequencies: seq<seq<Sample>>) returns (frames: seq<Sample>)
    ensures frames == Flatten(frequencies)
  {
    frames := [];
    for i := 0 to |frequencies|
      invariant frames == Flatten(frequencies[..i])
    {
      assert frequencies[..i + 1][..i] == frequencies[..i];
      frames := frames + frequencies[i];
    }
    assert frequencies[..|frequencies|] == frequencies;
  }

  // ---------------------------------------------------------------------
  // The whole encoder

  /** The frames written for a file whose extension has bytes `extData`. */
  function Waveform(file: seq<Byte>, extData: seq<Byte>): seq<Sample>
  {
    Flatten(Tones(SymbolStream(file, extData, ChunkSize)))
  }

  /** The waveform has exactly one segment per symbol. */
  lemma WaveformLength(file: seq<Byte>, extData: seq<Byte>)
    ensures |Waveform(file, extData)| == (|file| + NumChunks(|file|, ChunkSize) * |extData|) * SegmentSamples
  {
    var symbols := SymbolStream(file, extData, ChunkSize);
    FlattenUniformLength(Tones(symbols), SegmentSamples);
    SymbolStreamLength(file, extData, ChunkSize);
  }

  /** Segments follow one another in symbol order, with no gap or overlap:
      sample `j` of segment `i` is at offset `i * SegmentSamples + j`. */
  lemma WaveformAt(file: seq<Byte>, extData: seq<Byte>, i: nat, j: nat)
    requires i < |SymbolStream(file, extData, ChunkSize)| && j < SegmentSamples
    ensures i * SegmentSamples + j < |Waveform(file, extData)|
    ensures Waveform(file, extData)[i * SegmentSamples + j]
         == Sample(ToneFrequency(SymbolStream(file, extData, ChunkSize)[i]), j)
  {
    var symbols := SymbolStream(file, extData, ChunkSize);
    FlattenUniformAt(Tones(symbols), SegmentSamples, i, j);
  }

  /** The separator that `os.path.splitext` leaves at the head of an
      extension: empty, or '.' followed by characters other than '.'. */
  predicate IsSplitExtension(extension: string)
  {
    extension == [] || (extension[0] == '.' && '.' !in extension[1..])
  }

  /** `bytes(ext, "ascii")`: fails on a character outside ASCII. */
  function EncodeAscii(s: string): (r: Option<seq<Byte>>)
    ensures r.Some? <==> forall i :: 0 <= i < |s| ==> s[i] as int < 128
    ensures r.Some? ==> |r.value| == |s| && forall i :: 0 <= i < |s| ==> r.value[i] == s[i] as int
  {
    if forall i :: 0 <= i < |s| ==> s[i] as int < 128
    then Some(seq(|s|, i requires 0 <= i < |s| => s[i] as int))
    else None
  }

  /** main: the frames written for `file` and its extension, or nothing when
      the extension is not ASCII. */
  method EncodeFile(file: seq<Byte>, extension: string) returns (r: Option<seq<Sample>>)
    ensures r.None? <==> EncodeAscii(extension).None?
    ensures r.Some? ==> r.value == Waveform(file, EncodeAscii(extension).value)
  {
    var extByte := EncodeAscii(extension);
    if extByte.None? {
      return None;
    }
    var allFrequencies := CollectFrequencies(file, extByte.value, ChunkSize);
    var frames := WriteWaveFile(allFrequencies);
    return Some(frames);
  }

  // ---------------------------------------------------------------------
  // The extension sent once per file

  /** The symbols with the extension sent once, after the last chunk, instead
      of after every chunk: the file followed by its extension. */
  function SymbolStreamOnce(file: seq<Byte>, extData: seq<Byte>, chunkSize: nat): (symbols: seq<Byte>)
    requires chunkSize > 0
    ensures symbols == file + extData
  {
    ChunksFlatten(file, chunkSize);
    Flatten(Chunks(file, chunkSize)) + extData
  }

  /** The frames written when the extension is sent once per file. */
  function WaveformOnce(file: seq<Byte>, extData: seq<Byte>): seq<Sample>
  {
    Flatten(Tones(SymbolStreamOnce(file, extData, ChunkSize)))
  }

  /** The accumulation loop of main with the extension segments added once,
      after the loop over the chunks. */
  method CollectFrequenciesOnce(file: seq<Byte>, extData: seq<Byte>, chunkSize: nat) returns (allFrequencies: seq<seq<Sample>>)
    requires chunkSize > 0
    ensures allFrequencies == Tones(file + extData)
  {
    var chunks := ReadFileInChunks(file, chunkSize);
    allFrequencies := [];
    for i := 0 to |chunks|
      invariant allFrequencies == Tones(Flatten(chunks[..i]))
    {
      var frequencies := ProcessChunkToFrequencies(chunks[i], []);
      assert chunks[..i + 1][..i] == chunks[..i];
      assert chunks[i] + [] == chunks[i];
      TonesAppend(Flatten(chunks[..i]), chunks[i]);
      allFrequencies := allFrequencies + frequencies;
    }
    assert chunks[..|chunks|] == chunks;
    ChunksFlatten(file, chunkSize);
    var tail := ProcessChunkToFrequencies([], extData);
    assert [] + extData == extData;
    TonesAppend(file, extData);
    allFrequencies := allFrequencies + tail;
  }

  /** main with the extension segments sent once per file. */
  method EncodeFileOnce(file: seq<Byte>, extension: string) returns (r: Option<seq<Sample>>)
    ensures r.None? <==> EncodeAscii(extension).None?
    ensures r.Some? ==> r.value == WaveformOnce(file, EncodeAscii(extension).value)
  {
    var extByte := EncodeAscii(extension);
    if extByte.None? {
      return None;
    }
    var allFrequencies := CollectFrequenciesOnce(file, extByte.value, ChunkSize);
    var frames := WriteWaveFile(allFrequencies);
    return Some(frames);
  }
}
