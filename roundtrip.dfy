/** The encoder's waveform fed to the decoder: what comes back, for files that
    fit in one chunk, for longer files, and for the empty file. */
module RoundTrip {
  import opened Common
  import Encoder
  import Decoder

  /** The FFT peak search idealised: a window cut from one tone segment
      has that tone as its dominant frequency. */
  function PureTone(window: seq<Encoder.Sample>): real
  {
    if window == [] then 0.0 else window[0].frequency as real
  }

  /** Decoding inverts encoding exactly on the frequency ladder. */
  lemma LadderInverse(b: Byte)
    ensures Decoder.FrequencyToByte(Encoder.ToneFrequency(b) as real) == Some(b)
  {
    assert (Encoder.ToneFrequency(b) as real - 100.0) / 10.0 == b as real;
  }

  /** The decoder's window length at the encoder's sample rate, which the
      encoder writes into the file's header, is the encoder's segment length. */
  lemma WindowMatchesSegment()
    ensures SegmentLength(Encoder.SampleRate, Decoder.DurationMs) == Encoder.SegmentSamples == 750
  {
  }

  /** Cutting a stream of pieces of `w >= 2` samples into windows of `w`
      gives the pieces back. */
  lemma WindowsOfFlatten<T>(ss: seq<seq<T>>, w: nat)
    requires w >= 2
    requires forall i :: 0 <= i < |ss| ==> |ss[i]| == w
    ensures Decoder.Windows(Flatten(ss), w) == ss
  {
    var audio := Flatten(ss);
    var n := |ss|;
    FlattenUniformLength(ss, w);
    Decoder.WindowCountExact(audio, w, n);
    var ws := Decoder.Windows(audio, w);
    forall k | 0 <= k < n
      ensures ws[k] == ss[k]
    {
      Decoder.WindowAt(audio, w, k);
      MulMonotone(k + 1, n, w);
      assert k * w + w == (k + 1) * w;
      assert ws[k] == audio[k * w..k * w + w];
      forall j | 0 <= j < w
        ensures ws[k][j] == ss[k][j]
      {
        FlattenUniformAt(ss, w, k, j);
      }
    }
  }

  /** With the idealised peak search, the tone segments decode to their
      symbols, every one of them. */
  lemma {:induction false} DecodeTones(symbols: seq<Byte>)
    ensures Decoder.DecodeWindows(Encoder.Tones(symbols), PureTone) == Decoder.Analysis(symbols, true)
    decreases |symbols|
  {
    if symbols != [] {
      var b := symbols[0];
      var tones := Encoder.Tones(symbols);
      assert tones[0] == Encoder.Tone(b);
      assert PureTone(Encoder.Tone(b)) == Encoder.ToneFrequency(b) as real;
      LadderInverse(b);
      assert tones[1..] == Encoder.Tones(symbols[1..]);
      DecodeTones(symbols[1..]);
      assert [b] + symbols[1..] == symbols;
    }
  }

  /** Whatever the encoder sends, the decoder recovers the symbol stream,
      then splits off the suffix from its last '.'. */
  lemma DecodeWaveform(file: seq<Byte>, extData: seq<Byte>)
    ensures var symbols := Encoder.SymbolStream(file, extData, Encoder.ChunkSize);
            Decoder.DecodeAudio(Encoder.SampleRate, Encoder.Waveform(file, extData), PureTone)
            == Decoder.Decoding(Decoder.ExtensionOf(symbols), Decoder.Payload(symbols))
  {
    var symbols := Encoder.SymbolStream(file, extData, Encoder.ChunkSize);
    WindowMatchesSegment();
    WindowsOfFlatten(Encoder.Tones(symbols), Encoder.SegmentSamples);
    DecodeTones(symbols);
  }

  /** The extension bytes `main` appends, when the extension is what
      `os.path.splitext` gives and is ASCII. */
  predicate SendableExtension(extension: string)
  {
    && extension != []
    && Encoder.IsSplitExtension(extension)
    && Encoder.EncodeAscii(extension).Some?
  }

  /** The extension is recovered from behind any payload, even one holding
      '.' bytes, and removing it leaves the payload. */
  lemma ExtensionOfFrame(payload: seq<Byte>, extension: string)
    requires SendableExtension(extension)
    ensures var ext := Encoder.EncodeAscii(extension).value;
            && Decoder.ExtensionOf(payload + ext) == Decoder.Retrieved(extension)
            && Decoder.Payload(payload + ext) == payload
  {
    var ext := Encoder.EncodeAscii(extension).value;
    var s := payload + ext;
    var n := |payload|;
    assert s[n] == Dot;
    forall j | n < j < |s|
      ensures s[j] != Dot
    {
      assert extension[1..][j - n - 1] == extension[j - n];
    }
    assert Decoder.LastDot(s) == Some(n);
    assert s[n..] == ext;
    var back := Decoder.DecodeAscii(ext).value;
    assert back == extension;
    assert s[..|s| - |extension|] == payload;
  }

  /** The round trip: a file of 1 to 1024 bytes with an extension comes back
      as the same bytes and the same extension. */
  lemma RoundTrip(file: seq<Byte>, extension: string)
    requires 1 <= |file| <= Encoder.ChunkSize
    requires SendableExtension(extension)
    ensures Decoder.DecodeAudio(Encoder.SampleRate, Encoder.Waveform(file, Encoder.EncodeAscii(extension).value), PureTone)
         == Decoder.Decoding(Decoder.Retrieved(extension), file)
  {
    var ext := Encoder.EncodeAscii(extension).value;
    Encoder.SymbolStreamSingleChunk(file, ext, Encoder.ChunkSize);
    DecodeWaveform(file, ext);
    ExtensionOfFrame(file, extension);
  }

  /** The symbols main sends for a file longer than one chunk: everything
      before the final extension is longer than the file, and starts with
      the first chunk and a copy of the extension. */
  lemma LargeFileStream(file: seq<Byte>, ext: seq<Byte>)
    requires Encoder.ChunkSize < |file| && ext != []
    ensures var symbols := Encoder.SymbolStream(file, ext, Encoder.ChunkSize);
            var front := symbols[..|symbols| - |ext|];
            && |ext| <= |symbols|
            && symbols == front + ext
            && |front| == |file| + (Encoder.NumChunks(|file|, Encoder.ChunkSize) - 1) * |ext|
            && |front| > |file|
            && file[..Encoder.ChunkSize] + ext <= front
  {
    var c := Encoder.ChunkSize;
    var symbols := Encoder.SymbolStream(file, ext, c);
    Encoder.SymbolStreamEndsWithExtension(file, ext, c);
    var front := symbols[..|symbols| - |ext|];
    assert symbols == front + ext;
    Encoder.SymbolStreamLength(file, ext, c);
    var k := Encoder.NumChunks(|file|, c);
    assert k >= 2 by {
      DivUnique(2048, c, 2, 0);
      assert |file| + c - 1 >= 2048;
    }
    assert (k - 1) * |ext| + |ext| == k * |ext|;
    assert (k - 1) * |ext| >= |ext| by {
      MulMonotone(1, k - 1, |ext|);
    }
    Encoder.SymbolStreamSplit(file, ext, c);
    var rest := Encoder.SymbolsOfChunks(Encoder.ChunksFrom(file, c, c), ext);
    Encoder.SymbolsOfChunksEndWithExtension(Encoder.ChunksFrom(file, c, c), ext);
    assert symbols == file[..c] + ext + rest;
    assert file[..c] + ext <= symbols;
  }

  /** Where the round trip breaks: a file longer than one chunk comes back
      with a copy of the extension after every chunk but the last, so the
      recovered payload is longer than the file. */
  lemma LargeFileKeepsExtensions(file: seq<Byte>, extension: string)
    requires Encoder.ChunkSize < |file|
    requires SendableExtension(extension)
    ensures var ext := Encoder.EncodeAscii(extension).value;
            var d := Decoder.DecodeAudio(Encoder.SampleRate, Encoder.Waveform(file, ext), PureTone);
            && d.outcome == Decoder.Retrieved(extension)
            && |d.contents| == |file| + (Encoder.NumChunks(|file|, Encoder.ChunkSize) - 1) * |ext|
            && file[..Encoder.ChunkSize] + ext <= d.contents
            && d.contents != file
  {
    var ext := Encoder.EncodeAscii(extension).value;
    var symbols := Encoder.SymbolStream(file, ext, Encoder.ChunkSize);
    LargeFileStream(file, ext);
    var front := symbols[..|symbols| - |ext|];
    DecodeWaveform(file, ext);
    ExtensionOfFrame(front, extension);
  }

  /** An empty file sends no samples at all, not even its extension. On zero
      samples the analysis writes nothing and the extension scan fails at
      the negative seek. */
  lemma EmptyFileHasNoExtension(extData: seq<Byte>)
    ensures Encoder.Waveform([], extData) == []
    ensures Decoder.DecodeAudio(Encoder.SampleRate, Encoder.Waveform([], extData), PureTone)
         == Decoder.Decoding(Decoder.NoSeparator, [])
  {
    Encoder.SymbolStreamEmpty(extData, Encoder.ChunkSize);
    DecodeWaveform([], extData);
  }

  /** Sending the extension once, after the last chunk, makes the round trip
      hold for every file, empty or longer than one chunk. */
  lemma CorrectedRoundTrip(file: seq<Byte>, extension: string)
    requires SendableExtension(extension)
    ensures var ext := Encoder.EncodeAscii(extension).value;
            Decoder.DecodeAudio(Encoder.SampleRate, Encoder.WaveformOnce(file, ext), PureTone)
            == Decoder.Decoding(Decoder.Retrieved(extension), file)
  {
    var ext := Encoder.EncodeAscii(extension).value;
    var symbols := Encoder.SymbolStreamOnce(file, ext, Encoder.ChunkSize);
    Encoder.ChunksFlatten(file, Encoder.ChunkSize);
    assert symbols == file + ext;
    WindowMatchesSegment();
    WindowsOfFlatten(Encoder.Tones(symbols), Encoder.SegmentSamples);
    DecodeTones(symbols);
    ExtensionOfFrame(file, extension);
  }

  /** A file sent without an extension: the decoder still cuts the file at
      its last '.' byte and takes what follows for the extension, and finds
      no separator when the file holds no '.'. */
  lemma NoExtensionFile(file: seq<Byte>)
    ensures Decoder.DecodeAudio(Encoder.SampleRate, Encoder.Waveform(file, []), PureTone)
         == Decoder.Decoding(Decoder.ExtensionOf(file), Decoder.Payload(file))
    ensures Dot !in file ==>
              Decoder.DecodeAudio(Encoder.SampleRate, Encoder.Waveform(file, []), PureTone)
              == Decoder.Decoding(Decoder.NoSeparator, file)
  {
    Encoder.SymbolStreamNoExtension(file, Encoder.ChunkSize);
    DecodeWaveform(file, []);
    Decoder.ExtensionSplit(file);
  }

  /** The bytes of `a.b` split at their last '.' into `a` and `.b`. */
  lemma SplitOfAdotB()
    ensures Decoder.ExtensionOf([97, 46, 98]) == Decoder.Retrieved(".b")
    ensures Decoder.Payload([97, 46, 98]) == [97]
  {
    assert forall i :: 0 <= i < 2 ==> ".b"[i] as int < 128;
    assert Encoder.EncodeAscii(".b").value == [46, 98];
    assert SendableExtension(".b");
    ExtensionOfFrame([97], ".b");
    assert [97] + [46, 98] == [97, 46, 98];
  }

  /** `a.b`, sent without an extension, comes back as `a` with an invented
      extension `.b`. */
  lemma NoExtensionInvented()
    ensures Decoder.DecodeAudio(Encoder.SampleRate, Encoder.Waveform([97, 46, 98], []), PureTone)
         == Decoder.Decoding(Decoder.Retrieved(".b"), [97])
  {
    SplitOfAdotB();
    NoExtensionFile([97, 46, 98]);
  }

  /** Three bytes with the extension ".bin": seven symbols at their ladder
      frequencies, 750 samples each. */
  lemma BinFrame()
    ensures Encoder.EncodeAscii(".bin") == Some([46, 98, 105, 110])
    ensures Encoder.SymbolStream([0, 255, 65], [46, 98, 105, 110], Encoder.ChunkSize) == [0, 255, 65, 46, 98, 105, 110]
    ensures Encoder.ToneFrequencies([0, 255, 65, 46, 98, 105, 110]) == [100, 2650, 750, 560, 1080, 1150, 1200]
    ensures |Encoder.Waveform([0, 255, 65], [46, 98, 105, 110])| == 5250
  {
    var file: seq<Byte> := [0, 255, 65];
    var ext: seq<Byte> := [46, 98, 105, 110];
    var r := Encoder.EncodeAscii(".bin");
    assert forall i :: 0 <= i < 4 ==> ".bin"[i] as int < 128;
    assert r.value == ext;
    Encoder.SymbolStreamSingleChunk(file, ext, Encoder.ChunkSize);
    Encoder.WaveformLength(file, ext);
    Encoder.SegmentSamplesValue();
    assert Encoder.NumChunks(3, Encoder.ChunkSize) == 1;
  }

  /** The same three bytes and ".bin" come back from the decoder. */
  lemma BinRoundTrip()
    ensures Decoder.DecodeAudio(Encoder.SampleRate, Encoder.Waveform([0, 255, 65], [46, 98, 105, 110]), PureTone)
         == Decoder.Decoding(Decoder.Retrieved(".bin"), [0, 255, 65])
  {
    BinFrame();
    assert SendableExtension(".bin");
    RoundTrip([0, 255, 65], ".bin");
  }
}
