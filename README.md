# File-to-audio framing, modelled in Dafny

File-to-audio turns any file into a `.wav` recording and back. `Encode.py` reads the file in chunks of 1024 bytes. It sends each chunk's bytes, followed by the bytes of the file's extension (for example `.bin`), as tones: byte `b` becomes 0.1 s of a sine at `b * 10 + 100` Hz, sampled at 7500 Hz. `Decode.py` cuts the recording into windows of 0.1 s. It reads one byte per window from the window's dominant frequency, `int((freq - 100) / 10)`. Then it finds the extension by scanning back from the end of the recovered bytes to the last `.`, and truncates the output file there.

This project models the integer and byte-level framing on both sides:

- **`common.dfy`** (`Common`): bytes, the separator byte, the segment length `int(sample_rate * duration)`, and list concatenation.
- **`encoder.dfy`** (`Encoder`) covers `Encode.py`:
  - the frequency ladder;
  - chunking, modelled as reads at an advancing file position, like the generator `read_file_in_chunks`;
  - the two `append` loops of `process_chunk_to_frequencies`;
  - the `extend` loop of `main` and the frame order of `write_wave_file`.

  The loops are methods with loop invariants, proved against the functions `Chunks`, `SymbolStream` and `Waveform`.
- **`decoder.dfy`** (`Decoder`) covers `Decode.py`:
  - `analyze_frequencies` is a `while true` loop over window offsets that appends one byte per window to a `ByteFile` object, the output file;
  - `retrieve_extension` is a `while true` loop over the suffix length, ending with an in-place truncation of that object.

  Both are proved against the functions `DecodeWindows`, `ExtensionOf` and `Payload`.
- **`roundtrip.dfy`** (`RoundTrip`) feeds the encoder's waveform to the decoder and states which inputs come back unchanged.

A sample is kept symbolic, as `Sample(frequency, index)`. The decoder is generic over its sample type: the dominant-frequency search is an argument `dominant: seq<S> -> real`. The round trip uses the idealised search `PureTone`, which returns the tone a window was cut from. The decoder windows at the sample rate read from the file's header, and the encoder writes 7500 there (`Encode.py:57`). The 8000 Hz of `Decode.py:20` is only passed to the ffmpeg conversion, which is not modelled.

The code differs in four places from a reading of the protocol that rounds, clamps, sends the extension once per file and scans without bound; the model follows the code:

- **Segment length.** The code computes it with `int()` (truncation), not rounding.
- **Byte mapping.** The code truncates `(freq - 100) / 10` toward zero, and `bytes([...])` rejects a value outside 0..255. There is no rounding and no clamping: `Decoder.FrequencyToByte` returns `None` and the decode stops with `ByteOutOfRange`.
- **Extension framing.** The extension is appended after every chunk, not once per file.
- **Separator scan.** The backward scan for `.` is not unbounded. Once the suffix is longer than the file, the `seek` position is negative and the call fails. The model returns `NoSeparator`.

## Model

| member | source | states |
|---|---|---|
| Common.SegmentLength | Encode.py:28 | `int(sample_rate * duration)` with the duration in ms: `n * 1000 <= rate * ms < (n + 1) * 1000` |
| Encoder.ToneFrequency | Encode.py:42 | the tone of byte `b` lies in 100..2650 Hz, is 100 plus a multiple of 10, and `(f - 100) / 10 == b` recovers the byte |
| Encoder.ToneFrequencyIncreasing | Encode.py:47 | the ladder is strictly increasing, at least 10 Hz between neighbouring bytes, hence injective |
| Encoder.SegmentSamplesValue | Encode.py:18-28 | at 7500 Hz and 0.1 s a segment has 750 samples |
| Encoder.GenerateFrequency | Encode.py:26-29 | a segment has exactly `int(sample_rate * duration)` samples; sample `j` is the tone's sample at time index `j` |
| Encoder.ToneFrequencies | Encode.py:41-48 | one frequency per symbol, in order, each exactly on the ladder (100 plus a multiple of 10) and mapping back to its symbol |
| Encoder.ReadFileInChunks | Encode.py:31-35 | the loop's reads from an advancing position collect exactly the chunks `Chunks(file, chunkSize)` |
| Encoder.ChunksFromStep | Encode.py:34 | a read at the end of the file yields nothing; otherwise it yields the next `chunkSize` bytes, or the rest of the file when fewer remain |
| Encoder.ChunksFlatten | Encode.py:31-35 | concatenating the chunks gives the file back |
| Encoder.ChunkAt | Encode.py:34-35 | chunk `k` is `file[k * size .. min((k + 1) * size, len)]`: chunks are consecutive, non-empty, at most `size` bytes, and all full but the last |
| Encoder.ChunkCount | Encode.py:85 | the number of chunks is `(file_size + CHUNK_SIZE - 1) // CHUNK_SIZE` |
| Encoder.SymbolStreamLength | Encode.py:89-92 | the symbols sent number `len(file) + num_chunks * len(ext)` |
| Encoder.SymbolStreamEmpty | Encode.py:34 | an empty file sends no symbol, not even the extension |
| Encoder.SymbolStreamSingleChunk | Encode.py:37-50 | a file of 1 to `size` bytes is sent as its bytes followed by the extension bytes |
| Encoder.SymbolStreamSplit | Encode.py:89-92 | a file longer than one chunk is sent as the first chunk, the extension, then the later chunks (at least one) each with the extension |
| Encoder.SymbolStreamEndsWithExtension | Encode.py:45-48 | the symbols of a non-empty file end with the extension bytes |
| Encoder.ProcessChunkToFrequencies | Encode.py:37-50 | the two append loops give `len(chunk) + len(ext)` segments: `Tone(chunk[i])` at `i`, then `Tone(ext[i])` at `len(chunk) + i` |
| Encoder.CollectFrequencies | Encode.py:89-92 | the `extend` loop over the chunks gives the tones of the whole symbol stream, in order |
| Encoder.WriteWaveFile | Encode.py:59-61 | the frames are the segments concatenated in list order |
| Encoder.WaveformLength | Encode.py:59-61 | the waveform has `(len(file) + num_chunks * len(ext)) * 750` samples |
| Encoder.WaveformAt | Encode.py:59-61 | sample `j` of segment `i` sits at offset `i * 750 + j` and belongs to the tone of symbol `i`: no gap and no reordering |
| Encoder.EncodeAscii | Encode.py:82 | `bytes(ext, "ascii")` succeeds exactly when every character is below 128, and then gives one byte per character with its code |
| Encoder.EncodeFile | Encode.py:81-95 | main fails exactly when the extension is not ASCII, and otherwise writes the frames `Waveform(file, ext)` |
| Encoder.SymbolStreamOnce | Encode.py:45-48 | with the extension sent once per file, the symbols are the file followed by the extension |
| Encoder.CollectFrequenciesOnce | Encode.py:89-92 | the chunk loop with the extension segments added once, after it, gives the tones of `file + ext` |
| Encoder.EncodeFileOnce | Encode.py:81-95 | main with the extension sent once: fails exactly on a non-ASCII extension, otherwise writes `WaveformOnce(file, ext)` |
| Decoder.Truncate | Decode.py:76 | Python's `int()` on a float truncates toward zero: `n <= x < n + 1` for `x >= 0`, `n - 1 < x <= n` for `x < 0` |
| Decoder.FrequencyToByte | Decode.py:76 | a byte exists exactly for `90 < freq < 2660`; below 100 Hz it is 0; otherwise `100 + 10 v <= freq < 110 + 10 v` |
| Decoder.WindowsFromStep | Decode.py:61-66 | a slice of 0 or 1 samples ends the windows; otherwise the slice is a window and the next one starts `W` samples later |
| Decoder.WindowAt | Decode.py:61-63 | window `k` is `audio[k*W .. min(k*W + W, len)]` with at least 2 samples; windows are contiguous from sample 0 and all but the last hold exactly `W` |
| Decoder.WindowCount | Decode.py:61-66 | no window when `W < 2`; otherwise `len // W` windows, plus one when at least 2 samples are left over |
| Decoder.WindowCountExact | Decode.py:61-78 | a stream of `m * W` samples with `W >= 2` has exactly `m` windows |
| Decoder.DecodeWindowsBytes | Decode.py:63-78 | one byte per window, in window order, up to the first window without a byte; all windows give a byte exactly when the analysis completes |
| Decoder.ByteFile.constructor | Decode.py:58 | a fresh file holds the given bytes |
| Decoder.AnalyzeStep | Decode.py:60-78 | one turn of the loop: it stops on a short slice, fails on a frequency without a byte, or emits the byte and moves on `W` samples |
| Decoder.AnalyzeFrequencies | Decode.py:55-78 | the file is reopened empty and then holds the bytes of the windows; `ok` is false exactly when `bytes` raised, with the bytes written before it kept |
| Decoder.LastDot | Decode.py:85-88 | the position of the last `.`; none exactly when there is no `.` |
| Decoder.DecodeAscii | Decode.py:89 | `decode('ascii')` succeeds exactly when every byte is below 128, and then gives one character per byte with that code |
| Decoder.ExtensionSplit | Decode.py:80-92 | a retrieved extension starts with `.`, has no other `.`, and payload ++ extension is the stream; no separator exactly when there is no `.`; non-ASCII exactly when a byte from the last `.` on is 128 or more; retrieved exactly when there is a `.` and every byte from the last one on is below 128; never `ByteOutOfRange`; on failure the stream is unchanged |
| Decoder.LastComponentOnly | Decode.py:85-91 | the bytes of `a.tar.gz` give the extension `.gz` and leave `a.tar` |
| Decoder.RetrieveExtension | Decode.py:80-92 | the suffix loop returns `ExtensionOf(stream)` and truncates the file in place to `Payload(stream)` |
| Decoder.DecodeFile | Decode.py:127-130 | reading the bytes and then retrieving the extension gives the outcome and final file of `DecodeAudio` |
| RoundTrip.LadderInverse | Decode.py:76 | decoding an exact ladder frequency `100 + 10 v` gives back `v` |
| RoundTrip.WindowMatchesSegment | Encode.py:57 | at the sample rate the encoder writes into the header, the decoder's window is the encoder's 750-sample segment |
| RoundTrip.WindowsOfFlatten | Decode.py:61-66 | cutting a concatenation of pieces of `W >= 2` samples into windows of `W` gives back the pieces |
| RoundTrip.DecodeTones | Decode.py:63-78 | with an ideal peak search, the tone segments of any symbols decode to exactly those symbols, and the analysis completes |
| RoundTrip.DecodeWaveform | Decode.py:127-130 | decoding the encoder's waveform recovers its symbol stream, then splits the extension off it |
| RoundTrip.ExtensionOfFrame | Decode.py:85-91 | for any payload, even one holding `.` bytes, followed by a `splitext` extension in ASCII, the scan returns that extension and the truncation leaves the payload |
| RoundTrip.RoundTrip | Decode.py:128-130 | a file of 1 to 1024 bytes with an extension decodes to the same bytes and the same extension |
| RoundTrip.LargeFileStream | Encode.py:89-92 | for a file over 1024 bytes, what precedes the final extension is longer than the file and starts with the first chunk followed by the extension |
| RoundTrip.LargeFileKeepsExtensions | Encode.py:45-48 | a file over 1024 bytes decodes with the right extension, but the payload keeps `num_chunks - 1` extra extension copies and differs from the file |
| RoundTrip.EmptyFileHasNoExtension | Decode.py:86 | an empty file gives no samples; on zero samples the analysis stage writes nothing and the extension stage fails with no separator at the negative seek. The program itself stops earlier, at `Decode.py:52`, where `np.max` of an empty array raises, so no output file is created |
| Encoder.SymbolsOfChunksNoExtension | Encode.py:45-48 | with no extension bytes, the symbols of the chunks are the chunks joined in order |
| Encoder.SymbolStreamNoExtension | Encode.py:89-92 | a file without an extension (`splitext` gives `""`) is sent as exactly its bytes, whatever its size |
| RoundTrip.NoExtensionFile | Decode.py:80-92 | a file sent without an extension decodes as if its own bytes carried one: it is cut at its last `.` byte, and fails with no separator when it holds no `.` |
| RoundTrip.SplitOfAdotB | Decode.py:85-91 | the bytes of `a.b` split into the payload `a` and the extension `.b` |
| RoundTrip.NoExtensionInvented | Decode.py:127-130 | `a.b` sent without an extension comes back as `a` with the invented extension `.b` |
| RoundTrip.CorrectedRoundTrip | Encode.py:45-48 | with the extension sent once per file, every file, empty or longer than a chunk, decodes to itself and its extension |
| RoundTrip.BinFrame | Encode.py:81-92 | `[0, 255, 65]` with `.bin` sends 7 symbols at 100, 2650, 750, 560, 1080, 1150 and 1200 Hz, in 5250 samples |
| RoundTrip.BinRoundTrip | Decode.py:127-130 | that waveform decodes to `[0, 255, 65]` with the extension `.bin` |

## Left out

- Sine synthesis, int16 quantisation and the `wave` writer (`Encode.py:29`, `Encode.py:54-61`). Samples are kept symbolic, so the model states which tone and which sample index each frame carries, not its value.
- The FFT, the `linspace` frequency axis and `argmax` (`Decode.py:68-74`), and the max-abs normalisation (`Decode.py:52`). The dominant frequency of a window is an argument. The round trip assumes it is exact (`PureTone`), so measurement error, silent input and the empty recording are not modelled. On an empty recording `np.max` raises at `Decode.py:52`, before the output file is opened.
- The float `timestamp` (`Decode.py:57`, `Decode.py:61`, `Decode.py:78`). Window `k` is taken to start at exactly `k * W`. Drift from summing 0.1 repeatedly, which can start a window a sample early, is not modelled.
- The float products `sample_rate * duration` (`Encode.py:28`, `Decode.py:62`) and the float quotient `(freq - 100) / 10` (`Decode.py:76`). They are taken as exact reals, with the duration written as 100 ms. On the ladder frequencies float64 gives the same values.
- I/O and external tools: ffmpeg conversion and the deletion of the input (`Decode.py:28-44`), pydub reading (`Decode.py:46-53`), the file system behind `open`/`seek`/`truncate` (the output file is the `ByteFile` object), `rename_file` (`Decode.py:94-104`), whose result depends on the platform's `os.rename`.
- The command line, `validate_file` and output naming (`Encode.py:63-79`, `Decode.py:106-125`), plus colorama, logging and tqdm.
- `os.path.splitext`: the extension is an input, described by `Encoder.IsSplitExtension` (empty, or `.` followed by no other `.`). The round trip is promised only for a nonempty extension; a file sent without one is covered by `RoundTrip.NoExtensionFile`.
- Encoder.ReadFileInChunks: the generator is modelled as a method that returns all chunks at once. Interleaving with the consumer is not modelled.
- The 8000 Hz of `Decode.py:20`: it only reaches ffmpeg. A `.wav` input is windowed at the rate in its header.
- Decoder.AnalyzeFrequencies: an exception from `bytes` is modelled as `ok == false` with the bytes written so far kept in the file. `main` does not catch it, so the program stops there (`Decoder.DecodeFile` returns `ByteOutOfRange`).

## Findings

| source | as written | input that shows it | evidently intended | confidence | as-written member | corrected member |
|---|---|---|---|---|---|---|
| Encode.py:45-48 | the extension bytes are appended after every chunk, and the decoder strips only the last copy | any file over 1024 bytes, e.g. 1025 zero bytes with `.a`: decodes to 1027 bytes, `file[..1024] + ".a" + file[1024..]` | the extension sent once, after the last chunk, so that decoding restores the file | medium, not executed (the source comment calls the per-chunk copy optional) | RoundTrip.LargeFileKeepsExtensions | RoundTrip.CorrectedRoundTrip |
| Encode.py:89-92 | an empty file has no chunk, so not even its extension is sent | the empty file with `.txt`: no samples are written. The modelled analysis and extension stages then fail with no separator; the program itself stops earlier, at the normalisation of `Decode.py:52`, which raises on an empty array | every file, the empty one included, restored with its extension | medium, not executed | RoundTrip.EmptyFileHasNoExtension | RoundTrip.CorrectedRoundTrip |
