/** The decoder: the sample stream cut into fixed-length windows, one byte
    per window from its dominant frequency, then the extension split off the
    end of the recovered bytes. */
module Decoder {
  import opened Common

  /** The window duration, 0.1 s, in milliseconds. */
  const DurationMs: nat := 100
  const BaseFrequency: int := 100
  const FrequencyMultiplier: int := 10

  // ---------------------------------------------------------------------
  // Frequency to byte

  /** Python's `int(x)` on a float: truncation toward zero. */
  function Truncate(x: real): (n: int)
    ensures 0.0 <= x ==> 0 <= n && n as real <= x < n as real + 1.0
    ensures x < 0.0 ==> n <= 0 && n as real - 1.0 < x <= n as real
  {
    if x >= 0.0 then x.Floor else -((-x).Floor)
  }

  /** `bytes([int((freq - 100) / 10)])`: the byte of a dominant frequency, or
      None where `bytes` rejects a value outside 0..255. */
  function FrequencyToByte(freq: real): (r: Option<Byte>)
    ensures r.Some? <==> 90.0 < freq < 2660.0
    ensures r.Some? && freq < 100.0 ==> r.value == 0
    ensures r.Some? && 100.0 <= freq ==>
              100.0 + 10.0 * r.value as real <= freq < 110.0 + 10.0 * r.value as real
  {
    var v := Truncate((freq - BaseFrequency as real) / FrequencyMultiplier as real);
    if 0 <= v < 256 then Some(v) else None
  }

  // ---------------------------------------------------------------------
  // Windows

  /** The windows analysed from sample `start` on: consecutive slices of `w`
      samples, until a slice has 0 or 1 samples. */
  function WindowsFrom<S>(audio: seq<S>, w: nat, start: nat): seq<seq<S>>
    decreases if start <= |audio| then |audio| - start else 0
  {
    var segment := Slice(audio, start, start + w);
    if |segment| <= 1 then [] else [segment] + WindowsFrom(audio, w, start + w)
  }

  /** The windows of a whole sample stream. */
  function Windows<S>(audio: seq<S>, w: nat): seq<seq<S>>
  {
    WindowsFrom(audio, w, 0)
  }

  /** One turn of the window cut: no window once a slice holds 0 or 1
      samples, otherwise the slice and the windows after it. */
  lemma WindowsFromStep<S>(audio: seq<S>, w: nat, start: nat)
    ensures var segment := Slice(audio, start, start + w);
            && (|segment| <= 1 ==> WindowsFrom(audio, w, start) == [])
            && (|segment| >= 2 ==> WindowsFrom(audio, w, start) == [segment] + WindowsFrom(audio, w, start + w))
  {
  }

  lemma {:induction false} WindowsFromAt<S>(audio: seq<S>, w: nat, start: nat, k: nat)
    requires k < |WindowsFrom(audio, w, start)|
    ensures WindowsFrom(audio, w, start)[k] == Slice(audio, start + k * w, start + k * w + w)
    ensures |WindowsFrom(audio, w, start)[k]| >= 2
    decreases if start <= |audio| then |audio| - start else 0
  {
    WindowsFromStep(audio, w, start);
    if k > 0 {
      WindowsFromAt(audio, w, start + w, k - 1);
      MulStep(k, w);
    }
  }

  /** Window `k` is the slice from sample `k * w`; windows are contiguous,
      start at sample 0, hold at least 2 samples, and all but the last hold
      exactly `w`. */
  lemma WindowAt<S>(audio: seq<S>, w: nat, k: nat)
    requires k < |Windows(audio, w)|
    ensures k * w + 2 <= |audio|
    ensures Windows(audio, w)[k] == audio[k * w..Min(k * w + w, |audio|)]
    ensures k + 1 < |Windows(audio, w)| ==> |Windows(audio, w)[k]| == w
  {
    var ws := Windows(audio, w);
    var lo := k * w;
    MulMonotone(0, k, w);
    WindowsFromAt(audio, w, 0, k);
    assert ws[k] == Slice(audio, lo, lo + w);
    if k + 1 < |ws| {
      WindowsFromAt(audio, w, 0, k + 1);
      assert (k + 1) * w == lo + w;
      assert |Slice(audio, lo + w, lo + w + w)| >= 2;
    }
  }

  lemma {:induction false} WindowCountSplit<S>(audio: seq<S>, w: nat, start: nat, m: nat, r: nat)
    requires w >= 2 && r < w && start <= |audio| && |audio| - start == m * w + r
    ensures |WindowsFrom(audio, w, start)| == m + (if r >= 2 then 1 else 0)
    decreases m
  {
    WindowsFromStep(audio, w, start);
    if m == 0 {
      if r >= 2 {
        WindowsFromStep(audio, w, start + w);
      }
    } else {
      MulStep(m, w);
      WindowCountSplit(audio, w, start + w, m - 1, r);
    }
  }

  /** The number of windows: none when `w < 2`; otherwise one per full window
      and one more when at least 2 samples are left over. */
  lemma WindowCount<S>(audio: seq<S>, w: nat)
    ensures w < 2 ==> |Windows(audio, w)| == 0
    ensures w >= 2 ==> |Windows(audio, w)| == |audio| / w + (if |audio| % w >= 2 then 1 else 0)
  {
    if w >= 2 {
      WindowCountSplit(audio, w, 0, |audio| / w, |audio| % w);
    }
  }

  /** A stream of exactly `m` windows' worth of samples has `m` windows. */
  lemma WindowCountExact<S>(audio: seq<S>, w: nat, m: nat)
    requires w >= 2 && |audio| == m * w
    ensures |Windows(audio, w)| == m
  {
    WindowCountSplit(audio, w, 0, m, 0);
  }

  // ---------------------------------------------------------------------
  // Bytes of the windows

  /** The bytes written for a list of windows, and whether every window gave
      a byte (otherwise `bytes` raised at window `|bytes|`). */
  datatype Analysis = Analysis(bytes: seq<Byte>, complete: bool)

  /** The bytes `analyze_frequencies` writes for a list of windows.
      `dominant` stands for the FFT peak search of one window. */
  function DecodeWindows<S>(windows: seq<seq<S>>, dominant: seq<S> -> real): Analysis
    decreases |windows|
  {
    if windows == [] then Analysis([], true)
    else match FrequencyToByte(dominant(windows[0]))
      case None => Analysis([], false)
      case Some(b) =>
        var rest := DecodeWindows(windows[1..], dominant);
        Analysis([b] + rest.bytes, rest.complete)
  }

  /** One byte per window, in window order, up to the first window whose
      frequency has no byte; all windows give a byte exactly when the
      analysis completes. */
  lemma {:induction false} DecodeWindowsBytes<S>(windows: seq<seq<S>>, dominant: seq<S> -> real)
    ensures var a := DecodeWindows(windows, dominant);
            && |a.bytes| <= |windows|
            && (a.complete <==> |a.bytes| == |windows|)
            && (forall i :: 0 <= i < |a.bytes| ==> FrequencyToByte(dominant(windows[i])) == Some(a.bytes[i]))
            && (!a.complete ==> FrequencyToByte(dominant(windows[|a.bytes|])).None?)
    decreases |windows|
  {
    if windows != [] && FrequencyToByte(dominant(windows[0])).Some? {
      DecodeWindowsBytes(windows[1..], dominant);
    }
  }

  /** A file of bytes, as the decoder's output file: opened, appended to and
      truncated in place. */
  class ByteFile {
    var contents: seq<Byte>

    constructor (contents: seq<Byte>)
      ensures this.contents == contents
    {
      this.contents := contents;
    }
  }

  /** The bytes `prefix`, then those of the analysis `a`. */
  function Join(prefix: seq<Byte>, a: Analysis): Analysis
  {
    Analysis(prefix + a.bytes, a.complete)
  }

  /** One turn of the analysis loop from sample `start`: stop on a slice of 0
      or 1 samples, fail on a frequency without a byte, or emit the byte and
      go on from `start + w`. */
  lemma AnalyzeStep<S>(audio: seq<S>, w: nat, start: nat, dominant: seq<S> -> real)
    ensures var segment := Slice(audio, start, start + w);
            var here := DecodeWindows(WindowsFrom(audio, w, start), dominant);
            if |segment| <= 1 then here == Analysis([], true)
            else if FrequencyToByte(dominant(segment)).None? then here == Analysis([], false)
            else forall prefix: seq<Byte> ::
                   Join(prefix, here)
                   == Join(prefix + [FrequencyToByte(dominant(segment)).value],
                           DecodeWindows(WindowsFrom(audio, w, start + w), dominant))
  {
    var segment := Slice(audio, start, start + w);
    if |segment| >= 2 {
      var rest := WindowsFrom(audio, w, start + w);
      assert WindowsFrom(audio, w, start) == [segment] + rest;
      assert ([segment] + rest)[1..] == rest;
    }
  }

  /** `analyze_frequencies`: the output file is opened empty ("wb+"); windows
      of `int(DURATION * sample_rate)` samples from sample 0 on each append one
      byte, until a slice has 0 or 1 samples. `ok` is false when `bytes`
      raised; the file then holds the bytes written until then. */
  method AnalyzeFrequencies<S>(sampleRate: nat, audio: seq<S>, dominant: seq<S> -> real, f: ByteFile)
    returns (ok: bool)
    modifies f
    ensures DecodeWindows(Windows(audio, SegmentLength(sampleRate, DurationMs)), dominant) == Analysis(f.contents, ok)
  {
    f.contents := [];
    var w := SegmentLength(sampleRate, DurationMs);
    var start: nat := 0;
    ok := true;
    ghost var whole := DecodeWindows(Windows(audio, w), dominant);
    while true
      invariant whole == Join(f.contents, DecodeWindows(WindowsFrom(audio, w, start), dominant))
      decreases if start <= |audio| then |audio| - start else 0
    {
      var endSample := start + w;
      var segment := Slice(audio, start, endSample);
      AnalyzeStep(audio, w, start, dominant);
      if |segment| == 1 || |segment| == 0 {
        break;
      }
      var b := FrequencyToByte(dominant(segment));
      if b.None? {
        ok := false;
        break;
      }
      f.contents := f.contents + [b.value];
      start := start + w;
    }
  }

  // ---------------------------------------------------------------------
  // The extension

  /** The position of the last separator byte. */
  function LastDot(s: seq<Byte>): (r: Option<nat>)
    ensures r.None? <==> Dot !in s
    ensures r.Some? ==> r.value < |s| && s[r.value] == Dot
    ensures r.Some? ==> forall j :: r.value < j < |s| ==> s[j] != Dot
  {
    if s == [] then None
    else if s[|s| - 1] == Dot then Some(|s| - 1)
    else LastDot(s[..|s| - 1])
  }

  /** `bytes.decode('ascii')`: fails on a byte of 128 or more. */
  function DecodeAscii(bytes: seq<Byte>): (r: Option<string>)
    ensures r.Some? <==> forall i :: 0 <= i < |bytes| ==> bytes[i] < 128
    ensures r.Some? ==> |r.value| == |bytes| && forall i :: 0 <= i < |bytes| ==> r.value[i] as int == bytes[i]
  {
    if forall i :: 0 <= i < |bytes| ==> bytes[i] < 128
    then Some(seq(|bytes|, i requires 0 <= i < |bytes| => bytes[i] as char))
    else None
  }

  /** How decoding ends: the extension recovered, or the error raised. */
  datatype Outcome =
    | Retrieved(extension: string)
    | ByteOutOfRange     // `bytes([...])` got a value outside 0..255
    | NoSeparator        // the suffix grew past the file and the seek went negative
    | NonAsciiExtension  // the suffix from the separator is not ASCII

  /** What `retrieve_extension` returns for a file with contents `s`. */
  function ExtensionOf(s: seq<Byte>): Outcome
  {
    match LastDot(s)
    case None => NoSeparator
    case Some(i) =>
      match DecodeAscii(s[i..])
      case None => NonAsciiExtension
      case Some(e) => Retrieved(e)
  }

  /** The file contents `retrieve_extension` leaves behind. */
  function Payload(s: seq<Byte>): seq<Byte>
  {
    match ExtensionOf(s)
    case Retrieved(e) => if |e| <= |s| then s[..|s| - |e|] else s
    case _ => s
  }

  /** The extension found is the suffix from the last separator: it starts
      with '.', holds no other '.', and payload followed by the extension is
      the whole file; each error happens exactly when its cause is present. */
  lemma ExtensionSplit(s: seq<Byte>)
    ensures ExtensionOf(s).Retrieved? ==>
              var e := ExtensionOf(s).extension;
              && 1 <= |e| <= |s|
              && e[0] == '.' && '.' !in e[1..]
              && Payload(s) == s[..|s| - |e|]
              && forall i :: 0 <= i < |e| ==> e[i] as int == s[|s| - |e| + i]
    ensures ExtensionOf(s) == NoSeparator <==> Dot !in s
    ensures ExtensionOf(s) == NonAsciiExtension <==>
              Dot in s && exists j :: LastDot(s).value <= j < |s| && s[j] >= 128
    ensures !ExtensionOf(s).Retrieved? ==> Payload(s) == s
    ensures !ExtensionOf(s).ByteOutOfRange?
    ensures ExtensionOf(s).Retrieved? <==>
              Dot in s && forall j :: LastDot(s).value <= j < |s| ==> s[j] < 128
  {
    match LastDot(s)
    case None =>
    case Some(i) =>
      var suffix := s[i..];
      if DecodeAscii(suffix).Some? {
        var e := DecodeAscii(suffix).value;
        assert e[0] as int == Dot;
        forall k | 0 <= k < |e[1..]|
          ensures e[1..][k] != '.'
        {
          assert e[1..][k] as int == s[i + 1 + k];
        }
      } else {
        var j :| 0 <= j < |suffix| && suffix[j] >= 128;
        assert s[i + j] >= 128;
      }
  }

  /** Only the last component of a double extension is recovered: the bytes
      of "a.tar.gz" give ".gz" and leave "a.tar". */
  lemma LastComponentOnly()
    ensures ExtensionOf([97, 46, 116, 97, 114, 46, 103, 122]) == Retrieved(".gz")
    ensures Payload([97, 46, 116, 97, 114, 46, 103, 122]) == [97, 46, 116, 97, 114]
  {
    var s: seq<Byte> := [97, 46, 116, 97, 114, 46, 103, 122];
    assert LastDot(s) == Some(5);
    var back := DecodeAscii(s[5..]);
    assert back.Some?;
    assert back.value == ".gz";
  }

  /** `retrieve_extension`: grows the suffix one byte at a time until it
      starts with '.', then truncates the file to the payload. */
  method RetrieveExtension(f: ByteFile) returns (r: Outcome)
    modifies f
    ensures r == ExtensionOf(old(f.contents))
    ensures f.contents == Payload(old(f.contents))
  {
    var extensionLength: nat := 1;
    var filesize := |f.contents|;
    while true
      invariant f.contents == old(f.contents) && filesize == |f.contents|
      invariant 1 <= extensionLength <= filesize + 1
      invariant forall j :: filesize - extensionLength < j < filesize ==> f.contents[j] != Dot
      decreases filesize + 1 - extensionLength
    {
      if filesize - extensionLength < 0 {
        // f.seek(filesize - extension_length) raises
        return NoSeparator;
      }
      var chunk := f.contents[filesize - extensionLength..];
      if chunk[0] == Dot {
        assert LastDot(f.contents) == Some(filesize - extensionLength);
        var retrievedExtension := DecodeAscii(chunk);
        if retrievedExtension.None? {
          return NonAsciiExtension;
        }
        f.contents := f.contents[..filesize - extensionLength];
        return Retrieved(retrievedExtension.value);
      }
      extensionLength := extensionLength + 1;
    }
  }

  // ---------------------------------------------------------------------
  // The whole decoder

  /** The outcome of decoding and the output file's final contents. */
  datatype Decoding = Decoding(outcome: Outcome, contents: seq<Byte>)

  function DecodeAudio<S>(sampleRate: nat, audio: seq<S>, dominant: seq<S> -> real): Decoding
  {
    var a := DecodeWindows(Windows(audio, SegmentLength(sampleRate, DurationMs)), dominant);
    if !a.complete then Decoding(ByteOutOfRange, a.bytes)
    else Decoding(ExtensionOf(a.bytes), Payload(a.bytes))
  }

  /** main, from the samples read to the extension retrieved. */
  method DecodeFile<S>(sampleRate: nat, audio: seq<S>, dominant: seq<S> -> real, f: ByteFile)
    returns (r: Outcome)
    modifies f
    ensures r == DecodeAudio(sampleRate, audio, dominant).outcome
    ensures f.contents == DecodeAudio(sampleRate, audio, dominant).contents
  {
    var ok := AnalyzeFrequencies(sampleRate, audio, dominant, f);
    if !ok {
      return ByteOutOfRange;
    }
    r := RetrieveExtension(f);
  }
}
