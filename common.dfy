/** Values shared by the encoder and the decoder: bytes, the separator byte,
    an Option type, and list concatenation (Python's repeated `extend`). */
module Common {

  /** One element of a Python `bytes` object. */
  type Byte = x: int | 0 <= x < 256

  /** The byte of the ASCII separator character '.'. */
  const Dot: Byte := 46

  datatype Option<T> = None | Some(value: T)

  /** `int(sample_rate * duration)`: the number of samples in one segment
      (encoder) or one window (decoder), the duration given in milliseconds. */
  function SegmentLength(sampleRate: nat, durationMs: nat): (n: nat)
    ensures n * 1000 <= sampleRate * durationMs < (n + 1) * 1000
  {
    sampleRate * durationMs / 1000
  }

  function Min(a: int, b: int): int
  {
    if a <= b then a else b
  }

  /** `s[lo:hi]` with Python's clamping of bounds past the end; also what
      `file.read(n)` returns with the file position at `lo` and `hi == lo + n`. */
  function Slice<S>(s: seq<S>, lo: nat, hi: nat): seq<S>
    requires lo <= hi
  {
    s[Min(lo, |s|)..Min(hi, |s|)]
  }

  /** The sequences of `ss` joined in list order. */
  function Flatten<T>(ss: seq<seq<T>>): seq<T>
  {
    if ss == [] then [] else Flatten(ss[..|ss| - 1]) + ss[|ss| - 1]
  }

  lemma {:induction false} FlattenAppend<T>(a: seq<seq<T>>, b: seq<seq<T>>)
    ensures Flatten(a + b) == Flatten(a) + Flatten(b)
    decreases |b|
  {
    if b == [] {
      assert a + b == a;
    } else {
      var b' := b[..|b| - 1];
      var last := b[|b| - 1];
      assert (a + b)[..|a + b| - 1] == a + b';
      assert (a + b)[|a + b| - 1] == last;
      assert Flatten(b) == Flatten(b') + last;
      FlattenAppend(a, b');
      assert Flatten(a + b) == Flatten(a + b') + last;
    }
  }

  lemma FlattenCons<T>(s: seq<T>, rest: seq<seq<T>>)
    ensures Flatten([s] + rest) == s + Flatten(rest)
  {
    FlattenAppend([s], rest);
    assert [s][..0] == [];
  }

  /** When every piece has `w` elements, the joined sequence has `|ss| * w` elements. */
  lemma {:induction false} FlattenUniformLength<T>(ss: seq<seq<T>>, w: nat)
    requires forall i :: 0 <= i < |ss| ==> |ss[i]| == w
    ensures |Flatten(ss)| == |ss| * w
    decreases |ss|
  {
    if ss != [] {
      var n := |ss|;
      FlattenUniformLength(ss[..n - 1], w);
      assert (n - 1) * w + w == n * w;
    }
  }

  /** When every piece has `w` elements, element `j` of piece `i` sits at
      offset `i * w + j` of the joined sequence. */
  lemma {:induction false} FlattenUniformAt<T>(ss: seq<seq<T>>, w: nat, i: nat, j: nat)
    requires forall k :: 0 <= k < |ss| ==> |ss[k]| == w
    requires i < |ss| && j < w
    ensures i * w + j < |Flatten(ss)| && Flatten(ss)[i * w + j] == ss[i][j]
    decreases |ss|
  {
    var n := |ss|;
    var init := ss[..n - 1];
    FlattenUniformLength(init, w);
    assert Flatten(ss) == Flatten(init) + ss[n - 1];
    assert |Flatten(init)| == (n - 1) * w;
    if i < n - 1 {
      FlattenUniformAt(init, w, i, j);
      assert init[i] == ss[i];
    } else {
      assert i * w + j == (n - 1) * w + j;
    }
  }

  lemma MulMonotone(a: nat, b: nat, w: nat)
    requires a <= b
    ensures a * w <= b * w
  {
    assert b * w == a * w + (b - a) * w;
  }

  lemma MulStep(k: nat, w: nat)
    requires k > 0
    ensures k * w == (k - 1) * w + w
  {
  }

  /** Euclidean division is determined by quotient and remainder. */
  lemma DivUnique(a: nat, d: nat, q: nat, r: nat)
    requires d > 0 && 0 <= r < d && a == q * d + r
    ensures a / d == q && a % d == r
  {
    var q', r' := a / d, a % d;
    assert a == q' * d + r';
    if q' < q {
      MulMonotone(q' + 1, q, d);
      assert false;
    } else if q < q' {
      MulMonotone(q + 1, q', d);
      assert false;
    }
  }
}
