/**
 * The RGB histogram of video.c (lines 45-53): every pixel of every row adds one
 * to bin `k * 256 + value` for each of its three channels `k`.
 */
module Histograms {
  import opened Base
  import opened Frames

  predicate IsBin(x: int) {
    0 <= x < HistSize
  }

  /** True when `x` is one of the 256 bins of channel `k`. */
  predicate InChannel(x: int, k: nat) {
    k * Levels <= x < k * Levels + Levels
  }

  /** The three bins pixel `i` of row `j` increments, in channel order. */
  function PixelBins(f: Frame, j: nat, i: nat): (s: seq<int>)
    requires WellFormed(f) && j < f.height && i < f.width
  {
    [PixelByte(f, j, i, 0), Levels + PixelByte(f, j, i, 1), 2 * Levels + PixelByte(f, j, i, 2)]
  }

  /** The bins the first `n` pixels of row `j` increment, in the order the loops visit them. */
  function RowBins(f: Frame, j: nat, n: nat): (s: seq<int>)
    requires WellFormed(f) && j < f.height && n <= f.width
    ensures |s| == 3 * n
    ensures forall x <- s :: IsBin(x)
  {
    if n == 0 then [] else RowBins(f, j, n - 1) + PixelBins(f, j, n - 1)
  }

  /** The bins the first `m` rows increment, row after row. */
  function FrameBins(f: Frame, m: nat): (s: seq<int>)
    requires WellFormed(f) && m <= f.height
    ensures |s| == 3 * m * f.width
    ensures forall x <- s :: IsBin(x)
  {
    if m == 0 then [] else FrameBins(f, m - 1) + RowBins(f, m - 1, f.width)
  }

  /** The zero-initialised counters of video.c:35. */
  function Empty(): (h: seq<nat>)
    ensures |h| == HistSize && forall b | 0 <= b < HistSize :: h[b] == 0
  {
    seq(HistSize, b => 0)
  }

  /** `h` after `h[x]++`. */
  function Bump(h: seq<nat>, x: nat): (h': seq<nat>)
    requires x < |h|
    ensures |h'| == |h|
  {
    h[x := h[x] + 1]
  }

  /** The counters after performing `hist[x]++` for each `x` of `s` in turn. */
  function Tally(s: seq<int>): (h: seq<nat>)
    requires forall x <- s :: IsBin(x)
    ensures |h| == HistSize
  {
    if s == [] then Empty()
    else
      var x := s[|s| - 1];
      assert x in s;
      assert IsBin(x);
      var h := Tally(s[..|s| - 1]);
      assert |h| == HistSize;
      Bump(h, x)
  }

  /**
   * The 768-bin histogram of one frame (video.c:45-53). Every pixel adds one
   * to each of the three channels, so each channel's bins add up to the
   * number of pixels.
   */
  function Histogram(f: Frame): (h: seq<nat>)
    requires WellFormed(f)
    ensures |h| == HistSize
    ensures forall k | 0 <= k < 3 :: ChannelTotal(h, k) == f.width * f.height
  {
    PixelCountPerChannel(f);
    Tally(FrameBins(f, f.height))
  }

  /** Sum of `h[lo..hi]`. */
  function SumRange(h: seq<nat>, lo: nat, hi: nat): nat
    requires lo <= hi <= |h|
    decreases hi - lo
  {
    if lo == hi then 0 else h[lo] + SumRange(h, lo + 1, hi)
  }

  /** Sum of the 256 bins of channel `k`. */
  function ChannelTotal(h: seq<nat>, k: nat): nat
    requires |h| == HistSize && k < 3
  {
    SumRange(h, k * Levels, k * Levels + Levels)
  }

  /** Number of elements of `s` that fall into channel `k`. */
  function ChannelCount(s: seq<int>, k: nat): nat {
    if s == [] then 0
    else ChannelCount(s[..|s| - 1], k) + (if InChannel(s[|s| - 1], k) then 1 else 0)
  }

  // ---------------------------------------------------------------------------
  // Each bin counts the occurrences of its index.

  /** The incremental counters agree with the multiplicity of each bin in `s`. */
  lemma {:induction false} TallyCounts(s: seq<int>, b: int)
    requires forall x <- s :: IsBin(x)
    requires IsBin(b)
    ensures Tally(s)[b] == multiset(s)[b]
  {
    if s != [] {
      var p := s[..|s| - 1];
      TallyCounts(p, b);
      assert s[|s| - 1] in s;
      assert s == p + [s[|s| - 1]];
      assert multiset(s) == multiset(p) + multiset{s[|s| - 1]};
    }
  }

  /** Bin `b` of a frame's histogram counts the pixel channels that map to `b`. */
  lemma HistogramCountsBins(f: Frame, b: int)
    requires WellFormed(f) && IsBin(b)
    ensures Histogram(f)[b] == multiset(FrameBins(f, f.height))[b]
  {
    TallyCounts(FrameBins(f, f.height), b);
  }

  // ---------------------------------------------------------------------------
  // Each channel's 256 bins sum to the number of pixels.

  lemma {:induction false} SumRangeIncrement(h: seq<nat>, x: nat, lo: nat, hi: nat)
    requires lo <= hi <= |h| && x < |h|
    ensures SumRange(h[x := h[x] + 1], lo, hi) == SumRange(h, lo, hi) + (if lo <= x < hi then 1 else 0)
    decreases hi - lo
  {
    if lo < hi {
      SumRangeIncrement(h, x, lo + 1, hi);
    }
  }

  lemma {:induction false} SumRangeOfEmpty(lo: nat, hi: nat)
    requires lo <= hi <= HistSize
    ensures SumRange(Empty(), lo, hi) == 0
    decreases hi - lo
  {
    if lo < hi {
      SumRangeOfEmpty(lo + 1, hi);
    }
  }

  lemma {:induction false} TallyChannelTotal(s: seq<int>, k: nat)
    requires forall x <- s :: IsBin(x)
    requires k < 3
    ensures ChannelTotal(Tally(s), k) == ChannelCount(s, k)
  {
    if s == [] {
      SumRangeOfEmpty(k * Levels, k * Levels + Levels);
    } else {
      var p := s[..|s| - 1];
      var x := s[|s| - 1];
      assert x in s;
      TallyChannelTotal(p, k);
      assert Tally(s) == Tally(p)[x := Tally(p)[x] + 1];
      SumRangeIncrement(Tally(p), x, k * Levels, k * Levels + Levels);

    }
  }

  lemma {:induction false} ChannelCountConcat(a: seq<int>, b: seq<int>, k: nat)
    ensures ChannelCount(a + b, k) == ChannelCount(a, k) + ChannelCount(b, k)
    decreases |b|
  {
    if b == [] {
      assert a + b == a;
    } else {
      var b' := b[..|b| - 1];
      assert (a + b)[..|a + b| - 1] == a + b';
      ChannelCountConcat(a, b', k);
    }
  }

  lemma PixelChannelCount(f: Frame, j: nat, i: nat, k: nat)
    requires WellFormed(f) && j < f.height && i < f.width && k < 3
    ensures ChannelCount(PixelBins(f, j, i), k) == 1
  {
    var s := PixelBins(f, j, i);
    assert s[..2][..1] == s[..1];
    assert s[..1][..0] == [];
    assert ChannelCount(s[..1], k) == (if k == 0 then 1 else 0);
    assert ChannelCount(s[..2], k) == (if k <= 1 then 1 else 0);
  }

  lemma {:induction false} RowChannelCount(f: Frame, j: nat, n: nat, k: nat)
    requires WellFormed(f) && j < f.height && n <= f.width && k < 3
    ensures ChannelCount(RowBins(f, j, n), k) == n
  {
    if n > 0 {
      RowChannelCount(f, j, n - 1, k);
      PixelChannelCount(f, j, n - 1, k);
      ChannelCountConcat(RowBins(f, j, n - 1), PixelBins(f, j, n - 1), k);
    }
  }

  lemma {:induction false} FrameChannelCount(f: Frame, m: nat, k: nat)
    requires WellFormed(f) && m <= f.height && k < 3
    ensures ChannelCount(FrameBins(f, m), k) == m * f.width
  {
    if m > 0 {
      FrameChannelCount(f, m - 1, k);
      RowChannelCount(f, m - 1, f.width, k);
      ChannelCountConcat(FrameBins(f, m - 1), RowBins(f, m - 1, f.width), k);
      assert (m - 1) * f.width + f.width == m * f.width;
    }
  }

  /** Per channel, the 256 bins of the tally of a frame's bins add up to `width * height`. */
  lemma PixelCountPerChannel(f: Frame)
    requires WellFormed(f)
    ensures forall k | 0 <= k < 3 :: ChannelTotal(Tally(FrameBins(f, f.height)), k) == f.width * f.height
  {
    forall k | 0 <= k < 3
      ensures ChannelTotal(Tally(FrameBins(f, f.height)), k) == f.width * f.height
    {
      TallyChannelTotal(FrameBins(f, f.height), k);
      FrameChannelCount(f, f.height, k);
    }
  }

  // ---------------------------------------------------------------------------
  // Only pixel bytes matter: stride and padding never reach the histogram.

  lemma {:induction false} SamePixelsSameRowBins(f: Frame, g: Frame, j: nat, n: nat)
    requires WellFormed(f) && WellFormed(g) && SamePixels(f, g)
    requires j < f.height && n <= f.width
    ensures RowBins(f, j, n) == RowBins(g, j, n)
  {
    if n > 0 {
      SamePixelsSameRowBins(f, g, j, n - 1);
      assert PixelBins(f, j, n - 1) == PixelBins(g, j, n - 1);
    }
  }

  lemma {:induction false} SamePixelsSameFrameBins(f: Frame, g: Frame, m: nat)
    requires WellFormed(f) && WellFormed(g) && SamePixels(f, g)
    requires m <= f.height
    ensures FrameBins(f, m) == FrameBins(g, m)
  {
    if m > 0 {
      SamePixelsSameFrameBins(f, g, m - 1);
      SamePixelsSameRowBins(f, g, m - 1, f.width);
    }
  }

  /** Frames that agree on every pixel byte have the same histogram, whatever their strides. */
  lemma SamePixelsSameHistogram(f: Frame, g: Frame)
    requires WellFormed(f) && WellFormed(g) && SamePixels(f, g)
    ensures Histogram(f) == Histogram(g)
  {
    SamePixelsSameFrameBins(f, g, f.height);
  }

  /** Overwriting a padding byte of plane 0 leaves the histogram unchanged. */
  lemma PaddingIgnored(f: Frame, p: nat, v: Byte)
    requires WellFormed(f) && p < |f.data| && IsPadding(f, p)
    ensures WellFormed(f.(data := f.data[p := v]))
    ensures Histogram(f.(data := f.data[p := v])) == Histogram(f)
  {
    PaddingWriteKeepsPixels(f, p, v);
    SamePixelsSameHistogram(f.(data := f.data[p := v]), f);
  }

  // ---------------------------------------------------------------------------
  // Frames without pixels, and solid-colour frames.

  /** A histogram is all zeros exactly when the frame has no pixels. */
  lemma EmptyHistogramIffNoPixels(f: Frame)
    requires WellFormed(f)
    ensures Histogram(f) == Empty() <==> f.width * f.height == 0
  {
    if f.width * f.height == 0 {
      assert |FrameBins(f, f.height)| == 0;
    } else {
      assert ChannelTotal(Histogram(f), 0) == f.width * f.height;
      SumRangeOfEmpty(0, Levels);
    }
  }

  /** Every pixel of `f` has channel values `c`. */
  predicate Solid(f: Frame, c: seq<Byte>)
    requires WellFormed(f) && |c| == 3
  {
    forall j: nat, i: nat, k: nat | j < f.height && i < f.width && k < 3 :: PixelByte(f, j, i, k) == c[k]
  }

  /** The three bins a pixel of colour `c` increments. */
  function ColourBins(c: seq<Byte>): seq<int>
    requires |c| == 3
  {
    [c[0], Levels + c[1], 2 * Levels + c[2]]
  }

  lemma SolidPixelBins(f: Frame, c: seq<Byte>, j: nat, i: nat)
    requires WellFormed(f) && |c| == 3 && Solid(f, c) && j < f.height && i < f.width
    ensures PixelBins(f, j, i) == ColourBins(c)
  {
  }

  lemma ColourBinsCount(c: seq<Byte>, b: int)
    requires |c| == 3
    ensures multiset(ColourBins(c))[b] == if b in ColourBins(c) then 1 else 0
  {
  }

  /** Every pixel of row `j` contributes the bins of colour `c`. */
  predicate UniformRow(f: Frame, c: seq<Byte>, j: nat)
    requires WellFormed(f) && |c| == 3 && j < f.height
  {
    forall i: nat | i < f.width :: PixelBins(f, j, i) == ColourBins(c)
  }

  lemma MultisetConcatCount(a: seq<int>, c: seq<int>, b: int)
    ensures multiset(a + c)[b] == multiset(a)[b] + multiset(c)[b]
  {
  }

  /** `n` copies of `block`, one after another. */
  function Repeat(block: seq<int>, n: nat): (s: seq<int>)
    ensures |s| == n * |block|
  {
    if n == 0 then [] else Repeat(block, n - 1) + block
  }

  lemma MulPred(n: nat, x: nat)
    requires n > 0
    ensures (n - 1) * x + x == n * x
  {
  }

  lemma {:induction false} RepeatCount(block: seq<int>, n: nat, b: int)
    ensures multiset(Repeat(block, n))[b] == n * multiset(block)[b]
  {
    if n > 0 {
      var prev := Repeat(block, n - 1);
      RepeatCount(block, n - 1, b);
      assert Repeat(block, n) == prev + block;
      MultisetConcatCount(prev, block, b);
      MulPred(n, multiset(block)[b]);
    }
  }

  lemma {:induction false} SolidRowIsRepeat(f: Frame, c: seq<Byte>, j: nat, n: nat)
    requires WellFormed(f) && |c| == 3 && j < f.height && n <= f.width
    requires UniformRow(f, c, j)
    ensures RowBins(f, j, n) == Repeat(ColourBins(c), n)
  {
    if n > 0 {
      SolidRowIsRepeat(f, c, j, n - 1);
      assert PixelBins(f, j, n - 1) == ColourBins(c);
    }
  }

  /** When every row holds `w` pixels of colour `c`, the first `m` rows are `m` copies of such a row. */
  lemma {:induction false} SolidFrameIsRepeat(f: Frame, c: seq<Byte>, m: nat)
    requires WellFormed(f) && |c| == 3 && m <= f.height
    requires forall j: nat | j < f.height :: RowBins(f, j, f.width) == Repeat(ColourBins(c), f.width)
    ensures FrameBins(f, m) == Repeat(Repeat(ColourBins(c), f.width), m)
  {
    if m > 0 {
      SolidFrameIsRepeat(f, c, m - 1);
    }
  }

  /**
   * A solid frame of colour (r, g, b) puts all `width * height` pixels into
   * bins r, 256 + g and 512 + b, and leaves every other bin at zero.
   */
  lemma SolidColourHistogram(f: Frame, c: seq<Byte>, b: int)
    requires WellFormed(f) && |c| == 3 && Solid(f, c) && IsBin(b)
    ensures Histogram(f)[b] == if b in ColourBins(c) then f.width * f.height else 0
  {
    forall j: nat, i: nat | j < f.height && i < f.width
      ensures PixelBins(f, j, i) == ColourBins(c)
    {
      SolidPixelBins(f, c, j, i);
    }
    forall j: nat | j < f.height
      ensures RowBins(f, j, f.width) == Repeat(ColourBins(c), f.width)
    {
      SolidRowIsRepeat(f, c, j, f.width);
    }
    SolidFrameIsRepeat(f, c, f.height);
    var row := Repeat(ColourBins(c), f.width);
    RepeatCount(row, f.height, b);
    RepeatCount(ColourBins(c), f.width, b);
    ColourBinsCount(c, b);
    HistogramCountsBins(f, b);
    var x := multiset(ColourBins(c))[b];
    assert multiset(FrameBins(f, f.height))[b] == f.height * (f.width * x);
    if b in ColourBins(c) {
      assert x == 1;
      assert f.height * (f.width * 1) == f.width * f.height;
    } else {
      assert x == 0;
      assert f.height * (f.width * 0) == 0;
    }
  }
}
