/**
 * Decoded video frames as the frame selector of video.c reads them: plane 0
 * holds `height` rows that start `stride` bytes apart, and each row begins with
 * `width` pixels of three bytes each. Bytes after the first `3 * width` of a
 * row are alignment padding.
 */
module Frames {

  type Byte = x: int | 0 <= x < 256

  datatype Frame = Frame(width: nat, height: nat, stride: nat, data: seq<Byte>)

  /** A frame whose plane 0 holds every pixel byte the selector reads. */
  predicate WellFormed(f: Frame) {
    3 * f.width <= f.stride && f.height * f.stride <= |f.data|
  }

  /**
   * The frame `av_frame_alloc` hands out before any picture is received into
   * it: no rows, no columns, no data.
   */
  const BlankFrame: Frame := Frame(0, 0, 0, [])

  lemma MulMonotone(a: nat, b: nat, c: nat)
    requires a <= b
    ensures a * c <= b * c
  {
  }

  /** Position in plane 0 of channel `k` of pixel `i` in row `j`. */
  function Offset(f: Frame, j: nat, i: nat, k: nat): (o: nat)
    requires WellFormed(f) && j < f.height && i < f.width && k < 3
    ensures o < |f.data|
  {
    MulMonotone(j + 1, f.height, f.stride);
    j * f.stride + 3 * i + k
  }

  /** Channel `k` of pixel `i` in row `j`. */
  function PixelByte(f: Frame, j: nat, i: nat, k: nat): Byte
    requires WellFormed(f) && j < f.height && i < f.width && k < 3
  {
    f.data[Offset(f, j, i, k)]
  }

  /** True when `p` indexes a byte of plane 0 that is not part of any pixel. */
  predicate IsPadding(f: Frame, p: nat) {
    f.height * f.stride <= p || (0 < f.stride && 3 * f.width <= p % f.stride)
  }

  /** Frames of the same size that agree on every pixel byte. */
  predicate SamePixels(f: Frame, g: Frame)
    requires WellFormed(f) && WellFormed(g)
  {
    && f.width == g.width
    && f.height == g.height
    && forall j: nat, i: nat, k: nat | j < f.height && i < f.width && k < 3 ::
         PixelByte(f, j, i, k) == PixelByte(g, j, i, k)
  }

  lemma DivModUnique(q: nat, s: nat, j: nat, c: nat)
    requires 0 < s && c < s && q == j * s + c
    ensures q % s == c && q / s == j
  {
    var d, m := q / s, q % s;
    assert q == s * d + m;
    if d > j {
      MulMonotone(j + 1, d, s);
      assert false;
    } else if d < j {
      MulMonotone(d + 1, j, s);
      assert false;
    }
  }

  /** Writing a padding byte leaves every pixel byte as it was. */
  lemma {:induction false} PaddingWriteKeepsPixels(f: Frame, p: nat, v: Byte)
    requires WellFormed(f) && p < |f.data| && IsPadding(f, p)
    ensures WellFormed(f.(data := f.data[p := v]))
    ensures SamePixels(f, f.(data := f.data[p := v]))
  {
    var g := f.(data := f.data[p := v]);
    forall j: nat, i: nat, k: nat | j < f.height && i < f.width && k < 3
      ensures PixelByte(f, j, i, k) == PixelByte(g, j, i, k)
    {
      var o := Offset(f, j, i, k);
      if f.height * f.stride <= p {
        MulMonotone(j + 1, f.height, f.stride);
      } else {
        DivModUnique(o, f.stride, j, 3 * i + k);
      }
      assert o != p;
    }
  }
}
