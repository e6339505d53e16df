/**
 * Output-buffer arithmetic of `encode_frame` (video.c:84-109). The colour
 * conversion itself is done by libswscale and is not modelled; whether the
 * scaler context could be created is a parameter.
 */
module Encoder {
  import opened Base
  import opened Frames

  /** The RGBA image handed back to the caller (`struct Buffer`), without its pixel contents. */
  datatype Buffer = Buffer(width: nat, height: nat, size: nat, stride: nat)

  datatype Encoded = Encoded(image: Buffer) | EncodeError(code: ErrCode)

  /** Bytes per packed RGBA pixel. */
  const RgbaBytes: nat := 4

  /** `av_image_get_buffer_size` for packed RGBA with alignment 1. */
  function RgbaBufferSize(width: nat, height: nat): nat {
    RgbaBytes * width * height
  }

  function EncodeFrame(f: Frame, contextOk: bool): (r: Encoded)
    ensures r.EncodeError? <==> !contextOk
    ensures r.EncodeError? ==> r.code == ErrNoMem
    ensures r.Encoded? ==> r.image.width == f.width && r.image.height == f.height
    ensures r.Encoded? ==> r.image.stride == RgbaBytes * f.width
    ensures r.Encoded? ==> r.image.size == r.image.stride * r.image.height
  {
    if !contextOk then EncodeError(ErrNoMem)
    else Encoded(Buffer(f.width, f.height, RgbaBufferSize(f.width, f.height), RgbaBytes * f.width))
  }

  /**
   * Every destination row the scaler writes, `stride` bytes at offset
   * `j * stride`, lies inside the allocated buffer.
   */
  lemma RowsFitBuffer(f: Frame)
    ensures var r := EncodeFrame(f, true);
      forall j: nat | j < r.image.height :: j * r.image.stride + r.image.stride <= r.image.size
  {
    var b := EncodeFrame(f, true).image;
    forall j: nat | j < b.height
      ensures j * b.stride + b.stride <= b.size
    {
      MulMonotone(j + 1, b.height, b.stride);
    }
  }
}
