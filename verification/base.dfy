/**
 * Shared vocabulary of the thumbnailer model: an option type, the fixed
 * capacities of the frame selector, and the libav error codes the decode
 * loop distinguishes.
 */
module Base {

  datatype Option<+T> = None | Some(value: T)

  /** Number of frame slots `extract_video_image` keeps (video.c MAX_FRAMES). */
  const MaxFrames: nat := 100

  /** Number of histogram bins: 3 channels times 256 levels (video.c HIST_SIZE). */
  const HistSize: nat := 768

  /** Levels per colour channel. */
  const Levels: nat := 256

  /** AVERROR_EOF, i.e. FFERRTAG('E', 'O', 'F', ' ') negated. */
  const ErrEof: int := -541478725

  /** AVERROR(EAGAIN) on Linux: the decoder needs more input. */
  const ErrAgain: int := -11

  /** AVERROR(ENOMEM) on Linux. */
  const ErrNoMem: int := -12

  /** The undifferentiated failure code: `av_read_frame`'s -1, and the result when no frame is usable. */
  const ErrGeneric: int := -1

  /** libav reports failures as negative integers. */
  type ErrCode = c: int | c < 0 witness ErrGeneric
}
