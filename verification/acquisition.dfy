/**
 * The read loop of `extract_video_image` (video.c:114-164) as a state machine
 * over the answers of the demuxer and decoder, and the slot array and cleanup
 * pass it leaves behind (video.c:186-193).
 *
 * The loop does one `avcodec_receive_frame` per packet sent; it does not drain
 * the decoder.
 */
module Acquisition {
  import opened Base
  import opened Frames
  import opened Selection

  /** Outcome of one `av_read_frame` call. */
  datatype ReadResult = Packet(streamIndex: int) | ReadError(code: ErrCode)

  /** Outcome of one `avcodec_receive_frame` call. */
  datatype ReceiveResult = Picture(frame: Frame) | ReceiveError(code: ErrCode)

  /**
   * The answers met by one pass of the loop: the read; and, for a packet of the
   * target stream, the `avcodec_send_packet` result, whether `av_frame_alloc`
   * succeeds (asked only when the current slot is still NULL), and the receive
   * result. Answers a pass does not ask for are ignored.
   */
  datatype Step = Step(read: ReadResult, send: int, allocOk: bool, receive: ReceiveResult)

  /** What the demuxer answers once the input is exhausted. */
  const EndOfInput: Step := Step(ReadError(ErrEof), 0, true, ReceiveError(ErrAgain))

  /** The step met by read number `n`: past the given answers, the demuxer reports EOF. */
  function StepAt(steps: seq<Step>, n: nat): Step {
    if n < |steps| then steps[n] else EndOfInput
  }

  predicate DecoderSound(steps: seq<Step>) {
    forall k | 0 <= k < |steps| && steps[k].receive.Picture? :: WellFormed(steps[k].receive.frame)
  }

  /**
   * Loop state: the decoded frames (`frame_i` is their number), whether
   * `frames[frame_i]` is allocated without a picture, the last `err`, and
   * whether control has reached `end:`.
   */
  datatype Loop = Loop(decoded: seq<Frame>, blank: bool, err: int, done: bool)

  const Start: Loop := Loop([], false, 0, false)

  /** One pass of the loop body, video.c:121-163. */
  function Advance(s: Loop, step: Step, stream: int): (t: Loop)
    requires !s.done && |s.decoded| < MaxFrames
    ensures t.decoded == s.decoded || (step.receive.Picture? && t.decoded == s.decoded + [step.receive.frame])
    ensures |t.decoded| <= MaxFrames && t.err <= 0
    ensures !t.done ==> |t.decoded| < MaxFrames
    ensures |t.decoded| == MaxFrames ==> t.done && t.err == 0 && !t.blank
    ensures t.blank ==> s.blank || (step.read == Packet(stream) && step.receive.ReceiveError?)
  {
    match step.read
    case ReadError(code) =>
      // `frames[0]->data` is an array, never NULL: only `frame_i` decides.
      s.(err := if code == ErrGeneric && |s.decoded| > 0 then 0 else code, done := true)
    case Packet(index) =>
      if index != stream then s.(err := 0)
      else if step.send < 0 then s.(err := step.send, done := true)
      else if !s.blank && !step.allocOk then s.(err := ErrNoMem, done := true)
      else
        match step.receive
        case Picture(f) =>
          var decoded := s.decoded + [f];
          Loop(decoded, false, 0, |decoded| == MaxFrames)
        case ReceiveError(code) =>
          Loop(s.decoded, true, code, code != ErrAgain)
  }

  /** A pass that neither failed nor reached `end:`. */
  predicate Continues(step: Step, stream: int) {
    && step.read.Packet?
    && (step.read.streamIndex == stream ==>
          step.send >= 0 && (step.receive.Picture? || step.receive == ReceiveError(ErrAgain)))
  }

  /** A pass that receives a picture. */
  predicate Yields(step: Step, stream: int) {
    step.read == Packet(stream) && step.receive.Picture?
  }

  /** The pictures received by passes over `steps`, in order. */
  function Pictures(steps: seq<Step>, stream: int): (frames: seq<Frame>)
    ensures |frames| <= |steps|
  {
    if steps == [] then []
    else
      var last := steps[|steps| - 1];
      Pictures(steps[..|steps| - 1], stream) + (if Yields(last, stream) then [last.receive.frame] else [])
  }

  /**
   * Whether `frames[frame_i]` holds an allocation without a picture after
   * passes over `steps` that all went on: a target-stream pass that reaches the
   * receive call leaves it pending on EAGAIN and fills it with a picture; any
   * other pass leaves it as it was.
   */
  function Pending(steps: seq<Step>, stream: int): bool {
    if steps == [] then false
    else
      var last := steps[|steps| - 1];
      if last.read == Packet(stream) && last.send >= 0 then !last.receive.Picture?
      else Pending(steps[..|steps| - 1], stream)
  }

  /** Pass `k` went on: it continued, and the `av_frame_alloc` it needed for a NULL slot succeeded. */
  predicate Proceeds(steps: seq<Step>, stream: int, k: nat)
    requires k < |steps|
  {
    && Continues(steps[k], stream)
    && (steps[k].read == Packet(stream) && !Pending(steps[..k], stream) ==> steps[k].allocOk)
  }

  /**
   * The pass `step` took the loop to `end:` and left `a`, the slot being
   * `pending` before it:
   * - a read error ends it with its code, a -1 being silenced once a frame has
   *   been decoded (video.c:122-127);
   * - a packet of another stream never ends it;
   * - a send error ends it with its code (video.c:134-139);
   * - a failed allocation of a NULL slot ends it with ENOMEM (video.c:143-148);
   * - a received picture ends it only as the 100th frame, with `err == 0`;
   * - a receive error other than EAGAIN ends it with its code and the slot
   *   still allocated (video.c:151-161).
   */
  predicate EndsWith(step: Step, stream: int, pending: bool, a: Loop) {
    match step.read
    case ReadError(code) =>
      && |a.decoded| < MaxFrames && a.blank == pending
      && a.err == if code == ErrGeneric && 0 < |a.decoded| then 0 else code
    case Packet(index) =>
      && index == stream
      && if step.send < 0 then |a.decoded| < MaxFrames && a.err == step.send && a.blank == pending
         else if !pending && !step.allocOk then |a.decoded| < MaxFrames && a.err == ErrNoMem && !a.blank
         else match step.receive
           case Picture(_) => |a.decoded| == MaxFrames && a.err == 0 && !a.blank
           case ReceiveError(code) => |a.decoded| < MaxFrames && code != ErrAgain && a.err == code && a.blank
  }

  /** The loop after `n` passes that all went on: the frames so far are the pictures received. */
  predicate Running(steps: seq<Step>, stream: int, a: Loop, n: nat) {
    && !a.done && n <= |steps| && |a.decoded| < MaxFrames
    && (forall k | 0 <= k < n :: Proceeds(steps, stream, k))
    && a.decoded == Pictures(steps[..n], stream)
    && a.blank == Pending(steps[..n], stream)
  }

  /**
   * The loop at `end:` after `n` reads:
   * - every pass but the last went on, and at most 100 frames were decoded;
   * - the frames are the pictures received, in order; the 100th frame ends the
   *   loop at once;
   * - the last pass ended the loop, with the code `EndsWith` gives it; running
   *   out of input leaves EOF;
   * - `err == 0` only after the 100th frame or a silenced read error.
   */
  predicate Finished(steps: seq<Step>, stream: int, a: Loop, n: nat) {
    && a.done && |a.decoded| <= MaxFrames && a.err <= 0
    && 1 <= n <= |steps| + 1
    && (forall k | 0 <= k < n - 1 :: Proceeds(steps, stream, k))
    && (|a.decoded| < MaxFrames ==> a.decoded == Pictures(steps[..n - 1], stream))
    && (|a.decoded| == MaxFrames ==>
          && n <= |steps| && Yields(steps[n - 1], stream)
          && a.decoded == Pictures(steps[..n], stream))
    && (a.blank ==> |a.decoded| < MaxFrames)
    && (n == |steps| + 1 ==> a.err == ErrEof && a.blank == Pending(steps, stream))
    && (n <= |steps| ==> EndsWith(steps[n - 1], stream, Pending(steps[..n - 1], stream), a))
    && (a.err == 0 ==>
          || |a.decoded| == MaxFrames
          || (0 < |a.decoded| && n <= |steps| && steps[n - 1].read == ReadError(ErrGeneric)))
  }

  /** A pass that does not end the loop keeps it running. */
  lemma PassContinues(steps: seq<Step>, stream: int, a: Loop, n: nat)
    requires Running(steps, stream, a, n)
    requires !Advance(a, StepAt(steps, n), stream).done
    ensures Running(steps, stream, Advance(a, StepAt(steps, n), stream), n + 1)
  {
    assert n < |steps|;
    assert steps[..n + 1] == steps[..n] + [steps[n]];
    assert steps[..n + 1][..n] == steps[..n];
  }

  /** A pass that ends the loop leaves it finished. */
  lemma PassFinishes(steps: seq<Step>, stream: int, a: Loop, n: nat)
    requires Running(steps, stream, a, n)
    requires Advance(a, StepAt(steps, n), stream).done
    ensures Finished(steps, stream, Advance(a, StepAt(steps, n), stream), n + 1)
  {
    if n < |steps| {
      assert steps[..n + 1] == steps[..n] + [steps[n]];
    } else {
      assert steps[..n] == steps;
    }
  }

  /**
   * The read loop. `passes` counts the `av_read_frame` calls made; the loop
   * stops reading the moment the 100th frame is received.
   */
  method Acquire(steps: seq<Step>, stream: int) returns (a: Loop, passes: nat)
    ensures Finished(steps, stream, a, passes)
  {
    a := Start;
    passes := 0;
    var next := Advance(a, StepAt(steps, passes), stream);
    while !next.done
      invariant Running(steps, stream, a, passes)
      invariant next == Advance(a, StepAt(steps, passes), stream)
      decreases |steps| - passes
    {
      PassContinues(steps, stream, a, passes);
      a := next;
      passes := passes + 1;
      next := Advance(a, StepAt(steps, passes), stream);
    }
    PassFinishes(steps, stream, a, passes);
    a := next;
    passes := passes + 1;
  }

  /** Later prefixes hold at least as many pictures. */
  lemma {:induction false} PicturesGrow(steps: seq<Step>, stream: int, i: nat, j: nat)
    requires i <= j <= |steps|
    ensures |Pictures(steps[..i], stream)| <= |Pictures(steps[..j], stream)|
    decreases j - i
  {
    if i < j {
      PicturesGrow(steps, stream, i, j - 1);
      assert steps[..j][..j - 1] == steps[..j - 1];
    }
  }

  /** Pass `m - 1` adds its picture, if any, to those of the passes before it. */
  lemma PicturesStep(steps: seq<Step>, stream: int, m: nat)
    requires 0 < m <= |steps|
    ensures |Pictures(steps[..m], stream)| == |Pictures(steps[..m - 1], stream)| + if Yields(steps[m - 1], stream) then 1 else 0
  {
    assert steps[..m][..m - 1] == steps[..m - 1];
  }

  /** A loop cannot reach `end:` at two different passes. */
  lemma EndIsUnique(steps: seq<Step>, stream: int, a: Loop, n: nat, b: Loop, m: nat)
    requires Finished(steps, stream, a, n) && Finished(steps, stream, b, m)
    ensures !(n < m)
  {
    if n < m {
      // Pass n - 1 ends `a` yet goes on in `b`: only the 100th picture can do that.
      assert Proceeds(steps, stream, n - 1);
      assert |a.decoded| == MaxFrames;
      assert |Pictures(steps[..n], stream)| == MaxFrames;
      PicturesGrow(steps, stream, n, m - 1);
      assert |Pictures(steps[..m - 1], stream)| >= MaxFrames;
      PicturesStep(steps, stream, m);
    }
  }

  /**
   * `Finished` fixes the outcome: for any answers of the demuxer and decoder,
   * one pass count and one loop state at `end:` satisfy it.
   */
  lemma FinishedIsUnique(steps: seq<Step>, stream: int, a: Loop, n: nat, b: Loop, m: nat)
    requires Finished(steps, stream, a, n) && Finished(steps, stream, b, m)
    ensures n == m && a == b
  {
    EndIsUnique(steps, stream, a, n, b, m);
    EndIsUnique(steps, stream, b, m, a, n);
    if n <= |steps| {
      // Both ended on the same pass from the same slot state.
      var pending := Pending(steps[..n - 1], stream);
      assert EndsWith(steps[n - 1], stream, pending, a);
      assert EndsWith(steps[n - 1], stream, pending, b);
    }
  }

  // ---------------------------------------------------------------------------
  // The slot array and the cleanup pass

  /** Number of `av_frame_alloc` results the loop stored. */
  function AllocatedCount(a: Loop): nat {
    |a.decoded| + if a.blank then 1 else 0
  }

  /**
   * `frames[]` at `end:` (video.c:117, 143-153): the decoded frames in order,
   * then the pending slot if any, then NULL. The non-NULL prefix holds every
   * allocation, and the filled prefix every decoded frame.
   */
  function Slots(a: Loop): (slots: seq<Slot>)
    requires |a.decoded| <= MaxFrames && (a.blank ==> |a.decoded| < MaxFrames)
    ensures |slots| == MaxFrames
    ensures Allocated(slots) == AllocatedCount(a)
    ensures Retained(slots) == |a.decoded|
  {
    var slots := seq(MaxFrames, i requires 0 <= i < MaxFrames =>
      if i < |a.decoded| then Filled(a.decoded[i])
      else if i == |a.decoded| && a.blank then Blank
      else Unallocated);
    assert AllocatedCount(a) < MaxFrames ==> slots[AllocatedCount(a)].Unallocated?;
    assert |a.decoded| < MaxFrames ==> !slots[|a.decoded|].Filled?;
    slots
  }

  /**
   * Slots released by the cleanup loop of video.c:186-193, in the order it
   * releases them: every slot before the first NULL.
   */
  function Freed(slots: seq<Slot>): (freed: seq<nat>)
    ensures |freed| <= |slots|
    ensures forall k | 0 <= k < |freed| :: freed[k] == k && !slots[k].Unallocated?
    ensures |freed| < |slots| ==> slots[|freed|].Unallocated?
  {
    seq(Allocated(slots), i => i)
  }

  /**
   * The cleanup pass releases exactly the allocated slots, each once: the loop
   * fills the slot array from the front, so no allocated slot lies beyond the
   * first NULL.
   */
  lemma CleanupFreesAllocated(a: Loop)
    requires |a.decoded| <= MaxFrames && (a.blank ==> |a.decoded| < MaxFrames)
    ensures forall i: nat | i < MaxFrames :: i in Freed(Slots(a)) <==> !Slots(a)[i].Unallocated?
    ensures |Freed(Slots(a))| == AllocatedCount(a)
  {
    var slots := Slots(a);
    var n := AllocatedCount(a);
    forall i: nat | i < MaxFrames
      ensures i in Freed(slots) <==> !slots[i].Unallocated?
    {
      if i < n {
        assert Freed(slots)[i] == i;
      }
    }
  }

  /** The slots a finished loop leaves are valid input to the selector when the decoder is sound. */
  lemma SlotsValid(steps: seq<Step>, stream: int, m: nat, a: Loop)
    requires DecoderSound(steps) && m <= |steps|
    requires |a.decoded| <= MaxFrames && (a.blank ==> |a.decoded| < MaxFrames)
    requires a.decoded == Pictures(steps[..m], stream)
    ensures ValidSlots(Slots(a))
  {
    PicturesWellFormed(steps[..m], stream);
  }

  lemma {:induction false} PicturesWellFormed(steps: seq<Step>, stream: int)
    requires forall k | 0 <= k < |steps| && steps[k].receive.Picture? :: WellFormed(steps[k].receive.frame)
    ensures forall i | 0 <= i < |Pictures(steps, stream)| :: WellFormed(Pictures(steps, stream)[i])
  {
    if steps != [] {
      PicturesWellFormed(steps[..|steps| - 1], stream);
    }
  }
}
