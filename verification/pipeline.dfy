/**
 * `extract_video_image` end to end (video.c:111-195): the read loop, the
 * error mapping after `end:`, selection of the representative frame,
 * encoding, and the cleanup pass.
 */
module Pipeline {
  import opened Base
  import opened Frames
  import opened Selection
  import opened Acquisition
  import opened Encoder

  /** Every frame the loop decoded is retained by the selector, and nothing else. */
  lemma RetainedIsDecoded(a: Loop)
    requires |a.decoded| <= MaxFrames && (a.blank ==> |a.decoded| < MaxFrames)
    ensures Retained(Slots(a)) == |a.decoded|
    ensures forall i | 0 <= i < |a.decoded| :: Slots(a)[i] == Filled(a.decoded[i])
  {
  }

  /**
   * When the loop leaves every slot allocated (100 frames, or 99 and the
   * EAGAIN slot), the selector as written reads `hists[100]`; the selector of
   * this model stays within the decoded frames.
   */
  lemma FullLoopReadsPastEnd(a: Loop)
    requires |a.decoded| <= MaxFrames && (a.blank ==> |a.decoded| < MaxFrames)
    requires forall i | 0 <= i < |a.decoded| :: WellFormed(a.decoded[i])
    requires AllocatedCount(a) == MaxFrames
    ensures ValidSlots(Slots(a))
    ensures SelectAsWritten(Slots(a)) == ReadsPastEnd
    ensures 0 <= SelectBestFrame(Slots(a)) < |a.decoded|
  {
    RetainedIsDecoded(a);
    CleanupFreesAllocated(a);
    assert Allocated(Slots(a)) == MaxFrames;
  }

  /**
   * A loop that ends with the decoder's EAGAIN slot still allocated: as written
   * the selector picks a frame without pixels, while the selector of this model
   * picks one of the decoded frames.
   */
  lemma EagainSlotPickedAsWritten(a: Loop)
    requires a.blank && 0 < |a.decoded| < MaxFrames - 1
    requires forall i | 0 <= i < |a.decoded| :: WellFormed(a.decoded[i])
    ensures ValidSlots(Slots(a))
    ensures SelectAsWritten(Slots(a)).Picked?
    ensures var f := SlotFrame(Slots(a)[SelectAsWritten(Slots(a)).index]); f.width * f.height == 0
    ensures 0 <= SelectBestFrame(Slots(a)) < |a.decoded|
  {
    RetainedIsDecoded(a);
    var slots := Slots(a);
    assert slots[|a.decoded|] == Blank;
    if |a.decoded| + 1 < MaxFrames {
      assert slots[|a.decoded| + 1].Unallocated?;
    }
    assert Allocated(slots) == |a.decoded| + 1;
    BlankSlotPickedAsWritten(slots);
  }

  /**
   * Runs the loop over the demuxer and decoder answers `steps`; `contextOk`
   * says whether the scaler context can be created. `acq` is the loop at
   * `end:` after `passes` reads, `chosen` the index of the encoded frame (-1
   * when none is), `freed` the number of slots the cleanup releases.
   */
  method ExtractVideoImage(steps: seq<Step>, stream: int, contextOk: bool)
      returns (err: int, image: Option<Buffer>, acq: Loop, passes: nat, chosen: int, freed: nat)
    requires DecoderSound(steps)
    ensures Finished(steps, stream, acq, passes)
    ensures |acq.decoded| <= MaxFrames && (acq.blank ==> |acq.decoded| < MaxFrames)
    ensures image.Some? <==> err == 0
    ensures err <= 0
    ensures acq.err != 0 && acq.err != ErrEof ==> err == acq.err
    ensures (acq.err == 0 || acq.err == ErrEof) && |acq.decoded| == 0 ==> err == ErrGeneric
    ensures (acq.err == 0 || acq.err == ErrEof) && 0 < |acq.decoded| ==>
      if contextOk then err == 0 else err == ErrNoMem
    ensures image.Some? ==>
      && 0 <= chosen < |acq.decoded|
      && image.value.width == acq.decoded[chosen].width
      && image.value.height == acq.decoded[chosen].height
      && image.value.stride == RgbaBytes * acq.decoded[chosen].width
      && image.value.size == RgbaBytes * acq.decoded[chosen].width * acq.decoded[chosen].height
    ensures image.Some? ==>
      && ValidSlots(Slots(acq))
      && chosen == SelectBestFrame(Slots(acq))
      && (forall j | 0 <= j < |acq.decoded| :: Deviation(Slots(acq), chosen) <= Deviation(Slots(acq), j))
      && (forall j | 0 <= j < chosen :: Deviation(Slots(acq), chosen) < Deviation(Slots(acq), j))
    ensures 0 < |steps| && steps[0].read.ReadError? ==>
      err == if steps[0].read.code == ErrEof then ErrGeneric else steps[0].read.code
    ensures freed == AllocatedCount(acq)
  {
    acq, passes := Acquire(steps, stream);
    if 0 < |steps| && steps[0].read.ReadError? {
      assert !Proceeds(steps, stream, 0);
    }
    if |acq.decoded| < MaxFrames {
      SlotsValid(steps, stream, passes - 1, acq);
    } else {
      SlotsValid(steps, stream, passes, acq);
    }
    var slots := Slots(acq);
    RetainedIsDecoded(acq);
    err := acq.err;
    image := None;
    chosen := -1;
    if err == ErrEof {
      err := 0;
    }
    if err == 0 {
      if |acq.decoded| < 1 {
        err := ErrGeneric;
      } else {
        var best := SelectBestFrame(slots);
        assert best != -1;
        chosen := best;
        var r := EncodeFrame(slots[best].frame, contextOk);
        match r
        case Encoded(b) =>
          err := 0;
          image := Some(b);
        case EncodeError(code) =>
          err := code;
      }
    }
    CleanupFreesAllocated(acq);
    freed := |Freed(slots)|;
  }

  /** One picture, then the end of input: that picture is encoded and `err` is 0. */
  method OnePictureThenEnd(f: Frame, stream: int) returns (err: int, image: Option<Buffer>)
    requires WellFormed(f)
    ensures err == 0
    ensures image.Some? && image.value.width == f.width && image.value.height == f.height
  {
    var steps := [Step(Packet(stream), 0, true, Picture(f))];
    var acq, passes, chosen, freed;
    err, image, acq, passes, chosen, freed := ExtractVideoImage(steps, stream, true);
    assert steps[..0] == [] && steps[..1] == steps;
    assert Proceeds(steps, stream, 0);
    assert !EndsWith(steps[0], stream, false, acq);
  }

  /**
   * A decoder error after a picture is returned as it is, not taken for the end
   * of input (a decoder's own EOF is, since `err` is compared with AVERROR_EOF).
   */
  method DecodeErrorAfterPicture(f: Frame, stream: int, code: ErrCode) returns (err: int, image: Option<Buffer>)
    requires WellFormed(f) && code != ErrAgain && code != ErrEof
    ensures err == code && image.None?
  {
    var steps := [Step(Packet(stream), 0, true, Picture(f)), Step(Packet(stream), 0, true, ReceiveError(code))];
    var acq, passes, chosen, freed;
    err, image, acq, passes, chosen, freed := ExtractVideoImage(steps, stream, true);
    assert steps[..0] == [] && steps[..1] == [steps[0]] && steps[..2] == steps;
    assert Proceeds(steps, stream, 0) && !Proceeds(steps, stream, 1);
    assert !EndsWith(steps[0], stream, false, acq);
    assert !Pending(steps[..1], stream);
  }
}
