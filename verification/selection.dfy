/**
 * Representative-frame selection of video.c (`compute_error`,
 * `select_best_frame`): average the histograms of the retained frames and pick
 * the frame whose histogram has the least sum-squared deviation from that
 * average, the lowest index winning ties. The doubles of the C code are
 * replaced by exact integers scaled by the number of frames.
 *
 * The corrected selector (`SelectBestFrame`) is the one the pipeline uses; the
 * members suffixed `AsWritten` reproduce what the C code computes, and the
 * lemmas beside them show where the two differ.
 */
module Selection {
  import opened Base
  import opened Frames
  import opened Histograms

  /**
   * One entry of `AVFrame* frames[MAX_FRAMES]`: never allocated (NULL),
   * allocated but holding no picture, or holding a decoded picture.
   */
  datatype Slot = Unallocated | Blank | Filled(frame: Frame)

  predicate ValidSlots(slots: seq<Slot>) {
    && |slots| == MaxFrames
    && forall i | 0 <= i < |slots| && slots[i].Filled? :: WellFormed(slots[i].frame)
  }

  /** The frame a non-NULL slot points to; a blank slot points to an empty frame. */
  function SlotFrame(s: Slot): Frame {
    if s.Filled? then s.frame else BlankFrame
  }

  predicate AllHistograms(hs: seq<seq<nat>>) {
    forall i | 0 <= i < |hs| :: |hs[i]| == HistSize
  }

  function HistogramsOf(frames: seq<Frame>): (hs: seq<seq<nat>>)
    requires forall i | 0 <= i < |frames| :: WellFormed(frames[i])
    ensures |hs| == |frames| && AllHistograms(hs)
  {
    seq(|frames|, i requires 0 <= i < |frames| => Histogram(frames[i]))
  }

  // ---------------------------------------------------------------------------
  // Sum-squared error (video.c:19-28), in integers scaled by the frame count
  //
  // With N retained frames, `N * average[b]` is the integer bin total, and
  // `compute_error(h, average)` times N * N is the sum over bins of
  // `(N * average[b] - N * h[b])^2`. Scaling every error by the same N * N
  // leaves the arg-min unchanged.

  /** Sum over bins `0..n` of `(target[b] - scale * h[b])^2`. */
  function SqErrorUpTo(h: seq<nat>, target: seq<int>, scale: nat, n: nat): (e: int)
    requires n <= |h| == |target|
    ensures e >= 0
  {
    if n == 0 then 0
    else
      var d := target[n - 1] - scale * h[n - 1];
      SqErrorUpTo(h, target, scale, n - 1) + d * d
  }

  /**
   * `compute_error(h, average)` scaled by N * N, where `target` is N times the
   * average and `scale` is N.
   */
  function SqError(h: seq<nat>, target: seq<int>, scale: nat): (e: int)
    requires |h| == |target|
    ensures e >= 0
  {
    SqErrorUpTo(h, target, scale, |h|)
  }

  lemma {:induction false} SqErrorUpToZeroIff(h: seq<nat>, target: seq<int>, scale: nat, n: nat)
    requires n <= |h| == |target|
    ensures SqErrorUpTo(h, target, scale, n) == 0 <==> forall b | 0 <= b < n :: target[b] == scale * h[b]
  {
    if n > 0 {
      SqErrorUpToZeroIff(h, target, scale, n - 1);
      var d := target[n - 1] - scale * h[n - 1];
      if d != 0 {
        assert d * d > 0;
      }
    }
  }

  /** The error is zero exactly when the histogram equals the average bin for bin. */
  lemma SqErrorZeroIff(h: seq<nat>, target: seq<int>, scale: nat)
    requires |h| == |target|
    ensures SqError(h, target, scale) == 0 <==> forall b | 0 <= b < |h| :: target[b] == scale * h[b]
  {
    SqErrorUpToZeroIff(h, target, scale, |h|);
  }

  /** The scaled error of every histogram against `target`, N times an average. */
  function Errors(hs: seq<seq<nat>>, target: seq<int>): (errs: seq<int>)
    requires AllHistograms(hs) && |target| == HistSize
    ensures |errs| == |hs|
  {
    seq(|hs|, i requires 0 <= i < |hs| => SqError(hs[i], target, |hs|))
  }

  // ---------------------------------------------------------------------------
  // Arg-min with strict comparison (video.c:71-78)

  /**
   * The loop of video.c:72-78 from iteration `i` on, `best` being the index
   * kept so far: a later index replaces it only when strictly smaller.
   */
  function ScanMin(errs: seq<int>, i: nat, best: nat): (r: nat)
    requires best < i <= |errs|
    requires forall j | 0 <= j < i :: errs[best] <= errs[j]
    requires forall j | 0 <= j < best :: errs[best] < errs[j]
    ensures r < |errs|
    ensures forall j | 0 <= j < |errs| :: errs[r] <= errs[j]
    ensures forall j | 0 <= j < r :: errs[r] < errs[j]
    decreases |errs| - i
  {
    if i == |errs| then best
    else ScanMin(errs, i + 1, if errs[i] < errs[best] then i else best)
  }

  /** Index of the smallest error; on ties, the first one. */
  function ArgMin(errs: seq<int>): (r: nat)
    requires |errs| > 0
    ensures r < |errs|
    ensures forall j | 0 <= j < |errs| :: errs[r] <= errs[j]
    ensures forall j | 0 <= j < r :: errs[r] < errs[j]
  {
    ScanMin(errs, 1, 0)
  }

  // ---------------------------------------------------------------------------
  // Corrected selection

  /** Number of leading slots that hold a decoded picture: the frames selected from. */
  function Retained(slots: seq<Slot>): (n: nat)
    ensures n <= |slots|
    ensures forall i | 0 <= i < n :: slots[i].Filled?
    ensures n < |slots| ==> !slots[n].Filled?
  {
    if slots == [] || !slots[0].Filled? then 0 else 1 + Retained(slots[1..])
  }

  function RetainedFrames(slots: seq<Slot>): (frames: seq<Frame>)
    requires ValidSlots(slots)
    ensures |frames| == Retained(slots)
    ensures forall i | 0 <= i < |frames| :: WellFormed(frames[i]) && slots[i] == Filled(frames[i])
  {
    seq(Retained(slots), i requires 0 <= i < Retained(slots) => slots[i].frame)
  }

  /** Sum of bin `b` over all histograms: no less than any one count, and 0 only when every count is. */
  function BinTotal(hs: seq<seq<nat>>, b: nat): (total: nat)
    requires AllHistograms(hs) && b < HistSize
    ensures forall i | 0 <= i < |hs| :: hs[i][b] <= total
    ensures total == 0 <==> forall i | 0 <= i < |hs| :: hs[i][b] == 0
  {
    if hs == [] then 0 else BinTotal(hs[..|hs| - 1], b) + hs[|hs| - 1][b]
  }

  /**
   * The bin-wise arithmetic mean of the histograms that the comment at
   * video.c:61 announces, times their number N.
   */
  function ScaledMean(hs: seq<seq<nat>>): (t: seq<int>)
    requires AllHistograms(hs)
    ensures |t| == HistSize
    ensures forall b, i | 0 <= b < HistSize && 0 <= i < |hs| :: hs[i][b] <= t[b]
    ensures forall b | 0 <= b < HistSize :: t[b] == 0 <==> forall i | 0 <= i < |hs| :: hs[i][b] == 0
  {
    seq(HistSize, b requires 0 <= b < HistSize => BinTotal(hs, b))
  }

  /** The mean of a bin lies between the least and the greatest count in it: times N, between N*lo and N*hi. */
  lemma {:induction false} MeanBetween(hs: seq<seq<nat>>, b: nat, lo: nat, hi: nat)
    requires AllHistograms(hs) && b < HistSize
    requires forall i | 0 <= i < |hs| :: lo <= hs[i][b] <= hi
    ensures |hs| * lo <= ScaledMean(hs)[b] <= |hs| * hi
  {
    if hs != [] {
      var init := hs[..|hs| - 1];
      MeanBetween(init, b, lo, hi);
      assert ScaledMean(init)[b] == BinTotal(init, b);
      MulPred(|hs|, lo);
      MulPred(|hs|, hi);
    }
  }

  /** The deviation of retained frame `i` from the mean of all retained frames. */
  function Deviation(slots: seq<Slot>, i: nat): int
    requires ValidSlots(slots) && i < Retained(slots)
  {
    var hs := HistogramsOf(RetainedFrames(slots));
    SqError(hs[i], ScaledMean(hs), |hs|)
  }

  /**
   * `select_best_frame` as intended: -1 when no slot holds a picture, otherwise
   * the first retained frame closest to the mean histogram.
   */
  function SelectBestFrame(slots: seq<Slot>): (r: int)
    requires ValidSlots(slots)
    ensures r == -1 <==> !slots[0].Filled?
    ensures r != -1 ==> 0 <= r < Retained(slots) && slots[r].Filled?
    ensures r != -1 ==> forall j | 0 <= j < Retained(slots) :: Deviation(slots, r) <= Deviation(slots, j)
    ensures r != -1 ==> forall j | 0 <= j < r :: Deviation(slots, r) < Deviation(slots, j)
    ensures Retained(slots) == 1 ==> r == 0
  {
    var n := Retained(slots);
    if n == 0 then -1
    else
      var hs := HistogramsOf(RetainedFrames(slots));
      var errs := Errors(hs, ScaledMean(hs));
      ErrorsAreDeviations(slots);
      ArgMin(errs)
  }

  lemma ErrorsAreDeviations(slots: seq<Slot>)
    requires ValidSlots(slots)
    ensures var hs := HistogramsOf(RetainedFrames(slots));
      forall j | 0 <= j < Retained(slots) :: Errors(hs, ScaledMean(hs))[j] == Deviation(slots, j)
  {
  }

  lemma {:induction false} BinTotalOfCopies(hs: seq<seq<nat>>, h: seq<nat>, b: nat)
    requires AllHistograms(hs) && |h| == HistSize && b < HistSize
    requires forall i | 0 <= i < |hs| :: hs[i] == h
    ensures BinTotal(hs, b) == |hs| * h[b]
  {
    if hs != [] {
      BinTotalOfCopies(hs[..|hs| - 1], h, b);
      MulPred(|hs|, h[b]);
    }
  }

  /** The mean of identical histograms is that histogram: each frame's error is 0. */
  lemma MeanOfIdentical(hs: seq<seq<nat>>, h: seq<nat>)
    requires AllHistograms(hs) && |h| == HistSize
    requires forall i | 0 <= i < |hs| :: hs[i] == h
    ensures forall b | 0 <= b < HistSize :: ScaledMean(hs)[b] == |hs| * h[b]
    ensures SqError(h, ScaledMean(hs), |hs|) == 0
  {
    forall b | 0 <= b < HistSize
      ensures ScaledMean(hs)[b] == |hs| * h[b]
    {
      BinTotalOfCopies(hs, h, b);
    }
    SqErrorZeroIff(h, ScaledMean(hs), |hs|);
  }

  // ---------------------------------------------------------------------------
  // The selector as written

  /** Slots `select_best_frame` takes for frames: every non-NULL one, since `!f->data` never holds. */
  function Allocated(slots: seq<Slot>): (n: nat)
    ensures n <= |slots|
    ensures forall i | 0 <= i < n :: !slots[i].Unallocated?
    ensures n < |slots| ==> slots[n].Unallocated?
  {
    if slots == [] || slots[0].Unallocated? then 0 else 1 + Allocated(slots[1..])
  }

  /** The loop of video.c:39-54 from `frame_i` on: the value `frame_i` has when it ends. */
  function LastIndexFrom(slots: seq<Slot>, frameI: nat): (last: int)
    requires |slots| == MaxFrames && frameI <= MaxFrames
    requires forall i | 0 <= i < frameI :: !slots[i].Unallocated?
    ensures last == MaxFrames || (frameI <= last + 1 < MaxFrames && slots[last + 1].Unallocated?)
    ensures forall i | frameI <= i < MaxFrames && i <= last :: !slots[i].Unallocated?
    decreases MaxFrames - frameI
  {
    if frameI == MaxFrames then frameI
    else if slots[frameI].Unallocated? then frameI - 1
    else LastIndexFrom(slots, frameI + 1)
  }

  /** `frame_i` after the histogram loop: one less than the non-NULL slots, or 100 when none is NULL. */
  function LastIndexAsWritten(slots: seq<Slot>): (last: int)
    requires |slots| == MaxFrames
  {
    LastIndexFrom(slots, 0)
  }

  lemma {:induction false} LastIndexFromIsAllocated(slots: seq<Slot>, frameI: nat)
    requires |slots| == MaxFrames && frameI <= MaxFrames
    requires forall i | 0 <= i < frameI :: !slots[i].Unallocated?
    ensures LastIndexFrom(slots, frameI) == if Allocated(slots) < MaxFrames then Allocated(slots) - 1 else MaxFrames
    decreases MaxFrames - frameI
  {
    if frameI < MaxFrames && !slots[frameI].Unallocated? {
      LastIndexFromIsAllocated(slots, frameI + 1);
    }
  }

  /**
   * The histogram loop leaves `frame_i` one below the number of non-NULL
   * slots, except when all 100 are non-NULL: then it leaves 100, and the
   * averaging and error loops index row 100 of the 100-row `hists` array.
   */
  lemma LastIndexAsWrittenValue(slots: seq<Slot>)
    requires |slots| == MaxFrames
    ensures Allocated(slots) < MaxFrames ==> LastIndexAsWritten(slots) == Allocated(slots) - 1
    ensures Allocated(slots) == MaxFrames ==> LastIndexAsWritten(slots) == |slots|
  {
    LastIndexFromIsAllocated(slots, 0);
  }

  /**
   * The averaging loops of video.c:62-68, times N: for each bin `j <= frame_i`
   * the inner loop assigns every frame's count in turn, so the last one stays;
   * the division by N is undone by the scaling, and the other bins keep their 0.
   */
  method AverageAsWritten(hs: seq<seq<nat>>) returns (avg: seq<int>)
    requires 0 < |hs| <= MaxFrames && AllHistograms(hs)
    ensures |avg| == HistSize
    ensures forall j | 0 <= j < HistSize :: avg[j] == if j < |hs| then hs[|hs| - 1][j] else 0
    ensures avg == ScaledAverageAsWritten(hs)
  {
    var last := |hs| - 1;
    avg := Empty();
    for j := 0 to last + 1
      invariant |avg| == HistSize
      invariant forall b | 0 <= b < HistSize :: avg[b] == if b < j then hs[last][b] else 0
    {
      for i := 0 to last + 1
        invariant |avg| == HistSize
        invariant forall b | 0 <= b < HistSize && b != j :: avg[b] == if b < j then hs[last][b] else 0
        invariant 0 < i ==> avg[j] == hs[i - 1][j]
      {
        avg := avg[j := hs[i][j]];
      }
    }
  }

  /**
   * The average of video.c:62-68, times N: bin `j <= frame_i` gets the last
   * frame's count (before the division by N), every other bin 0.
   */
  function ScaledAverageAsWritten(hs: seq<seq<nat>>): (t: seq<int>)
    requires 0 < |hs| <= MaxFrames && AllHistograms(hs)
    ensures |t| == HistSize
  {
    var last := |hs| - 1;
    seq(HistSize, j requires 0 <= j < HistSize => if j <= last then hs[last][j] else 0)
  }

  datatype Pick = NoFrame | Picked(index: nat) | ReadsPastEnd

  /** The frames of the slots before the first NULL, which the histogram loop takes as frames `0..frame_i`. */
  function AllocatedFrames(slots: seq<Slot>): (frames: seq<Frame>)
    requires ValidSlots(slots)
    ensures |frames| == Allocated(slots)
    ensures forall i | 0 <= i < |frames| :: WellFormed(frames[i]) && frames[i] == SlotFrame(slots[i])
  {
    seq(Allocated(slots), i requires 0 <= i < Allocated(slots) => SlotFrame(slots[i]))
  }

  /** The error video.c:70-77 computes for frame `i`: the distance from the as-written average. */
  function DeviationAsWritten(slots: seq<Slot>, i: nat): int
    requires ValidSlots(slots) && i < Allocated(slots) < MaxFrames
  {
    var hs := HistogramsOf(AllocatedFrames(slots));
    SqError(hs[i], ScaledAverageAsWritten(hs), |hs|)
  }

  /** `select_best_frame` as written. */
  function SelectAsWritten(slots: seq<Slot>): (p: Pick)
    requires ValidSlots(slots)
    ensures p == NoFrame <==> slots[0].Unallocated?
    ensures p == ReadsPastEnd <==> Allocated(slots) == MaxFrames
    ensures p.Picked? ==> p.index < Allocated(slots) < MaxFrames
    ensures p.Picked? ==>
      forall j | 0 <= j < Allocated(slots) :: DeviationAsWritten(slots, p.index) <= DeviationAsWritten(slots, j)
    ensures p.Picked? ==>
      forall j | 0 <= j < p.index :: DeviationAsWritten(slots, p.index) < DeviationAsWritten(slots, j)
  {
    LastIndexAsWrittenValue(slots);
    var last := LastIndexAsWritten(slots);
    if last == -1 then NoFrame
    else if last == MaxFrames then ReadsPastEnd
    else Picked(ClosestAsWritten(slots))
  }

  /** The error loop of video.c:70-77: the first frame with the least error against the as-written average. */
  function ClosestAsWritten(slots: seq<Slot>): (r: nat)
    requires ValidSlots(slots) && 0 < Allocated(slots) < MaxFrames
    ensures r < Allocated(slots)
    ensures forall j | 0 <= j < Allocated(slots) :: DeviationAsWritten(slots, r) <= DeviationAsWritten(slots, j)
    ensures forall j | 0 <= j < r :: DeviationAsWritten(slots, r) < DeviationAsWritten(slots, j)
  {
    var hs := HistogramsOf(AllocatedFrames(slots));
    ErrorsAreDeviationsAsWritten(slots);
    ArgMin(Errors(hs, ScaledAverageAsWritten(hs)))
  }

  lemma ErrorsAreDeviationsAsWritten(slots: seq<Slot>)
    requires ValidSlots(slots) && 0 < Allocated(slots) < MaxFrames
    ensures var hs := HistogramsOf(AllocatedFrames(slots));
      forall j | 0 <= j < Allocated(slots) :: Errors(hs, ScaledAverageAsWritten(hs))[j] == DeviationAsWritten(slots, j)
  {
  }

  /** A histogram with `count` in bin `b` and zero elsewhere. */
  function Spike(b: nat, count: nat): (h: seq<nat>)
    ensures |h| == HistSize
  {
    seq(HistSize, j requires 0 <= j < HistSize => if j == b then count else 0)
  }

  /**
   * The averaging loop's bound `j <= frame_i` counts frames, not bins: with
   * one frame only bin 0 is averaged, so the frame's own count in bin 5 is lost.
   */
  lemma AverageBoundCountsFrames()
    ensures ScaledAverageAsWritten([Spike(5, 1)])[5] == 0
    ensures ScaledMean([Spike(5, 1)])[5] == 1
  {
    assert |[Spike(5, 1)][..0]| == 0;
  }

  /**
   * The averaging loop assigns instead of accumulating: with counts 2 and 0 in
   * bin 0, the as-written average is 0 where the mean is 1 (2 once scaled by N = 2).
   */
  lemma AverageAssignsInsteadOfSums()
    ensures ScaledAverageAsWritten([Spike(0, 2), Spike(0, 0)])[0] == 0
    ensures ScaledMean([Spike(0, 2), Spike(0, 0)])[0] == 2
  {
    var hs: seq<seq<nat>> := [Spike(0, 2), Spike(0, 0)];
    assert hs[..1] == [Spike(0, 2)];
    assert |hs[..1][..0]| == 0;
    assert BinTotal(hs[..1], 0) == 2;
    assert BinTotal(hs, 0) == 2;
  }

  /**
   * `!f->data` never holds, so a slot the decoder answered EAGAIN into is
   * taken for a frame. When it is the last non-NULL slot, the as-written
   * average is all zeros, that blank frame's error is 0, and the pick is a
   * frame without pixels: the blank one, or an earlier frame just as empty.
   */
  lemma BlankSlotPickedAsWritten(slots: seq<Slot>)
    requires ValidSlots(slots)
    requires 0 < Allocated(slots) < MaxFrames && slots[Allocated(slots) - 1] == Blank
    ensures SelectAsWritten(slots).Picked?
    ensures var f := SlotFrame(slots[SelectAsWritten(slots).index]); f.width * f.height == 0
  {
    LastIndexAsWrittenValue(slots);
    var last := Allocated(slots) - 1;
    var frames := AllocatedFrames(slots);
    var hs := HistogramsOf(frames);
    EmptyHistogramIffNoPixels(BlankFrame);
    assert hs[last] == Empty();
    var t := ScaledAverageAsWritten(hs);
    assert forall j | 0 <= j < HistSize :: t[j] == 0;
    var r := ArgMin(Errors(hs, t));
    assert SelectAsWritten(slots) == Picked(r);
    ClosestToZeroIsEmpty(hs, t, last);
    EmptyHistogramIffNoPixels(frames[r]);
  }

  /** Against an all-zero target, an empty histogram has error 0, so the closest histogram is empty too. */
  lemma ClosestToZeroIsEmpty(hs: seq<seq<nat>>, t: seq<int>, z: nat)
    requires AllHistograms(hs) && |t| == HistSize && forall j | 0 <= j < HistSize :: t[j] == 0
    requires z < |hs| && hs[z] == Empty()
    ensures hs[ArgMin(Errors(hs, t))] == Empty()
  {
    var errs := Errors(hs, t);
    SqErrorZeroIff(hs[z], t, |hs|);
    assert errs[z] == 0;
    var r := ArgMin(errs);
    SqErrorZeroIff(hs[r], t, |hs|);
    forall b | 0 <= b < HistSize
      ensures hs[r][b] == 0
    {
      assert |hs| * hs[r][b] == 0;
    }
  }
}
