# purego-thumbnailer: frame selection and archive classification in Dafny

This project models two pieces of the thumbnailer:

- **The video path.** `extract_video_image` in `video.c` decodes up to 100 frames from a stream. It builds a 768-bin RGB histogram for each frame and averages the histograms. It picks the frame whose histogram has the least sum-squared deviation from that average, with the first index winning ties. It then converts that frame to an RGBA buffer.
- **The zip classification of `processZip`** in `archives.go`. It checks the first ten entries of a zip for image extensions with `couldBeImage`. The first match becomes the thumbnail source. A high enough share of matches marks the archive as a comic book (cbz).

Modules, one per file:

- `Base`: the constants `MAX_FRAMES` and `HIST_SIZE`, the libav error codes, and `Option`.
- `Frames`: a decoded frame's width, height, row stride and the bytes of plane 0. Each pixel is read as three consecutive bytes, exactly as the C code reads it.
- `Histograms`: the histogram as the C loop tallies it, and what each bin counts.
- `Selection`:
  - the squared error of `compute_error`;
  - the strict-`<` arg-min;
  - the intended mean over the retained frames, used by `SelectBestFrame`;
  - the selector as written, used by `SelectAsWritten`.
- `Acquisition`: the read/send/receive loop as a state machine over the answers of the demuxer and decoder. Also the slot array the loop leaves and the cleanup pass.
- `Encoder`: the output-buffer shape of `encode_frame`.
- `Pipeline`: `extract_video_image` end to end.
- `Archives`: `couldBeImage`, the entry scan and the comic rule.

The C code computes the average and the errors in doubles. The model uses exact integers instead, scaled by the number of retained frames N:

- the scaled mean of bin b is the bin's total over the frames;
- each error is N² times the exact `compute_error`.

Scaling every error by the same factor does not change which frame is closest.

The comment at video.c:61 says the histograms are averaged, but the loops at video.c:62-68 do not compute a bin-wise mean. The model keeps both. `SelectAsWritten` is what the code computes. `SelectBestFrame` picks against the bin-wise mean. The pipeline uses the corrected selector and the corrected zip rules. The Findings section gives the differences.

## Model

| member | source | states |
|---|---|---|
| Frames.Offset | video.c:45-52 | Every byte the histogram loop reads, row `j`, pixel `i`, channel `k`, lies inside the frame's data when rows advance by the stride |
| Frames.PaddingWriteKeepsPixels | video.c:45-52 | Overwriting a byte beyond `3*width` in a row, or beyond the last row, leaves every pixel the loop reads unchanged |
| Histograms.TallyCounts | video.c:49 | Incrementing bins one component at a time leaves in each bin exactly the number of occurrences of that bin index |
| Histograms.HistogramCountsBins | video.c:45-53 | Bin `b` of a frame's histogram is the number of (pixel, channel) pairs whose bin index `k*256 + value` is `b` |
| Histograms.Histogram | video.c:45-53 | The histogram has 768 bins, and for each of the three channels the 256 bins of that channel sum to `width*height` |
| Histograms.SamePixelsSameHistogram | video.c:45-53 | Two frames with the same size and the same pixel bytes have the same histogram, whatever their strides and padding |
| Histograms.PaddingIgnored | video.c:45-53 | Changing a stride-padding byte never changes the histogram |
| Histograms.EmptyHistogramIffNoPixels | video.c:46-53 | The histogram is all zeros exactly when the frame has no pixels |
| Histograms.SolidColourHistogram | video.c:46-53 | A frame of one colour has `width*height` in the three bins of that colour and 0 elsewhere |
| Selection.SqError | video.c:19-28 | The sum-squared error is never negative |
| Selection.SqErrorZeroIff | video.c:19-28 | The error is 0 exactly when the histogram equals the average in every bin |
| Selection.ScanMin | video.c:72-77 | The strict-`<` scan ends on an index whose error is no larger than any other and strictly smaller than every earlier one |
| Selection.ArgMin | video.c:70-78 | The selected index lies in range, has the least error, and is the lowest index among equal errors |
| Selection.Retained | video.c:39-44 | The frames selected from are the leading slots that hold a decoded picture, stopping at the first that does not |
| Selection.RetainedFrames | video.c:39-44 | The retained frames are exactly the pictures in the leading filled slots, in slot order |
| Selection.SelectBestFrame | video.c:31-81 | -1 exactly when slot 0 holds no picture; otherwise a retained frame whose deviation from the mean is least, the first such on ties, and 0 when a single frame is retained |
| Selection.ScaledMean | video.c:61-68 | The bin-wise mean times N: every bin is at least each frame's count in it, and is 0 exactly when no frame has a count there |
| Selection.MeanBetween | video.c:61-68 | When every frame's count in a bin lies between `lo` and `hi`, the mean of that bin lies between them too (times N: between `N*lo` and `N*hi`) |
| Selection.BinTotalOfCopies | video.c:61-68 | Summing a bin over N copies of one histogram gives N times that bin |
| Selection.MeanOfIdentical | video.c:61-68 | When all retained histograms are equal, the mean is that histogram and its error is 0 |
| Selection.Allocated | video.c:39-44 | The as-written stop test sees the leading non-NULL slots, blank ones included |
| Selection.LastIndexFrom | video.c:39-54 | The histogram loop, run on from `frame_i`, stops one below the first NULL slot at or after `frame_i`, every slot it passes being non-NULL, or runs to 100 when there is no NULL slot |
| Selection.LastIndexAsWrittenValue | video.c:39-44 | After the as-written histogram loop, `frame_i` is the last non-NULL slot, or 100 when all 100 slots are non-NULL |
| Selection.AverageAsWritten | video.c:62-68 | The averaging loops as written leave, times N, the last frame's count in each bin `j <= frame_i` and 0 in every other bin; this is `ScaledAverageAsWritten` |
| Selection.ScaledAverageAsWritten | video.c:62-68 | The as-written average has 768 bins; `AverageAsWritten` proves it is what the loops compute |
| Selection.ClosestAsWritten | video.c:70-78 | Among the frames before the first NULL slot, the index with the least error against the as-written average, the lowest index on ties |
| Selection.SelectAsWritten | video.c:31-81 | As written: no frame exactly when slot 0 is NULL; a read past `hists[99]` exactly when all slots are non-NULL; otherwise the frame before the first NULL slot with the least error against the as-written average, the lowest index on ties |
| Selection.AverageBoundCountsFrames | video.c:62-68 | With one frame, the as-written average leaves bin 5 at 0 where the mean is 1 |
| Selection.AverageAssignsInsteadOfSums | video.c:62-68 | With bin-0 counts 2 and 0, the as-written average of bin 0 is 0 where the mean is 1 |
| Selection.BlankSlotPickedAsWritten | video.c:39-78 | When the last non-NULL slot holds no picture, the as-written selector picks a frame without pixels |
| Acquisition.Advance | video.c:121-163 | One pass decodes at most one frame; it never goes beyond 100 frames; the 100th frame ends the loop with `err == 0`; a blank slot arises only from a receive without a picture |
| Acquisition.Acquire | video.c:114-164 | Every pass before the last read a packet, and for the target stream sent it, got its slot allocated and received a picture or EAGAIN. The last pass ended the loop: a read error (a -1 silenced once a frame is decoded), a send error, ENOMEM when allocating a NULL slot fails, a receive error other than EAGAIN, or the 100th picture with `err == 0`; EOF past the input. The frames are the pictures received, in order, and the slot is left pending exactly after an unanswered receive |
| Acquisition.PassContinues | video.c:121-163 | A pass that does not reach `end:` read a packet and, for the target stream, sent it and received a picture or EAGAIN; the frames stay the pictures received so far |
| Acquisition.PassFinishes | video.c:121-163 | A pass that reaches `end:` leaves the loop in its final state: the code of the read, send or receive call that failed, ENOMEM for a failed allocation, EOF past the input, or 0 after the 100th frame or a silenced -1 |
| Acquisition.EndIsUnique | video.c:114-164 | Two runs over the same answers cannot stop at different passes |
| Acquisition.FinishedIsUnique | video.c:114-164 | The final state is determined by the answers: any two loop states that satisfy the end-of-loop description, with their pass counts, are equal |
| Acquisition.Slots | video.c:117-153 | `frames[]` at `end:` has 100 entries; its non-NULL prefix holds exactly the loop's allocations, and its filled prefix exactly the decoded frames |
| Acquisition.Freed | video.c:186-193 | The cleanup releases slots 0, 1, … in order, never a NULL one, and stops only at a NULL slot or after slot 99 |
| Acquisition.CleanupFreesAllocated | video.c:186-193 | The cleanup pass releases every allocated slot, each once, and nothing else |
| Acquisition.SlotsValid | video.c:143-153 | A decoder that hands out well-formed pictures leaves slots the selector can read |
| Encoder.EncodeFrame | video.c:84-109 | `ENOMEM` exactly when no scaler context can be made; otherwise the buffer has the frame's size, a stride of `4*width`, and `size == stride*height` |
| Encoder.RowsFitBuffer | video.c:97-105 | Every destination row the scaler writes lies inside the allocated buffer |
| Pipeline.RetainedIsDecoded | video.c:143-161 | The selector retains exactly the frames the loop decoded, in order |
| Pipeline.FullLoopReadsPastEnd | video.c:39-72 | When the loop leaves all 100 slots allocated, the as-written selector reads `hists[100]`, while the corrected one picks a decoded frame |
| Pipeline.EagainSlotPickedAsWritten | video.c:143-158 | A loop ending with the EAGAIN slot allocated makes the as-written selector pick a frame without pixels, while the corrected one picks a decoded frame |
| Pipeline.ExtractVideoImage | video.c:111-195 | The loop state after the reads is the one the demuxer and decoder answers determine. An image exists exactly when the result is 0. EOF maps to success, and a 0 result with no frames becomes -1. Any other error is returned unchanged. A failing first read is reported as such. The image is the first decoded frame closest to the mean, lowest index on ties, with that frame's size and an RGBA stride of `4*width`. Every allocated frame is released |
| Pipeline.OnePictureThenEnd | video.c:143-181 | One picture followed by the end of input gives result 0 and an image of that picture's size |
| Pipeline.DecodeErrorAfterPicture | video.c:151-194 | A receive error other than EAGAIN and EOF after a decoded picture is the result, and no image is made |
| Archives.CouldBeImage | archives.go:112-115 | Names shorter than four characters are never images |
| Archives.TailMatches | archives.go:116-121 | On a four-character tail, only ".png" and ".jpg" can match |
| Archives.CouldBeImageMeaning | archives.go:112-123 | `couldBeImage` holds exactly when the lower-cased name ends in ".png" or ".jpg", in any letter case |
| Archives.CouldBeImageReadsTail | archives.go:116 | Names with the same lower-cased last four characters are classified alike |
| Archives.LongExtensionsRejected | archives.go:116-118 | No name ending in ".jpeg" or ".webp", in any letter case, is taken for an image |
| Archives.CouldBeImageIntendedMeaning | archives.go:117-121 | The whole-name test with the four-entry extension list unrolled: it holds exactly when the lower-cased name ends in ".png", ".jpg", ".jpeg" or ".webp" |
| Archives.IntendedExtendsAsWritten | archives.go:116-121 | The whole-name test accepts everything the tail test does, and more on exactly the ".jpeg" and ".webp" names |
| Archives.JpegPageMissed | archives.go:116-117 | "page.jpeg" is rejected although ".jpeg" is in the extension list |
| Archives.CountImages | archives.go:80-88 | The count of candidates is at most the number of names, and 0 exactly when none is a candidate |
| Archives.CountAllImages | archives.go:80-88 | When every name is a candidate, the count is the number of names |
| Archives.ScanEntries | archives.go:75-88 | The scan inspects `min(10, len(files))` entries and counts the candidates among them. `firstImage` is unset exactly when there is none, and otherwise is the lowest-index candidate |
| Archives.ComicAsWritten | archives.go:92 | The comic test holds exactly when there are entries and `imageCount/entries >= 0.9` in exact arithmetic; with no entries the quotient is NaN and the test fails |
| Archives.ClassifyZipAsWritten | archives.go:80-100 | As written: `ErrCantThumbnail` exactly when none of the first ten entries is a candidate, otherwise the first candidate is the source; a comic exactly when the candidates among the first ten entries are at least 90% of all entries, so never with 12 or more entries, and always when there are at most ten entries and all are candidates |
| Archives.ClassifyZip | archives.go:75-100 | Corrected: `ErrCantThumbnail` exactly when no scanned entry is a candidate. Otherwise the first candidate is the thumbnail source. A comic is one where 90% of the scanned entries are candidates; an archive whose scanned entries are all images is a comic |
| Archives.TwelvePages | archives.go:90-95 | Twelve ".png" entries: as written not a comic, corrected a comic |

## Left out

- The libav and libswscale calls are not modelled as code. `av_read_frame`, `avcodec_send_packet`, `avcodec_receive_frame` and `av_frame_alloc` become a sequence of recorded answers, one `Step` per pass of the loop. The scaler context's creation is a boolean. Reads past the recorded answers report EOF.
- The pixel conversion of `sws_scale` and the buffer's contents are not modelled. Only the buffer's shape is modelled.
- `malloc` is assumed to succeed; the C code does not check it.
- The `AVPacket` unref calls are not modelled. They release memory and have no observable effect on the results.
- IEEE double rounding in `compute_error` and the average, and the `float32` ratio in `processZip`, are not modelled. Exact arithmetic is used instead. For the comic rule the two agree on every reachable input, since `imageCount` is at most 10.
- Frame pixel formats are not modelled. Plane 0 is read as packed 3-byte pixels whatever the format, as the C code reads it.
- Pipeline.ExtractVideoImage: requires every decoded picture to hold `3*width` bytes per row inside plane 0 (`DecoderSound`). video.c:45-52 reads that many bytes per row whatever the pixel format. For a planar format such as YUV420P, whose plane 0 holds about `width` bytes per row, those reads run past the row and, on the last rows, past the plane. The model has no representation for bytes outside a frame's data, so it excludes such pictures instead of modelling the out-of-bounds reads.
- C `int` overflow of the histogram counts and of `4*width*height` is not modelled.
- Encoder.EncodeFrame: `av_image_get_buffer_size` failing on zero or oversized dimensions is not modelled. Such a frame is expected to fail at scaler-context creation.
- Name strings are sequences of characters, each standing for one byte. Lower-casing touches only ASCII letters, whereas Go's `strings.ToLower` is Unicode-aware.
- `processRar` (archives.go:155-217) is left out. Its goroutines write shared variables without synchronisation, so its result depends on scheduling. It divides by the number of entries scanned, as `ClassifyZip` does.
- Opening, copying and reading archive entries is not modelled: the temporary files, `zip.NewReader`, `thumbnailArchiveImage` and the recursive `Process`. These are I/O.
- thumbnailer.go is not part of this model. It is an ffmpeg subprocess wrapper and dispatch glue.

## Findings

| source | as written | input that shows it | evidently intended | confidence | as-written member | corrected member |
|---|---|---|---|---|---|---|
| video.c:63 | the averaging loop runs `j` over `0..frame_i`, a frame count, not over the 768 bins | one frame with a count in bin 5 | every bin averaged | high, not executed | Selection.AverageBoundCountsFrames | Selection.MeanOfIdentical |
| video.c:65 | `average[j] = hists[i][j]` assigns the bin of each frame in turn instead of adding it | two frames with bin-0 counts 2 and 0 | `+=`, a bin-wise sum before the division | high, not executed | Selection.AverageAssignsInsteadOfSums | Selection.BinTotalOfCopies |
| video.c:39-44 | when no slot is NULL the loop ends with `frame_i == 100` without the decrement, and lines 63-73 then read `hists[100]` | 100 decoded frames, or 99 and a pending EAGAIN slot | the last index is 99 | high, not executed | Pipeline.FullLoopReadsPastEnd | Selection.SelectBestFrame |
| video.c:41 | `!f->data` never holds, since `data` is an array, so a slot that received EAGAIN is taken for a frame of size 0x0 | a frame, then a packet answered with EAGAIN, then EOF | only slots holding a decoded picture are retained | medium, not executed | Pipeline.EagainSlotPickedAsWritten | Selection.Retained |
| archives.go:116-118 | the extensions are compared with the last four characters only, so ".jpeg" and ".webp" can never match | "page.jpeg" | the whole lower-cased name is compared | high, not executed | Archives.JpegPageMissed | Archives.IntendedExtendsAsWritten |
| archives.go:92 | the candidates among the first ten entries are divided by the number of all entries | twelve ".png" entries | divide by the entries scanned, as `processRar` does at archives.go:211 | high, not executed | Archives.TwelvePages | Archives.ClassifyZip |
