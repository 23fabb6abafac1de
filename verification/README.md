# Burst-capture selection of the JumpPhotoshoot detector screen

This project models the one piece of real logic in `DetectorActivity.processImage`
of the JumpPhotoshoot Android app: a small burst-capture state machine that runs on
every camera frame.

- **Busy guard.** `computingDetection` drops a frame while a detection is in flight.
  An accepted frame sets it, and the background task clears it as its last action.
- **Recognition filter.** A recognition survives when it has a location, a confidence
  of at least 0.5 and class id 0. Survivors keep their order and go to the tracker
  with their boxes remapped to frame coordinates.
- **Per-frame metric.** The metric is the vertical centre of the *last* survivor's box,
  read before remapping, divided by the number of *raw* results. It is 0.0 divided by
  that count when nothing survives. With no results at all this is 0.0 / 0, which is NaN.
- **Burst buffer.** There are two parallel queues, one of metrics and one of frame
  snapshots. A capture frame appends one pair; any other frame clears both queues.
- **Drain and select.** Once the queues hold at least 15 pairs, everything is polled out
  and the frame with the greatest metric under `Double.compareTo` is chosen for export.
  Only a strictly greater metric replaces the current best, so the first maximum wins.

Modules, leaves first:

- `Wrappers` (wrappers.dfy): `Option`, which stands for Java's `null`.
- `Metrics` (metrics.dfy): a metric is `Finite(real)` or `NaN`, ordered as `Double.compareTo` orders doubles.
- `Recognitions` (recognitions.dfy): recognitions, the filter as a specification
  (`Survivors`), the source's loop (`FilterLoop`) proved equal to it, and the per-frame `Detect`.
- `Selection` (selection.dfy): the first-maximum specification, the scan as a function, and
  the poll loop as a method.
- `Burst` (burst.dfy): the parallel queues, `Offer` (append or clear) and `Drain` (threshold test and selection).
- `Pipeline` (pipeline.dfy): the state `{busy, buffer}`, `processImage` as one sequential
  step (busy guard, then background completion, then threshold test), runs of frames, and
  whole-burst properties.

Frames and snapshots are an opaque type parameter `F`. The model's output for a frame is an
input. The crop-to-frame matrix is an abstract function `remap` on rectangles.

The model keeps the empty-results case instead of excluding it with a precondition. In Java,
0.0 / 0 is NaN, and `Double.compareTo` ranks NaN above every number. So a burst that holds a
capture frame on which the model found nothing exports the first such frame, whatever the
other frames show (`Pipeline.EmptyFrameWinsBurst`). The code averages only the last survivor
and divides by the raw count, although the apparent intent was a true average. The model
follows the code.

## Model

| member | source | states |
|---|---|---|
| Metrics.CompareTo | app/src/main/java/org/tensorflow/lite/examples/detection/DetectorActivity.java:274 | The comparison is -1, 0 or 1; it is 0 exactly for equal metrics; NaN compares above every finite metric; between finite metrics it is the order of the reals |
| Metrics.Divide | app/src/main/java/org/tensorflow/lite/examples/detection/DetectorActivity.java:235 | Dividing the average by the result count gives NaN exactly when the count is 0 (the average is then 0.0); otherwise a finite quotient that times the count gives back the average |
| Metrics.CompareToAntisymmetric | app/src/main/java/org/tensorflow/lite/examples/detection/DetectorActivity.java:274 | Swapping the arguments of the comparison negates it |
| Metrics.GreaterTransitive | app/src/main/java/org/tensorflow/lite/examples/detection/DetectorActivity.java:274 | The replacement test "compares greater" is transitive |
| Metrics.GreaterTotal | app/src/main/java/org/tensorflow/lite/examples/detection/DetectorActivity.java:274 | Any two distinct metrics are ordered one way and never both ways |
| Recognitions.Survivors | app/src/main/java/org/tensorflow/lite/examples/detection/DetectorActivity.java:218-221 | Every survivor passes the filter (location present, confidence at least 0.5, class 0) and comes from the input, and there are no more survivors than inputs |
| Recognitions.SurvivorsAppend | app/src/main/java/org/tensorflow/lite/examples/detection/DetectorActivity.java:218-231 | Filtering a concatenation concatenates the filtered parts, so survivors keep their input order |
| Recognitions.SurvivorsCount | app/src/main/java/org/tensorflow/lite/examples/detection/DetectorActivity.java:218-231 | Each recognition occurs among the survivors exactly as often as in the input if it passes the filter, and never otherwise |
| Recognitions.SurvivorsComplete | app/src/main/java/org/tensorflow/lite/examples/detection/DetectorActivity.java:218-231 | Every input recognition that passes the filter is forwarded |
| Recognitions.FilterLoop | app/src/main/java/org/tensorflow/lite/examples/detection/DetectorActivity.java:218-234 | The loop only appends to the list of mapped recognitions: the list it starts from is a prefix of its result, which grows by at most one per input |
| Recognitions.FilterLoopMeetsSpec | app/src/main/java/org/tensorflow/lite/examples/detection/DetectorActivity.java:216-234 | The loop's list is exactly the survivors with remapped boxes, and its avg is the centre of the last survivor's unmapped box, or the start value when none survive |
| Recognitions.InitialLoopMeetsSpec | app/src/main/java/org/tensorflow/lite/examples/detection/DetectorActivity.java:213-233 | Started from average 0.0 and an empty list, the loop ends with the last survivor's unmapped centre (0.0 if none) and the remapped survivors in order |
| Recognitions.Detect | app/src/main/java/org/tensorflow/lite/examples/detection/DetectorActivity.java:213-235 | The tracker receives exactly the remapped survivors of the frame's recognitions, in order; the metric is the last survivor's unmapped centre (0.0 if none) divided by the raw result count, which is NaN for an empty result list |
| Recognitions.DetectNoSurvivors | app/src/main/java/org/tensorflow/lite/examples/detection/DetectorActivity.java:213-235 | A non-empty result list of which nothing survives the filter gives the metric 0 |
| Recognitions.ForwardedAreTargets | app/src/main/java/org/tensorflow/lite/examples/detection/DetectorActivity.java:220-237 | Everything the tracker receives has a box, confidence at least 0.5 and class 0, and is an input recognition that passed the filter, with only its box replaced |
| Selection.FirstMaxUnique | app/src/main/java/org/tensorflow/lite/examples/detection/DetectorActivity.java:274-277 | At most one index is the first maximum of a metric sequence |
| Selection.ScanMax | app/src/main/java/org/tensorflow/lite/examples/detection/DetectorActivity.java:268-278 | The scan returns an index in range that is either the best so far or one not yet polled |
| Selection.ScanMaxIsFirstMax | app/src/main/java/org/tensorflow/lite/examples/detection/DetectorActivity.java:268-278 | Started from the first maximum of the polled prefix, the scan ends at the first maximum of the whole sequence |
| Selection.SelectIndex | app/src/main/java/org/tensorflow/lite/examples/detection/DetectorActivity.java:265-278 | The scan started from the first polled pair returns an index in range that is the first maximum of the whole burst |
| Selection.SelectIndexIsFirstMax | app/src/main/java/org/tensorflow/lite/examples/detection/DetectorActivity.java:265-278 | The selected index is the first maximum: nothing compares greater than it and everything before it compares smaller; no other index has that property |
| Selection.TieKeepsFirst | app/src/main/java/org/tensorflow/lite/examples/detection/DetectorActivity.java:274-277 | For metrics 3, 5, 5, 2, ... the first 5 is selected, not the second |
| Selection.FirstNaNWins | app/src/main/java/org/tensorflow/lite/examples/detection/DetectorActivity.java:274-277 | When a burst holds a NaN metric, the first NaN is selected |
| Selection.PollMax | app/src/main/java/org/tensorflow/lite/examples/detection/DetectorActivity.java:265-278 | Polling both queues to the end leaves them empty and returns the metric and frame at the first maximum |
| Burst.Offer | app/src/main/java/org/tensorflow/lite/examples/detection/DetectorActivity.java:240-249 | A capture frame grows both queues by one, with the new pair at the tail and earlier pairs unchanged; otherwise both queues end empty; aligned queues stay aligned |
| Burst.Drain | app/src/main/java/org/tensorflow/lite/examples/detection/DetectorActivity.java:261-278 | Below 15 pairs the queues are unchanged and nothing is exported; at 15 or more both queues end empty and the exported frame is the one at the first maximal metric |
| Pipeline.Accept | app/src/main/java/org/tensorflow/lite/examples/detection/DetectorActivity.java:171-175 | A busy pipeline refuses the frame; an idle one becomes busy with its buffer untouched |
| Pipeline.Complete | app/src/main/java/org/tensorflow/lite/examples/detection/DetectorActivity.java:240-251 | The completion clears the busy flag and appends the frame's metric and snapshot while capturing, or empties both queues otherwise; queues stay aligned |
| Pipeline.Advance | app/src/main/java/org/tensorflow/lite/examples/detection/DetectorActivity.java:171-278 | A busy pipeline drops the frame and changes nothing; an idle one processes it, forwards its report and ends idle with aligned queues |
| Pipeline.ProcessImage | app/src/main/java/org/tensorflow/lite/examples/detection/DetectorActivity.java:165-278 | A busy pipeline drops the frame and changes nothing, tracker included; otherwise the pipeline ends idle, the tracker gets the remapped survivors, and the queues stay aligned |
| Pipeline.ReleaseClears | app/src/main/java/org/tensorflow/lite/examples/detection/DetectorActivity.java:246-249 | A frame without the capture flag leaves both queues empty, whatever they held, and exports nothing |
| Pipeline.CaptureBelowThreshold | app/src/main/java/org/tensorflow/lite/examples/detection/DetectorActivity.java:240-261 | A capture frame that leaves fewer than 15 pairs appends its pair and exports nothing |
| Pipeline.CaptureCompletesBurst | app/src/main/java/org/tensorflow/lite/examples/detection/DetectorActivity.java:240-278 | A capture frame that brings the queues to 15 pairs exports the frame at the first maximum of the burst and leaves the pipeline idle and empty |
| Pipeline.ArrivalWhileBusyDropped | app/src/main/java/org/tensorflow/lite/examples/detection/DetectorActivity.java:171-175 | A frame arriving after an accepted frame and before its completion is dropped and changes nothing |
| Pipeline.Run | app/src/main/java/org/tensorflow/lite/examples/detection/DetectorActivity.java:165-332 | A run yields one outcome per frame and keeps the two queues aligned |
| Pipeline.RunStaysIdle | app/src/main/java/org/tensorflow/lite/examples/detection/DetectorActivity.java:171-261 | In the sequential model no frame is ever dropped, busy is false between frames, and fewer than 15 pairs stay buffered |
| Pipeline.BurstAccumulates | app/src/main/java/org/tensorflow/lite/examples/detection/DetectorActivity.java:240-245 | Capture frames short of a full burst append their metrics and snapshots, in arrival order, after what was buffered |
| Pipeline.BurstMetrics | app/src/main/java/org/tensorflow/lite/examples/detection/DetectorActivity.java:240-241 | Capture frames short of a full burst append their metrics, in arrival order, after the metrics already buffered |
| Pipeline.BurstFrames | app/src/main/java/org/tensorflow/lite/examples/detection/DetectorActivity.java:240-244 | Capture frames short of a full burst append their snapshots, in arrival order, after the snapshots already buffered |
| Pipeline.BurstSavesNothing | app/src/main/java/org/tensorflow/lite/examples/detection/DetectorActivity.java:261 | Capture frames short of a full burst export nothing |
| Pipeline.BurstEndsEmpty | app/src/main/java/org/tensorflow/lite/examples/detection/DetectorActivity.java:261-278 | Capture frames that complete a burst leave the pipeline idle with empty queues |
| Pipeline.BurstSavesOnlyAtEnd | app/src/main/java/org/tensorflow/lite/examples/detection/DetectorActivity.java:261 | Of the capture frames that complete a burst, all but the last export nothing |
| Pipeline.BurstSavesFirstMax | app/src/main/java/org/tensorflow/lite/examples/detection/DetectorActivity.java:261-278 | The frame that completes a burst exports the buffered frame at the first maximal metric of the whole burst |
| Pipeline.BurstSavesSelected | app/src/main/java/org/tensorflow/lite/examples/detection/DetectorActivity.java:261-278 | With the whole burst fixed in advance, the frame that completes it exports the snapshot at the burst's first maximal metric, whatever prefix is already buffered |
| Pipeline.BurstExportsFirstMax | app/src/main/java/org/tensorflow/lite/examples/detection/DetectorActivity.java:240-278 | From start-up, 15 capture frames export exactly once, at the 15th frame, the frame whose metric is the first maximum, and leave the pipeline as it started |
| Pipeline.EmptyFrameWinsBurst | app/src/main/java/org/tensorflow/lite/examples/detection/DetectorActivity.java:235-277 | In a burst of 15 capture frames, the first frame on which the model reported nothing is the one exported |

## Left out

- Camera frame acquisition, `readyForNextImage`, `getRgbBytes` and the bitmap copies and canvases are platform I/O. A frame snapshot is an opaque value `F`.
- The model call `recognizeImage` and the classifier setup in `onPreviewSizeChosen` are foreign calls. This includes the toast and `finish()` when initialisation fails. Each frame's recognitions are a given input.
- `mapRect` is Android floating-point matrix math, so it is the abstract parameter `remap`. The 90-degree rotation and scaling of the exported bitmap are not modelled at all.
- File writes, MediaStore registration, toasts and logging are I/O. The model only names the frame chosen for export. The queues are empty after a drain whether or not the write would succeed.
- The `Semaphore`, `runInBackground` and the unsynchronised busy flag are threading, so the model is a sequential interleaving. In it the background completion runs before the threshold test. In the app the threshold test on the camera thread usually runs before the detection finishes. A full burst is then drained at the next accepted frame, not at the frame that filled it.
- The frame `timestamp`, `lastProcessingTimeMs`, the tracker's own state and the overlay redraws only feed the tracker and the display. The model does output what `trackResults` receives.
- `SAVE_PREVIEW_BITMAP` is a constant false, and the `MODE` switch has a single mode. Neither changes behaviour, so neither is modelled.
- Floating point is not modelled. `centerY` and the division are exact reals, so float rounding, infinities and the signed zero -0.0 (which `Double.compareTo` ranks below 0.0) are not represented. NaN is represented.
- Burst.Drain: requires the two queues to be aligned. In the app the metric is added before the snapshot (lines 241 and 244), and that gap can interleave with the drain loop on the camera thread. If the snapshot queue ends up shorter, the trailing metrics are paired with `null` (lines 266 and 270); the export at line 287 crashes only when the selected first maximum is one of those pairs, and otherwise a normal snapshot is saved. If the snapshot queue ends up longer, every later burst exports the snapshot one position before its maximal metric until a released shutter clears both queues. Every step of the model preserves alignment (`Pipeline.Run`).
- Pipeline.Complete and Pipeline.RunStaysIdle: every accepted detection is assumed to complete. The background task (lines 191-255) has no try/finally, so an exception from `recognizeImage` (line 194) or anything else before line 251 skips `computingDetection = false`; the flag would stay set and every later frame be dropped, and in practice the uncaught exception ends the app. The model has no such failure path, which is why busy is always false between frames in it.
