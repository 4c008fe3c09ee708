# Verified model of the camera service

This project models the stateful cores of a Jetson camera service that watches cattle: it keeps the
last two minutes of encoded video of each camera, turns object detections into debounced events, cuts
a clip around each event, drives the PTZ camera on a tour, and keeps its settings across crashes. Each
core is written in the form of the program (classes with fields and arrays updated in place, loops with
invariants), and the properties are proved for every input, every history, or every reachable state.

| file | core |
|---|---|
| `CircularBuffer.dfy`, `RingIndex.dfy` | the overwriting ring of frames with a ghost history, and the clip search |
| `AvcConfig.dfy` | the codec data of a clip, from an AVC configuration record to Annex B, and a reader for Annex B |
| `ObjMonitor.dfy` | the record of one tracked object and what every event does to it; histories of events |
| `ObjHistory.dfy` | every field of that record read off its history: class, flag, gap, flow flag, boxes |
| `Debounce.dfy`, `FlipConfirmation.dfy`, `Thermal.dfy` | what holds of every history: debouncing, optical-flow confirmation, temperature |
| `OptFlow.dfy` | the motion in a box, and which flagged objects the scan of a frame visits, how often and in which order |
| `Analyzer.dfy` | the table of objects, updated in place by the per-frame and per-second loops, each object tied to its history |
| `FrameOrder.dfy` | what follows from the order of the steps in a one-second frame |
| `FlowFrames.dfy` | optical flow over runs of frames: which frames are measured at all |
| `NewtonSqrt.dfy` | the square root behind every distance |
| `Throttle.dfy` | the 60-second throttle in front of the recorder |
| `Settings.dfy` | the settings file: update, start-up recovery and backup as lists of disk states, and whole runs with crashes |
| `Tour.dfy` | the PTZ tour: sequence validation in place, and a transition system of controller and tour threads |
| `Presets.dfy`, `JsonEscape.dfy` | hex presets printed and parsed; JSON escaping of command results |
| `SequenceText.dfy` | the tour sequence as text, let in by its numbers and printed unescaped |
| `PeerTable.dfy` | the peer slots and every UDP port computation |
| `DiskCleaner.dfy` | which recordings are deleted, in which order, and when it stops |

Sizes (ring slots, objects, cameras, peers, devices, presets in a table) are parameters unless a property
depends on the number itself. Timestamps, temperatures' means and motions are exact reals. Clock readings,
outcomes of file and device operations, and choices of other threads are parameters of the modelled steps,
so every lemma quantifies over them. `char` is unsigned, as on the aarch64 target.

Findings of the proofs, each stated below as an exact condition and, where the program falls short, with
an input that shows it:

- A clip request also succeeds when its window falls in a gap between two frames and the later frame has
  an earlier keyframe in reach; the clip is then nothing but lead-in (`ClipSucceedsExactly`,
  `GapGivesOnlyLeadIn`).
- The parameter-set writer drops the start code of a zero-length PPS at the very end of a record
  (`ConversionIsExact`, `EmptyPpsIsLost`); every other well-formed record is converted in full, without SPS too.
- The escape loop drops up to four characters of a result although its buffer would hold them all
  (`KeepsAllExactly`, `TenQuotesLoseFour`).
- The optical-flow scan ends by itself except on frames that clear no flag while the last slot is flagged;
  there it passes over the flagged slots 1001 times in all, so that one frame enters the running average
  again and again (`ScanOptFlow`, `PassesExactly`, `LastSlotRepeats`, `PassesRepeatMotion`).
- Start-up keeps the content in effect, whatever fails or crashes, if and only if the settings file is valid,
  or a .bak is and can be renamed, or the good copy is, has no valid proper prefix and equals a
  valid .bak, if there is one (`RecoveryKeepsExactly`). Three inputs show the rest: a copy cut in front of the line end of the
  settings installed first, which loses only that line end (`LineEndIsLost`, `CutObjectIsWhole`); an older
  good copy that silently takes the place of a .bak that cannot be renamed (`OlderCopyComesBack`); and the
  defaults written over such a .bak when there is no good copy (`DefaultsKeepExactly`).
- An update keeps its promise if and only if the new document validates (`UpdateIsAtomic`), and that can
  fail: a tour sequence with a quote is let in, because the quote is read as the digit 2, and printed
  unescaped (`PrintedReadsBack`, `QuoteIsLetIn`). The commit then leaves no settings but the good copy
  (`InvalidDocument`).
- The repeated passes can touch an average only after a one-second frame without a flow record, or with the
  switch off: otherwise no frame in between is measured at all, and every mean that is compared is the motion
  of one record (`FramesAreMeasuredAlone`, `MeanOfOneRecord`).
- Spacing of debounced raises does not need the class to stay fixed: the threshold of the later raise
  alone bounds the distance (`RaisesAreSpaced`).

## Model

| member | source | states |
|---|---|---|
| CircularBuffer.Ring.AddFrame | circular_buffer.c:98-172 | an accepted frame is appended to the history, an oversize or unmapped one changes nothing; the slots read round from the oldest stay the last N accepted frames, index numbers run on, and the byte total is the sum of the live sizes and never underflows |
| CircularBuffer.Ring.constructor | circular_buffer.c:51-73 | an initialised ring is empty and its frame buffers are distinct fresh memory |
| RingIndex.ReadRoundAfterAdd | circular_buffer.c:134-160 | overwriting the slot at the write position of a ring turns "the last n of the history" into "the last n of the longer history", full or not |
| CircularBuffer.AddAll | circular_buffer.c:98-172 | after any run of buffers the history has grown by exactly the accepted ones, in order and numbered on |
| CircularBuffer.Ring.FindRange | circular_buffer.c:204-237 | the two-phase search over the slots finds the declared range of the live frames, break and all |
| CircularBuffer.Ring.SearchKeyframe | circular_buffer.c:213-223 | the backward search ends at the nearest keyframe at most 50 frames back, else at the frame itself |
| CircularBuffer.Ring.ExtractEventClip | circular_buffer.c:173-275 | a successful call returns deep copies, in fresh memory, of exactly the frames in the range; it fails exactly when there is no range |
| CircularBuffer.ClipSelection | circular_buffer.c:188-275 | with non-decreasing timestamps the clip contains every live frame of the window, nothing after it, and before it only a lead-in of at most 50 frames that starts at the nearest keyframe; a failure means an empty window |
| CircularBuffer.ClipSucceedsExactly | circular_buffer.c:208-237 | success if and only if a live frame lies in the window or the window lies in a gap whose later frame has a keyframe behind it in reach |
| CircularBuffer.GapGivesOnlyLeadIn | circular_buffer.c:208-237 | a keyframe at 0 s and a frame at 100 s: asked for 40 s to 60 s, the call succeeds with a clip that holds no frame of the window |
| CircularBuffer.NoWindowFrameMissing | circular_buffer.c:196-267 | if at most N frames were accepted since the window opened, every window frame of the whole history is in the clip |
| CircularBuffer.KeepRecording | circular_buffer.c:249-267 | frames added later never change a clip that was cut before |
| CircularBuffer.RecordAndSave | circular_buffer.c:403-442 | a clip requested 15 s before and after an event shows that range of the frames accepted until then, whatever is recorded afterwards |
| CircularBuffer.Ring.GetBufferStatus | circular_buffer.c:493-511 | reported counts and duration are those of the live frames |
| AvcConfig.WriteUnits | circular_buffer.c:307-316 | each of the two loops writes a start code and the bytes of each unit it accepts, and stops where the specification stops |
| AvcConfig.WriteParameterSets | circular_buffer.c:289-336 | what is written for any codec data is the SPS units and then the PPS units, each behind a start code |
| AvcConfig.ParameterSetsInOrder | circular_buffer.c:298-335 | for arbitrary bytes the written units are in-bounds, disjoint, increasing slices behind the fixed header, at most 31 + 255 of them |
| AvcConfig.RecordOutput | circular_buffer.c:298-335 | for a well-formed record (section 5.2.4.1 of ISO/IEC 14496-15), with any counts, lengths and trailing extension, the output is its units in order, less an empty PPS that ends the record |
| AvcConfig.UnitsCarryLengths | circular_buffer.c:309-313 | for arbitrary bytes each unit is as long as the two bytes in front of it say |
| AvcConfig.OverrunIsPassedOver | circular_buffer.c:309-315 | a length that overruns the data costs one unit of the count, and the units behind it are read as if it were not there |
| AvcConfig.ConversionIsExact | circular_buffer.c:298-335 | the conversion is complete if and only if the record does not end in an empty PPS |
| AvcConfig.EmptyPpsIsLost | circular_buffer.c:318-335 | a record of one SPS and one empty PPS: the start code of the PPS is not written |
| AvcConfig.SplitOfAnnexB | circular_buffer.c:296-332 | splitting a byte stream of proper NAL units by Annex B of ITU-T H.264 gives them back |
| AvcConfig.ConversionRoundTrip | circular_buffer.c:289-336 | splitting what is written for a record of proper NAL units gives back its SPS and PPS units |
| NewtonSqrt.MySqrt | nvds_utils.c:224-242 | the loop terminates and computes the specified iteration |
| NewtonSqrt.StepShrinksError | nvds_utils.c:237-239 | a step lands at or above the root and, from above it, leaves at most a quarter of the error |
| NewtonSqrt.SqrtIsClose | nvds_utils.c:224-242 | the result's square is within 1e-6 of the number, it is positive for positive numbers, and it is not below the root unless it is the first guess |
| NewtonSqrt.CalculateSqrt | nvds_utils.c:255-258 | the distance is the root of the sum of squares |
| NewtonSqrt.TruncatedSqrtIsExact | nvds_process.c:535-546 | on whole numbers the truncated root is exactly the integer square root |
| NewtonSqrt.ChangeBelow | nvds_process.c:527-547 | a truncated distance is below a limit exactly when there is no earlier position or the squared differences sum to less than the limit squared |
| OptFlow.AddRow | nvds_process.c:651-666 | one row of the motion grid adds its cells' sizes, and the index guard never strikes |
| OptFlow.MeasureMotion | nvds_process.c:619-679 | the mean motion inside the clipped box |
| OptFlow.SpanCovers | nvds_process.c:624-641 | which cells of the grid a side of the box covers, clipped at both ends |
| OptFlow.MotionIsMean | nvds_process.c:643-672 | the motion is the total of the move sizes of all cells of the grid in the box's rows and columns, over their number |
| OptFlow.CorrectionIs | nvds_process.c:516-525 | one is added for every ten pixels, begun or not, that the diagonal falls short of 160, and nothing above |
| OptFlow.FlowEventsAppend | nvds_process.c:604-613 | the flow records of a frame count one after another, in order |
| OptFlow.FlowEventsOfOne | nvds_process.c:604-613 | each one with data counts once, one without data not at all |
| OptFlow.TimesFlag | nvds_process.c:589-728 | passes over a one-second frame with a flow record and the switch on take an object's flag down; passes over any other frame leave it |
| OptFlow.TimesWithoutRecord | nvds_process.c:604-613 | passes over a frame without flow data change nothing, however many there are |
| OptFlow.FlaggedBelowIsExact | nvds_process.c:1509-1527 | the list of flagged slots holds each of them, once, in order |
| OptFlow.PassesExactly | nvds_process.c:1509-1527 | how often the scan passes over each slot: once if it is flagged and the scan ends by itself, its share of 1001 passes if it does not, never if it is not flagged |
| OptFlow.LastSlotRepeats | nvds_process.c:1512-1520 | on a frame that takes no flag down, a last slot flagged alone is passed over 1001 times |
| Analyzer.ObjectTable.constructor | nvds_process.c:51 | a new table is the start of every history |
| Analyzer.ObjectTable.SetObjRect | nvds_process.c:732-766 | the slot of the tracker's id, reduced by the table size, takes the box and the raw class; a bad camera or id changes nothing |
| Analyzer.ObjectTable.CountHeatHit | nvds_process.c:1401-1412 | a classifier hit is counted for its object |
| Analyzer.ObjectTable.Detect | nvds_process.c:309-318 | one confident abnormal detection counts for its object and no other |
| Analyzer.ObjectTable.CheckEvents | nvds_process.c:377-418 | every object of the camera takes the tick step, which CountersMatch, SignsMatch, FlowFlagIsExact and BoxesMatch pin field by field; no other object changes |
| Analyzer.ObjectTable.TickInPlace | nvds_process.c:379-417 | the assignments of the loop body add up to the tick step |
| Analyzer.ObjectTable.ResetAll | nvds_process.c:358-375 | every object of every camera takes the reset step |
| Analyzer.ObjectTable.TriggerNotification | nvds_process.c:452-483 | every flag of the camera is down afterwards; the notification camera is set exactly when some object gets through; the class of the last flagged object is published, through or not |
| Analyzer.PublishedIsLast | nvds_process.c:456-460 | the class published is that of the last flagged object, and the one before when none is flagged |
| Analyzer.ObjectTable.GetOptFlowObject | nvds_process.c:496-507 | the first flagged slot from the start on, or -1 when there is none |
| Analyzer.ObjectTable.ProcessOptFlow | nvds_process.c:589-728 | only the named object changes, by each flow record of the frame in turn |
| Analyzer.ObjectTable.ScanOptFlow | nvds_process.c:1509-1527 | on any frame: the flagged slots are visited once each, in order, the last one included, unless passes leave the flags up and the last slot is flagged, when they are visited round and round, 1001 times in all; each object has changed by its number of passes, and afterwards every flag is down or every flag is as before |
| Analyzer.ObjectTable.CheckForTempNotification | nvds_process.c:1079-1123 | all thermal objects take the temperature step with the average, or none when there is no plausible average |
| Analyzer.ObjectTable.TempPassInPlace | nvds_process.c:1089-1119 | the assignments of that loop body add up to the temperature step |
| Analyzer.ObjectTable.GetTempAvg | nvds_process.c:1005-1015 | the truncated mean of the temperatures counted since it was last started over, 0 without any |
| Analyzer.ObjectTable.GetTempTotal | nvds_process.c:996-1003 | a temperature joins those counted exactly when it is not under the threshold; total and number stay those of the temperatures counted |
| Analyzer.ObjectTable.AddSample | nvds_process.c:942-946 | a sampled temperature is added to its object's moving average |
| Analyzer.ObjectTable.AddValueInPlace | nvds_utils.c:196-221 | the assignments on ring, sum, index and count add up to the sample step |
| Analyzer.ObjectTable.AddCorrectionToAll | nvds_process.c:1146-1164 | each thermal object is corrected unless it already is |
| Analyzer.ObjectTable.DecTempEventTimeGap | nvds_utils.c:245-252 | every positive gap of the thermal camera falls by one |
| Analyzer.ObjectTable.CloseSecondFrame | nvds_process.c:1491-1537 | tick, temperature check, flow scan and triggers of any one-second frame, in this order, for every object of the camera, with or without flow data or the switch; it appends these events to the object's history; with flow data and the switch on, the scan passes exactly once over each FLIP with enough detections; no flag is left up |
| Analyzer.SecondIsHistory | nvds_process.c:1491-1537 | the composed step is what those events make of the object, so the results about histories apply to the table |
| ObjHistory.SignsMatch | nvds_process.c:309-483 | in every history class, notification flag and gap are what the history says: the last class set, anything raised since the last trigger, 300 from the last notification less the gap ticks since |
| ObjHistory.TriggerIsExact | nvds_process.c:452-483 | a trigger takes the flag down whatever the class; a raised object gets through, and starts the 300-count gap, unless it is a FLIP without two confirmations; an object not raised is not touched |
| ObjHistory.FlowFlagIsExact | nvds_process.c:398-415 | with the switch on a tick flags an object for the scan if and only if it found enough detections and a FLIP |
| ObjHistory.BoxesMatch | nvds_process.c:320-342 | in every history the box is that of the last detection, and the box it is compared with that of the last measured second, since the last tick without enough detections, reset or FLIP trigger; the diagonal is that of the last detection |
| FrameOrder.OverTempIsNotified | nvds_process.c:1491-1537 | an over-temperature event is notified in the frame that raises it |
| FrameOrder.RaiseIsNotified | nvds_process.c:1491-1537 | a raise is notified in its own frame, except a FLIP not confirmed; a pass that finds the object not hot takes its class but not its raise |
| Debounce.CountersMatch | nvds_process.c:356-419 | in every history the detection count, the duration and the heat count are what the history says: detections since the last tick, at most the run of good ticks, classifier hits since the last check |
| Debounce.RaiseIsSound | nvds_process.c:377-418 | a raise for a class with threshold T means that each of the last T ticks saw at least 9 detections of its own, with no break or reset in between |
| Debounce.FlagTurnsOnExactly | nvds_process.c:379-398 | a tick turns the flag on if and only if it reaches the raising branch and the heat check, where it runs, finds a hit |
| Debounce.HeatFlagNeedsHit | nvds_process.c:345-353 | with the classifier on a HEAT flag survives if and only if there was a classifier hit since the last heat check or reset |
| Debounce.EnoughTicksRaise | nvds_process.c:377-418 | T ticks with enough detections, threshold T and no reset include a raise, from any state |
| Debounce.RaisesAreSpaced | nvds_process.c:377-418 | two raises are at least as many ticks apart as the later one's threshold |
| FlipConfirmation.CountIsConfirmations | nvds_process.c:589-728 | the confirmation counter is the number of confirming flow records since the last broken tick, reset or FLIP trigger |
| FlipConfirmation.FlipNeedsTwoConfirmations | nvds_process.c:421-482 | a raised FLIP gets through, and starts the 300-count gap, if and only if at least two such confirmations were counted; either way the count starts over |
| FlipConfirmation.ConfirmsExactly | nvds_process.c:681-715 | what a confirmation requires, with the two 30-pixel tests as exact tests on squared distances |
| FlipConfirmation.AverageIsMean | nvds_process.c:671-679 | the running average is the mean of exactly the flow records processed since it was cleared, a record counting as often as the scan passes over it |
| FlipConfirmation.PassesRepeatMotion | nvds_process.c:589-679 | k passes over a frame between the one-second ones put its motion into the average k times |
| FlowFrames.FramesAreMeasuredAlone | nvds_process.c:1491-1537 | over any run of frames with the switch on and a flow record in every one-second frame, the scan passes over no object between the one-second frames, and every one-second scan finds an empty average |
| FlowFrames.FrameKeepsCold | nvds_process.c:1491-1537 | such a frame leaves an object without flag and without average, whatever the tick raised in it |
| FlowFrames.MeanOfOneRecord | nvds_process.c:671-710 | the mean that a record is compared with is then the motion of that record alone |
| Thermal.PushSampleHolds | nvds_utils.c:196-216 | the sample ring holds the last four samples and `sum` is their sum |
| Thermal.TemperatureShown | nvds_utils.c:196-221 | in every history an object with samples shows the rounded mean of its last four plus the correction once or not at all, however often the correction pass runs |
| Thermal.MeanTempIsNearest | nvds_utils.c:218-220 | the shown mean is the whole degree nearest to the mean, halves going away from zero |
| Thermal.OverTempIsSound | nvds_process.c:1087-1120 | an over-temperature event, whether or not the tick of its frame raised the flag already, means that the last over_temp_time evaluated passes were all above average plus difference and that the gap had run out |
| Thermal.OverTempRaisesExactly | nvds_process.c:1087-1120 | a pass raises a flag that was down, and makes an object an over-temperature event, exactly then |
| Thermal.EnoughPassesRaise | nvds_process.c:1096-1111 | over_temp_time passes that find the object hot and its gap run out, without a reset, include a raise, from any state |
| Thermal.OverTempIsSpaced | nvds_process.c:452-483 | between two over-temperature flags of one object its gap was counted down at least 300 times |
| Throttle.EventThrottle.SendEvent | nvds_process.c:253-276 | an event is accepted if and only if 60 s have passed since the last accepted one of its class and camera |
| Throttle.AcceptedAreSpaced | nvds_process.c:253-276 | over any run with any clock readings, the i-th and j-th accepted events are at least 60 (j - i) seconds apart |
| Throttle.SpanHoldsFew | nvds_process.c:253-276 | a span of W seconds holds at most floor(W / 60) + 1 accepted events |
| Throttle.RejectedComesSoon | nvds_process.c:253-276 | a request is turned down only when less than 60 s have passed since the last accepted one of its class and camera, and changes nothing for any other |
| Throttle.ClipWindowsDisjoint | circular_buffer.c:436-442 | the 15 s before / 15 s after windows of accepted events never overlap |
| Settings.UpdateIsAtomic | device_setting.c:492-667 | an update crashed after any step, or failed at any file operation, leaves the old content in effect before the commit rename; from it on the new document is in effect if and only if it validates |
| Settings.UpdateReturns | device_setting.c:644-667 | success means that the settings file is the new document; failure leaves the old content in effect, and in the settings file if the restoring rename works |
| Settings.UpdateSucceedsExactly | device_setting.c:492-667 | an update succeeds if and only if no file operation fails, and then leaves just the new document and the good copy; a failed one whose restoring rename works leaves what was there |
| Settings.InvalidDocument | device_setting.c:644-667 | after the update to a document that does not validate only the good copy is left |
| Settings.RecoveryRestores | device_setting.c:699-760 | the defaults are needed if and only if no copy is valid, or only a .bak that cannot be renamed; a recovery that works puts the effective content into the settings file; as long as a valid .bak can be renamed, that content or a valid part of it stays in effect at every step, with failing opens and writes too, and exactly it if the settings file or .bak is valid |
| Settings.RecoveryKeepsExactly | device_setting.c:699-760 | for start-up with a renamable or not renamable .bak: every outcome of every file operation and every crash keep exactly the content in effect if and only if the settings file is valid, or the .bak is and can be renamed, or the good copy is, has no valid proper prefix and equals a valid .bak, if there is one |
| Settings.DefaultsKeepExactly | device_setting.c:744-758 | with only a .bak that cannot be renamed, the defaults update keeps it in effect exactly before its first step, or up to the commit when there is no settings file |
| Settings.LineEndIsLost | device_setting.c:725-746 | a good copy with a line end behind the object, cut in front of the line end |
| Settings.OlderCopyComesBack | device_setting.c:713-742 | a backup, an update, a crash of the next update and a .bak that cannot be renamed: start-up goes on with the older copy |
| Settings.CutObjectIsWhole | device_setting.c:669-697 | a part of an object with white space behind it that is taken for a settings file is the whole object with less white space; of a document that an update wrote, all of it |
| Settings.BackupKeepsContent | device_setting.c:762-795 | making the good copy, complete, short, or not at all, touches neither the settings file nor the content in effect |
| Settings.RunIsSound | gstream_main.c:1280-1290 | over any run of start-ups and updates with crashes anywhere, whose documents validate and whose .bak can be renamed when needed, the defaults are never needed, the content in effect is the one committed last or a valid part of it, and a started service has it at hand, whatever the parser accepts |
| Settings.RunKeepsContent | gstream_main.c:1280-1290 | over any run whose start-ups find a disk that RecoveryKeepsExactly names, with renames that work or not, the content in effect is always exactly the one committed last if and only if every committed document validates; a start-up that went on has it in the settings file in full |
| Settings.RunIsCrashSafe | gstream_main.c:1280-1290 | the same for every run with working renames from a valid settings file or .bak, for any parser, and from a good copy without a valid proper prefix |
| Settings.Store.UpdateSetting | device_setting.c:492-667 | the call passes through exactly the specified disk states and returns the specified result |
| Settings.Store.WriteAndCommit | device_setting.c:545-667 | the same from the opened temporary file on |
| Settings.Store.EnsureValidSettingsFile | device_setting.c:699-760 | the same for start-up with any outcome of its rename, opens and writes: .bak first, then .good, else the update to the defaults |
| Settings.Store.CreateSettingsBackup | device_setting.c:762-795 | the same for the good copy, with any outcome of its opens and writes |
| Tour.Store.LoadSequence | ptz_control.c:549-590 | a sequence is let in if and only if it is well formed and names configured presets; a refused one changes nothing; of an accepted one flag, stay time, length and every position are stored, and the positions behind stay |
| Tour.StartTakes | ptz_control.c:583-610 | what a finished start command has stored, and the thread it has started |
| Tour.PresetIsStored | ptz_control.c:106-127 | a preset command configures exactly its preset |
| Tour.SequenceIsAsked | ptz_control.c:541-610 | the sequence of a live tour is that of a start command of the run |
| Tour.WaitForCompletion | ptz_control.c:901-938 | the wait gives up early only on a lowered run flag, and otherwise reports the first settled poll or the timeout |
| Tour.RunIsSafe | ptz_control.c:452-610 | the invariant of controller and threads holds in every reachable state of every interleaving |
| Tour.ToursAreSafe | ptz_control.c:391-405 | at most one tour thread is alive, and every preset it drives to or compares is below 12 and configured, even when the static index survives a switch to a shorter sequence; with no tour alive nothing holds the zoom back |
| Tour.SequenceIsFixedWhileRunning | ptz_control.c:583-590 | while a tour thread is alive nothing but the run flag of the sequence changes |
| Tour.TourOrder | ptz_control.c:459-533 | each completed stop compares its position with the one before, and is one move call, or for a zoom-out exactly two at the same position of which only the first holds the zoom back, with the analysis switched on only behind the last; a call may find the camera at the preset and send nothing; positions follow one another round the sequence, and from the second stop on each drives to the preset the sequence names there |
| Tour.RoundVisitsEachOnce | ptz_control.c:525-527 | in every run, after a tour's first advance any n completed stops in a row visit each of the n positions exactly once |
| Presets.HexStr2Val | serial_comm.c:509-523 | the in-place conversion returns the value of the digits |
| Presets.HexValIsPositional | serial_comm.c:509-523 | for any mix of upper and lower case digits that value is the positional base-16 one |
| Presets.ParseStringToHex | serial_comm.c:526-539 | the values of the first tokens between commas, empty tokens skipped |
| Presets.RewrittenIs | serial_comm.c:513-517 | hex digits are rewritten in place to their values, lower case letters to 32 more |
| Presets.TokensSplit | serial_comm.c:526-539 | the tokens of two texts with a comma between are those of the one and those of the other |
| Presets.TokensOfOne | serial_comm.c:526-539 | a text without a comma is one token, an empty one none |
| Presets.PrintPresets | device_setting.c:515-543 | the nested loops print the table row by row in quotes |
| Presets.TableRoundTrip | device_setting.c:184-215 | the printed table is the body of a JSON array of strings (section 5 of RFC 8259, strictly one comma between two strings), and reading every string back gives the same presets, for every table of 11-byte presets |
| Presets.TableFits | device_setting.c:516-517 | the printed table and its terminator fit the buffer |
| SequenceText.AutoMovePtz | ptz_control.c:541-590 | a text is taken for a sequence exactly when its numbers are a well-formed sequence of configured presets |
| SequenceText.PrintedReadsBack | device_setting.c:456 | a sequence text printed unescaped is legal string content that reads back as it was if and only if it has no quote, backslash or control character |
| SequenceText.QuoteIsLetIn | gstream_control.c:737-740 | a text with a quote that is taken for the sequence 2, 1 and stored, and is not legal when printed |
| JsonEscape.EscapeResult | command_handler.c:202-253 | the loop fills its buffer with the escaped form of a prefix and a terminator, in bounds |
| JsonEscape.DropsAtMostFour | command_handler.c:216-220 | with the unsigned stop bound, which wraps for texts under five characters, at most four characters are lost |
| JsonEscape.KeepsAllExactly | command_handler.c:216-220 | exactly when no character is lost |
| JsonEscape.TenQuotesLoseFour | command_handler.c:216-220 | of ten quotes the loop escapes six |
| JsonEscape.EscapeDecodes | command_handler.c:221-252 | every escaped text is legal string content under section 7 of RFC 8259 and decodes to the text with other control characters turned into spaces |
| JsonEscape.ResultReadsBack | command_handler.c:202-253 | the receiver reads a prefix of the truncated text, short of at most its last four characters |
| PeerTable.Peers.FindPeerIndex | webrtc_peer.c:25-37 | the slot of a peer, or -1 exactly when no slot holds it |
| PeerTable.Peers.AddPeer | webrtc_peer.c:126-210 | a peer is added if and only if it is new, its channel exists and a slot is free; it takes the first free slot and that slot's port, and a refusal changes nothing |
| PeerTable.Peers.RemovePeer | webrtc_peer.c:100-123 | exactly the named peer's slot is emptied |
| PeerTable.Peers.Free | webrtc_peer.c:68-83 | every slot is emptied |
| PeerTable.Peers.PortsDistinct | webrtc_peer.c:169-170 | live peers have distinct stream ports when device_cnt >= 2 and max_peers * device_cnt <= 100 |
| PeerTable.BuildUdpSinks | gstream_main.c:1547-1573 | the sinks of both resolutions, two a stream |
| PeerTable.PeerPortIsFed | gstream_main.c:1547-1573 | a peer's RGB, Thermal, RGB2 or Thermal2 port is fed by exactly one sink, of the right camera and resolution; the ports of the third and fourth groups by none |
| PeerTable.UdpPortsDistinct | gstream_main.c:395-409 | equal ports mean equal process, device, stream choice and, for senders, index, when device_cnt * (max_stream_cnt + 2) <= 100 |
| PeerTable.SenderPortIsPeers | gstream_main.c:395-409 | with two devices a sender's port is the one that a peer of that slot, on the channel of that device and choice, is given |
| PeerTable.RecordersFollow | gstream_main.c:395-409 | recorder and event recorder come right behind the senders |
| DiskCleaner.FindOldFiles | python/disk_manager.py:54-87 | the files outside event folders, sorted, and then those in event folders, sorted |
| DiskCleaner.SortIsStable | python/disk_manager.py:82-84 | sorting is by time, keeps the found order of equal times, and loses nothing |
| DiskCleaner.DeletionOrder | python/disk_manager.py:82-87 | no event recording comes before another file, and each group is oldest first |
| DiskCleaner.OrderOfFound | python/disk_manager.py:54-87 | the files to delete are those found, as many, each with its own size and time, those of event folders last, each group oldest first |
| DiskCleaner.NeededMeansPositive | python/disk_manager.py:89-104 | a needed cleanup has a positive target |
| DiskCleaner.FreeingTheTargetIsEnough | python/disk_manager.py:186-193 | a run that frees the target leaves nothing to clean up |
| DiskCleaner.TargetIsExact | python/disk_manager.py:89-104 | where all space is used or free, a cleanup is needed exactly until the target is freed |
| DiskCleaner.DeleteFiles | python/disk_manager.py:204-223 | a prefix is attempted; it ends with enough freed or with every file, and no shorter prefix had freed enough |
| DiskCleaner.Cleanup | python/disk_manager.py:181-228 | nothing happens when no cleanup is needed or no file is found; otherwise the deletion loop runs on the ordered files with the computed target |

## Left out

- GStreamer, DeepStream, curl, libsoup, json-glib, sockets, fork, serial I/O and ffmpeg: their outcomes are parameters.
- CircularBuffer.Ring.AddFrame: one ring is modelled; the camera-id range check, the initialised flag and the mutex that pick and guard one of two rings are not.
- AvcConfig.WriteParameterSets: the frames written behind the parameter sets, and file errors, are not modelled.
- NewtonSqrt.MySqrt: exact reals instead of doubles, so IEEE rounding is not modelled.
- FlipConfirmation.FlipNeedsTwoConfirmations: states the effects behind the check; `g_event_class_id` is set before it, so an unconfirmed FLIP is still published by the sender thread, and that thread can also change the variable between its assignment and the check. The switch is taken to stay on.
- Analyzer.ObjectTable.ScanOptFlow: takes the table to have at most 1000 slots (the program has 300), and every record with data to have as many vectors as its grid has cells.
- Analyzer.ObjectTable.Detect: the program indexes the table by the tracker's id as it is, and only `set_obj_rect_id` reduces it by the table size; an id beyond the table reaches memory outside of the object's row there, which is not modelled.
- Analyzer.ObjectTable.GetTempTotal: the same holds of the id here, and of those of `CountHeatHit` and `AddSample`.
- Analyzer.ObjectTable.TriggerNotification: states what is published by one call; the sender thread that takes the value away is not modelled.
- Thermal.OverTempIsSpaced: takes the trigger to follow in the frame that raised the flag, as the program order has it, and the gap ticks of the other thread to be atomic.
- Thermal.TemperatureShown: the sampling of pixels and the `%` of object ids by the table size are not modelled; the correction setting stays fixed.
- Settings.RecoveryRestores: a write of the restored copy that fails is taken to leave a prefix of the copy.
- Settings.RunIsCrashSafe: takes a needed .bak to be renamable (RunKeepsContent does not); directory entries and the unsynced good copy are taken to be durable; mutual exclusion of load and update (their mutexes are different objects) is not modelled; file modes are not either.
- Settings.RunIsSound: takes every committed document to validate, which the program does not ensure (QuoteIsLetIn); what happens otherwise is in UpdateIsAtomic and InvalidDocument.
- Settings.CutObjectIsWhole: parsing is a parameter; the lemma asks of it only that it rejects a cut text with a brace left open.
- Settings.UpdateIsAtomic: the document is any text; of its fields only the presets and the tour sequence are modelled.
- FlowFrames.FramesAreMeasuredAlone: a reset by another thread is taken to come before the tick of a frame or before its scan, not in between.
- SequenceText.AutoMovePtz: the stop of a running tour in front of the checks and the start of the thread behind them are in the transition system of `Tour`; the state kept beside the sequence is not modelled.
- Tour.TourOrder: the zoom comparison is an opaque choice, because `get_auto_move_zoom_val` reads other bytes than `parse_target_position`; the first stop of a run may be a position of an older sequence; a stopped tour leaves its last stop unfinished.
- Tour.RunIsSafe: the thread function is a transition system, not a method with a loop; a step goes up to the thread's next look at the run flag or at `g_no_zoom`, and takes together only what no other thread touches meanwhile; serial errors inside a move, the pause flag and the `g_auto_ptz_state` copy are not modelled.
- Presets.HexValIsPositional: integers are unbounded; shifts past the width of an int are not modelled.
- JsonEscape.EscapeResult: the message built around the escaped text, and its 4096-byte fallback, are not modelled.
- PeerTable.Peers.AddPeer: the child process is a value; waiting for it to connect is not modelled.
- DiskCleaner.Cleanup: deleting a file is taken to free its size; log cleanup and status output are not modelled.
- Code compiled out by flags, the unused notification queue, configuration loading, logging, drawing, watchdog and restart scripts, `python/camera.py`, `webrtc_sender.c`: plumbing, or only easy members.
