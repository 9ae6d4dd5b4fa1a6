# Dashboard computer: verified models

Dafny models of the vehicle dashboard computer's stateful code, with proofs
about every input and every run. Eight parts:

* **Serial link** (`Framing`, `Pack15`, `BitCodec`, `BitBuffer`, `PyBitStream`,
  `CarData`, `RecordTable`, `RecordCode`, `SerialLink`, `DeltaLink`, `Crc16`,
  `FrameCheck`, `TelemetryFrame`, `TelemetryLink`): the STX/LF
  framer, the fifteen-bits-in-two-bytes packing, the bit readers in C and in
  Python, the record decoders, the sequence-numbered full/delta protocol over a
  lossy channel, the checksum, and all of it end to end.
* **HUD painter** (`HudScene`, `Hud`): dirty 16 by 16 tiles, per-tile widget
  lists, maximal dirty runs and the sorted paint list, against a full redraw.
* **CAN log** (`CanRing`, `CanShared`, `CanLog`): the lock-free shared-memory
  ring under all interleavings and restarts, the same ring call by call, and the
  log file format.
* **Dashcam monitor** (`DashcamSpec`, `Dashcam`): the power state machine with
  any number of camera mount machines.
* **Input polling** (`InputPoll`): rotors, buttons and the event dispatcher.
* **Replay window** (`ReplayWindow`): signed packets with timestamps.
* **Block copy** (`FileCopy`, `FileTransfer`, `CopyQuery`): the reader thread and its
  one-block slot, and the query that decides what to copy.
* **Firmware clock** (`FwClock`): unwrapping a thirty-bit clock and accounting
  for driving and stopping time.

Code that changes state in place is modelled by classes and loops, proved
against functions on values; the theorems about runs are about those functions.
Two protocols between threads or processes (`CanRing`, `FileCopy`) are state
machines whose steps are the single shared accesses. Machine integers are
natural numbers with their width written out. Clocks, flags, process exits,
device presence, file-system failures and the keyed hash are inputs.
`Bits`, `Sequences` and `Wrappers` hold shared definitions.

## Findings

Properties the code does not have for every input. For each there is a case
that fails and the exact condition under which the property holds.

* `canlog_shmem.c:334`: a sink started on a ring whose write position equals the
  number of records emits a record nobody published
  (`CanRing.PointerAtEndEmitsJunk`): its range test uses `>` where the others use
  `>=`. From every other initial memory all runs are safe (`CanRing.RingIsSafe`).
* `canlog_shmem.c:364-369`: a standard CAN identifier of more than 16 bits is cut in
  the log (`CanLog.WideIdCut`); exactly extended and shorter ones survive
  (`CanLog.IdSurvives`).
* `hud.c:420-422`: a widget selected from the loading of the layout on, and found
  by every pass at the version one below the loaded one (one 32-bit turn later),
  stays unpainted (`HudScene.OneTurnLaterUnpainted`). For a layout with at most 32
  widgets on every tile, the screen is the full redraw, however widgets are drawn,
  exactly if no such widget lies on it (`Hud.Hud.DisplayLoop`, for one pass
  `Hud.Hud.DrawWidgets`).
* `bitstream/bitstream.inc:217`: the frame carries fifteen of the sixteen checksum
  bits. At any place of a received frame, whose words have fifteen bits, a change
  of two adjacent bytes can go unseen exactly if the pattern missed at that place
  leaves the top bit of the word alone, and then it is one change
  (`FrameCheck.UnseenChangeExists`, `FrameCheck.OnlyFlippedPasses`): one in the last
  word, none in the word before it (`FrameCheck.LastWordUnseen`,
  `FrameCheck.SecondLastWordSeen`). Changes of any length go unseen exactly if
  their remainder is the top bit alone (`Crc16.DifferenceMissed`).
* `bitstream/bitstream.inc:251-257`: sixteen delta frames lost in a row go unnoticed
  (`DeltaLink.SixteenLossesCase`), and so can a single lost full frame
  (`DeltaLink.LostFullCase`). Over any run every accepted frame leaves both sides
  with the same record exactly if every delta that arrives with the expected number
  flags all fields that differ from the last accepted frame
  (`DeltaLink.LinkAgreesExactly`).
* `utils.py:273-281`: a clock that goes back can let a packet in twice
  (`ReplayWindow.ReplayAfterClockGoesBack`). For any clock the verdicts are those of
  a verifier that never forgets exactly if no packet repeats a time that passed and
  that a packet in between had cut (`ReplayWindow.PrunedIsIdealExactly`).
* `gpio_poll.c:533-535`: a rotor seen two quarter steps further on counts two
  quarters backwards (`InputPoll.MissedQuartersTurnBack`). The turns add up at every
  moment exactly if every sample is at most one quarter forward or two back from
  the one before, and at a detent or within three quarters of the last one seen
  (`InputPoll.ConservedExactly`).

## Model

| member | source | states |
|---|---|---|
| `Pack15.UnpackPack` | bitstream/bitstream.inc:80-83 | every 15-bit word packs into two bytes of at least 64, not both 192 or more, and the C bit operations of `unpack_15` give the word back |
| `Pack15.PackUnpack` | bitstream/bitstream.inc:80-83 | every such byte pair unpacks to a 15-bit word that packs to the same pair: a bijection |
| `Pack15.Unpack15Bound` | bitstream/bitstream.inc:80-83 | any two bytes at all unpack to fewer than 2^15 |
| `Framing.AfterLf` | bitstream/bitstream.inc:139-151 | a line feed leaves no frame open and adds the payload ending there to the declarative list of payloads |
| `Framing.ClosesFrame` | bitstream/bitstream.inc:139-151 | that payload is the first 256 bytes since the last STX, present if at least two |
| `BitBuffer.Buffer.ParseData` | bitstream/bitstream.inc:108-166 | consumes input up to the end of the next frame; a reported frame is exactly the next payload of the stream so far, otherwise there was none |
| `BitBuffer.Buffer.UnpackInPlace` | bitstream/bitstream.inc:98-106 | the do-while stays in the buffer, ends, and leaves the unpacked 15-bit words of the frame; the framer's state is untouched |
| `BitCodec.BitsAtValue` | bitstream/bitstream.inc:181-206 | the bits meant by a read of n at position c are floor(f / 2^c) mod 2^n of the word string as one number |
| `BitCodec.ReadSplits` | bitstream/bitstream.inc:181-206 | reading a + b bits is reading a, then b |
| `BitCodec.PastEnd` | bitstream/bitstream.inc:181 | bits past the last word are zero |
| `BitBuffer.Buffer.ReadBits` | bitstream/bitstream.inc:181-206 | for 0 to 32 bits: returns exactly the next bits of the flat string, zero-extended past the end, and moves the cursor by exactly that many, within a word |
| `BitBuffer.Buffer.ReadBitsSigned` | bitstream/bitstream.inc:208-214 | the same bits as a two's complement number |
| `PyBitStream.BitStream.ReadBits` | utils.py:178-223 | the Python reader returns the same bits of the same string, although its cursor stops at the end of the buffer |
| `PyBitStream.BitStream.ReadBitsSigned` | utils.py:225-230 | the signed variant likewise |
| `CarData.ParseCarData` | bitstream/bitstream.inc:220-332 | the C decoder writes the record and returns the sequence number of the declarative decoding; on a mismatch it writes nothing and returns -1 |
| `CarData.PyParseCarData` | monitor_hotload.py:2454-2527 | the Python decoder refines the same declarative decoding |
| `CarData.BothRead` | utils.py:178-223 | any sequence of reads gives the same values from both readers, past the end too |
| `CarData.BothDecode` | monitor_hotload.py:2454-2527 | both decoders leave the same record and sequence number for any field table whose widths fit the storage |
| `RecordTable.RecordField` | bitstream/bitstream.inc:16-67 | each of the 50 record fields fits its storage |
| `RecordCode.SentWords` | bitstream/bitstream.inc:80-106 | fields laid out, cut into words and packed are found, after unpacking, at their positions |
| `RecordCode.FramedPayload` | bitstream/bitstream.inc:108-166 | a framed payload without control characters is exactly one more payload of the stream, whatever came before |
| `SerialLink.Receive` | bitstream/bitstream.inc:108-166 | however a stream is cut into calls, and with each frame unpacked in place between calls, the frames are those of the whole stream |
| `SerialLink.RoundTrip` | serial_monitor.py:361-383 | any fields of up to 32 bits that fit in 128 words, packed, framed, received and read, are the fields sent |
| `DeltaLink.FullDecodes` | monitor_hotload.py:2454-2527 | a full frame is accepted whatever was expected and gives the sender's record |
| `DeltaLink.DeltaDecodes` | monitor_hotload.py:2454-2527 | a delta is accepted exactly when its number is the expected one, and then merges the flagged fields |
| `DeltaLink.AcceptsModulo16` | bitstream/bitstream.inc:247-258 | in sync, an arriving delta is accepted if and only if the deltas lost are a multiple of 16 |
| `DeltaLink.AcceptedDeltaIsRight` | bitstream/bitstream.inc:260-270 | an accepted delta is right if and only if the receiver already had every field it does not carry |
| `DeltaLink.LinkAgreesExactly` | monitor_hotload.py:2547-2576 | over any run with any losses, every accepted frame leaves both sides with the same record if and only if every delta that arrives with the expected number flags all fields that differ from the last accepted frame |
| `DeltaLink.LinkAgrees` | monitor_hotload.py:2547-2576 | in particular if, in sync, fewer than 16 deltas in a row and no full frame are lost |
| `DeltaLink.MismatchWaitsForFull` | monitor_hotload.py:2547-2576 | after a mismatch nothing is written and no delta accepted until a full frame arrives, which restores agreement |
| `DeltaLink.SixteenLossesUnnoticed` | bitstream/bitstream.inc:247-258 | after sixteen lost deltas the next is accepted and leaves a wrong record |
| `DeltaLink.SixteenLossesCase` | bitstream/bitstream.inc:247-258 | a concrete run in which that happens |
| `DeltaLink.LostFullCase` | bitstream/bitstream.inc:247-258 | a concrete run in which one lost full frame goes unnoticed and a delta leaves a wrong record |
| `TelemetryFrame.MadeFrameIsIntact` | serial_monitor.py:375-383 | words behind their checksum word form a frame that is dispatched |
| `TelemetryFrame.FrameCarries` | monitor_hotload.py:2958-2964 | such a frame holds the firmware time, the type and, from bit 48 on, the record |
| `TelemetryFrame.RecordFits` | bitstream/bitstream.inc:273-328 | any full or delta frame of the vehicle's 50 fields fits the receiver's buffer |
| `TelemetryLink.Receiver.CheckFrame` | serial_monitor.py:375-383 | an intact data frame is decoded and, if accepted, becomes the last record; any other frame changes nothing |
| `TelemetryLink.Receiver.Arrive` | monitor_hotload.py:2958-2964 | the bytes of a sent record, after any earlier traffic, make of the receiver what the decoding of the sender's layout says |
| `TelemetryLink.Transmit` | monitor_hotload.py:2547-2576 | end to end through packing, framing, checksum and decoder, over any run of records and losses: every record accepted is the one sent if and only if every delta that arrives with the expected number flags all fields that differ from the last accepted frame |
| `Crc16.RegisterDivides` | bitstream/bitstream.inc:169-179 | shifting a message through the register is long division by x^16+x^12+x^5+1 with the register added in front |
| `Crc16.ByteStepIsEightSteps` | bitstream/bitstream.inc:173-177 | the shift-and-xor loop body is eight register steps |
| `Crc16.PyByteStepAgrees` | utils.py:107-110 | the Python loop body with wide integers computes the same register |
| `Crc16.Crc16` | bitstream/bitstream.inc:169-179 | the loop computes the division remainder for messages of every length |
| `Crc16.PyCrc16` | utils.py:104-112 | so does the Python loop, from its starting position |
| `Crc16.CalcCrc` | bitstream/bitstream.inc:216-218 | a frame's checksum covers what follows its first word and drops the top bit |
| `Crc16.BurstDetected` | bitstream/bitstream.inc:169-179 | equally long messages that differ only inside sixteen consecutive bits have different 16-bit checksums |
| `Crc16.AdjacentBytesDetected` | bitstream/bitstream.inc:169-179 | in particular those that differ only in two adjacent bytes |
| `Crc16.DifferenceMissed` | bitstream/bitstream.inc:216-218 | the fifteen carried bits miss a difference of two equally long messages if and only if its remainder is zero or the top bit alone |
| `Crc16.WindowMissed` | bitstream/bitstream.inc:216-218 | in a window of up to sixteen bits anywhere they miss a difference if and only if it is the one pattern that the bits behind it turn into the top bit |
| `Crc16.AtMostOneCollision` | bitstream/bitstream.inc:216-218 | so of three contents of such a window they tell at least two apart |
| `Crc16.LastWindowMissed` | bitstream/bitstream.inc:216-218 | in the last sixteen bits, the carried bits miss a difference if and only if it is x^16+x^12+x^5 shifted to the top |
| `FrameCheck.HandleFrame` | serial_monitor.py:375-383 | a frame is dispatched if and only if its first word is the checksum of the rest |
| `FrameCheck.ChangedChecksumCaught` | serial_monitor.py:375-383 | a frame whose first word alone changed is not dispatched |
| `FrameCheck.ChangedBytesPass` | serial_monitor.py:375-383 | an intact frame with two adjacent bytes behind the first word changed is dispatched if and only if they changed by the one pattern of their place |
| `FrameCheck.OnlyFlippedPasses` | serial_monitor.py:375-383 | the only other content that is dispatched is the one flipped by that pattern |
| `FrameCheck.UnseenChangeExists` | serial_monitor.py:375-383 | among frames that can be received, with words of fifteen bits, a dispatched change at a place exists if and only if the pattern of the place leaves the word's top bit alone |
| `FrameCheck.LastWordUnseen` | serial_monitor.py:375-383 | so it does in the last word |
| `FrameCheck.SecondLastWordSeen` | serial_monitor.py:375-383 | and does not in the word before |
| `FrameCheck.AtMostOnePasses` | serial_monitor.py:375-383 | of all other contents of two adjacent bytes behind the first word, at most one passes |
| `FrameCheck.ChangedEndPasses` | serial_monitor.py:375-383 | a frame whose last two bytes changed passes if and only if they differ by the one missed pattern |
| `HudScene.InsideCovers` | hud.c:39-49 | a pixel inside a widget lies in a tile of the widget's tile range, also for widgets partly off the screen |
| `HudScene.InsertSorted` | hud.c:449-466 | the paint list stays strictly increasing when a widget is inserted at its place |
| `Hud.InsertWidget` | hud.c:449-466 | the in-place insertion sort keeps the list sorted and without duplicates, and adds exactly the widget |
| `HudScene.PaintListIsComposite` | hud.c:480-501 | painting a strictly sorted list that misses no visible widget of a pixel gives the pixel the composition of all visible widgets |
| `HudScene.RunShowsComposite` | hud.c:435-508 | so the paint list gathered over a dirty run is enough at each of its pixels |
| `HudScene.CompositeWhereNoneMissing` | hud.c:417-431 | at a pixel over which no selected widget is missing, the composition is the full redraw |
| `HudScene.ScreenExactly` | hud.c:417-431 | the composition is the full redraw on the whole screen for every way of drawing widgets if and only if no selected but unshown widget lies on it |
| `HudScene.OneTurnLaterUnpainted` | hud.c:420-422 | a widget loaded at one version and first drawn at the one below stays black where the full redraw paints it |
| `HudScene.UntouchedPixel` | hud.c:417-431 | a pixel whose tile no changed widget touches keeps its composition |
| `HudScene.RefreshedCurrent` | hud.c:418-431 | after the visibility pass a widget is shown exactly when selected and not stale, and at its current version |
| `HudScene.ScanStep` | hud.c:470-507 | the shifted-mask scan of a row's dirty bits follows each maximal run |
| `Hud.Hud.LoadWidgets` | hud.c:275-332 | after loading, every tile lists exactly the widgets whose range covers it, in index order |
| `Hud.Hud.UpdateVisibility` | hud.c:417-431 | marks exactly the tiles of widgets whose version or visibility changed |
| `Hud.Hud.PaintPass` | hud.c:433-508 | every dirty tile is repainted to its target, every other keeps its pixels |
| `Hud.Hud.BlitPass` | hud.c:510-527 | the dirty runs are copied to the framebuffer, nothing else |
| `Hud.Hud.DrawWidgets` | hud.c:389-531 | one pass leaves surface and framebuffer equal to the composition of the refreshed widget data; that is the full redraw, however widgets are drawn, if and only if no stale widget lies on the screen |
| `Hud.Hud.DisplayLoop` | hud.c:808-820 | after every pass of any run of version and visibility changes and refreshes the screen is the full redraw, however widgets are drawn, if and only if no widget on it was selected from the load on and found one version below its loaded one by every pass |
| `CanRing.StepKeeps` | canlog_shmem.c:80-120 | every load, store and record access of either side, every arrival and every restart keeps the ring invariant |
| `CanRing.RingIsSafe` | canlog_shmem.c:311-400 | all interleavings are safe if and only if the initial write position is not the ring size: emitted followed by the ring's contents is what was published since the sink started, at most N-2 records are held, the writer's record is not readable, received = dropped + published |
| `CanRing.PointerAtEndEmitsJunk` | canlog_shmem.c:334 | the excluded case: the sink's range test lets that position through and a record nobody published comes out |
| `CanShared.Shared.ProcessFrame` | canlog_shmem.c:207-234 | uninterrupted, the source counts a frame and appends it to the queue, or drops it exactly when N-2 are queued |
| `CanShared.Shared.Drain` | canlog_shmem.c:339-400 | the sink's inner loop appends the encoding of the whole queue to the log and empties it |
| `CanLog.LebRoundTrip` | canlog_shmem.c:356-361 | the time deltas are unsigned LEB128 (section 7.6 of DWARF 5): decoding gives the number and the remaining bytes |
| `CanLog.Sink.WriteRecord` | canlog_shmem.c:339-385 | appends exactly one encoded record, built in the 32-byte buffer, and remembers the later of the two times |
| `CanLog.RecordRoundTrip` | canlog_shmem.c:339-385 | a record decodes to bus, length, identifier, data and time, in front of any rest |
| `CanLog.LogRoundTrip` | canlog_shmem.c:339-385 | so does any sequence of records |
| `CanLog.UniquelyDecodable` | canlog_shmem.c:339-385 | two logs are equal if and only if their entries are |
| `CanLog.IdSurvives` | canlog_shmem.c:364-369 | the logged identifier is the frame's if and only if the frame is extended or its identifier is below 2^16 |
| `CanLog.WideIdCut` | canlog_shmem.c:364-369 | a standard identifier 0x10000 is logged as 0 |
| `CanLog.TimesAreRunningMaximum` | canlog_shmem.c:346-354 | logged time i is the maximum of the recorded times 0 to i |
| `CanLog.RecordFitsBuffer` | canlog_shmem.c:316-385 | a record takes 4 to 30 bytes of the buffer for any 64-bit delta and 4-bit length |
| `CanLog.FileHoldsPublishedFrames` | canlog_shmem.c:311-400 | end to end: at any moment the file decodes to the log of the frames published since the sink started, up to those in the ring |
| `Dashcam.Camera.Check` | dashcam_monitor.py:223-286 | the camera machine, statement by statement, is the specified check |
| `Dashcam.Manager.SetState` | dashcam_monitor.py:142-173 | entering a state sets hub power, deadline, process and what the cameras want |
| `Dashcam.Manager.CheckTransition` | dashcam_monitor.py:338-580 | each state's transition, with its loops over the cameras, is the specified one |
| `Dashcam.Manager.CheckState` | dashcam_monitor.py:175-197 | one poll is the specified poll, and keeps the invariant and its safety consequences |
| `DashcamSpec.PollKeeps` | dashcam_monitor.py:175-197 | every poll keeps the two-level invariant, for any flags, exits and clocks |
| `DashcamSpec.RunIsSafe` | dashcam_monitor.py:338-580 | in every reachable state: with the hub off every camera is unmounted and unwanted, and a camera being copied, restarts included, is mounted |
| `DashcamSpec.UnwantedSettles` | dashcam_monitor.py:223-286 | an unwanted camera is found unmounted by every check later than 55 s and three polling gaps, whatever its scripts do |
| `DashcamSpec.UnmountWaitEnds` | dashcam_monitor.py:566-580 | so the unmount-wait states are always left, for their next state |
| `InputPoll.EventArrives` | monitor_hotload.py:2287-2319 | an event byte made of flags and index means to the dispatcher what was sent |
| `InputPoll.Rotor.Sample` | gpio_poll.c:530-547 | the signed-byte arithmetic on pin levels moves by the quarter turn between samples |
| `InputPoll.CountMatchesSample` | gpio_poll.c:530-547 | for any samples, 64 times the count is the sampled value modulo 256, despite wrap-around |
| `InputPoll.ConservedExactly` | gpio_poll.c:530-547 | 4 times the net events plus the count is the position, with the count within 3, at every moment if and only if every sample is at most one quarter forward or two back from the one before, and at a detent or within three quarters of the last one seen |
| `InputPoll.TurnsConserved` | gpio_poll.c:530-547 | in particular while no quarter step is missed |
| `InputPoll.MissedQuartersTurnBack` | gpio_poll.c:530-547 | two half steps seen at once report a turn the wrong way |
| `InputPoll.Button.OnTick` | gpio_poll.c:454-472 | a tick settles an edge after debouncing, then counts the long press down |
| `InputPoll.Button.OnSample` | gpio_poll.c:548-555 | a changed level restarts debouncing |
| `InputPoll.OneActionPerPress` | gpio_poll.c:454-472 | any stretch of events without a press causes at most one action, a click or a hold |
| `InputPoll.LongPressTiming` | gpio_poll.c:467-471 | while no edge settles, the long-press event comes exactly with the last tick of the count |
| `InputPoll.ClickOrHold` | gpio_poll.c:454-472 | the release after a press is a click if and only if fewer than 49 ticks came between; otherwise the hold event was sent |
| `ReplayWindow.BigEndianRoundTrip` | utils.py:251 | the time field round-trips |
| `ReplayWindow.HmacHelper.BuildMessage` | utils.py:248-255 | a packet is hash, time and payload; a time of more than eight bytes is refused |
| `ReplayWindow.BuiltMessageVerifies` | utils.py:248-255 | for a 32-byte hash, a packet that is built is accepted with its time and payload if and only if the time is in the window and unseen |
| `ReplayWindow.HmacHelper.VerifyMessage` | utils.py:257-305 | verdict and list after a packet are the specified ones, with pruning and sorted insertion in place |
| `ReplayWindow.PrunedIsIdeal` | utils.py:257-305 | for a clock that does not go back, all verdicts equal those of a verifier that never forgets; the list is strictly sorted and holds at most 2*window+1 times |
| `ReplayWindow.PrunedIsIdealExactly` | utils.py:257-305 | for any run and any clock all verdicts equal those of a verifier that never forgets if and only if no packet repeats a time that passed and that a signed packet in between had cut |
| `ReplayWindow.NextVerdict` | utils.py:257-305 | after any history with any clock the next verdict is the ideal one unless the packet passes with a time that passed before and was cut since |
| `ReplayWindow.ReplayAfterClockGoesBack` | utils.py:273-281 | a packet accepted twice when the clock goes back |
| `FileTransfer.Perform` | do_copy.py:408-456 | the reader and copier, critical section by critical section, follow the specified steps under every schedule; a finished copy without a failure leaves the source in the destination |
| `FileTransfer.Transfer.OfferBlock` | do_copy.py:427-436 | the reader's critical section |
| `FileTransfer.Transfer.GetData` | do_copy.py:442-450 | the copier's critical section: an error wins over a waiting block |
| `FileCopy.CopyIsRight` | do_copy.py:408-456 | in every interleaving, the blocks handed over are the file's blocks from the start position, in order; the destination is the source as far as written and its old content from there on; without a failure all of it |
| `FileCopy.CompleteCopy` | do_copy.py:611-660 | a finished copy onto the first bytes of the source makes the destination the source |
| `FileCopy.FailedCopyResumes` | do_copy.py:611-660 | what a failed copy leaves satisfies the condition for resuming at its size |
| `FileCopy.RunsEnd` | do_copy.py:408-456 | no deadlock and no endless run: every run is bounded and can only stop with reader and copier finished |
| `FileCopy.StoppedReaderEnds` | do_copy.py:453-456 | after stop the reader takes at most two more steps, and can take one until it has ended |
| `CopyQuery.LocalQuery` | do_copy.py:478-518 | over every name once: needed files with their present sizes, files to delete, and a total equal to the growth of the destination |
| `CopyQuery.NothingNeededAfterCopy` | do_copy.py:478-518 | after the copy nothing is needed and the files to delete are the same |
| `FwClock.UnwrapIsNext` | monitor_hotload.py:2535-2539 | the unwrapped clock is the least value not before the current one that shows the firmware time |
| `FwClock.FedIsGrowth` | monitor_hotload.py:2535-2566 | the time differences sum to the growth of the clock, rejected frames included, if and only if accepted frames are less than 2^30 ms apart; otherwise they fall short by whole turns |
| `FwClock.ClockStaysAligned` | monitor_hotload.py:2535-2540 | between resets the clock never goes back and the stored time stays that of the last accepted frame |
| `FwClock.ResetChangesNoTime` | monitor_hotload.py:1432-1434 | resetting the clock when a log is opened changes no time difference of any later frame |
| `FwClock.Monitor.ResetClock` | monitor_hotload.py:1432-1434 | the reset clears the clock and keeps the accounts |
| `FwClock.Monitor.ClearMotionState` | monitor_hotload.py:635-640 | clearing starts the accounts with an empty history in whatever state |
| `FwClock.Monitor.HandleDataFrame` | monitor_hotload.py:2530-2576 | the clock never goes back and shows the firmware time; an accepted frame extends the motion history by exactly its time difference |
| `FwClock.Monitor.UpdateMotionState` | monitor_hotload.py:655-674 | the three counters stay the drive time, current halt and completed stops of the history |
| `FwClock.StopsWithinDrive` | monitor_hotload.py:642-674 | completed stops plus the current halt never exceed the drive time |

## Left out

- BitBuffer.Buffer.ParseData: invalid arguments, where the code sets an error and goes on (bitstream/bitstream.inc:117-120), and the STX time stamp, which no decoding uses.
- BitBuffer.Buffer.ReadBits: buffers of odd length, whose last byte is not unpacked (bitstream/bitstream.inc:99) and would be read with a byte of an earlier frame; C's shift of a set bit past bit 31 is taken as dropping it.
- BitBuffer.Buffer.ReadBitsSigned: buffers of odd length; a width of 32, whose result depends on the size of `long` and which no field uses.
- CarData.ParseCarData: buffers of odd length; buffer-size errors of the two record arguments (bitstream/bitstream.inc:223-241).
- TelemetryLink.Transmit: frames of other types and their handlers, corruption on the way (FrameCheck), and the clock and motion accounts (FwClock).
- CarData.PyParseCarData: buffers of odd length, on which the Python reader fails.
- FrameCheck.HandleFrame: frames of odd length; Bluetooth forwarding of the frame and the log line of a rejected one.
- PyBitStream.BitStream.ReadBits: buffers of odd length, on which it fails, and `raw_list`, a list of ready-made values.
- PyBitStream.BitStream.ReadBitsSigned: the same.
- Hud.Hud.DisplayLoop: later layout reloads, because `load_widgets` keeps old `visible` flags (hud.c:290-313), tiles with more than 32 widgets, and pixels beyond 16 tiles of an undersized grid.
- Widget drawing, fonts, framebuffer formats, terminal switching: a widget is a per-pixel function clipped to its rectangle.
- CanRing.RingIsSafe: memory is sequentially consistent; frames with more than eight data bytes, and the re-buffering of partial frames in the source (canlog_shmem.c:286-306), are excluded; a crash between two steps is a restart.
- CanShared.Shared.ProcessFrame: length nibbles above eight, for which the copy runs past the record's data field.
- CanLog.Sink.WriteRecord: compression and flushing of the output file.
- Dashcam.Manager.CheckState: flags are inputs at each read, so the model does not rely on flag writes; writes of flags, notifications, LED, wifi word, serial messages, mount mode and beeps are outputs that nothing modelled reads.
- InputPoll.Button.OnTick: grouping of ticks when polling is late, pin and expander access, and the buffer that collects event bytes.
- ReplayWindow.HmacHelper.VerifyMessage: the keyed hash itself; signatures are compared with an arbitrary function of the message.
- FileCopy.CopyIsRight: short writes, files that change while they are copied, uploads to a server, and spurious wake-ups, which only repeat a test.
- FwClock.Monitor.HandleDataFrame: gear warnings, fan and temperature targets and logging, which the counters do not depend on; speeds are the integers the thresholds compare.
- Bluetooth, menus, text entry, beeper, odometer interpolation, video metadata, network and shell plumbing: user interface, floating-point display or input and output only.
