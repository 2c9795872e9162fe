# Verified model of the motor controller firmware

A Dafny model of the hard parts of a field-oriented motor controller and of the
host programs that talk to it, with proofs of what they promise. Each module
follows one source file or one protocol. Objects that the firmware updates in
place are classes with the same fields and methods; text, frames and numbers
are values. `dafny verify dfyconfig.toml` checks everything.

**Flashing over CAN.** `NorFlash` is the memory: pages are erased, a
double-word can be programmed only while it is all ones, any operation may
fail, and a supply failure tears the one in progress. `FlashWriter` gathers
bytes in a 64-bit shadow and erases each page once per session; `Codec`,
`Buffers`, `CommandLine` and `CommandServer` are the bootloader's framing,
buffers, tokenizer and commands; `Bootloader` is the decision a reset ends in:
to serve, or to start the application in flash. `HostText`, `Exchange` and
`FlashHost` are the flashing program on the PC, over a link that loses frames.
The supply may fail before any frame of a command or poll and inside any line,
and the bootloader may come back unnoticed, with its banner waiting in place of
a reply. The main results:

- `FlashHost.Client.FlashImage`: a flash that reports success left exactly the
  image, whatever was lost and wherever power failed, and no other page was
  touched even when it fails. The rest of the last page is all ones for every
  image the bootloader would start and every image of whole pages; for every
  other image `FlashHost.PaddingAtRisk` and `FlashHost.Client.LosesPadding`
  give a run that succeeds without it, so the condition on the image is exact.
  The proof turns on `Exchange.WriteSettles`: a host that takes a block for
  written although it was not is talking to a bootloader with nothing in flash
  it would start.
- The same method says when a flash does succeed: on a healthy part, if no page
  met five faults (lost frames, replies not waited for, supply failures),
  nothing else met any, and the supply held or the image is bootable and longer
  than 384 bytes. What goes wrong is fixed in advance, event by event
  (`FlashHost.Event`), and any sequence of events is allowed. `FlashHost.Client.RecoverFlashSession` and
  `FlashHost.Client.WritePage` are its halves, and
  `FlashHost.Client.LosesBlock` shows why the image matters: for one without a
  bootable vector a single supply failure can be enough to fail the whole
  flash.
- `ReadStream.AcceptedIsRead`: a read is retried with the answers to earlier
  attempts still waiting, some of them cut short by the full response buffer,
  and frames of all of them lost; what the host accepts is still the data.
- `FlashWriter.ProgramSession`: the writer refines "last byte written, ones in
  the rest of the pages touched".
- `CommandServer.Server.Serve`: no frame can make the bootloader touch anything
  but the application.

**Motion.** `ServoPlanner` is the acceleration rule and one sample of it,
`ServoMode` the object around it. `NeverOvershoots` and
`ServoMode.ServoMode.Approach` bound the overshoot of whole moves by the
distance full acceleration covers in one sample; `VelocityBoundExact` says
exactly when the velocity limit holds; `SpeedsUp` and `ComesNear` say how fast
a move gets under way and how soon it is near its target; `StallsExactly` says
exactly where a move never finishes; `ChaseNeverOvershoots` is the bound for a
moving target.

**Voltage.** `PhaseVoltage` and `Foc` follow a voltage request from the circle
limit through the inverse Park transform and centred PWM to the duty registers:
no duty is ever clamped and the motor gets the voltage asked for.
`Foc.ProportionalIntegral` is the current controller over a run.

**Sessions.** `MotorControl` interleaves the control interrupt with the main
loop's starts, stops and flash writes at every point where it can strike, with
`Safety` deciding what trips; `Clock` and `Application` add the lifecycle and
the command deadline. `MotorControl.MotorControlService.RunTicks` says that an
interrupt that trips is the last and leaves the power stage off;
`Application.Application.Loop` is the safety result over whole runs; the one
window in which a motor outlives the operational state is
`Application.Application.Leave`.

**Records in flash.** `Crc32` proves that the checksum detects every burst of
up to 32 bits; `Records`, `CalibrationStore` and `ConfigStore` prove saving,
loading, migration from four older layouts (`CalibrationStore.Migrates`) and
the rejection of corrupted records.

**Snapshots.** `Snapshot` is the producer and the sender, `SnapshotHost` the
host's reassembly; `SnapshotHost.Snap` is the end-to-end result.

**Numeric state machines.** `EncoderPll` (unwrapping modulo a turn), `Safety`
(the stored energy is a maximum over windows), `Cogging` (averaging, circular
gap fill, quantisation).

`Octets` and `Reals` hold the shared helpers. Floating-point numbers are exact
reals, NaN is `None`; sine and cosine are any `s` and `c` with s² + c² = 1, the
root of three any positive `r` with r² = 3.

Where the code does not do what is written about it:

- `WrapNegPiToPi` is described as wrapping to (−π, π]; its result is −π exactly
  when it is given −π (`EncoderPll.WrapNeg`).
- Gap filling is described as copying the nearest valid neighbour; it copies
  the valid bin before the gap throughout (`Cogging.GapFilledFromItsStart`), so
  a bin gets a nearest one exactly in the first half of its gap, with the
  exceptions at the ends of the table that `Cogging.NearestExactly` lists;
  `Cogging.NotNearest` is a calibration that passes with one bin wrong. The
  failure exit after filling cannot be reached (`Cogging.CoggingCal.FillGaps`).
- A move whose remaining distance from rest is below a·dt² never ends and is
  never reported done (`ServoPlanner.StallsExactly`); with a velocity limit
  below half of a·dt a braking sample can leave the limit
  (`ServoPlanner.VelocityBoundExact`).
- The flashing host accepts the banner of a restarted bootloader as the reply
  to `unlock`, `w` and `lock` (`HostText.BannerLooksLikeSuccess`). The
  read-back finds missing data, but not a rest of the last page that is not all
  ones: that is promised exactly for images with a bootable vector and for
  images of whole pages (`FlashHost.Client.FlashImage`,
  `FlashHost.Client.LosesPadding`).
- The host accepts images that reach into the pages of the stored configuration
  (`FlashHost.StoresOverwritten`).
- The snapshot host counts rows and does not remember them, so a frame that
  comes twice makes up for a lost one: in every capture of more than four rows
  the first frame can stand in for the last (`SnapshotHost.DuplicateFools`).
  The table is right exactly if every row that is not all zeros is in one of
  the frames taken before the count was reached (`SnapshotHost.CaptureSnap`),
  which a success promises when no frame comes twice.
- A configuration frame between the end of an encoder calibration and the next
  flash write puts the stored calibration back in force
  (`MotorControl.ReloadLosesResult`); the result survives exactly when nothing
  is stored, the record says the same, or another encoder session is running
  (`MotorControl.MotorControlService.ReloadCalibration`).

## Model

| member | source | states |
|---|---|---|
| `NorFlash.Flash.EraseSector` | fw/bootloader/src/BL_FlashWriter.cc:129-144 | Erasing changes one page only; on success it reads all ones, after a failure it may hold anything |
| `NorFlash.Flash.ProgramDword` | fw/bootloader/src/BL_FlashWriter.cc:85-102 | A double-word takes a value only if it was all ones; a failed operation leaves its eight cells arbitrary and touches nothing else |
| `FlashWriter.FlashWriter.constructor` | fw/bootloader/src/BL_FlashWriter.cc:5-30 | A new writer is locked with nothing gathered |
| `FlashWriter.FlashWriter.Unlock` | fw/bootloader/src/BL_FlashWriter.cc:5-30 | A new session: nothing open, no page touched, and flash reads as it will after the next flush |
| `FlashWriter.FlashWriter.MaybeEraseSector` | fw/bootloader/src/BL_FlashWriter.cc:110-127 | Erases the open page at its first use in the session and never again; success keeps the promised image |
| `FlashWriter.FlashWriter.ProgramShadow` | fw/bootloader/src/BL_FlashWriter.cc:85-102 | Skips programming exactly when flash already reads the shadow; on healthy flash it succeeds iff the double-word is all ones or equal |
| `FlashWriter.FlashWriter.FlushWord` | fw/bootloader/src/BL_FlashWriter.cc:77-108 | Success closes the shadow and keeps the promised image; failure keeps the shadow; on healthy flash it succeeds iff the shadow can be flushed |
| `FlashWriter.FlashWriter.Gather` | fw/bootloader/src/BL_FlashWriter.cc:65-68 | The byte goes to its lane of the shadow, the rest is untouched |
| `FlashWriter.FlashWriter.Leave` | fw/bootloader/src/BL_FlashWriter.cc:56-63 | A byte for another double-word flushes the open one first |
| `FlashWriter.FlashWriter.Fill` | fw/bootloader/src/BL_FlashWriter.cc:65-75 | One more byte in the shadow, flushed once the double-word is complete; behind the vector it leaves the vector alone |
| `FlashWriter.FlashWriter.ProgramByte` | fw/bootloader/src/BL_FlashWriter.cc:51-75 | A stored byte is one step of the session's promise; only its page and the open page change; on healthy flash a byte outside flushed double-words is never refused |
| `FlashWriter.FlashWriter.Lock` | fw/bootloader/src/BL_FlashWriter.cc:32-49 | A successful lock leaves flash equal to the promised image with nothing left in the shadow; on healthy flash it fails iff the shadow cannot be flushed |
| `FlashWriter.FlashWriter.Tear` | fw/bootloader/src/BL_FlashWriter.cc:77-108 | A supply failure in a flush changes the open double-word, or its page if that was still to be erased |
| `FlashWriter.EraseKeepsClean` | fw/bootloader/src/BL_FlashWriter.cc:110-127 | The first erase of a page is already part of the image, and no page is erased twice |
| `FlashWriter.FlushKept` | fw/bootloader/src/BL_FlashWriter.cc:77-108 | Flushing is invisible in the image and keeps the session clean and ready |
| `FlashWriter.GatherKeepsClean` | fw/bootloader/src/BL_FlashWriter.cc:51-75 | Gathering a byte is, in the image, storing it |
| `FlashWriter.ByteStored` | fw/bootloader/src/BL_FlashWriter.cc:51-75 | Leaving, gathering and flushing together store exactly one byte |
| `FlashWriter.ByteAppended` | fw/bootloader/src/BL_FlashWriter.cc:51-75 | A healthy session that writes in order stays able to take the next byte |
| `FlashWriter.AdvanceAhead` | fw/bootloader/src/BL_FlashWriter.cc:51-75 | Writing in order never returns to a flushed double-word |
| `FlashWriter.AfterAt` | fw/bootloader/src/BL_FlashWriter.cc:5-127 | What any stream of stores leaves at each offset: the last byte written there, else ones in touched pages, else the old contents |
| `FlashWriter.ReturnRefused` | fw/bootloader/src/BL_FlashWriter.cc:77-108 | Returning to a flushed double-word flushes iff it holds nothing but that byte |
| `FlashWriter.OpKeepsVector` | fw/bootloader/src/BL_FlashWriter.cc:77-127 | In an erased page no flush of another double-word touches the application's vector |
| `FlashWriter.ProgramAll` | fw/bootloader/src/BL_FlashWriter.cc:51-75 | Any stream keeps the promise step by step; on healthy flash one that never returns to a flushed double-word succeeds |
| `FlashWriter.ProgramSession` | fw/bootloader/src/BL_FlashWriter.cc:5-127 | From unlock to lock: success means flash is exactly the stream's result, each touched page was erased once and no other, and only all-ones double-words were programmed |
| `Codec.ReadVaruint` | fw/bootloader/src/BL_CommandServer.cc:42-70 | Reads at most five bytes, truncating to 32 bits; five continuation bytes read as the largest value |
| `Codec.VaruintDecode` | tools/bootload_test.py:47-59 | The host's reader: at most five bytes, never truncated, none for an unfinished number |
| `Codec.VaruintRoundTrip` | fw/bootloader/src/BL_CommandServer.cc:26-70 | Every 32-bit value survives encoding and both readers, whatever follows |
| `Codec.ReadersAgree` | tools/bootload_test.py:47-59 | The two readers agree exactly on values below 2^32 and on short unfinished input |
| `Codec.HexToI` | fw/bootloader/src/BL_CommandServer.cc:96-118 | A value for one to eight hexadecimal digits and for nothing else |
| `Codec.HexRoundTrip` | fw/bootloader/src/BL_CommandServer.cc:80-118 | Lower- and upper-case spellings read back as the number |
| `Codec.HexBlockAt` | fw/bootloader/src/BL_CommandServer.cc:351-383 | Each pair of digits the host writes reads back as its byte |
| `Buffers.Buffer.WriteVaruint` | fw/bootloader/src/BL_CommandServer.cc:26-40 | A varuint that fits is appended whole; nothing already in the buffer changes |
| `Buffers.Buffer.Write` | fw/bootloader/inc/boot_mjlib.h:98-105 | A write that does not fit is dropped whole |
| `Buffers.Buffer.Consume` | fw/bootloader/src/BL_CommandServer.cc:216-243 | The rest of the buffer moves to the front |
| `CommandLine.Tokenizer.Next` | fw/bootloader/inc/boot_mjlib.h:170-188 | The text up to the next delimiter, of which NUL is one |
| `CommandLine.ParseLine` | fw/bootloader/src/BL_CommandServer.cc:245-310 | Which command a buffer starts with, tokens cut from the whole buffer |
| `CommandLine.WriteLineParses` | fw/bootloader/src/BL_CommandServer.cc:245-310 | A single `w` line parses to its address and data |
| `CommandLine.ReadLineParses` | fw/bootloader/src/BL_CommandServer.cc:245-310 | A single `r` line parses to its address and size |
| `CommandLine.EchoLineParses` | fw/bootloader/src/BL_CommandServer.cc:245-310 | An `echo` line parses to the rest of the buffer, line end included |
| `CommandLine.UnlockLineParses` | fw/bootloader/src/BL_CommandServer.cc:245-310 | `unlock` and its line end |
| `CommandLine.LockLineParses` | fw/bootloader/src/BL_CommandServer.cc:245-310 | `lock` and its line end |
| `CommandLine.ResetLineParses` | fw/bootloader/src/BL_CommandServer.cc:245-310 | `reset` and its line end |
| `CommandServer.Server.constructor` | fw/bootloader/src/BL_CommandServer.cc:127-139 | Starts locked with the banner as its only response |
| `CommandServer.Server.ReadFrame` | fw/bootloader/src/BL_CommandServer.cc:147-214 | What each decoded frame does to the command buffer and which reply goes out: every query is answered, a tunnelled one with all that fits; bytes that do not fit empty the buffer |
| `CommandServer.Server.DecodeFrame` | fw/bootloader/src/BL_CommandServer.cc:147-214 | Addressing, channel and length checks of a frame |
| `CommandServer.Server.WriteResponse` | fw/bootloader/src/BL_CommandServer.cc:216-243 | Sends the next bytes of the response, at most 61, and keeps the rest |
| `CommandServer.Server.FillFrame` | fw/bootloader/src/BL_CommandServer.cc:216-243 | The frame is header, length and payload |
| `CommandServer.CarryMore` | fw/bootloader/src/BL_CommandServer.cc:216-243 | Sending keeps the frames equal to the payloads in order: the response is a queue |
| `CommandServer.Server.WriteByte` | fw/bootloader/src/BL_CommandServer.cc:385-415 | Stores one byte of the application or answers with an error; never outside the application or while locked; a healthy session writing in order accepts it |
| `CommandServer.Server.WritePair` | fw/bootloader/src/BL_CommandServer.cc:351-383 | One pair of digits: exactly one more byte of the block, or an error |
| `CommandServer.Server.WritePairs` | fw/bootloader/src/BL_CommandServer.cc:351-383 | The whole block in address order, or an error after some of it |
| `CommandServer.Server.WriteFlash` | fw/bootloader/src/BL_CommandServer.cc:351-383 | OK exactly when the whole block is stored; a healthy session writing in order has to accept the line |
| `CommandServer.BlockStoredOnce` | fw/bootloader/src/BL_CommandServer.cc:351-383 | A block is stored byte by byte, each address once |
| `CommandServer.Server.ReadMemory` | fw/bootloader/src/BL_CommandServer.cc:312-349 | A readable address answers with the address and the bytes flash holds, behind whatever is waiting and dropping what does not fit; anything outside flash and RAM is refused |
| `CommandServer.Server.ReplyBytes` | fw/bootloader/src/BL_CommandServer.cc:312-349 | The answer spells the bytes in order, each pair dropped if it does not fit |
| `CommandServer.Server.RunUnlock` | fw/bootloader/src/BL_CommandServer.cc:245-310 | Both session flags open, a new promise from the present contents |
| `CommandServer.Server.RunLock` | fw/bootloader/src/BL_CommandServer.cc:245-310 | Does nothing to a locked session; otherwise the session closes iff nothing is left in the shadow, and fails only with an open double-word |
| `CommandServer.Server.RunLine` | fw/bootloader/src/BL_CommandServer.cc:245-310 | Executes the first complete line, as specified for each command, and nothing if there is none; a `reset` line that can lock restarts with the banner |
| `CommandServer.Server.Execute` | fw/bootloader/src/BL_CommandServer.cc:245-310 | Every command's reply, the most it adds to what is waiting, and its effect; a locked session is never changed by a write or a lock |
| `CommandServer.Server.Step` | fw/bootloader/src/BL_CommandServer.cc:141-145 | One frame, one line, from any contents of the command buffer: invariant, confinement and effect; a query sends what is waiting first |
| `CommandServer.Server.Restart` | fw/bootloader/src/BL_CommandServer.cc:127-139 | RAM starts over with the banner queued, and flash is kept |
| `CommandServer.Server.Brownout` | fw/bootloader/src/BL_CommandServer.cc:245-310 | Power failing inside a line leaves every page but the line's own as it was, and a locked session everything |
| `CommandServer.Server.Serve` | fw/bootloader/src/BL_CommandServer.cc:141-415 | For every sequence of frames: nothing outside the application is erased, programmed or changed |
| `CommandServer.PutReadAppends` | fw/bootloader/src/BL_CommandServer.cc:312-349 | An answer behind waiting bytes is appended whole when there is room, and never changes them |
| `Bootloader.Target.TryApp` | fw/bootloader/src/bootloader.cc:143-160 | The bootloader starts what is in flash iff its stack pointer and entry point are those of an application |
| `Bootloader.Target.Boot` | fw/bootloader/src/bootloader.cc:69-141 | A request is consumed and serves; without one the bootloader serves iff it would not start what is in flash |
| `Bootloader.Target.Restart` | fw/bootloader/src/bootloader.cc:69-141 | After a supply failure: locked, nothing open or waiting but the banner, and the decision made anew |
| `Bootloader.Target.Request` | tools/bootload_test.py:101-123 | A request that arrives takes a running application to the bootloader and does nothing to a bootloader |
| `Bootloader.Target.Brownout` | fw/bootloader/src/bootloader.cc:69-141 | The same inside a line, with what the line may have done |
| `Bootloader.Target.Receive` | fw/bootloader/src/BL_CommandServer.cc:141-145 | A serving bootloader takes one step per frame and decides anew after `reset`; an application does nothing |
| `Bootloader.ErasedBootsNot` | tools/bootload_test.py:203-210 | Flash whose stack pointer or entry point ends in an erased byte is not started, so an interrupted page 0 keeps the bootloader |
| `HostText.WriteLineRead` | tools/bootload_test.py:227-277 | The bootloader reads the host's `w` line as the very address and block, and it fits one frame |
| `HostText.ReadLineRead` | tools/bootload_test.py:279-306 | The bootloader reads the host's `r` line as the very address and size |
| `HostText.ReplySplits` | tools/bootload_test.py:279-306 | A read's reply splits into the address and the data it spells |
| `HostText.StripKeepsError` | tools/bootload_test.py:160-194 | Stripping never hides a failure |
| `HostText.BannerLooksLikeSuccess` | tools/bootload_test.py:160-194 | The banner of a restarted bootloader is taken for success, but never for a reply to a read |
| `HostText.FromHex` | tools/bootload_test.py:279-306 | Decodes a text iff it spells a block |
| `HostText.UpperBlockSpells` | fw/bootloader/src/BL_CommandServer.cc:80-86 | What the bootloader writes spells the bytes it read |
| `HostText.ParseInt` | tools/bootload_test.py:284-289 | The number spelled by hexadecimal digits, however many, and nothing else |
| `ReadStream.WordsOfLine` | tools/bootload_test.py:279-306 | Two fields of a stripped line are two words of the text with nothing but blanks around them |
| `ReadStream.PutReadRun` | fw/bootloader/src/BL_CommandServer.cc:312-349 | What a read adds to a full buffer: one run of its answer, cut only where the buffer ends, without its address only when the buffer is nearly full |
| `ReadStream.StaleRead` | fw/bootloader/src/BL_CommandServer.cc:312-349 | What repeated reads leave waiting is a stream of answers to them, each whole or cut short by a full buffer |
| `ReadStream.StaleDrop` | fw/bootloader/src/BL_CommandServer.cc:216-243 | Taking whole frames leaves such a stream |
| `ReadStream.NoRestart` | tools/bootload_test.py:279-306 | In a line of two words the second does not run into another answer: its data would be a third |
| `ReadStream.LateStart` | tools/bootload_test.py:279-306 | Nor is it an address that the frame cuts off |
| `ReadStream.FullFrame` | fw/bootloader/src/BL_CommandServer.cc:216-243 | A frame without a line end lies inside one answer from its thirteenth byte on |
| `ReadStream.EndLabel` | tools/bootload_test.py:160-194 | A word that goes on in a later frame ends where an answer's data ends, and that frame is the last and short |
| `ReadStream.FrameStarts` | fw/bootloader/src/BL_CommandServer.cc:216-243 | Behind a frame that ends just before a line end no later frame starts just inside the data |
| `ReadStream.WordLabels` | tools/bootload_test.py:279-306 | The second word is the data of one answer, byte for byte, though frames between its parts were lost |
| `ReadStream.AcceptedIsRead` | tools/bootload_test.py:279-306 | Whichever frames of however many stale or cut answers get through: in a line of two words whose second is as long as the data, it is the data of the read, and after a full block nothing is waiting |
| `ReadStream.BannerIsNoAnswer` | tools/bootload_test.py:279-306 | A line with a banner in it is never two fields, whatever stands before it |
| `Exchange.GatherMore` | tools/bootload_test.py:160-194 | Each frame received extends the gathered text by the next whole frame |
| `Exchange.PollStep` | tools/bootload_test.py:160-194 | One poll, lost or answered, or met by a restart, keeps the account of what was gathered or ends it |
| `Exchange.SparesExchange` | tools/bootload_test.py:160-194 | Wherever the supply fails, a command spares what it does not name |
| `Exchange.WriteSettles` | tools/bootload_test.py:227-277 | What the host takes for a block written was stored, or the bootloader is astray with at most 39 bytes waiting |
| `Exchange.WriteTaken` | tools/bootload_test.py:227-277 | A write taken for done by a bootloader not astray was done with the supply holding; by one astray, it met a supply failure or used up some of what was waiting |
| `Exchange.LockSettles` | tools/bootload_test.py:308-335 | After a lock taken for done flash is as before and nothing is waiting |
| `Exchange.UnlockSettles` | tools/bootload_test.py:196-225 | After an unlock taken for done nothing is open, marked or waiting |
| `Exchange.UnlockTaken` | tools/bootload_test.py:196-225 | An unlock taken for done opened a session, or the supply failed and nothing is there to start |
| `Exchange.ReadStaysStale` | tools/bootload_test.py:279-306 | Every read, answered or not, leaves a stream of answers to itself |
| `Exchange.ReadAccepted` | tools/bootload_test.py:279-306 | A read the host accepts shows what flash holds |
| `FlashHost.WriteFrameDecodes` | tools/bootload_test.py:62-64 | The bootloader takes a tunnelled frame apart as the host put it together, whatever the padding |
| `FlashHost.PollFrameDecodes` | tools/bootload_test.py:67-69 | The same for a poll |
| `FlashHost.ResponseFrameParses` | tools/bootload_test.py:72-80 | The host recovers each payload despite padding, and every response fits a CAN-FD frame |
| `FlashHost.BlockExtends` | tools/bootload_test.py:227-277 | Storing the next block extends the page's image by it |
| `FlashHost.BlockInStep` | tools/bootload_test.py:227-277 | Blocks written in order keep the shadow in step |
| `FlashHost.BlockCloses` | tools/bootload_test.py:227-277 | A block of whole double-words leaves none of its bytes only in the shadow |
| `FlashHost.FlashedNext` | tools/bootload_test.py:308-335 | Page by page, the application becomes the image |
| `FlashHost.PaddingErased` | tools/bootload_test.py:308-335 | Padding the last double-word with ones changes nothing |
| `FlashHost.WholePages` | tools/bootload_test.py:308-335 | An image of whole pages that reads back leaves no rest of a page |
| `FlashHost.ImageBoots` | fw/bootloader/src/bootloader.cc:143-160 | An image with a bootable vector, once in flash, is started |
| `FlashHost.LaterPage` | fw/bootloader/src/bootloader.cc:143-160 | Writing any page but the first does not change whether it is |
| `FlashHost.FlashedBoots` | fw/bootloader/src/bootloader.cc:143-160 | Flashed, an image is started exactly if its vector is one |
| `FlashHost.VectorHolds` | fw/bootloader/src/bootloader.cc:143-160 | With a vector of an application in place no restart goes unnoticed |
| `FlashHost.ProgressNext` | tools/bootload_test.py:227-277 | However an attempt goes on, it has lost at most four blocks for each supply failure |
| `FlashHost.PaddingAtRisk` | tools/bootload_test.py:308-335 | For every other image there is flash that holds it, is not started and goes on behind it |
| `FlashHost.BlockAccepted` | tools/bootload_test.py:227-277 | A block appended in order is accepted |
| `FlashHost.StoresKept` | tools/bootload_test.py:308-312 | An image of up to 440 KiB leaves configuration and calibration alone |
| `FlashHost.StoresOverwritten` | fw/middleware/inc/middleware/persistence/runtime_config_store.h:27-32 | A larger one the host still accepts replaces the configuration page |
| `FlashHost.Client.ParseFrame` | tools/bootload_test.py:72-80 | The payload of a response frame, or the error |
| `FlashHost.Client.Poll` | tools/bootload_test.py:134-144 | One poll takes the next frame or loses it, or meets a banner; it changes no flash; lost frames and supply failures are counted |
| `FlashHost.Client.Collect` | tools/bootload_test.py:160-194 | A reply is made of whole frames of what was waiting, in order, some missing, and ends with the frame that brings a line end, or it ends in a banner; with nothing lost it is the whole |
| `FlashHost.Client.Sag` | tools/bootload_test.py:258-262 | The supply may fail before any frame; the bootloader then decides anew |
| `FlashHost.Client.Send` | tools/bootload_test.py:160-194 | A command frame is lost, executed, or cut off with the supply, which may also fail before it |
| `FlashHost.Client.Command` | tools/bootload_test.py:160-194 | From any bytes still waiting, with the supply failing before, during or after the line: what the frame met, what it did, which frames the reply is made of |
| `FlashHost.Client.WriteBlock` | tools/bootload_test.py:227-277 | A block taken for written was stored and the session goes on in order, or the bootloader has gone astray: restarted, locked, nothing to start; without a supply failure the latter only uses up what was left waiting. With nothing lost one written in order succeeds; a vector already written stays |
| `FlashHost.Client.Unlock` | tools/bootload_test.py:196-225 | An unlock taken for done opened a session, or the supply failed and nothing is there to start; with nothing lost it succeeds |
| `FlashHost.Client.EchoReady` | tools/bootload_test.py:196-225 | After any echo nothing is waiting; with nothing lost it is `ready` |
| `FlashHost.Client.DrainBanner` | tools/bootload_test.py:146-158 | Eight frames taken leave nothing waiting, restarts in between included |
| `FlashHost.Client.Enter` | tools/bootload_test.py:101-123 | An application that gets the request restarts into the bootloader; flash stays as it is |
| `FlashHost.Client.RecoverOnce` | tools/bootload_test.py:196-225 | With nothing lost one go opens a session, from the bootloader or the application |
| `FlashHost.Client.RecoverFlashSession` | tools/bootload_test.py:196-225 | Recovery keeps flash; it fails only after five faults; success leaves an open session or follows an unnoticed supply failure; with nothing lost it succeeds, whether bootloader or application was running, and the session takes any page from its first byte on |
| `FlashHost.Client.WriteBlocks` | tools/bootload_test.py:227-277 | One attempt at a page, cut anywhere between or inside its blocks, leaves its image, fails, or ends with the bootloader astray; it touches only that page |
| `FlashHost.Client.TryPage` | tools/bootload_test.py:227-277 | One attempt at a page that starts free or astray |
| `FlashHost.Client.Retry` | tools/bootload_test.py:227-277 | A new session and the page from its first block: it fails only if it met a fault |
| `FlashHost.Client.WritePage` | tools/bootload_test.py:227-277 | A page that reports success holds its data then ones, or the bootloader is astray; no other page changes. On a healthy part it fails only if it met five faults, and goes astray only if the supply failed; on the first page of a bootable image at most 96 bytes are lost so for each supply failure. After a failed attempt the rest is written eight bytes at a time |
| `FlashHost.Client.VerifyOnce` | tools/bootload_test.py:279-306 | With stale answers to earlier attempts waiting, a read-back succeeds only if flash holds the block, and a full block leaves nothing waiting |
| `FlashHost.Client.ReadVerifiedBlock` | tools/bootload_test.py:279-306 | Up to five attempts, each with the late answers of the ones before still waiting: success means flash holds the block |
| `FlashHost.Client.VerifyImage` | tools/bootload_test.py:308-335 | A verified image is in flash, late and lost replies included |
| `FlashHost.Client.WritePages` | tools/bootload_test.py:308-335 | Every page as promised, or nothing in flash that the bootloader would start; no other page touched; all of them as promised if no page met five faults and the supply held or the image is guarded |
| `FlashHost.Client.ProgramImage` | tools/bootload_test.py:308-335 | Unlock, pages, lock: the whole memory is as specified, or holds nothing to start; with faults only inside pages, fewer than five in each, it succeeds |
| `FlashHost.Client.FlashImage` | tools/bootload_test.py:308-335 | Success means the application is the image, whatever was in flash, lost or cut off; the rest of its last page is ones for every bootable image and every image of whole pages; no page outside it changes even on failure. On a healthy part it succeeds if no page met five faults, nothing else met any, and the supply held or the image is bootable and longer than 384 bytes; with no fault at all the application is then started iff its vector is one |
| `FlashHost.Client.SendReset` | tools/bootload_test.py:308-335 | The last command changes no flash; if it is not lost the bootloader starts the application exactly if there is one |
| `FlashHost.Client.LosesPadding` | tools/bootload_test.py:160-194 | For every other image: a run in which the host accepts every reply and finds the image, yet the rest of its last page was never erased |
| `FlashHost.BlockMissing` | tools/bootload_test.py:308-335 | Without its last block an image is neither started nor in flash |
| `FlashHost.Client.LosesBlock` | tools/bootload_test.py:227-277 | For every image without a bootable vector whose last block shows: the run in which one supply failure, before that block's frame, makes the whole flash fail, with all but that block in flash |
| `FlashHost.Client.FlashFile` | tools/bootload_test.py:342-386 | The same for the whole program, bootloader or application running, whatever is waiting in the response; the command buffer holds no part of a line |
| `ServoPlanner.AccelerationAtMost` | fw/math/inc/math/servo_mode/servo_mode.h:336-375 | The commanded acceleration never exceeds the limit |
| `ServoPlanner.VelocityBound` | fw/math/inc/math/servo_mode/servo_mode.h:455-503 | With a·dt at most twice the limit no sample leaves the larger of limit and present speed |
| `ServoPlanner.VelocityBoundExact` | fw/math/inc/math/servo_mode/servo_mode.h:336-503 | That condition is exact: the bound holds for all states iff a·dt is at most twice the limit |
| `ServoPlanner.VelocityReversal` | fw/math/inc/math/servo_mode/servo_mode.h:468-477 | The counterexample family: a braking sample that reverses into a higher speed |
| `ServoPlanner.KeepsStoppable` | fw/math/inc/math/servo_mode/servo_mode.h:336-375 | A sample not altered by the velocity clamp keeps the target ahead and reachable |
| `ServoPlanner.BrakingConserves` | fw/math/inc/math/servo_mode/servo_mode.h:352-373 | A braking sample keeps v²/(2·dx) exactly constant |
| `ServoPlanner.KeepsChasing` | fw/math/inc/math/servo_mode/servo_mode.h:347-531 | The run invariant behind a target that moves, at any speed within the limit, clamping and both directions included |
| `ServoPlanner.KeepsSettled` | fw/math/inc/math/servo_mode/servo_mode.h:455-503 | The same for a target at rest, where it is the invariant of a move |
| `ServoPlanner.MoveSettles` | fw/math/inc/math/servo_mode/servo_mode.h:455-521 | Any number of samples stays within the start or half a sample's acceleration |
| `ServoPlanner.NeverOvershoots` | fw/math/inc/math/servo_mode/servo_mode.h:336-521 | From rest, however far and however long: never past the target by more than a·dt²/2 |
| `ServoPlanner.StepMirrored` | fw/math/inc/math/servo_mode/servo_mode.h:336-503 | Both directions are treated alike |
| `ServoPlanner.StallsExactly` | fw/math/inc/math/servo_mode/servo_mode.h:352-374 | At rest short of the target the planner stands still for ever iff less than a·dt² is left |
| `ServoPlanner.DoneAccuracy` | fw/math/inc/math/servo_mode/servo_mode.h:478-494 | A move reported done ended within 10·a·dt² of its target |
| `ServoPlanner.SpeedsUp` | fw/math/inc/math/servo_mode/servo_mode.h:336-503 | As long as there is room, the speed after n samples is exactly the smaller of n·a·dt and the limit |
| `ServoPlanner.ComesNear` | fw/math/inc/math/servo_mode/servo_mode.h:336-521 | Within the number of samples its first speed needs for the way, and one more, a move from rest is no farther from its target than its speed's reach |
| `ServoPlanner.MoveMirrored` | fw/math/inc/math/servo_mode/servo_mode.h:336-521 | A move the other way is its mirror image |
| `ServoPlanner.FrameShift` | fw/math/inc/math/servo_mode/servo_mode.h:347-371 | Seen from a target that moves at vf, a sample is that of a target at rest |
| `ServoPlanner.ChaseNeverOvershoots` | fw/math/inc/math/servo_mode/servo_mode.h:347-531 | A target that moves within the velocity limit, met from its own speed, is never passed by more than a·dt²/2 |
| `ServoMode.NormalizedWithin` | fw/math/inc/math/servo_mode/servo_mode.h:261-312 | After normalisation no command exceeds its limit or the ceiling, and one already within is left alone |
| `ServoMode.ServoMode.NormalizeCommandLimits` | fw/math/inc/math/servo_mode/servo_mode.h:261-312 | The limits in force: given, default or ceiling, negative switching them off |
| `ServoMode.ServoMode.SetCommand` | fw/math/inc/math/servo_mode/servo_mode.h:107-112 | Installs the normalised command and restarts the trajectory |
| `ServoMode.ServoMode.EnsureControlState` | fw/math/inc/math/servo_mode/servo_mode.h:314-334 | Where a trajectory starts when there is none |
| `ServoMode.ServoMode.VelocityMove` | fw/math/inc/math/servo_mode/servo_mode.h:414-438 | The velocity ramps to its target by at most a·dt and is done when it is within reach |
| `ServoMode.ServoMode.ConstantSpeedMove` | fw/math/inc/math/servo_mode/servo_mode.h:439-454 | Full speed toward the target until the sample that would cross it |
| `ServoMode.ServoMode.AcceleratedMove` | fw/math/inc/math/servo_mode/servo_mode.h:455-495 | Exactly one step of the planner |
| `ServoMode.ServoMode.StopBefore` | fw/math/inc/math/servo_mode/servo_mode.h:498-516 | A trajectory on or past an armed stop and heading on is held at it, and no other |
| `ServoMode.ServoMode.FinishTrajectoryGuards` | fw/math/inc/math/servo_mode/servo_mode.h:525-588 | Slip and velocity-error guards clamp to the measured value; an armed stop holds exactly there iff it is reached |
| `ServoMode.ServoMode.Follow` | fw/math/inc/math/servo_mode/servo_mode.h:386-403 | Without limits the trajectory is the command, as far as the slip guards let it |
| `ServoMode.ServoMode.UpdateTrajectory` | fw/math/inc/math/servo_mode/servo_mode.h:377-588 | The velocity bound in every mode, the slip bound, the stop, and, unless a stop holds it, exactly the commanded move within the armed guards; a move that would head on from on or past a stop is held at it |
| `ServoMode.ServoMode.GuardsPass` | fw/math/inc/math/servo_mode/servo_mode.h:525-560 | A guard that has nothing to correct leaves exactly the commanded move |
| `ServoMode.ServoMode.Track` | fw/math/inc/math/servo_mode/servo_mode.h:377-588 | Over a whole run the speed never passes the limit, the trajectory never heads past an armed stop, and with the slip guard armed it stays within the slip of every measured position |
| `ServoMode.ServoMode.Approach` | fw/math/inc/math/servo_mode/servo_mode.h:377-588 | Over a whole move, to a target at rest or moving at the commanded velocity, the object overshoots by at most a·dt²/2, whatever is measured |
| `PhaseVoltage.DqRecovered` | fw/math/inc/math/foc/transform.h:31-64 | The transforms are inverse for every angle, blind to a common voltage, and the phases add up to zero |
| `PhaseVoltage.LineToLine` | fw/math/inc/math/foc/transform.h:50-64 | Phase-to-phase voltages never exceed √3 times the vector |
| `PhaseVoltage.LimitedMeans` | fw/math/inc/math/foc/controller.h:304-320 | The limit is one function: inside the circle it is the identity, else it reaches the circle or keeps q |
| `PhaseVoltage.FromPhaseVolts` | fw/math/inc/math/foc/transform.h:100-134 | Fails iff the bus is at most 1 mV; otherwise the centred duties, clamped |
| `PhaseVoltage.CentredBalances` | fw/math/inc/math/foc/transform.h:107-117 | The smallest and largest duty add up to one, and differences carry the voltages |
| `PhaseVoltage.LinearRange` | fw/math/inc/math/foc/transform.h:100-134 | Within the limit no duty reaches its clamp, for every angle and vector |
| `PhaseVoltage.DutiesCarryVoltage` | fw/math/inc/math/foc/transform.h:31-134 | The duties times the bus transform back to the very voltages asked for |
| `Foc.FocController.LimitToMaxVoltage` | fw/math/inc/math/foc/controller.h:304-320 | The loop-free limit meets the specification shared by both controllers |
| `Foc.FocController.BackCalculate` | fw/math/inc/math/foc/controller.h:251-261 | After saturation the controller would put out exactly the limited voltage, within the integral's range |
| `Foc.FocController.Step` | fw/math/inc/math/foc/controller.h:201-285 | From currents to duties: both controllers applied to their own current, the voltage limited, each integral left where its controller would put out that voltage as far as the range goes, duties unclamped and carrying the voltage |
| `Foc.RegulatedMeans` | fw/math/inc/math/foc/controller.h:251-261 | An axis that was not limited carries its integral on; any axis then agrees with the voltage put out or stands at the end of its range |
| `Foc.ProportionalIntegral` | fw/math/inc/math/foc/controller.h:240-261 | Over a run in which nothing is limited the command is −(kp·e + ki·Σ e·dt) |
| `Foc.SimplePi.Apply` | fw/math/inc/math/foc/pi.h:64-81 | The setpoint slews toward the input at the given rate; output, error and integral |
| `Foc.SimplePi.SetIntegralForOutput` | fw/math/inc/math/foc/pi.h:83-86 | Afterwards the controller would put out exactly the target |
| `Foc.DqModulator.LimitVoltage` | fw/math/inc/math/foc/modulator.h:96-121 | The modulator's own form computes the same limit |
| `Foc.DqModulator.Step` | fw/math/inc/math/foc/modulator.h:87-137 | The open-loop modulator never saturates either |
| `Foc.Modulate` | fw/math/inc/math/foc/controller.h:270-284 | Inverse Park, centring and rounding in sequence, unclamped |
| `Foc.PhasePwm.SetDuty` | fw/HAL/src/phase_pwm.cc:138-146 | Duties outside the sampling window are pulled into it, others pass; compare values follow |
| `Foc.BoardDutiesPass` | fw/HAL/src/phase_pwm.cc:115-146 | With limits of 5 % no duty of the linear range is changed on its way to the registers |
| `Foc.InsideIsLimited` | fw/math/inc/math/foc/controller.h:304-311 | A vector inside the circle meets the limit's specification unchanged |
| `Crc32.CrcBytes` | fw/middleware/inc/middleware/persistence/motor_calibration_store.h:420-434 | The nested loop computes the CRC-32 of section 8 of RFC 1952, bit by bit |
| `Crc32.FeedLinear` | fw/middleware/inc/middleware/persistence/motor_calibration_store.h:420-434 | The register is linear in the message |
| `Crc32.FeedAtOnce` | fw/middleware/inc/middleware/persistence/motor_calibration_store.h:420-434 | Mixing a byte in at once equals feeding its bits |
| `Crc32.BurstDetected` | fw/middleware/inc/middleware/persistence/motor_calibration_store.h:420-434 | Messages of any length that differ only within 32 bits have different checksums |
| `Crc32.BytesBurst` | fw/middleware/inc/middleware/persistence/motor_calibration_store.h:420-434 | A difference in a window of four bytes is such a burst |
| `Crc32.SealedResidue` | fw/middleware/inc/middleware/persistence/motor_calibration_store.h:157-173 | A record is intact iff the checksum over all of it ends in one fixed register |
| `Crc32.SealedBurst` | fw/middleware/inc/middleware/persistence/motor_calibration_store.h:157-173 | No burst, in the data, the checksum or across both, leaves a record intact |
| `Records.ErasePages` | fw/middleware/inc/middleware/persistence/motor_calibration_store.h:354-366 | Erases exactly the store's pages |
| `Records.ProgramRecord` | fw/middleware/inc/middleware/persistence/motor_calibration_store.h:368-384 | Programs the padded record double-word by double-word into erased flash |
| `Records.RegisterBits` | fw/middleware/inc/middleware/persistence/motor_calibration_store.h:352 | The stored checksum's bytes are the register's bits |
| `Records.WordRoundTrip` | fw/middleware/inc/middleware/persistence/motor_calibration_store.h:125-148 | A stored word reads back |
| `CalibrationStore.RoundTrip` | fw/middleware/inc/middleware/persistence/motor_calibration_store.h:319-417 | A saved calibration loads as the calibration in normal form |
| `CalibrationStore.LoadSaveLoad` | fw/middleware/inc/middleware/persistence/motor_calibration_store.h:150-417 | Loading any accepted image, saving and loading again gives the same |
| `CalibrationStore.MigrationInvalidates` | fw/middleware/inc/middleware/persistence/motor_calibration_store.h:150-317 | Features newer than the layout, and fits not good enough, load as invalid |
| `CalibrationStore.Migrates` | fw/middleware/inc/middleware/persistence/motor_calibration_store.h:63-135 | Every intact record of the four older structures, written field by field in their order, loads as what it held, with newer features invalid |
| `CalibrationStore.CorruptionRejected` | fw/middleware/inc/middleware/persistence/motor_calibration_store.h:157-173 | No burst behind the version word is accepted |
| `CalibrationStore.MotorCalibrationStore.Load` | fw/middleware/inc/middleware/persistence/motor_calibration_store.h:150-317 | Accepts exactly intact records of the five layouts with a sign of one, and decodes them |
| `CalibrationStore.MotorCalibrationStore.Save` | fw/middleware/inc/middleware/persistence/motor_calibration_store.h:319-417 | Success means the record loads as the data in normal form; on healthy flash it succeeds iff nothing compared is a NaN; nothing else is touched |
| `ConfigStore.RoundTrip` | fw/middleware/inc/middleware/persistence/runtime_config_store.h:52-117 | A saved configuration loads as it was |
| `ConfigStore.CorruptionRejected` | fw/middleware/inc/middleware/persistence/runtime_config_store.h:52-73 | No burst anywhere in the record is accepted |
| `ConfigStore.RuntimeConfigStore.Load` | fw/middleware/inc/middleware/persistence/runtime_config_store.h:52-73 | Accepts exactly intact records; otherwise leaves the given configuration alone |
| `ConfigStore.RuntimeConfigStore.Save` | fw/middleware/inc/middleware/persistence/runtime_config_store.h:75-119 | Success means the record loads as saved, and healthy flash always takes it; no other page is touched either way |
| `MotorControl.EncoderService.SetCalibration` | fw/middleware/inc/middleware/encoder/encoder_service.h:127-133 | Installed with its sign forced to one |
| `MotorControl.EncoderService.BeginCalibration` | fw/middleware/inc/middleware/encoder/encoder_service.h:135-142 | The calibration in use is kept aside and the raw one put in use |
| `MotorControl.EncoderService.RestoreCalibration` | fw/middleware/inc/middleware/encoder/encoder_service.h:144-152 | Exactly the one kept aside comes back, once |
| `MotorControl.EncoderService.ApplyCalibration` | fw/middleware/inc/middleware/encoder/encoder_service.h:154-158 | The result is installed and nothing is left to restore |
| `MotorControl.CalibrationManager.StartEncoderPhase` | fw/middleware/inc/middleware/calibration/calibration_manager.h:175-182 | An encoder session puts the calibration in force aside and is no longer marked as stored |
| `MotorControl.CalibrationManager.Abort` | fw/middleware/inc/middleware/calibration/calibration_manager.h:72-83 | Ends every calibration and restores what was in force |
| `MotorControl.CalibrationManager.ApplyEncoderResult` | fw/middleware/inc/middleware/calibration/calibration_manager.h:94-109 | A session that ended well installs exactly its result and owes it to flash |
| `MotorControl.CalibrationManager.ApplyResult` | fw/middleware/inc/middleware/calibration/calibration_manager.h:111-167 | The other results are owed to flash unless out of range |
| `MotorControl.CalibrationManager.LoadPersistentConfig` | fw/middleware/inc/middleware/calibration/calibration_manager.h:29-59 | The stored record is in force, unless an encoder session is running; what was in force survives exactly then or if nothing different is stored |
| `MotorControl.MotorControlService.constructor` | fw/middleware/src/control/motor_control_service.cc:36-50 | Starts stopped and safe |
| `MotorControl.MotorControlService.Start` | fw/middleware/src/control/motor_control_service.cc:87-221 | Servo, current or MIT: accepted exactly when ready and already running or primed; refused, refreshed or begun anew, all or nothing, wherever interrupts end the session meanwhile |
| `MotorControl.MotorControlService.StartCalibration` | fw/middleware/src/control/motor_control_service.cc:223-439 | Accepted exactly when ready and able to begin: then exactly the requested calibration runs; otherwise the motor is stopped or left as it was |
| `MotorControl.MotorControlService.Stop` | fw/middleware/src/control/motor_control_service.cc:441-465 | Everything off, the calibration in force back in use, results already owed untouched |
| `MotorControl.MotorControlService.StopFinishedSession` | fw/middleware/src/control/motor_control_service.cc:467-482 | The interrupt's own stop keeps the session safe and itself on |
| `MotorControl.MotorControlService.StepIsr` | fw/middleware/src/control/motor_control_service.cc:586-840 | One interrupt in any state: a protection trip, a lost encoder or a servo fault ends the session with the stage off; a finished calibration ends with its result installed or what was in force restored; otherwise nothing changes |
| `MotorControl.AbortEnds` | fw/middleware/src/control/motor_control_service.cc:552-556 | Every interrupt that has to end a session leaves the stage off, itself disabled and what was in force in use |
| `MotorControl.SteppedInterrupted` | fw/middleware/src/control/motor_control_service.cc:586-840 | Whatever an interrupt finds, only what an interrupt may do happens |
| `MotorControl.MotorControlService.ApplyProtection` | fw/middleware/src/control/motor_control_service.cc:519-558 | Passes exactly if the monitor's verdict on all samples of the session is no trip, and ends the session otherwise |
| `MotorControl.MotorControlService.RunTicks` | fw/middleware/src/control/motor_control_service.cc:586-840 | Any sequence of interrupts: each one as specified, and one that has to end the session is the last and leaves the stage off |
| `MotorControl.MotorControlService.StepEncoderPhase` | fw/middleware/src/control/motor_control_service.cc:657-684 | A finished encoder session installs its result if it is done and restores what was in force if not |
| `MotorControl.MotorControlService.Interrupts` | fw/middleware/src/control/motor_control_service.cc:586-840 | Any number of interrupts between two main-loop steps |
| `MotorControl.InterruptedTwice` | fw/middleware/src/control/motor_control_service.cc:586-840 | Their combined effect is again one an interrupt may have |
| `MotorControl.MotorControlService.PersistPending` | fw/middleware/inc/middleware/calibration/calibration_manager.h:205-273 | What is owed is written with the power stage off, whatever finished by then is in the record, and nothing is owed afterwards; the marks follow the outcome |
| `MotorControl.MotorControlService.Collect` | fw/middleware/inc/middleware/calibration/calibration_manager.h:217-255 | The record holds exactly the results owed |
| `MotorControl.MotorControlService.WriteRecord` | fw/middleware/inc/middleware/calibration/calibration_manager.h:256-272 | One erase, with the power stage off; the persisted marks follow the outcome |
| `MotorControl.MotorControlService.SaveConfig` | fw/board/xtellar_stm32g4/runtime_config_service.cc:40-52 | The configuration page is erased with the motor off |
| `MotorControl.MotorControlService.ReloadCalibration` | fw/middleware/src/communication/can_command_adapter.cc:605-611 | A reload changes nothing but the calibration and its marks; what is in force survives iff no record is stored, it says the same, or an encoder session is running |
| `MotorControl.ReloadLosesResult` | fw/middleware/src/communication/can_command_adapter.cc:605-611 | The concrete run in which a finished result is put out of force |
| `Clock.SinceIsElapsed` | fw/app/inc/application_policy.h:57-63 | Subtracting two readings gives true time across the 32-bit wrap |
| `Clock.GapOf` | fw/board/xtellar_stm32g4/platform_service.cc:128-145 | The tick difference is the gap short of whole timer periods |
| `Clock.Platform.MonotonicUs` | fw/board/xtellar_stm32g4/platform_service.cc:128-145 | True time modulo 2^32 minus a lag that grows by the whole timer periods a gap spans, and otherwise not |
| `Application.Application.Interrupts` | fw/app/src/application.cc:25-53 | Wherever an interrupt strikes in the loop, the power stage is on only in RUN or between leaving it and the stop that follows |
| `Application.Application.Handle` | fw/middleware/src/communication/can_command_adapter.cc:118-192 | What every frame does to the session it finds: a start or calibration that can be met starts exactly that, a stop frame stops, the others do what they say, and control is refused where it is not allowed |
| `Application.Application.Poll` | fw/middleware/src/communication/can_command_adapter.cc:72-116 | Looks at eight frames at most and none behind a boot request, says which were commands, and handles each in turn with interrupts in between |
| `Application.HaltStops` | fw/middleware/src/communication/can_command_adapter.cc:72-116 | A stop frame with no start behind it leaves the motor stopped, whatever interrupts and other frames do |
| `Application.WindowFrom` | fw/middleware/src/communication/can_command_adapter.cc:72-116 | Which frames one poll looks at |
| `Application.Application.Leave` | fw/app/src/application.cc:79-87 | A new lifecycle first and the stop behind it, interrupts in between included: the motor ends stopped, the stamp kept |
| `Application.Application.PollCommandIngress` | fw/app/src/application.cc:142-156 | Every frame looked at is handled; the stamp is renewed exactly when one is a command; a boot request, and nothing else, leaves for good with the motor stopped |
| `Application.Application.EnforceCommandTimeout` | fw/app/src/application.cc:163-171 | A driven motor is stopped exactly when half a second of true time has passed since the last frame, by a clock read in this turn |
| `Application.Application.RunOperational` | fw/app/src/application.cc:79-105 | One operational turn ends safe in exactly the state its driver fault and boot request call for, the deadline held to a clock read in it; results owed are written; a stop frame stops |
| `Application.Application.RunInitializationFailure` | fw/app/src/application.cc:107-121 | Never drives the motor, whatever the frames ask for; only a boot request leaves the state |
| `Application.Application.RunDriverFault` | fw/app/src/application.cc:123-140 | Ends with the motor stopped, in exactly the state a boot request or a recovery calls for |
| `Application.Application.Pass` | fw/app/src/application.cc:25-53 | Exactly the transition a turn makes; what it leaves driven is within the deadline of a clock read in it, and initialization starts the deadline |
| `Application.Application.Loop` | fw/app/src/application.cc:25-53 | Over every run: the power stage is on only in the operational state, every flash erase found it off, every interrupt that had to end a session left it off, the lifecycle is the one the turns call for, and without commands the motor is off after a turn that begins half a second after the last one |
| `Application.NoWayBack` | fw/app/inc/application_policy.h:11-48 | The failure states and the bootloader are left for the bootloader alone |
| `Snapshot.SnapshotService.Arm` | fw/middleware/inc/middleware/snapshot/snapshot_service.h:28-59 | Arms iff idle, with the count and decimation clamped |
| `Snapshot.SnapshotService.Abort` | fw/middleware/inc/middleware/snapshot/snapshot_service.h:61 | Back to idle, the invariant kept |
| `Snapshot.SnapshotService.PushIsr` | fw/middleware/inc/middleware/snapshot/snapshot_service.h:64-93 | While capturing, exactly every decimate-th sample becomes the next row; ready exactly when the target is reached |
| `Snapshot.SnapshotService.FillDataFrame` | fw/middleware/inc/middleware/snapshot/snapshot_service.h:163-189 | The frame carries the next rows, zeros behind them |
| `Snapshot.SnapshotService.PollSend` | fw/middleware/inc/middleware/snapshot/snapshot_service.h:95-132 | The frames sent tile the rows from zero, wherever interrupts abort; in a turn exactly sixteen go out, or as many as the link has room for, or all that are left, and the capture is done exactly when all are out before the sixteenth ends the turn |
| `Snapshot.Run` | fw/middleware/inc/middleware/snapshot/snapshot_service.h:28-132 | For every interleaving: row j is sample (j + 1)·decimate and the frames tile the rows |
| `Snapshot.DecimatedAt` | fw/middleware/inc/middleware/snapshot/snapshot_service.h:64-93 | Which sample a row holds |
| `Snapshot.TilesNext` | fw/middleware/inc/middleware/snapshot/snapshot_service.h:117-131 | The next frame continues where the last one ended |
| `SnapshotHost.TilesApart` | fw/middleware/inc/middleware/snapshot/snapshot_service.h:117-131 | Frames sent never overlap |
| `SnapshotHost.ReceivedGenuine` | tools/host/gui/web_server.py:1057-1073 | Whatever is lost or reordered, what arrives is genuine |
| `SnapshotHost.Place` | tools/host/gui/web_server.py:1066-1073 | Copies the rows of one frame that fit and counts them |
| `SnapshotHost.Used` | tools/host/gui/web_server.py:1057-1061 | How many frames the host takes before it has counted as many rows as announced |
| `SnapshotHost.CaptureSnap` | tools/host/gui/web_server.py:1057-1080 | Success exactly when as many rows were counted as announced. Of a capture's own frames, lost, reordered or repeated, exactly those taken put rows in place; the table is the capture iff every row that is not all zeros is among them. Without repeats success says so |
| `SnapshotHost.InPlaceExactly` | tools/host/gui/web_server.py:1055-1073 | Over a table of zeros the uncovered rows are right iff they are zeros |
| `SnapshotHost.Snap` | tools/host/gui/web_server.py:1057-1080 | End to end: row i holds sample (i + 1)·decimate for every row among the frames taken, repeats included; a success in which no frame came twice holds all of them |
| `SnapshotHost.TwoFrames` | fw/middleware/inc/middleware/snapshot/snapshot_service.h:117-131 | More than four rows are sent in at least two frames, the first one full |
| `SnapshotHost.TilesCounted` | tools/host/gui/web_server.py:1062-1073 | The host counts of tiling frames exactly the rows they carry |
| `SnapshotHost.DuplicateFools` | tools/host/gui/web_server.py:1057-1075 | Every capture of more than four rows: with the last frame lost and the first one twice the host reports success and the last rows are zeros |
| `EncoderPll.WrapZeroCongruent` | fw/math/inc/math/constants.h:16-21 | The wrapped angle is the same angle |
| `EncoderPll.WrapNegCongruent` | fw/math/inc/math/constants.h:24-32 | The same for the symmetric wrap |
| `EncoderPll.WrapNeg` | fw/math/inc/math/constants.h:24-32 | The result is in the closed interval, and is −π exactly for −π itself |
| `EncoderPll.MapSingleTurnCommand` | fw/middleware/src/control/motor_control_service.cc:100-109 | The target is congruent to the command and no congruent angle is nearer to the rotor |
| `EncoderPll.EncoderPll.Reset` | fw/math/inc/math/servo_mode/encoder_pll.h:43-55 | Starts the loop at the wrapped angle |
| `EncoderPll.EncoderPll.Filter` | fw/math/inc/math/servo_mode/encoder_pll.h:75-97 | Velocity and integral follow the wrapped error, limited to an eighth of a turn a sample and to the ceiling |
| `EncoderPll.EncoderPll.Advance` | fw/math/inc/math/servo_mode/encoder_pll.h:99-102 | Wrapped angle and position stay whole turns apart |
| `EncoderPll.Tracks` | fw/math/inc/math/servo_mode/encoder_pll.h:75-97 | Beside the speed integrated so far the limited velocity travels towards the sample and not past it |
| `EncoderPll.Closer` | fw/math/inc/math/servo_mode/encoder_pll.h:75-102 | Such travel is taken off the wrapped error exactly |
| `EncoderPll.EncoderPll.Update` | fw/math/inc/math/servo_mode/encoder_pll.h:60-108 | After any sequence position and wrapped angle differ by whole turns, and a sample moves at most an eighth of a turn; with a gain of at most one a sample, the wrapped error to a rotor that goes on at the speed integrated so far shrinks by the distance travelled beside it, so a rotor in step stays in step |
| `Safety.RunLengthMeans` | fw/math/inc/math/protection/safety_monitor.h:75-86 | The counter is the number of consecutive samples over the threshold |
| `Safety.EnergyIsMaximum` | fw/math/inc/math/protection/safety_monitor.h:88-103 | The stored energy is the maximum over all windows ending now, the empty one included |
| `Safety.PassesLimit` | fw/math/inc/math/protection/safety_monitor.h:97-102 | So the limit is passed iff some window ending now passes it |
| `Safety.PeakIsFirstRun` | fw/math/inc/math/protection/safety_monitor.h:75-86 | Peak overcurrent trips exactly when the last sample is trusted and the last N samples are there and over the threshold |
| `Safety.OverByAnyPhase` | fw/math/inc/math/protection/safety_monitor.h:66-77 | Each of the three phases can trip by itself |
| `Safety.SteadyOverload` | fw/math/inc/math/protection/safety_monitor.h:88-103 | A constant current above rated trips I²t at the first sample that ends later than τ·rated²/(i² − rated²) after the reset |
| `Safety.SafetyMonitor.Evaluate` | fw/math/inc/math/protection/safety_monitor.h:60-127 | The verdict of the samples since the reset, first reason first |
| `Safety.SafetyMonitor.Reset` | fw/math/inc/math/protection/safety_monitor.h:50-55 | As if no sample had been seen |
| `Safety.SafetyMonitor.Watch` | fw/math/inc/math/protection/safety_monitor.h:50-127 | A session trips at the first sample whose verdict is a trip, and not before |
| `Cogging.FirstPassStep` | fw/math/inc/math/calibration/cogging.h:307-330 | What the first in-place pass finds beside an empty bin |
| `Cogging.SecondPassStep` | fw/math/inc/math/calibration/cogging.h:307-330 | In the second pass the left neighbour of an empty bin is always filled, from the same bin |
| `Cogging.GapFilledFromItsStart` | fw/math/inc/math/calibration/cogging.h:304-330 | A gap behind a valid bin is filled from that bin throughout, not from the nearest |
| `Cogging.NearestExactly` | fw/math/inc/math/calibration/cogging.h:304-330 | An empty bin gets a nearest valid one iff the edge of its gap going back is no further than the one going ahead, around the ends too, or it ends a leading gap that wraps, or only one bin is valid |
| `Cogging.GapNearest` | fw/math/inc/math/calibration/cogging.h:304-330 | Inside the table: iff it is in the first half of its gap or the middle |
| `Cogging.NotNearest` | fw/math/inc/math/calibration/cogging.h:304-330 | A calibration that passes with a bin filled from two away beside a valid neighbour |
| `Cogging.QuantisedNear` | fw/math/inc/math/calibration/cogging.h:359-375 | Scaled by the peak no value needs the byte's limits and each is met to half a step |
| `Cogging.PeakOfValid` | fw/math/inc/math/calibration/cogging.h:337-348 | The peak is that of the originally valid bins |
| `Cogging.CoggingCal.StoreBin` | fw/math/inc/math/calibration/cogging.h:278-294 | A bin is replaced by the mean of both directions and whether it is valid |
| `Cogging.CoggingCal.Average` | fw/math/inc/math/calibration/cogging.h:278-294 | All bins, and how many are valid |
| `Cogging.CoggingCal.VisitBin` | fw/math/inc/math/calibration/cogging.h:309-329 | One bin of a pass |
| `Cogging.CoggingCal.FillPass` | fw/math/inc/math/calibration/cogging.h:307-330 | One in-place pass fills what it can reach, each from its source |
| `Cogging.CoggingCal.FillGaps` | fw/math/inc/math/calibration/cogging.h:304-335 | Two passes fill every bin from a valid one, so the failure exit behind them is unreachable |
| `Cogging.CoggingCal.FindPeak` | fw/math/inc/math/calibration/cogging.h:337-348 | The largest magnitude |
| `Cogging.CoggingCal.Quantise` | fw/math/inc/math/calibration/cogging.h:359-375 | Each entry is the rounded multiple of the step |
| `Cogging.CoggingCal.StoreTable` | fw/math/inc/math/calibration/cogging.h:337-378 | Table, step and peak; an empty table below 0.1 mA |
| `Cogging.CoggingCal.Finish` | fw/math/inc/math/calibration/cogging.h:271-379 | Fails iff fewer than three quarters of the bins are valid; otherwise the table holds each bin's source to half a step |

## Left out

- FlashWriter.FlashWriter.ProgramByte: the 64-bit shadow is held as eight byte lanes and a set of filled lanes, without the shifts and masks; which lane a byte goes to is the address modulo eight as in the source.
- NorFlash.Flash.Wait: the flash cache and register handling is left out; an operation succeeds or reports any error code.
- FlashHost.Client.Collect: the link loses frames but neither delays nor repeats them, and answers to polls arrive before the host gives them up.
- FlashHost.Client.FlashImage: with supply failures, success is promised for bootable images of more than 384 bytes. Images without a bootable vector fail as `LosesBlock` says if their last block shows; bootable images of at most 384 bytes, and images whose last block is all ones or the first of its page, are not decided. Faults met by `unlock`, `lock` and the read-back are outside this statement.
- FlashHost.Client.FlashFile: the bootloader's command buffer holds no part of a line at the start; a leftover `w` in an unlocked session would be completed by `echo ready`.
- FlashHost.Client.Matches: `int` also takes a sign, a prefix and underscores, which no answer has.
- Bootloader.Target.Receive: an application takes no notice of the bootloader's frames, does not write its own image, and leaves the request word in RAM only when asked; RAM that comes up with that word by chance is left out.
- CommandServer.Server.ReadMemory: the contents of RAM are arbitrary.
- Progress output, option parsing, time and CAN set-up of the flashing host.
- ServoPlanner.Acceleration: an acceleration limit of zero, where the source divides by zero, and infinite targets are left out.
- ServoMode.ServoMode.Track: assumes the velocity-error reshape off; with it on, the measured velocity sets the trajectory's (`FinishTrajectoryGuards` says how).
- ServoMode.ServoMode.Approach: a move from the target's own speed with the slip, velocity-error and stop guards off.
- ServoMode.ServoMode.NormalizeCommandLimits: gain scales and torque limits are left out, and so is `SetVelocity`, which bypasses the limits. The position and torque controller behind the trajectory and MIT mode are left out.
- Foc.FocController.Step: the currents after their Park transform, the feedforward voltages and the predicted angle are parameters; the integration of the angle is left out.
- Foc.DqModulator.Step: the integration of the angle is left out.
- MotorControl.MotorControlService.StepIsr: angles and the controllers and calibration steps behind the interrupt are left out; what they find comes with the tick. A setter is one atomic step, so the race inside one structure copy is not modelled.
- MotorControl.MotorControlService.PersistPending: which results were written is tracked, not their values; a calibration of the same kind restarted before the write overwrites the earlier result.
- Application.Application.Loop: the safety result is stated at the end of each turn; inside a turn the power stage may be on for the time between leaving RUN and the stop (`Leave`).
- CalibrationStore.CorruptionRejected: a burst that hits the version word is excluded, because it changes which bytes the checksum covers.
- Clamping of the runtime configuration on loading, defaults and the mapping of configuration groups.
- SnapshotHost.Snap: frames of an earlier snapshot, acknowledgements and the sequence number are left out; the announced row count is the service's.
- Snapshot.SnapshotService.PollSend: the sample rate and duration in the announcement are left out.
- Snapshot.SnapshotService.Arm: the sequence number and the sample rate are left out.
- EncoderPll.EncoderPll.Filter: the spike counter is left out.
- EncoderPll.EncoderPll.Update: the spike counter and the overflow of the wrap's integer quotient are left out.
- Safety.SafetyMonitor.Evaluate: all sampled numbers are finite.
- Cogging.CoggingCal.Finish: the sweep that fills the bins, its phases and `BinOf` are left out; so are the other calibration algorithms.
- Drivers, telemetry, the message catalogue, the web interface and motor dynamics.
