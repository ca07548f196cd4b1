# Lepton capture engine, modelled in Dafny

This project models the capture engine of a Raspberry Pi web server for the
Lepton thermal camera. The `lepton` object runs a capture thread. That thread
reads 164-byte packets from the camera over SPI and reassembles them into
9600-byte frames. Each packet has a 4-byte header whose byte 1 is the packet's
sequence number, so the thread checks that the packets arrive in order. When
the order breaks, it restarts the frame. After too many restarts it resets the
bus. Each completed frame is published to readers by swapping two fixed
buffers, and the 8-bit frame id advances with a wrap that skips 0. A reader
asks for a frame newer than the id it last saw and gets a copy of the live
buffer.

Files and modules:

- `protocol.dfy`, module `Protocol`: the packet geometry constants of
  `lepton.h`, the byte type and the resync ceiling.
- `reassembly.dfy`, module `Reassembly`: the packet loop as a pure function
  `Run`. Its input is the sequence of bytes each bus read delivers. The lemmas
  here are about that function.
- `frame_id.dfy`, module `FrameId`: how the frame id advances, and the
  predicate a reader waits on.
- `lepton.dfy`, module `Lepton`: class `Lepton`. It holds the fields of the
  C++ class and the capture thread's long-lived locals: `result` becomes
  `scratch`, `tmp_packet` becomes `packet`, and `connected` keeps its name.
  The pointer `pimg` becomes the index `live`. The class also has the
  imperative operations. `Reassemble` is proved to compute `Reassembly.Run`
  in place on the arrays.

Abstract inputs stand in for I/O:

- Each bus `read` is a `Chunk`, a sequence of at most 164 bytes. It is written
  over the front of the packet buffer, and the rest of the buffer keeps its old
  bytes. A read after the supplied sequence runs out delivers nothing, as a
  failed `read` does.
- `open` and the six `ioctl` calls become the inputs `openFd` and
  `configured`. `close` failing becomes `closeFails`.

Two behaviours of the code a reader might not expect:

- The resync counter counts every mismatch in one pass, not only mismatches in
  a row. It is cleared only when a new pass starts (lepton.cpp:138). The
  ceiling is therefore 900 mismatches per pass.
- When a configuration `ioctl` fails, `spi_open` closes the descriptor but
  leaves its number in `spi_cs_fd`. The model keeps that stale value. The ghost
  field `busOpen` records that the bus is not open. That stale number is never
  passed to `close`: after a failed open the thread either retries the open,
  which overwrites the field, or returns without closing.

## Model

| member | source | states |
|---|---|---|
| Protocol.Geometry | lepton.h:32-35 | each packet carries 164 - 4 = 160 payload bytes, a frame is 160 * 60 = 9600 bytes, and the sequence byte lies inside the header |
| Protocol.SlotBounds | lepton.h:35 | the payload slot of every packet lies inside the frame, after the slots of earlier packets |
| Reassembly.Sentinel | lepton.cpp:141 | the byte written into the sequence slot before each read always differs from the expected sequence number |
| Reassembly.Deliver | lepton.cpp:141-142 | after priming and a read, the packet buffer holds the delivered bytes at its front, the sentinel at byte 1 if the read stopped short of it, and its old bytes everywhere else |
| Reassembly.Payload | lepton.cpp:159 | the payload is the 160 bytes after the 4-byte header, in order |
| Reassembly.Slot | lepton.cpp:159-160 | slot k of a frame is the 160 bytes starting at offset k * 160 |
| Reassembly.Splice | lepton.cpp:159 | copying a payload to slot j puts it there byte for byte and changes no other byte or slot |
| Reassembly.Receive | lepton.cpp:141-147 | a packet with the expected tag is copied verbatim to its slot and the next packet is expected; any other packet restarts at 0, counts exactly one reset and leaves the frame unchanged |
| Reassembly.Run | lepton.cpp:139-161 | a pass ends either with all 60 packets received and fewer than 900 resets, or with exactly 900 resets; resets and reads only grow |
| Reassembly.SilentReadMismatches | lepton.cpp:141-143 | a read that does not reach byte 1 is always detected as a mismatch, so a silent bus never advances the frame |
| Reassembly.FullReadAccepted | lepton.cpp:142-143 | a whole packet is accepted exactly when its own byte 1 is the expected number, and then its payload is what lands in the slot |
| Reassembly.ShortReadKeepsStaleBytes | lepton.cpp:142 | a short read with the expected tag is accepted, and the payload bytes it did not deliver are copied from the previous packet |
| Reassembly.TaggedRunCompletes | lepton.cpp:139-161 | from any point of a pass, packets tagged j, ..., 59 in order complete the frame with no further reset, keep the filled slots and fill each other slot with its packet's payload |
| Reassembly.CleanPassRoundTrip | lepton.cpp:138-161 | feeding a fresh pass packets tagged 0..59 completes it after 60 reads with no reset, and slot k equals bytes 4..164 of packet k |
| Reassembly.NoStartLosesSync | lepton.cpp:143-156 | while no read can be taken for packet 0, each read is a reset, and the pass ends with sync lost once the ceiling is reached, with the frame untouched |
| Reassembly.SilentBusLosesSync | lepton.cpp:149-156 | a bus that delivers nothing loses sync after exactly 15 * 60 reads and leaves the scratch frame as it was |
| Reassembly.ReceiveKeepsLastRun | lepton.cpp:143-160 | one loop turn keeps the invariant that the filled slots hold the payloads of the reads since the last reset |
| Reassembly.RunKeepsLastRun | lepton.cpp:139-161 | that invariant holds until the pass ends |
| Reassembly.CompletedFrameIsLastRun | lepton.cpp:139-161 | when every read delivers a whole packet, a frame completed after any number of mismatches holds exactly the last 60 reads, tagged 0..59 in order; progress made before a mismatch never reaches the frame |
| FrameId.NextId | lepton.cpp:176 | the next id is never 0; it is the old id plus 1, except that 255 goes to 1 |
| FrameId.IdAfterCycles | lepton.h:56 | starting from 0, after n > 0 publishes the id is (n - 1) mod 255 + 1, so it is never 0 again |
| FrameId.IdsDistinctWithinCycle | lepton.cpp:176 | two publishes fewer than 255 apart never carry the same id |
| FrameId.ReaderWindow | lepton.cpp:203 | no reader succeeds before the first publish; after it a reader asking with 0 succeeds; a reader holding the current id does not; a reader that saw publish n succeeds on each of the next 254 publishes |
| Lepton.ReadPacket | lepton.cpp:141-142 | priming and reading over the packet array gives exactly `Deliver` of its old contents |
| Lepton.CopyPayload | lepton.cpp:159 | the copy into the frame array gives exactly `Splice` of its old contents with the packet's payload |
| Lepton.Lepton.constructor | lepton.cpp:36-37 | the descriptor is -1, closing is false, the id is 0, readers see `imgbuf1` and the thread fills `imgbuf2`; the buffers are fresh and of fixed size |
| Lepton.Lepton.SpiOpen | lepton.cpp:42-94 | the open succeeds exactly when `open` returns a descriptor and every configuration call succeeds; the field takes what `open` returned |
| Lepton.Lepton.SpiClose | lepton.cpp:96-103 | an unopened descriptor is left alone with no error; otherwise the descriptor becomes -1 even when `close` fails, a failure is reported, and a second call does nothing |
| Lepton.Lepton.ThreadCloseConnections | lepton.cpp:186-196 | the bus ends up released and any close failure is swallowed |
| Lepton.Lepton.Reassemble | lepton.cpp:138-161 | the in-place packet loop leaves the packet and scratch arrays exactly as `Run` says, and reports whether the frame completed; the live buffer is never written |
| Lepton.Lepton.Publish | lepton.cpp:170-179 | live and scratch swap roles with no bytes copied, the new live buffer is the frame just filled, and the id takes its next value |
| Lepton.Lepton.FinishPass | lepton.cpp:149-180 | after the packet loop: lost sync closes the bus and drops the connection; closing then closes the bus and stops without publishing; otherwise a completed frame is published from the scratch buffer |
| Lepton.Lepton.RunOnce | lepton.cpp:111-183 | one turn of the capture loop; the packet and scratch arrays end as `Run` over the reads; covering a failed open, lost sync, shutdown and a normal publish: the bus is closed on lost sync and on exit, a frame is published only when it completed and closing is not set, and the thread never stops holding an open bus |
| Lepton.Lepton.GrabImage | lepton.cpp:198-210 | a reader succeeds exactly when the id differs from the one it last saw and is not 0; it then gets the current id and a 9600-byte copy of the live buffer, which is the frame last published |
| Lepton.Lepton.RequestClose | lepton.cpp:214-217 | the owner's teardown sets the closing flag |

## Left out

- Threads, the mutex and the condition variable. The model has no
  concurrency. `GrabImage` does not block: Timeout stands for the 5 s
  `wait_for` running out, because only the capture thread changes the
  predicate. `notify_all` and `thrd.join` are not modelled.
- The sleeps (`usleep(1000)` and the 1 s backoffs) and all console logging.
  They have only timing or output effects.
- The unbounded outer `for(;;)` loop. `RunOnce` models one turn of it, and the
  thread's life is a sequence of such turns.
- The device path, SPI mode, word size and clock speed that `spi_open` sets.
  Only the success or failure of the whole chain is an input.
- The return value of `read`. Like the source, the model does not check it.
  How much a read delivers is an input, and `ShortReadKeepsStaleBytes` shows
  its effect.
- The exception types. A close failure is a returned flag, the timeout is the
  `Timeout` answer, and a failed open is `ok == false`.
- Initial buffer contents. C++ leaves the member arrays of the automatic
  `lepton lp;` in main.cpp uninitialised, and the model likewise leaves them
  unspecified. Nothing of that content can reach a reader, because a reader
  succeeds only after a publish.
- `GrabImage` returns the copy as a value, not through a caller-supplied
  pointer. The caller's buffer size and aliasing are therefore not modelled.
- main.cpp: the HTTP and WebSocket server, option handling and file serving.
