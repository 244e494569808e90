# Verified model of the SM768 USB display driver

This project models the parts of the SM768 USB display driver whose correctness is not visible
from one function: the parser that finds a JPEG inside a captured frame packet, the frame queue
between capture and encoder, the persistent kernel mapping of an EVDI buffer object, and the hotplug
session manager of the daemon. `dafny verify dfyconfig.toml` checks all of it.

## What is proved

**Frame packets.** `JpegSyntax` is a grammar of the JPEG language that `parse_jpeg_end` accepts.
The loop of the parser (`JpegWalker.ParseJpegEnd`) is proved against a walk, and the walk against
the grammar: every answer, with its offsets and payload, is given exactly when the bytes deserve it.
`JpegBytes` defines the same language a second time, on the bytes alone with every code written out, and proves the two equal.
The language is prefix-free and unambiguous. Hence the split of a packet into header, JPEG,
metadata and padding is well defined; building and parsing are inverse in both directions, and each of
the parser's refusals is characterised on the bytes.

**Frame queue.** `FramePipelines.FramePipeline` is the queue as a class. Each method is proved
against a function on values, with a ghost history. Over every sequence of operations the queue is the tail of the
accepted log, deliveries are strictly ordered, drops hit the oldest frames and the counters balance;
`PipelineReports` ties every returned value to that history.
`PipelineThreads` runs any number of threads field by field under the mutex, with sink closures that
may panic, and proves that every interleaving is one of those sequential runs, replies included.
`OfflineRun` follows a whole offline run of generated frames.

**EVDI mapping.** `EvdiObject.GemObject` is the patched object. `EvdiPatched` lets any number of callers
run its functions statement by statement under `vmap_lock` and proves exact reference balance in
every interleaving. `EvdiUnpatched` is the code before the patch: the schedules on which it leaves nothing
behind are characterised exactly, and for every n there is a run that leaves n - 1 mappings.

**Session manager.** `SessionThreads` runs any number of hotplug producers and stop calls against the worker,
step by step, and proves who owns every device reference and handle in every state, first-in-first-out
handling, freedom from deadlock, and that the sessions are the replay of the handled events. `SessionManagers.SessionManager`
is the same code run by one thread, and `SessionHistory` says which events leave a session without the code's own step.

The class methods and the step systems share their specification functions (`PipelineSpec.Apply`,
`EvdiObject.AfterVmap`, `Sessions.Handle`), and the lemmas named `FinishIsApply` join the two levels.

## Modelling decisions

- The platform has 64-bit `usize`, and a byte slice is at most `isize::MAX` bytes long, as Rust guarantees.
  Protocol bytes and lengths are integers; hashed and inverted pixel bytes are bit vectors.
- A checked operation of the source that cannot fail is an `assert` at the same place, so the error it
  would return is proved unreachable.
- Allocation results, encoder results, answers of libusb and of the kernel, and scheduling are parameters.
  An encoded frame keeps the id of its source frame (`rust/src/jpeg.rs`, line 161), or encoding fails.
- A mutex is a lock with sequentially consistent steps in between. A panic in a sink closure frees and
  poisons the mutex; the next caller enters all the same (`rust/src/frame.rs`, lines 448-454).
- The kernel's dma-buf mapping count, page pins and local mappings are counters of what this object owns.
  A successful map yields a non-null address; a failed one leaves the counter alone. Free runs once, when no
  caller still holds the object. The local unmap branch clears `vmapping`: its lines fall between the hunks of
  the patch, at line 112.
- `generation_` in the daemon is 64 bits wide. Openings are numbered without bound and the generation is that
  number modulo 2^64.

Where code and documents differ, the model follows the code:

- ITU-T T.81 fixes Ns to 1 to 4 (section B.2.3), allows fill bytes only before markers (section B.1.1.2) and defines
  TEM. The parser accepts any Ns of at least 1, accepts fill bytes before a stuffed zero byte or a restart marker, and refuses TEM.
- `docs/open-driver-roadmap.md` (line 50) records alignment to 1024 bytes; the parser also accepts 512.
- The parser does not look at header bytes 24 to 47. The frame builder of the model follows the shape in the
  parser's own test helpers (`rust/src/protocol.rs`, lines 788-815), which leave these bytes zero.

Three promises hold under a condition only, and the exact condition is proved in each case. The generations of live
sessions are distinct for at most 2^64 openings and no bound beyond (`GenerationsDistinctExactly`, with a run of 2^64 + 1
openings in `LiveGenerationsCanCollide`). The old EVDI code leaves nothing behind exactly on the schedules of
`NothingLeftExactly`, which without failing attempts are those in which callers never overlap (`SafeIffNoOverlap`); runs
that leak are in `RaceLeaks`, `NullStoreLeaks` and `FailedMappingsLeakPins`. A heartbeat can be built exactly for tags
up to 99,999,999 (`BuildBulkHeartbeatRequest`).

## Model

| member | source | states |
|---|---|---|
| `JpegWalker.ParseJpegEnd` | rust/src/protocol.rs:344-493 | The nested loops terminate, never read past the slice, never overflow, and return what the walk over the bytes returns, on every input |
| `JpegWalker.ScanMarker` | rust/src/protocol.rs:354-396 | The search inside entropy-coded data skips stuffed bytes and restart markers without changing the final answer, and stops at the marker that decides it |
| `JpegWalker.HeaderMarker` | rust/src/protocol.rs:397-428 | Outside entropy-coded data a marker with its fill bytes must stand at the cursor, and each way of its missing is the final answer |
| `JpegTheorems.GoExplained` | rust/src/protocol.rs:430-491 | Whenever the walk goes on past a marker, exactly one well-formed token of the grammar stands there, and cursor and mode move on by that token |
| `JpegTheorems.StopExplained` | rust/src/protocol.rs:354-491 | Whenever the walk stops, the bytes at that place are the end marker or the defect that its answer names |
| `JpegTheorems.WalkTokens` | rust/src/protocol.rs:344-493 | The walk passes over any legal token sequence, wherever it stands, and remembers only its mode |
| `JpegTheorems.OutcomeExact` | rust/src/protocol.rs:344-493 | Every answer, all error values and offsets included, is given if and only if the bytes are legal tokens up to the reported place followed by the reported defect or end |
| `JpegTheorems.AcceptsExactlyJpegs` | rust/src/protocol.rs:344-493 | Ok(n) is returned if and only if the first n bytes derive from the grammar |
| `JpegTheorems.OutcomeBounds` | rust/src/protocol.rs:344-493 | The overflow error is unreachable and the reported end is inside the data |
| `JpegTheorems.TailIrrelevant` | rust/src/protocol.rs:344-493 | Whatever follows a JPEG, its end is found at its own length |
| `JpegTheorems.AnswerStable` | rust/src/protocol.rs:344-493 | Any answer other than the five that mean "ended too early" is unchanged by every extension of the input |
| `JpegTheorems.StrictPrefixIncomplete` | rust/src/protocol.rs:344-493 | Every strict prefix of a JPEG fails with one of five errors and is no JPEG itself: the language is prefix-free |
| `JpegTheorems.AllFiveOccur` | rust/src/protocol.rs:344-493 | Every JPEG has strict prefixes that fail with each of these five errors, so none of the five can be dropped |
| `JpegTheorems.DerivationUnique` | rust/src/protocol.rs:344-493 | The grammar is unambiguous: equal images have equal tokens and equal numbers of fill bytes |
| `JpegBytes.BytesExact` | rust/src/protocol.rs:344-493 | The accepted images are exactly FF D8 followed by a completion, a definition on the bytes with every code written out: which codes go on with entropy-coded data, end the image, are refused, or open a segment, and how lengths are read |
| `JpegBytes.CompletionExact` | rust/src/protocol.rs:344-493 | After any legal tokens an image is completed by exactly those bytes that complete it in that mode |
| `JpegBytes.EntropyInsertion` | rust/src/protocol.rs:352-393 | Inside entropy-coded data, putting in or taking out FF D0 to FF D7, FF 00 or a plain byte never makes or breaks an image |
| `JpegBytes.EntropyGoesOnExactly` | rust/src/protocol.rs:383-391 | FF and a code other than fill leave entropy-coded data open if and only if the code is 00 or D0 to D7 |
| `JpegBytes.AnswerAtCode` | rust/src/protocol.rs:430-491 | The answer at every other code, with its offset and payload, in literal codes: end, end before scan, refused code, and every defect of a length or scan header, including 0 components for a header of length 2 |
| `FrameEnvelope.AlignmentIsLeast` | rust/src/protocol.rs:495-507 | Alignment yields the least multiple of the packet size that holds the content, and fails only when every such multiple exceeds usize |
| `FrameEnvelope.EnvelopeExact` | rust/src/protocol.rs:544-641 | A packet parses to given parts if and only if it is those parts laid out behind a sound header with a JPEG, 0x5000 metadata bytes and zero padding of the one minimal length |
| `FrameEnvelope.AcceptedFields` | rust/src/protocol.rs:544-641 | In an accepted packet length, signature, type, sequence, byte 23, JPEG, 20480 metadata bytes and padding stand at their literal offsets, and the payload is whole packets |
| `FrameEnvelope.MagicText` | rust/src/protocol.rs:5 | The magic is the text smifalconsta in ASCII |
| `FrameEnvelope.BuildParses` | rust/src/protocol.rs:788-815 | A frame built from any JPEG, metadata and sequence parses back to exactly these, and its length is 48 plus the aligned content |
| `FrameEnvelope.DivisionUnique` | rust/src/protocol.rs:544-641 | A packet has at most one division into header fields, JPEG, metadata and padding, whatever the speed |
| `FrameEnvelope.PayloadErrorExact` | rust/src/protocol.rs:588-632 | Behind a JPEG each error is returned if and only if the remaining bytes deserve it: short metadata, padding of a packet or more, its first non-zero byte, or a length that is not the least aligned one |
| `FrameEnvelope.RefusalExact` | rust/src/protocol.rs:544-641 | Each error is returned if and only if it is the first defect of speed and header, or the header is sound and the payload deserves that error |
| `FrameEnvelope.NoOverflow` | rust/src/protocol.rs:588-626 | Neither of the two overflow errors can be returned for a slice |
| `FrameEnvelope.SpeedChoiceComplete` | rust/src/main.rs:294-303 | Choosing the speed from the payload length gives a frame if and only if the packet parses at one of the two speeds, and then it is the same frame |
| `FrameEnvelope.DecodeRefusalExact` | rust/src/main.rs:294-303 | A refused packet gets the refusal of 1024-byte packets if its payload is a multiple of 1024 and that of 512-byte packets otherwise, each error if and only if deserved |
| `Wire.ByteOrder` | rust/src/protocol.rs:328-342 | JPEG lengths have the high byte first, packet words the low byte first |
| `Requests.BuildZeroedRequest` | rust/src/protocol.rs:683-690 | The in-place writes produce magic, length, class and opcode followed by zeros, for every size |
| `Requests.CanonicalExact` | rust/src/protocol.rs:664-681 | The canonical parser accepts exactly the packets whose first 21 bytes are those of a built request of their length and opcode |
| `Requests.RequestRefusalExact` | rust/src/protocol.rs:643-681 | Each refusal of the canonical parser, error value included, is returned if and only if it is the first defect of the bytes |
| `Requests.BuildBulkHeartbeatRequest` | rust/src/protocol.rs:697-709 | Building succeeds if and only if the tag is at most 99,999,999; the error reports the digit count |
| `Requests.HeartbeatRoundTrip` | rust/src/protocol.rs:697-709 | Reading digits from byte 35 to the first NUL gives the tag back, and the canonical parser sees length 44 and opcode 0xec |
| `Requests.HeartbeatInjective` | rust/src/protocol.rs:697-709 | Different tags give different packets |
| `Requests.DecimalLength` | rust/src/protocol.rs:698-704 | A number has at most k digits if and only if it is below 10^k |
| `Fnv.MixBytes` | rust/src/frame.rs:232-251 | The hashing loop equals the recursive fold from any start state |
| `Fnv.KnownAnswers` | rust/src/jpeg.rs:214-221 | The hash has the values that draft-eastlake-fnv lists for the empty text, "a" and "fo" |
| `Fnv.PrimeInvertible` | rust/src/jpeg.rs:214-221 | The FNV prime has an inverse modulo 2^64 |
| `Fnv.FoldBijective` | rust/src/jpeg.rs:214-221 | For every byte string the fold is a bijection on the 64-bit start state, with an explicit inverse |
| `Fnv.OneByteNeverCollides` | rust/src/jpeg.rs:214-221 | Inputs of one length that differ in exactly one byte have different hashes |
| `FrameChecksum.ComputeChecksum` | rust/src/frame.rs:232-251 | The chained loop equals `fnv1a64` of the serialized id, dimensions and pixels |
| `FrameChecksum.ByteIsDigit` | rust/src/frame.rs:237-243 | Byte i of a serialized field is digit i of its value to the base 256: the order is little-endian |
| `FrameChecksum.ReadsBack` | rust/src/frame.rs:237-243 | Reading the k bytes of a field back gives its value modulo 256^k |
| `FrameChecksum.SerializedInjective` | rust/src/frame.rs:237-243 | The hashed bytes determine id, width, height and pixels |
| `FrameChecksum.HeaderByteChangesChecksum` | rust/src/frame.rs:232-251 | Changing one byte of the generation, sequence, width or height always changes the checksum |
| `FrameChecksum.PixelByteChangesChecksum` | rust/src/frame.rs:232-251 | Changing one pixel byte always changes the checksum |
| `Frames.ValidationExact` | rust/src/frame.rs:82-139 | Validation passes exactly the layouts within the limits whose stride and length are the products, and never reports overflow |
| `Frames.LayoutErrorsExact` | rust/src/frame.rs:82-113 | Each error of the layout constructor is returned if and only if width and height meet its condition; otherwise the layout is the valid one of that size |
| `Frames.FromBgrxExact` | rust/src/frame.rs:150-163 | A frame is made if and only if the layout is valid and the byte count right; each other case has its error with its values |
| `TestPattern.WrapStart` | rust/src/frame.rs:187-190 | Reducing before multiplying cannot overflow 64 bits and gives the unbounded product modulo the span |
| `TestPattern.DrawTestPattern` | rust/src/frame.rs:168-207 | The raster loop yields, byte for byte, a pure function of layout and sequence, with exactly one square of stored pixels off their bars; layout and allocation errors are passed on |
| `TestPattern.PixelMeaning` | rust/src/frame.rs:192-204 | At every pixel's offset, always in bounds, stand the four bytes of its bar colour, inverted inside the square |
| `TestPattern.BarColour` | rust/src/frame.rs:169-178 | Column x in the i-th eighth of the width has the colour of bar i: blue in every other bar, green in the left half, red in every other pair, fourth byte 255 |
| `TestPattern.BarsInOrder` | rust/src/frame.rs:196-197 | Every column lies in one of the eight bars, and the bar never falls with x |
| `TestPattern.SquareColour` | rust/src/frame.rs:183-202 | The square starts at 37 and 23 times the sequence, wrapped into the free positions; inside it all three colour bytes are complemented, outside none |
| `TestPattern.MarkedIffCovered` | rust/src/frame.rs:196-202 | A pixel differs from its bar if and only if it lies in the square |
| `TestPattern.FrameSquareArea` | rust/src/frame.rs:168-207 | In the stored bytes of a drawn frame exactly square_size squared pixels differ from their bar, for every valid layout and sequence |
| `PipelineSpec.StepKeeps` | rust/src/frame.rs:355-436 | Each operation keeps the invariant that ties state and history: log tail, order, justified drops, matching deliveries, sink order, saturated counters |
| `PipelineSpec.ExecuteKeeps` | rust/src/frame.rs:340-436 | The invariant holds after every sequence of operations |
| `PipelineTheorems.DeliveriesOrdered` | rust/src/frame.rs:355-436 | Over every run the frames taken increase strictly in (generation, sequence), each of the generation active when it was taken |
| `PipelineTheorems.QueueRefinesLog` | rust/src/frame.rs:355-436 | In every reachable state the queue is the last entries, at most capacity many, of the current generation's accepted log, whose last sequence is `last_sequence` |
| `PipelineTheorems.DropsAreOldest` | rust/src/frame.rs:373-381 | A frame dropped for capacity has at least capacity newer accepted frames of its own generation |
| `PipelineTheorems.AcceptsExactlyNewer` | rust/src/frame.rs:355-384 | A frame is accepted if and only if it is of the active generation and newer than everything accepted before |
| `PipelineTheorems.CountersConserve` | rust/src/frame.rs:355-436 | Every statistic is its true count cut off at 2^64 - 1; while `accepted` is below that, it equals dequeued plus dropped plus discarded plus queued |
| `PipelineTheorems.LaterWorkIsCurrent` | rust/src/frame.rs:355-436 | Deliveries and sink submissions only grow, and those after any point are of the generation active there or a later one |
| `PipelineTheorems.RetiredStaysRetired` | rust/src/frame.rs:417-436 | After a generation has begun nothing older is ever delivered or submitted to the sink |
| `PipelineReports.ActiveIsHighest` | rust/src/frame.rs:417-436 | The active generation is the greatest of the initial one and all that were ever asked for |
| `PipelineReports.SubmitReports` | rust/src/frame.rs:355-384 | After every run: a reported drop is the oldest accepted frame without a fate, it is recorded as dropped and no longer queued; a rejection reports the active generation, or the last accepted sequence of it, and changes no frame |
| `PipelineReports.TakeReports` | rust/src/frame.rs:386-393 | After every run: taking returns the oldest accepted frame without a fate, and nothing exactly when all have one |
| `PipelineReports.BeginReports` | rust/src/frame.rs:417-436 | After every run: a transition succeeds exactly beyond the greatest generation so far and returns how many fates become discarded; a refusal reports that generation and changes nothing |
| `PipelineReports.GateReports` | rust/src/frame.rs:395-415 | After every run: the gate opens exactly for the greatest generation so far, and a refusal reports it |
| `FramePipelines.FramePipeline.New` | rust/src/frame.rs:340-353 | Zero capacity is the only error; otherwise the queue is empty and satisfies the invariant |
| `FramePipelines.FramePipeline.Submit` | rust/src/frame.rs:355-384 | The new state, outcome and history are those of the specification, whose every report `SubmitReports` ties to the log; the invariant is kept |
| `FramePipelines.FramePipeline.TryTake` | rust/src/frame.rs:386-393 | The oldest queued frame is returned and removed, the history records it, and the invariant is kept |
| `FramePipelines.FramePipeline.WithCurrentGeneration` | rust/src/frame.rs:395-415 | For ids of the active generation the closure runs exactly once, with its effect on its own state and its result; otherwise it does not run and only the rejection counter changes |
| `FramePipelines.FramePipeline.BeginGeneration` | rust/src/frame.rs:417-436 | Only an increasing generation is taken; it empties the queue, forgets the last sequence and reports how many frames it discarded |
| `PipelineThreads.FinishIsApply` | rust/src/frame.rs:355-436 | Executing a call field by field without interruption gives the state and reply of the atomic operation |
| `PipelineThreads.Linearizable` | rust/src/frame.rs:355-454 | In every interleaving, whenever the mutex is free, also after a panic, fields, replies, deliveries and sink closures are those of the calls run one after the other in lock order, except that a call whose gate was open may have panicked; the invariant holds |
| `PipelineThreads.ConcurrentOutputsOrdered` | rust/src/frame.rs:386-415 | In every state of every interleaving deliveries are strictly ordered and sink generations never fall |
| `PipelineThreads.ClosureExcludesTransition` | rust/src/frame.rs:395-415 | While a sink closure runs its generation is the active one and no thread changes the shared state |
| `PipelineThreads.BeginReaches` | rust/src/frame.rs:417-436 | When `begin_generation(g)` is about to return, the active generation is at least g |
| `PipelineThreads.NoStaleClosureLater` | rust/src/frame.rs:395-436 | The active generation never falls and closures that start later are never of an older one |
| `PipelineThreads.RetiredClosuresNeverRun` | rust/src/frame.rs:395-436 | Once `begin_generation(g)` is about to return, no closure for a generation below g runs or starts in any continuation |
| `OfflineRun.ResidentFits` | rust/src/main.rs:390-409 | Once the total-work guard has passed, the resident-bytes guard cannot fire |
| `OfflineRun.PlanRun` | rust/src/main.rs:388-409 | The plan passes if and only if the layout is valid and the total work within its limit; otherwise its error is the one to blame, and the queue-size errors are unreachable |
| `OfflineRun.SubmitPatterns` | rust/src/main.rs:430-453 | No submission is ever rejected; the loop fails exactly at the first frame that cannot be allocated |
| `OfflineRun.DrainQueue` | rust/src/main.rs:455-485 | The sink gate never rejects; the newest min(N, C) frames come out in order, or the first frame that cannot be encoded is reported |
| `OfflineRun.BlameExact` | rust/src/main.rs:387-497 | A run has at most one first failure, and none when it can succeed |
| `OfflineRun.SimulatePattern` | rust/src/main.rs:387-497 | The run succeeds if and only if every limit, allocation and encoding does; it then delivers sequences N - min(N, C) to N - 1 in order with the final counters given; it returns an error if and only if that error is the first failure |
| `EvdiObject.AfterVmap` | kernel/evdi/patches/0001-serialize-persistent-vmap.patch:34-92 | The object is mapped afterwards if and only if it was before or the kernel grants every call its kind needs; a new mapping takes exactly one reference of each sort needed, everything else leaves all counters alone |
| `EvdiObject.AfterVunmap` | kernel/evdi/patches/0001-serialize-persistent-vmap.patch:94-119 | Unmapping a balanced object leaves no reference |
| `EvdiObject.GemObject.Vmap` | kernel/evdi/patches/0001-serialize-persistent-vmap.patch:34-92 | Success is reported if and only if a mapping existed or the kernel grants what is needed; it then takes exactly one reference of each sort if the mapping is new, and a failure leaves no trace |
| `EvdiObject.GemObject.Vunmap` | kernel/evdi/patches/0001-serialize-persistent-vmap.patch:94-119 | The function gives back what the mapping holds, and nothing when there is none |
| `EvdiObject.GemObject.FreeObject` | kernel/evdi/patches/0001-serialize-persistent-vmap.patch:121-127 | Freeing a balanced object leaves no reference of any sort |
| `EvdiPatched.FinishIsApply` | kernel/evdi/patches/0001-serialize-persistent-vmap.patch:34-119 | Executing a call statement by statement gives the state of the atomic function |
| `EvdiPatched.BalancedWhenUnlocked` | kernel/evdi/patches/0001-serialize-persistent-vmap.patch:34-119 | For any number of callers and any interleaving, whenever the lock is free the object owns one reference of each sort if mapped and none otherwise |
| `EvdiPatched.NothingLeftAfterFree` | kernel/evdi/patches/0001-serialize-persistent-vmap.patch:94-127 | Once free has finished no mapping, pin or area is outstanding, in every run |
| `EvdiPatched.MappingPersists` | kernel/evdi/patches/0001-serialize-persistent-vmap.patch:42-49 | A mapping that was handed out stays until free starts, in every state of every interleaving |
| `EvdiPatched.MappedExactly` | kernel/evdi/patches/0001-serialize-persistent-vmap.patch:34-119 | Calls one after the other leave the object mapped if and only if some granted vmap has no vunmap behind it |
| `EvdiPatched.MappedWhenUnlocked` | kernel/evdi/patches/0001-serialize-persistent-vmap.patch:34-119 | In every interleaving, whenever the lock is free the object is mapped exactly when the calls so far say so |
| `EvdiPatched.VmapReports` | kernel/evdi/patches/0001-serialize-persistent-vmap.patch:34-92 | In every run a vmap call that ends reports success exactly when the object is mapped, and always succeeds when the kernel grants what it needs |
| `EvdiUnpatched.NothingLeftExactly` | kernel/evdi/patches/0001-serialize-persistent-vmap.patch:53-127 | For every kind of object and every run of the old code up to free, nothing is left behind if and only if no two attempts that obtain a reference overlap and no failing attempt overwrites a stored mapping or abandons a pin |
| `EvdiUnpatched.ImportLeftover` | kernel/evdi/patches/0001-serialize-persistent-vmap.patch:53-73 | For imported buffers through an iosys_map free leaves one mapping less than were taken, and none if and only if no two attempts that obtain a mapping overlap, whatever else fails |
| `EvdiUnpatched.SafeIffNoOverlap` | kernel/evdi/patches/0001-serialize-persistent-vmap.patch:139-160 | When no attempt fails, the old code leaves nothing behind if and only if no two callers are ever between null test and store together; for imported buffers this suffices also when attempts fail |
| `EvdiUnpatched.RaceLeaks` | docs/kernel-panic-2026-09-02.md:80-91 | For every n there is a run in which n callers pass the null test before any stores, and n - 1 mappings remain after free; n = 2 is the documented remainder of one |
| `EvdiUnpatched.NullStoreLeaks` | kernel/evdi/patches/0001-serialize-persistent-vmap.patch:65-70 | Through the plain-address interface one mapping is enough to leak: a second caller that fails overwrites the stored address with null |
| `EvdiUnpatched.FailedMappingsLeakPins` | kernel/evdi/patches/0001-serialize-persistent-vmap.patch:75-87 | Without the patch every failed mapping of own pages leaves its pin behind, even without a race |
| `SessionThreads.ReferencesConserved` | src/daemon/smiusbd.cpp:43-166 | In every state of every interleaving the references on a device are those of enqueue calls in progress, queued events, the event in the worker's hand and the device's session; open handles are those of sessions |
| `SessionThreads.AllReleased` | src/daemon/smiusbd.cpp:80-121 | Once the worker has exited and every caller has returned no reference and no handle is left |
| `SessionThreads.DropsAreBacked` | src/daemon/smiusbd.cpp:43-121 | No step releases a reference that is not held |
| `SessionThreads.HandledInOrder` | src/daemon/smiusbd.cpp:67-121 | Events are handled in the order of acceptance, all of them before the worker leaves its loop, so the cleanup loop finds an empty queue |
| `SessionThreads.NothingAcceptedLater` | src/daemon/smiusbd.cpp:67-121 | After the worker has left its loop no event is ever accepted |
| `SessionThreads.SessionsAreReplay` | src/daemon/smiusbd.cpp:95-166 | Between events the sessions are the replay of the handled events: a device has one if and only if an arrival of it, the target, could be opened and no departure came later; openings are counted exactly |
| `SessionThreads.NoDeadlock` | src/daemon/smiusbd.cpp:67-121 | In every reachable state some call in progress or the worker can take a step, except exactly when no call is in progress and the worker has exited or waits on an empty queue without stop |
| `SessionThreads.EnqueueAccepts` | src/daemon/smiusbd.cpp:67-78 | In every run an enqueue call appends its event exactly when the manager is not stopping, and otherwise drops its reference |
| `SessionThreads.StopReturnsLast` | src/daemon/smiusbd.cpp:80-92 | In every run the stop call that sets the flag does not return before the worker has exited |
| `SessionHistory.SessionsExact` | src/daemon/smiusbd.cpp:130-166 | Read off the events alone: a device has a session if and only if an arrival of it, the target, could be opened and no departure came later, and its number is that of the first such arrival since its last departure |
| `Sessions.OpeningsDistinct` | src/daemon/smiusbd.cpp:130-166 | Live sessions have distinct opening numbers, whatever was handled |
| `Sessions.OpeningOrder` | src/daemon/smiusbd.cpp:144-152 | A session opened later has a greater opening number, and a greater generation below 2^64 openings |
| `Sessions.GenerationsDistinctExactly` | src/daemon/smiusbd.cpp:130-166 | At most n openings keep the generations of live sessions distinct, for every sequence of events, if and only if n is at most 2^64 |
| `Sessions.LiveGenerationsDistinct` | src/daemon/smiusbd.cpp:130-166 | Up to and including 2^64 openings no two live sessions share a generation |
| `Sessions.LiveGenerationsCanCollide` | src/daemon/smiusbd.cpp:144-166 | Some events with 2^64 + 1 openings leave two live sessions with one generation |
| `SessionManagers.SessionManager.Enqueue` | src/daemon/smiusbd.cpp:67-78 | The event is appended with one reference, or dropped with none while stopping; ownership stays exact |
| `SessionManagers.SessionManager.HandleArrival` | src/daemon/smiusbd.cpp:130-153 | The device has a session afterwards if and only if it had one or it is the target and opens; the ledger changes as in the replay, with one reference and one handle per session made |
| `SessionManagers.SessionManager.HandleDeparture` | src/daemon/smiusbd.cpp:155-166 | The device's session goes with its handle and reference, and nothing else changes |
| `SessionManagers.SessionManager.HandleFront` | src/daemon/smiusbd.cpp:104-113 | One round of the worker's loop handles the oldest event, drops its reference and keeps ownership exact |
| `SessionManagers.SessionManager.DrainAndExit` | src/daemon/smiusbd.cpp:95-121 | After stop the queued events are handled in order; then no event, session, reference or handle is left |
| `SessionManagers.SessionManager.DestroySessions` | src/daemon/smiusbd.cpp:120 | Destroying every session releases every reference and handle still held |

## Left out

- The libusb and TurboJPEG bindings (`rust/src/usb.rs`, most of `rust/src/jpeg.rs`): foreign code whose behaviour is not visible.
- `src/guard/smiusb_guard.c`, `src/probe/smiusb_probe.c`, `rust/src/screencast.rs`, the scripts and the packaging: process, tool and system behaviour.
- Command-line parsing, hex input, messages, printing and the polling loop of `rust/src/main.rs`: input and output.
- `parse_frame_ack`, `parse_observed_modes`, `build_capabilities_request` and `snapshot`: they would only add easy members.
- The acknowledgement window and ordered disconnect of `docs/open-driver-roadmap.md`: planned, without code.
- Liveness: lost wake-ups of the condition variable and fairness are not modelled; a waiting worker may go on as soon as its predicate holds, and `NoDeadlock` says that a step is possible, not that it is taken.
- Weak memory effects, allocation failure inside `submit`, and C++ exceptions such as a failed allocation in `enqueue` or `handle_arrival`.
- A panic inside a pipeline call other than in the sink closure: no other step of these calls can panic, short of allocation failure.
- A sink closure that calls back into the pipeline, which would deadlock on the mutex.
- `vmap_is_iomem` and the contents behind a mapping: the mapping protocol does not depend on them.
- SessionManagers.SessionManager.DestroySessions: the order in which sessions are destroyed is left open, while `std::map` uses address order.
- Effects of a sink closure outside its own state: `Submission` gives it a state of any type, but no access to the queue.
