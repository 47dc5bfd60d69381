# Verified model of the E1 Doom runtime

E1 Doom runs inside a camera: a Doom process draws frames and mixes sound into shared memory, an
injected worker thread in the camera's own process turns them into overlay images and encoder samples,
small hooks in the camera's code pass pan/tilt commands and audio buffers to the worker, and a
supervisor installs and removes the code patches behind the hooks. This project models the parts whose
correctness is not visible in any one function, in Dafny 4.11, and proves what they are for.

`dafny verify dfyconfig.toml` checks everything.

| files | component |
|---|---|
| `AudioRingMemory`, `AudioRingReader`, `AudioRing`, `AudioRingRetry` | the eight-slot audio ring: mixer thread, encoder callback, the drop count |
| `PtzRing`, `PtzOverrun`, `PtzUnbounded` | the ticket ring between the pan/tilt hook and the worker |
| `AudioHook` | the counting protocol that guards unmapping the audio ring |
| `FrameConvert`, `VideoMemory`, `VideoFrame` | the frame converter with its ARM kernels, the shared framebuffer, its reader |
| `RuntimeControl`, `RuntimeLifecycle`, `RuntimeSecret`, `RuntimeSecretExact`, `RuntimeTicks`, `RuntimeGestures` | the lifecycle control and its three gesture recognisers |
| `RemotePatch`, `PatchGate` | the word-by-word code patch and the device gates with their marker files |
| `HeldKeys` | the held-key table of the HTTP controller |
| `Melt`, `SfxMixer`, `RateConverter` | screen melt, sound-effect mixer, music rate converter |
| `DeviceResolver` | hook sites and vendor functions found by signature |

**How concurrency is modelled.** The thread under study is a class whose methods follow the source
access by access. Every other thread is a pure step machine, one shared load or store per step, and
`Interfere` runs any number of its steps, with any data, between any two accesses of the method. A
contract of such a method is therefore a statement about every interleaving. Memory is sequentially
consistent.

**How failures are modelled.** A system call that may fail is a nondeterministic choice; a kill at any
point is covered by a ghost flag that records whether every state so far satisfied the property.

**Properties that turned out false, with the exact condition.**

- The audio reader's drop count is not the number of frames lost: `AudioRingRetry.RetryCountsADropTwice`
  gives a schedule. `AudioRingRetry.CountExactWhen`: from every state, the count is exact whatever the
  mixer does during the call if and only if the read is the reader's first or the mixer is demand-paced.
  Of one read, `AudioRingReader.PossibleMeans`: it is exact if and only if no attempt was abandoned whose
  publication had already left the reader's next frame behind.
- A Doom audio start whose marker cannot be written unmaps the ring without waiting:
  `AudioHook.AbandonedStartUnsafe` gives the schedule, `AudioHook.UnmapExact` the condition, which is that
  no callback is inside the ring reader.
- A Doom audio start that succeeds need not leave Doom mode on: a late callback of an earlier tone can
  take it away. `AudioHook.DoomLastsExactly`: it stays on, whatever the callbacks do, if and only if no
  such callback is pending.
- The secret matcher misses a correct entry after one extra Up: `RuntimeSecretExact.ThirdUpMisses`;
  `RuntimeSecretExact.SecretExact` says exactly when it recognises one, and
  `RuntimeSecretExact.EventsExact` says it of the events the worker drains.
- An accepted video frame can carry the number of the frame before it and be accepted a second time:
  `VideoFrame.SameFrameTwice`. `VideoFrame.NumberExact`: the number is the frame's own if and only if the
  slot's sequence is twice the counter. `VideoFrame.TwiceExact` and `VideoFrame.NumbersForward` say exactly
  when a frame is taken twice; none is taken three times.
- The count of dropped video frames is exact if and only if the numbers are adjacent or fewer than 2^31
  apart: `VideoFrame.DropsExact`.
- The melt's step does not keep the order of arbitrary rows; `Melt.StepSwaps` says exactly which rows it
  swaps. Columns never stand in such rows: `Melt.OrderPreserved`.
- The ticket ring can be overrun: `PtzOverrun.SixtyFiveOverrun`. `PtzOverrun.BoundExact`: no schedule
  overruns it if and only if at most 64 tickets may be outstanding.

## Model

| member | source | states |
|---|---|---|
| `AudioRing.AudioRing.ReadNext` | src/common/e1-audio-ring.c:5-65 | With the mixer free to run between any two accesses, lapping included: 1 delivers exactly the samples mixed for one frame, newer than the last one, and acknowledges it: on a first read three behind the newest publication, afterwards the next frame or the oldest of the newest eight; any other answer leaves silence and moves neither `last` nor `consumed`; 0 only when caught up; the exact drop count, which is what was passed over if and only if no attempt was abandoned whose publication had already left the reader's next frame behind; in the demand-paced regime never torn, never retried, never dropped, always the next frame |
| `AudioRing.AudioRing.TryTwice` | src/common/e1-audio-ring.c:16-62 | The loop of attempts returns what the read as a function of the mixer's steps in its gaps returns: status, frame, count, whether a first attempt was abandoned and by which publication it went |
| `AudioRing.AudioRing.Play` | src/common/e1-audio-ring.c:5-65 | Any number of callbacks on a fresh ring: demand-paced delivery is a prefix of the mixed stream with no drop and no retry failure, at most three frames behind the mixer; free-running delivery is a strictly increasing selection of it |
| `AudioRing.AudioRing.ReadSlot` | src/common/e1-audio-ring.c:45-60 | An accepted attempt holds the samples of the frame asked for, and whether it is accepted is what the two looks at the sequence and the frame number say |
| `AudioRing.AudioRing.CopySlot` | src/common/e1-audio-ring.c:51-54 | A piecewise copy bracketed by the same even sequence is the slot's content |
| `AudioRing.SeqlockAccepts` | src/common/e1-audio-ring.c:46-57 | The same even sequence around the copy pins the slot, and its frame number then names the frame its samples belong to |
| `AudioRing.AudioRing.Attempt` | src/common/e1-audio-ring.c:25-61 | One attempt: caught up, or the aim and skip count that the publication it loaded calls for, with exactly that frame's samples when accepted |
| `AudioRing.SelectionAppends` | src/common/e1-audio-ring.c:57-60 | A delivered newer frame keeps the delivered sequence a strictly increasing selection of what was mixed |
| `AudioRingReader.Target` | src/common/e1-audio-ring.c:31-44 | The frame aimed at is newer than the last, published, and still in the ring |
| `AudioRingReader.PossibleMeans` | src/common/e1-audio-ring.c:25-61 | For every schedule: the frame aimed at in numbers (three behind the newest at the start, then the next or the oldest of eight), and the count, which equals what is passed over if and only if it was not retried after an attempt that had to skip |
| `AudioRingRetry.UndisturbedRead` | src/common/e1-audio-ring.c:25-61 | Between two frames an undisturbed read always succeeds: with n published a first read delivers n - 3 (1 while n is at most 3), a later one the next frame or n - 7, and counts what it passes over |
| `AudioRingReader.PacedReading` | src/common/e1-audio-ring.c:16-62 | For every schedule under pacing: no failure, no retry, nothing counted, the next frame |
| `AudioRingReader.PacedAttempt` | src/common/e1-audio-ring.c:25-61 | With pacing no attempt is abandoned and pacing survives it |
| `AudioRingReader.PacedLook` | src/common/e1-audio-ring.c:45-57 | With pacing the slot of the next frame is even, current and untouched during the whole look |
| `AudioRingReader.AttemptNewer` | src/common/e1-audio-ring.c:25-44 | The publication an attempt goes by is at least the one at its start, and newer than the last frame unless the reader has caught up |
| `AudioRingRetry.RetryCountsADropTwice` | src/common/e1-audio-ring.c:16-62 | From the fresh ring and last frame 1, a schedule of one read that delivers frame 4 and counts three: two frames are lost |
| `AudioRingRetry.CountExactWhen` | src/common/e1-audio-ring.c:16-62 | From every state: the count of a read is exact whatever the mixer does during the call if and only if it is the reader's first or the mixer is demand-paced |
| `AudioRingRetry.DoubleCount` | src/common/e1-audio-ring.c:16-62 | From every free-running state, for every publication n still to come and every reader whose next frame n has left behind: a schedule whose first attempt goes by n, is abandoned, and has its skips counted twice |
| `AudioRingRetry.Reach` | src/platform/e1/i_sound_e1.c:192-217 | From every free-running state every later frame number is reached, with the next frame ready to be mixed |
| `AudioRingRetry.Finish` | src/platform/e1/i_sound_e1.c:152-184 | A publication under way can always be completed |
| `AudioRingRetry.OldestHeld` | src/platform/e1/i_sound_e1.c:152-184 | Between publications every frame still held is in its own slot, at rest |
| `AudioRingRetry.MidPublish` | src/platform/e1/i_sound_e1.c:155-161 | Three steps into a publication the slot is odd and the publication not yet visible |
| `AudioRingMemory.MixerStepOk` | src/platform/e1/i_sound_e1.c:140-186 | Every single store or load of the mixer keeps the ring's invariant and changes no even slot without changing its sequence |
| `AudioRingMemory.RunOk` | src/platform/e1/i_sound_e1.c:140-234 | The same for any number of steps, and the mixer never writes `consumed` |
| `AudioRingMemory.RunPaced` | src/platform/e1/i_sound_e1.c:218-233 | Demand pacing, consumed <= published <= frame <= consumed + 3, holds in every reachable state |
| `AudioRingMemory.PacedSlotAtRest` | src/platform/e1/i_sound_e1.c:218-233 | While pacing holds, the slot of the reader's next frame is at rest and holds that frame |
| `AudioRingMemory.NextRound` | src/platform/e1/i_sound_e1.c:152-154 | Each frame is the next one of exactly one slot, eight frames after the slot's previous one |
| `AudioRingMemory.PublishIsSteps` | src/platform/e1/i_sound_e1.c:140-186 | 1031 machine steps, whatever the environment answers, add up to one publish_frame |
| `AudioRingMemory.PublishedOk` | src/platform/e1/i_sound_e1.c:140-186 | A whole publish_frame keeps the invariant of the ring |
| `AudioRing.AudioRing.PublishFrame` | src/platform/e1/i_sound_e1.c:140-186 | The publishing code produces the state the step machine produces |
| `AudioRing.AudioRing.FillAudioPrebuffer` | src/platform/e1/i_sound_e1.c:188-234 | How many frames one call generates: demand-paced exactly up to three unacknowledged; free-running, against the clock read once and the due time that moves one frame period per frame, until neither prebuffering nor due; at most eight; they are published in order |
| `PtzRing.PtzRing.Drain` | src/camera/e1-doom-injected.c:413-483 | With hook calls interleaved at every access and at most 64 tickets outstanding: the batch is the commands of the next tickets, once each, in order, each with its own producer's fields; it stops only at an uncommitted ticket, so everything committed without a gap when it began is delivered; the overrun branch is never taken |
| `PtzRing.PtzRing.DrainSlot` | src/camera/e1-doom-injected.c:420-441 | One look at the ring: nothing happens, or the next ticket's command is taken whole |
| `PtzRing.PtzRing.LoadFields` | src/camera/e1-doom-injected.c:439-441 | Three separate loads of a committed slot give one producer's fields |
| `PtzRing.HookStepOk` | src/camera/e1-doom-injected.c:192-217 | Every take-ticket, field-store or commit step keeps the ring's invariant and leaves committed slots alone |
| `PtzRing.StoreOk` | src/camera/e1-doom-injected.c:202-208 | A store by one call disturbs no other outstanding ticket, with at most 64 outstanding |
| `PtzRing.TakeOk` | src/camera/e1-doom-injected.c:198-202 | Taking a ticket disturbs no outstanding one |
| `PtzRing.TicketCommands` | src/camera/e1-doom-injected.c:166-202 | A call takes a ticket exactly for the supported commands, and otherwise changes nothing |
| `PtzRing.RunOk` | src/camera/e1-doom-injected.c:192-217 | The same for any interleaving of any number of calls |
| `PtzRing.NextSlot` | src/camera/e1-doom-injected.c:420-430 | The slot of the next ticket is never from a later lap: uncommitted, or exactly that ticket's command |
| `PtzRing.NotYetDelivered` | src/camera/e1-doom-injected.c:427-429 | An uncommitted next ticket bounds what could have been delivered |
| `PtzRing.DeliverOk` | src/camera/e1-doom-injected.c:481-481 | Delivering the oldest ticket moves the window on and keeps the invariant |
| `PtzOverrun.OverrunMeansLapped` | src/camera/e1-doom-injected.c:430-434 | With no bound assumed, the overrun branch means more than 64 tickets were outstanding |
| `PtzOverrun.SixtyFiveOverrun` | src/camera/e1-doom-injected.c:430-434 | The bound is exact: 65 undrained calls make the first look an overrun |
| `PtzOverrun.BoundExact` | src/camera/e1-doom-injected.c:423-434 | From any state with at most 64 tickets outstanding: no schedule within a bound makes the next look an overrun if and only if the bound is at most 64 |
| `PtzOverrun.FinishCalls` | src/camera/e1-doom-injected.c:200-208 | Calls that hold tickets can all finish |
| `PtzUnbounded.FreeRing.Drain` | src/camera/e1-doom-injected.c:413-483 | With no bound on the device's threads, overrun branch included: every ticket moved past is delivered or counted as lost, numbers strictly rise, something is lost only when more than 64 tickets were outstanding; from an orderly start and within one lap nothing is lost and each ticket comes with its own call's command |
| `PtzUnbounded.FreeRing.DrainSlot` | src/camera/e1-doom-injected.c:420-442 | One look: stop, skip an overrun by what is logged, or take the slot |
| `PtzUnbounded.FreeRing.LoadFields` | src/camera/e1-doom-injected.c:439-441 | The three loads give one call's fields while its slot is not lapped |
| `PtzUnbounded.FreeStepCalm` | src/camera/e1-doom-injected.c:192-217 | Unbounded hook steps keep the bounded ring's invariant as long as the tickets stay within one lap |
| `PtzOverrun.ManyCalls` | src/camera/e1-doom-injected.c:192-217 | What any number of uninterrupted calls leaves in the ring |
| `AudioHook.Serve` | src/camera/e1-doom-injected.c:87-141 | Any sequence of start, update and cleanup commands, quiesce timeouts included, over any overlapping callbacks: in every state no callback reads an unmapped ring, and one that saw Doom mode finds a mapped one |
| `AudioHook.AudioHook.Cleanup` | src/camera/e1-doom-injected.c:1221-1253 | 0: nobody uses the ring, it is withdrawn and unmapped; -1, only with a callback still inside: it stays mapped and owned, Doom mode is off and a later call can retry |
| `AudioHook.AudioHook.StartDoom` | src/camera/e1-doom-injected.c:1095-1159 | The ring is published before the mode; refused with resources held, a failed mapping or a bad header; on success Doom mode is on unless a callback of an earlier tone was pending; a start whose marker cannot be written gives everything back, and is safe against every continuation if and only if no callback is then inside the ring reader |
| `AudioHook.AudioHook.Abandon` | src/camera/e1-doom-injected.c:1146-1157 | The failure path, with callbacks running between its stores: mode off, pointer withdrawn, ring unmapped without waiting; the exact condition under which that is safe |
| `AudioHook.AudioHook.StartTone` | src/camera/e1-doom-injected.c:1066-1093 | Refused exactly when resources are held or the marker cannot be written; on success the tone is on for its 256 frames unless a callback of an earlier tone was pending |
| `AudioHook.AudioHook.Retire` | src/camera/e1-doom-injected.c:1228-1252 | The pointer is withdrawn before the unmapping, with callbacks running in between |
| `AudioHook.AudioHook.Update` | src/camera/e1-doom-injected.c:1161-1219 | In Doom mode it reads only a mapped ring; it ends the hook exactly when a running tone has switched itself off |
| `AudioHook.CallStepOk` | src/camera/e1-doom-injected.c:87-141 | Every step of a callback keeps the counting and the ring safety, and cannot publish, unmap or enter Doom mode |
| `AudioHook.RunOk` | src/camera/e1-doom-injected.c:87-141 | The same for any interleaving of any number of callbacks |
| `AudioHook.QuiescenceIsQuiet` | src/camera/e1-doom-injected.c:1226-1231 | No active call and Doom mode off: nobody uses the ring and nobody can start to |
| `AudioHook.CardinalityOfLeaving` | src/camera/e1-doom-injected.c:139-140 | The active count is the number of calls inside |
| `AudioHook.UnmapExact` | src/camera/e1-doom-injected.c:1146-1156 | Where a start fails after publishing, unmapping without waiting is safe against every continuation if and only if no callback is inside the ring reader at that moment |
| `AudioHook.AbandonedStartUnsafe` | src/camera/e1-doom-injected.c:1146-1156 | One can be: for every ring address a reachable schedule in which the unmapped ring is read |
| `AudioHook.DoomLastsExactly` | src/camera/e1-doom-injected.c:93-110 | Whatever the callbacks do, Doom mode stays on until the worker ends it if and only if no callback of an earlier tone is pending |
| `AudioHook.NextCallReads` | src/camera/e1-doom-injected.c:91-121 | In Doom mode a new call reads the published ring after its load of the mode and of the pointer |
| `AudioHook.NextCallDelivers` | src/camera/e1-doom-injected.c:91-141 | Such a call can deliver a frame and leave everything but the frame count as it was |
| `VideoFrame.Worker.ConvertDoomFrame` | src/camera/e1-doom-injected.c:892-939 | With the video thread running between any two loads: 0 leaves the scaled image of one completely drawn frame and does what an undisturbed call would do at the moment the slot's sequence was loaded; the accepted number is the frame's own if and only if that sequence is twice the counter, and the one before it otherwise; it is above the last accepted number, counted, its drops counted; otherwise numbers and counts stay; -1 only for a source opened at another geometry |
| `VideoFrame.Worker.Follow` | src/camera/e1-doom-injected.c:892-939 | Any number of calls: accepted numbers strictly rise, accepted frames plus counted drops equal the numbers passed since a nonzero baseline up to 2^31 of them, the frames shown never go back, and one is shown again exactly in the very next acceptance when it was first taken under the number before its own |
| `VideoFrame.Worker.ConvertSlot` | src/camera/e1-doom-injected.c:911-938 | From an even sequence on: the image, the number and the counters, or a retry that shows the slot or the counter moved |
| `VideoFrame.Worker.ConvertStable` | src/camera/e1-doom-injected.c:922-933 | The three closing comparisons accept only the image of one frame |
| `VideoFrame.Worker.ConvertIndexed` | src/common/e1-frame-convert.h:106-145 | A conversion of pixels and palette that may change under it is the scaled image of the slot if the sequence did not move; every read is in bounds even if it did |
| `VideoFrame.Worker.ExpandRow` | src/common/e1-frame-expand.h:18-38 | One row over shared pixels, loaded one at a time |
| `VideoFrame.Worker.OpenFrameSource` | src/camera/e1-doom-injected.c:836-888 | A source that opens has maps for the geometry Doom draws in; one that does not leaves the state closed, and only for a bad header, nothing published or a slot still odd |
| `VideoFrame.Worker.SourceValid` | src/camera/e1-doom-injected.c:917-921 | The geometry check, each field loaded where the expression loads it, holds exactly for a source opened at Doom's geometry |
| `VideoFrame.Worker.StillThere` | src/camera/e1-doom-injected.c:926-928 | Equal sequence, slot and counter at the end: the slot never moved, and the counter was already the observed one |
| `VideoFrame.ImageOf` | src/camera/e1-doom-injected.c:904-938 | The image of an even slot is the newest frame, numbered by the counter or one above it |
| `VideoFrame.ImageShows` | src/common/e1-frame-convert.h:96-145 | What the image of a frame shows at every pixel, channel by channel |
| `VideoFrame.DropsExact` | src/common/e1-framebuffer.h:41-54 | The drop count is the number of frames passed over if and only if it is adjacent or fewer than 2^31; zero beyond that and from no baseline |
| `VideoFrame.TallyStep` | src/common/e1-framebuffer.h:41-54 | One accepted frame and its drops account for every number since the last one |
| `VideoFrame.SameFrameTwice` | src/platform/e1/i_video_e1.c:171-174 | From every state between the even store and the counter's move: a reader takes the new frame under the old number, and takes it again under its own once the counter has moved |
| `VideoFrame.NumberExact` | src/platform/e1/i_video_e1.c:171-174 | An accepted frame carries its own number if and only if the slot's sequence is twice the counter, that is, exactly while the video thread sleeps after publishing it |
| `VideoFrame.TwiceExact` | src/camera/e1-doom-injected.c:904-938 | Two acceptances show the same frame if and only if the first fell before the counter had followed the slot and the slot is still that one; otherwise the later shows a newer frame |
| `VideoFrame.NumbersForward` | src/camera/e1-doom-injected.c:904-938 | Over any accepted numbers: no frame is older than an earlier one, and it is the same only in the next acceptance under the next number |
| `VideoMemory.StepOk` | src/platform/e1/i_video_e1.c:102-177 | Every store of the video thread keeps slot, sequence and counter in order; an even slot changes only with its sequence |
| `VideoMemory.RunOk` | src/platform/e1/i_video_e1.c:310-355 | The same over any run of drawing, publishing and sleeping |
| `VideoMemory.EvenSlot` | src/platform/e1/i_video_e1.c:147-177 | An even slot shows frame sequence / 2 complete, and the counter is there or one behind |
| `VideoMemory.SlotFixed` | src/platform/e1/i_video_e1.c:197-216 | Slot 0 is always active and from the first publication on keeps Doom's geometry |
| `VideoMemory.Geometry` | src/platform/e1/i_video_e1.c:197-208 | Both resolutions fit the converter's profiles and the slot |
| `RuntimeControl.RuntimeControl.DoObserveRaw` | src/common/e1-runtime-control.h:77-112 | The raw observer's whole new state and actions, tied to the specification the run theorems are about |
| `RuntimeControl.RuntimeControl.DoCameraCommand` | src/common/e1-runtime-control.h:129-172 | The secret matcher's whole new state and actions, tied to the specification the run theorems are about |
| `RuntimeControl.RuntimeControl.DoApplyPtz` | src/common/e1-runtime-control.h:174-212 | The recogniser's whole new state and actions in each mode, tied to the specification the run theorems are about |
| `RuntimeControl.RuntimeControl.DoTick` | src/common/e1-runtime-control.h:214-237 | The tick's whole new state and actions, tied to the specification the run theorems are about |
| `RuntimeControl.RuntimeControl.DoRequestEnter` | src/common/e1-runtime-control.h:56-68 | A request outside its mode changes nothing, tied to the specification the run theorems are about |
| `RuntimeControl.RuntimeControl.DoRequestExit` | src/common/e1-runtime-control.h:114-127 | A request outside its mode changes nothing, tied to the specification the run theorems are about |
| `RuntimeControl.RuntimeControl.DoEntryComplete` | src/common/e1-runtime-control.h:239-246 | Completion succeeds exactly in the entry melt, tied to the specification the run theorems are about |
| `RuntimeControl.RuntimeControl.DoExitComplete` | src/common/e1-runtime-control.h:248-261 | Completion succeeds exactly in the exit melt and zeroes the recognisers, tied to the specification the run theorems are about |
| `RuntimeLifecycle.LifecycleCycles` | src/common/e1-runtime-control.h:56-261 | Over every run that nothing abandons, ENTER, entry completion, EXIT, exit completion follow one another strictly |
| `RuntimeLifecycle.StepFollowsMark` | src/common/e1-runtime-control.h:56-261 | ENTER is raised exactly on camera to entry, EXIT exactly on Doom to exit, and the mode changes only with such a mark |
| `RuntimeLifecycle.OneTransition` | src/common/e1-runtime-control.h:56-237 | Without a completion in between, any run of inputs raises at most one transition and then waits in a melt |
| `RuntimeLifecycle.TurnRaisesAtMostOne` | src/camera/e1-doom-injected.c:2076-2104 | One worker turn, with its requests, whole batch, synthetic stops and tick, raises at most one of ENTER and EXIT |
| `RuntimeLifecycle.Worker.Turn` | src/camera/e1-doom-injected.c:2076-2104 | A camera request in Doom raises EXIT, a start request in camera mode ENTER, or, while the game is not ready, starts the control over; without one, what the batch raises is raised; in a turn with nothing else EXIT exactly after three seconds of Down; a melt is left alone; never both |
| `RuntimeLifecycle.Worker.DrainBatch` | src/camera/e1-doom-injected.c:413-483 | Draining a batch performs observer, recogniser and synthetic stop of every command in order, and collects their actions |
| `RuntimeLifecycle.Worker.DrainEvent` | src/camera/e1-doom-injected.c:444-466 | One drained command, with the synthetic stop one millisecond later in camera mode |
| `RuntimeLifecycle.Worker.Requests` | src/camera/e1-doom-injected.c:2076-2095 | The dashboard's requests, then the batch |
| `RuntimeLifecycle.RequestsRaise` | src/camera/e1-doom-injected.c:2076-2091 | A dashboard request in its mode takes effect before the batch; otherwise the batch alone decides |
| `RuntimeLifecycle.TransitionsReset` | src/common/e1-runtime-control.h:56-127 | What entering, leaving and both completions leave of every recogniser, and that out of their mode they change nothing |
| `RuntimeLifecycle.TickRaises` | src/common/e1-runtime-control.h:214-237 | A tick raises EXIT exactly in Doom with Down held for three seconds, and nothing else |
| `RuntimeLifecycle.AgesDoNotWrap` | src/common/e1-runtime-control.h:77-237 | With a clock that does not go back no age is computed from the future, so no subtraction wraps |
| `RuntimeLifecycle.TimesStayOk` | src/common/e1-runtime-control.h:40-261 | Every input keeps all stored times at or before the clock |
| `RuntimeLifecycle.StopKeepsTime` | src/camera/e1-doom-injected.c:455-463 | The synthetic stop dated one millisecond ahead leaves no timestamp ahead of the clock |
| `RuntimeLifecycle.BatchKeepsTime` | src/camera/e1-doom-injected.c:444-466 | The same for a whole batch |
| `RuntimeSecret.SecretSound` | src/common/e1-runtime-control.h:129-172 | Over every history: a command that raises ENTER through the recogniser is a stop, and the last eight presses since camera mode began spell the secret within gap and total, with a stop between each and the next and none after the eighth |
| `RuntimeSecret.PressPlaces` | src/common/e1-runtime-control.h:139-151 | The presses of any history stand at increasing places with a stop strictly between each and the next, and a control still held has been held since the last |
| `RuntimeSecret.CompleteIsTyped` | src/common/e1-runtime-control.h:139-146 | A complete and fresh match is a typed secret |
| `RuntimeSecret.RunOk` | src/common/e1-runtime-control.h:129-172 | The matcher always describes the newest presses of the history and their times |
| `RuntimeSecret.PressExplains` | src/common/e1-runtime-control.h:153-171 | A press that advances, restarts or clears the matcher leaves it describing the newest presses |
| `RuntimeSecretExact.SecretExact` | src/common/e1-runtime-control.h:129-172 | From any reachable camera-mode control with nothing held, a timely performance of the secret raises ENTER at its final stop if and only if the first press did not find exactly one matched Up |
| `RuntimeSecretExact.TapsEnter` | src/common/e1-runtime-control.h:129-172 | Completeness: from the zeroed control any eight timely taps raise ENTER exactly at the last release |
| `RuntimeSecretExact.EventsExact` | src/camera/e1-doom-injected.c:444-466 | As drained by the worker, through observer, recogniser and synthetic stops, from any reachable camera-mode control with nothing held: eight timely directions raise nothing before the eighth, and the eighth raises ENTER if and only if the first did not find exactly one matched Up |
| `RuntimeSecretExact.EventsEnter` | src/camera/e1-doom-injected.c:444-466 | Completeness for drained events from the zeroed control |
| `RuntimeSecretExact.EventsHear` | src/camera/e1-doom-injected.c:444-466 | The raw observer and the synthetic stops add nothing to what the taps alone raise |
| `RuntimeSecretExact.ThirdUpMisses` | src/common/e1-runtime-control.h:153-171 | One Up beforehand and the same eight taps raise nothing: the matcher is not a full string matcher |
| `RuntimeSecretExact.Recognised` | src/common/e1-runtime-control.h:129-172 | The performing direction of SecretExact |
| `RuntimeSecretExact.Missed` | src/common/e1-runtime-control.h:153-171 | The failing direction of SecretExact |
| `RuntimeSecretExact.SilentRun` | src/common/e1-runtime-control.h:129-172 | A history whose stops meet no complete match raises nothing and stays in camera mode |
| `RuntimeTicks.TicksDoNotMatter` | src/common/e1-runtime-control.h:214-229 | For any inputs in time order, inserting any number of ticks while the camera is armed changes no later action and no later mode |
| `RuntimeTicks.SchedulesAgree` | src/common/e1-runtime-control.h:77-229 | The simulation behind it, from any two controls equal up to expired matcher state |
| `RuntimeTicks.StepSame` | src/common/e1-runtime-control.h:77-229 | No input can tell such controls apart |
| `RuntimeTicks.StopSame` | src/common/e1-runtime-control.h:129-172 | A stop dated ahead of the clock cannot either |
| `RuntimeTicks.ExtraTickSame` | src/common/e1-runtime-control.h:214-229 | A camera-mode tick raises nothing and changes only expired state |
| `RuntimeGestures.StopsSound` | src/common/e1-runtime-control.h:77-112 | Over every history: the raw observer raises something only at a stop that ends eight consecutive stops in time |
| `RuntimeGestures.StopsFire` | src/common/e1-runtime-control.h:77-112 | Completeness: eight stops in time raise ENTER in camera mode and EXIT in Doom, at the eighth and not before |
| `RuntimeGestures.HoldExact` | src/common/e1-runtime-control.h:174-237 | Over every history: a tick or a stop leaves Doom if and only if the commands since Doom began end in a run of Downs at least three seconds old |
| `RuntimeGestures.StopsDrained` | src/camera/e1-doom-injected.c:444-466 | As drained by the worker: eight timely directionless stops raise EXIT in Doom, ENTER in camera mode, at the eighth and not before |
| `RuntimeGestures.HoldDrained` | src/camera/e1-doom-injected.c:444-466 | As drained in Doom: a stop after a Down raises EXIT if and only if three seconds lie between them |
| `RuntimeGestures.DirectionDiscards` | src/common/e1-runtime-control.h:77-100 | A direction discards the counted stops and the stop that ends it is not counted |
| `RuntimeGestures.CommandsForwarded` | src/common/e1-runtime-control.h:174-212 | Exactly the Doom-mode commands, and the stop that lets go of a Down held into the exit melt, go on to the game |
| `RemotePatch.Remote.WriteRemote` | src/camera/e1-ptz-patch-supervisor.c:534-562 | 0 exactly when no access failed, and then exactly [address, address + length) changed, for any length; every intermediate content is a word-aligned prefix of the write |
| `RemotePatch.Remote.WriteWord` | src/camera/e1-ptz-patch-supervisor.c:540-559 | One round: a whole word, or the tail merged into the bytes already there |
| `RemotePatch.Remote.ReadRemote` | src/camera/e1-ptz-patch-supervisor.c:395-417 | 0 exactly when no access failed, and then the bytes are the memory's |
| `RemotePatch.Remote.IsSafePartialPatch` | src/camera/e1-ptz-patch-supervisor.c:564-576 | True exactly when every word is the original's or the patch's |
| `RemotePatch.Remote.InspectOrModify` | src/camera/e1-ptz-patch-supervisor.c:578-661 | With any access failing at any point: looking changes nothing, unknown bytes are never overwritten, nothing outside the site changes, every intermediate word is the original's or the patch's, success means verified bytes, a failed install leaves a half-written site only after a second failure, and without failures looks, installs and restores do what they are for |
| `RemotePatch.Remote.Install` | src/camera/e1-ptz-patch-supervisor.c:621-639 | The install branch: only over the original, rolled back when it cannot be written or verified |
| `RemotePatch.Remote.Restore` | src/camera/e1-ptz-patch-supervisor.c:641-653 | The restore branch: only over known words |
| `PatchGate.Exercise` | src/camera/e1-ptz-patch-supervisor.c:578-661 | Any sequence of installs, restores and looks from the original: every state on the way is recoverable word by word and confined to the site, and each restore during which nothing fails leaves the original |
| `RemotePatch.WrittenSites` | src/camera/e1-ptz-patch-supervisor.c:534-562 | Whatever a write of one version passes through on a recoverable site stays recoverable and inside the site |
| `RemotePatch.PartlyWritten` | src/camera/e1-ptz-patch-supervisor.c:534-562 | Partway through eight bytes every word is the old or the new one |
| `RemotePatch.OverwriteChangesExactly` | src/camera/e1-ptz-patch-supervisor.c:534-562 | A write changes exactly its range |
| `RemotePatch.TailExtends` | src/camera/e1-ptz-patch-supervisor.c:543-558 | The read-modify-write of the tail changes only the tail |
| `RemotePatch.MixedStays` | src/camera/e1-ptz-patch-supervisor.c:564-576 | Words of a mixed site and of one version stay mixed |
| `PatchGate.Gate.Supervise` | src/camera/e1-ptz-patch-supervisor.c:1144-1258 | In every state, killed anywhere and with any failure, the site differs from the original only while the marker is on disk; result 0 means the whole course was taken in order (marker before patch, patch in place from its announcement until the owner is gone, original back before that is announced, hook quiesced, marker gone, restored file written), with the device's threads having run on the patched code; if no access to the target fails the original is back whatever else went wrong, and if nothing goes wrong the result is 0 |
| `PatchGate.Gate.Body` | src/camera/e1-ptz-patch-supervisor.c:1144-1226 | From entry to the done label, for the gate shape shared with the two log gates: success takes the whole course with the patch in between |
| `PatchGate.Gate.Prepare` | src/camera/e1-ptz-patch-supervisor.c:1155-1196 | The marker is on disk before the first patched byte |
| `PatchGate.Gate.WriteMarker` | src/camera/e1-ptz-patch-supervisor.c:1184-1196 | The owner's record first, the marker last |
| `PatchGate.Gate.Finish` | src/camera/e1-ptz-patch-supervisor.c:1213-1225 | Restoration is announced, quiescence awaited, then the marker removed |
| `PatchGate.Gate.RestoreAfterError` | src/camera/e1-ptz-patch-supervisor.c:1228-1253 | A failed run restores before it reports |
| `PatchGate.Gate.EmergencyRestore` | src/camera/e1-ptz-patch-supervisor.c:1260-1294 | From whatever state a gate was killed in, 0 means the original is back, announced, quiesced and the marker off, in that order |
| `HeldKeys.Controller.ApplyKey` | src/platform/e1/i_input_e1.c:428-472 | The table behaves as a set of codes: refused exactly for a code without a key of the game or of 24 characters or more, or one not held while all 64 entries are; the game is told of a key only when the first alias goes down or the last comes up |
| `HeldKeys.Controller.Serve` | src/platform/e1/i_input_e1.c:405-472 | Any sequence of presses, releases, heartbeats, release-alls and dead-man checks holds what a plain set would hold, appends to the log exactly what that set tells the game, and after a check nothing is held without activity in the last 2500 ms |
| `HeldKeys.Controller.ReleaseAll` | src/platform/e1/i_input_e1.c:405-426 | Nothing is held and exactly the keys that were down are posted up, in key order |
| `HeldKeys.Controller.Watchdog` | src/platform/e1/i_input_e1.c:882-886 | After the check nothing is held unless there was activity within 2500 ms |
| `HeldKeys.Controller.KeyIsHeld` | src/platform/e1/i_input_e1.c:393-403 | True exactly when some held code stands for the key |
| `HeldKeys.Controller.Bind` | src/platform/e1/i_input_e1.c:438-455 | An entry is found or taken exactly when the code is held or not all 64 are; held codes stay |
| `HeldKeys.Controller.Find` | src/platform/e1/i_input_e1.c:438-446 | The entry of the code, and a free one only if nothing is missed |
| `HeldKeys.ToldAgrees` | src/platform/e1/i_input_e1.c:457-470 | What is posted keeps every key down in the log exactly while an alias is held, downs and ups alternating |
| `HeldKeys.DownsMatchUps` | src/platform/e1/i_input_e1.c:457-470 | Over a whole run every key went down as often as up, once more if it is down |
| `HeldKeys.LiftsOnce` | src/platform/e1/i_input_e1.c:418-422 | Release-all posts one up for each key that is down, none for others and no down |
| `HeldKeys.LiftsAgree` | src/platform/e1/i_input_e1.c:411-422 | After those ups no key is down and the log still alternates |
| `HeldKeys.HeldCount` | src/platform/e1/i_input_e1.c:438-455 | The set has as many codes as there are held entries, so it has 64 exactly when the table is full |
| `HeldKeys.Rewritten` | src/platform/e1/i_input_e1.c:447-455 | Writing an entry keeps nonempty codes distinct and changes the set by that code only |
| `HeldKeys.FixedCodes` | src/platform/e1/i_input_e1.c:367-384 | Letters, digits, keypad digits and the twelve function keys have the keys one expects |
| `HeldKeys.SpecialCodes` | src/platform/e1/i_input_e1.c:385-389 | The table lookup finds a code's own entry |
| `Melt.MeltState.Update` | src/camera/e1-doom-injected.c:1749-1763 | However polls are spaced, whatever gaps they leave and also when the clock steps back, the rows are a function of the time since the melt began; a poll not later than the last changes nothing |
| `Melt.MeltState.Poll` | src/common/e1-melt.h:17-43 | From a cleared remainder, polls with no gap over 5714 ms hand out exactly floor(35 * elapsed / 1000) ticks, clock steps back included |
| `Melt.DueExact` | src/common/e1-melt.h:35-42 | Due ticks are 35 a second, rounded down |
| `Melt.MeltState.ClockTicks` | src/common/e1-melt.h:17-43 | No millisecond is lost or counted twice: 1000 * ticks + remainder is the scaled gap plus the carried remainder |
| `Melt.MeltState.Init` | src/common/e1-melt.h:51-66 | The rows are those the seed determines |
| `Melt.MeltState.Advance` | src/common/e1-melt.h:68-96 | Every column moves along its orbit by the ticks; done exactly when all are down |
| `Melt.EndsExactly` | src/common/e1-melt.h:68-96 | Every melt ends at exactly 27 - min(row) ticks, at most 42, for every seed |
| `Melt.StartInside` | src/common/e1-melt.h:51-66 | For every seed rows start in [-15, 0], neighbours at most one apart |
| `Melt.StartMoves` | src/common/e1-melt.h:51-66 | The first row is drawn from sixteen, each next moves by at most one as drawn, and a move out of [-15, 0] is not made |
| `Melt.GeneratorExact` | src/common/e1-melt.h:45-49 | The generator's recurrence modulo 2^32, and that the number drawn is its top byte |
| `Melt.OrbitIs` | src/common/e1-melt.h:74-88 | The whole path of a column in closed form |
| `Melt.OrderPreserved` | src/common/e1-melt.h:74-88 | Along the orbit columns keep their order and never move back |
| `Melt.StepSwaps` | src/common/e1-melt.h:74-88 | On arbitrary rows the step swaps two columns exactly when the one behind still accelerates, the one ahead does not and is near enough; 15 and 16 are such rows |
| `Melt.PollKeeps` | src/common/e1-melt.h:68-96 | Advancing by one poll's ticks leads from the rows of one age to those of the next, capped gaps included |
| `Melt.DueSplits` | src/common/e1-melt.h:35-42 | Ticks and remainder of successive gaps add up to those of the whole |
| `Melt.MeltState.Begin` | src/camera/e1-doom-injected.c:1741-1744 | A melt begins at its own time with nothing carried |
| `Melt.ComposeEntry` | src/common/e1-melt.h:110-129 | Every pixel is Doom's above its column's edge and the camera's, moved down with the column, below |
| `Melt.ComposeExit` | src/common/e1-melt.h:131-150 | The same with nothing behind |
| `Melt.PixelDrawn` | src/common/e1-melt.h:98-150 | Every pixel in numbers: its column has dropped by row/200 of the height, rounded down; above is what lies behind, from there on the old picture moved down by exactly that |
| `Melt.EndsOfMelt` | src/common/e1-melt.h:110-150 | Before a column moves the picture is the old one; once all are down it is what lies behind |
| `Melt.UncoveredStays` | src/common/e1-melt.h:98-108 | What a melt has uncovered stays uncovered at every later poll |
| `Melt.ScaledInOrder` | src/common/e1-melt.h:98-108 | Scaling rows to the screen keeps their order |
| `SfxMixer.MixFrames` | src/common/e1-sfx-mixer.c:52-101 | Successive frames of any number equal one continuous stream: the clip of the sum of the voices' own streams |
| `SfxMixer.MixFrame` | src/common/e1-sfx-mixer.c:52-101 | One frame is the next 1024 samples of that stream, over any run of the voice table; other voices stay |
| `SfxMixer.MixVoice` | src/common/e1-sfx-mixer.c:68-94 | One voice adds its own stream to the sums, no index leaves its samples, and it stops where they end |
| `SfxMixer.StreamJoins` | src/common/e1-sfx-mixer.c:52-101 | A stream and the stream of the voices it leaves behind are one longer stream |
| `SfxMixer.MixLater` | src/common/e1-sfx-mixer.c:52-101 | Voices that have run on continue the same sum |
| `SfxMixer.SoundsExactly` | src/common/e1-sfx-mixer.c:68-94 | A voice sounds for exactly ceil(count * 65536 / step) samples, the n-th taken at n * step |
| `SfxMixer.SampleExact` | src/common/e1-sfx-mixer.c:68-91 | The n-th sample of a voice in numbers: the point n * step between two neighbours rounded down, scaled by volume/127 rounded toward zero; 0 past the end |
| `SfxMixer.Rests` | src/common/e1-sfx-mixer.c:64-66 | A paused or inactive voice adds nothing and does not move |
| `SfxMixer.StreamIs` | src/common/e1-sfx-mixer.c:6-15 | A sample put out is the sum of the voices where it fits 16 bits, else the bound it passes |
| `SfxMixer.MixAppends` | src/common/e1-sfx-mixer.c:60-91 | The sum runs over every voice once |
| `SfxMixer.BetweenNeighbours` | src/common/e1-sfx-mixer.c:78-86 | Interpolation stays between the two neighbouring samples |
| `SfxMixer.MixBounded` | src/common/e1-sfx-mixer.c:88-92 | n voices sum to at most n times 16-bit range, so sixteen fit 32 bits |
| `SfxMixer.NowBounded` | src/common/e1-sfx-mixer.c:78-91 | One voice stays within 16 bits at every volume |
| `SfxMixer.UnityStep` | src/common/e1-sfx-mixer.c:38-45 | At step 65536 a voice plays its own samples one for one |
| `SfxMixer.StartVoice` | src/common/e1-sfx-mixer.c:17-50 | Which arguments are refused, what is clamped, and that the step is rate / 16000 * pitch / 128 in 1/65536 of a sample, rounded down |
| `SfxMixer.StaysSilent` | src/common/e1-sfx-mixer.c:64-74 | A voice that has stopped adds nothing and does not move |
| `RateConverter.OplOutput.GenerateOutput` | patches/woof/e1-doom.patch:300-357 | The output and the state left are those of one sample-by-sample run, for every carried phase and length |
| `RateConverter.OplOutput.GenerateBlock` | patches/woof/e1-doom.patch:308-355 | In every block the phase steps use exactly the native samples requested in bulk (the assertion in the code) and the buffer holds them |
| `RateConverter.OplOutput.GenerateParts` | patches/woof/e1-doom.patch:300-357 | Any partition of the stream into calls gives the output of one call |
| `RateConverter.RunSplits` | patches/woof/e1-doom.patch:297-357 | State and output do not depend on where the stream is cut |
| `RateConverter.BulkRequest` | patches/woof/e1-doom.patch:309-313 | The phase steps of n samples sum to the bulk request, for every carried phase below the output rate |
| `RateConverter.BlockFits` | patches/woof/e1-doom.patch:257-259 | A block's request fits the native block |
| `RateConverter.HoldsNewest` | patches/woof/e1-doom.patch:325-337 | Each output sample is the newest native sample due by then: none is skipped or averaged away |
| `RateConverter.OutputIs` | patches/woof/e1-doom.patch:317-339 | Both channels of every output sample are the newest native sample due by then |
| `RateConverter.Low16Exact` | patches/woof/e1-doom.patch:333-333 | A native sample is cut to its low 16 bits as a signed value |
| `RateConverter.Within` | patches/woof/e1-doom.patch:325-334 | No output sample reads past the native samples of its block |
| `RateConverter.Rates` | patches/woof/e1-doom.patch:253-259 | The rates and block sizes as the code derives them |
| `DeviceResolver.FindDeviceSite` | src/common/e1-device-signatures.h:76-122 | 0, 1 or -1 exactly as no, one or several even offsets match, for a mapping of any length, and the address of the only one |
| `DeviceResolver.PatchInvisible` | src/common/e1-device-signatures.h:17-23 | A trampoline over the masked eight bytes of a site changes neither whether that site matches nor whether any offset does whose 32 bytes it does not touch; offsets that it overlaps in part are not covered |
| `DeviceResolver.SignatureMatches` | src/common/e1-device-signatures.h:59-71 | True exactly when every unmasked byte agrees |
| `DeviceResolver.SiteBytes` | src/common/e1-device-signatures.h:24-57 | A site is an even offset whose 24 bytes after the first eight are a pattern's |
| `DeviceResolver.ResolveAll` | src/common/e1-device-functions.h:43-226 | 1 with the real table only for an assignment that meets the whole specification; otherwise none does |
| `DeviceResolver.ResolveDeviceFunctions` | src/common/e1-device-functions.h:133-226 | 1 exactly when nineteen signatures are unique, one audio-stop lies strictly between start and close and the three groups are in order; then the table is that assignment |
| `DeviceResolver.ResolvedUnique` | src/common/e1-device-functions.h:128-132 | At most one assignment meets the specification |
| `DeviceResolver.OrderDecides` | src/common/e1-device-functions.h:209-225 | With all twenty found the order checks alone decide, both ways |
| `DeviceResolver.NoStop` | src/common/e1-device-functions.h:206-208 | Without exactly one audio-stop between start and close nothing meets the specification |
| `DeviceResolver.Forced` | src/common/e1-device-functions.h:164-185 | Whatever meets the specification agrees with a completed scan |
| `DeviceResolver.ScanFunction` | src/common/e1-device-functions.h:165-184 | Counts the matches of one signature and records a unique one |
| `DeviceResolver.ScanStop` | src/common/e1-device-functions.h:189-208 | The only audio-stop between two addresses, or none to be had |
| `DeviceResolver.RangeOrdered` | src/common/e1-device-functions.h:107-126 | True exactly for an ascending group within 128 KiB |
| `DeviceResolver.MemoryMeans` | src/common/e1-device-functions.h:138-141 | The memory group function by function, within 128 KiB |
| `DeviceResolver.VideoMeans` | src/common/e1-device-functions.h:142-146 | The video group function by function, within 128 KiB |
| `DeviceResolver.AudioMeans` | src/common/e1-device-functions.h:147-153 | The audio group function by function, within 128 KiB |
| `DeviceResolver.FunctionBytes` | src/common/e1-device-functions.h:167-174 | A function stands at an even offset whose first twelve bytes are its signature |
| `FrameConvert.Convert` | src/common/e1-frame-convert.h:106-145 | The optimised conversion equals the per-pixel nearest-neighbour formula for both profiles, any pitch, pixels and palette, reading below pitch * height: every output pixel is opaque with the red, green and blue high halves of the entry of source pixel (x * width / 640, y * height / 360); otherwise -1 and the output untouched |
| `FrameConvert.ArgbChannels` | src/common/e1-frame-convert.h:96-104 | Which nibble holds which channel |
| `FrameConvert.ConvertRow` | src/common/e1-frame-convert.h:127-143 | Copying the row above, skipping the map at full width, or scaling: all the row of the formula |
| `FrameConvert.ExpandArm` | src/common/e1-frame-expand-arm.S:8-29 | The packed four-pixel loop equals the per-pixel map, for any count divisible by 4 |
| `FrameConvert.ScaleArm` | src/common/e1-frame-expand-arm.S:34-61 | The same for the mapped loop, the map read two entries at a time |
| `FrameConvert.ScaleScalar` | src/common/e1-frame-expand.h:29-38 | The scalar loop computes the same row as the packed one |
| `FrameConvert.BuildScaleMaps` | src/common/e1-frame-convert.h:75-94 | The maps are the nearest-neighbour ones; refused exactly for other geometries, changing nothing |
| `FrameConvert.KernelRow` | src/common/e1-frame-convert.h:136-142 | What a kernel computes over the converted palette is the row of the formula, and at full width the map is the identity |
| `FrameConvert.SameSourceRow` | src/common/e1-frame-convert.h:131-135 | Rows with the same source row are equal, so copying is right |
| `FrameConvert.PicksInside` | src/common/e1-frame-convert.h:128-142 | No kernel reads outside the source, whatever the pixels |
| `FrameConvert.BytesUnpack` | src/common/e1-frame-expand-arm.S:13-17 | Rotating and masking a loaded word yields its four bytes |
| `FrameConvert.PackUnpacks` | src/common/e1-frame-expand-arm.S:22-25 | Packing two words and storing them yields both low halves |

## Left out

- Weak memory and 32-bit counter wrap-around: memory is sequentially consistent and frame, sequence and ticket counters are unbounded; the unsigned differences the code computes (`Ahead`, `Age`, `Drops`) are modelled with their wrap.
- PtzRing.PtzRing.Drain: at most 64 tickets outstanding is assumed of the device's threads, because nothing in the hook enforces it; `PtzUnbounded.FreeRing.Drain` drops the assumption and says what is then left of the promise.
- AudioHook.Serve: a Doom start whose marker cannot be written (lines 1146-1156) is not one of its commands, because it is unsafe; `StartDoom` and `Abandon` say exactly when.
- PatchGate.Gate.Supervise: quiesced and restored files left over from an earlier run are assumed absent, and the hook's confirmation is the worker's check of its active count; when an install was verified but letting the threads go failed, the patch stays in and the run fails with the marker still on disk.
- RemotePatch.Remote.InspectOrModify: stopping every thread of the target is assumed to work when the request succeeds; `attach_all_threads` itself is not modelled.
- VideoFrame.Worker.ConvertDoomFrame: one run of Doom is modelled; a Doom process restarting under an open source is not.
- HeldKeys.Controller.ApplyKey: the engine's key numbers and the list of special codes come from Woof's headers and are parameters.
- RateConverter.OplOutput.GenerateOutput: the OPL chip is one endless stream of native samples, so that asking in pieces or at once yields the same samples is assumed of it.
- DeviceResolver.ResolveDeviceFunctions: what a failing call leaves in the table is stated only where the order checks fail; the code leaves partial addresses elsewhere.
- Melt images: during the entry melt the picture is composed from whatever the last conversion left, also when it was rejected, so no claim is made that a melt image shows one frame.
- The dummy supervisor gate, which removes its marker unconditionally.
- Null pointer arguments, the peak and nonzero statistics of the mixer, and the hook's answer to the camera whether to consume a command.
- Safety of unloading the injected library: the instructions before a hook counts itself are outside the C code.
- Building the eight patch bytes, ELF parsing, process scanning and remote calls.
- Hardware abstraction calls, device memory mapping, marker-file I/O beyond success and failure, sockets, logging.
- HTTP request parsing and the HTML page, engine changes, the span drawing macro, OPL emulator internals, music volume.
- Conversion of the camera's own NV12 picture, the ADTS header parser, the OPL noise jump, the pan/tilt input adapter and the timer file: small and local.
