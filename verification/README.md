# lvtk LV2 Worker host machinery in Dafny

This project models the host side of the LV2 Worker extension in lvtk, the
LV2 toolkit for JUCE. A plugin's real-time thread asks for work with
`Worker::scheduleWork`. `WorkThread::scheduleWork` then writes a request
frame `[u32 size][u32 workId][payload]` into the WorkThread's bounded ring
buffer. Each iteration of `WorkThread::run` decodes one frame. It looks up the
Worker registered under `workId` and hands it the payload. The Worker answers
through `respondToWork`, which writes response frames `[u32 size][payload]`
into its own ring. The plugin side collects them with `processWorkResponses`.
Workers get ids from a pre-incremented counter when they register, and they
unregister on destruction. `LV2World` hands out its WorkThreads round-robin.
It also decides whether a plugin's required features are supported. The
Worker feature (`http://lv2plug.in/ns/ext/worker#schedule`) always is.

Everything is functional:

- A ring buffer is a byte sequence plus a capacity. Writes and reads are
  all-or-nothing.
- A host `uint32` travels as four little-endian bytes.
- The WorkThread is an immutable record holding:
  - the request queue;
  - the registry of Worker references;
  - `nextWorkId`;
  - the run loop's scratch-buffer size.
- Worker objects live in a map from reference to Worker. That map stands for
  the heap the registry points into.
- Each thread's work is a step function:
  - schedule (`ScheduleWork`);
  - one run-loop iteration. `DispatchOneAsWritten` is the loop body as the
    source has it. `DispatchOne` is the corrected iteration, which consumes
    a frame with id 0 whole instead of leaving its body in the queue (see
    "## Findings"). On every frame whose id is not 0 the two agree
    (`AsWrittenAgreesOnNonZeroId`). `RunRequest` adds the handler call and
    the busy flag to `DispatchOne`;
  - respond (`RespondToWork`, `RespondAll`);
  - drain (`ProcessWorkResponses`).

Modules, one per file:

| file | module | contents |
|---|---|---|
| `options.dfy` | `Options` | `Option`, standing for nullable pointers |
| `bytes.dfy` | `Bytes` | bytes, `uint32`, the little-endian codec, powers of two |
| `ring_buffer.dfy` | `RingBuffer` | the abstract ring buffer |
| `frames.dfy` | `Frames` | the request and response frame layouts |
| `workers.dfy` | `Workers` | the `Worker` object: respond, validate, drain |
| `work_thread.dfy` | `WorkThread` | registry, lookup, schedule, run loop, Worker lifetime |
| `lv2_world.dfy` | `LV2World` | thread round-robin and the feature checks |
| `scenarios.dfy` | `Scenarios` | whole exchanges across the modules |

## Model

| member | source | states |
|---|---|---|
| RingBuffer.Ring.CanWrite | modules/lvtk_core/source/lvtk_WorkThread.cpp:143 | canWrite(n) holds exactly when n more bytes fit beside the readable ones |
| RingBuffer.Ring.CanRead | modules/lvtk_core/source/lvtk_WorkThread.cpp:164 | canRead(n) holds exactly when at least n bytes are readable |
| RingBuffer.Ring.Write | modules/lvtk_core/source/lvtk_WorkThread.cpp:146-152 | a write that fits appends all the bytes and reports their number; one that does not changes nothing and reports 0; capacity is kept |
| RingBuffer.Ring.Read | modules/lvtk_core/source/lvtk_WorkThread.cpp:89-111 | the bytes read followed by the bytes left are the old contents; a readable count returns exactly that many, otherwise nothing moves |
| RingBuffer.Ring.Peek | modules/lvtk_core/source/lvtk_WorkThread.cpp:163 | peak copies the first n bytes without consuming them, or none when fewer are readable |
| RingBuffer.EmptyRing | modules/lvtk_core/source/lvtk_WorkThread.cpp:28 | a new ring is empty and has the requested capacity |
| Bytes.DecodeEncode | modules/lvtk_core/source/lvtk_WorkThread.cpp:146-149 | a size or id word written into a ring reads back as the same word |
| Bytes.EncodeDecode | modules/lvtk_core/source/lvtk_WorkThread.cpp:162-164 | any four peeked bytes are the encoding of the word they decode to |
| Bytes.EncodeInjective | modules/lvtk_core/source/lvtk_WorkThread.cpp:146-149 | distinct words never share an encoding |
| Bytes.NextPowerOfTwo | modules/lvtk_core/source/lvtk_WorkThread.cpp:27 | the result is a power of two, at least n, and its half is below n unless it is 1 |
| Bytes.NextPowerOfTwoIsLeast | modules/lvtk_core/source/lvtk_WorkThread.cpp:27 | no power of two at least n lies below NextPowerOfTwo(n) |
| Frames.RequestFrame | modules/lvtk_core/source/lvtk_WorkThread.cpp:146-152 | a request frame occupies exactly requiredSpace(size) bytes, the room scheduleWork checks for before writing |
| Frames.ResponseFramesAppend | modules/lvtk_core/source/lvtk_WorkThread.cpp:204-207 | the bytes of successive responses are the concatenation of their frames |
| Frames.PeekedSize | modules/lvtk_core/source/lvtk_WorkThread.cpp:162-163 | peek yields the decoded front word when four bytes are readable, else the initial 0 |
| Workers.NewWorker | modules/lvtk_core/source/lvtk_WorkThread.cpp:168-173 | a new Worker is idle, with an empty bufsize-byte response ring and a bufsize-byte scratch buffer |
| Workers.ValidateResponse | modules/lvtk_core/source/lvtk_WorkThread.cpp:232-239 | true exactly when the queue front holds a size header and that many payload bytes |
| Workers.ResponseFrameIsComplete | modules/lvtk_core/source/lvtk_WorkThread.cpp:232-239 | a written response frame is recognised as complete, whatever follows it |
| Workers.RespondToWork | modules/lvtk_core/source/lvtk_WorkThread.cpp:198-211 | true iff header plus payload fit; then exactly the frame is appended, otherwise nothing changes; no partial frame |
| Workers.RespondAll | modules/lvtk_core/source/lvtk_WorkThread.cpp:198-211 | the ring gains exactly the frames of the accepted responses, in order; all are accepted when all fit |
| Workers.ReadResponse | modules/lvtk_core/source/lvtk_WorkThread.cpp:225-226 | reading a validated response removes exactly one frame and returns its payload |
| Workers.DrainLoop | modules/lvtk_core/source/lvtk_WorkThread.cpp:216-229 | the delivered payloads' frames plus what remains rebuild the queue; what remains has no complete frame; every payload fits the scratch buffer, given a ring of exactly bufsize bytes |
| Workers.ProcessWorkResponses | modules/lvtk_core/source/lvtk_WorkThread.cpp:213-230 | all complete responses are delivered in order, the rest is kept, and nothing else in the Worker changes |
| Workers.ResponseFramesParseUniquely | modules/lvtk_core/source/lvtk_WorkThread.cpp:219-229 | a queue of whole frames parses back into exactly those frames, with nothing left |
| Workers.DrainDeliversEveryResponse | modules/lvtk_core/source/lvtk_WorkThread.cpp:213-230 | draining a queue of frames delivers exactly their payloads and empties it |
| Workers.RespondThenDrain | modules/lvtk_core/source/lvtk_WorkThread.cpp:198-230 | responses that fit an empty ring all succeed and come back from the drain identical and in order |
| Workers.AcceptedAll | modules/lvtk_core/source/lvtk_WorkThread.cpp:198-211 | when every respond succeeds, the accepted responses are all of them |
| WorkThread.NewWorkThread | modules/lvtk_core/source/lvtk_WorkThread.cpp:23-28 | the request queue is empty; its capacity is the least power of two at least bufsize; the counter starts at 0 |
| WorkThread.NewStateValid | modules/lvtk_core/source/lvtk_WorkThread.cpp:23-28 | a new WorkThread with no Workers satisfies the registry invariant |
| WorkThread.AddIfAbsent | modules/lvtk_core/source/lvtk_WorkThread.cpp:60 | the Worker is in the result; nothing else is added; a repeat-free registry stays repeat-free; an already registered Worker leaves the list as it was, a new one is appended at the end |
| WorkThread.RemoveFirst | modules/lvtk_core/source/lvtk_WorkThread.cpp:67 | the result is the list minus one occurrence of x, and the list itself when x is absent |
| WorkThread.FindWorker | modules/lvtk_core/source/lvtk_WorkThread.cpp:47-51 | returns the first registered Worker with the id, or none when no registered Worker has it |
| WorkThread.GetWorker | modules/lvtk_core/source/lvtk_WorkThread.cpp:41-52 | id 0 finds nothing; otherwise the result is a registered Worker with that id, or none exists |
| WorkThread.GetWorkerFindsRegistered | modules/lvtk_core/source/lvtk_WorkThread.cpp:41-52 | in a valid state, every registered Worker is found by its own id |
| WorkThread.Register | modules/lvtk_core/source/lvtk_WorkThread.cpp:55-61 | the counter advances by one with uint32 wrap; the Worker takes the new value; the registry gains it only if absent; nothing else changes |
| WorkThread.RegisterKeepsIdsFresh | modules/lvtk_core/source/lvtk_WorkThread.cpp:55-61 | the new id is at least 1 and above every registered id; the Worker is registered exactly once; the invariant holds |
| WorkThread.RegisterAtWrapIssuesZero | modules/lvtk_core/source/lvtk_WorkThread.cpp:58 | at counter value 0xFFFFFFFF the id handed out is 0 |
| WorkThread.RegistrationIdsNeverRepeat | modules/lvtk_core/source/lvtk_WorkThread.cpp:55-61 | successive registrations hand out consecutive ids from nextWorkId + 1, so no id repeats |
| WorkThread.RemoveWorker | modules/lvtk_core/source/lvtk_WorkThread.cpp:63-69 | the Worker's first registry entry goes and its id becomes 0; no other Worker and nothing else in the thread changes |
| WorkThread.RemoveFirstFromDistinct | modules/lvtk_core/source/lvtk_WorkThread.cpp:67 | removing from a repeat-free registry keeps it repeat-free and removes exactly that Worker |
| WorkThread.RemoveWorkerUnregisters | modules/lvtk_core/source/lvtk_WorkThread.cpp:63-69 | the Worker is unregistered, every other entry stays, the invariant holds, and its old id finds nothing |
| WorkThread.CreateWorker | modules/lvtk_core/source/lvtk_WorkThread.cpp:168-175 | a new idle Worker object appears with empty ring and scratch of bufsize bytes; the counter advances by one and the Worker takes that id; it joins the registry if absent; the request queue, scratch size and other Workers are untouched |
| WorkThread.CreateWorkerKeepsValid | modules/lvtk_core/source/lvtk_WorkThread.cpp:168-175 | until the counter wraps, construction keeps the invariant and issues an id of at least 1 |
| WorkThread.DestroyWorker | modules/lvtk_core/source/lvtk_WorkThread.cpp:177-190 | completes iff the Worker is not busy; then its object is gone, its first registry entry is removed, and every other Worker object and the rest of the thread are unchanged; otherwise nothing changes |
| WorkThread.DestroyWorkerCompletes | modules/lvtk_core/source/lvtk_WorkThread.cpp:177-190 | between steps destruction completes, keeps the invariant, and leaves the old id resolving to nothing |
| WorkThread.ValidateRequest | modules/lvtk_core/source/lvtk_WorkThread.cpp:159-165 | true exactly when the whole frame announced by the peeked size is readable; a pure read of the ring |
| WorkThread.RequestFrameIsComplete | modules/lvtk_core/source/lvtk_WorkThread.cpp:159-165 | a written request frame is recognised as complete, whatever follows it |
| WorkThread.ScheduleWork | modules/lvtk_core/source/lvtk_WorkThread.cpp:139-157 | true iff the whole frame fits; then exactly enc(size), enc(workId) and the payload are appended, otherwise nothing changes; the invariant holds |
| WorkThread.ScheduleAppendsRequest | modules/lvtk_core/source/lvtk_WorkThread.cpp:139-157 | a successful schedule appends its request to the queued request sequence |
| WorkThread.ReadRequestHeader | modules/lvtk_core/source/lvtk_WorkThread.cpp:88-100 | with 8 readable bytes it removes exactly them and returns the decoded size and id |
| WorkThread.DispatchBody | modules/lvtk_core/source/lvtk_WorkThread.cpp:105-129 | the scratch buffer only grows, to at least the body size and to NextPowerOfTwo(size) when it grows; a readable body is consumed exactly and delivered to the id's Worker or dropped; an unreadable one abandons the iteration with the queue untouched |
| WorkThread.DispatchOneAsWritten | modules/lvtk_core/source/lvtk_WorkThread.cpp:83-103 | the iteration as written: it waits, changing nothing, exactly when no complete frame is queued |
| WorkThread.AsWrittenZeroIdLeavesBody | modules/lvtk_core/source/lvtk_WorkThread.cpp:102-103 | as written, an id-0 frame loses only its header; its body stays at the queue front |
| WorkThread.AsWrittenAgreesOnNonZeroId | modules/lvtk_core/source/lvtk_WorkThread.cpp:88-129 | on a frame whose id is not 0 the iteration as written and the corrected one give the same state and outcome |
| WorkThread.DispatchOne | modules/lvtk_core/source/lvtk_WorkThread.cpp:80-129 | the corrected iteration (see Findings): waits iff no complete frame; never leaves a partial frame; registry untouched; scratch only grows, to a power of two; delivery goes to the registered owner of the id |
| WorkThread.DispatchConsumesFrame | modules/lvtk_core/source/lvtk_WorkThread.cpp:88-129 | one iteration consumes exactly the front frame, keeps the rest, and delivers to the id's Worker or drops |
| WorkThread.RequestFramesAppend | modules/lvtk_core/source/lvtk_WorkThread.cpp:146-152 | the bytes of successive requests are the concatenation of their frames |
| WorkThread.ExpectedAllSameRegistry | modules/lvtk_core/source/lvtk_WorkThread.cpp:119-121 | where requests go depends only on the registry and the Worker objects |
| WorkThread.DispatchInSubmissionOrder | modules/lvtk_core/source/lvtk_WorkThread.cpp:80-129 | n corrected iterations over n queued frames empty the queue and deliver or drop each request in submission order; for the source's loop this holds when no queued id is 0, by AsWrittenAgreesOnNonZeroId |
| WorkThread.ScheduleThenDispatch | modules/lvtk_core/source/lvtk_WorkThread.cpp:139-157 | the request round trip: schedule on an idle queue succeeds when the frame fits; the next iteration delivers the same size and bytes to the scheduler |
| WorkThread.DestroyedWorkerRequestDropped | modules/lvtk_core/source/lvtk_WorkThread.cpp:119-129 | a request still queued for a destroyed Worker is consumed and dropped; the frames behind it stay |
| WorkThread.UnknownIdDropped | modules/lvtk_core/source/lvtk_WorkThread.cpp:119-129 | a frame whose id finds no Worker is consumed and dropped |
| WorkThread.ReplaceWorkerKeepsValid | modules/lvtk_core/source/lvtk_WorkThread.cpp:123-126 | an idle, well-formed Worker object with the same id may replace the old one |
| WorkThread.RunRequest | modules/lvtk_core/source/lvtk_WorkThread.cpp:119-129 | on top of the corrected iteration, delivery runs the handler on the dispatched size and payload; only that Worker's responses change; it ends idle |
| WorkThread.RunRequestKeepsValid | modules/lvtk_core/source/lvtk_WorkThread.cpp:119-129 | every iteration ends with the invariant and no Worker busy |
| LV2World.NewWorld | modules/lvtk_plugins/host/lvtk_LV2World.cpp:36-37 | a new world has no threads, cursor 0 and two thread slots |
| LV2World.GetWorkThread | modules/lvtk_plugins/host/lvtk_LV2World.cpp:90-103 | returns the old cursor, a valid thread index; the cursor wraps at numThreads; threads grow by one only when the slot is empty; never shrink; never exceed numThreads |
| LV2World.RoundRobinAt | modules/lvtk_plugins/host/lvtk_LV2World.cpp:98-100 | the k-th call returns slot (currentThread + k) mod numThreads |
| LV2World.RoundRobin | modules/lvtk_plugins/host/lvtk_LV2World.cpp:98-100 | the same for all k below n |
| LV2World.ThreadsCreatedOnce | modules/lvtk_plugins/host/lvtk_LV2World.cpp:93-96 | after n calls there are max(initial, min(cursor + n, numThreads)) threads |
| LV2World.FreshWorldAlternates | modules/lvtk_plugins/host/lvtk_LV2World.cpp:36-37 | from a new world the calls return 0, 1, 0, 1, ... and create min(n, 2) threads |
| LV2World.IsFeatureSupported | modules/lvtk_plugins/host/lvtk_LV2World.cpp:105-115 | true exactly when the URI is a host feature or the Worker schedule feature |
| LV2World.IsPluginSupported | modules/lvtk_plugins/host/lvtk_LV2World.cpp:131-155 | true exactly when every required feature is supported |
| LV2World.GetPlugin | modules/lvtk_plugins/host/lvtk_LV2World.cpp:74-82 | finds the plugin with that URI exactly when one is installed |
| LV2World.IsPluginAvailable | modules/lvtk_plugins/host/lvtk_LV2World.cpp:117-121 | true exactly when a plugin has the URI |
| LV2World.IsPluginSupportedByUri | modules/lvtk_plugins/host/lvtk_LV2World.cpp:123-129 | false for an unknown URI, otherwise the plugin overload's answer |
| Scenarios.WorkRoundTrip | modules/lvtk_core/source/lvtk_WorkThread.cpp:139-230 | schedule, one iteration, the responses and the drain together return the handler's responses, in order, with every queue empty |
| Scenarios.SixteenByteQueueRefusesTenBytes | modules/lvtk_core/source/lvtk_WorkThread.cpp:143-144 | a 10-byte request needs 18 bytes, so a fresh 16-byte queue refuses it and nothing changes |
| Scenarios.ZeroIdFrameStallsQueue | modules/lvtk_core/source/lvtk_WorkThread.cpp:102-111 | as written, an id-0 body that reads as a large size stalls the loop for good; the corrected step drops the frame and keeps the rest |
| Scenarios.ZeroIdFrameStarvesNextRequest | modules/lvtk_core/source/lvtk_WorkThread.cpp:102-129 | with an id-0 frame carrying [1, 2, 3, 4] ahead of a real request, the loop as written never delivers; the corrected loop drops it and delivers the real request |

## Left out

- Threading is left out: the semaphore, thread start and stop, `doExit`,
  `threadShouldExit` and `waitForThreadToExit`. Each step is atomic and
  sequential.
- The sleep-based wait at lines 83-84 of `lvtk_WorkThread.cpp` is not a
  loop in the model. It is the `Waiting` outcome, which leaves the state
  unchanged.
- The busy-flag spin loops at lines 123 and 126 are not modelled as spins.
  Within one step the flag is set, the handler runs, and the flag is
  cleared.
- The destructor's wait at lines 181-184 is a single poll in
  `DestroyWorker`. It fails while the Worker is busy.
- The `ScopedLock` on the registry is left out. It is locking, and steps
  are atomic here.
- Logging (`LVTK_WORKER_LOG`) is I/O and is left out.
- The disabled `#if 0` block at lines 241-361 is never compiled.
- `processRequest` and `processResponse` are plugin code. The first becomes
  the `handler` parameter of `RunRequest`. The second is the list of
  payloads that `ProcessWorkResponses` returns.
- The `RingBuffer` implementation is not part of this model. A ring is a
  byte sequence plus a capacity. `write` and `read` move all the bytes or
  none, and `peak` copies a prefix.
- A ring is assumed to hold exactly the capacity it is constructed with.
  Any rounding inside `RingBuffer` is not modelled.
- DrainLoop: "every payload fits the scratch buffer" rests on the ring's
  capacity being exactly the `bufsize` given to the Worker constructor,
  which is also the size of the scratch buffer allocated at line 173.
  `RingBuffer` is not part of this model. If it rounds its capacity up,
  `respondToWork` can accept a response longer than `bufsize`. Line 226
  would then read that response past the end of the scratch buffer.
- ProcessWorkResponses: the same bound, for the same reason.
- `requiredSpace` is not part of this model. It is taken as `size + 8`,
  the length the frame writes have, computed without overflow.
- JUCE's `nextPowerOfTwo` is not part of this model either. It is taken
  as the least power of two at least `n`, and 1 for 0. Its `int` overflow
  for sizes above 2^30 is not modelled, nor is the `(uint32)` cast of the
  result.
- The run loop's scratch buffer is an `int32` in the source. The model
  keeps its size as an unbounded number.
- The `jassert` in `scheduleWork` is a debug-build check and is not a
  precondition. The model accepts size 0 and unregistered Workers, as a
  release build does.
- The thread name and priority arguments are not modelled. Nor is
  `setPriority`.
- In `LV2World`, the lilv library is replaced by a map from plugin URI to
  the plugin's required-feature URIs. Left out with it are `lilv_world_new`,
  the URI nodes, node freeing, the constructor and destructor's lilv calls,
  `createModule`, `createPluginModel` and `getAllPlugins`.
- The port-count loop in `isPluginSupported` has an empty body and is not
  modelled.
- `LV2World::features` is a list of feature URIs, taken as given.
- RegisterKeepsIdsFresh: ids are shown fresh only while `nextWorkId` is below
  0xFFFFFFFF. The counter wraps like a `uint32`, and at the wrap the id
  handed out is 0 (`RegisterAtWrapIssuesZero`). Any later id can repeat
  one still in use.
- CreateWorkerKeepsValid: requires the same no-wrap bound, for the same
  reason.
- RegistrationIdsNeverRepeat: requires that the registrations do not reach
  the wrap.

A 10-byte request needs 18 bytes of queue: the size word, the id word and
the payload. A fresh WorkThread with a 16-byte queue therefore refuses it
(`Scenarios.SixteenByteQueueRefusesTenBytes`).

## Findings

| source | as written | input that shows it | evidently intended | confidence | as-written member | corrected member |
|---|---|---|---|---|---|---|
| modules/lvtk_core/source/lvtk_WorkThread.cpp:102-111 | a frame with id 0 is skipped after its two header words are read but before its body is read, so the body stays in the queue and is parsed as the next frame's size header | queue = frame(id 0, payload [1, 2, 3, 4]) followed by frame(id of a registered Worker, payload [9]): the stray body reads as size 67305985, the loop waits for ever and the registered Worker never gets its request | consume the whole frame and drop it, since `getWorker(0)` names no Worker | not executed | WorkThread.AsWrittenZeroIdLeavesBody | WorkThread.DispatchConsumesFrame |
