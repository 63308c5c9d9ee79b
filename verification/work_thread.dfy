/** The WorkThread side: the shared request ring, the registry of Workers
    with its id counter, `scheduleWork`, and one iteration of the background
    loop in `run` that decodes a request frame and dispatches it. */
module WorkThread {
  import opened Bytes
  import opened RingBuffer
  import opened Frames
  import opened Options
  import opened Workers

  /** A WorkThread: the shared request ring, the registered Workers in
      insertion order, the id counter, and the size of the scratch buffer
      the loop in `run` reads request bodies into (0 before the first). */
  datatype Thread = Thread(requests: Ring, registry: seq<WorkerRef>, nextWorkId: uint32, scratchSize: nat)

  /** One WorkThread together with the Worker objects alive in the program,
      keyed by identity. */
  datatype State = State(thread: Thread, workers: map<WorkerRef, Worker>) {

    /** Every registry entry points at a live Worker. */
    predicate RegistryResolves()
    {
      forall v | v in thread.registry :: v in workers
    }

    /** The state between two steps: a well-formed request ring, a registry
        without repeats whose entries carry distinct ids in
        `1..nextWorkId`, and every Worker well formed and idle. */
    predicate Valid()
    {
      && thread.requests.Valid()
      && NoDuplicates(thread.registry)
      && RegistryResolves()
      && (forall v | v in thread.registry :: 1 <= workers[v].workId <= thread.nextWorkId)
      && (forall v, u | v in thread.registry && u in thread.registry && v != u ::
            workers[v].workId != workers[u].workId)
      && (forall v | v in workers && v !in thread.registry :: workers[v].workId == 0)
      && (forall v | v in workers :: workers[v].Valid() && !workers[v].working)
    }
  }

  /** No Worker occurs twice in `xs`. */
  predicate NoDuplicates(xs: seq<WorkerRef>)
  {
    forall y | y in xs :: multiset(xs)[y] == 1
  }

  /** The `WorkThread` constructor: the request ring gets the smallest
      power-of-two capacity that holds `bufsize` bytes; no Worker is
      registered and the id counter starts at 0. */
  function NewWorkThread(bufsize: uint32): (t: Thread)
    ensures t.requests.Valid() && t.requests.ReadSpace() == 0
    ensures IsPowerOfTwo(t.requests.capacity) && bufsize <= t.requests.capacity
    ensures forall c: nat | IsPowerOfTwo(c) && bufsize <= c :: t.requests.capacity <= c
    ensures t.registry == [] && t.nextWorkId == 0 && t.scratchSize == 0
  {
    assert forall c: nat | IsPowerOfTwo(c) && bufsize <= c :: NextPowerOfTwo(bufsize) <= c by {
      forall c: nat | IsPowerOfTwo(c) && bufsize <= c
        ensures NextPowerOfTwo(bufsize) <= c
      {
        NextPowerOfTwoIsLeast(bufsize, c);
      }
    }
    Thread(EmptyRing(NextPowerOfTwo(bufsize)), [], 0, 0)
  }

  lemma NewStateValid(bufsize: uint32)
    ensures State(NewWorkThread(bufsize), map[]).Valid()
  {
  }

  // ---------------------------------------------------------------------
  // Registry
  // ---------------------------------------------------------------------

  /** Position of the first occurrence of `x` in `xs`. */
  function IndexOf(xs: seq<WorkerRef>, x: WorkerRef): (i: nat)
    requires x in xs
    ensures i < |xs| && xs[i] == x && x !in xs[..i]
  {
    if xs[0] == x then 0
    else
      var j := IndexOf(xs[1..], x);
      assert xs[..j + 1] == [xs[0]] + xs[1..][..j];
      j + 1
  }

  /** `Array::removeFirstMatchingValue`: drop the first occurrence of `x`,
      keeping the order of the rest. */
  function RemoveFirst(xs: seq<WorkerRef>, x: WorkerRef): (r: seq<WorkerRef>)
    ensures multiset(r) == multiset(xs) - multiset{x}
    ensures x !in xs ==> r == xs
  {
    if xs == [] then []
    else if xs[0] == x then
      assert xs == [x] + xs[1..];
      xs[1..]
    else
      assert xs == [xs[0]] + xs[1..];
      [xs[0]] + RemoveFirst(xs[1..], x)
  }

  /** `Array::addIfNotAlreadyThere`. */
  function AddIfAbsent(xs: seq<WorkerRef>, x: WorkerRef): (r: seq<WorkerRef>)
    ensures x in r && (forall y | y in xs :: y in r)
    ensures forall y | y in r :: y in xs || y == x
    ensures NoDuplicates(xs) ==> NoDuplicates(r)
    ensures x in xs ==> r == xs
    ensures x !in xs ==> r == xs + [x]
  {
    if x in xs then xs else xs + [x]
  }

  /** The linear scan of `getWorker`: the first entry of `reg` whose Worker
      carries `workId`. */
  function FindWorker(reg: seq<WorkerRef>, workers: map<WorkerRef, Worker>, workId: uint32): (r: Option<WorkerRef>)
    requires forall v | v in reg :: v in workers
    ensures r.Some? ==> r.value in reg && workers[r.value].workId == workId
    ensures r.Some? ==> forall v | v in reg[..IndexOf(reg, r.value)] :: workers[v].workId != workId
    ensures r.None? ==> forall v | v in reg :: workers[v].workId != workId
  {
    if reg == [] then None
    else if workers[reg[0]].workId == workId then Some(reg[0])
    else
      var r := FindWorker(reg[1..], workers, workId);
      assert forall v | v in reg :: v == reg[0] || v in reg[1..];
      if r.Some? then
        var j := IndexOf(reg[1..], r.value);
        assert reg[..j + 1] == [reg[0]] + reg[1..][..j];
        r
      else r
  }

  /** `WorkThread::getWorker`: id 0 names no Worker; any other id names the
      first registered Worker carrying it, or none. */
  function GetWorker(s: State, workId: uint32): (r: Option<WorkerRef>)
    requires s.RegistryResolves()
    ensures workId == 0 ==> r == None
    ensures r.Some? ==> r.value in s.thread.registry && s.workers[r.value].workId == workId
    ensures r.None? && workId != 0 ==>
              forall v | v in s.thread.registry :: s.workers[v].workId != workId
  {
    if workId == 0 then None else FindWorker(s.thread.registry, s.workers, workId)
  }

  /** `WorkThread::registerWorker`: the Worker gets the pre-incremented
      counter as its id (wrapping like a `uint32`) and joins the registry
      unless it is already there. */
  function Register(s: State, w: WorkerRef): (s': State)
    requires w in s.workers
    ensures s'.thread.nextWorkId == (s.thread.nextWorkId + 1) % U32_LIMIT
    ensures s'.thread.requests == s.thread.requests && s'.thread.scratchSize == s.thread.scratchSize
    ensures s'.workers.Keys == s.workers.Keys
    ensures s'.workers[w] == s.workers[w].(workId := s'.thread.nextWorkId)
    ensures forall v | v in s.workers && v != w :: s'.workers[v] == s.workers[v]
    ensures w in s.thread.registry ==> s'.thread.registry == s.thread.registry
    ensures w !in s.thread.registry ==> s'.thread.registry == s.thread.registry + [w]
  {
    var id := (s.thread.nextWorkId + 1) % U32_LIMIT;
    State(s.thread.(registry := AddIfAbsent(s.thread.registry, w), nextWorkId := id),
          s.workers[w := s.workers[w].(workId := id)])
  }

  /** Until the counter wraps, a registered Worker's id is at least 1 and
      above every id held in the registry before, the registry still holds
      it only once, and the state stays valid. */
  lemma RegisterKeepsIdsFresh(s: State, w: WorkerRef)
    requires s.Valid() && w in s.workers
    requires s.thread.nextWorkId < U32_MAX
    ensures Register(s, w).Valid()
    ensures Register(s, w).workers[w].workId >= 1
    ensures forall v | v in s.thread.registry :: s.workers[v].workId < Register(s, w).workers[w].workId
    ensures multiset(Register(s, w).thread.registry)[w] == 1
  {
    var s' := Register(s, w);
    var reg, reg' := s.thread.registry, s'.thread.registry;
    var id := s'.thread.nextWorkId;
    assert id == s.thread.nextWorkId + 1;
    assert forall v | v in reg' :: v in reg || v == w;
    assert NoDuplicates(reg');
    assert s'.RegistryResolves();
    forall v | v in reg'
      ensures 1 <= s'.workers[v].workId <= id
    {
      if v != w {
        assert s'.workers[v] == s.workers[v];
      }
    }
    forall v, u | v in reg' && u in reg' && v != u
      ensures s'.workers[v].workId != s'.workers[u].workId
    {
      if v != w && u != w {
        assert s'.workers[v] == s.workers[v] && s'.workers[u] == s.workers[u];
      } else if v == w {
        assert s.workers[u].workId < id;
      } else {
        assert s.workers[v].workId < id;
      }
    }
    forall v | v in s'.workers && v !in reg'
      ensures s'.workers[v].workId == 0
    {
      assert v != w && s'.workers[v] == s.workers[v];
    }
    forall v | v in s'.workers
      ensures s'.workers[v].Valid() && !s'.workers[v].working
    {
      assert v in s.workers;
    }
  }

  /** At the wrap-around the id handed out is 0, which `getWorker` treats as
      naming no Worker. */
  lemma RegisterAtWrapIssuesZero(s: State, w: WorkerRef)
    requires w in s.workers && s.thread.nextWorkId == U32_MAX
    ensures Register(s, w).workers[w].workId == 0
  {
  }

  /** `WorkThread::removeWorker`: the Worker leaves the registry and its id
      is reset to 0; nothing else changes. */
  function RemoveWorker(s: State, w: WorkerRef): (s': State)
    requires w in s.workers
    ensures s'.thread == s.thread.(registry := RemoveFirst(s.thread.registry, w))
    ensures s'.workers.Keys == s.workers.Keys
    ensures s'.workers[w] == s.workers[w].(workId := 0)
    ensures forall v | v in s.workers && v != w :: s'.workers[v] == s.workers[v]
  {
    State(s.thread.(registry := RemoveFirst(s.thread.registry, w)),
          s.workers[w := s.workers[w].(workId := 0)])
  }

  /** Removing from a registry without repeats removes exactly `x`. */
  lemma RemoveFirstFromDistinct(xs: seq<WorkerRef>, x: WorkerRef)
    requires NoDuplicates(xs)
    ensures NoDuplicates(RemoveFirst(xs, x))
    ensures forall v :: v in RemoveFirst(xs, x) <==> v in xs && v != x
  {
    var r := RemoveFirst(xs, x);
    forall v
      ensures v in r <==> v in xs && v != x
    {
      assert v in r <==> multiset(r)[v] > 0;
      assert v in xs <==> multiset(xs)[v] > 0;
    }
  }

  /** After removal the Worker is no longer registered, every other entry
      still is, the state stays valid, and its former id finds nothing. */
  lemma RemoveWorkerUnregisters(s: State, w: WorkerRef)
    requires s.Valid() && w in s.workers
    ensures RemoveWorker(s, w).Valid()
    ensures forall v :: v in RemoveWorker(s, w).thread.registry <==> v in s.thread.registry && v != w
    ensures GetWorker(RemoveWorker(s, w), s.workers[w].workId) == None
  {
    var s' := RemoveWorker(s, w);
    var reg, reg' := s.thread.registry, s'.thread.registry;
    RemoveFirstFromDistinct(reg, w);
    forall v | v in reg'
      ensures v in s'.workers && s'.workers[v] == s.workers[v]
    {
      assert v in reg && v != w;
    }
    forall v | v in s'.workers && v !in reg'
      ensures s'.workers[v].workId == 0
    {
      if v != w {
        assert v !in reg && s'.workers[v] == s.workers[v];
      }
    }
    forall v | v in s'.workers
      ensures s'.workers[v].Valid() && !s'.workers[v].working
    {
      assert v in s.workers;
    }
    var id := s.workers[w].workId;
    if id != 0 {
      assert w in reg;
      forall v | v in reg'
        ensures s'.workers[v].workId != id
      {
        assert v in reg && v != w;
      }
    }
  }

  /** The `Worker` constructor: a fresh Worker object with a `bufsize`-byte
      response ring and scratch buffer registers itself. */
  function CreateWorker(s: State, w: WorkerRef, bufsize: uint32): (s': State)
    requires w !in s.workers
    ensures s'.workers.Keys == s.workers.Keys + {w}
    ensures w in s'.thread.registry && s'.workers[w].workId == s'.thread.nextWorkId
    ensures s'.thread == s.thread.(registry := AddIfAbsent(s.thread.registry, w),
                                   nextWorkId := (s.thread.nextWorkId + 1) % U32_LIMIT)
    ensures s'.workers[w].responses == EmptyRing(bufsize) && s'.workers[w].scratchSize == bufsize
    ensures !s'.workers[w].working
    ensures forall v | v in s.workers :: s'.workers[v] == s.workers[v]
  {
    Register(s.(workers := s.workers[w := NewWorker(bufsize)]), w)
  }

  lemma CreateWorkerKeepsValid(s: State, w: WorkerRef, bufsize: uint32)
    requires s.Valid() && w !in s.workers && s.thread.nextWorkId < U32_MAX
    ensures CreateWorker(s, w, bufsize).Valid()
    ensures CreateWorker(s, w, bufsize).workers[w].workId >= 1
  {
    var s0 := s.(workers := s.workers[w := NewWorker(bufsize)]);
    assert w !in s.thread.registry;
    assert s0.Valid();
    RegisterKeepsIdsFresh(s0, w);
  }

  /** The `Worker` destructor as one poll: while the Worker is busy it
      cannot proceed (false, nothing changes); once idle it unregisters and
      the object is gone (true). */
  function DestroyWorker(s: State, w: WorkerRef): (res: (State, bool))
    requires w in s.workers
    ensures res.1 <==> !s.workers[w].working
    ensures !res.1 ==> res.0 == s
    ensures res.1 ==> res.0.workers.Keys == s.workers.Keys - {w}
    ensures res.1 ==> res.0.thread == s.thread.(registry := RemoveFirst(s.thread.registry, w))
    ensures res.1 ==> forall v | v in res.0.workers :: res.0.workers[v] == s.workers[v]
  {
    if s.workers[w].working then (s, false)
    else
      var s1 := RemoveWorker(s, w);
      (s1.(workers := s1.workers - {w}), true)
  }

  /** Between steps no Worker is busy, so destruction completes at once;
      the state stays valid, the Worker is gone from the registry and its
      id finds nothing. */
  lemma DestroyWorkerCompletes(s: State, w: WorkerRef)
    requires s.Valid() && w in s.workers
    ensures DestroyWorker(s, w).1
    ensures DestroyWorker(s, w).0.Valid()
    ensures w !in DestroyWorker(s, w).0.thread.registry
    ensures GetWorker(DestroyWorker(s, w).0, s.workers[w].workId) == None
  {
    var s1 := RemoveWorker(s, w);
    var s2 := DestroyWorker(s, w).0;
    RemoveWorkerUnregisters(s, w);
    assert forall v | v in s2.workers :: s2.workers[v] == s1.workers[v];
    assert s2.thread == s1.thread;
  }

  /** Registers the Workers `ws` one after another; returns the final state
      and the id each registration handed out, in order. */
  function RegisterEach(s: State, ws: seq<WorkerRef>): (res: (State, seq<uint32>))
    requires forall v | v in ws :: v in s.workers
    ensures |res.1| == |ws|
    ensures res.0.workers.Keys == s.workers.Keys
    decreases |ws|
  {
    if ws == [] then (s, [])
    else
      var s1 := Register(s, ws[0]);
      var (s2, ids) := RegisterEach(s1, ws[1..]);
      (s2, [s1.workers[ws[0]].workId] + ids)
  }

  /** Ids are never reused: until the counter wraps, successive
      registrations hand out consecutive ids from `nextWorkId + 1`, so each
      is at least 1 and above every id handed out before it. */
  lemma {:induction false} RegistrationIdsNeverRepeat(s: State, ws: seq<WorkerRef>)
    requires forall v | v in ws :: v in s.workers
    requires s.thread.nextWorkId + |ws| < U32_LIMIT
    ensures forall i | 0 <= i < |ws| :: RegisterEach(s, ws).1[i] == s.thread.nextWorkId + 1 + i
    ensures forall i, j | 0 <= i < j < |ws| :: 1 <= RegisterEach(s, ws).1[i] < RegisterEach(s, ws).1[j]
    decreases |ws|
  {
    if ws != [] {
      var s1 := Register(s, ws[0]);
      RegistrationIdsNeverRepeat(s1, ws[1..]);
    }
  }

  // ---------------------------------------------------------------------
  // Requests
  // ---------------------------------------------------------------------

  /** The front of `q` is a complete request frame: size, id and that many
      payload bytes. */
  predicate HasCompleteRequest(q: seq<uint8>)
  {
    |q| >= FIELD && RequiredSpace(DecodeU32(q[..FIELD])) <= |q|
  }

  /** `WorkThread::validateMessage`: peek the size header and ask whether a
      whole request frame of that size can be read. Nothing is consumed. */
  function ValidateRequest(r: Ring): (ok: bool)
    ensures ok <==> HasCompleteRequest(r.q)
  {
    r.CanRead(RequiredSpace(PeekedSize(r)))
  }

  lemma RequestFrameIsComplete(workId: uint32, p: Payload, rest: seq<uint8>)
    ensures HasCompleteRequest(RequestFrame(workId, p) + rest)
  {
    var q := RequestFrame(workId, p) + rest;
    assert q[..FIELD] == EncodeU32(|p|);
    DecodeEncode(|p|);
  }

  /** `WorkThread::scheduleWork` (reached through `Worker::scheduleWork`):
      when the whole frame `[size][workId][payload]` fits, append it and
      succeed; otherwise fail and leave the queue as it was. A frame is
      never partly written. */
  function ScheduleWork(s: State, w: WorkerRef, payload: Payload): (res: (State, bool))
    requires w in s.workers
    ensures res.1 <==> s.thread.requests.CanWrite(RequiredSpace(|payload|))
    ensures res.1 ==> res.0 == s.(thread := s.thread.(requests :=
              Ring(s.thread.requests.q + RequestFrame(s.workers[w].workId, payload), s.thread.requests.capacity)))
    ensures !res.1 ==> res.0 == s
    ensures s.Valid() ==> res.0.Valid()
  {
    var rq := s.thread.requests;
    if !rq.CanWrite(RequiredSpace(|payload|)) then (s, false)
    else
      var (r1, n1) := rq.Write(EncodeU32(|payload|));
      if n1 < FIELD then (WithRequests(s, r1), false)
      else
        var (r2, n2) := r1.Write(EncodeU32(s.workers[w].workId));
        if n2 < FIELD then (WithRequests(s, r2), false)
        else
          var (r3, n3) := r2.Write(payload);
          if n3 < |payload| then (WithRequests(s, r3), false)
          else (WithRequests(s, r3), true)
  }

  function WithRequests(s: State, r: Ring): State
  {
    s.(thread := s.thread.(requests := r))
  }

  /** What one iteration of the loop in `run` did with the request queue. */
  datatype Dispatch =
    | Waiting                  // no complete frame is readable: the loop keeps polling
    | Abandoned                // a read came up short and the frame was given up
    | SkippedZeroId            // the id was 0 and the loop moved on before the body
    | Dropped(workId: uint32)  // the frame was consumed, but no registered Worker has the id
    | Delivered(worker: WorkerRef, size: uint32, payload: Payload)  // handed to `processRequest`

  /** Reads the size and id fields of the frame at the front of `rq`;
      `None` when either read comes up short. */
  function ReadRequestHeader(rq: Ring): (res: (Ring, Option<(uint32, uint32)>))
    ensures res.0.capacity == rq.capacity && (rq.Valid() ==> res.0.Valid())
    ensures rq.CanRead(2 * FIELD) ==>
              && res.1 == Some((DecodeU32(rq.q[..FIELD]), DecodeU32(rq.q[FIELD..2 * FIELD])))
              && res.0.q == rq.q[2 * FIELD..]
  {
    var (r1, sizeBytes) := rq.Read(FIELD);
    if |sizeBytes| < FIELD then (r1, None)
    else
      var (r2, idBytes) := r1.Read(FIELD);
      if |idBytes| < FIELD then (r2, None)
      else
        assert rq.q[FIELD..2 * FIELD] == r1.q[..FIELD];
        (r2, Some((DecodeU32(sizeBytes), DecodeU32(idBytes))))
  }

  /** The part of the loop in `run` after the header: grow the scratch
      buffer to the next power of two when the body is larger than it, read
      the body, look the Worker up and hand it the request. */
  function DispatchBody(s: State, r: Ring, size: uint32, workId: uint32): (res: (State, Dispatch))
    requires s.RegistryResolves()
    ensures res.0.workers == s.workers
    ensures res.0.thread.registry == s.thread.registry && res.0.thread.nextWorkId == s.thread.nextWorkId
    ensures res.0.thread.requests.capacity == r.capacity
    ensures res.0.thread.scratchSize >= s.thread.scratchSize && res.0.thread.scratchSize >= size
    ensures res.0.thread.scratchSize != s.thread.scratchSize ==> res.0.thread.scratchSize == NextPowerOfTwo(size)
    ensures !r.CanRead(size) ==> res.1 == Abandoned && res.0.thread.requests == r
    ensures r.CanRead(size) ==>
              && res.0.thread.requests.q == r.q[size..]
              && res.1 == (match GetWorker(s, workId)
                           case None => Dropped(workId)
                           case Some(w) => Delivered(w, size, r.q[..size]))
  {
    var scratch := if size > s.thread.scratchSize then NextPowerOfTwo(size) else s.thread.scratchSize;
    var (r3, payload) := r.Read(size);
    var s3 := s.(thread := s.thread.(requests := r3, scratchSize := scratch));
    if |payload| < size then (s3, Abandoned)
    else
      match GetWorker(s, workId)
      case None => (s3, Dropped(workId))
      case Some(w) => (s3, Delivered(w, size, payload))
  }

  /** One iteration of the loop in `run`, as the source has it: an id of 0
      is skipped right after the header, before the body is read. */
  function DispatchOneAsWritten(s: State): (res: (State, Dispatch))
    requires s.RegistryResolves()
    ensures res.1 == Waiting <==> !HasCompleteRequest(s.thread.requests.q)
    ensures res.1 == Waiting ==> res.0 == s
  {
    var rq := s.thread.requests;
    if !ValidateRequest(rq) then (s, Waiting)
    else
      var (r2, header) := ReadRequestHeader(rq);
      match header
      case None => (WithRequests(s, r2), Abandoned)
      case Some((size, workId)) =>
        if workId == 0 then (WithRequests(s, r2), SkippedZeroId)
        else DispatchBody(s, r2, size, workId)
  }

  /** One iteration of the loop in `run` with the id-0 case folded into the
      lookup: every complete frame is consumed whole, and one whose id is 0
      is dropped because `getWorker (0)` finds no Worker. */
  function DispatchOne(s: State): (res: (State, Dispatch))
    requires s.RegistryResolves()
    ensures res.1 == Waiting <==> !HasCompleteRequest(s.thread.requests.q)
    ensures res.1 == Waiting ==> res.0 == s
    ensures !res.1.Abandoned? && !res.1.SkippedZeroId?
    ensures res.0.workers == s.workers && res.0.thread.registry == s.thread.registry
    ensures res.0.thread.nextWorkId == s.thread.nextWorkId
    ensures res.0.thread.requests.capacity == s.thread.requests.capacity
    ensures res.0.thread.scratchSize >= s.thread.scratchSize
    ensures res.0.thread.scratchSize != s.thread.scratchSize ==> IsPowerOfTwo(res.0.thread.scratchSize)
    ensures res.1.Delivered? ==>
              && res.1.worker in s.thread.registry
              && s.workers[res.1.worker].workId == DecodeU32(s.thread.requests.q[FIELD..2 * FIELD])
              && |res.1.payload| == res.1.size <= res.0.thread.scratchSize
    ensures !res.1.Waiting? ==>
              res.0.thread.requests.q == s.thread.requests.q[RequiredSpace(DecodeU32(s.thread.requests.q[..FIELD]))..]
    ensures res.1.Delivered? ==>
              && res.1.size == DecodeU32(s.thread.requests.q[..FIELD])
              && res.1.payload == s.thread.requests.q[2 * FIELD..RequiredSpace(res.1.size)]
    ensures s.Valid() ==> res.0.Valid()
  {
    var rq := s.thread.requests;
    if !ValidateRequest(rq) then (s, Waiting)
    else
      var (r2, header) := ReadRequestHeader(rq);
      match header
      case None => (WithRequests(s, r2), Abandoned)
      case Some((size, workId)) => DispatchBody(s, r2, size, workId)
  }

  /** In a valid state a registered Worker's id finds exactly that Worker. */
  lemma GetWorkerFindsRegistered(s: State, w: WorkerRef)
    requires s.Valid() && w in s.thread.registry
    ensures GetWorker(s, s.workers[w].workId) == Some(w)
  {
  }

  /** What dispatching the frame for `workId` with body `p` is expected to
      do: hand it to the Worker registered with that id, or drop it. */
  function Expected(s: State, workId: uint32, p: Payload): Dispatch
    requires s.RegistryResolves()
  {
    match GetWorker(s, workId)
    case Some(w) => Delivered(w, |p|, p)
    case None => Dropped(workId)
  }

  /** One step consumes exactly the request frame at the front of the
      queue, leaving what follows intact, and hands its size and payload to
      the Worker registered with its id, or drops it when there is none
      (id 0 included). The scratch buffer ends at least as large as the
      payload. */
  lemma DispatchConsumesFrame(s: State, workId: uint32, p: Payload, rest: seq<uint8>)
    requires s.RegistryResolves()
    requires s.thread.requests.q == RequestFrame(workId, p) + rest
    ensures DispatchOne(s).0.thread.requests.q == rest
    ensures DispatchOne(s).1 == Expected(s, workId, p)
    ensures DispatchOne(s).0.thread.scratchSize >= |p|
  {
    var q := s.thread.requests.q;
    RequestFrameIsComplete(workId, p, rest);
    assert q[..FIELD] == EncodeU32(|p|);
    assert q[FIELD..2 * FIELD] == EncodeU32(workId);
    assert q[2 * FIELD..] == p + rest;
    DecodeEncode(|p|);
    DecodeEncode(workId);
    assert (p + rest)[..|p|] == p;
  }

  /** The loop as written leaves the body of an id-0 frame in the queue,
      where the next iteration reads it as a frame header. */
  lemma AsWrittenZeroIdLeavesBody(s: State, p: Payload, rest: seq<uint8>)
    requires s.RegistryResolves()
    requires s.thread.requests.q == RequestFrame(0, p) + rest
    ensures DispatchOneAsWritten(s).1 == SkippedZeroId
    ensures DispatchOneAsWritten(s).0.thread.requests.q == p + rest
  {
    var q := s.thread.requests.q;
    RequestFrameIsComplete(0, p, rest);
    assert q[FIELD..2 * FIELD] == EncodeU32(0);
    assert q[2 * FIELD..] == p + rest;
    DecodeEncode(0);
  }

  /** On a frame whose id is not 0 the iteration as written and the
      corrected one do the same thing, so every result about the corrected
      iteration holds of the source's loop for such frames. */
  lemma AsWrittenAgreesOnNonZeroId(s: State)
    requires s.RegistryResolves()
    requires |s.thread.requests.q| >= 2 * FIELD
    requires DecodeU32(s.thread.requests.q[FIELD..2 * FIELD]) != 0
    ensures DispatchOneAsWritten(s) == DispatchOne(s)
  {
  }

  /** A request as it sits in the queue: the id and the payload. */
  datatype Request = Request(workId: uint32, payload: Payload)

  /** The frames of the requests `rs`, back to back, in submission order. */
  function RequestFrames(rs: seq<Request>): seq<uint8>
  {
    if rs == [] then [] else RequestFrame(rs[0].workId, rs[0].payload) + RequestFrames(rs[1..])
  }

  lemma {:induction false} RequestFramesAppend(rs: seq<Request>, r: Request)
    ensures RequestFrames(rs + [r]) == RequestFrames(rs) + RequestFrame(r.workId, r.payload)
  {
    if rs == [] {
      assert rs + [r] == [r];
    } else {
      assert (rs + [r])[1..] == rs[1..] + [r];
      RequestFramesAppend(rs[1..], r);
    }
  }

  /** A successful `scheduleWork` queues the request behind every request
      already queued. */
  lemma ScheduleAppendsRequest(s: State, w: WorkerRef, p: Payload, rs: seq<Request>)
    requires w in s.workers && s.thread.requests.q == RequestFrames(rs)
    requires ScheduleWork(s, w, p).1
    ensures ScheduleWork(s, w, p).0.thread.requests.q == RequestFrames(rs + [Request(s.workers[w].workId, p)])
  {
    RequestFramesAppend(rs, Request(s.workers[w].workId, p));
  }

  /** `n` iterations of the loop in `run`, with what each one did. */
  function DispatchMany(s: State, n: nat): (res: (State, seq<Dispatch>))
    requires s.RegistryResolves()
    ensures |res.1| == n
    ensures res.0.workers == s.workers && res.0.thread.registry == s.thread.registry
    decreases n
  {
    if n == 0 then (s, [])
    else
      var (s1, d) := DispatchOne(s);
      var (s2, ds) := DispatchMany(s1, n - 1);
      (s2, [d] + ds)
  }

  /** What dispatching each of `rs` in turn is expected to do. */
  function ExpectedAll(s: State, rs: seq<Request>): (ds: seq<Dispatch>)
    requires s.RegistryResolves()
    ensures |ds| == |rs|
  {
    if rs == [] then []
    else [Expected(s, rs[0].workId, rs[0].payload)] + ExpectedAll(s, rs[1..])
  }

  /** The expectation depends only on the registry and the Worker objects. */
  lemma {:induction false} ExpectedAllSameRegistry(s: State, s': State, rs: seq<Request>)
    requires s.RegistryResolves()
    requires s'.thread.registry == s.thread.registry && s'.workers == s.workers
    ensures ExpectedAll(s', rs) == ExpectedAll(s, rs)
    decreases |rs|
  {
    if rs != [] {
      assert GetWorker(s', rs[0].workId) == GetWorker(s, rs[0].workId);
      ExpectedAllSameRegistry(s, s', rs[1..]);
    }
  }

  /** Requests are dispatched in submission order: a queue holding the
      frames of `rs` is emptied by `|rs|` iterations, the i-th of which
      delivers or drops exactly the i-th request. */
  lemma {:induction false} DispatchInSubmissionOrder(s: State, rs: seq<Request>)
    requires s.RegistryResolves() && s.thread.requests.q == RequestFrames(rs)
    ensures DispatchMany(s, |rs|).0.thread.requests.q == []
    ensures DispatchMany(s, |rs|).1 == ExpectedAll(s, rs)
    decreases |rs|
  {
    if rs == [] {
      assert DispatchMany(s, 0) == (s, []);
    } else {
      var rest := RequestFrames(rs[1..]);
      DispatchConsumesFrame(s, rs[0].workId, rs[0].payload, rest);
      var (s1, d) := DispatchOne(s);
      assert s1.thread.requests.q == rest;
      assert |rs[1..]| == |rs| - 1;
      DispatchInSubmissionOrder(s1, rs[1..]);
      ExpectedAllSameRegistry(s, s1, rs[1..]);
      var (s2, ds) := DispatchMany(s1, |rs| - 1);
      assert s2.thread.requests.q == [];
      assert DispatchMany(s, |rs|) == (s2, [d] + ds);
    }
  }

  /** The request round trip: on an idle queue, `scheduleWork` succeeds
      exactly when the frame fits, and the next iteration hands the same
      size and bytes to the scheduling Worker and empties the queue. */
  lemma ScheduleThenDispatch(s: State, w: WorkerRef, p: Payload)
    requires s.Valid() && w in s.thread.registry && s.thread.requests.q == []
    requires RequiredSpace(|p|) <= s.thread.requests.capacity
    ensures ScheduleWork(s, w, p).1
    ensures DispatchOne(ScheduleWork(s, w, p).0).1 == Delivered(w, |p|, p)
    ensures DispatchOne(ScheduleWork(s, w, p).0).0.thread.requests.q == []
  {
    var s1 := ScheduleWork(s, w, p).0;
    assert s1.thread.requests.q == RequestFrame(s.workers[w].workId, p) + [];
    GetWorkerFindsRegistered(s1, w);
    DispatchConsumesFrame(s1, s.workers[w].workId, p, []);
  }

  /** A request still queued for a Worker that has since been destroyed is
      consumed and dropped; the queue behind it is untouched. */
  lemma DestroyedWorkerRequestDropped(s: State, w: WorkerRef, p: Payload, rest: seq<uint8>)
    requires s.Valid() && w in s.workers
    requires s.thread.requests.q == RequestFrame(s.workers[w].workId, p) + rest
    ensures DestroyWorker(s, w).0.Valid()
    ensures DestroyWorker(s, w).0.RegistryResolves() &&
            DispatchOne(DestroyWorker(s, w).0).1 == Dropped(s.workers[w].workId)
    ensures DestroyWorker(s, w).0.RegistryResolves() &&
            DispatchOne(DestroyWorker(s, w).0).0.thread.requests.q == rest
  {
    var id := s.workers[w].workId;
    var s1 := DestroyWorker(s, w).0;
    DestroyWorkerCompletes(s, w);
    UnknownIdDropped(s1, id, p, rest);
  }

  /** A frame whose id finds no registered Worker is consumed and dropped. */
  lemma UnknownIdDropped(s: State, workId: uint32, p: Payload, rest: seq<uint8>)
    requires s.RegistryResolves() && GetWorker(s, workId) == None
    requires s.thread.requests.q == RequestFrame(workId, p) + rest
    ensures DispatchOne(s).1 == Dropped(workId)
    ensures DispatchOne(s).0.thread.requests.q == rest
  {
    DispatchConsumesFrame(s, workId, p, rest);
  }

  /** Replacing one Worker object by an idle, well-formed one with the same
      id keeps the state valid. */
  lemma ReplaceWorkerKeepsValid(s: State, w: WorkerRef, nw: Worker)
    requires s.Valid() && w in s.workers
    requires nw.Valid() && !nw.working && nw.workId == s.workers[w].workId
    ensures s.(workers := s.workers[w := nw]).Valid()
  {
    var s' := s.(workers := s.workers[w := nw]);
    assert forall v | v in s.workers :: s'.workers[v].workId == s.workers[v].workId;
    forall v | v in s'.workers
      ensures s'.workers[v].Valid() && !s'.workers[v].working
    {
    }
  }

  /** The dispatch block of `run`: on delivery the Worker's busy flag is
      raised, `processRequest` runs (modelled by `handler`, which returns
      the responses it sends with `respondToWork`), and the flag is lowered.
      Returns the new state, what the iteration did, and the result of each
      `respondToWork` call. */
  function RunRequest(s: State, handler: (uint32, Payload) -> seq<Payload>): (res: (State, Dispatch, seq<bool>))
    requires s.Valid()
    ensures res.0.thread == DispatchOne(s).0.thread && res.1 == DispatchOne(s).1
    ensures res.0.workers.Keys == s.workers.Keys
    ensures !res.1.Delivered? ==> res.0.workers == s.workers && res.2 == []
    ensures res.1.Delivered? ==>
              var w := res.1.worker;
              var sent := handler(res.1.size, res.1.payload);
              && w in s.workers
              && |res.2| == |sent|
              && !res.0.workers[w].working
              && res.0.workers[w] == s.workers[w].(responses := res.0.workers[w].responses)
              && res.0.workers[w].responses.q == s.workers[w].responses.q + ResponseFrames(Accepted(sent, res.2))
              && (forall v | v in s.workers && v != w :: res.0.workers[v] == s.workers[v])
  {
    var (s1, d) := DispatchOne(s);
    if d.Delivered? then
      var w := d.worker;
      var busy := s1.workers[w].(working := true);
      var (done, oks) := RespondAll(busy, handler(d.size, d.payload));
      (s1.(workers := s1.workers[w := done.(working := false)]), d, oks)
    else
      (s1, d, [])
  }

  /** Every iteration ends with the state valid again, in particular with
      no Worker left busy. */
  lemma RunRequestKeepsValid(s: State, handler: (uint32, Payload) -> seq<Payload>)
    requires s.Valid()
    ensures RunRequest(s, handler).0.Valid()
    ensures forall v | v in RunRequest(s, handler).0.workers :: !RunRequest(s, handler).0.workers[v].working
  {
    var (s1, d) := DispatchOne(s);
    if d.Delivered? {
      var w := d.worker;
      var busy := s1.workers[w].(working := true);
      var (done, oks) := RespondAll(busy, handler(d.size, d.payload));
      assert busy.Valid();
      ReplaceWorkerKeepsValid(s1, w, done.(working := false));
    }
  }
}
