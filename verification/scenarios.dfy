/** Whole exchanges between a Worker and the WorkThread, stated over the
    operations of the other modules: the schedule / run / respond / drain
    round trip, a queue too small for a request, and what the id-0 check of
    the run loop does to the frames behind it. */
module Scenarios {
  import opened Bytes
  import opened Frames
  import opened Workers
  import opened WorkThread

  /** The full round trip of one request. A registered, idle Worker with an
      empty response ring schedules `p` on an idle queue; one iteration of
      the run loop hands exactly `p` to `processRequest` (the `handler`),
      every response it sends is accepted when they fit, and the Worker's
      `processWorkResponses` then yields those responses, in order, leaving
      its ring empty. */
  lemma WorkRoundTrip(s: State, w: WorkerRef, p: Payload, handler: (uint32, Payload) -> seq<Payload>)
    requires s.Valid() && w in s.thread.registry
    requires s.thread.requests.q == [] && RequiredSpace(|p|) <= s.thread.requests.capacity
    requires s.workers[w].responses.q == []
    requires |ResponseFrames(handler(|p| as uint32, p))| <= s.workers[w].responses.capacity
    ensures ScheduleWork(s, w, p).1
    ensures ScheduleWork(s, w, p).0.Valid() &&
            var (s3, d, oks) := RunRequest(ScheduleWork(s, w, p).0, handler);
            && d == Delivered(w, |p| as uint32, p)
            && (forall i | 0 <= i < |oks| :: oks[i])
            && s3.thread.requests.q == []
            && w in s3.workers && s3.workers[w].Valid()
            && ProcessWorkResponses(s3.workers[w]).1 == handler(|p| as uint32, p)
            && ProcessWorkResponses(s3.workers[w]).0.responses.q == []
  {
    ScheduleThenDispatch(s, w, p);
    var s2 := ScheduleWork(s, w, p).0;
    var (s1, d) := DispatchOne(s2);
    assert d == Delivered(w, |p| as uint32, p);
    var sent := handler(d.size, d.payload);
    var busy := s1.workers[w].(working := true);
    assert busy.Valid() && busy.responses.q == [];
    RespondThenDrain(busy, sent);
    var (done, oks) := RespondAll(busy, sent);
    var s3 := s1.(workers := s1.workers[w := done.(working := false)]);
    assert RunRequest(s2, handler) == (s3, d, oks);
    assert ProcessWorkResponses(s3.workers[w]).1 == ProcessWorkResponses(done).1;
  }

  /** A queue of 16 bytes cannot take a 10-byte request at all: the frame
      needs 18 bytes, so even the first `scheduleWork` on a fresh WorkThread
      fails and leaves everything as it was. */
  lemma SixteenByteQueueRefusesTenBytes(w: WorkerRef, p: Payload)
    requires |p| == 10
    ensures var s := CreateWorker(State(NewWorkThread(16), map[]), w, 16);
            && s.thread.requests.capacity == 16
            && !ScheduleWork(s, w, p).1
            && ScheduleWork(s, w, p).0 == s
  {
    var t := NewWorkThread(16);
    assert IsPowerOfTwo(16);
    assert t.requests.capacity <= 16;
  }

  /** As written, the run loop skips an id-0 frame before reading its body,
      so the body is parsed as the next size header. When those four bytes
      announce more than the queue holds, the next iteration waits, changes
      nothing, and so waits forever: the requests queued behind are never
      delivered. The corrected step drops the id-0 frame whole and goes on
      with the next frame. */
  lemma ZeroIdFrameStallsQueue(s: State, p: Payload, rest: seq<uint8>)
    requires s.RegistryResolves()
    requires s.thread.requests.q == RequestFrame(0, p) + rest
    requires |p| >= FIELD && RequiredSpace(DecodeU32(p[..FIELD])) > |p| + |rest|
    ensures var s1 := DispatchOneAsWritten(s).0;
            && DispatchOneAsWritten(s).1 == SkippedZeroId
            && s1.RegistryResolves()
            && DispatchOneAsWritten(s1) == (s1, Waiting)
    ensures DispatchOne(s).1 == Dropped(0)
    ensures DispatchOne(s).0.thread.requests.q == rest
  {
    AsWrittenZeroIdLeavesBody(s, p, rest);
    var s1 := DispatchOneAsWritten(s).0;
    assert s1.thread.requests.q[..FIELD] == p[..FIELD];
    DispatchConsumesFrame(s, 0, p, rest);
  }

  /** The concrete case: an id-0 request carrying `[1, 2, 3, 4]` ahead of a
      request for Worker `w`. The stray body reads as a size of 67305985, so
      the loop as written stalls and `w` never sees its request; the
      corrected loop drops the id-0 frame and delivers `w`'s request next. */
  lemma ZeroIdFrameStarvesNextRequest(s: State, w: WorkerRef)
    requires s.Valid() && w in s.thread.registry
    requires s.thread.requests.q == RequestFrame(0, [1, 2, 3, 4]) + RequestFrame(s.workers[w].workId, [9])
    ensures var s1 := DispatchOneAsWritten(s).0;
            && s1.RegistryResolves()
            && DispatchOneAsWritten(s1) == (s1, Waiting)
    ensures var (s1, d1) := DispatchOne(s);
            && d1 == Dropped(0)
            && s1.RegistryResolves()
            && DispatchOne(s1).1 == Delivered(w, 1, [9])
            && DispatchOne(s1).0.thread.requests.q == []
  {
    var p: Payload := [1, 2, 3, 4];
    var rest := RequestFrame(s.workers[w].workId, [9]);
    assert p[..FIELD] == p;
    assert DecodeU32(p) == 67305985;
    ZeroIdFrameStallsQueue(s, p, rest);
    var s1 := DispatchOne(s).0;
    assert s1.Valid();
    GetWorkerFindsRegistered(s1, w);
    DispatchConsumesFrame(s1, s.workers[w].workId, [9], []);
    assert rest == RequestFrame(s.workers[w].workId, [9]) + [];
  }
}
