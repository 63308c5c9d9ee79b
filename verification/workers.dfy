/** The Worker side of the deferred-work machinery: the private response
    ring a Worker fills from the background thread with `respondToWork`,
    and drains on its own thread with `processWorkResponses`. */
module Workers {
  import opened Bytes
  import opened RingBuffer
  import opened Frames

  /** Identity of a Worker object: its address in the running program. */
  type WorkerRef = nat

  /** A Worker object: the id its WorkThread assigned (0 while it is not
      registered), the busy flag the dispatcher raises around
      `processRequest`, the private response ring, and the size of the
      scratch buffer responses are copied into. */
  datatype Worker = Worker(workId: uint32, working: bool, responses: Ring, scratchSize: nat) {

    /** The scratch buffer is at least as large as the response ring. The
        constructor gives both `bufsize` bytes; the bound fails if the ring
        rounds its capacity above the requested size. */
    predicate Valid()
    {
      && responses.Valid()
      && responses.capacity < U32_LIMIT
      && responses.capacity <= scratchSize
    }
  }

  /** The Worker constructor before it registers itself: an empty response
      ring and a scratch buffer of `bufsize` bytes each, flag clear. */
  function NewWorker(bufsize: uint32): (w: Worker)
    ensures w.Valid() && !w.working
    ensures w.responses.ReadSpace() == 0 && w.responses.capacity == bufsize
    ensures w.scratchSize == bufsize
  {
    Worker(0, false, EmptyRing(bufsize), bufsize)
  }

  /** The front of `q` is a complete response frame: a size header and
      that many payload bytes. */
  predicate HasCompleteResponse(q: seq<uint8>)
  {
    |q| >= FIELD && FIELD + DecodeU32(q[..FIELD]) <= |q|
  }

  /** `Worker::validateMessage`: peek the size header and ask whether the
      header plus that many bytes can be read. Nothing is consumed. */
  function ValidateResponse(r: Ring): (ok: bool)
    ensures ok <==> HasCompleteResponse(r.q)
  {
    r.CanRead(PeekedSize(r) + FIELD)
  }

  /** A response frame at the front of a queue is recognised as complete,
      whatever follows it. */
  lemma ResponseFrameIsComplete(p: Payload, rest: seq<uint8>)
    ensures HasCompleteResponse(ResponseFrame(p) + rest)
    ensures DecodeU32((ResponseFrame(p) + rest)[..FIELD]) == |p|
  {
    var q := ResponseFrame(p) + rest;
    assert q[..FIELD] == EncodeU32(|p|);
    DecodeEncode(|p|);
  }

  /** `Worker::respondToWork`: append `[size][payload]` to the response ring
      when the whole frame fits, else report failure and write nothing. */
  function RespondToWork(w: Worker, payload: Payload): (res: (Worker, bool))
    ensures res.1 <==> w.responses.CanWrite(FIELD + |payload|)
    ensures res.1 ==> res.0 == w.(responses := Ring(w.responses.q + ResponseFrame(payload), w.responses.capacity))
    ensures !res.1 ==> res.0 == w
    ensures w.Valid() ==> res.0.Valid()
  {
    if !w.responses.CanWrite(FIELD + |payload|) then (w, false)
    else
      var (r1, n1) := w.responses.Write(EncodeU32(|payload|));
      if n1 < FIELD then (w.(responses := r1), false)
      else
        var (r2, n2) := r1.Write(payload);
        if n2 < |payload| then (w.(responses := r2), false)
        else (w.(responses := r2), true)
  }

  /** The payloads of `ps` whose `respondToWork` call succeeded. */
  function Accepted(ps: seq<Payload>, oks: seq<bool>): (a: seq<Payload>)
    requires |ps| == |oks|
    ensures |a| <= |ps|
  {
    if ps == [] then []
    else (if oks[0] then [ps[0]] else []) + Accepted(ps[1..], oks[1..])
  }

  lemma ResponseFramesCons(p: Payload, ps: seq<Payload>)
    ensures ResponseFrames([p] + ps) == ResponseFrame(p) + ResponseFrames(ps)
  {
    assert ([p] + ps)[1..] == ps;
  }

  /** `respondToWork` called once per element of `ps`, in order, as a
      `processRequest` callback may do; returns each call's result. */
  function RespondAll(w: Worker, ps: seq<Payload>): (res: (Worker, seq<bool>))
    ensures |res.1| == |ps|
    ensures res.0 == w.(responses := res.0.responses)
    ensures res.0.responses.capacity == w.responses.capacity
    ensures res.0.responses.q == w.responses.q + ResponseFrames(Accepted(ps, res.1))
    ensures |w.responses.q| + |ResponseFrames(ps)| <= w.responses.capacity ==>
              forall i | 0 <= i < |res.1| :: res.1[i]
    ensures w.Valid() ==> res.0.Valid()
    decreases |ps|
  {
    if ps == [] then (w, [])
    else
      var (w1, ok) := RespondToWork(w, ps[0]);
      var (w2, oks) := RespondAll(w1, ps[1..]);
      ResponseFramesCons(ps[0], ps[1..]);
      assert ps == [ps[0]] + ps[1..];
      assert Accepted(ps, [ok] + oks) == (if ok then [ps[0]] else []) + Accepted(ps[1..], oks) by {
        assert ([ok] + oks)[1..] == oks;
      }
      if ok then
        ResponseFramesCons(ps[0], Accepted(ps[1..], oks));
        (w2, [ok] + oks)
      else
        assert Accepted(ps, [ok] + oks) == Accepted(ps[1..], oks);
        (w2, [ok] + oks)
  }

  /** The body of the loop in `Worker::processWorkResponses` once the
      frame is known complete: read the size, then that many bytes. The
      frame read is exactly the one at the front of the ring. */
  function ReadResponse(r: Ring): (res: (Ring, Payload))
    requires r.Valid() && HasCompleteResponse(r.q)
    ensures r.q == ResponseFrame(res.1) + res.0.q
    ensures res.0.Valid() && res.0.capacity == r.capacity
  {
    var (r1, header) := r.Read(FIELD);
    var size := DecodeU32(header);
    var (r2, payload) := r1.Read(size);
    assert r.q == header + payload + r2.q && |payload| == size;
    EncodeDecode(header);
    (r2, payload)
  }

  /** The loop of `Worker::processWorkResponses`, with `remaining` the
      readable byte count taken before the loop and decreased by each frame
      consumed. Returns the ring left over and the payloads handed to
      `processResponse`, in order. */
  function DrainLoop(r: Ring, remaining: uint32): (res: (Ring, seq<Payload>))
    requires r.Valid() && remaining == r.ReadSpace()
    ensures res.0.Valid() && res.0.capacity == r.capacity
    ensures ResponseFrames(res.1) + res.0.q == r.q
    ensures !ValidateResponse(res.0)
    ensures forall i | 0 <= i < |res.1| :: FIELD + |res.1[i]| <= r.capacity
    decreases remaining
  {
    if remaining < FIELD then (r, [])
    else if !ValidateResponse(r) then (r, [])
    else
      var (r2, payload) := ReadResponse(r);
      var (rest, ps) := DrainLoop(r2, remaining - (FIELD + |payload|));
      ResponseFramesCons(payload, ps);
      (rest, [payload] + ps)
  }

  /** `Worker::processWorkResponses`: hand every complete response at the
      front of the ring to `processResponse`, stopping at the first
      incomplete one. */
  function ProcessWorkResponses(w: Worker): (res: (Worker, seq<Payload>))
    requires w.Valid()
    ensures res.0.Valid() && res.0 == w.(responses := res.0.responses)
    ensures res.0.responses.capacity == w.responses.capacity
    ensures ResponseFrames(res.1) + res.0.responses.q == w.responses.q
    ensures !HasCompleteResponse(res.0.responses.q)
    ensures forall i | 0 <= i < |res.1| :: FIELD + |res.1[i]| <= w.scratchSize
  {
    var (r, ps) := DrainLoop(w.responses, w.responses.ReadSpace());
    (w.(responses := r), ps)
  }

  /** A queue that splits as frames `d` plus a remainder with no complete
      frame at its front, where it also consists of exactly the frames `ps`,
      splits only one way: `d` is `ps` and nothing remains. */
  lemma {:induction false} ResponseFramesParseUniquely(ps: seq<Payload>, d: seq<Payload>, rest: seq<uint8>)
    requires ResponseFrames(d) + rest == ResponseFrames(ps)
    requires !HasCompleteResponse(rest)
    ensures d == ps && rest == []
    decreases |ps|
  {
    if ps == [] {
      if d != [] {
        assert false;
      }
    } else {
      if d == [] {
        ResponseFrameIsComplete(ps[0], ResponseFrames(ps[1..]));
        assert false;
      } else {
        assert ResponseFrames(d) + rest == ResponseFrame(d[0]) + (ResponseFrames(d[1..]) + rest);
        ResponseFrameHeadsMatch(d[0], ResponseFrames(d[1..]) + rest, ps[0], ResponseFrames(ps[1..]));
        ResponseFramesParseUniquely(ps[1..], d[1..], rest);
        assert d == [d[0]] + d[1..] && ps == [ps[0]] + ps[1..];
      }
    }
  }

  /** Two queues that each start with a response frame and are equal start
      with the same frame. */
  lemma ResponseFrameHeadsMatch(a: Payload, atail: seq<uint8>, b: Payload, btail: seq<uint8>)
    requires ResponseFrame(a) + atail == ResponseFrame(b) + btail
    ensures a == b && atail == btail
  {
    assert ResponseFrame(a) + atail == EncodeU32(|a|) + (a + atail);
    assert ResponseFrame(b) + btail == EncodeU32(|b|) + (b + btail);
    SplitEqual(EncodeU32(|a|), a + atail, EncodeU32(|b|), b + btail);
    EncodeInjective(|a|, |b|);
    SplitEqual(a, atail, b, btail);
  }

  /** A response ring holding exactly the frames of `ps` is drained in one
      call: `processResponse` sees every payload of `ps`, in order, with its
      boundaries preserved, and the ring ends empty. */
  lemma DrainDeliversEveryResponse(w: Worker, ps: seq<Payload>)
    requires w.Valid() && w.responses.q == ResponseFrames(ps)
    ensures ProcessWorkResponses(w).1 == ps
    ensures ProcessWorkResponses(w).0.responses.q == []
  {
    var (w', d) := ProcessWorkResponses(w);
    ResponseFramesParseUniquely(ps, d, w'.responses.q);
  }

  /** Responses written into an empty ring and then drained come back one
      `processResponse` call per `respondToWork` call, identical, when they
      all fit. */
  lemma RespondThenDrain(w: Worker, ps: seq<Payload>)
    requires w.Valid() && w.responses.q == []
    requires |ResponseFrames(ps)| <= w.responses.capacity
    ensures forall i | 0 <= i < |ps| :: RespondAll(w, ps).1[i]
    ensures ProcessWorkResponses(RespondAll(w, ps).0).1 == ps
    ensures ProcessWorkResponses(RespondAll(w, ps).0).0.responses.q == []
  {
    var (w', oks) := RespondAll(w, ps);
    AcceptedAll(ps, oks);
    DrainDeliversEveryResponse(w', ps);
  }

  lemma {:induction false} AcceptedAll(ps: seq<Payload>, oks: seq<bool>)
    requires |ps| == |oks|
    requires forall i | 0 <= i < |oks| :: oks[i]
    ensures Accepted(ps, oks) == ps
  {
    if ps != [] {
      AcceptedAll(ps[1..], oks[1..]);
      assert ps == [ps[0]] + ps[1..];
    }
  }
}
