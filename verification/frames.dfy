/** The two length-prefixed frame layouts carried by the byte rings:
    a request is `[u32 size][u32 workId][payload]`, a response is
    `[u32 size][payload]`. */
module Frames {
  import opened Bytes
  import opened RingBuffer

  /** `sizeof (uint32)`: the width of every header field. */
  const FIELD: nat := 4

  /** The bytes a request frame with `size` payload bytes occupies. */
  function RequiredSpace(size: nat): nat
  {
    size + 2 * FIELD
  }

  function RequestFrame(workId: uint32, payload: Payload): (f: seq<uint8>)
    ensures |f| == RequiredSpace(|payload|)
  {
    EncodeU32(|payload|) + EncodeU32(workId) + payload
  }

  function ResponseFrame(payload: Payload): (f: seq<uint8>)
    ensures |f| == FIELD + |payload|
  {
    EncodeU32(|payload|) + payload
  }

  /** The responses `ps` written back to back, in order. */
  function ResponseFrames(ps: seq<Payload>): (bytes: seq<uint8>)
    ensures |bytes| >= FIELD * |ps|
  {
    if ps == [] then [] else ResponseFrame(ps[0]) + ResponseFrames(ps[1..])
  }

  lemma {:induction false} ResponseFramesAppend(ps: seq<Payload>, p: Payload)
    ensures ResponseFrames(ps + [p]) == ResponseFrames(ps) + ResponseFrame(p)
  {
    if ps == [] {
      assert ps + [p] == [p];
    } else {
      assert (ps + [p])[1..] == ps[1..] + [p];
      ResponseFramesAppend(ps[1..], p);
    }
  }

  /** The size header at the front of a ring, as a `uint32` local that starts
      at 0 holds it after a peek: 0 when fewer than 4 bytes are readable,
      because such a peek copies nothing. */
  function PeekedSize(r: Ring): (size: uint32)
    ensures r.CanRead(FIELD) ==> size == DecodeU32(r.q[..FIELD])
    ensures !r.CanRead(FIELD) ==> size == 0
  {
    var b := r.Peek(FIELD);
    if |b| == FIELD then DecodeU32(b) else 0
  }

  /** Equal concatenations with equal-length heads have equal parts. */
  lemma SplitEqual(a: seq<uint8>, b: seq<uint8>, c: seq<uint8>, d: seq<uint8>)
    requires a + b == c + d && |a| == |c|
    ensures a == c && b == d
  {
    assert a == (a + b)[..|a|];
    assert c == (c + d)[..|c|];
    assert b == (a + b)[|a|..];
    assert d == (c + d)[|c|..];
  }
}
