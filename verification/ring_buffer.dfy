/** Abstract single-producer/single-consumer byte ring. The readable bytes
    are kept in FIFO order together with the fixed capacity; the cursor
    arithmetic of the concrete buffer is not modelled. Every transfer moves
    all the requested bytes or none of them. */
module RingBuffer {
  import opened Bytes

  datatype Ring = Ring(q: seq<uint8>, capacity: nat) {

    predicate Valid()
    {
      |q| <= capacity
    }

    function ReadSpace(): nat
    {
      |q|
    }

    predicate CanWrite(n: nat)
    {
      |q| + n <= capacity
    }

    predicate CanRead(n: nat)
    {
      n <= |q|
    }

    /** Appends all of `data` when it fits, otherwise nothing; returns the
        new ring and the number of bytes written. */
    function Write(data: seq<uint8>): (res: (Ring, nat))
      ensures res.0.capacity == capacity
      ensures CanWrite(|data|) ==> res.0.q == q + data && res.1 == |data|
      ensures !CanWrite(|data|) ==> res.0 == this && res.1 == 0
      ensures Valid() ==> res.0.Valid()
    {
      if CanWrite(|data|) then (Ring(q + data, capacity), |data|) else (this, 0)
    }

    /** Removes and returns the first `n` bytes when that many are readable,
        otherwise returns no bytes and leaves the ring as it is. */
    function Read(n: nat): (res: (Ring, seq<uint8>))
      ensures res.0.capacity == capacity
      ensures res.1 + res.0.q == q
      ensures CanRead(n) ==> |res.1| == n
      ensures !CanRead(n) ==> res.0 == this && res.1 == []
      ensures Valid() ==> res.0.Valid()
    {
      if CanRead(n) then (Ring(q[n..], capacity), q[..n]) else (this, [])
    }

    /** The first `n` bytes without consuming them, or none when fewer are
        readable. */
    function Peek(n: nat): (b: seq<uint8>)
      ensures CanRead(n) ==> b == q[..n]
      ensures !CanRead(n) ==> b == []
    {
      if CanRead(n) then q[..n] else []
    }
  }

  function EmptyRing(capacity: nat): (r: Ring)
    ensures r.Valid() && r.ReadSpace() == 0 && r.capacity == capacity
  {
    Ring([], capacity)
  }
}
