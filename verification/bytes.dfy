/** Byte-level vocabulary shared by the request and response queues:
    bytes, 32-bit unsigned words and their 4-byte little-endian encoding,
    and the power-of-two sizing used for queues and scratch buffers. */
module Bytes {

  const U32_LIMIT: int := 0x1_0000_0000
  const U32_MAX: int := 0xFFFF_FFFF

  type uint8 = x: int | 0 <= x < 0x100
  type uint32 = x: int | 0 <= x < 0x1_0000_0000

  /** A byte string whose length fits the `uint32` size field announcing it. */
  type Payload = p: seq<uint8> | |p| < 0x1_0000_0000

  /** The 4 bytes of a host `uint32`, least significant first. */
  function EncodeU32(x: uint32): (b: seq<uint8>)
    ensures |b| == 4
  {
    [x % 0x100, (x / 0x100) % 0x100, (x / 0x1_0000) % 0x100, x / 0x100_0000]
  }

  function DecodeU32(b: seq<uint8>): (x: uint32)
    requires |b| == 4
  {
    b[0] as int + 0x100 * b[1] as int + 0x1_0000 * b[2] as int + 0x100_0000 * b[3] as int
  }

  lemma DecodeEncode(x: uint32)
    ensures DecodeU32(EncodeU32(x)) == x
  {
    var b := EncodeU32(x);
    var a1 := x / 0x100;
    var a2 := a1 / 0x100;
    assert x == a1 * 0x100 + b[0];
    assert a1 == a2 * 0x100 + b[1];
    assert a2 / 0x100 == x / 0x100_0000;
    assert a2 == b[3] as int * 0x100 + b[2] as int;
  }

  lemma EncodeDecode(b: seq<uint8>)
    requires |b| == 4
    ensures EncodeU32(DecodeU32(b)) == b
  {
    var x := DecodeU32(b);
    assert x % 0x100 == b[0];
    assert x / 0x100 == b[1] as int + 0x100 * b[2] as int + 0x1_0000 * b[3] as int;
    assert x / 0x1_0000 == b[2] as int + 0x100 * b[3] as int;
    assert x / 0x100_0000 == b[3];
  }

  /** Two words with the same encoding are the same word. */
  lemma EncodeInjective(x: uint32, y: uint32)
    requires EncodeU32(x) == EncodeU32(y)
    ensures x == y
  {
    DecodeEncode(x);
    DecodeEncode(y);
  }

  predicate IsPowerOfTwo(n: nat)
  {
    n == 1 || (n >= 2 && n % 2 == 0 && IsPowerOfTwo(n / 2))
  }

  /** The smallest power of two that is at least `n` (1 when `n` is 0). */
  function NextPowerOfTwo(n: nat): (p: nat)
    ensures IsPowerOfTwo(p) && n <= p
    ensures p == 1 || p / 2 < n
  {
    DoubleUntilAtLeast(n, 1)
  }

  /** Doubles the power of two `p` until it reaches `n`. */
  function DoubleUntilAtLeast(n: nat, p: nat): (r: nat)
    requires IsPowerOfTwo(p)
    requires p == 1 || p / 2 < n
    ensures IsPowerOfTwo(r) && n <= r && p <= r
    ensures r == 1 || r / 2 < n
    decreases n - p
  {
    if n <= p then p else DoubleUntilAtLeast(n, 2 * p)
  }

  lemma {:induction false} PowerOfTwoPositive(p: nat)
    requires IsPowerOfTwo(p)
    ensures p >= 1
  {
  }

  /** Of two powers of two, one more than half the other is at least the other. */
  lemma {:induction false} PowersOfTwoOrdered(p: nat, q: nat)
    requires IsPowerOfTwo(p) && IsPowerOfTwo(q)
    requires p / 2 < q
    ensures p <= q
  {
    if p != 1 {
      PowerOfTwoPositive(p / 2);
      if q == 1 {
        assert false;
      } else {
        PowersOfTwoOrdered(p / 2, q / 2);
      }
    }
  }

  /** No power of two at least `n` is below `NextPowerOfTwo(n)`. */
  lemma NextPowerOfTwoIsLeast(n: nat, q: nat)
    requires IsPowerOfTwo(q) && n <= q
    ensures NextPowerOfTwo(n) <= q
  {
    var p := NextPowerOfTwo(n);
    if p == 1 {
      PowerOfTwoPositive(q);
    } else {
      PowersOfTwoOrdered(p, q);
    }
  }
}
