/** Bytes and 32-bit quadlets as ranges of integers, for the parts that calculate with addresses. */
module Integers {

  type Byte = b: int | 0 <= b < 0x100
  type Quad = q: int | 0 <= q < 0x1_0000_0000

  const QUAD_RANGE: int := 0x1_0000_0000

  /** The four bytes of a quadlet in memory, least significant first */
  function QuadBytes(q: Quad): seq<Byte> {
    [q % 0x100, q / 0x100 % 0x100, q / 0x100 / 0x100 % 0x100, q / 0x100 / 0x100 / 0x100]
  }

  /** The quadlet stored at position k */
  function QuadAt(bytes: seq<Byte>, k: nat): Quad
    requires k + 4 <= |bytes|
  {
    var b0: int, b1: int, b2: int, b3: int := bytes[k], bytes[k + 1], bytes[k + 2], bytes[k + 3];
    b0 + 0x100 * b1 + 0x1_0000 * b2 + 0x100_0000 * b3
  }

  lemma LeastSignificantFirst()
    ensures QuadBytes(0x04030201) == [0x01, 0x02, 0x03, 0x04]
    ensures QuadAt([0x01, 0x02, 0x03, 0x04], 0) == 0x04030201
  {}

  lemma QuadRoundTrip(q: Quad)
    ensures QuadAt(QuadBytes(q), 0) == q
  {}
}
