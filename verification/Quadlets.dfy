/** Bytes and the little-endian quadlets they are stored in. */
module Quadlets {

  function Word(b0: bv8, b1: bv8, b2: bv8, b3: bv8): bv32 {
    (b0 as bv32) | ((b1 as bv32) << 8) | ((b2 as bv32) << 16) | ((b3 as bv32) << 24)
  }

  function ByteOf(q: bv32, i: nat): bv8
    requires i < 4
  {
    if i == 0 then (q & 0xFF) as bv8
    else if i == 1 then ((q >> 8) & 0xFF) as bv8
    else if i == 2 then ((q >> 16) & 0xFF) as bv8
    else ((q >> 24) & 0xFF) as bv8
  }

  /** The word at byte offset at. */
  function WordAt(bytes: seq<bv8>, at: nat): bv32
    requires at + 4 <= |bytes|
  {
    Word(bytes[at], bytes[at + 1], bytes[at + 2], bytes[at + 3])
  }

  function WordBytes(q: bv32): seq<bv8> {
    [ByteOf(q, 0), ByteOf(q, 1), ByteOf(q, 2), ByteOf(q, 3)]
  }

  lemma LeastSignificantFirst()
    ensures WordBytes(0x04030201) == [0x01, 0x02, 0x03, 0x04]
    ensures WordAt([0x01, 0x02, 0x03, 0x04], 0) == 0x04030201
  {}

  lemma ByteOfWord(b0: bv8, b1: bv8, b2: bv8, b3: bv8)
    ensures ByteOf(Word(b0, b1, b2, b3), 0) == b0
    ensures ByteOf(Word(b0, b1, b2, b3), 1) == b1
    ensures ByteOf(Word(b0, b1, b2, b3), 2) == b2
    ensures ByteOf(Word(b0, b1, b2, b3), 3) == b3
  {}

  lemma WordOfBytes(q: bv32)
    ensures Word(ByteOf(q, 0), ByteOf(q, 1), ByteOf(q, 2), ByteOf(q, 3)) == q
  {}

  function Pack(bytes: seq<bv8>): (quads: seq<bv32>)
    requires |bytes| % 4 == 0
    ensures |quads| == |bytes| / 4
  {
    seq(|bytes| / 4, i requires 0 <= i < |bytes| / 4 => WordAt(bytes, 4 * i))
  }

  function Unpack(quads: seq<bv32>): (bytes: seq<bv8>)
    ensures |bytes| == 4 * |quads|
  {
    seq(4 * |quads|, k requires 0 <= k < 4 * |quads| => ByteOf(quads[k / 4], k % 4))
  }

  lemma UnpackPack(bytes: seq<bv8>)
    requires |bytes| % 4 == 0
    ensures Unpack(Pack(bytes)) == bytes
  {
    hide Word, ByteOf;
    forall k | 0 <= k < |bytes| ensures Unpack(Pack(bytes))[k] == bytes[k] {
      var i := k / 4;
      ByteOfWord(bytes[4 * i], bytes[4 * i + 1], bytes[4 * i + 2], bytes[4 * i + 3]);
    }
  }
}
