/**
 The CRC-32 of IEEE 802.3 clause 3.2.9, one bit at a time, and the algebra that the
 table-driven engines of the drivers rest on: what one byte does to the remainder, why a
 remainder difference survives, and which corruptions a CRC is bound to notice.

 All words are 32 bits wide.
 */
module Crc32 {
  import opened Folds

  const INITIAL_REMAINDER: bv32 := 0xFFFFFFFF
  const FINAL_XOR_VALUE: bv32 := 0xFFFFFFFF

  // ----- the reference: one message bit at a time, least significant bit first -----

  /** One shift of the least-significant-bit-first register; 0xEDB88320 is the reflected polynomial. */
  function BitStep(r: bv32): bv32 {
    if r & 1 == 1 then (r >> 1) ^ 0xEDB88320 else r >> 1
  }

  function BitWord(bit: bool): bv32 {
    if bit then 1 else 0
  }

  /** Feed one message bit. */
  function FeedBit(r: bv32, bit: bool): bv32 {
    BitStep(r ^ BitWord(bit))
  }

  /** The n low bits of a byte, lowest first. */
  function LowBits(b: bv8, n: nat): (bits: seq<bool>)
    ensures |bits| == n
    decreases n
  {
    if n == 0 then [] else [b & 1 == 1] + LowBits(b >> 1, n - 1)
  }

  /** The bits of a byte in transmission order. */
  function BitsOf(b: bv8): seq<bool> {
    LowBits(b, 8)
  }

  function Bits(bytes: seq<bv8>): (bits: seq<bool>)
    ensures |bits| == 8 * |bytes|
  {
    FlattenLength(BitsOf, 8, bytes);
    Flatten(BitsOf, bytes)
  }

  function Crc(bytes: seq<bv8>): bv32 {
    Fold(FeedBit, INITIAL_REMAINDER, Bits(bytes)) ^ FINAL_XOR_VALUE
  }

  // ----- one step of the register -----

  lemma StepInjective(x: bv32, y: bv32)
    requires BitStep(x) == BitStep(y)
    ensures x == y
  {}

  lemma FeedBitInjective(a: bv32, b: bv32, bit: bool)
    requires FeedBit(a, bit) == FeedBit(b, bit)
    ensures a == b
  {
    StepInjective(a ^ BitWord(bit), b ^ BitWord(bit));
  }

  /** A difference that avoids the low bit moves down without meeting the polynomial. */
  lemma StepDifference(x: bv32, y: bv32)
    requires (x ^ y) & 1 == 0
    ensures BitStep(x) ^ BitStep(y) == (x ^ y) >> 1
  {
    if x & 1 == 1 {} else {}
  }

  // ----- one byte: eight steps, and their table form -----

  function Step2(r: bv32): bv32 { BitStep(BitStep(r)) }

  function Step4(r: bv32): bv32 { Step2(Step2(r)) }

  function Step8(r: bv32): bv32 { Step4(Step4(r)) }

  lemma StepDifference2(x: bv32, y: bv32)
    requires (x ^ y) & 0x3 == 0
    ensures Step2(x) ^ Step2(y) == (x ^ y) >> 2
  {
    hide BitStep;
    StepDifference(x, y);
    StepDifference(BitStep(x), BitStep(y));
  }

  lemma StepDifference4(x: bv32, y: bv32)
    requires (x ^ y) & 0xF == 0
    ensures Step4(x) ^ Step4(y) == (x ^ y) >> 4
  {
    hide Step2;
    StepDifference2(x, y);
    StepDifference2(Step2(x), Step2(y));
  }

  lemma StepDifference8(x: bv32, y: bv32)
    requires (x ^ y) & 0xFF == 0
    ensures Step8(x) ^ Step8(y) == (x ^ y) >> 8
  {
    hide Step4;
    StepDifference4(x, y);
    StepDifference4(Step4(x), Step4(y));
  }

  /** The entry of the look-up table for byte k: the byte alone, stepped eight times. */
  function TableEntry(k: bv8): bv32 {
    Step8(k as bv32)
  }

  function LowByte(r: bv32): bv8 {
    (r & 0xFF) as bv8
  }

  // The index and the mixing of the table-driven loop, named so that proofs can hide them.

  function TableIndex(r: bv32, b: bv8): bv8 {
    LowByte(r) ^ b
  }

  function Mix(r: bv32, entry: bv32): bv32 {
    (r >> 8) ^ entry
  }

  /** The update of the table-driven loop. */
  function TableStep(r: bv32, b: bv8): bv32 {
    Mix(r, TableEntry(TableIndex(r, b)))
  }

  // The next lemmas name every word they speak of, which keeps each solver query to one fact.

  lemma SplitDifference(x: bv32, low: bv32, stepped: bv32, entry: bv32)
    requires (x ^ low) & 0xFF == 0
    requires stepped == Step8(x) && entry == Step8(low)
    ensures stepped ^ entry == (x ^ low) >> 8
  {
    hide *;
    StepDifference8(x, low);
  }

  lemma XorMove(a: bv32, b: bv32, d: bv32, h: bv32)
    requires a ^ b == d && d == h
    ensures a == h ^ b
  {}

  lemma SplitBytes(x: bv32, low: bv32, high: bv32, stepped: bv32, entry: bv32)
    requires (x ^ low) & 0xFF == 0
    requires (x ^ low) >> 8 == high
    requires stepped == Step8(x) && entry == Step8(low)
    ensures stepped == high ^ entry
  {
    hide *;
    SplitDifference(x, low, stepped, entry);
    XorMove(stepped, entry, (x ^ low) >> 8, high);
  }

  lemma IndexWord(r: bv32, b: bv8, x: bv32, low: bv32)
    requires x == r ^ (b as bv32) && low == TableIndex(r, b) as bv32
    ensures (x ^ low) & 0xFF == 0 && (x ^ low) >> 8 == r >> 8
  {}

  /** Mixing in the table entry is stepping the register that already holds the byte. */
  lemma MixIsStep8(r: bv32, b: bv8, x: bv32, low: bv32, stepped: bv32, entry: bv32, high: bv32)
    requires x == r ^ (b as bv32) && low == TableIndex(r, b) as bv32 && high == r >> 8
    requires stepped == Step8(x) && entry == Step8(low)
    ensures stepped == high ^ entry
  {
    hide *;
    IndexWord(r, b, x, low);
    SplitBytes(x, low, high, stepped, entry);
  }

  lemma TableStepIsStep8(r: bv32, b: bv8, x: bv32, stepped: bv32, entry: bv32)
    requires x == r ^ (b as bv32)
    requires stepped == Step8(x) && entry == TableEntry(TableIndex(r, b))
    ensures stepped == Mix(r, entry)
  {
    hide TableIndex, Step8;
    MixIsStep8(r, b, x, TableIndex(r, b) as bv32, stepped, entry, r >> 8);
  }

  // ----- eight message bits are one byte step -----

  function Steps(r: bv32, n: nat): bv32
    decreases n
  {
    if n == 0 then r else Steps(BitStep(r), n - 1)
  }

  /** The word w holds exactly these bits, lowest first. */
  predicate Spells(w: bv32, bits: seq<bool>)
    decreases |bits|
  {
    if bits == [] then w == 0 else bits[0] == (w & 1 == 1) && Spells(w >> 1, bits[1..])
  }

  /** Feeding a bit consumes the low bit of the difference between the two registers. */
  lemma FeedDifference(s: bv32, t: bv32, w: bv32, bit: bool, s': bv32, t': bv32, w': bv32)
    requires s ^ t == w && bit == (w & 1 == 1)
    requires s' == FeedBit(s, bit) && t' == BitStep(t) && w' == w >> 1
    ensures s' ^ t' == w'
  {
    hide BitStep;
    StepDifference(s ^ BitWord(bit), t);
  }

  /** A word already added into the register is the same as the word fed bit by bit. */
  lemma {:induction false} FeedSpelledWord(s: bv32, t: bv32, w: bv32, bits: seq<bool>)
    requires s ^ t == w && Spells(w, bits)
    ensures Fold(FeedBit, s, bits) == Steps(t, |bits|)
    decreases |bits|
  {
    hide BitStep, BitWord, FeedBit;
    if bits != [] {
      FeedNextBit(s, t, w, bits, FeedBit(s, bits[0]), BitStep(t), w >> 1);
    }
  }

  lemma {:induction false} FeedNextBit(s: bv32, t: bv32, w: bv32, bits: seq<bool>, s': bv32, t': bv32, w': bv32)
    requires bits != []
    requires s ^ t == w && Spells(w, bits)
    requires s' == FeedBit(s, bits[0]) && t' == BitStep(t) && w' == w >> 1
    ensures Fold(FeedBit, s, bits) == Steps(t, |bits|)
    decreases |bits|, 0
  {
    hide BitStep, BitWord, FeedBit;
    FeedDifference(s, t, w, bits[0], s', t', w');
    FeedSpelledWord(s', t', w', bits[1..]);
  }

  predicate Exhausted(b: bv8, n: nat)
    decreases n
  {
    if n == 0 then b == 0 else Exhausted(b >> 1, n - 1)
  }

  lemma {:induction false} LowBitsSpell(b: bv8, n: nat, w: bv32)
    requires Exhausted(b, n) && w == b as bv32
    ensures Spells(w, LowBits(b, n))
    decreases n
  {
    if n > 0 {
      assert w >> 1 == (b >> 1) as bv32;
      LowBitsSpell(b >> 1, n - 1, w >> 1);
      assert LowBits(b, n)[1..] == LowBits(b >> 1, n - 1);
    }
  }

  lemma ByteExhausted(b: bv8)
    ensures Exhausted(b, 8)
  {
    assert Exhausted(b >> 6, 2);
    assert Exhausted(b >> 4, 4);
    assert Exhausted(b >> 2, 6);
  }

  lemma StepsEight(r: bv32)
    ensures Steps(r, 8) == Step8(r)
  {
    hide BitStep;
    assert Steps(r, 8) == Steps(Step2(r), 6) == Steps(Step4(r), 4) == Steps(Step2(Step4(r)), 2);
  }

  lemma FeedByte(r: bv32, b: bv8, w: bv32, x: bv32, stepped: bv32)
    requires w == b as bv32 && x == r ^ w && stepped == Step8(x)
    ensures stepped == Fold(FeedBit, r, BitsOf(b))
  {
    hide BitStep, FeedBit, Step8, Spells, LowBits, Exhausted;
    ByteExhausted(b);
    LowBitsSpell(b, 8, w);
    assert r ^ x == w;
    FeedSpelledWord(r, x, w, BitsOf(b));
    StepsEight(x);
  }

  lemma TableStepIsEightBitsOf(r: bv32, b: bv8, w: bv32, x: bv32, stepped: bv32, entry: bv32)
    requires w == b as bv32 && x == r ^ w && stepped == Step8(x) && entry == TableEntry(TableIndex(r, b))
    ensures Mix(r, entry) == Fold(FeedBit, r, BitsOf(b))
  {
    hide *;
    FeedByte(r, b, w, x, stepped);
    TableStepIsStep8(r, b, x, stepped, entry);
  }

  /** One table look-up takes in exactly the eight bits of its byte. */
  lemma TableStepIsEightBits(r: bv32, b: bv8)
    ensures TableStep(r, b) == Fold(FeedBit, r, BitsOf(b))
  {
    hide Mix, TableEntry, TableIndex;
    var w := b as bv32;
    TableStepIsEightBitsOf(r, b, w, r ^ w, Step8(r ^ w), TableEntry(TableIndex(r, b)));
  }

  /** The table-driven loop over bytes computes the bit-at-a-time CRC. */
  lemma FastCrcRefinesCrc(bytes: seq<bv8>)
    ensures Fold(TableStep, INITIAL_REMAINDER, bytes) ^ FINAL_XOR_VALUE == Crc(bytes)
  {
    hide TableStep, BitsOf;
    forall r, b ensures TableStep(r, b) == Fold(FeedBit, r, BitsOf(b)) {
      TableStepIsEightBits(r, b);
    }
    FoldFlatten(FeedBit, TableStep, BitsOf, INITIAL_REMAINDER, bytes);
  }

  // ----- error detection -----

  function Shifts(h: bv32, n: nat): bv32
    decreases n
  {
    if n == 0 then h else Shifts(h >> 1, n - 1)
  }

  lemma {:induction false} ShiftsOfZero(n: nat)
    ensures Shifts(0, n) == 0
  {
    if n > 0 {
      ShiftsOfZero(n - 1);
    }
  }

  lemma {:induction false} ShiftsStayZero(h: bv32, m: nat, n: nat)
    requires m <= n && Shifts(h, m) == 0
    ensures Shifts(h, n) == 0
    decreases m
  {
    if m == 0 {
      ShiftsOfZero(n);
    } else {
      ShiftsStayZero(h >> 1, m - 1, n - 1);
    }
  }

  lemma TopBitLastsThirtyOneShifts(h: bv32, n: nat)
    requires h & 0x80000000 != 0 && n <= 31
    ensures Shifts(h, n) != 0
  {
    assert Shifts(h, 31) == Shifts(h >> 2, 29) == Shifts(h >> 4, 27) == Shifts(h >> 6, 25) == Shifts(h >> 8, 23)
      == Shifts(h >> 10, 21) == Shifts(h >> 12, 19) == Shifts(h >> 14, 17) == Shifts(h >> 16, 15);
    assert Shifts(h >> 16, 15) == Shifts(h >> 18, 13) == Shifts(h >> 20, 11) == Shifts(h >> 22, 9)
      == Shifts(h >> 24, 7) == Shifts(h >> 26, 5) == Shifts(h >> 28, 3) == Shifts(h >> 30, 1);
    if Shifts(h, n) == 0 {
      ShiftsStayZero(h, n, 31);
    }
  }

  predicate Difference(x: bv32, y: bv32, d: bv32) {
    x ^ y == d
  }

  lemma DifferenceOf(x: bv32, y: bv32) returns (d: bv32)
    ensures Difference(x, y, d)
  {
    d := x ^ y;
  }

  /** What feeding one bit to each of two registers does to their difference d. */
  predicate Moved(d: bv32, d': bv32, unequalBits: bool) {
    && (d' == d >> 1 || d' & 0x80000000 != 0)
    && (d == 0 && unequalBits ==> d' & 0x80000000 != 0)
  }

  /** The difference z after the message bits entered agrees with d above the low bit. */
  predicate Entered(d: bv32, z: bv32, unequalBits: bool) {
    z >> 1 == d >> 1 && (d == 0 && unequalBits ==> z & 1 == 1)
  }

  predicate Stepped(z: bv32, d: bv32) {
    if z & 1 == 0 then d == z >> 1 else d & 0x80000000 != 0
  }

  /** A step moves a difference down, unless it sits in the low bit: then it sets the top bit. */
  lemma StepMovesDifference(x: bv32, y: bv32, z: bv32, a: bv32, b: bv32, d: bv32)
    requires Difference(x, y, z) && Difference(a, b, d)
    requires a == BitStep(x) && b == BitStep(y)
    ensures Stepped(z, d)
  {
    if x & 1 == 1 {
      if z & 1 == 0 {} else {}
    } else {
      if z & 1 == 0 {} else {}
    }
  }

  lemma XorRegroups(a: bv32, b: bv32, u: bv32, v: bv32)
    ensures (a ^ u) ^ (b ^ v) == (a ^ b) ^ (u ^ v)
  {}

  lemma LowBitEnters(d: bv32, w: bv32, z: bv32, unequalBits: bool)
    requires w == BitWord(unequalBits) && z == d ^ w
    ensures Entered(d, z, unequalBits)
  {}

  lemma UnequalBits(s: bool, t: bool)
    ensures BitWord(s) ^ BitWord(t) == BitWord(s != t)
  {}

  lemma BitsEnterLow(a: bv32, b: bv32, d: bv32, s: bool, t: bool, x: bv32, y: bv32, z: bv32)
    requires Difference(a, b, d) && Difference(x, y, z)
    requires x == a ^ BitWord(s) && y == b ^ BitWord(t)
    ensures Entered(d, z, s != t)
  {
    hide BitWord, Entered;
    XorRegroups(a, b, BitWord(s), BitWord(t));
    UnequalBits(s, t);
    LowBitEnters(d, BitWord(s != t), z, s != t);
  }

  lemma EnteredThenStepped(d: bv32, z: bv32, d': bv32, unequalBits: bool)
    requires Entered(d, z, unequalBits) && Stepped(z, d')
    ensures Moved(d, d', unequalBits)
  {}

  lemma FeedMovesDifference(a: bv32, b: bv32, d: bv32, s: bool, t: bool, a': bv32, b': bv32, d': bv32)
    requires Difference(a, b, d) && Difference(a', b', d')
    requires a' == FeedBit(a, s) && b' == FeedBit(b, t)
    ensures Moved(d, d', s != t)
  {
    hide Difference, Moved, Entered, Stepped, BitWord, BitStep;
    var x, y := a ^ BitWord(s), b ^ BitWord(t);
    var z := DifferenceOf(x, y);
    BitsEnterLow(a, b, d, s, t, x, y, z);
    StepMovesDifference(x, y, z, a', b', d');
    EnteredThenStepped(d, z, d', s != t);
  }

  lemma MovedDifferenceLasts(d: bv32, d': bv32, unequalBits: bool, n: nat)
    requires Moved(d, d', unequalBits)
    requires 0 < n <= 31 && Shifts(d, n) != 0
    ensures Shifts(d', n - 1) != 0
  {
    if d' != d >> 1 {
      TopBitLastsThirtyOneShifts(d', n - 1);
    }
  }

  /** At most 31 further bits, right or wrong, cannot cancel a difference that reaches above them. */
  lemma {:induction false} DifferenceSurvives(a: bv32, b: bv32, d: bv32, s: seq<bool>, t: seq<bool>)
    requires |s| == |t| <= 31
    requires Difference(a, b, d) && Shifts(d, |s|) != 0
    ensures Fold(FeedBit, a, s) != Fold(FeedBit, b, t)
    decreases |s|
  {
    if s == [] {
      assert a != b;
    } else {
      hide FeedBit, Moved, Difference;
      var a', b' := FeedBit(a, s[0]), FeedBit(b, t[0]);
      var d' := DifferenceOf(a', b');
      FeedMovesDifference(a, b, d, s[0], t[0], a', b', d');
      MovedDifferenceLasts(d, d', s[0] != t[0], |s|);
      DifferenceSurvives(a', b', d', s[1..], t[1..]);
    }
  }

  lemma FoldFeedInjective(a: bv32, b: bv32, bits: seq<bool>)
    requires Fold(FeedBit, a, bits) == Fold(FeedBit, b, bits)
    ensures a == b
  {
    hide FeedBit;
    forall x, y, bit | FeedBit(x, bit) == FeedBit(y, bit) ensures x == y {
      FeedBitInjective(x, y, bit);
    }
    FoldInjective(FeedBit, a, b, bits);
  }

  /** The first wrong bit of a burst leaves a difference in the top bit. */
  lemma FirstWrongBit(r: bv32, s: bool, t: bool, a: bv32, b: bv32, d: bv32)
    requires s != t
    requires a == FeedBit(r, s) && b == FeedBit(r, t) && Difference(a, b, d)
    ensures d & 0x80000000 != 0
  {
    hide FeedBit;
    assert Difference(r, r, 0);
    FeedMovesDifference(r, r, 0, s, t, a, b, d);
  }

  /** A burst of at most 32 bits that starts with a wrong bit changes the register it meets. */
  lemma BurstChangesRegister(r: bv32, s: seq<bool>, t: seq<bool>)
    requires 0 < |s| == |t| <= 32 && s[0] != t[0]
    ensures Fold(FeedBit, r, s) != Fold(FeedBit, r, t)
  {
    hide FeedBit, Difference, Shifts;
    var a, b := FeedBit(r, s[0]), FeedBit(r, t[0]);
    var d := DifferenceOf(a, b);
    FirstWrongBit(r, s[0], t[0], a, b, d);
    TopBitLastsThirtyOneShifts(d, |s| - 1);
    DifferenceSurvives(a, b, d, s[1..], t[1..]);
  }

  lemma {:induction false} FirstDifference(s: seq<bool>, t: seq<bool>) returns (i: nat)
    requires |s| == |t| && s != t
    ensures i < |s| && s[i] != t[i] && s[..i] == t[..i]
  {
    i := 0;
    while s[i] == t[i]
      invariant i < |s| && s[..i] == t[..i]
      decreases |s| - i
    {
      assert s[..i + 1] == s[..i] + [s[i]] == t[..i] + [t[i]] == t[..i + 1];
      i := i + 1;
    }
  }

  lemma BurstOfBits(r: bv32, s: seq<bool>, t: seq<bool>, p: nat)
    requires |s| == |t| && s != t
    requires forall k | 0 <= k < |s| && !(p <= k < p + 32) :: s[k] == t[k]
    ensures Fold(FeedBit, r, s) != Fold(FeedBit, r, t)
  {
    hide FeedBit;
    var i := FirstDifference(s, t);
    var j := if p + 32 < |s| then p + 32 else |s|;
    var r' := Fold(FeedBit, r, s[..i]);
    assert s == s[..i] + (s[i..j] + s[j..]) && t == t[..i] + (t[i..j] + t[j..]);
    assert s[j..] == t[j..];
    FoldConcat(FeedBit, r, s[..i], s[i..j] + s[j..]);
    FoldConcat(FeedBit, r, t[..i], t[i..j] + t[j..]);
    FoldConcat(FeedBit, r', s[i..j], s[j..]);
    FoldConcat(FeedBit, r', t[i..j], t[j..]);
    BurstChangesRegister(r', s[i..j], t[i..j]);
    if Fold(FeedBit, r, s) == Fold(FeedBit, r, t) {
      FoldFeedInjective(Fold(FeedBit, r', s[i..j]), Fold(FeedBit, r', t[i..j]), s[j..]);
    }
  }

  // ----- from bits back to bytes -----

  lemma {:induction false} SpelledWordUnique(v: bv32, w: bv32, bits: seq<bool>)
    requires Spells(v, bits) && Spells(w, bits)
    ensures v == w
    decreases |bits|
  {
    if bits != [] {
      SpelledWordUnique(v >> 1, w >> 1, bits[1..]);
    }
  }

  lemma BitsOfInjective(a: bv8, b: bv8)
    requires BitsOf(a) == BitsOf(b)
    ensures a == b
  {
    ByteExhausted(a);
    ByteExhausted(b);
    LowBitsSpell(a, 8, a as bv32);
    LowBitsSpell(b, 8, b as bv32);
    SpelledWordUnique(a as bv32, b as bv32, BitsOf(a));
  }

  lemma {:induction false} BitsAt(bytes: seq<bv8>, i: nat)
    requires i < |bytes|
    ensures Bits(bytes)[8 * i..8 * i + 8] == BitsOf(bytes[i])
    decreases |bytes|
  {
    hide LowBits;
    if i > 0 {
      BitsAt(bytes[1..], i - 1);
    } else if |bytes| > 1 {
      BitsAt(bytes[1..], 0);
    }
  }

  lemma BitsInjective(s: seq<bv8>, t: seq<bv8>)
    requires |s| == |t| && Bits(s) == Bits(t)
    ensures s == t
  {
    forall i | 0 <= i < |s| ensures s[i] == t[i] {
      BitsAt(s, i);
      BitsAt(t, i);
      BitsOfInjective(s[i], t[i]);
    }
  }

  /** Any corruption confined to 32 consecutive message bits changes the CRC. */
  lemma BurstDetected(s: seq<bv8>, t: seq<bv8>, p: nat)
    requires |s| == |t| && s != t
    requires forall k | 0 <= k < 8 * |s| && !(p <= k < p + 32) :: Bits(s)[k] == Bits(t)[k]
    ensures Crc(s) != Crc(t)
  {
    hide Bits, FeedBit;
    if Bits(s) == Bits(t) {
      BitsInjective(s, t);
    }
    BurstOfBits(INITIAL_REMAINDER, Bits(s), Bits(t), p);
    FinalXorKeepsDifference(Fold(FeedBit, INITIAL_REMAINDER, Bits(s)), Fold(FeedBit, INITIAL_REMAINDER, Bits(t)));
  }

  lemma FinalXorKeepsDifference(a: bv32, b: bv32)
    requires a != b
    ensures a ^ FINAL_XOR_VALUE != b ^ FINAL_XOR_VALUE
  {}

  /** In particular any corruption of four consecutive bytes changes it. */
  lemma FourByteBurstDetected(s: seq<bv8>, t: seq<bv8>, p: nat)
    requires |s| == |t| && s != t
    requires forall i | 0 <= i < |s| && !(p <= i < p + 4) :: s[i] == t[i]
    ensures Crc(s) != Crc(t)
  {
    hide BitsOf;
    forall k | 0 <= k < 8 * |s| && !(8 * p <= k < 8 * p + 32) ensures Bits(s)[k] == Bits(t)[k] {
      var i := k / 8;
      BitsAt(s, i);
      BitsAt(t, i);
      assert Bits(s)[k] == Bits(s)[8 * i..8 * i + 8][k - 8 * i];
      assert Bits(t)[k] == Bits(t)[8 * i..8 * i + 8][k - 8 * i];
    }
    BurstDetected(s, t, 8 * p);
  }

  // ----- a known answer -----

  lemma CheckSteps0()
    ensures TableStep(0xFFFFFFFF, 0x31) == 0x7C231048
    ensures TableStep(0x7C231048, 0x32) == 0xB0ACBB32
    ensures TableStep(0xB0ACBB32, 0x33) == 0x77B79C2D
  {}

  lemma CheckSteps1()
    ensures TableStep(0x77B79C2D, 0x34) == 0x641C1F5C
    ensures TableStep(0x641C1F5C, 0x35) == 0x340AC5E3
    ensures TableStep(0x340AC5E3, 0x36) == 0xF68D2C9E
  {}

  lemma CheckSteps2()
    ensures TableStep(0xF68D2C9E, 0x37) == 0xAFFC9660
    ensures TableStep(0xAFFC9660, 0x38) == 0x651F2550
    ensures TableStep(0x651F2550, 0x39) == 0x340BC6D9
  {}

  /** The CRC of the octets of "123456789", the check value that is customary for CRC-32 */
  lemma CheckValue()
    ensures Crc([0x31, 0x32, 0x33, 0x34, 0x35, 0x36, 0x37, 0x38, 0x39]) == 0xCBF43926
  {
    var digits: seq<bv8> := [0x31, 0x32, 0x33, 0x34, 0x35, 0x36, 0x37, 0x38, 0x39];
    hide TableStep, Crc;
    CheckSteps0();
    CheckSteps1();
    CheckSteps2();
    FastCrcRefinesCrc(digits);
    FoldNext(digits, 0xFFFFFFFF, 0);
    FoldNext(digits, 0x7C231048, 1);
    FoldNext(digits, 0xB0ACBB32, 2);
    FoldNext(digits, 0x77B79C2D, 3);
    FoldNext(digits, 0x641C1F5C, 4);
    FoldNext(digits, 0x340AC5E3, 5);
    FoldNext(digits, 0xF68D2C9E, 6);
    FoldNext(digits, 0xAFFC9660, 7);
    FoldNext(digits, 0x651F2550, 8);
    assert digits[9..] == [] && digits[0..] == digits;
  }

  lemma FoldNext(bytes: seq<bv8>, r: bv32, k: nat)
    requires k < |bytes|
    ensures Fold(TableStep, r, bytes[k..]) == Fold(TableStep, TableStep(r, bytes[k]), bytes[k + 1..])
  {
    hide TableStep;
    assert bytes[k..][1..] == bytes[k + 1..];
  }
}
