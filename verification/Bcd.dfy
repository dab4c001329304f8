/**
 The BeBoB firmware image reader (bebob_dl_bcd.cpp): its CRC-32 table is generated at run
 time by reflecting each index, shifting most significant bit first, and reflecting back.
 */
module Bcd {
  import opened Folds
  import opened Crc32
  import opened Quadlets

  // ----- bits of a word -----

  /** Bit k of x, counted from the least significant end. */
  predicate Bit(x: bv32, k: bv6)
    requires k < 32
  {
    (x >> k) & 1 == 1
  }

  lemma SameBitThenSameShift(x: bv32, y: bv32, k: bv6)
    requires k < 32 && Bit(x, k) == Bit(y, k) && x >> (k + 1) == y >> (k + 1)
    ensures x >> k == y >> k
  {}

  lemma {:induction false} SameShift(x: bv32, y: bv32, k: bv6)
    requires k <= 32
    requires forall j: bv6 | j < 32 :: Bit(x, j) == Bit(y, j)
    ensures x >> k == y >> k
    decreases 32 - k
  {
    if k < 32 {
      SameShift(x, y, k + 1);
      SameBitThenSameShift(x, y, k);
    }
  }

  lemma WordExtensionality(x: bv32, y: bv32)
    requires forall k: bv6 | k < 32 :: Bit(x, k) == Bit(y, k)
    ensures x == y
  {
    SameShift(x, y, 0);
  }

  // ----- reflection and the two shift directions -----

  /** y holds the bits of x in reverse order. */
  ghost predicate Mirrored(x: bv32, y: bv32) {
    forall k: bv6 | k < 32 :: Bit(x, k) == Bit(y, 31 - k)
  }

  /** One shift of the most-significant-bit-first register with the polynomial of the standard. */
  function MsbStep(r: bv32): bv32 {
    (r << 1) ^ (if r & 0x80000000 != 0 then 0x04c11db7 else 0)
  }

  lemma LsbStepBits(x: bv32, k: bv6)
    requires k < 32
    ensures Bit(BitStep(x), k) == ((k < 31 && Bit(x, k + 1)) != (Bit(x, 0) && Bit(0xEDB88320, k)))
  {
    if x & 1 == 1 {
      if k < 31 {} else {}
    } else {
      if k < 31 {} else {}
    }
  }

  lemma MsbStepBits(x: bv32, k: bv6)
    requires k < 32
    ensures Bit(MsbStep(x), k) == ((k > 0 && Bit(x, k - 1)) != (Bit(x, 31) && Bit(0x04c11db7, k)))
  {
    if x & 0x80000000 != 0 {
      if k > 0 {} else {}
    } else {
      if k > 0 {} else {}
    }
  }

  lemma PolynomialsMirrored(k: bv6)
    requires k < 32
    ensures Bit(0x04c11db7, k) == Bit(0xEDB88320, 31 - k)
  {}

  /** Shifting most significant bit first is shifting least significant bit first, seen in a mirror. */
  lemma StepsMirrored(x: bv32, y: bv32)
    requires Mirrored(x, y)
    ensures Mirrored(MsbStep(x), BitStep(y))
  {
    hide Bit, MsbStep, BitStep;
    forall k: bv6 | k < 32 ensures Bit(MsbStep(x), k) == Bit(BitStep(y), 31 - k) {
      MsbStepBits(x, k);
      LsbStepBits(y, 31 - k);
      PolynomialsMirrored(k);
      assert Bit(x, 31) == Bit(y, 0);
      if k > 0 {
        assert Bit(x, k - 1) == Bit(y, 31 - (k - 1));
      }
    }
  }

  lemma SetBit(v: bv32, j: bv6, k: bv6)
    requires j < 32 && k < 32
    ensures Bit(v | (1 << j), k) == (Bit(v, k) || k == j)
  {}

  lemma ShiftBit(x: bv32, k: bv6)
    requires k < 32
    ensures Bit(x >> 1, k) == (k < 31 && Bit(x, k + 1))
  {}

  lemma ZeroBit(k: bv6)
    requires k < 32
    ensures !Bit(0, k)
  {}

  /** value holds the ch low bits of reference in reverse order, and nothing above them. */
  ghost predicate Reflected(reference: bv32, ch: bv6, value: bv32)
    requires ch <= 32
  {
    ReflectedFrom(reference, ch, 0, value)
  }

  /** As Reflected, but only the bits from position low up have been placed. */
  ghost predicate ReflectedFrom(reference: bv32, ch: bv6, low: bv6, value: bv32)
    requires low <= ch <= 32
  {
    forall k: bv6 | k < 32 :: Bit(value, k) == (low <= k < ch && Bit(reference, ch - 1 - k))
  }

  ghost predicate ShiftedBy(reference: bv32, n: bv6, ref: bv32)
    requires n <= 32
  {
    forall k: bv6 | k < 32 :: Bit(ref, k) == (k < 32 - n && Bit(reference, k + n))
  }

  lemma NothingReflected(reference: bv32, ch: bv6)
    requires ch <= 32
    ensures ReflectedFrom(reference, ch, ch, 0) && ShiftedBy(reference, 0, reference)
  {
    hide Bit;
    forall k: bv6 | k < 32 ensures !Bit(0, k) {
      ZeroBit(k);
    }
  }

  lemma LowBit(x: bv32)
    ensures (x & 1 == 1) == Bit(x, 0)
  {}

  lemma ShiftOnce(reference: bv32, n: bv6, ref: bv32, ref': bv32)
    requires n < 32 && ShiftedBy(reference, n, ref) && ref' == ref >> 1
    ensures ShiftedBy(reference, n + 1, ref')
    ensures (ref & 1 == 1) == Bit(reference, n)
  {
    hide Bit;
    LowBit(ref);
    forall k: bv6 | k < 32 ensures Bit(ref', k) == (k < 32 - (n + 1) && Bit(reference, k + (n + 1))) {
      ShiftBit(ref, k);
    }
  }

  lemma PlaceBitAt(reference: bv32, ch: bv6, low: bv6, value: bv32, value': bv32, k: bv6)
    requires low < ch <= 32 && k < 32
    requires Bit(value, k) == (low + 1 <= k < ch && Bit(reference, ch - 1 - k))
    requires value' == if Bit(reference, ch - 1 - low) then value | (1 << low) else value
    ensures Bit(value', k) == (low <= k < ch && Bit(reference, ch - 1 - k))
  {
    hide Bit;
    SetBit(value, low, k);
    if k == low {} else {}
  }

  lemma PlaceBit(reference: bv32, ch: bv6, low: bv6, value: bv32, value': bv32)
    requires low < ch <= 32 && ReflectedFrom(reference, ch, low + 1, value)
    requires value' == if Bit(reference, ch - 1 - low) then value | (1 << low) else value
    ensures ReflectedFrom(reference, ch, low, value')
  {
    hide Bit;
    forall k: bv6 | k < 32 ensures Bit(value', k) == (low <= k < ch && Bit(reference, ch - 1 - k)) {
      PlaceBitAt(reference, ch, low, value, value', k);
    }
  }

  /** BeBoB::BCD::reflect */
  method Reflect(reference: bv32, ch: bv6) returns (value: bv32)
    requires ch <= 32
    ensures Reflected(reference, ch, value)
  {
    hide Bit, ReflectedFrom, ShiftedBy;
    var ref := reference;
    value := 0;
    var i: bv6 := 1;
    NothingReflected(reference, ch);
    while i < ch + 1
      invariant 1 <= i <= ch + 1
      invariant ShiftedBy(reference, i - 1, ref)
      invariant ReflectedFrom(reference, ch, ch - (i - 1), value)
      decreases ch + 1 - i
    {
      ShiftOnce(reference, i - 1, ref, ref >> 1);
      PlaceBit(reference, ch, ch - i, value, if ref & 1 == 1 then value | (1 << (ch - i)) else value);
      if ref & 1 == 1 {
        value := value | (1 << (ch - i));
      }
      ref := ref >> 1;
      i := i + 1;
    }
  }

  // ----- the generated table -----

  lemma LiftBit(v: bv32, k: bv6)
    requires k < 32
    ensures Bit(v << 24, k) == (k >= 24 && Bit(v, k - 24))
  {
    if k >= 24 {} else {}
  }

  lemma HighBitsOfByte(b: bv8, k: bv6)
    requires 8 <= k < 32
    ensures !Bit(b as bv32, k)
  {}

  /** A byte reflected within eight bits and moved to the top is the mirror image of the byte. */
  lemma ReflectedByteIsMirrored(b: bv8, i: bv32, v: bv32, c: bv32)
    requires i == b as bv32 && Reflected(i, 8, v) && c == v << 24
    ensures Mirrored(c, i)
  {
    hide Bit;
    forall k: bv6 | k < 32 ensures Bit(c, k) == Bit(i, 31 - k) {
      LiftBit(v, k);
      if k < 24 {
        HighBitsOfByte(b, 31 - k);
      }
    }
  }

  lemma ReflectedMirrorIsOriginal(c: bv32, x: bv32, y: bv32)
    requires Mirrored(c, x) && Reflected(c, 32, y)
    ensures y == x
  {
    hide Bit;
    forall k: bv6 | k < 32 ensures Bit(y, k) == Bit(x, k) {
      assert Bit(c, 31 - k) == Bit(x, 31 - (31 - k));
    }
    WordExtensionality(y, x);
  }

  /** The state of the register after j most-significant-bit-first steps. */
  function MsbSteps(c: bv32, j: nat): bv32 {
    if j == 0 then c else MsbStep(MsbSteps(c, j - 1))
  }

  lemma {:induction false} MsbStepsMirrored(c: bv32, x: bv32, j: nat)
    requires Mirrored(c, x)
    ensures Mirrored(MsbSteps(c, j), StepsUp(x, j))
  {
    hide Mirrored, MsbStep, BitStep;
    if j > 0 {
      MsbStepsMirrored(c, x, j - 1);
      StepsMirrored(MsbSteps(c, j - 1), StepsUp(x, j - 1));
    }
  }

  function StepsUp(x: bv32, j: nat): bv32 {
    if j == 0 then x else BitStep(StepsUp(x, j - 1))
  }

  lemma StepsUpEight(x: bv32)
    ensures StepsUp(x, 8) == Step8(x)
  {
    hide BitStep;
    assert StepsUp(x, 1) == BitStep(x);
    assert StepsUp(x, 3) == BitStep(Step2(x));
    assert StepsUp(x, 5) == BitStep(Step4(x));
    assert StepsUp(x, 7) == BitStep(Step2(Step4(x)));
  }

  /** Reflecting, shifting eight times and reflecting back yields the entry of the standard table. */
  lemma GeneratedEntry(b: bv8, i: bv32, v: bv32, c: bv32, s: bv32, y: bv32)
    requires i == b as bv32 && Reflected(i, 8, v) && c == v << 24
    requires s == MsbSteps(c, 8) && Reflected(s, 32, y)
    ensures y == TableEntry(b)
  {
    hide Mirrored, Reflected, Step8;
    ReflectedByteIsMirrored(b, i, v, c);
    MsbStepsMirrored(c, i, 8);
    StepsUpEight(i);
    ReflectedMirrorIsOriginal(s, Step8(i), y);
  }

  /** The entries generated so far are those of the standard table. */
  ghost predicate CrcTablePrefix(table: seq<bv32>) {
    forall b: bv8 | b as int < |table| :: table[b as int] == TableEntry(b)
  }

  ghost predicate IsCrcTable(table: seq<bv32>) {
    |table| == 256 && CrcTablePrefix(table)
  }

  lemma {:induction false} ByteOfIndex(i: nat) returns (b: bv8)
    requires i < 256
    ensures b as int == i
  {
    if i == 0 {
      b := 0;
    } else {
      var c := ByteOfIndex(i - 1);
      b := c + 1;
    }
  }

  /** There is only one CRC table. */
  lemma CrcTableUnique(s: seq<bv32>, t: seq<bv32>)
    requires IsCrcTable(s) && IsCrcTable(t)
    ensures s == t
  {
    hide TableEntry;
    forall i | 0 <= i < 256 ensures s[i] == t[i] {
      var b := ByteOfIndex(i);
      assert s[b as int] == TableEntry(b) == t[b as int];
    }
  }

  lemma TableLength(table: seq<bv32>)
    requires IsCrcTable(table)
    ensures |table| == 256
  {}

  lemma NoEntries(table: seq<bv32>)
    requires table == []
    ensures CrcTablePrefix(table)
  {}

  lemma NextEntry(table: seq<bv32>, b: bv8, entry: bv32)
    requires |table| == b as int && CrcTablePrefix(table) && entry == TableEntry(b)
    ensures CrcTablePrefix(table + [entry])
  {
    hide TableEntry;
  }

  lemma NextGeneratedEntry(table: seq<bv32>, v: bv32, c: bv32, s: bv32, y: bv32)
    requires |table| < 256 && CrcTablePrefix(table)
    requires Reflected(|table| as bv32, 8, v) && c == v << 24
    requires s == MsbSteps(c, 8) && Reflected(s, 32, y)
    ensures CrcTablePrefix(table + [y])
  {
    hide TableEntry, Reflected, MsbSteps, CrcTablePrefix;
    var i := |table|;
    GeneratedEntry(i as bv8, i as bv32, v, c, s, y);
    NextEntry(table, i as bv8, y);
  }

  lemma LookUp(table: seq<bv32>, index: bv8, entry: bv32)
    requires IsCrcTable(table) && entry == table[index as int]
    ensures entry == TableEntry(index)
  {
    hide TableEntry;
  }

  /** One round of the look-up loop advances the fold of the table step by one byte. */
  lemma LookUpNext(table: seq<bv32>, text: seq<bv8>, k: nat, crc: bv32, entry: bv32)
    requires IsCrcTable(table) && k < |text|
    requires entry == table[TableIndex(crc, text[k]) as int]
    requires crc == Fold(TableStep, INITIAL_REMAINDER, text[..k])
    ensures Mix(crc, entry) == Fold(TableStep, INITIAL_REMAINDER, text[..k + 1])
  {
    hide TableEntry, TableIndex, Mix;
    LookUp(table, TableIndex(crc, text[k]), entry);
    FoldSnoc(TableStep, INITIAL_REMAINDER, text[..k], text[k]);
    assert text[..k + 1] == text[..k] + [text[k]];
  }

  // ----- the header check -----

  /** The header with the four bytes of its crc field cleared. */
  function Cleared(header: seq<bv8>, at: nat): (r: seq<bv8>)
    requires at + 4 <= |header|
    ensures |r| == |header|
  {
    header[at := 0][at + 1 := 0][at + 2 := 0][at + 3 := 0]
  }

  /** The file holds a whole header whose crc field is the CRC of the header with that field cleared. */
  predicate HeaderAccepted(file: seq<bv8>, crcOffset: nat, headerSize: nat)
    requires crcOffset + 4 <= headerSize
  {
    |file| >= headerSize && WordAt(file, crcOffset) == Crc(Cleared(file[..headerSize], crcOffset))
  }

  /** A header is accepted exactly when its crc field holds the CRC of the header with zeros in that field. */
  lemma HeaderAcceptedIff(file: seq<bv8>, crcOffset: nat, headerSize: nat)
    requires crcOffset + 4 <= headerSize
    ensures HeaderAccepted(file, crcOffset, headerSize) <==>
            && |file| >= headerSize
            && WordAt(file, crcOffset) == Crc(file[..crcOffset] + [0, 0, 0, 0] + file[crcOffset + 4..headerSize])
  {
    hide Crc, Word;
    if |file| >= headerSize {
      assert Cleared(file[..headerSize], crcOffset) ==
             file[..crcOffset] + [0, 0, 0, 0] + file[crcOffset + 4..headerSize];
    }
  }

  /** So it is accepted once that CRC has been stored in the field, least significant octet first. */
  lemma SealedHeaderAccepted(file: seq<bv8>, crcOffset: nat, headerSize: nat)
    requires crcOffset + 4 <= headerSize <= |file|
    ensures var crc := Crc(file[..crcOffset] + [0, 0, 0, 0] + file[crcOffset + 4..headerSize]);
            HeaderAccepted(file[..crcOffset] + WordBytes(crc) + file[crcOffset + 4..], crcOffset, headerSize)
  {
    hide Crc, Word, ByteOf, HeaderAccepted;
    var zeroed := file[..crcOffset] + [0, 0, 0, 0] + file[crcOffset + 4..headerSize];
    var sealed := file[..crcOffset] + WordBytes(Crc(zeroed)) + file[crcOffset + 4..];
    WordOfBytes(Crc(zeroed));
    HeaderAcceptedIff(sealed, crcOffset, headerSize);
    assert sealed[..crcOffset] + [0, 0, 0, 0] + sealed[crcOffset + 4..headerSize] == zeroed;
  }

  /** A header that passes stops passing when a burst of up to 32 bits hits it anywhere but in the crc field. */
  lemma HeaderBurstRejected(file: seq<bv8>, damaged: seq<bv8>, crcOffset: nat, headerSize: nat, p: nat)
    requires crcOffset + 4 <= headerSize && HeaderAccepted(file, crcOffset, headerSize)
    requires |damaged| >= headerSize
    requires damaged[crcOffset..crcOffset + 4] == file[crcOffset..crcOffset + 4]
    requires damaged[..headerSize] != file[..headerSize]
    requires forall k | 0 <= k < 8 * headerSize && !(p <= k < p + 32) ::
               Bits(damaged[..headerSize])[k] == Bits(file[..headerSize])[k]
    ensures !HeaderAccepted(damaged, crcOffset, headerSize)
  {
    hide Bits, Crc, WordAt;
    var good, bad := file[..headerSize], damaged[..headerSize];
    assert bad[crcOffset..crcOffset + 4] == damaged[crcOffset..crcOffset + 4];
    assert good[crcOffset..crcOffset + 4] == file[crcOffset..crcOffset + 4];
    forall k | 0 <= k < 8 * headerSize && !(p <= k < p + 32)
      ensures Bits(Cleared(good, crcOffset))[k] == Bits(Cleared(bad, crcOffset))[k]
    {
      ClearedBit(good, bad, crcOffset, k);
    }
    if Cleared(good, crcOffset) == Cleared(bad, crcOffset) {
      ClearedDetermines(good, bad, crcOffset);
    }
    SameFieldWord(file, damaged, crcOffset);
    BurstDetected(Cleared(good, crcOffset), Cleared(bad, crcOffset), p);
  }

  lemma ClearedDetermines(s: seq<bv8>, t: seq<bv8>, at: nat)
    requires |s| == |t| && at + 4 <= |s|
    requires s[at..at + 4] == t[at..at + 4] && Cleared(s, at) == Cleared(t, at)
    ensures s == t
  {
    forall i | 0 <= i < |s| ensures s[i] == t[i] {
      if at <= i < at + 4 {
        assert s[i] == s[at..at + 4][i - at];
      } else {
        assert s[i] == Cleared(s, at)[i];
      }
    }
  }

  lemma SameFieldWord(s: seq<bv8>, t: seq<bv8>, at: nat)
    requires at + 4 <= |s| && at + 4 <= |t| && s[at..at + 4] == t[at..at + 4]
    ensures WordAt(s, at) == WordAt(t, at)
  {
    hide Word;
    assert s[at] == s[at..at + 4][0] && s[at + 1] == s[at..at + 4][1];
    assert s[at + 2] == s[at..at + 4][2] && s[at + 3] == s[at..at + 4][3];
  }

  lemma ClearedBit(s: seq<bv8>, t: seq<bv8>, at: nat, k: nat)
    requires |s| == |t| && at + 4 <= |s| && k < 8 * |s|
    requires Bits(s)[k] == Bits(t)[k]
    ensures Bits(Cleared(s, at))[k] == Bits(Cleared(t, at))[k]
  {
    hide BitsOf, Bits;
    var i := k / 8;
    BitAt(s, i, k - 8 * i);
    BitAt(t, i, k - 8 * i);
    BitAt(Cleared(s, at), i, k - 8 * i);
    BitAt(Cleared(t, at), i, k - 8 * i);
  }

  lemma BitAt(bytes: seq<bv8>, i: nat, j: nat)
    requires i < |bytes| && j < 8
    ensures Bits(bytes)[8 * i + j] == BitsOf(bytes[i])[j]
  {
    hide Bits;
    BitsAt(bytes, i);
    assert Bits(bytes)[8 * i + j] == Bits(bytes)[8 * i..8 * i + 8][j];
  }

  /** The firmware image reader: the CRC table is a field filled once by the constructor. */
  class ImageReader {
    const crc32Table: array<bv32>

    ghost predicate Valid()
      reads this, crc32Table
    {
      IsCrcTable(crc32Table[..])
    }

    constructor ()
      ensures Valid() && fresh(crc32Table)
    {
      crc32Table := new bv32[256];
      new;
      InitCrc32Table();
    }

    /** BeBoB::BCD::initCRC32Table */
    method InitCrc32Table()
      requires crc32Table.Length == 256
      modifies crc32Table
      ensures Valid()
    {
      hide TableEntry, Reflected, MsbStep, CrcTablePrefix, Bit;
      var i := 0;
      NoEntries(crc32Table[..0]);
      while i <= 0xff
        invariant 0 <= i <= 256
        invariant CrcTablePrefix(crc32Table[..i])
      {
        ghost var done := crc32Table[..i];
        var v := Reflect(i as bv32, 8);
        crc32Table[i] := v << 24;
        ghost var c := crc32Table[i];
        var j := 0;
        while j < 8
          invariant 0 <= j <= 8
          invariant crc32Table[i] == MsbSteps(c, j)
          invariant crc32Table[..i] == done
        {
          crc32Table[i] := MsbStep(crc32Table[i]);
          j := j + 1;
        }
        ghost var s := crc32Table[i];
        crc32Table[i] := Reflect(crc32Table[i], 32);
        NextGeneratedEntry(done, v, c, s, crc32Table[i]);
        assert crc32Table[..i + 1] == done + [crc32Table[i]];
        i := i + 1;
      }
      assert crc32Table[..] == crc32Table[..256];
    }

    /** BeBoB::BCD::getCRC */
    method GetCrc(text: seq<bv8>) returns (crc: bv32)
      requires Valid()
      ensures crc == Crc(text)
    {
      hide IsCrcTable, Mix, TableIndex, TableStep;
      crc := 0xffffffff;
      var len, k := |text|, 0;
      while len > 0
        invariant 0 <= len && 0 <= k && k + len == |text|
        invariant crc == Fold(TableStep, INITIAL_REMAINDER, text[..k])
      {
        TableLength(crc32Table[..]);
        var entry := crc32Table[TableIndex(crc, text[k]) as int];
        LookUpNext(crc32Table[..], text, k, crc, entry);
        crc := Mix(crc, entry);
        len, k := len - 1, k + 1;
      }
      assert text[..k] == text;
      FastCrcRefinesCrc(text);
      crc := crc ^ 0xffffffff;
    }

    /** BeBoB::BCD::checkHeaderCRC; reading past the end of the file fails. */
    method CheckHeaderCrc(file: seq<bv8>, crcOffset: nat, headerSize: nat) returns (ok: bool)
      requires Valid() && crcOffset + 4 <= headerSize
      ensures ok <==> HeaderAccepted(file, crcOffset, headerSize)
    {
      hide Crc, Word, IsCrcTable;
      if crcOffset + 4 > |file| {
        return false;
      }
      var headerCrc := WordAt(file, crcOffset);
      if headerSize > |file| {
        return false;
      }
      var buf := file[..headerSize];
      buf := buf[crcOffset := 0];
      buf := buf[crcOffset + 1 := 0];
      buf := buf[crcOffset + 2 := 0];
      buf := buf[crcOffset + 3 := 0];
      var calcCrc := GetCrc(buf);
      if headerCrc != calcCrc {
        return false;
      }
      return true;
    }
  }
}
