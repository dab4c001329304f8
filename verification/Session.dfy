/**
 The session block of a Fireworks device (fireworks_session_block.cpp): a header and a
 sub-session kept in flash, guarded by a CRC over everything but the first two fields.
 */
module Session {
  import opened Folds
  import opened Crc32
  import Bcd
  import opened EchoTable
  import opened Quadlets
  import opened Flash
  import opened Ranges

  // sizeof(SessionHeader): 8 fields, 40 x 40 + 40 + 40 gains, two channel maps of 70 quadlets
  const HEADER_BYTES: nat := 4 * (8 + 1600 + 40 + 40 + 2 * 70)
  // sizeof(SubSession): three times 40 settings of 24 bytes, two 40 x 40 byte matrices
  const SUBSESSION_BYTES: nat := 3 * 40 * 24 + 2 * 1600
  const SESSION_BYTES: nat := HEADER_BYTES + SUBSESSION_BYTES
  const SESSION_QUADS: nat := SESSION_BYTES / 4
  const CRC_OFFSET: nat := 4
  const CRC_START_OFFSET_BYTES: nat := 8

  /** What the CRC guards: a session block without its size and crc fields. */
  function Guarded(block: seq<bv8>): seq<bv8>
    requires |block| >= SESSION_BYTES
  {
    block[CRC_START_OFFSET_BYTES..SESSION_BYTES]
  }

  /** The sizes of the two parts, and what is guarded of a block: all but its first two quadlets */
  lemma SessionLayout(block: seq<bv8>)
    requires |block| == SESSION_BYTES
    ensures HEADER_BYTES == 7312 && SUBSESSION_BYTES == 6080 && SESSION_QUADS == 3348
    ensures Guarded(block) == block[8..]
  {}

  /** The header with its crc field replaced. */
  function WithCrc(h: seq<bv8>, crc: bv32): (r: seq<bv8>)
    requires |h| == HEADER_BYTES
    ensures |r| == HEADER_BYTES
  {
    h[..CRC_OFFSET] + WordBytes(crc) + h[CRC_OFFSET + 4..]
  }

  /** The crc field agrees with the rest of the block. */
  predicate Consistent(h: seq<bv8>, s: seq<bv8>)
    requires |h| == HEADER_BYTES && |s| == SUBSESSION_BYTES
  {
    WordAt(h, CRC_OFFSET) == Crc(Guarded(h + s))
  }

  /** The crc field is the second quadlet; the size before it and everything behind it are kept. */
  lemma HeaderWithCrc(h: seq<bv8>, crc: bv32)
    requires |h| == HEADER_BYTES
    ensures var r := WithCrc(h, crc);
            r[..4] == h[..4] && WordAt(r, 4) == crc && r[8..] == h[8..]
  {
    WordOfBytes(crc);
    hide Word, ByteOf;
    assert WithCrc(h, crc)[4..8] == WordBytes(crc);
  }

  /** Storing the CRC does not change it, because the crc field is not guarded. */
  lemma StoredCrcIsConsistent(h: seq<bv8>, s: seq<bv8>)
    requires |h| == HEADER_BYTES && |s| == SUBSESSION_BYTES
    ensures Consistent(WithCrc(h, Crc(Guarded(h + s))), s)
  {
    hide Crc, Word, ByteOf;
    var crc := Crc(Guarded(h + s));
    var h' := WithCrc(h, crc);
    assert Guarded(h' + s) == Guarded(h + s);
    WordOfBytes(crc);
  }

  /** A consistent session with the same crc field cannot differ by a burst of up to 32 bits. */
  lemma SessionBurstDetected(h: seq<bv8>, s: seq<bv8>, h': seq<bv8>, s': seq<bv8>, p: nat)
    requires |h| == |h'| == HEADER_BYTES && |s| == |s'| == SUBSESSION_BYTES
    requires Consistent(h, s) && h'[..CRC_START_OFFSET_BYTES] == h[..CRC_START_OFFSET_BYTES]
    requires Guarded(h' + s') != Guarded(h + s)
    requires forall k | 0 <= k < 8 * |Guarded(h + s)| && !(p <= k < p + 32) ::
               Bits(Guarded(h + s))[k] == Bits(Guarded(h' + s'))[k]
    ensures !Consistent(h', s')
  {
    hide Crc, Word, Bits;
    BurstDetected(Guarded(h + s), Guarded(h' + s'), p);
    assert WordAt(h, CRC_OFFSET) == WordAt(h', CRC_OFFSET) by {
      forall i | 0 <= i < 8 ensures h[i] == h'[i] {
        assert h[..CRC_START_OFFSET_BYTES][i] == h'[..CRC_START_OFFSET_BYTES][i];
      }
    }
  }

  lemma LookUpNext(data: seq<bv8>, k: nat, remainder: bv32, entry: bv32)
    requires k < |data|
    requires |ECHO_SESSION_CRC_TABLE| == 256 && entry == ECHO_SESSION_CRC_TABLE[TableIndex(remainder, data[k]) as int]
    requires remainder == Fold(TableStep, INITIAL_REMAINDER, data[..k])
    ensures Mix(remainder, entry) == Fold(TableStep, INITIAL_REMAINDER, data[..k + 1])
  {
    hide *;
    EchoTableIsCrcTable();
    Bcd.LookUpNext(ECHO_SESSION_CRC_TABLE, data, k, remainder, entry);
  }

  lemma NothingFed(data: seq<bv8>)
    ensures Fold(TableStep, INITIAL_REMAINDER, data[..0]) == 0xFFFFFFFF
  {}

  lemma Completed(data: seq<bv8>, remainder: bv32)
    requires remainder == Fold(TableStep, INITIAL_REMAINDER, data[..|data|])
    ensures remainder ^ 0xFFFFFFFF == Crc(data)
  {
    hide TableStep, Fold, Crc;
    assert data[..|data|] == data;
    FastCrcRefinesCrc(data);
  }

  lemma EchoTableLength()
    ensures |ECHO_SESSION_CRC_TABLE| == 256
  {
    EchoTableIsCrcTable();
  }

  /** Writing over erased cells stores the data exactly. */
  lemma ProgrammedOverErased(mem: seq<bv32>, start: nat, data: seq<bv32>)
    requires start % 4 == 0 && start / 4 + |data| <= |mem|
    requires ErasedBetween(mem, start / 4, start / 4 + |data|)
    ensures Range(Splice(mem, start / 4, Programmed(mem, start / 4, data)), start, |data|) == data
  {
    forall i | 0 <= i < |data| ensures mem[start / 4 + i] & data[i] == data[i] {
      assert mem[start / 4 + i] == ERASED;
    }
  }

  lemma WriteWithinErased(before: seq<bv32>, empty: seq<bv32>, after: seq<bv32>, start: nat)
    requires start < FLASH_SIZE_BYTES && BlockStart(start) + SESSION_BYTES <= FLASH_SIZE_BYTES
    requires |before| == FLASH_SIZE_QUADS
    requires SameOutside(before, empty, BlockStart(start) / 4, ErasedQuads(start, SESSION_QUADS))
    requires SameOutside(empty, after, start / 4, SESSION_QUADS)
    ensures BlockStart(start) == start ==>
              SameOutside(before, after, start / 4, ErasedQuads(start, SESSION_QUADS))
    ensures SameOutside(before, after, BlockStart(start) / 4, TouchedQuads(start))
  {
    ReachWithinFlash(start, SESSION_QUADS);
    hide BlockStart, ErasedQuads;
    TouchedCovers(start);
  }

  /** The quadlets from the first erased block on that are erased or written for a session at this address */
  function TouchedQuads(start: nat): nat {
    var written := (start - BlockStart(start)) / 4 + SESSION_QUADS;
    if ErasedQuads(start, SESSION_QUADS) < written then written else ErasedQuads(start, SESSION_QUADS)
  }

  lemma TouchedCovers(start: nat)
    ensures ErasedQuads(start, SESSION_QUADS) <= TouchedQuads(start)
    ensures start / 4 + SESSION_QUADS <= BlockStart(start) / 4 + TouchedQuads(start)
  {
    hide ErasedQuads;
  }

  lemma EraseWithinTouched(before: seq<bv32>, after: seq<bv32>, start: nat)
    requires SameOutside(before, after, BlockStart(start) / 4, ErasedQuads(start, SESSION_QUADS))
    ensures SameOutside(before, after, BlockStart(start) / 4, TouchedQuads(start))
  {
    TouchedCovers(start);
    hide TouchedQuads, BlockStart, ErasedQuads;
  }

  lemma WholeSplice(buffer: seq<bv32>, data: seq<bv32>)
    requires |buffer| == |data|
    ensures Splice(buffer, 0, data) == data
  {}

  /** The flash holds a session block at this address. */
  ghost predicate Stores(mem: seq<bv32>, base: nat, block: seq<bv8>) {
    && base % 4 == 0 && base / 4 + SESSION_QUADS <= |mem| && |block| == SESSION_BYTES
    && Range(mem, base, SESSION_QUADS) == Pack(block)
  }

  // ----- when saving and loading succeed -----

  /** The command after one to lock or unlock the flash, which hardware with a DSP does not get */
  function LockEnd(hasDsp: bool, t: nat): nat {
    if hasDsp then t else t + 1
  }

  /** From time t on: locked, every block emptied at the first attempt, every chunk written, unlocked. */
  ghost predicate StoreGood(script: nat -> Reply, hasDsp: bool, start: nat, t: nat) {
    && (hasDsp || script(t).ok) && ValidRange(start, SESSION_QUADS)
    && EraseGood(script, LockEnd(hasDsp, t), start, SESSION_QUADS)
    && var written := EraseEnd(script, LockEnd(hasDsp, t), start, SESSION_QUADS);
       && AllOk(script, written, Chunks(SESSION_QUADS))
       && (hasDsp || script(written + Chunks(SESSION_QUADS)).ok)
  }

  ghost function StoreEnd(script: nat -> Reply, hasDsp: bool, start: nat, t: nat): nat
    requires StoreGood(script, hasDsp, start, t)
  {
    LockEnd(hasDsp, EraseEnd(script, LockEnd(hasDsp, t), start, SESSION_QUADS) + Chunks(SESSION_QUADS))
  }

  /** The device tells a session base other than zero, and storing the session there succeeds. */
  ghost predicate SaveGood(script: nat -> Reply, hasDsp: bool, base: nat, t: nat) {
    script(t).ok && base > 0 && StoreGood(script, hasDsp, base, t + 1)
  }

  ghost function SaveEnd(script: nat -> Reply, hasDsp: bool, base: nat, t: nat): nat
    requires SaveGood(script, hasDsp, base, t)
  {
    StoreEnd(script, hasDsp, base, t + 1)
  }

  /** The device tells a session base other than zero, and reading the session from there is accepted. */
  ghost predicate LoadGood(script: nat -> Reply, base: nat, t: nat) {
    script(t).ok && base > 0 && ValidRange(base, SESSION_QUADS) && EveryChunkPasses(script, t + 1, SESSION_QUADS)
  }

  class Session {
    var h: seq<bv8>
    var s: seq<bv8>

    ghost predicate Valid()
      reads this
    {
      |h| == HEADER_BYTES && |s| == SUBSESSION_BYTES
    }

    constructor (h: seq<bv8>, s: seq<bv8>)
      requires |h| == HEADER_BYTES && |s| == SUBSESSION_BYTES
      ensures Valid() && this.h == h && this.s == s
    {
      this.h, this.s := h, s;
    }

    /** Session::calculateCRC on a memory block. */
    static method CalculateCrcOf(memblock: seq<bv8>, maxLen: nat) returns (crc: bv32)
      requires maxLen <= |memblock|
      ensures crc == if maxLen < SESSION_BYTES then 0 else Crc(Guarded(memblock))
    {
      hide Mix, TableIndex, TableStep, Fold, Crc, ECHO_SESSION_CRC_TABLE;
      if maxLen < SESSION_BYTES {
        return 0;
      }
      ghost var guarded := Guarded(memblock);
      var remainder: bv32 := 0xFFFFFFFF;
      var data := CRC_START_OFFSET_BYTES;
      var bytecount := SESSION_BYTES - CRC_START_OFFSET_BYTES;
      EchoTableLength();
      NothingFed(guarded);
      while bytecount > 0
        invariant 0 <= bytecount <= |guarded| && data + bytecount == SESSION_BYTES
        invariant remainder == Fold(TableStep, INITIAL_REMAINDER, guarded[..|guarded| - bytecount])
      {
        var entry := ECHO_SESSION_CRC_TABLE[TableIndex(remainder, memblock[data]) as int];
        LookUpNext(guarded, |guarded| - bytecount, remainder, entry);
        remainder := Mix(remainder, entry);
        data := data + 1;
        bytecount := bytecount - 1;
      }
      Completed(guarded, remainder);
      return remainder ^ 0xFFFFFFFF;
    }

    /** Session::calculateCRC on the session itself. */
    method CalculateCrc() returns (crc: bv32)
      requires Valid()
      ensures crc == Crc(Guarded(h + s))
    {
      crc := CalculateCrcOf(h + s, SESSION_BYTES);
    }

    /** Session::loadFromMemory; a wrong size field is only warned about. */
    method LoadFromMemory(buff: seq<bv8>, len: nat) returns (ok: bool)
      requires Valid() && len <= |buff|
      modifies this
      ensures Valid()
      ensures ok <==> len == SESSION_BYTES
      ensures if ok then h + s == buff[..len] else h == old(h) && s == old(s)
    {
      if len != SESSION_BYTES {
        return false;
      }
      h := buff[..HEADER_BYTES];
      s := buff[HEADER_BYTES..SESSION_BYTES];
      return true;
    }

    /** Session::saveToMemory */
    method SaveToMemory(maxLen: nat) returns (ok: bool, buff: seq<bv8>)
      requires Valid()
      ensures ok <==> maxLen >= SESSION_BYTES
      ensures ok ==> buff == h + s
    {
      buff := [];
      if maxLen < SESSION_BYTES {
        return false, buff;
      }
      buff := h + s;
      return true, buff;
    }

    /** The flash half of saveToDevice: lock, erase, write, unlock. */
    static method StoreBlock(d: Device, start: nat, data: array<bv32>) returns (ok: bool)
      requires d.Valid() && start + SESSION_BYTES <= FLASH_SIZE_BYTES && data.Length == SESSION_QUADS
      modifies d
      ensures d.Valid()
      ensures StoreGood(d.script, d.hasDsp, start, old(d.now)) ==>
                ok && d.truncated == old(d.truncated) && d.now == StoreEnd(d.script, d.hasDsp, start, old(d.now))
      ensures ok && !d.truncated ==> StoreGood(d.script, d.hasDsp, start, old(d.now))
      ensures ok ==> start % 4 == 0
      ensures ok ==> d.locks == old(d.locks) + if d.hasDsp then [] else [(old(d.now), true), (d.now - 1, false)]
      ensures ok && BlockStart(start) == start && !d.truncated ==> Range(d.mem, start, SESSION_QUADS) == data[..]
      ensures BlockStart(start) == start ==>
                SameOutside(old(d.mem), d.mem, start / 4, ErasedQuads(start, SESSION_QUADS))
      ensures SameOutside(old(d.mem), d.mem, BlockStart(start) / 4, TouchedQuads(start))
      ensures old(d.truncated) ==> d.truncated
      ensures AlwaysAnswers(d.script) ==> d.truncated == old(d.truncated)
    {
      hide AlwaysAnswers, BlockStart, ReachEnd, ErasedQuads, SameOutside, Splice;
      hide Programmed, Range, Chunks, AllOk, EraseGood, EraseEnd;
      SameMemory(d.mem, start / 4, ErasedQuads(start, SESSION_QUADS));
      SameMemory(d.mem, BlockStart(start) / 4, TouchedQuads(start));
      var locked := d.LockFlash(true);
      if !locked {
        return false;
      }
      var erased := d.EraseFlashBlocks(start, SESSION_QUADS);
      EraseWithinTouched(old(d.mem), d.mem, start);
      if !erased {
        return false;
      }
      ghost var empty := d.mem;
      var written := d.WriteFlash(start, SESSION_QUADS, data);
      WriteWithinErased(old(d.mem), empty, d.mem, start);
      if !written {
        return false;
      }
      if BlockStart(start) == start && !d.truncated {
        assert data[..] == data[..SESSION_QUADS];
        ProgrammedOverErased(empty, start, data[..]);
      }
      ok := d.LockFlash(false);
    }

    /** Session::saveToDevice */
    method SaveToDevice(d: Device) returns (ok: bool)
      requires Valid() && d.Valid() && d.sessionBase + SESSION_BYTES <= FLASH_SIZE_BYTES
      modifies this, d
      ensures Valid() && d.Valid() && s == old(s)
      ensures h == old(h) || h == WithCrc(old(h), Crc(Guarded(old(h) + old(s))))
      ensures ok ==> h == WithCrc(old(h), Crc(Guarded(old(h) + old(s))))
      ensures SaveGood(d.script, d.hasDsp, d.sessionBase, old(d.now)) ==>
                && ok && d.truncated == old(d.truncated)
                && d.now == SaveEnd(d.script, d.hasDsp, d.sessionBase, old(d.now))
      ensures ok && !d.truncated ==> SaveGood(d.script, d.hasDsp, d.sessionBase, old(d.now))
      ensures ok ==> d.sessionBase > 0 && d.sessionBase % 4 == 0
      ensures ok ==> d.locks == old(d.locks) + if d.hasDsp then [] else [(old(d.now) + 1, true), (d.now - 1, false)]
      ensures ok && BlockStart(d.sessionBase) == d.sessionBase && !d.truncated ==>
                Stores(d.mem, d.sessionBase, h + s)
      ensures BlockStart(d.sessionBase) == d.sessionBase ==>
                SameOutside(old(d.mem), d.mem, d.sessionBase / 4, ErasedQuads(d.sessionBase, SESSION_QUADS))
      ensures SameOutside(old(d.mem), d.mem, BlockStart(d.sessionBase) / 4, TouchedQuads(d.sessionBase))
      ensures old(d.truncated) ==> d.truncated
      ensures AlwaysAnswers(d.script) ==> d.truncated == old(d.truncated)
    {
      hide AlwaysAnswers, BlockStart, ReachEnd, ErasedQuads, SameOutside, Range;
      hide WithCrc, Crc, Guarded, StoreGood, StoreEnd;
      var len := SESSION_BYTES;
      SameMemory(d.mem, d.sessionBase / 4, ErasedQuads(d.sessionBase, SESSION_QUADS));
      SameMemory(d.mem, BlockStart(d.sessionBase) / 4, TouchedQuads(d.sessionBase));
      var start := d.GetSessionBase();
      if start == 0 {
        return false;
      }
      var crc := CalculateCrc();
      h := WithCrc(h, crc);
      var saved, bytes := SaveToMemory(len);
      if !saved {
        return false;
      }
      var data := new bv32[len / 4](i requires 0 <= i < len / 4 && |bytes| == len => WordAt(bytes, 4 * i));
      assert data[..] == Pack(bytes);
      ok := StoreBlock(d, start, data);
    }

    /** Session::loadFromDevice */
    method LoadFromDevice(d: Device) returns (ok: bool)
      requires Valid() && d.Valid() && d.sessionBase + SESSION_BYTES <= FLASH_SIZE_BYTES
      modifies this, d`now, d`truncated
      ensures Valid() && d.Valid()
      ensures ok <==> LoadGood(d.script, d.sessionBase, old(d.now))
      ensures ok ==> d.sessionBase > 0 && d.sessionBase % 4 == 0 && d.script(old(d.now)).ok
      ensures ok && !d.truncated ==>
                d.sessionBase % 4 == 0 && h + s == Unpack(Range(d.mem, d.sessionBase, SESSION_QUADS))
      ensures !ok ==> h == old(h) && s == old(s)
      ensures old(d.truncated) ==> d.truncated
      ensures AlwaysAnswers(d.script) ==> d.truncated == old(d.truncated)
    {
      hide AlwaysAnswers, Unpack, Range, Splice, EveryChunkCompletes, EveryChunkPasses;
      var len := SESSION_BYTES;
      var start := d.GetSessionBase();
      if start == 0 {
        return false;
      }
      var data := new bv32[len / 4];
      ghost var before := data[..];
      var gotIt := d.ReadFlash(start, len / 4, data);
      if !gotIt {
        return false;
      }
      if !d.truncated {
        WholeSplice(before, Range(d.mem, start, len / 4));
      }
      ok := LoadFromMemory(Unpack(data[..]), len);
    }
  }

  /**
   Save one session and load another from the same device. When no read is cut short unnoticed, both
   succeed exactly when the device plays along, and then the second session becomes the first.
   */
  method SaveThenLoad(saved: Session, loaded: Session, d: Device) returns (ok: bool)
    requires saved.Valid() && loaded.Valid() && d.Valid() && saved != loaded
    requires d.sessionBase + SESSION_BYTES <= FLASH_SIZE_BYTES
    modifies saved, loaded, d
    ensures saved.Valid() && loaded.Valid()
    ensures !d.truncated ==>
              (ok <==> && SaveGood(d.script, d.hasDsp, d.sessionBase, old(d.now))
                       && LoadGood(d.script, d.sessionBase, SaveEnd(d.script, d.hasDsp, d.sessionBase, old(d.now))))
    ensures ok && BlockStart(d.sessionBase) == d.sessionBase && !d.truncated ==>
              && loaded.h == saved.h == WithCrc(old(saved.h), Crc(Guarded(old(saved.h) + old(saved.s))))
              && loaded.s == saved.s == old(saved.s)
              && Consistent(loaded.h, loaded.s)
    ensures AlwaysAnswers(d.script) ==> d.truncated == old(d.truncated)
  {
    hide AlwaysAnswers, Crc, Guarded, WithCrc, Pack, Unpack, BlockStart, Consistent, Range, SameOutside;
    hide SaveGood, SaveEnd, LoadGood;
    ok := saved.SaveToDevice(d);
    if ok {
      ok := loaded.LoadFromDevice(d);
      if ok && BlockStart(d.sessionBase) == d.sessionBase && !d.truncated {
        UnpackPack(saved.h + saved.s);
        StoredCrcIsConsistent(old(saved.h), old(saved.s));
        assert loaded.h == (loaded.h + loaded.s)[..HEADER_BYTES] == (saved.h + saved.s)[..HEADER_BYTES];
        assert loaded.s == (loaded.h + loaded.s)[HEADER_BYTES..] == (saved.h + saved.s)[HEADER_BYTES..];
      }
    }
  }

  /** On a device that carries out every command at once, saving and loading both succeed. */
  lemma ObligingDeviceSaves(script: nat -> Reply, hasDsp: bool, base: nat, t: nat)
    requires Obliging(script) && base > 0 && ValidRange(base, SESSION_QUADS)
    ensures SaveGood(script, hasDsp, base, t)
    ensures LoadGood(script, base, SaveEnd(script, hasDsp, base, t))
  {
    hide EraseGood, EraseEnd, EveryChunkCompletes, EveryChunkPasses, Chunks;
    ObligingErases(script, LockEnd(hasDsp, t + 1), base, SESSION_QUADS);
    var end := SaveEnd(script, hasDsp, base, t);
    ObligingCompletes(script, end + 1, SESSION_QUADS);
    CompletePasses(script, end + 1, SESSION_QUADS);
  }
}
