/**
 The flash memory of a Fireworks device (fireworks_device.cpp): chunked writes, chunked reads
 with short replies, erasing over two block sizes with read-back, and waiting for the device.
 */
module Flash {
  import opened Ranges

  // EFC_FLASH_SIZE_QUADS, and the map of the flash part
  const CHUNK_QUADS: nat := 64
  const CHUNK_BYTES: nat := 4 * CHUNK_QUADS
  const PROGRAMBLOCK_SIZE_BYTES: nat := 0x2000
  const MAINBLOCK_SIZE_BYTES: nat := 0x10000
  const MAINBLOCKS_BASE_OFFSET_BYTES: nat := 0x10000
  const FLASH_SIZE_BYTES: nat := 0x200000
  const FLASH_SIZE_QUADS: nat := FLASH_SIZE_BYTES / 4
  const ERASED: bv32 := 0xFFFFFFFF

  const MAX_READS: nat := 10000
  const MAX_ERASE_TRIES: nat := 10
  const ERASE_TIMEOUT_MILLISECS: nat := 2000

  /**
   What a device answers to one command: was it carried out, did it report FlashBusy. `quads` is how
   many quadlets it is willing to return to a read; `cells` is what an erase, or a write that fails,
   leaves in the cells it touches.
   */
  datatype Reply = Reply(ok: bool, busy: bool, quads: nat, cells: nat -> bv32)

  // ----- reading one chunk -----

  /** The first n replies from command t on all succeed. */
  ghost predicate AllOk(script: nat -> Reply, t: nat, n: nat) {
    forall i: nat | t <= i < t + n :: script(i).ok
  }

  /** Quadlets received by the first n replies to a request for need quadlets. */
  function Received(script: nat -> Reply, t: nat, need: nat, n: nat): (got: nat)
    ensures got <= need
  {
    if n == 0 then 0 else
      var before := Received(script, t, need, n - 1);
      before + Min(script(t + n - 1).quads, need - before)
  }

  /** The n-th reply, and no earlier one, completes the request. */
  ghost predicate CompletesAt(script: nat -> Reply, t: nat, need: nat, n: nat) {
    && 0 < n && AllOk(script, t, n)
    && Received(script, t, need, n) == need
    && Received(script, t, need, n - 1) < need
  }

  /** The request is abandoned because reply n + 1 reports a failure. */
  ghost predicate Fails(script: nat -> Reply, t: nat, need: nat, n: nat) {
    n <= MAX_READS && !script(t + n).ok && Received(script, t, need, n) < need
  }

  lemma ReceivedNext(script: nat -> Reply, t: nat, need: nat, n: nat)
    ensures Received(script, t, need, 0) == 0
    ensures Received(script, t, need, n + 1) ==
            Received(script, t, need, n) + Min(script(t + n).quads, need - Received(script, t, need, n))
  {}

  lemma {:induction false} ReceivedGrows(script: nat -> Reply, t: nat, need: nat, m: nat, n: nat)
    requires m <= n
    ensures Received(script, t, need, m) <= Received(script, t, need, n)
    decreases n
  {
    if m < n {
      ReceivedGrows(script, t, need, m, n - 1);
    }
  }

  lemma CompletesOnce(script: nat -> Reply, t: nat, need: nat, m: nat, n: nat)
    requires CompletesAt(script, t, need, m) && CompletesAt(script, t, need, n)
    ensures m == n
  {
    if m < n {
      ReceivedGrows(script, t, need, m, n - 1);
    } else if n < m {
      ReceivedGrows(script, t, need, n, m - 1);
    }
  }

  // ----- reading a range -----

  /** Every chunk of a range completes within the 10000 reads the loop allows. */
  ghost predicate EveryChunkCompletes(script: nat -> Reply, t: nat, quads: nat)
    decreases quads
  {
    quads == 0 ||
    var need := Min(quads, CHUNK_QUADS);
    exists n: nat | n <= MAX_READS ::
      CompletesAt(script, t, need, n) && EveryChunkCompletes(script, t + n, quads - need)
  }

  /** The command after a range has been read completely. */
  ghost function ReadEnd(script: nat -> Reply, t: nat, quads: nat): nat
    requires EveryChunkCompletes(script, t, quads)
    decreases quads
  {
    if quads == 0 then t else
      var need := Min(quads, CHUNK_QUADS);
      var n: nat :| n <= MAX_READS && CompletesAt(script, t, need, n)
                    && EveryChunkCompletes(script, t + n, quads - need);
      ReadEnd(script, t + n, quads - need)
  }

  /** A chunk still short after one read more than allowed: the loop gives up without an error. */
  ghost predicate StaysShort(script: nat -> Reply, t: nat, need: nat) {
    AllOk(script, t, MAX_READS + 1) && Received(script, t, need, MAX_READS + 1) < need
  }

  /** What the code accepts as success: each chunk completes in time or is silently left short. */
  ghost predicate EveryChunkPasses(script: nat -> Reply, t: nat, quads: nat)
    decreases quads
  {
    quads == 0 ||
    var need := Min(quads, CHUNK_QUADS);
    || (StaysShort(script, t, need) && EveryChunkPasses(script, t + MAX_READS + 1, quads - need))
    || exists n: nat | n <= MAX_READS ::
         CompletesAt(script, t, need, n) && EveryChunkPasses(script, t + n, quads - need)
  }

  lemma CompleteNotShort(script: nat -> Reply, t: nat, need: nat, n: nat)
    requires CompletesAt(script, t, need, n) && n <= MAX_READS + 1
    ensures !StaysShort(script, t, need)
  {
    ReceivedGrows(script, t, need, n, MAX_READS + 1);
  }

  lemma FailsThenNever(script: nat -> Reply, t: nat, need: nat, n: nat)
    requires Fails(script, t, need, n)
    ensures !StaysShort(script, t, need)
    ensures forall m: nat :: !CompletesAt(script, t, need, m)
  {
    forall m: nat ensures !CompletesAt(script, t, need, m) {
      if m <= n {
        ReceivedGrows(script, t, need, m, n);
      }
    }
  }

  lemma ChunkCompleted(script: nat -> Reply, t: nat, quads: nat, n: nat)
    requires quads > 0 && n <= MAX_READS && CompletesAt(script, t, Min(quads, CHUNK_QUADS), n)
    ensures EveryChunkPasses(script, t, quads) == EveryChunkPasses(script, t + n, quads - Min(quads, CHUNK_QUADS))
    ensures EveryChunkCompletes(script, t, quads) == EveryChunkCompletes(script, t + n, quads - Min(quads, CHUNK_QUADS))
    ensures EveryChunkCompletes(script, t, quads) ==>
              ReadEnd(script, t, quads) == ReadEnd(script, t + n, quads - Min(quads, CHUNK_QUADS))
  {
    hide CompletesAt, StaysShort;
    var need := Min(quads, CHUNK_QUADS);
    CompleteNotShort(script, t, need, n);
    forall m: nat | CompletesAt(script, t, need, m) ensures m == n {
      CompletesOnce(script, t, need, m, n);
    }
  }

  lemma ChunkLeftShort(script: nat -> Reply, t: nat, quads: nat)
    requires quads > 0 && StaysShort(script, t, Min(quads, CHUNK_QUADS))
    ensures EveryChunkPasses(script, t, quads) ==
            EveryChunkPasses(script, t + MAX_READS + 1, quads - Min(quads, CHUNK_QUADS))
    ensures !EveryChunkCompletes(script, t, quads)
  {
    hide CompletesAt, StaysShort;
    var need := Min(quads, CHUNK_QUADS);
    forall m: nat | m <= MAX_READS ensures !CompletesAt(script, t, need, m) {
      if CompletesAt(script, t, need, m) {
        CompleteNotShort(script, t, need, m);
      }
    }
  }

  /** A chunk that completes on the very last read, or meets a failed command, ends the whole read. */
  lemma ChunkRejected(script: nat -> Reply, t: nat, quads: nat, n: nat)
    requires quads > 0
    requires CompletesAt(script, t, Min(quads, CHUNK_QUADS), MAX_READS + 1)
          || Fails(script, t, Min(quads, CHUNK_QUADS), n)
    ensures !EveryChunkPasses(script, t, quads) && !EveryChunkCompletes(script, t, quads)
  {
    hide CompletesAt, StaysShort, Fails;
    var need := Min(quads, CHUNK_QUADS);
    if Fails(script, t, need, n) {
      FailsThenNever(script, t, need, n);
    } else {
      CompleteNotShort(script, t, need, MAX_READS + 1);
      forall m: nat | CompletesAt(script, t, need, m) ensures m == MAX_READS + 1 {
        CompletesOnce(script, t, need, m, MAX_READS + 1);
      }
    }
  }

  // ----- when the accepted reads are the complete ones -----

  /** The device never answers a read with no data at all. */
  ghost predicate AlwaysAnswers(script: nat -> Reply) {
    forall i: nat :: script(i).quads >= 1
  }

  lemma {:induction false} ReceivedAtLeast(script: nat -> Reply, t: nat, need: nat, n: nat)
    requires AlwaysAnswers(script)
    ensures Received(script, t, need, n) >= Min(n, need)
  {
    if n > 0 {
      ReceivedAtLeast(script, t, need, n - 1);
    }
  }

  lemma NeverShort(script: nat -> Reply, t: nat, need: nat)
    requires AlwaysAnswers(script) && need <= CHUNK_QUADS
    ensures !StaysShort(script, t, need)
  {
    ReceivedAtLeast(script, t, need, MAX_READS + 1);
  }

  /** A device that never answers a read with nothing is never left short without an error. */
  lemma {:induction false} AnsweredReadsComplete(script: nat -> Reply, t: nat, quads: nat)
    requires AlwaysAnswers(script) && EveryChunkPasses(script, t, quads)
    ensures EveryChunkCompletes(script, t, quads)
    decreases quads
  {
    hide AlwaysAnswers, StaysShort, CompletesAt;
    if quads > 0 {
      var need := Min(quads, CHUNK_QUADS);
      NeverShort(script, t, need);
      var n: nat :| n <= MAX_READS && CompletesAt(script, t, need, n) && EveryChunkPasses(script, t + n, quads - need);
      AnsweredReadsComplete(script, t + n, quads - need);
    }
  }

  /** A complete read is accepted. */
  lemma {:induction false} CompletePasses(script: nat -> Reply, t: nat, quads: nat)
    requires EveryChunkCompletes(script, t, quads)
    ensures EveryChunkPasses(script, t, quads)
    decreases quads
  {
    hide StaysShort, CompletesAt;
    if quads > 0 {
      var need := Min(quads, CHUNK_QUADS);
      var n: nat :| n <= MAX_READS && CompletesAt(script, t, need, n)
                    && EveryChunkCompletes(script, t + n, quads - need);
      CompletePasses(script, t + n, quads - need);
    }
  }

  lemma {:induction false} NothingReceived(script: nat -> Reply, t: nat, need: nat, n: nat)
    requires forall i: nat | t <= i < t + n :: script(i).quads == 0
    ensures Received(script, t, need, n) == 0
  {
    if n > 0 {
      NothingReceived(script, t, need, n - 1);
    }
  }

  /** The loop guard's bound does not catch exhaustion: empty answers read as success, with no data. */
  lemma ExhaustionIsNotCaught(script: nat -> Reply, t: nat)
    requires forall i: nat :: script(i).ok && script(i).quads == 0
    ensures EveryChunkPasses(script, t, 1) && !EveryChunkCompletes(script, t, 1)
  {
    NothingReceived(script, t, 1, MAX_READS + 1);
    AllRead(script, t + MAX_READS + 1);
    forall n: nat ensures !CompletesAt(script, t, 1, n) {
      NothingReceived(script, t, 1, n);
    }
  }

  /** It catches instead a read whose last quadlet arrives with the very last reply. */
  lemma LastReplyIsRejected(script: nat -> Reply, t: nat)
    requires forall i: nat :: script(i).ok
    requires forall i: nat | t <= i < t + MAX_READS :: script(i).quads == 0
    requires script(t + MAX_READS).quads == 1
    ensures Received(script, t, 1, MAX_READS + 1) == 1 && !EveryChunkPasses(script, t, 1)
  {
    NothingReceived(script, t, 1, MAX_READS);
    assert CompletesAt(script, t, 1, MAX_READS + 1);
    ChunkRejected(script, t, 1, 0);
  }

  lemma AllRead(script: nat -> Reply, t: nat)
    ensures EveryChunkPasses(script, t, 0) && EveryChunkCompletes(script, t, 0) && ReadEnd(script, t, 0) == t
  {}

  predicate ValidRange(start: nat, quads: nat) {
    quads > 0 && start + 4 * quads <= 0xFFFFFFFF && start % 4 == 0
  }

  /** The quadlets of the address range. */
  function Range(mem: seq<bv32>, start: nat, quads: nat): (r: seq<bv32>)
    requires start % 4 == 0 && start / 4 + quads <= |mem|
    ensures |r| == quads
  {
    mem[start / 4..start / 4 + quads]
  }

  lemma RangeOn(mem: seq<bv32>, start: nat, m: nat, n: nat)
    requires start % 4 == 0 && start / 4 + m + n <= |mem|
    ensures Range(mem, start, m + n) == Range(mem, start, m) + Range(mem, start + 4 * m, n)
  {}

  /** The buffer with data laid over it from position at. */
  function Splice(buffer: seq<bv32>, at: nat, data: seq<bv32>): (r: seq<bv32>)
    requires at + |data| <= |buffer|
    ensures |r| == |buffer|
  {
    buffer[..at] + data + buffer[at + |data|..]
  }

  lemma SpliceOn(buffer: seq<bv32>, at: nat, first: seq<bv32>, second: seq<bv32>)
    requires at + |first| + |second| <= |buffer|
    ensures Splice(Splice(buffer, at, first), at + |first|, second) == Splice(buffer, at, first + second)
  {}

  lemma QuadAddress(start: nat, m: nat)
    requires start % 4 == 0
    ensures (start + 4 * m) % 4 == 0 && (start + 4 * m) / 4 == start / 4 + m
  {}

  /** What a further reply adds to a range that has been read in part. */
  lemma ReplyOn(mem: seq<bv32>, buffer: seq<bv32>, at: nat, start: nat, m: nat, n: nat)
    requires start % 4 == 0 && start / 4 + m + n <= |mem| && at + m + n <= |buffer|
    ensures Splice(Splice(buffer, at, Range(mem, start, m)), at + m, Range(mem, start + 4 * m, n))
            == Splice(buffer, at, Range(mem, start, m + n))
  {
    QuadAddress(start, m);
    RangeOn(mem, start, m, n);
    SpliceOn(buffer, at, Range(mem, start, m), Range(mem, start + 4 * m, n));
  }

  /** The number of commands that carry quads quadlets. */
  function Chunks(quads: nat): nat {
    if quads == 0 then 0 else 1 + Chunks(quads - Min(quads, CHUNK_QUADS))
  }

  lemma NextChunk(quads: nat)
    ensures Chunks(0) == 0
    ensures quads > 0 ==> Chunks(quads) == 1 + Chunks(quads - Min(quads, CHUNK_QUADS))
  {}

  /** Programming clears the bits that are clear in the data. */
  function Programmed(mem: seq<bv32>, at: nat, data: seq<bv32>): (r: seq<bv32>)
    requires at + |data| <= |mem|
    ensures |r| == |data|
    ensures forall i | 0 <= i < |data| :: r[i] == mem[at + i] & data[i]
  {
    seq(|data|, i requires 0 <= i < |data| => mem[at + i] & data[i])
  }

  lemma NothingProgrammed(mem: seq<bv32>, at: nat)
    requires at <= |mem|
    ensures Splice(mem, at, Programmed(mem, at, [])) == mem
  {}

  lemma ProgrammedOn(mem: seq<bv32>, at: nat, first: seq<bv32>, second: seq<bv32>)
    requires at + |first| + |second| <= |mem|
    ensures
      var mid := Splice(mem, at, Programmed(mem, at, first));
      Splice(mid, at + |first|, Programmed(mid, at + |first|, second))
        == Splice(mem, at, Programmed(mem, at, first + second))
  {
    hide Programmed, Splice;
    BeyondProgrammed(mem, at, first, second);
    ProgrammedConcat(mem, at, first, second);
    SpliceOn(mem, at, Programmed(mem, at, first), Programmed(mem, at + |first|, second));
  }

  /** Programming one part leaves what the next part finds there as it was. */
  lemma BeyondProgrammed(mem: seq<bv32>, at: nat, first: seq<bv32>, second: seq<bv32>)
    requires at + |first| + |second| <= |mem|
    ensures Programmed(Splice(mem, at, Programmed(mem, at, first)), at + |first|, second) ==
            Programmed(mem, at + |first|, second)
  {
    var mid := Splice(mem, at, Programmed(mem, at, first));
    forall j | at + |first| <= j < |mem| ensures mid[j] == mem[j] {}
  }

  lemma ProgrammedConcat(mem: seq<bv32>, at: nat, first: seq<bv32>, second: seq<bv32>)
    requires at + |first| + |second| <= |mem|
    ensures Programmed(mem, at, first + second) == Programmed(mem, at, first) + Programmed(mem, at + |first|, second)
  {
    var whole := Programmed(mem, at, first + second);
    forall i | 0 <= i < |second| ensures whole[|first| + i] == mem[at + |first| + i] & second[i] {
      assert (first + second)[|first| + i] == second[i];
    }
  }

  lemma SameMemory(mem: seq<bv32>, at: nat, n: nat)
    ensures SameOutside(mem, mem, at, n)
  {}

  lemma ProgrammedOutside(mem: seq<bv32>, at: nat, data: seq<bv32>)
    requires at + |data| <= |mem|
    ensures SameOutside(mem, Splice(mem, at, Programmed(mem, at, data)), at, |data|)
  {}

  lemma SplicedWithin(mem: seq<bv32>, mid: seq<bv32>, after: seq<bv32>, at: nat, first: seq<bv32>, n: nat, len: nat)
    requires |first| + n <= len && at + len <= |mem|
    requires mid == Splice(mem, at, Programmed(mem, at, first))
    requires SameOutside(mid, after, at + |first|, n)
    ensures SameOutside(mem, after, at, len)
  {}

  lemma SpliceKeepsTail(original: seq<bv32>, buffer: seq<bv32>, at: nat, data: seq<bv32>)
    requires at + |data| <= |buffer| == |original| && buffer[at..] == original[at..]
    ensures Splice(buffer, at, data)[at + |data|..] == original[at + |data|..]
  {
    assert buffer[at + |data|..] == buffer[at..][|data|..];
    assert original[at + |data|..] == original[at..][|data|..];
  }

  /** Quadlets between the current address and the end; the address may overshoot by a chunk. */
  function QuadsLeft(startAddr: nat, stopAddr: nat): nat {
    if startAddr < stopAddr then (stopAddr - startAddr) / 4 else 0
  }

  /** One turn of the loop over chunks: the range starts at a quadlet, and what is left shrinks by a chunk. */
  lemma NextQuads(start: nat, len: nat, startAddr: nat, stopAddr: nat)
    requires stopAddr == start + 4 * len && start <= startAddr && start % 4 == 0 && startAddr % 4 == 0
    ensures QuadsLeft(startAddr, stopAddr) <= len
    ensures startAddr >= stopAddr ==> QuadsLeft(startAddr, stopAddr) == 0
    ensures startAddr == start ==> QuadsLeft(startAddr, stopAddr) == len
    ensures startAddr < stopAddr ==>
              var left := QuadsLeft(startAddr, stopAddr);
              && left == (stopAddr - startAddr) / 4 > 0 && startAddr / 4 == start / 4 + (len - left)
              && QuadsLeft(startAddr + CHUNK_BYTES, stopAddr) == left - Min(left, CHUNK_QUADS)
  {}

  lemma NothingSpliced(mem: seq<bv32>, start: nat, buffer: seq<bv32>, at: nat)
    requires start % 4 == 0 && start / 4 <= |mem| && at <= |buffer|
    ensures Range(mem, start, 0) == [] && Splice(buffer, at, []) == buffer
  {}

  lemma NoReplies(script: nat -> Reply, t: nat)
    ensures AllOk(script, t, 0)
  {}

  lemma NextReply(script: nat -> Reply, t: nat, n: nat)
    requires AllOk(script, t, n) && script(t + n).ok
    ensures AllOk(script, t, n + 1)
  {}

  lemma FailedReply(script: nat -> Reply, t: nat, n: nat, total: nat)
    requires n < total && !script(t + n).ok
    ensures !AllOk(script, t, total)
  {}

  // ----- erase blocks -----

  function BlockSize(address: nat): nat {
    if address < MAINBLOCKS_BASE_OFFSET_BYTES then PROGRAMBLOCK_SIZE_BYTES else MAINBLOCK_SIZE_BYTES
  }

  /** The first address of the block an address lies in. */
  function BlockStart(address: nat): (b: nat)
    ensures b <= address < b + BlockSize(address) && b % 4 == 0
    ensures BlockSize(b) == BlockSize(address)
    ensures address < FLASH_SIZE_BYTES ==> b + BlockSize(b) <= FLASH_SIZE_BYTES
  {
    if address < MAINBLOCKS_BASE_OFFSET_BYTES then
      SmallBlock(address);
      address - address % PROGRAMBLOCK_SIZE_BYTES
    else
      LargeBlock(address);
      address - address % MAINBLOCK_SIZE_BYTES
  }

  lemma SmallBlock(address: nat)
    requires address < MAINBLOCKS_BASE_OFFSET_BYTES
    ensures var b := address - address % PROGRAMBLOCK_SIZE_BYTES;
            0 <= b <= address < b + PROGRAMBLOCK_SIZE_BYTES <= MAINBLOCKS_BASE_OFFSET_BYTES && b % 4 == 0
  {
    var q := address / PROGRAMBLOCK_SIZE_BYTES;
    assert address - address % PROGRAMBLOCK_SIZE_BYTES == PROGRAMBLOCK_SIZE_BYTES * q;
  }

  lemma LargeBlock(address: nat)
    requires address >= MAINBLOCKS_BASE_OFFSET_BYTES
    ensures var b := address - address % MAINBLOCK_SIZE_BYTES;
            && MAINBLOCKS_BASE_OFFSET_BYTES <= b <= address < b + MAINBLOCK_SIZE_BYTES && b % 4 == 0
            && (address < FLASH_SIZE_BYTES ==> b + MAINBLOCK_SIZE_BYTES <= FLASH_SIZE_BYTES)
  {
    var q := address / MAINBLOCK_SIZE_BYTES;
    assert address - address % MAINBLOCK_SIZE_BYTES == MAINBLOCK_SIZE_BYTES * q;
  }

  /** An address starts its block exactly when it is a multiple of the block size. */
  lemma AlignedIsBlockStart(address: nat)
    ensures BlockStart(address) == address <==> address % BlockSize(address) == 0
  {}

  lemma BlockOfStart(address: nat)
    ensures BlockStart(BlockStart(address)) == BlockStart(address)
  {}

  lemma NextBlockAligned(b: nat)
    requires BlockStart(b) == b
    ensures BlockStart(b + BlockSize(b)) == b + BlockSize(b) > b
  {}

  /** The blocks that cover quads quadlets from the start of the block of address, in order. */
  function Blocks(address: nat, quads: nat): seq<nat>
    decreases quads
  {
    if quads == 0 then [] else
      var b := BlockStart(address);
      [b] + Blocks(b + BlockSize(b), quads - Min(BlockSize(b) / 4, quads))
  }

  /** Each of those blocks meets the range, and each starts where the one before it ends. */
  lemma {:induction false} BlocksTileRange(address: nat, quads: nat, i: nat)
    requires i < |Blocks(address, quads)|
    ensures BlockStart(address) <= Blocks(address, quads)[i] < BlockStart(address) + 4 * quads
    ensures Blocks(address, quads)[i] ==
            if i == 0 then BlockStart(address)
            else Blocks(address, quads)[i - 1] + BlockSize(Blocks(address, quads)[i - 1])
    decreases quads
  {
    hide Blocks, BlockStart, BlockSize;
    if quads == 0 {
      NoBlocks(address);
    } else {
      var next, left := NextBlock(address), QuadsAfter(address, quads);
      BlocksStep(address, quads);
      if i > 0 {
        BlocksTileRange(next, left, i - 1);
      }
    }
  }

  /** The block after that of address, and what is left of the range then */
  function NextBlock(address: nat): nat {
    BlockStart(address) + BlockSize(address)
  }

  function QuadsAfter(address: nat, quads: nat): nat {
    quads - Min(BlockSize(address) / 4, quads)
  }

  lemma NoBlocks(address: nat)
    ensures Blocks(address, 0) == []
  {}

  lemma BlocksStep(address: nat, quads: nat)
    requires quads > 0
    ensures Blocks(address, quads) == [BlockStart(address)] + Blocks(NextBlock(address), QuadsAfter(address, quads))
    ensures BlockStart(NextBlock(address)) == NextBlock(address)
    ensures BlockSize(BlockStart(address)) == BlockSize(address) > 0
    ensures QuadsAfter(address, quads) < quads
    ensures QuadsAfter(address, quads) > 0 ==>
              NextBlock(address) + 4 * QuadsAfter(address, quads) == BlockStart(address) + 4 * quads
  {
    BlockOfStart(address);
    NextBlockAligned(BlockStart(address));
    BlockMultiple(address);
    hide BlockStart, BlockSize;
  }

  lemma BlockMultiple(address: nat)
    ensures BlockSize(address) % 4 == 0 && BlockSize(address) > 0
  {}

  /** Every quadlet at index lo up to hi reads as erased. */
  predicate ErasedBetween(mem: seq<bv32>, lo: nat, hi: nat) {
    hi <= |mem| && forall i | lo <= i < hi :: mem[i] == ERASED
  }

  /** The n quadlets from index at on are what a reply leaves there. */
  ghost predicate HoldsCells(mem: seq<bv32>, at: nat, n: nat, reply: Reply) {
    at + n <= |mem| && forall i | at <= i < at + n :: mem[i] == reply.cells(i - at)
  }

  /** The end of the last block that is erased for the range; at least one block is. */
  function ReachEnd(address: nat, quads: nat): (end: nat)
    ensures BlockStart(address) + BlockSize(address) <= end
    decreases quads
  {
    var b := BlockStart(address);
    if 4 * quads <= BlockSize(b) then b + BlockSize(b) else ReachEnd(b + BlockSize(b), quads - BlockSize(b) / 4)
  }

  /** The quadlets of all blocks that are erased for the range */
  function ErasedQuads(start: nat, quads: nat): nat {
    (ReachEnd(start, quads) - BlockStart(start)) / 4
  }

  lemma {:induction false} ReachWithinFlash(address: nat, quads: nat)
    requires address < FLASH_SIZE_BYTES && BlockStart(address) + 4 * quads <= FLASH_SIZE_BYTES
    ensures BlockStart(address) + 4 * quads <= ReachEnd(address, quads) <= FLASH_SIZE_BYTES
    decreases quads
  {
    var b := BlockStart(address);
    BlockOfStart(address);
    BlockFits(b);
    hide BlockStart, BlockSize;
    if 4 * quads > BlockSize(b) {
      NextBlockAligned(b);
      ReachWithinFlash(b + BlockSize(b), quads - BlockSize(b) / 4);
    }
  }

  lemma WiderFrame(before: seq<bv32>, mid: seq<bv32>, after: seq<bv32>, at: nat, n: nat, inner: nat, m: nat)
    requires SameOutside(before, mid, at, n) && SameOutside(mid, after, inner, m)
    requires at <= inner && inner + m <= at + n
    ensures SameOutside(before, after, at, n)
  {}

  /** Erasing a later block leaves the part already found empty as it is. */
  lemma StaysErased(before: seq<bv32>, after: seq<bv32>, lo: nat, mid: nat, hi: nat, n: nat)
    requires SameOutside(before, after, mid, n)
    requires ErasedBetween(before, lo, mid) && ErasedBetween(after, mid, hi)
    ensures ErasedBetween(after, lo, hi)
  {}

  /** With `done` the blocks erased so far, `left` quadlets from the block of address on remain. */
  ghost predicate EraseProgress(start: nat, quads: nat, address: nat, left: nat, done: seq<nat>) {
    && left <= quads && address < FLASH_SIZE_BYTES
    && BlockStart(address) == BlockStart(start) + 4 * (quads - left)
    && BlockStart(address) + 4 * left <= FLASH_SIZE_BYTES
    && ReachEnd(address, left) == ReachEnd(start, quads)
    && done + Blocks(address, left) == Blocks(start, quads)
  }

  /** Rounding the address down to its block changes nothing that matters. */
  lemma EraseRounds(start: nat, quads: nat, address: nat, left: nat, done: seq<nat>)
    requires EraseProgress(start, quads, address, left, done)
    ensures EraseProgress(start, quads, BlockStart(address), left, done)
  {
    BlockOfStart(address);
  }

  lemma EraseBounds(start: nat, quads: nat, b: nat, left: nat, done: seq<nat>)
    requires EraseProgress(start, quads, b, left, done) && BlockStart(b) == b
    ensures b == BlockStart(start) + 4 * (quads - left) && b + 4 * left <= FLASH_SIZE_BYTES
    ensures b / 4 + BlockSize(b) / 4 <= BlockStart(start) / 4 + ErasedQuads(start, quads)
    ensures b + BlockSize(b) <= ReachEnd(start, quads) && b % 4 == 0 && BlockSize(b) % 4 == 0 && b < FLASH_SIZE_BYTES
  {
    hide BlockStart, Blocks, ReachEnd;
  }

  lemma EraseAdvances(start: nat, quads: nat, b: nat, left: nat, done: seq<nat>, n: nat)
    requires EraseProgress(start, quads, b, left, done) && BlockStart(b) == b
    requires left > 0 && n == Min(BlockSize(b) / 4, left)
    ensures left > n ==> EraseProgress(start, quads, b + BlockSize(b), left - n, done + [b])
    ensures left == n ==> done + [b] == Blocks(start, quads)
    ensures |done| + 1 <= |Blocks(start, quads)|
  {
    hide BlockStart;
    NextBlockAligned(b);
    var next := b + BlockSize(b);
    assert Blocks(b, left) == [b] + Blocks(next, left - n);
    assert done + Blocks(b, left) == done + [b] + Blocks(next, left - n);
  }

  lemma EraseBegins(start: nat, quads: nat, mem: seq<bv32>)
    requires start < FLASH_SIZE_BYTES && BlockStart(start) + 4 * quads <= FLASH_SIZE_BYTES
    requires |mem| == FLASH_SIZE_QUADS
    ensures EraseProgress(start, quads, start, quads, [])
    ensures ErasedBetween(mem, BlockStart(start) / 4, BlockStart(start) / 4)
  {}

  /** The status poll that first finds the device ready, counting from one. */
  ghost predicate ReadyAt(script: nat -> Reply, t: nat, n: nat) {
    && 0 < n && script(t + n - 1).ok && !script(t + n - 1).busy
    && forall i: nat | t <= i < t + n - 1 :: script(i).ok && script(i).busy
  }

  // ----- when an erase succeeds -----

  const ERASE_POLLS: nat := ERASE_TIMEOUT_MILLISECS * 1000 / 10000

  lemma ReadyOnce(script: nat -> Reply, t: nat, m: nat, n: nat)
    requires ReadyAt(script, t, m) && ReadyAt(script, t, n)
    ensures m == n
  {}

  /**
   The erase command at time t is accepted, the device is ready at the n-th poll, the block can be
   read back completely, and all of the wanted part of it has been left erased.
   */
  ghost predicate Empties(script: nat -> Reply, t: nat, quads: nat, n: nat) {
    && (script(t).ok || script(t).busy) && n <= ERASE_POLLS && ReadyAt(script, t + 1, n)
    && EveryChunkCompletes(script, t + 1 + n, quads)
    && forall i: nat | i < quads :: script(t).cells(i) == ERASED
  }

  ghost predicate BlockGood(script: nat -> Reply, t: nat, quads: nat) {
    exists n: nat :: Empties(script, t, quads, n)
  }

  ghost function BlockEnd(script: nat -> Reply, t: nat, quads: nat): nat
    requires BlockGood(script, t, quads)
  {
    var n: nat :| Empties(script, t, quads, n);
    ReadEnd(script, t + 1 + n, quads)
  }

  lemma OneEnd(script: nat -> Reply, t: nat, quads: nat, n: nat)
    requires ReadyAt(script, t + 1, n)
    ensures BlockGood(script, t, quads) <==> Empties(script, t, quads, n)
    ensures BlockGood(script, t, quads) ==> BlockEnd(script, t, quads) == ReadEnd(script, t + 1 + n, quads)
  {
    hide EveryChunkCompletes, ReadEnd, ReadyAt;
    forall m: nat | Empties(script, t, quads, m) ensures m == n {
      ReadyOnce(script, t + 1, m, n);
    }
  }

  /** Every block of the range, from the block of address on, is emptied at the first attempt. */
  ghost predicate EraseGood(script: nat -> Reply, t: nat, address: nat, quads: nat)
    decreases quads
  {
    quads == 0 ||
    var b := BlockStart(address);
    var n := Min(BlockSize(b) / 4, quads);
    BlockGood(script, t, n) && EraseGood(script, BlockEnd(script, t, n), b + BlockSize(b), quads - n)
  }

  ghost function EraseEnd(script: nat -> Reply, t: nat, address: nat, quads: nat): nat
    requires EraseGood(script, t, address, quads)
    decreases quads
  {
    if quads == 0 then t else
      var b := BlockStart(address);
      var n := Min(BlockSize(b) / 4, quads);
      EraseEnd(script, BlockEnd(script, t, n), b + BlockSize(b), quads - n)
  }

  /** Erasing the whole range from time t succeeds, and ends, as erasing what is left of it from t' does. */
  ghost predicate SameErase(script: nat -> Reply, t: nat, start: nat, quads: nat, t': nat, address: nat, left: nat) {
    && (EraseGood(script, t, start, quads) <==> EraseGood(script, t', address, left))
    && (EraseGood(script, t, start, quads) ==> EraseEnd(script, t, start, quads) == EraseEnd(script, t', address, left))
  }

  lemma EraseGoodStep(script: nat -> Reply, t: nat, b: nat, quads: nat, n: nat)
    requires BlockStart(b) == b && quads > 0 && n == Min(BlockSize(b) / 4, quads)
    ensures !BlockGood(script, t, n) ==> !EraseGood(script, t, b, quads)
    ensures BlockGood(script, t, n) ==>
              SameErase(script, t, b, quads, BlockEnd(script, t, n), b + BlockSize(b), quads - n)
  {
    hide BlockGood, BlockEnd, BlockSize;
  }

  lemma EraseGoodRounds(script: nat -> Reply, t: nat, address: nat, quads: nat)
    ensures EraseGood(script, t, BlockStart(address), quads) <==> EraseGood(script, t, address, quads)
    ensures EraseGood(script, t, address, quads) ==>
              EraseEnd(script, t, BlockStart(address), quads) == EraseEnd(script, t, address, quads)
  {
    hide BlockGood, BlockEnd;
    BlockOfStart(address);
    hide BlockStart, BlockSize;
  }

  lemma NothingToErase(script: nat -> Reply, t: nat, address: nat)
    ensures EraseGood(script, t, address, 0) && EraseEnd(script, t, address, 0) == t
  {}

  lemma BlockFits(b: nat)
    requires BlockStart(b) == b && b < FLASH_SIZE_BYTES
    ensures b % 4 == 0 && BlockSize(b) % 4 == 0 && b + BlockSize(b) <= FLASH_SIZE_BYTES && BlockSize(b) > 0
  {}

  lemma SameErased(mem: seq<bv32>, start: nat, quads: nat, data: seq<bv32>)
    requires start % 4 == 0 && start / 4 + quads <= |mem| && data == Range(mem, start, quads)
    ensures ErasedBetween(mem, start / 4, start / 4 + quads) <==> forall k | 0 <= k < quads :: data[k] == ERASED
  {
    forall k | 0 <= k < quads ensures data[k] == mem[start / 4 + k] {}
    if forall k | 0 <= k < quads :: data[k] == ERASED {
      forall i | start / 4 <= i < start / 4 + quads ensures mem[i] == ERASED {
        assert data[i - start / 4] == ERASED;
      }
    }
  }

  lemma CellsErasedIff(mem: seq<bv32>, at: nat, n: nat, reply: Reply, quads: nat)
    requires HoldsCells(mem, at, n, reply) && quads <= n
    ensures ErasedBetween(mem, at, at + quads) <==> forall i: nat | i < quads :: reply.cells(i) == ERASED
  {
    forall i: nat | i < quads ensures mem[at + i] == reply.cells(i) {}
    forall i | at <= i < at + quads ensures mem[i] == reply.cells(i - at) {}
  }

  datatype Outcome = Emptied | NotEmptied | GaveUp

  class Device {
    const script: nat -> Reply
    const sessionBase: nat    // what the device reports as the address of its session block
    const hasDsp: bool
    var mem: seq<bv32>
    var now: nat              // commands issued so far
    ghost var truncated: bool // some read returned true without filling its buffer
    ghost var erased: seq<nat> // addresses of the erase commands issued so far
    ghost var locks: seq<(nat, bool)> // when the flash was locked (true) or unlocked

    ghost predicate Valid()
      reads this
    {
      |mem| == FLASH_SIZE_QUADS
    }

    constructor (script: nat -> Reply, sessionBase: nat, hasDsp: bool, mem: seq<bv32>)
      requires |mem| == FLASH_SIZE_QUADS
      ensures Valid() && this.script == script && this.sessionBase == sessionBase && this.hasDsp == hasDsp
      ensures this.mem == mem && now == 0 && !truncated && erased == [] && locks == []
    {
      this.script, this.sessionBase, this.hasDsp := script, sessionBase, hasDsp;
      this.mem := mem;
      now := 0;
      truncated := false;
      erased, locks := [], [];
    }

    /** The flash read command: a device returns at most the quadlets asked for. */
    method DoRead(address: nat, quads: nat) returns (ok: bool, data: seq<bv32>)
      requires Valid() && address % 4 == 0 && address / 4 + quads <= FLASH_SIZE_QUADS
      modifies this`now
      ensures now == old(now) + 1 && ok == script(old(now)).ok
      ensures ok ==> data == Range(mem, address, Min(script(old(now)).quads, quads))
    {
      ok, data := script(now).ok, [];
      if ok {
        data := mem[address / 4..address / 4 + Min(script(now).quads, quads)];
      }
      now := now + 1;
    }

    /** Copy one reply into the buffer. */
    method CopyContent(buffer: array<bv32>, at: nat, data: seq<bv32>)
      requires at + |data| <= buffer.Length
      modifies buffer
      ensures buffer[..] == Splice(old(buffer[..]), at, data)
    {
      var i := 0;
      while i < |data|
        invariant 0 <= i <= |data|
        invariant forall k | at <= k < at + i :: buffer[k] == data[k - at]
        invariant forall k | 0 <= k < buffer.Length && !(at <= k < at + i) :: buffer[k] == old(buffer[k])
      {
        buffer[at + i] := data[i];
        i := i + 1;
      }
    }

    /** The inner loop of readFlash: ask again for what is still missing, at most 10001 times. */
    method ReadChunk(startAddr: nat, quadsToRead: nat, buffer: array<bv32>, target: nat)
      returns (ok: bool, quadsRead: nat, ntries: int, ghost replies: nat)
      requires Valid() && startAddr % 4 == 0 && startAddr / 4 + quadsToRead <= FLASH_SIZE_QUADS
      requires quadsToRead > 0 && target + quadsToRead <= buffer.Length
      modifies this`now, buffer
      ensures quadsRead <= quadsToRead
      ensures buffer[..] == Splice(old(buffer[..]), target, Range(mem, startAddr, quadsRead))
      ensures quadsRead == Received(script, old(now), quadsToRead, replies)
      ensures !ok ==> Fails(script, old(now), quadsToRead, replies)
      ensures ok ==> now == old(now) + replies
      ensures ok && quadsRead == quadsToRead ==>
                CompletesAt(script, old(now), quadsToRead, replies) && ntries == MAX_READS + 1 - replies >= 0
      ensures ok && quadsRead < quadsToRead ==>
                StaysShort(script, old(now), quadsToRead) && replies == MAX_READS + 1 && ntries == -1
    {
      hide Splice, Range, AllOk, Received;
      quadsRead, ntries, replies := 0, MAX_READS, 0;
      ghost var t := now;
      NothingSpliced(mem, startAddr, buffer[..], target);
      NoReplies(script, t);
      ReceivedNext(script, t, quadsToRead, 0);
      while true
        invariant now == t + replies && ntries == MAX_READS - replies && 0 <= ntries
        invariant AllOk(script, t, replies)
        invariant quadsRead == Received(script, t, quadsToRead, replies) < quadsToRead
        invariant buffer[..] == Splice(old(buffer[..]), target, Range(mem, startAddr, quadsRead))
        decreases ntries
      {
        var address := startAddr + quadsRead * 4;
        var newToRead := quadsToRead - quadsRead;
        var data;
        QuadAddress(startAddr, quadsRead);
        ok, data := DoRead(address, newToRead);
        if !ok {
          return;
        }
        NextReply(script, t, replies);
        ReceivedNext(script, t, quadsToRead, replies);
        replies := replies + 1;
        CopyContent(buffer, target + quadsRead, data);
        ReplyOn(mem, old(buffer[..]), target, startAddr, quadsRead, |data|);
        quadsRead := quadsRead + |data|;
        if quadsRead >= quadsToRead {
          return;
        }
        ntries := ntries - 1;
        if ntries < 0 {
          return;
        }
      }
    }

    /** FireWorks::Device::readFlash */
    method ReadFlash(start: nat, len: nat, buffer: array<bv32>) returns (ok: bool)
      requires Valid() && start + 4 * len <= FLASH_SIZE_BYTES && len <= buffer.Length
      modifies this`now, this`truncated, buffer
      ensures ok <==> ValidRange(start, len) && EveryChunkPasses(script, old(now), len)
      ensures ok && EveryChunkCompletes(script, old(now), len) ==>
                buffer[..] == Splice(old(buffer[..]), 0, Range(mem, start, len))
      ensures ok && !EveryChunkCompletes(script, old(now), len) ==>
                exists filled: nat :: filled < len && buffer[..][filled..] == old(buffer[..])[filled..]
      ensures ok && EveryChunkCompletes(script, old(now), len) ==> now == ReadEnd(script, old(now), len)
      ensures truncated == (old(truncated) || (ok && !EveryChunkCompletes(script, old(now), len)))
      ensures AlwaysAnswers(script) ==> truncated == old(truncated)
    {
      hide AlwaysAnswers, EveryChunkCompletes, EveryChunkPasses, ReadEnd, CompletesAt;
      hide StaysShort, Splice, Range, Received, Fails;
      hide QuadsLeft;
      if len <= 0 || 0xFFFFFFFF - len * 4 < start {
        return false;
      }
      if start % 4 != 0 {
        return false;
      }
      var startAddr, stopAddr := start, start + len * 4;
      var target: nat := 0;
      ghost var t := now;
      ghost var complete := true;
      NothingSpliced(mem, start, buffer[..], 0);
      NextQuads(start, len, startAddr, stopAddr);
      while startAddr < stopAddr
        invariant startAddr % 4 == 0 && start <= startAddr
        invariant EveryChunkPasses(script, t, len) == EveryChunkPasses(script, now, QuadsLeft(startAddr, stopAddr))
        invariant EveryChunkCompletes(script, t, len) ==
          (complete && EveryChunkCompletes(script, now, QuadsLeft(startAddr, stopAddr)))
        invariant EveryChunkCompletes(script, t, len) ==>
          ReadEnd(script, t, len) == ReadEnd(script, now, QuadsLeft(startAddr, stopAddr))
        invariant target <= buffer.Length && target <= len - QuadsLeft(startAddr, stopAddr)
        invariant complete <==> target == len - QuadsLeft(startAddr, stopAddr)
        invariant complete ==> buffer[..] == Splice(old(buffer[..]), 0, Range(mem, start, target))
        invariant buffer[..][target..] == old(buffer[..])[target..]
        invariant truncated == old(truncated)
      {
        var quadsToRead := (stopAddr - startAddr) / 4;
        if quadsToRead > CHUNK_QUADS {
          quadsToRead := CHUNK_QUADS;
        }
        ghost var before, t1 := buffer[..], now;
        ghost var quads := QuadsLeft(startAddr, stopAddr);
        NextQuads(start, len, startAddr, stopAddr);
        var quadsRead, ntries;
        ghost var replies;
        ok, quadsRead, ntries, replies := ReadChunk(startAddr, quadsToRead, buffer, target);
        if !ok {
          ChunkRejected(script, t1, quads, replies);
          return;
        }
        if ntries == 0 {
          ChunkRejected(script, t1, quads, replies);
          return false;
        }
        SpliceKeepsTail(old(buffer[..]), before, target, Range(mem, startAddr, quadsRead));
        if quadsRead == quadsToRead {
          ChunkCompleted(script, t1, quads, replies);
          if complete {
            ReplyOn(mem, old(buffer[..]), 0, start, target, quadsRead);
          }
        } else {
          ChunkLeftShort(script, t1, quads);
          complete := false;
        }
        target := target + quadsRead;
        startAddr := startAddr + CHUNK_BYTES;
      }
      NextQuads(start, len, startAddr, stopAddr);
      AllRead(script, now);
      if AlwaysAnswers(script) {
        AnsweredReadsComplete(script, t, len);
      }
      truncated := truncated || !complete;
      return true;
    }

    // ----- writing -----

    /** The flash write command: programming can only clear bits. A failed command may leave anything. */
    method DoWrite(address: nat, data: seq<bv32>) returns (ok: bool)
      requires Valid() && address % 4 == 0 && address / 4 + |data| <= FLASH_SIZE_QUADS
      modifies this`now, this`mem
      ensures Valid() && now == old(now) + 1 && ok == script(old(now)).ok
      ensures ok ==> mem == Splice(old(mem), address / 4, Programmed(old(mem), address / 4, data))
      ensures SameOutside(old(mem), mem, address / 4, |data|)
    {
      var reply := script(now);
      ok := reply.ok;
      var cells := if ok then Programmed(mem, address / 4, data) else seq(|data|, i requires 0 <= i => reply.cells(i));
      mem := Splice(mem, address / 4, cells);
      now := now + 1;
    }

    /** FireWorks::Device::writeFlash */
    method WriteFlash(start: nat, len: nat, buffer: array<bv32>) returns (ok: bool)
      requires Valid() && start + 4 * len <= FLASH_SIZE_BYTES && len <= buffer.Length
      modifies this`now, this`mem
      ensures Valid()
      ensures ok <==> ValidRange(start, len) && AllOk(script, old(now), Chunks(len))
      ensures ok ==> mem == Splice(old(mem), start / 4, Programmed(old(mem), start / 4, buffer[..len]))
      ensures ok ==> now == old(now) + Chunks(len)
      ensures SameOutside(old(mem), mem, start / 4, len)
    {
      hide Splice, Programmed, SameOutside, AllOk, Chunks;
      SameMemory(mem, start / 4, len);
      if len <= 0 || 0xFFFFFFFF - len * 4 < start {
        return false;
      }
      if start % 4 != 0 {
        return false;
      }
      var startAddr, stopAddr := start, start + len * 4;
      var target: nat := 0;
      ghost var chunks: nat := 0;
      NothingProgrammed(mem, start / 4);
      NoReplies(script, now);
      while startAddr < stopAddr
        invariant Valid() && target <= len
        invariant if startAddr < stopAddr then startAddr == start + 4 * target else target == len
        invariant now == old(now) + chunks && AllOk(script, old(now), chunks)
        invariant chunks + Chunks(len - target) == Chunks(len)
        invariant mem == Splice(old(mem), start / 4, Programmed(old(mem), start / 4, buffer[..target]))
      {
        var quadsToWrite := (stopAddr - startAddr) / 4;
        if quadsToWrite > CHUNK_QUADS {
          quadsToWrite := CHUNK_QUADS;
        }
        NextChunk(len - target);
        var data := buffer[target..target + quadsToWrite];
        ghost var before := mem;
        ok := DoWrite(startAddr, data);
        SplicedWithin(old(mem), before, mem, start / 4, buffer[..target], quadsToWrite, len);
        if !ok {
          FailedReply(script, old(now), chunks, Chunks(len));
          return false;
        }
        NextReply(script, old(now), chunks);
        assert buffer[..target + quadsToWrite] == buffer[..target] + data;
        ProgrammedOn(old(mem), start / 4, buffer[..target], data);
        target := target + quadsToWrite;
        startAddr := startAddr + CHUNK_BYTES;
        chunks := chunks + 1;
      }
      NextChunk(0);
      ProgrammedOutside(old(mem), start / 4, buffer[..target]);
      return true;
    }

    // ----- erasing -----

    /** The flash erase command: whatever it does stays within the block of the address. */
    method DoErase(address: nat) returns (ok: bool, busy: bool)
      requires Valid() && address < FLASH_SIZE_BYTES
      modifies this`now, this`mem, this`erased
      ensures Valid() && now == old(now) + 1
      ensures ok == script(old(now)).ok && busy == script(old(now)).busy
      ensures erased == old(erased) + [address]
      ensures SameOutside(old(mem), mem, BlockStart(address) / 4, BlockSize(address) / 4)
      ensures HoldsCells(mem, BlockStart(address) / 4, BlockSize(address) / 4, script(old(now)))
    {
      var reply := script(now);
      ok, busy := reply.ok, reply.busy;
      var cells := seq(BlockSize(address) / 4, i requires 0 <= i => reply.cells(i));
      mem := Splice(mem, BlockStart(address) / 4, cells);
      now := now + 1;
      erased := erased + [address];
    }

    /** FireWorks::Device::eraseFlash: a busy answer counts as accepted. */
    method EraseFlash(address: nat) returns (ok: bool)
      requires Valid() && address < FLASH_SIZE_BYTES && address % 4 == 0
      modifies this`now, this`mem, this`erased
      ensures Valid() && now == old(now) + 1
      ensures ok == (script(old(now)).ok || script(old(now)).busy)
      ensures erased == old(erased) + [address]
      ensures SameOutside(old(mem), mem, BlockStart(address) / 4, BlockSize(address) / 4)
      ensures HoldsCells(mem, BlockStart(address) / 4, BlockSize(address) / 4, script(old(now)))
    {
      var busy;
      ok, busy := DoErase(address);
      if !ok {
        if busy {
          return true;
        }
        return false;
      }
    }

    /** FireWorks::Device::waitForFlash: the poll after the last wait does not count, even when it succeeds. */
    method WaitForFlash(msecs: nat) returns (ready: bool)
      modifies this`now
      ensures ready <==> exists n: nat | n <= msecs * 1000 / 10000 :: ReadyAt(script, old(now), n)
      ensures ready ==> 0 < now - old(now) <= msecs * 1000 / 10000 && ReadyAt(script, old(now), now - old(now))
    {
      var waitCycles: int := msecs * 1000 / 10000;
      ghost var t, polls: nat := now, 0;
      while true
        invariant now == t + polls && waitCycles == msecs * 1000 / 10000 - polls >= 0
        invariant forall i: nat | t <= i < t + polls :: script(i).ok && script(i).busy
        decreases waitCycles
      {
        var status := script(now);
        now := now + 1;
        polls := polls + 1;
        if !status.ok {
          assert !script(t + polls - 1).ok;
          return false;
        }
        ready := !status.busy;
        if ready {
          assert ReadyAt(script, t, polls);
          break;
        }
        waitCycles := waitCycles - 1;
        if waitCycles < 0 {
          break;
        }
      }
      if waitCycles == 0 {
        return false;
      }
    }

    /** Read a block back and look at every quadlet of it. */
    method VerifyErased(startAddr: nat, quads: nat) returns (readOk: bool, empty: bool)
      requires Valid() && startAddr % 4 == 0 && startAddr + 4 * quads <= FLASH_SIZE_BYTES
      modifies this`now, this`truncated
      ensures AlwaysAnswers(script) ==> truncated == old(truncated)
      ensures readOk <==> ValidRange(startAddr, quads) && EveryChunkPasses(script, old(now), quads)
      ensures readOk && EveryChunkCompletes(script, old(now), quads) ==>
                && now == ReadEnd(script, old(now), quads)
                && (empty <==> ErasedBetween(mem, startAddr / 4, startAddr / 4 + quads))
      ensures truncated == (old(truncated) || (readOk && !EveryChunkCompletes(script, old(now), quads)))
    {
      hide AlwaysAnswers, EveryChunkCompletes, EveryChunkPasses, ReadEnd;
      var verify := new bv32[quads];
      ghost var t := now;
      readOk := ReadFlash(startAddr, quads, verify);
      empty := true;
      if !readOk {
        return;
      }
      var i := 0;
      while i < quads && empty
        invariant 0 <= i <= quads
        invariant empty ==> forall k | 0 <= k < i :: verify[k] == ERASED
        invariant !empty ==> i < quads && verify[i] != ERASED
        decreases quads - i, empty
      {
        if ERASED != verify[i] {
          empty := false;
        } else {
          i := i + 1;
        }
      }
      if EveryChunkCompletes(script, t, quads) {
        assert verify[..] == Range(mem, startAddr, quads);
        SameErased(mem, startAddr, quads, verify[..]);
      }
    }

    /**
     One attempt of eraseFlashBlocks at a block: erase it, wait, read the wanted part of it back. The
     attempt empties the block, does not, or ends the whole operation.
     */
    method EraseBlock(b: nat, quads: nat) returns (outcome: Outcome)
      requires Valid() && b < FLASH_SIZE_BYTES && BlockStart(b) == b && quads <= BlockSize(b) / 4
      modifies this`now, this`mem, this`erased, this`truncated
      ensures Valid() && erased == old(erased) + [b]
      ensures SameOutside(old(mem), mem, b / 4, BlockSize(b) / 4)
      ensures BlockGood(script, old(now), quads) && quads > 0 ==>
                outcome == Emptied && truncated == old(truncated) && now == BlockEnd(script, old(now), quads)
      ensures outcome == Emptied && !truncated ==>
                quads > 0 && BlockGood(script, old(now), quads) && ErasedBetween(mem, b / 4, b / 4 + quads)
      ensures quads == 0 ==> outcome == if script(old(now)).ok || script(old(now)).busy then GaveUp else NotEmptied
      ensures old(truncated) ==> truncated
      ensures AlwaysAnswers(script) ==> truncated == old(truncated)
    {
      hide AlwaysAnswers, EveryChunkCompletes, EveryChunkPasses, ReadEnd, BlockSize, SameOutside, ReadyAt;
      ghost var t := now;
      BlockFits(b);
      var accepted := EraseFlash(b);
      if !accepted {
        return NotEmptied;
      }
      var ready := WaitForFlash(ERASE_TIMEOUT_MILLISECS);
      if !ready {
        return GaveUp;
      }
      ghost var n := now - (t + 1);
      OneEnd(script, t, quads, n);
      var readOk, empty := VerifyErased(b, quads);
      if EveryChunkCompletes(script, t + 1 + n, quads) {
        CompletePasses(script, t + 1 + n, quads);
        CellsErasedIff(mem, b / 4, BlockSize(b) / 4, script(t), quads);
      }
      if !readOk {
        return GaveUp;
      }
      return if empty then Emptied else NotEmptied;
    }

    /**
     FireWorks::Device::eraseFlashBlocks. As long as no read is cut short unnoticed, the result is
     true exactly when every block is emptied at the first attempt.
     */
    method EraseFlashBlocks(start: nat, nbQuads: nat) returns (done: bool)
      requires Valid() && start < FLASH_SIZE_BYTES && BlockStart(start) + 4 * nbQuads <= FLASH_SIZE_BYTES
      modifies this`now, this`mem, this`erased, this`truncated
      ensures Valid()
      ensures nbQuads > 0 && EraseGood(script, old(now), start, nbQuads) ==>
                done && truncated == old(truncated) && now == EraseEnd(script, old(now), start, nbQuads)
      ensures nbQuads > 0 && done && !truncated ==> EraseGood(script, old(now), start, nbQuads)
      ensures nbQuads == 0 ==> (done <==> !(script(old(now)).ok || script(old(now)).busy))
      ensures done && nbQuads > 0 ==> erased == old(erased) + Blocks(start, nbQuads)
      ensures |erased| <= |old(erased)| + |Blocks(start, nbQuads)| + 11
      ensures done && nbQuads > 0 && !truncated ==>
                ErasedBetween(mem, BlockStart(start) / 4, BlockStart(start) / 4 + nbQuads)
      ensures old(truncated) ==> truncated
      ensures AlwaysAnswers(script) ==> truncated == old(truncated)
      ensures SameOutside(old(mem), mem, BlockStart(start) / 4, ErasedQuads(start, nbQuads))
    {
      hide AlwaysAnswers, SameOutside, ErasedBetween, EraseProgress, BlockStart;
      hide BlockSize, Blocks, ErasedQuads, ReachEnd;
      hide EraseGood, EraseEnd, BlockGood, BlockEnd;
      var startAddress, quadsLeft, success, nbTries := start, nbQuads, true, 0;
      ghost var base := BlockStart(start);
      ghost var frame := ErasedQuads(start, nbQuads);
      ghost var blocks := [];
      ghost var t := now;
      // Set once it is known that not every block was emptied at the first attempt.
      ghost var missed := false;
      SameMemory(mem, base / 4, frame);
      ReachWithinFlash(start, nbQuads);
      EraseBegins(start, nbQuads, mem);
      while true
        invariant Valid() && nbTries <= MAX_ERASE_TRIES && (nbQuads == 0 ==> nbTries == 0)
        invariant quadsLeft > 0 || (nbQuads == 0 && now == old(now) && success)
        invariant EraseProgress(start, nbQuads, startAddress, quadsLeft, blocks)
        invariant success ==> erased == old(erased) + blocks && nbTries == 0
        invariant |erased| == |old(erased)| + |blocks| + nbTries && |blocks| <= |Blocks(start, nbQuads)|
        invariant success && !truncated ==> ErasedBetween(mem, base / 4, base / 4 + nbQuads - quadsLeft)
        invariant missed ==> !EraseGood(script, t, start, nbQuads) && (success ==> truncated)
        invariant !missed ==> success && truncated == old(truncated)
                              && SameErase(script, t, start, nbQuads, now, startAddress, quadsLeft)
        invariant old(truncated) ==> truncated
        invariant AlwaysAnswers(script) ==> truncated == old(truncated)
        invariant SameOutside(old(mem), mem, base / 4, frame)
        decreases quadsLeft, MAX_ERASE_TRIES + 1 - nbTries
      {
        var blocksizeBytes := BlockSize(startAddress);
        EraseRounds(start, nbQuads, startAddress, quadsLeft, blocks);
        EraseGoodRounds(script, now, startAddress, quadsLeft);
        BlockOfStart(startAddress);
        startAddress := BlockStart(startAddress);
        var blocksizeQuads := blocksizeBytes / 4;
        if blocksizeQuads > quadsLeft {
          blocksizeQuads := quadsLeft;
        }
        EraseBounds(start, nbQuads, startAddress, quadsLeft, blocks);
        ghost var before, t1 := mem, now;
        var outcome := EraseBlock(startAddress, blocksizeQuads);
        WiderFrame(old(mem), before, mem, base / 4, frame, startAddress / 4, blocksizeBytes / 4);
        if quadsLeft > 0 {
          EraseGoodStep(script, t1, startAddress, quadsLeft, blocksizeQuads);
        }
        missed := missed || (nbQuads > 0 && !BlockGood(script, t1, blocksizeQuads));
        if outcome == GaveUp {
          return false;
        }
        if outcome == NotEmptied {
          success := false;
        }
        if success {
          if !truncated {
            StaysErased(before, mem, base / 4, startAddress / 4, startAddress / 4 + blocksizeQuads, blocksizeBytes / 4);
          }
          EraseAdvances(start, nbQuads, startAddress, quadsLeft, blocks, blocksizeQuads);
          blocks := blocks + [startAddress];
          startAddress := startAddress + blocksizeBytes;
          quadsLeft := quadsLeft - blocksizeQuads;
          nbTries := 0;
        } else {
          nbTries := nbTries + 1;
        }
        if nbTries > MAX_ERASE_TRIES {
          return false;
        }
        if quadsLeft <= 0 {
          break;
        }
      }
      NothingToErase(script, now, startAddress);
      return true;
    }

    /** FireWorks::Device::lockFlash; hardware with a DSP needs no lock and gets no command. */
    method LockFlash(lock: bool) returns (ok: bool)
      modifies this`now, this`locks
      ensures ok == (hasDsp || script(old(now)).ok)
      ensures now == if hasDsp then old(now) else old(now) + 1
      ensures locks == if !hasDsp && ok then old(locks) + [(old(now), lock)] else old(locks)
    {
      if hasDsp {
        return true;
      }
      ok := script(now).ok;
      if ok {
        locks := locks + [(now, lock)];
      }
      now := now + 1;
    }

    /** FireWorks::Device::getSessionBase; zero stands for failure. */
    method GetSessionBase() returns (address: nat)
      modifies this`now
      ensures now == old(now) + 1
      ensures address == if script(old(now)).ok then sessionBase else 0
    {
      address := if script(now).ok then sessionBase else 0;
      now := now + 1;
    }
  }

  /** A device that gets ready for the very last poll is reported as timed out, whatever the time-out is. */
  method LastFlashPoll(msecs: nat) returns (d: Device, ready: bool)
    ensures !ready && ReadyAt(d.script, 0, msecs * 1000 / 10000 + 1)
  {
    var waits := msecs * 1000 / 10000;
    var script := i => Reply(true, i < waits, 0, k => ERASED);
    d := new Device(script, 0, true, seq(FLASH_SIZE_QUADS, i => ERASED));
    assert ReadyAt(script, 0, waits + 1);
    ready := d.WaitForFlash(msecs);
  }

  /** A device that is busy for some polls and then ready is found ready exactly when the last poll is not needed. */
  method BusyFor(busy: nat, msecs: nat) returns (ready: bool)
    ensures ready <==> busy + 1 <= msecs / 10
  {
    var script := i => Reply(true, i < busy, 0, k => ERASED);
    var d := new Device(script, 0, true, seq(FLASH_SIZE_QUADS, i => ERASED));
    assert ReadyAt(script, 0, busy + 1);
    forall n: nat | ReadyAt(script, 0, n) ensures n == busy + 1 {
      ReadyOnce(script, 0, n, busy + 1);
    }
    ready := d.WaitForFlash(msecs);
  }

  // ----- what an erase covers -----

  predicate Within(a: nat, lo: nat, quads: nat) {
    lo <= a < lo + 4 * quads
  }

  /**
   The range that is erased and verified contains the requested one exactly when that starts on a
   multiple of its block's size: rounding the start down does not lengthen the range.
   */
  lemma RequestedRangeVerifiedIff(start: nat, quads: nat)
    requires quads > 0
    ensures (forall a: nat :: Within(a, start, quads) ==> Within(a, BlockStart(start), quads)) <==>
            start % BlockSize(start) == 0
  {
    AlignedIsBlockStart(start);
    hide BlockStart, BlockSize;
    var last := start + 4 * quads - 1;
    assert Within(last, start, quads);
    assert Within(last, BlockStart(start), quads) <==> BlockStart(start) == start;
  }

  /** A device that carries out every command at once, returns all it is asked for and erases all it should */
  ghost predicate Obliging(script: nat -> Reply) {
    forall i: nat :: var r := script(i);
      r.ok && !r.busy && r.quads >= CHUNK_QUADS && forall k: nat :: r.cells(k) == ERASED
  }

  lemma {:induction false} ObligingCompletes(script: nat -> Reply, t: nat, quads: nat)
    requires Obliging(script)
    ensures EveryChunkCompletes(script, t, quads)
    decreases quads
  {
    if quads > 0 {
      var need := Min(quads, CHUNK_QUADS);
      assert Received(script, t, need, 0) == 0;
      assert CompletesAt(script, t, need, 1);
      ObligingCompletes(script, t + 1, quads - need);
    }
  }

  /** Up to 64 quadlets are one command: it passes if a reply up to the 10000th completes it, or 10001 do not. */
  lemma OneChunkPassesIff(script: nat -> Reply, t: nat, quads: nat)
    requires 0 < quads <= 64
    ensures EveryChunkPasses(script, t, quads) <==>
            || (AllOk(script, t, 10001) && Received(script, t, quads, 10001) < quads)
            || exists n: nat | n <= 10000 :: CompletesAt(script, t, quads, n)
  {
    hide Received, CompletesAt, AllOk;
    assert Min(quads, CHUNK_QUADS) == quads;
    forall i: nat ensures EveryChunkPasses(script, i, 0) {}
    if n: nat :| n <= 10000 && CompletesAt(script, t, quads, n) {
      assert EveryChunkPasses(script, t + n, quads - quads);
    }
  }

  /** Writing takes one command for every 64 quadlets begun. */
  lemma {:induction false} ChunksAre(quads: nat)
    ensures Chunks(quads) == (quads + 63) / 64
    decreases quads
  {
    if quads > 64 {
      ChunksAre(quads - 64);
    }
  }

  /**
   In numbers: the command is taken, the n-th of 200 polls is the first that finds the device ready, all
   cells are ones.
   */
  lemma EmptiesIff(script: nat -> Reply, t: nat, quads: nat, n: nat)
    ensures Empties(script, t, quads, n) <==>
            && (script(t).ok || script(t).busy) && (forall i: nat | i < quads :: script(t).cells(i) == 0xFFFFFFFF)
            && 1 <= n <= 200 && script(t + n).ok && !script(t + n).busy
            && (forall i: nat | t < i < t + n :: script(i).ok && script(i).busy)
            && EveryChunkCompletes(script, t + n + 1, quads)
  {
    hide EveryChunkCompletes;
    assert t + 1 + n == t + n + 1;
  }

  /** Such a device has every erase succeed. */
  lemma {:induction false} ObligingErases(script: nat -> Reply, t: nat, address: nat, quads: nat)
    requires Obliging(script)
    ensures EraseGood(script, t, address, quads)
    decreases quads
  {
    hide BlockEnd, BlockStart, EveryChunkCompletes;
    if quads > 0 {
      var b := BlockStart(address);
      var n := Min(BlockSize(b) / 4, quads);
      ObligingCompletes(script, t + 2, n);
      assert ReadyAt(script, t + 1, 1);
      assert Empties(script, t, n, 1);
      ObligingErases(script, BlockEnd(script, t, n), b + BlockSize(b), quads - n);
    }
  }

  function ObligingScript(): nat -> Reply {
    i => Reply(true, false, CHUNK_QUADS, k => ERASED)
  }

  lemma SomeDeviceIsObliging()
    ensures Obliging(ObligingScript())
  {}

  lemma UnalignedBlocks()
    ensures BlockStart(0x9000) == 0x8000 && ErasedQuads(0x9000, 0x800) == 0x800
  {}

  /**
   An erase of 8 KB from the middle of a block on: on an obliging device it succeeds, but the second
   half of the range, which lies in the next block, is as it was.
   */
  method UnalignedErase(d: Device) returns (done: bool)
    requires d.Valid() && Obliging(d.script)
    modifies d
    ensures done && d.Valid()
    ensures forall i | 0xA000 / 4 <= i < 0xB000 / 4 :: d.mem[i] == old(d.mem[i])
  {
    hide EraseGood, Blocks, BlockStart, ReachEnd, ErasedQuads, Obliging, ErasedBetween, EraseEnd;
    ObligingErases(d.script, d.now, 0x9000, 0x800);
    UnalignedBlocks();
    done := d.EraseFlashBlocks(0x9000, 0x800);
  }

  /** Such a device has every aligned range that is not empty read in full, and nothing else. */
  method ObligingRead(d: Device, start: nat, len: nat) returns (ok: bool, data: seq<bv32>)
    requires d.Valid() && Obliging(d.script) && start + 4 * len <= FLASH_SIZE_BYTES
    modifies d`now, d`truncated
    ensures ok <==> len > 0 && start % 4 == 0
    ensures ok ==> data == d.mem[start / 4..start / 4 + len] && d.truncated == old(d.truncated)
  {
    hide Obliging, EveryChunkCompletes, EveryChunkPasses, ReadEnd;
    ObligingCompletes(d.script, d.now, len);
    CompletePasses(d.script, d.now, len);
    var buffer := new bv32[len];
    ok := d.ReadFlash(start, len, buffer);
    data := buffer[..];
  }

  /** And written: the cells then hold what they held and the data have in common. */
  method ObligingWrite(d: Device, start: nat, buffer: array<bv32>) returns (ok: bool)
    requires d.Valid() && Obliging(d.script) && start + 4 * buffer.Length <= FLASH_SIZE_BYTES
    modifies d`now, d`mem
    ensures d.Valid() && (ok <==> buffer.Length > 0 && start % 4 == 0)
    ensures ok ==> forall i | 0 <= i < buffer.Length :: d.mem[start / 4 + i] == old(d.mem[start / 4 + i]) & buffer[i]
    ensures forall i | 0 <= i < |d.mem| && !(start / 4 <= i < start / 4 + buffer.Length) :: d.mem[i] == old(d.mem[i])
  {
    hide Obliging, Splice, Programmed, AllOk;
    ghost var was, data := d.mem, buffer[..];
    assert buffer[..buffer.Length] == data;
    ObligingAnswers(d.script, d.now, Chunks(buffer.Length));
    hide Chunks;
    ok := d.WriteFlash(start, buffer.Length, buffer);
    if ok {
      ProgrammedCells(was, start / 4, data);
    }
  }

  lemma ObligingAnswers(script: nat -> Reply, t: nat, n: nat)
    requires Obliging(script)
    ensures AllOk(script, t, n)
  {}

  lemma ProgrammedCells(mem: seq<bv32>, at: nat, data: seq<bv32>)
    requires at + |data| <= |mem|
    ensures var after := Splice(mem, at, Programmed(mem, at, data));
            forall i | 0 <= i < |data| :: after[at + i] == mem[at + i] & data[i]
  {}
}
