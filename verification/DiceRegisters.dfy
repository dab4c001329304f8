/**
 Register access of a DICE device (dice_avdevice.cpp): blocks are moved over the bus in
 transfers of at most 512 bytes. Addresses are counted in quadlets.
 */
module DiceRegisters {
  import opened Integers
  import opened Ranges

  const BLOCKSIZE_QUADS: nat := 128

  /** The registers with data laid over them from address at. */
  function Overlay(regs: seq<Quad>, at: nat, data: seq<Quad>): (r: seq<Quad>)
    requires at + |data| <= |regs|
    ensures |r| == |regs|
    ensures forall i | 0 <= i < |regs| :: r[i] == if at <= i < at + |data| then data[i - at] else regs[i]
  {
    regs[..at] + data + regs[at + |data|..]
  }

  /** What writeRegBlock leaves behind: every transfer of the block goes to the same address. */
  function BlockWritten(regs: seq<Quad>, at: nat, data: seq<Quad>): (r: seq<Quad>)
    requires at + Min(|data|, BLOCKSIZE_QUADS) <= |regs|
    ensures |r| == |regs|
    decreases |data|
  {
    if |data| == 0 then regs else
      var todo := Min(|data|, BLOCKSIZE_QUADS);
      BlockWritten(Overlay(regs, at, data[..todo]), at, data[todo..])
  }

  lemma {:induction false} BlockWrittenFrame(regs: seq<Quad>, at: nat, data: seq<Quad>, i: nat)
    requires at + Min(|data|, BLOCKSIZE_QUADS) <= |regs| && i < |regs|
    requires i < at || at + Min(|data|, BLOCKSIZE_QUADS) <= i
    ensures BlockWritten(regs, at, data)[i] == regs[i]
    decreases |data|
  {
    if |data| > 0 {
      var todo := Min(|data|, BLOCKSIZE_QUADS);
      BlockWrittenFrame(Overlay(regs, at, data[..todo]), at, data[todo..], i);
    }
  }

  lemma ShortBlockWritten(regs: seq<Quad>, at: nat, data: seq<Quad>)
    requires |data| <= BLOCKSIZE_QUADS && at + |data| <= |regs|
    ensures BlockWritten(regs, at, data) == Overlay(regs, at, data)
  {
    if |data| > 0 {
      assert data[..|data|] == data && data[|data|..] == [];
    }
  }

  /** state is what some first, non-empty part of the block leaves behind. */
  ghost predicate Prefix(state: seq<Quad>, regs: seq<Quad>, at: nat, data: seq<Quad>)
    requires at + Min(|data|, BLOCKSIZE_QUADS) <= |regs|
  {
    exists n: nat | 0 < n <= |data| :: state == BlockWritten(regs, at, data[..n])
  }

  lemma {:induction false} WrittenOn(regs: seq<Quad>, at: nat, first: seq<Quad>, second: seq<Quad>)
    requires |first| % BLOCKSIZE_QUADS == 0 && 0 < |second| <= BLOCKSIZE_QUADS
    requires at + Min(|first| + |second|, BLOCKSIZE_QUADS) <= |regs|
    ensures BlockWritten(regs, at, first + second) == Overlay(BlockWritten(regs, at, first), at, second)
    decreases |first|
  {
    if first == [] {
      assert first + second == second;
      ShortBlockWritten(regs, at, second);
    } else {
      var regs' := Overlay(regs, at, first[..BLOCKSIZE_QUADS]);
      WrittenOn(regs', at, first[BLOCKSIZE_QUADS..], second);
      assert (first + second)[..BLOCKSIZE_QUADS] == first[..BLOCKSIZE_QUADS];
      assert (first + second)[BLOCKSIZE_QUADS..] == first[BLOCKSIZE_QUADS..] + second;
    }
  }

  lemma NextTransfer(regs: seq<Quad>, at: nat, data: seq<Quad>, done: nat, todo: nat)
    requires done % BLOCKSIZE_QUADS == 0 && 0 < todo <= BLOCKSIZE_QUADS && done + todo <= |data|
    requires at + Min(|data|, BLOCKSIZE_QUADS) <= |regs|
    ensures BlockWritten(regs, at, data[..done + todo])
              == Overlay(BlockWritten(regs, at, data[..done]), at, data[done..done + todo])
    ensures Prefix(BlockWritten(regs, at, data[..done + todo]), regs, at, data)
  {
    assert data[..done + todo] == data[..done] + data[done..done + todo];
    WrittenOn(regs, at, data[..done], data[done..done + todo]);
  }

  /** Registers that differ from the data in its first quadlet past one transfer. */
  lemma LongBlockMisses(at: nat, data: seq<Quad>) returns (regs: seq<Quad>)
    requires |data| > BLOCKSIZE_QUADS
    ensures at + |data| <= |regs| && BlockWritten(regs, at, data) != Overlay(regs, at, data)
  {
    var other: Quad := if data[BLOCKSIZE_QUADS] == 0 then 1 else 0;
    regs := seq(at + |data|, i => other);
    BlockWrittenFrame(regs, at, data, at + BLOCKSIZE_QUADS);
    assert Overlay(regs, at, data)[at + BLOCKSIZE_QUADS] == data[BLOCKSIZE_QUADS];
  }

  /** writeRegBlock stores its block, whatever the registers held, exactly when one transfer suffices. */
  lemma BlockWriteCorrectIff(at: nat, data: seq<Quad>)
    ensures |data| <= BLOCKSIZE_QUADS <==>
            forall regs | at + |data| <= |regs| :: BlockWritten(regs, at, data) == Overlay(regs, at, data)
  {
    if |data| <= BLOCKSIZE_QUADS {
      forall regs | at + |data| <= |regs| ensures BlockWritten(regs, at, data) == Overlay(regs, at, data) {
        ShortBlockWritten(regs, at, data);
      }
    } else {
      var regs := LongBlockMisses(at, data);
    }
  }

  /** The first done quadlets, all of the block or a whole number of transfers, have been written. */
  predicate WrittenUpTo(regs0: seq<Quad>, regs: seq<Quad>, at: nat, data: seq<Quad>, done: nat)
    requires at + Min(|data|, BLOCKSIZE_QUADS) <= |regs0|
  {
    && done <= |data| && (done % BLOCKSIZE_QUADS == 0 || done == |data|)
    && |regs| == |regs0| && regs == BlockWritten(regs0, at, data[..done])
  }

  lemma WritingBegins(log0: seq<seq<Quad>>, regs0: seq<Quad>, at: nat, data: seq<Quad>)
    requires at + Min(|data|, BLOCKSIZE_QUADS) <= |regs0|
    ensures WrittenUpTo(regs0, regs0, at, data, 0) && Follows(log0, log0, regs0, regs0, at, data)
  {}

  lemma WritingFits(regs0: seq<Quad>, regs: seq<Quad>, at: nat, data: seq<Quad>, done: nat)
    requires at + Min(|data|, BLOCKSIZE_QUADS) <= |regs0|
    requires WrittenUpTo(regs0, regs, at, data, done) && done < |data|
    ensures at + Min(|data| - done, BLOCKSIZE_QUADS) <= |regs|
  {}

  lemma WritingAdvances(regs0: seq<Quad>, regs: seq<Quad>, at: nat, data: seq<Quad>, done: nat, todo: nat)
    requires at + Min(|data|, BLOCKSIZE_QUADS) <= |regs0|
    requires WrittenUpTo(regs0, regs, at, data, done) && done < |data| && todo == Min(|data| - done, BLOCKSIZE_QUADS)
    ensures at + todo <= |regs|
    ensures var regs' := Overlay(regs, at, data[done..done + todo]);
            WrittenUpTo(regs0, regs', at, data, done + todo) && Prefix(regs', regs0, at, data)
  {
    hide BlockWritten, Prefix;
    NextTransfer(regs0, at, data, done, todo);
  }

  lemma WritingEnds(regs0: seq<Quad>, regs: seq<Quad>, at: nat, data: seq<Quad>)
    requires at + Min(|data|, BLOCKSIZE_QUADS) <= |regs0|
    requires WrittenUpTo(regs0, regs, at, data, |data|)
    ensures |regs| == |regs0| && regs == BlockWritten(regs0, at, data)
  {
    assert data[..|data|] == data;
  }

  /** The registers follow the log of completed writes, all of which left prefixes of the block behind. */
  ghost predicate Follows(log0: seq<seq<Quad>>, log: seq<seq<Quad>>, regs0: seq<Quad>, regs: seq<Quad>, at: nat,
                          data: seq<Quad>)
    requires at + Min(|data|, BLOCKSIZE_QUADS) <= |regs0|
  {
    && log0 <= log
    && regs == (if log == log0 then regs0 else log[|log| - 1])
    && forall k | |log0| <= k < |log| :: Prefix(log[k], regs0, at, data)
  }

  lemma FollowsMeans(log0: seq<seq<Quad>>, log: seq<seq<Quad>>, regs0: seq<Quad>, regs: seq<Quad>, at: nat,
                     data: seq<Quad>)
    requires at + Min(|data|, BLOCKSIZE_QUADS) <= |regs0|
    requires Follows(log0, log, regs0, regs, at, data)
    ensures log0 <= log && regs == if log == log0 then regs0 else log[|log| - 1]
    ensures forall k | |log0| <= k < |log| :: Prefix(log[k], regs0, at, data)
  {}

  lemma FollowsOn(log0: seq<seq<Quad>>, log: seq<seq<Quad>>, regs0: seq<Quad>, regs: seq<Quad>, regs': seq<Quad>,
                  at: nat, data: seq<Quad>)
    requires at + Min(|data|, BLOCKSIZE_QUADS) <= |regs0|
    requires Follows(log0, log, regs0, regs, at, data) && Prefix(regs', regs0, at, data)
    ensures Follows(log0, log + [regs'], regs0, regs', at, data) && log + [regs'] != log0
  {
    hide Prefix;
    assert |log + [regs']| > |log0|;
  }

  lemma ReadOn(regs: seq<Quad>, at: nat, m: nat, n: nat)
    requires at + m + n <= |regs|
    ensures regs[at..at + m] + regs[at + m..at + m + n] == regs[at..at + m + n]
  {}

  /** The number of transfers that carry n quadlets. */
  function Transfers(n: nat): nat {
    if n == 0 then 0 else 1 + Transfers(n - Min(n, BLOCKSIZE_QUADS))
  }

  /** One transfer for every 128 quadlets begun */
  lemma {:induction false} TransfersAre(n: nat)
    ensures Transfers(n) == (n + 127) / 128
    decreases n
  {
    if n > 128 {
      TransfersAre(n - 128);
    }
  }

  /** n transfers from the t-th on all succeed. */
  ghost predicate AllSucceed(script: nat -> bool, t: nat, n: nat) {
    forall i: nat | t <= i < t + n :: script(i)
  }

  lemma TransferStep(script: nat -> bool, t: nat, left: nat)
    ensures Transfers(0) == 0 && AllSucceed(script, t, 0)
    ensures left > 0 ==>
              var rest := Transfers(left - Min(left, BLOCKSIZE_QUADS));
              && Transfers(left) == 1 + rest
              && (AllSucceed(script, t, Transfers(left)) <==> script(t) && AllSucceed(script, t + 1, rest))
  {}

  /** The device as seen over the bus: whether the n-th transfer succeeds is up to the script. */
  class Bus {
    const script: nat -> bool
    var regs: seq<Quad>
    var now: nat
    ghost var history: seq<seq<Quad>>  // the registers after each completed write

    constructor (script: nat -> bool, regs: seq<Quad>)
      ensures this.script == script && this.regs == regs && now == 0 && history == []
    {
      this.script, this.regs, now, history := script, regs, 0, [];
    }

    method Write(at: nat, data: seq<Quad>) returns (ok: bool)
      requires at + |data| <= |regs|
      modifies this
      ensures ok == script(old(now)) && now == old(now) + 1
      ensures regs == if ok then Overlay(old(regs), at, data) else old(regs)
      ensures history == if ok then old(history) + [regs] else old(history)
    {
      ok := script(now);
      if ok {
        regs := Overlay(regs, at, data);
        history := history + [regs];
      }
      now := now + 1;
    }

    method Read(at: nat, n: nat) returns (ok: bool, data: seq<Quad>)
      requires at + n <= |regs|
      modifies this`now
      ensures ok == script(old(now)) && now == old(now) + 1
      ensures ok ==> data == regs[at..at + n]
    {
      ok, data := script(now), regs[at..at + n];
      now := now + 1;
    }

    /** Dice::Device::writeRegBlock: the loop advances through the data but not through the addresses. */
    method WriteRegBlock(at: nat, data: seq<Quad>) returns (ok: bool)
      requires at + Min(|data|, BLOCKSIZE_QUADS) <= |regs|
      modifies this
      ensures ok <==> AllSucceed(script, old(now), Transfers(|data|))
      ensures ok ==> regs == BlockWritten(old(regs), at, data) && now == old(now) + Transfers(|data|)
      ensures |regs| == |old(regs)| && old(history) <= history
      ensures regs == if history == old(history) then old(regs) else history[|history| - 1]
      ensures forall k | |old(history)| <= k < |history| :: Prefix(history[k], old(regs), at, data)
      ensures ok && data != [] ==> history != old(history)
    {
      hide BlockWritten, Prefix, AllSucceed, Transfers, Follows, WrittenUpTo;
      ok := WriteTransfers(at, data);
      FollowsMeans(old(history), history, old(regs), regs, at, data);
      if ok {
        WritingEnds(old(regs), regs, at, data);
      }
    }

    /** The loop of writeRegBlock */
    method WriteTransfers(at: nat, data: seq<Quad>) returns (ok: bool)
      requires at + Min(|data|, BLOCKSIZE_QUADS) <= |regs|
      modifies this
      ensures ok <==> AllSucceed(script, old(now), Transfers(|data|))
      ensures |regs| == |old(regs)| && Follows(old(history), history, old(regs), regs, at, data)
      ensures ok ==> WrittenUpTo(old(regs), regs, at, data, |data|) && now == old(now) + Transfers(|data|)
      ensures ok && data != [] ==> history != old(history)
    {
      hide BlockWritten, Overlay, Prefix, AllSucceed, Transfers, Follows, WrittenUpTo;
      ghost var regs0, log0 := regs, history;
      WritingBegins(log0, regs0, at, data);
      var quadsDone: nat := 0;
      while quadsDone < |data|
        invariant quadsDone <= |data| && |regs| == |regs0|
        invariant WrittenUpTo(regs0, regs, at, data, quadsDone)
        invariant Follows(log0, history, regs0, regs, at, data)
        invariant quadsDone > 0 ==> history != log0
        invariant now + Transfers(|data| - quadsDone) == old(now) + Transfers(|data|)
        invariant AllSucceed(script, old(now), Transfers(|data|)) <==>
                  AllSucceed(script, now, Transfers(|data| - quadsDone))
      {
        TransferStep(script, now, |data| - quadsDone);
        WritingFits(regs0, regs, at, data, quadsDone);
        var quadsTodo := |data| - quadsDone;
        if quadsTodo > BLOCKSIZE_QUADS {
          quadsTodo := BLOCKSIZE_QUADS;
        }
        ghost var before, log := regs, history;
        ok := Write(at, data[quadsDone..quadsDone + quadsTodo]);
        if !ok {
          return false;
        }
        WritingAdvances(regs0, before, at, data, quadsDone, quadsTodo);
        FollowsOn(log0, log, regs0, before, regs, at, data);
        quadsDone := quadsDone + quadsTodo;
      }
      TransferStep(script, now, 0);
      return true;
    }

    /** Dice::Device::readRegBlock */
    method ReadRegBlock(at: nat, n: nat) returns (ok: bool, data: seq<Quad>)
      requires at + n <= |regs|
      modifies this`now
      ensures ok <==> AllSucceed(script, old(now), Transfers(n))
      ensures ok ==> data == regs[at..at + n] && now == old(now) + Transfers(n)
    {
      hide AllSucceed, Transfers;
      data := [];
      TransferStep(script, now, 0);
      while |data| < n
        invariant |data| <= n && data == regs[at..at + |data|]
        invariant now + Transfers(n - |data|) == old(now) + Transfers(n)
        invariant AllSucceed(script, old(now), Transfers(n)) <==> AllSucceed(script, now, Transfers(n - |data|))
        decreases n - |data|
      {
        TransferStep(script, now, n - |data|);
        var quadsTodo := n - |data|;
        if quadsTodo > BLOCKSIZE_QUADS {
          quadsTodo := BLOCKSIZE_QUADS;
        }
        var chunk;
        ok, chunk := Read(at + |data|, quadsTodo);
        if !ok {
          return;
        }
        ReadOn(regs, at, |data|, quadsTodo);
        data := data + chunk;
      }
      TransferStep(script, now, 0);
      return true, data;
    }
  }
}
