/**
 The peak meter of a DICE device (dice_eap.cpp, EAP::PeakSpace): every read raises the held
 peaks, and taking a peak starts it afresh.
 */
module DicePeaks {
  import opened DiceRegisters
  import opened Integers
  import opened Wrappers

  type Peaks = map<Byte, nat>

  function DestOf(entry: Quad): Byte {
    entry % 0x100
  }

  /** Bits 16 to 27 of an entry. */
  function PeakOf(entry: Quad): (p: nat)
    ensures p < 0x1000
  {
    entry / 0x10000 % 0x1000
  }

  /** In a peak entry the destination is the low octet, and the peak the twelve bits from bit 16 on. */
  lemma EntryLayout(dest: Byte, src: Byte, peak: nat, unused: nat)
    requires peak < 0x1000 && unused < 0x10
    ensures var entry := unused * 0x1000_0000 + peak * 0x1_0000 + src * 0x100 + dest;
            entry < 0x1_0000_0000 && DestOf(entry) == dest && PeakOf(entry) == peak
  {}

  function Raise(peaks: Peaks, entry: Quad): Peaks {
    if DestOf(entry) !in peaks || peaks[DestOf(entry)] < PeakOf(entry) then peaks[DestOf(entry) := PeakOf(entry)]
    else peaks
  }

  function RaiseAll(peaks: Peaks, entries: seq<Quad>): Peaks {
    if entries == [] then peaks else Raise(RaiseAll(peaks, entries[..|entries| - 1]), entries[|entries| - 1])
  }

  // ----- whole runs -----

  datatype Event = ReadDone(entries: seq<Quad>) | ReadFailed | GetPeak(dest: Byte) | GetPeaks

  function Step(peaks: Peaks, e: Event): Peaks {
    match e
    case ReadDone(entries) => RaiseAll(peaks, entries)
    case ReadFailed => peaks
    case GetPeak(dest) => peaks - {dest}
    case GetPeaks => map[]
  }

  function Run(events: seq<Event>): Peaks {
    if events == [] then map[] else Step(Run(events[..|events| - 1]), events[|events| - 1])
  }

  /** The peaks one block of entries reports for a destination. */
  function Reported(entries: seq<Quad>, dest: Byte): seq<nat> {
    if entries == [] then []
    else
      var before := Reported(entries[..|entries| - 1], dest);
      var entry := entries[|entries| - 1];
      if DestOf(entry) == dest then before + [PeakOf(entry)] else before
  }

  /** All peaks reported for a destination since it was last taken. */
  function SinceTaken(events: seq<Event>, dest: Byte): seq<nat> {
    if events == [] then []
    else
      var before := SinceTaken(events[..|events| - 1], dest);
      match events[|events| - 1]
      case ReadDone(entries) => before + Reported(entries, dest)
      case ReadFailed => before
      case GetPeak(d) => if d == dest then [] else before
      case GetPeaks => []
  }

  ghost predicate IsMaximum(m: nat, s: seq<nat>) {
    m in s && forall x | x in s :: x <= m
  }

  /** The value held for a destination is the maximum of its samples, and absent when there are none. */
  ghost predicate Tracks(peaks: Peaks, dest: Byte, samples: seq<nat>) {
    && (dest in peaks <==> samples != [])
    && (dest in peaks ==> IsMaximum(peaks[dest], samples))
  }

  lemma {:induction false} RaiseAllTracks(peaks: Peaks, entries: seq<Quad>, dest: Byte, samples: seq<nat>)
    requires Tracks(peaks, dest, samples)
    ensures Tracks(RaiseAll(peaks, entries), dest, samples + Reported(entries, dest))
    decreases |entries|
  {
    if entries == [] {
      assert samples + [] == samples;
    } else {
      var init, entry := entries[..|entries| - 1], entries[|entries| - 1];
      RaiseAllTracks(peaks, init, dest, samples);
      if DestOf(entry) == dest {
        assert samples + Reported(entries, dest) == samples + Reported(init, dest) + [PeakOf(entry)];
      }
    }
  }

  /** Peak hold over every run of reads and takes. */
  lemma {:induction false} PeakHold(events: seq<Event>, dest: Byte)
    ensures Tracks(Run(events), dest, SinceTaken(events, dest))
    decreases |events|
  {
    if events != [] {
      var init, e := events[..|events| - 1], events[|events| - 1];
      PeakHold(init, dest);
      if e.ReadDone? {
        RaiseAllTracks(Run(init), e.entries, dest, SinceTaken(init, dest));
      }
    }
  }

  class PeakSpace {
    var peaks: Peaks

    constructor ()
      ensures peaks == Run([])
    {
      peaks := map[];
    }

    /**
     PeakSpace::read. The active routing table gives the number of entries; without one, at an
     unsupported rate, nothing is read.
     */
    method Read(bus: Bus, at: nat, active: Option<nat>) returns (ok: bool, ghost event: Event)
      requires active.Some? ==> at + active.value <= |bus.regs|
      modifies this, bus`now
      ensures ok <==> active.Some? && AllSucceed(bus.script, old(bus.now), Transfers(active.value))
      ensures event == if ok then ReadDone(bus.regs[at..at + active.value]) else ReadFailed
      ensures peaks == Step(old(peaks), event)
    {
      hide AllSucceed, Transfers;
      if active == None {
        return false, ReadFailed;
      }
      var nbRoutes := active.value;
      var entries;
      ok, entries := bus.ReadRegBlock(at, nbRoutes);
      if !ok {
        return false, ReadFailed;
      }
      var i := 0;
      while i < nbRoutes
        invariant 0 <= i <= nbRoutes && peaks == RaiseAll(old(peaks), entries[..i])
      {
        assert entries[..i + 1][..i] == entries[..i];
        var dest := DestOf(entries[i]);
        var peak := PeakOf(entries[i]);
        if dest !in peaks || peaks[dest] < peak {
          peaks := peaks[dest := peak];
        }
        i := i + 1;
      }
      assert entries[..nbRoutes] == entries;
      return true, ReadDone(entries);
    }

    /** PeakSpace::getPeak; a destination that was not read since it was last taken reads as zero. */
    method TakePeak(dst: Byte) returns (peak: nat)
      modifies this
      ensures peak == if dst in old(peaks) then old(peaks)[dst] else 0
      ensures peaks == Step(old(peaks), GetPeak(dst))
    {
      peak := if dst in peaks then peaks[dst] else 0;
      peaks := peaks - {dst};
    }

    /** PeakSpace::getPeaks */
    method TakePeaks() returns (taken: Peaks)
      modifies this
      ensures taken == old(peaks) && peaks == Step(old(peaks), GetPeaks)
    {
      taken := peaks;
      peaks := map[];
    }
  }
}
