/**
 The router of a DICE device's application space (dice_eap.cpp): a connection change edits the
 cached table of the current rate, writes it out, has the device adopt it, and reads every
 cache back.
 */
module DiceEap {
  import opened DiceRegisters
  import opened Integers
  import opened DiceRouter
  import opened Ranges

  datatype Rate = Low | Mid | High | Unsupported

  /** What one poll of the opcode register finds. */
  datatype Poll = Failed | Busy | Idle

  /**
   The device's side of a load-router command: whether the opcode write arrives, the value the
   return register then holds, and whether the device adopted the table. A device that reports
   success (0) has adopted it.
   */
  datatype Command = Command(written: bool, code: Quad, adopted: bool, readable: bool)

  const MAX_WAITS: nat := 100
  const SPACE_QUADS: nat := 0x400     // between a router space and the stream space after it

  function Truncate(x: int): Byte {
    x % 0x100
  }

  function RouterSpace(currCfg: nat, rate: Rate): nat
    requires rate != Unsupported
  {
    match rate
    case Low => currCfg
    case Mid => currCfg + 0x800
    case High => currCfg + 0x1000
  }

  /** What a connection change makes of a table. */
  function Edited(routes: seq<Route>, src: Byte, dest: Byte, muteId: Byte, enable: bool): seq<Route> {
    if enable then SetRoute(routes, src, dest)
    else if dest in AsMap(routes) then SetRoute(routes, muteId, dest)
    else routes
  }

  /** On the map a table stands for, a connection change touches its own destination only. */
  lemma EditedIsMapUpdate(routes: seq<Route>, src: Byte, dest: Byte, muteId: Byte, enable: bool)
    ensures AsMap(Edited(routes, src, dest, muteId, enable)) ==
            if enable then AsMap(routes)[dest := src]
            else if dest in AsMap(routes) then AsMap(routes)[dest := muteId]
            else AsMap(routes)
    ensures Unique(routes) ==> Unique(Edited(routes, src, dest, muteId, enable))
  {
    SetRouteIsMapUpdate(routes, src, dest);
    SetRouteIsMapUpdate(routes, muteId, dest);
    if Unique(routes) {
      SetRouteKeepsUnique(routes, src, dest);
      SetRouteKeepsUnique(routes, muteId, dest);
    }
  }

  /** The test of getConnectionState on a table: an absent destination reads as fed by source 255. */
  predicate Connected(routes: seq<Route>, source: int, dest: int) {
    var d := Truncate(dest);
    (if d in AsMap(routes) then AsMap(routes)[d] else NO_SOURCE) == source
  }

  /** Only the low octet of a destination counts, and the route is the first one of the table with it. */
  lemma ConnectedInTable(routes: seq<Route>, source: int, dest: int)
    ensures Connected(routes, source, dest) <==>
            || (exists i :: && 0 <= i < |routes| && routes[i].dest == dest % 256 && routes[i].src == source
                            && forall k :: 0 <= k < i ==> routes[k].dest != dest % 256)
            || (source == 255 && forall k :: 0 <= k < |routes| ==> routes[k].dest != dest % 256)
  {
    MapLookup(routes, dest % 256);
    var i := FirstIndex(routes, dest % 256);
    assert i < |routes| ==> routes[i].dest == dest % 256;
  }

  /** The test means "this source feeds this destination" except for source 255 and no entry. */
  lemma ConnectedMeansRouted(routes: seq<Route>, source: int, dest: int)
    ensures (Connected(routes, source, dest) <==>
               Truncate(dest) in AsMap(routes) && AsMap(routes)[Truncate(dest)] == source)
            <==> (source != NO_SOURCE || Truncate(dest) in AsMap(routes))
  {}

  /** After a connection is set up it reads back as set, and every other destination as before. */
  lemma SetConnectionReadsBack(routes: seq<Route>, src: Byte, dest: Byte, muteId: Byte, enable: bool, source: int,
                               d: int)
    ensures
      var after := Edited(routes, src, dest, muteId, enable);
      Connected(after, source, d) <==>
        if Truncate(d) != dest then Connected(routes, source, d)
        else if enable then source == src
        else if dest in AsMap(routes) then source == muteId
        else source == NO_SOURCE
  {
    EditedIsMapUpdate(routes, src, dest, muteId, enable);
  }

  /** The registers of a space as far as they can hold a table. */
  function Space(regs: seq<Quad>, at: nat): seq<Quad>
    requires at + SPACE_QUADS <= |regs|
  {
    regs[at..at + SPACE_QUADS]
  }

  lemma HoldsInSpace(before: seq<Quad>, after: seq<Quad>, at: nat, routes: seq<Route>)
    requires at + SPACE_QUADS <= |before| == |after| && |routes| < SPACE_QUADS
    requires Space(before, at) == Space(after, at)
    requires Holds(before, at, routes)
    ensures Holds(after, at, routes)
  {
    forall i | at <= i < at + SPACE_QUADS ensures before[i] == after[i] {
      assert before[i] == Space(before, at)[i - at] == Space(after, at)[i - at];
    }
  }

  // ----- when an update of the device succeeds -----

  /** The device is not busy, takes the command, ends it within the polls allowed, and reports success. */
  ghost predicate CommandGood(polls: nat -> Poll, first: nat, command: Command) {
    && polls(first) != Busy && command.written
    && (exists k: nat | first + 1 <= k < first + 1 + MAX_WAITS :: polls(k) == Idle)
    && command.readable && command.code == 0
  }

  /** In numbers: one of the 100 polls after the first finds the device idle, and the return value is zero. */
  lemma CommandIff(polls: nat -> Poll, first: nat, command: Command)
    ensures CommandGood(polls, first, command) <==>
            && polls(first) != Busy && command.written && command.readable && command.code == 0
            && exists k: nat :: first < k <= first + 100 && polls(k) == Idle
  {
    if k: nat :| first < k <= first + 100 && polls(k) == Idle {
      assert first + 1 <= k < first + 1 + MAX_WAITS;
    }
  }

  /** The tables of the three rates, of these sizes, and then the three stream configurations can be read. */
  ghost predicate CacheGood(script: nat -> bool, t: nat, low: nat, mid: nat, high: nat, size: nat,
                            streamReads: nat -> bool, n: nat) {
    && ReadGood(script, t, low, size)
    && ReadGood(script, t + 1 + Transfers(low), mid, size)
    && ReadGood(script, t + 2 + Transfers(low) + Transfers(mid), high, size)
    && streamReads(n) && streamReads(n + 1) && streamReads(n + 2)
  }

  class Eap {
    const bus: Bus
    const polls: nat -> Poll
    const commands: nat -> Command
    const streamReads: nat -> bool   // whether the n-th stream configuration read succeeds
    const newRouting: nat            // addresses and sizes of the register spaces
    const newRoutingSize: nat
    const currCfg: nat
    const currCfgSize: nat
    const capacity: nat              // m_router_nb_entries
    const muteId: Byte
    const low: RouterConfig
    const mid: RouterConfig
    const high: RouterConfig
    var rate: Rate
    var nPolls: nat
    var nCommands: nat
    var nStreamReads: nat

    constructor (bus: Bus, polls: nat -> Poll, commands: nat -> Command, streamReads: nat -> bool,
                 newRouting: nat, newRoutingSize: nat, currCfg: nat, currCfgSize: nat,
                 capacity: nat, muteId: Byte, rate: Rate)
      requires newRoutingSize >= 1 && currCfgSize >= 1 && newRouting + 1 + newRoutingSize <= currCfg
      requires currCfg + 0x1000 + SPACE_QUADS <= |bus.regs| && currCfg + 0x1000 + 1 + currCfgSize <= |bus.regs|
      ensures Valid() && this.bus == bus && this.rate == rate && this.capacity == capacity && this.muteId == muteId
      ensures this.polls == polls && this.commands == commands && this.streamReads == streamReads
      ensures this.newRouting == newRouting && this.newRoutingSize == newRoutingSize
      ensures this.currCfg == currCfg && this.currCfgSize == currCfgSize
      ensures nPolls == 0 && nCommands == 0 && nStreamReads == 0
      ensures low.routes == mid.routes == high.routes == [] && fresh({low, mid, high})
    {
      this.bus, this.polls, this.commands, this.streamReads := bus, polls, commands, streamReads;
      this.newRouting, this.newRoutingSize := newRouting, newRoutingSize;
      this.currCfg, this.currCfgSize := currCfg, currCfgSize;
      this.capacity, this.muteId, this.rate := capacity, muteId, rate;
      low := new RouterConfig([]);
      mid := new RouterConfig([]);
      high := new RouterConfig([]);
      nPolls, nCommands, nStreamReads := 0, 0, 0;
    }

    /** The spaces do not overlap, each can hold a table, and the caches are distinct objects. */
    ghost predicate Valid()
      reads this, bus
    {
      && newRoutingSize >= 1 && currCfgSize >= 1
      && newRouting + 1 + newRoutingSize <= currCfg
      && currCfg + 0x1000 + SPACE_QUADS <= |bus.regs|
      && currCfg + 0x1000 + 1 + currCfgSize <= |bus.regs|
      && low != mid && mid != high && low != high
    }

    function Cache(rate: Rate): RouterConfig
      requires rate != Unsupported
      reads this
    {
      match rate
      case Low => low
      case Mid => mid
      case High => high
    }

    /** Every cached table is the one the device holds for that rate. */
    ghost predicate CachesAgree()
      reads this, bus, low, mid, high
    {
      && Holds(bus.regs, RouterSpace(currCfg, Low), low.routes)
      && Holds(bus.regs, RouterSpace(currCfg, Mid), mid.routes)
      && Holds(bus.regs, RouterSpace(currCfg, High), high.routes)
    }

    /** The number of routes the device announces for a rate. */
    function Count(r: Rate): Quad
      requires r != Unsupported && currCfg + 0x1000 < |bus.regs|
      reads this, bus
    {
      bus.regs[RouterSpace(currCfg, r)]
    }

    /** Writing a table of n routes, having it adopted for the current rate and reading everything back succeed. */
    ghost predicate UpdateGood(n: nat)
      requires Valid()
      reads this, bus
    {
      && rate != Unsupported
      && WriteGood(bus.script, bus.now, n, newRoutingSize, capacity)
      && CommandGood(polls, nPolls, commands(nCommands))
      && CacheGood(bus.script, WriteEnd(bus.now, n, capacity),
                   if rate == Low then n else Count(Low), if rate == Mid then n else Count(Mid),
                   if rate == High then n else Count(High), currCfgSize, streamReads, nStreamReads)
    }

    /** EAP::operationBusy */
    method OperationBusy() returns (status: Poll)
      modifies this`nPolls
      ensures nPolls == old(nPolls) + 1 && status == polls(old(nPolls))
    {
      status := polls(nPolls);
      nPolls := nPolls + 1;
    }

    /** EAP::waitForOperationEnd: a failed poll is only waited out. */
    method WaitForOperationEnd() returns (done: bool)
      modifies this`nPolls
      ensures done <==> exists k: nat | old(nPolls) <= k < old(nPolls) + MAX_WAITS :: polls(k) == Idle
    {
      var maxWaits := MAX_WAITS;
      ghost var first := nPolls;
      while maxWaits > 0
        invariant 0 <= maxWaits <= MAX_WAITS && nPolls == first + MAX_WAITS - maxWaits
        invariant forall k: nat | first <= k < nPolls :: polls(k) != Idle
      {
        maxWaits := maxWaits - 1;
        var status := OperationBusy();
        if status == Idle {
          return true;
        }
      }
      return false;
    }

    /** The device copies the table of the new-routing space into a router space. */
    method Adopt(target: Rate)
      requires Valid() && target != Unsupported
      modifies bus
      ensures Valid() && bus.history == old(bus.history) && |bus.regs| == |old(bus.regs)| && bus.now == old(bus.now)
      ensures SameOutside(old(bus.regs), bus.regs, RouterSpace(currCfg, target), 1 + MAX_ROUTES)
      ensures forall routes: seq<Route> | |routes| <= MAX_ROUTES ::
                Holds(old(bus.regs), newRouting, routes) ==> Holds(bus.regs, RouterSpace(currCfg, target), routes)
    {
      var count := bus.regs[newRouting];
      if count <= MAX_ROUTES && newRouting + 1 + count <= |bus.regs| {
        bus.regs := Overlay(bus.regs, RouterSpace(currCfg, target), bus.regs[newRouting..newRouting + 1 + count]);
      }
    }

    /** EAP::loadRouterConfig by way of EAP::commandHelper. */
    method LoadRouterConfig(target: Rate) returns (ok: bool)
      requires Valid() && target != Unsupported
      modifies this`nPolls, this`nCommands, bus
      ensures Valid() && bus.history == old(bus.history) && |bus.regs| == |old(bus.regs)| && bus.now == old(bus.now)
      ensures SameOutside(old(bus.regs), bus.regs, RouterSpace(currCfg, target), 1 + MAX_ROUTES)
      ensures nCommands == old(nCommands) + if polls(old(nPolls)) == Busy then 0 else 1
      ensures var command := commands(old(nCommands));
              polls(old(nPolls)) == Busy || !command.written || !(command.adopted || command.code == 0) ==>
                bus.regs == old(bus.regs)
      ensures ok <==> CommandGood(polls, old(nPolls), commands(old(nCommands)))
      ensures ok ==> forall routes: seq<Route> | |routes| <= MAX_ROUTES ::
                Holds(old(bus.regs), newRouting, routes) ==> Holds(bus.regs, RouterSpace(currCfg, target), routes)
    {
      var status := OperationBusy();
      if status == Busy {
        return false;
      }
      var command := commands(nCommands);
      nCommands := nCommands + 1;
      if !command.written {
        return false;
      }
      if command.adopted || command.code == 0 {
        Adopt(target);
      }
      var done := WaitForOperationEnd();
      if !done {
        return false;
      }
      if !command.readable {
        return false;
      }
      return command.code == 0;
    }

    /** EAP::updateConfigurationCache; the stream configurations only matter by whether they can be read. */
    method UpdateConfigurationCache() returns (ok: bool)
      requires Valid()
      modifies low, mid, high, bus`now, this`nStreamReads
      ensures Valid() && bus.regs == old(bus.regs)
      ensures ok <==> CacheGood(bus.script, old(bus.now), Count(Low), Count(Mid), Count(High), currCfgSize,
                                streamReads, old(nStreamReads))
      ensures ok ==> CachesAgree()
      ensures ok ==>
                && nStreamReads == old(nStreamReads) + 3
                && (forall k: nat | old(nStreamReads) <= k < old(nStreamReads) + 3 :: streamReads(k))
                && Holds(bus.regs, currCfg, low.routes)
                && Holds(bus.regs, currCfg + 0x800, mid.routes)
                && Holds(bus.regs, currCfg + 0x1000, high.routes)
    {
      hide ReadGood, Transfers, Holds;
      ok := low.Read(bus, RouterSpace(currCfg, Low), currCfgSize);
      if !ok {
        return;
      }
      ok := mid.Read(bus, RouterSpace(currCfg, Mid), currCfgSize);
      if !ok {
        return;
      }
      ok := high.Read(bus, RouterSpace(currCfg, High), currCfgSize);
      if !ok {
        return;
      }
      var i: nat := 0;
      while i < 3
        invariant i <= 3 && Valid() && CachesAgree() && bus.regs == old(bus.regs)
        invariant nStreamReads == old(nStreamReads) + i
        invariant ok && forall k: nat | old(nStreamReads) <= k < nStreamReads :: streamReads(k)
      {
        ok := streamReads(nStreamReads);
        nStreamReads := nStreamReads + 1;
        if !ok {
          return;
        }
        i := i + 1;
      }
    }

    /** EAP::updateRouterConfig for the current rate's table, as updateCurrentRouterConfig calls it. */
    method UpdateCurrentRouterConfig() returns (ok: bool)
      requires Valid() && (rate != Unsupported ==> |Cache(rate).routes| <= MAX_ROUTES)
      modifies this`nPolls, this`nCommands, this`nStreamReads, bus, low, mid, high
      ensures Valid() && |bus.regs| == |old(bus.regs)|
      ensures ok <==> rate != Unsupported && old(UpdateGood(|Cache(rate).routes|))
      ensures ok ==> rate != Unsupported && CachesAgree() && Cache(rate).routes == old(Cache(rate).routes)
      ensures ok ==> forall r: Rate | r != Unsupported && r != rate ::
                Space(bus.regs, RouterSpace(currCfg, r)) == Space(old(bus.regs), RouterSpace(currCfg, r))
    {
      hide Holds, SameOutside, WriteGood, WriteEnd, CacheGood, CommandGood;
      if rate == Unsupported {
        return false;
      }
      var rcfg := Cache(rate);
      ghost var table, regs0 := rcfg.routes, bus.regs;
      ok := rcfg.Write(bus, newRouting, newRoutingSize, capacity);
      if !ok {
        return false;
      }
      ghost var regs1 := bus.regs;
      ok := LoadRouterConfig(rate);
      if !ok {
        var refreshed := UpdateConfigurationCache();
        return false;
      }
      HoldsCount(bus.regs, RouterSpace(currCfg, rate), table);
      forall r: Rate | r != Unsupported && r != rate
        ensures bus.regs[RouterSpace(currCfg, r)] == regs0[RouterSpace(currCfg, r)]
      {
        OtherCountKept(regs0, regs1, bus.regs, rate, r);
      }
      ok := UpdateConfigurationCache();
      if ok {
        HoldsOneTable(bus.regs, RouterSpace(currCfg, rate), table, rcfg.routes);
        forall r: Rate | r != Unsupported && r != rate
          ensures Space(bus.regs, RouterSpace(currCfg, r)) == Space(regs0, RouterSpace(currCfg, r))
        {
          OtherSpaceKept(regs0, regs1, bus.regs, rate, r);
        }
      }
    }

    lemma OtherCountKept(regs0: seq<Quad>, regs1: seq<Quad>, regs2: seq<Quad>, target: Rate, r: Rate)
      requires target != Unsupported && r != Unsupported && r != target
      requires newRouting + 1 + newRoutingSize <= currCfg && currCfg + 0x1000 + SPACE_QUADS <= |regs0|
      requires SameOutside(regs0, regs1, newRouting, 1 + newRoutingSize)
      requires SameOutside(regs1, regs2, RouterSpace(currCfg, target), 1 + MAX_ROUTES)
      ensures |regs2| == |regs0| && regs2[RouterSpace(currCfg, r)] == regs0[RouterSpace(currCfg, r)]
    {}

    lemma OtherSpaceKept(regs0: seq<Quad>, regs1: seq<Quad>, regs2: seq<Quad>, target: Rate, r: Rate)
      requires target != Unsupported && r != Unsupported && r != target
      requires newRouting + 1 + newRoutingSize <= currCfg && currCfg + 0x1000 + SPACE_QUADS <= |regs0|
      requires SameOutside(regs0, regs1, newRouting, 1 + newRoutingSize)
      requires SameOutside(regs1, regs2, RouterSpace(currCfg, target), 1 + MAX_ROUTES)
      ensures Space(regs2, RouterSpace(currCfg, r)) == Space(regs0, RouterSpace(currCfg, r))
    {}

    /** EAP::Router::setConnectionState; its result does not say whether the device was updated. */
    method SetConnectionState(source: int, dest: int, enable: bool) returns (ret: bool, ghost updated: bool)
      requires Valid()
      requires rate != Unsupported ==> |SetRoute(Cache(rate).routes, Truncate(source), Truncate(dest))| <= MAX_ROUTES
      modifies this`nPolls, this`nCommands, this`nStreamReads, bus, low, mid, high
      ensures Valid()
      ensures rate == Unsupported ==> !ret && !updated && bus.regs == old(bus.regs)
      ensures rate != Unsupported ==> (ret <==> enable || Truncate(dest) in AsMap(old(Cache(rate).routes)))
      ensures updated <==> rate != Unsupported && old(UpdateGood(
                |Edited(Cache(rate).routes, Truncate(source), Truncate(dest), muteId, enable)|))
      ensures rate != Unsupported ==> (ret == updated <==>
                ((enable || Truncate(dest) in AsMap(old(Cache(rate).routes)))
                 <==> old(UpdateGood(|Edited(Cache(rate).routes, Truncate(source), Truncate(dest), muteId, enable)|))))
      ensures updated ==> rate != Unsupported && CachesAgree()
      ensures updated ==>
                Cache(rate).routes == Edited(old(Cache(rate).routes), Truncate(source), Truncate(dest), muteId, enable)
      ensures updated && rate == Low ==>
                Holds(bus.regs, currCfg, Edited(old(low.routes), Truncate(source), Truncate(dest), muteId, enable))
      ensures updated && rate == Mid ==>
                Holds(bus.regs, currCfg + 0x800,
                      Edited(old(mid.routes), Truncate(source), Truncate(dest), muteId, enable))
      ensures updated && rate == High ==>
                Holds(bus.regs, currCfg + 0x1000,
                      Edited(old(high.routes), Truncate(source), Truncate(dest), muteId, enable))
      ensures updated ==> forall r: Rate | r != Unsupported && r != rate ::
                Space(bus.regs, RouterSpace(currCfg, r)) == Space(old(bus.regs), RouterSpace(currCfg, r))
      ensures updated && old(CachesAgree()) ==>
                forall r: Rate | r != Unsupported && r != rate && |old(Cache(r).routes)| < SPACE_QUADS ::
                  Cache(r).routes == old(Cache(r).routes)
    {
      hide Holds, WriteGood, WriteEnd, CommandGood, CacheGood, Space;
      if rate == Unsupported {
        return false, false;
      }
      var rcfg := Cache(rate);
      ghost var before := rcfg.routes;
      if enable {
        ret := rcfg.SetupRoute(Truncate(source), Truncate(dest));
      } else {
        ret := rcfg.MuteRoute(Truncate(dest), muteId);
        EditedLength(before, Truncate(source), Truncate(dest), muteId);
      }
      updated := UpdateCurrentRouterConfig();
      if updated && old(CachesAgree()) {
        forall r: Rate | r != Unsupported && r != rate && |old(Cache(r).routes)| < SPACE_QUADS
          ensures Cache(r).routes == old(Cache(r).routes)
        {
          var at := RouterSpace(currCfg, r);
          HoldsInSpace(old(bus.regs), bus.regs, at, old(Cache(r).routes));
          HoldsOneTable(bus.regs, at, old(Cache(r).routes), Cache(r).routes);
        }
      }
    }

    /** EAP::Router::getConnectionState */
    method GetConnectionState(source: int, dest: int) returns (connected: bool)
      ensures connected <==> rate != Unsupported && Connected(Cache(rate).routes, source, dest)
      ensures rate == Low ==> connected == Connected(low.routes, source, dest)
      ensures rate == Mid ==> connected == Connected(mid.routes, source, dest)
      ensures rate == High ==> connected == Connected(high.routes, source, dest)
    {
      if rate == Unsupported {
        return false;
      }
      var s := Cache(rate).GetSourceForDestination(Truncate(dest));
      return s == source;
    }
  }

  lemma EditedLength(routes: seq<Route>, src: Byte, dest: Byte, muteId: Byte)
    ensures |Edited(routes, src, dest, muteId, false)| <= |SetRoute(routes, src, dest)|
  {
    MapLookup(routes, dest);
  }

  /**
   A freshly set up router whose bus transfers all succeed, or all fail, and which is asked to connect
   source 1 to 2
   */
  method ConnectOnce(transfers: bool) returns (ret: bool, ghost updated: bool)
    ensures ret
    ensures updated <==> transfers
  {
    var bus := new Bus(_ => transfers, seq(0x1800, _ => 0));
    var eap := new Eap(bus, _ => Idle, _ => Command(true, 0, true, true), _ => true, 0, 1, 2, 1, 0, 0, Low);
    ghost var n := |Edited([], 1, 2, 0, true)|;
    assert n == 1;
    OneTransfer(bus.script, 0);
    OneTransfer(bus.script, 1);
    assert eap.polls(1) == Idle;
    assert eap.UpdateGood(n) <==> transfers;
    ret, updated := eap.SetConnectionState(1, 2, true);
  }
}
