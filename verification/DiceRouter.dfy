/**
 The routing table of a DICE device (dice_eap.cpp, EAP::RouterConfig): a vector of
 (destination, source) pairs that stands for a finite map, and its image in the registers.
 */
module DiceRouter {
  import opened DiceRegisters
  import opened Integers
  import opened Ranges

  const MAX_ROUTES: nat := 128
  const NO_SOURCE: Byte := 255   // (unsigned char)-1

  datatype Route = Route(dest: Byte, src: Byte)

  // ----- the map a table stands for -----

  /** The first entry of a destination counts. */
  function AsMap(routes: seq<Route>): map<Byte, Byte> {
    if routes == [] then map[] else AsMap(routes[1..])[routes[0].dest := routes[0].src]
  }

  /** At most one entry per destination. */
  ghost predicate Unique(routes: seq<Route>) {
    forall i, j | 0 <= i < j < |routes| :: routes[i].dest != routes[j].dest
  }

  /** Index of the first entry of a destination, or the length of the table. */
  function FirstIndex(routes: seq<Route>, dest: Byte): (i: nat)
    ensures i <= |routes|
    ensures i < |routes| ==> routes[i].dest == dest
    ensures forall k | 0 <= k < i :: routes[k].dest != dest
  {
    if routes == [] then 0 else if routes[0].dest == dest then 0 else 1 + FirstIndex(routes[1..], dest)
  }

  lemma {:induction false} MapLookup(routes: seq<Route>, dest: Byte)
    ensures dest in AsMap(routes) <==> FirstIndex(routes, dest) < |routes|
    ensures dest in AsMap(routes) ==> AsMap(routes)[dest] == routes[FirstIndex(routes, dest)].src
    decreases |routes|
  {
    if routes != [] {
      var rest := routes[1..];
      MapLookup(rest, dest);
      assert AsMap(routes) == AsMap(rest)[routes[0].dest := routes[0].src];
      if routes[0].dest != dest && dest in AsMap(routes) {
        assert routes[FirstIndex(routes, dest)] == rest[FirstIndex(rest, dest)];
      }
    }
  }

  /** With one entry per destination, every entry counts. */
  lemma UniqueEntry(routes: seq<Route>, i: nat)
    requires Unique(routes) && i < |routes|
    ensures routes[i].dest in AsMap(routes) && AsMap(routes)[routes[i].dest] == routes[i].src
  {
    MapLookup(routes, routes[i].dest);
    assert FirstIndex(routes, routes[i].dest) == i;
  }

  lemma {:induction false} FirstIndexIs(routes: seq<Route>, dest: Byte, i: nat)
    requires i <= |routes| && (i < |routes| ==> routes[i].dest == dest)
    requires forall k | 0 <= k < i :: routes[k].dest != dest
    ensures FirstIndex(routes, dest) == i
  {}

  // ----- edits -----

  function SetRoute(routes: seq<Route>, src: Byte, dest: Byte): seq<Route> {
    var i := FirstIndex(routes, dest);
    if i < |routes| then routes[i := Route(dest, src)] else routes + [Route(dest, src)]
  }

  function DropRoute(routes: seq<Route>, dest: Byte): seq<Route> {
    var i := FirstIndex(routes, dest);
    if i < |routes| then routes[..i] + routes[i + 1..] else routes
  }

  lemma SetRouteLookup(routes: seq<Route>, src: Byte, dest: Byte, d: Byte)
    ensures
      var after := SetRoute(routes, src, dest);
      && (d == dest ==> FirstIndex(after, d) < |after| && after[FirstIndex(after, d)].src == src)
      && (d != dest ==> (FirstIndex(after, d) < |after| <==> FirstIndex(routes, d) < |routes|))
      && (d != dest && FirstIndex(routes, d) < |routes| ==>
            after[FirstIndex(after, d)] == routes[FirstIndex(routes, d)])
  {
    var after := SetRoute(routes, src, dest);
    var i, j := FirstIndex(routes, dest), FirstIndex(routes, d);
    if d == dest {
      FirstIndexIs(after, d, i);
    } else if j < |routes| {
      FirstIndexIs(after, d, j);
    } else {
      FirstIndexIs(after, d, |after|);
    }
  }

  /** Setting up a route is a map update, and nothing else. */
  lemma SetRouteIsMapUpdate(routes: seq<Route>, src: Byte, dest: Byte)
    ensures AsMap(SetRoute(routes, src, dest)) == AsMap(routes)[dest := src]
  {
    hide AsMap, SetRoute, FirstIndex;
    var after := SetRoute(routes, src, dest);
    var updated := AsMap(routes)[dest := src];
    forall d ensures d in AsMap(after) <==> d in updated
             ensures d in AsMap(after) ==> AsMap(after)[d] == updated[d]
    {
      SetRouteLookup(routes, src, dest, d);
      MapLookup(after, d);
      MapLookup(routes, d);
    }
  }

  lemma SetRouteKeepsUnique(routes: seq<Route>, src: Byte, dest: Byte)
    requires Unique(routes)
    ensures Unique(SetRoute(routes, src, dest))
  {}

  lemma DropRouteLookup(routes: seq<Route>, dest: Byte, d: Byte)
    requires Unique(routes)
    ensures
      var after := DropRoute(routes, dest);
      && (d == dest ==> FirstIndex(after, d) == |after|)
      && (d != dest ==> (FirstIndex(after, d) < |after| <==> FirstIndex(routes, d) < |routes|))
      && (d != dest && FirstIndex(routes, d) < |routes| ==>
            after[FirstIndex(after, d)] == routes[FirstIndex(routes, d)])
  {
    var after := DropRoute(routes, dest);
    var i, j := FirstIndex(routes, dest), FirstIndex(routes, d);
    if d == dest {
      FirstIndexIs(after, d, |after|);
    } else if j < i {
      FirstIndexIs(after, d, j);
    } else if j < |routes| {
      FirstIndexIs(after, d, j - 1);
    } else {
      FirstIndexIs(after, d, |after|);
    }
  }

  lemma DropRouteKeepsUnique(routes: seq<Route>, dest: Byte)
    requires Unique(routes)
    ensures Unique(DropRoute(routes, dest))
  {}

  /** Dropping a route removes the destination from the map, given one entry per destination. */
  lemma DropRouteIsMapRemoval(routes: seq<Route>, dest: Byte)
    requires Unique(routes)
    ensures AsMap(DropRoute(routes, dest)) == AsMap(routes) - {dest}
    ensures Unique(DropRoute(routes, dest))
  {
    DropRouteKeepsUnique(routes, dest);
    hide AsMap, DropRoute, FirstIndex, Unique;
    var after := DropRoute(routes, dest);
    var reduced := AsMap(routes) - {dest};
    forall d ensures d in AsMap(after) <==> d in reduced
             ensures d in AsMap(after) ==> AsMap(after)[d] == reduced[d]
    {
      DropRouteLookup(routes, dest, d);
      MapLookup(after, d);
      MapLookup(routes, d);
    }
  }

  /** The destinations fed by a source, in table order. */
  function Fed(routes: seq<Route>, src: Byte): seq<Byte> {
    if routes == [] then []
    else if routes[0].src == src then [routes[0].dest] + Fed(routes[1..], src)
    else Fed(routes[1..], src)
  }

  lemma {:induction false} FedContains(routes: seq<Route>, src: Byte, d: Byte)
    ensures d in Fed(routes, src) <==> Route(d, src) in routes
    decreases |routes|
  {
    if routes != [] {
      FedContains(routes[1..], src, d);
    }
  }

  /** With one entry per destination, the list is the preimage of the source under the map. */
  lemma FedIsPreimage(routes: seq<Route>, src: Byte, d: Byte)
    requires Unique(routes)
    ensures d in Fed(routes, src) <==> d in AsMap(routes) && AsMap(routes)[d] == src
  {
    FedContains(routes, src, d);
    MapLookup(routes, d);
    if Route(d, src) in routes {
      var i :| 0 <= i < |routes| && routes[i] == Route(d, src);
      UniqueEntry(routes, i);
    }
  }

  lemma {:induction false} FedSnoc(routes: seq<Route>, r: Route, src: Byte)
    ensures Fed(routes + [r], src) == Fed(routes, src) + (if r.src == src then [r.dest] else [])
    decreases |routes|
  {
    if routes != [] {
      assert (routes + [r])[1..] == routes[1..] + [r];
      FedSnoc(routes[1..], r, src);
    }
  }

  // ----- the image in the registers -----

  function Encode(r: Route): Quad {
    (r.src * 0x100 + r.dest) % 0x10000
  }

  function DecodeEntry(q: Quad): Route {
    Route(q % 0x100, q / 0x100 % 0x100)
  }

  lemma DecodeEncode(r: Route)
    ensures DecodeEntry(Encode(r)) == r
  {}

  /** In the registers a route has its destination in the low octet and its source in the next one. */
  lemma RouteLayout(dest: Byte, src: Byte, unused: Quad)
    requires unused < 0x1_0000
    ensures Encode(Route(dest, src)) == src * 0x100 + dest
    ensures DecodeEntry(unused * 0x1_0000 + src * 0x100 + dest) == Route(dest, src)
  {}

  function Encoded(routes: seq<Route>): (q: seq<Quad>)
    ensures |q| == |routes|
    ensures forall i | 0 <= i < |routes| :: q[i] == Encode(routes[i])
  {
    seq(|routes|, i requires 0 <= i < |routes| => Encode(routes[i]))
  }

  /** A block holds a count followed by that many entries. */
  ghost predicate Holds(regs: seq<Quad>, at: nat, routes: seq<Route>) {
    && at + 1 + |routes| <= |regs|
    && regs[at] == |routes|
    && forall i | 0 <= i < |routes| :: DecodeEntry(regs[at + 1 + i]) == routes[i]
  }

  /** A block decodes as one table at most. */
  lemma HoldsOneTable(regs: seq<Quad>, at: nat, r: seq<Route>, s: seq<Route>)
    requires Holds(regs, at, r) && Holds(regs, at, s)
    ensures r == s
  {}

  lemma {:induction false} ZerosWritten(regs: seq<Quad>, at: nat, data: seq<Quad>)
    requires data != [] && at + Min(|data|, BLOCKSIZE_QUADS) <= |regs|
    requires forall i | 0 <= i < |data| :: data[i] == 0
    ensures BlockWritten(regs, at, data)[at] == 0
    decreases |data|
  {
    var todo := Min(|data|, BLOCKSIZE_QUADS);
    if todo < |data| {
      ZerosWritten(Overlay(regs, at, data[..todo]), at, data[todo..]);
    }
  }

  /** While the table is being cleared the block decodes as empty. */
  lemma ClearedHoldsNothing(state: seq<Quad>, regs: seq<Quad>, at: nat, zeros: seq<Quad>)
    requires zeros != [] && at + Min(|zeros|, BLOCKSIZE_QUADS) <= |regs|
    requires forall i | 0 <= i < |zeros| :: zeros[i] == 0
    requires Prefix(state, regs, at, zeros)
    ensures Holds(state, at, [])
  {
    var n: nat :| 0 < n <= |zeros| && state == BlockWritten(regs, at, zeros[..n]);
    ZerosWritten(regs, at, zeros[..n]);
  }

  /** While the entries are being written the count stays zero. */
  lemma EntriesKeepCount(state: seq<Quad>, regs: seq<Quad>, at: nat, entries: seq<Quad>)
    requires at + 1 + Min(|entries|, BLOCKSIZE_QUADS) <= |regs| && Holds(regs, at, [])
    requires Prefix(state, regs, at + 1, entries)
    ensures Holds(state, at, [])
  {
    var n: nat :| 0 < n <= |entries| && state == BlockWritten(regs, at + 1, entries[..n]);
    BlockWrittenFrame(regs, at + 1, entries[..n], at);
  }

  /** Once the entries are in place, writing the count completes the table. */
  lemma CountCompletesTable(regs: seq<Quad>, at: nat, routes: seq<Route>, state: seq<Quad>)
    requires at + 1 + |routes| <= |regs| && |routes| <= MAX_ROUTES
    requires state == BlockWritten(BlockWritten(regs, at + 1, Encoded(routes)), at, [|routes|])
    ensures Holds(state, at, routes)
  {
    hide BlockWritten, DecodeEntry, Encoded, Overlay;
    var entries := Encoded(routes);
    ShortBlockWritten(regs, at + 1, entries);
    ShortBlockWritten(Overlay(regs, at + 1, entries), at, [|routes|]);
    CountOverEntries(regs, at, entries, |routes|);
    forall i | 0 <= i < |routes| ensures DecodeEntry(state[at + 1 + i]) == routes[i] {
      DecodeEncode(routes[i]);
    }
  }

  lemma CountOverEntries(regs: seq<Quad>, at: nat, entries: seq<Quad>, count: Quad)
    requires at + 1 + |entries| <= |regs|
    ensures var state := Overlay(Overlay(regs, at + 1, entries), at, [count]);
            && |state| == |regs| && state[at] == count
            && forall i {:trigger entries[i]} | 0 <= i < |entries| :: state[at + 1 + i] == entries[i]
  {}

  lemma PrefixFrame(state: seq<Quad>, regs: seq<Quad>, at: nat, data: seq<Quad>, lo: nat, n: nat)
    requires at + Min(|data|, BLOCKSIZE_QUADS) <= |regs|
    requires lo <= at && at + Min(|data|, BLOCKSIZE_QUADS) <= lo + n
    requires state == regs || Prefix(state, regs, at, data)
    ensures SameOutside(regs, state, lo, n)
  {
    if state != regs {
      var m: nat :| 0 < m <= |data| && state == BlockWritten(regs, at, data[..m]);
      forall i | 0 <= i < |regs| && !(lo <= i < lo + n) ensures state[i] == regs[i] {
        BlockWrittenFrame(regs, at, data[..m], i);
      }
    }
  }

  lemma SameOutsideTransitive(a: seq<Quad>, b: seq<Quad>, c: seq<Quad>, at: nat, n: nat)
    requires SameOutside(a, b, at, n) && SameOutside(b, c, at, n)
    ensures SameOutside(a, c, at, n)
  {}

  lemma OneQuadPrefix(state: seq<Quad>, regs: seq<Quad>, at: nat, q: Quad)
    requires at + 1 <= |regs| && Prefix(state, regs, at, [q])
    ensures state == BlockWritten(regs, at, [q])
  {
    assert [q][..1] == [q];
  }

  /** Both parts of a table can be read, and its count fits the space. */
  ghost predicate ReadGood(script: nat -> bool, t: nat, count: nat, size: nat) {
    script(t) && count <= size && AllSucceed(script, t + 1, Transfers(count))
  }

  /** A table of n routes fits the space, as do the zeros, and the transfers of zeros, entries and count succeed. */
  ghost predicate WriteGood(script: nat -> bool, t: nat, n: nat, size: nat, capacity: nat) {
    && capacity + 1 <= size && n <= size
    && AllSucceed(script, t, Transfers(capacity + 1))
    && AllSucceed(script, t + Transfers(capacity + 1), Transfers(n))
    && script(t + Transfers(capacity + 1) + Transfers(n))
  }

  function WriteEnd(t: nat, n: nat, capacity: nat): nat {
    t + Transfers(capacity + 1) + Transfers(n) + 1
  }

  lemma OneTransfer(script: nat -> bool, t: nat)
    ensures Transfers(1) == 1 && (AllSucceed(script, t, 1) <==> script(t))
  {
    TransferStep(script, t, 1);
  }

  class RouterConfig {
    var routes: seq<Route>

    constructor (routes: seq<Route>)
      ensures this.routes == routes
    {
      this.routes := routes;
    }

    method ClearRoutes() returns (ok: bool)
      modifies this
      ensures ok && routes == []
    {
      routes := [];
      return true;
    }

    method CreateRoute(src: Byte, dest: Byte) returns (ok: bool)
      modifies this
      ensures ok && routes == old(routes) + [Route(dest, src)]
    {
      routes := routes + [Route(dest, src)];
      return true;
    }

    method SetupRoute(src: Byte, dest: Byte) returns (ok: bool)
      modifies this
      ensures ok && routes == SetRoute(old(routes), src, dest)
    {
      var it := 0;
      while it < |routes|
        invariant 0 <= it <= |routes| && routes == old(routes)
        invariant forall k | 0 <= k < it :: routes[k].dest != dest
      {
        if routes[it].dest == dest {
          FirstIndexIs(routes, dest, it);
          routes := routes[it := Route(dest, src)];
          return true;
        }
        it := it + 1;
      }
      FirstIndexIs(routes, dest, it);
      ok := CreateRoute(src, dest);
    }

    /** removeRoute(src, dest): only if that source feeds the destination. */
    method RemoveRouteFrom(src: Byte, dest: Byte) returns (ok: bool)
      modifies this
      ensures ok <==> dest in AsMap(old(routes)) && AsMap(old(routes))[dest] == src
      ensures routes == if ok then DropRoute(old(routes), dest) else old(routes)
    {
      MapLookup(routes, dest);
      var it := 0;
      while it < |routes|
        invariant 0 <= it <= |routes| && routes == old(routes)
        invariant forall k | 0 <= k < it :: routes[k].dest != dest
      {
        if routes[it].dest == dest {
          FirstIndexIs(routes, dest, it);
          if routes[it].src != src {
            return false;
          }
          routes := routes[..it] + routes[it + 1..];
          return true;
        }
        it := it + 1;
      }
      FirstIndexIs(routes, dest, it);
      return false;
    }

    /** muteRoute: a destination that has no entry is not muted. */
    method MuteRoute(dest: Byte, muteId: Byte) returns (ok: bool)
      modifies this
      ensures ok <==> dest in AsMap(old(routes))
      ensures routes == if ok then SetRoute(old(routes), muteId, dest) else old(routes)
    {
      MapLookup(routes, dest);
      var it := 0;
      while it < |routes|
        invariant 0 <= it <= |routes| && routes == old(routes)
        invariant forall k | 0 <= k < it :: routes[k].dest != dest
      {
        if routes[it].dest == dest {
          FirstIndexIs(routes, dest, it);
          routes := routes[it := Route(dest, muteId)];
          return true;
        }
        it := it + 1;
      }
      FirstIndexIs(routes, dest, it);
      return false;
    }

    /** removeRoute(dest) */
    method RemoveRoute(dest: Byte) returns (ok: bool)
      modifies this
      ensures ok <==> dest in AsMap(old(routes))
      ensures routes == DropRoute(old(routes), dest)
    {
      MapLookup(routes, dest);
      var it := 0;
      while it < |routes|
        invariant 0 <= it <= |routes| && routes == old(routes)
        invariant forall k | 0 <= k < it :: routes[k].dest != dest
      {
        if routes[it].dest == dest {
          FirstIndexIs(routes, dest, it);
          routes := routes[..it] + routes[it + 1..];
          return true;
        }
        it := it + 1;
      }
      FirstIndexIs(routes, dest, it);
      return false;
    }

    /** getSourceForDestination; 255 stands for a destination without an entry. */
    method GetSourceForDestination(dest: Byte) returns (src: Byte)
      ensures src == if dest in AsMap(routes) then AsMap(routes)[dest] else NO_SOURCE
    {
      MapLookup(routes, dest);
      var it := 0;
      while it < |routes|
        invariant 0 <= it <= |routes|
        invariant forall k | 0 <= k < it :: routes[k].dest != dest
      {
        if routes[it].dest == dest {
          FirstIndexIs(routes, dest, it);
          return routes[it].src;
        }
        it := it + 1;
      }
      FirstIndexIs(routes, dest, it);
      return NO_SOURCE;
    }

    method GetDestinationsForSource(source: Byte) returns (dests: seq<Byte>)
      ensures dests == Fed(routes, source)
      ensures Unique(routes) ==>
                forall d: Byte :: d in dests <==> d in AsMap(routes) && AsMap(routes)[d] == source
    {
      dests := [];
      var it := 0;
      while it < |routes|
        invariant 0 <= it <= |routes| && dests == Fed(routes[..it], source)
      {
        FedSnoc(routes[..it], routes[it], source);
        assert routes[..it + 1] == routes[..it] + [routes[it]];
        if routes[it].src == source {
          dests := dests + [routes[it].dest];
        }
        it := it + 1;
      }
      assert routes[..it] == routes;
      if Unique(routes) {
        forall d: Byte ensures d in dests <==> d in AsMap(routes) && AsMap(routes)[d] == source {
          FedIsPreimage(routes, source, d);
        }
      }
    }

    /** RouterConfig::read from a register space of the given size. */
    method Read(bus: Bus, at: nat, size: nat) returns (ok: bool)
      requires size >= 1 && at + 1 + size <= |bus.regs|
      modifies this, bus`now
      ensures ok <==> ReadGood(bus.script, old(bus.now), bus.regs[at], size)
      ensures ok ==> bus.now == old(bus.now) + 1 + Transfers(bus.regs[at]) && bus.regs[at] <= size
      ensures if ok then Holds(bus.regs, at, routes) else routes == []
    {
      hide AllSucceed, Transfers;
      OneTransfer(bus.script, bus.now);
      ok := ClearRoutes();
      var count;
      ok, count := bus.ReadRegBlock(at, 1);
      if !ok {
        return;
      }
      var nbRoutes := count[0];
      if nbRoutes > size {
        return false;
      }
      var entries;
      ok, entries := bus.ReadRegBlock(at + 1, nbRoutes);
      if !ok {
        return;
      }
      var i := 0;
      while i < nbRoutes
        invariant 0 <= i <= nbRoutes && |routes| == i
        invariant forall k | 0 <= k < i :: routes[k] == DecodeEntry(entries[k])
        invariant bus.now == old(bus.now) + 1 + Transfers(nbRoutes)
      {
        routes := routes + [DecodeEntry(entries[i])];
        i := i + 1;
      }
    }

    /**
     RouterConfig::write: clear the space, write the entries, and only then the count. After
     every completed transfer the block decodes as the empty table or as the whole new one.
     */
    method Write(bus: Bus, at: nat, size: nat, capacity: nat) returns (ok: bool)
      requires size >= 1 && at + 1 + size <= |bus.regs| && |routes| <= MAX_ROUTES
      modifies bus
      ensures ok <==> WriteGood(bus.script, old(bus.now), |routes|, size, capacity)
      ensures ok ==> Holds(bus.regs, at, routes) && bus.now == WriteEnd(old(bus.now), |routes|, capacity)
      ensures ok ==> capacity + 1 <= size && |routes| <= size
      ensures old(bus.history) <= bus.history && |bus.regs| == |old(bus.regs)|
      ensures bus.regs == if bus.history == old(bus.history) then old(bus.regs) else bus.history[|bus.history| - 1]
      ensures forall k | |old(bus.history)| <= k < |bus.history| ::
                Holds(bus.history[k], at, []) || Holds(bus.history[k], at, routes)
      ensures SameOutside(old(bus.regs), bus.regs, at, 1 + size)
    {
      hide Holds, Prefix, BlockWritten, SameOutside, Encoded, AllSucceed, Transfers;
      var nbRoutes := |routes|;
      var entries := Encoded(routes);
      var zeros: seq<Quad> := seq(capacity + 1, i => 0);
      ghost var regs0, history0 := bus.regs, bus.history;
      PrefixFrame(regs0, regs0, at, [], at, 1 + size);
      if capacity + 1 > size {
        return false;
      }
      ok := bus.WriteRegBlock(at, zeros);
      forall k | |history0| <= k < |bus.history| ensures Holds(bus.history[k], at, []) {
        ClearedHoldsNothing(bus.history[k], regs0, at, zeros);
      }
      PrefixFrame(bus.regs, regs0, at, zeros, at, 1 + size);
      if !ok || nbRoutes > size {
        return false;
      }
      ghost var regs1, history1 := bus.regs, bus.history;
      ok := bus.WriteRegBlock(at + 1, entries);
      forall k | |history1| <= k < |bus.history| ensures Holds(bus.history[k], at, []) {
        EntriesKeepCount(bus.history[k], regs1, at, entries);
      }
      PrefixFrame(bus.regs, regs1, at + 1, entries, at, 1 + size);
      SameOutsideTransitive(regs0, regs1, bus.regs, at, 1 + size);
      if !ok {
        return false;
      }
      ghost var regs2, history2 := bus.regs, bus.history;
      OneTransfer(bus.script, bus.now);
      ok := bus.WriteRegBlock(at, [nbRoutes]);
      forall k | |history2| <= k < |bus.history| ensures Holds(bus.history[k], at, routes) {
        OneQuadPrefix(bus.history[k], regs2, at, nbRoutes);
        CountCompletesTable(regs1, at, routes, bus.history[k]);
      }
      PrefixFrame(bus.regs, regs2, at, [nbRoutes], at, 1 + size);
      SameOutsideTransitive(regs0, regs2, bus.regs, at, 1 + size);
    }
  }

  /**
   On a bus that carries out every transfer a table can be written exactly when it fits the space, as the zeros
   have to, and is then read back as it was.
   */
  method WriteThenRead(table: RouterConfig, other: RouterConfig, bus: Bus, at: nat, size: nat, capacity: nat)
    returns (written: bool, read: bool)
    requires (forall t: nat :: bus.script(t)) && table != other
    requires size >= 1 && at + 1 + size <= |bus.regs| && |table.routes| <= MAX_ROUTES
    modifies other, bus
    ensures written <==> capacity < size && |table.routes| <= size
    ensures written ==> read && other.routes == table.routes && table.routes == old(table.routes)
  {
    hide Holds, Transfers, Prefix;
    written := table.Write(bus, at, size, capacity);
    read := false;
    if written {
      HoldsCount(bus.regs, at, table.routes);
      read := other.Read(bus, at, size);
      HoldsOneTable(bus.regs, at, table.routes, other.routes);
    }
  }

  lemma HoldsCount(regs: seq<Quad>, at: nat, routes: seq<Route>)
    requires Holds(regs, at, routes)
    ensures at < |regs| && regs[at] == |routes|
  {}
}
