/**
 Bus discovery (devicemanager.cpp, DeviceManager::discover, outside slave mode): the list of known
 devices is reconciled with a first scan of the bus, devices that need it are discovered again,
 new devices are picked up in a second scan, and the list is put into an order that users can rely
 on. Devices are heap objects, represented by handles so that deleting them can be counted; the
 control tree is the list of children of a container.
 */
module Discovery {
  import opened DeviceStrings

  /** What the manager finds out about a node of the bus while scanning it */
  datatype Node = Node(local: bool, readable: bool, rom: Rom, driver: bool, discovers: bool, snoops: bool)

  datatype Device = Device(handle: nat, rom: Rom)

  // ----- lists of devices -----

  predicate DistinctGuids(ds: seq<Device>) {
    forall i, j :: 0 <= i < j < |ds| ==> ds[i].rom.guid != ds[j].rom.guid
  }

  predicate HasGuid(ds: seq<Device>, g: nat) {
    exists i :: 0 <= i < |ds| && ds[i].rom.guid == g
  }

  function Filter(ds: seq<Device>, p: Device -> bool): seq<Device> {
    if ds == [] then []
    else Filter(ds[..|ds| - 1], p) + if p(ds[|ds| - 1]) then [ds[|ds| - 1]] else []
  }

  lemma {:induction false} FilterMembers(ds: seq<Device>, p: Device -> bool)
    ensures forall d :: d in Filter(ds, p) <==> d in ds && p(d)
    decreases |ds|
  {
    if ds != [] {
      FilterMembers(ds[..|ds| - 1], p);
      assert ds == ds[..|ds| - 1] + [ds[|ds| - 1]];
    }
  }

  lemma {:induction false} FilterDistinct(ds: seq<Device>, p: Device -> bool)
    requires DistinctGuids(ds)
    ensures DistinctGuids(Filter(ds, p))
    decreases |ds|
  {
    if ds != [] {
      var front, x := ds[..|ds| - 1], ds[|ds| - 1];
      FilterDistinct(front, p);
      FilterMembers(front, p);
      forall i | 0 <= i < |Filter(front, p)| ensures Filter(front, p)[i].rom.guid != x.rom.guid {
        assert Filter(front, p)[i] in front;
      }
    }
  }

  lemma {:induction false} FilterCount(ds: seq<Device>, p: Device -> bool)
    ensures |Filter(ds, p)| <= |ds|
    ensures |Filter(ds, p)| == |ds| <==> forall i :: 0 <= i < |ds| ==> p(ds[i])
    decreases |ds|
  {
    if ds != [] {
      FilterCount(ds[..|ds| - 1], p);
    }
  }

  lemma FilterNext(ds: seq<Device>, p: Device -> bool, k: nat)
    requires k < |ds|
    ensures Filter(ds[..k + 1], p) == Filter(ds[..k], p) + if p(ds[k]) then [ds[k]] else []
  {
    assert ds[..k + 1][..k] == ds[..k];
  }

  function InGuids(guids: seq<nat>): Device -> bool {
    (d: Device) => d.rom.guid in guids
  }

  lemma InGuidsMeans(guids: seq<nat>, d: Device)
    ensures InGuids(guids)(d) <==> d.rom.guid in guids
  {}

  // ----- the second scan -----

  datatype Found = Found(devices: seq<Device>, created: nat, freed: seq<nat>)

  /** A node that leads to a new device, unless its GUID is known already */
  predicate Admissible(specs: seq<Spec>, snoopMode: bool, node: Node) {
    && !node.local && node.readable
    && (specs == [] || MatchedBy(specs, node.rom))
    && node.driver && node.discovers && (snoopMode ==> node.snoops)
  }

  function PickNode(specs: seq<Spec>, snoopMode: bool, f: Found, node: Node): Found {
    if node.local || !node.readable || HasGuid(f.devices, node.rom.guid) then f
    else if specs != [] && !MatchedBy(specs, node.rom) then f
    else if !node.driver then f
    else if !Admissible(specs, snoopMode, node) then f.(created := f.created + 1, freed := f.freed + [f.created])
    else f.(devices := f.devices + [Device(f.created, node.rom)], created := f.created + 1)
  }

  function PickAll(specs: seq<Spec>, snoopMode: bool, f: Found, nodes: seq<Node>): Found {
    if nodes == [] then f
    else PickNode(specs, snoopMode, PickAll(specs, snoopMode, f, nodes[..|nodes| - 1]), nodes[|nodes| - 1])
  }

  lemma PickSnoc(specs: seq<Spec>, snoopMode: bool, f: Found, nodes: seq<Node>, node: Node)
    ensures PickAll(specs, snoopMode, f, nodes + [node]) ==
            PickNode(specs, snoopMode, PickAll(specs, snoopMode, f, nodes), node)
  {
    assert (nodes + [node])[..|nodes|] == nodes;
  }

  /** The nodes of all ports, port by port */
  function AllNodes(ports: seq<seq<Node>>): seq<Node> {
    if ports == [] then [] else AllNodes(ports[..|ports| - 1]) + ports[|ports| - 1]
  }

  predicate Offers(specs: seq<Spec>, snoopMode: bool, nodes: seq<Node>, g: nat) {
    exists k :: 0 <= k < |nodes| && Admissible(specs, snoopMode, nodes[k]) && nodes[k].rom.guid == g
  }

  lemma OffersSnoc(specs: seq<Spec>, snoopMode: bool, nodes: seq<Node>, node: Node, g: nat)
    ensures Offers(specs, snoopMode, nodes + [node], g) <==>
            Offers(specs, snoopMode, nodes, g) || (Admissible(specs, snoopMode, node) && node.rom.guid == g)
  {
    var all := nodes + [node];
    assert all[|nodes|] == node;
    if Offers(specs, snoopMode, nodes, g) {
      var k :| 0 <= k < |nodes| && Admissible(specs, snoopMode, nodes[k]) && nodes[k].rom.guid == g;
      assert all[k] == nodes[k];
    }
    if Offers(specs, snoopMode, all, g) {
      var k :| 0 <= k < |all| && Admissible(specs, snoopMode, all[k]) && all[k].rom.guid == g;
      assert k < |nodes| ==> nodes[k] == all[k];
    }
  }

  lemma DistinctSnoc(ds: seq<Device>, d: Device)
    requires DistinctGuids(ds) && !HasGuid(ds, d.rom.guid)
    ensures DistinctGuids(ds + [d])
  {}

  lemma HasGuidSnoc(ds: seq<Device>, d: Device, g: nat)
    ensures HasGuid(ds + [d], g) <==> HasGuid(ds, g) || d.rom.guid == g
  {
    var all := ds + [d];
    assert all[|ds|] == d;
    if HasGuid(ds, g) {
      var k :| 0 <= k < |ds| && ds[k].rom.guid == g;
      assert all[k].rom.guid == g;
    }
  }

  /**
   The second scan adds a device for exactly those GUIDs that an admissible node offers, one device
   each even when several ports show it, and touches nothing else.
   */
  lemma {:induction false} PickedGuids(specs: seq<Spec>, snoopMode: bool, f: Found, nodes: seq<Node>, g: nat)
    ensures HasGuid(PickAll(specs, snoopMode, f, nodes).devices, g) <==>
            HasGuid(f.devices, g) || Offers(specs, snoopMode, nodes, g)
    decreases |nodes|
  {
    if nodes != [] {
      var front, node := nodes[..|nodes| - 1], nodes[|nodes| - 1];
      var before := PickAll(specs, snoopMode, f, front);
      PickedGuids(specs, snoopMode, f, front, g);
      assert nodes == front + [node];
      OffersSnoc(specs, snoopMode, front, node, g);
      HasGuidSnoc(before.devices, Device(before.created, node.rom), g);
    }
  }

  /** What a scan adds matches the spec strings, if there are any. */
  predicate Specified(specs: seq<Spec>, ds: seq<Device>) {
    specs != [] ==> forall i :: 0 <= i < |ds| ==> MatchedBy(specs, ds[i].rom)
  }

  lemma {:induction false} PickedDevices(specs: seq<Spec>, snoopMode: bool, f: Found, nodes: seq<Node>)
    requires DistinctGuids(f.devices)
    ensures var e := PickAll(specs, snoopMode, f, nodes);
            && DistinctGuids(e.devices) && f.devices <= e.devices && f.freed <= e.freed
            && Specified(specs, e.devices[|f.devices|..])
            && e.created >= f.created
            && (forall d :: d in e.devices[|f.devices|..] ==> d.handle >= f.created)
    decreases |nodes|
  {
    if nodes != [] {
      var before := PickAll(specs, snoopMode, f, nodes[..|nodes| - 1]);
      PickedDevices(specs, snoopMode, f, nodes[..|nodes| - 1]);
      var e := PickAll(specs, snoopMode, f, nodes);
      assert e.devices == before.devices
          || e.devices[|f.devices|..] == before.devices[|f.devices|..] + [e.devices[|e.devices| - 1]];
    }
  }

  /** An admissible node with this config ROM */
  predicate Shows(specs: seq<Spec>, snoopMode: bool, nodes: seq<Node>, rom: Rom) {
    exists k :: 0 <= k < |nodes| && Admissible(specs, snoopMode, nodes[k]) && nodes[k].rom == rom
  }

  lemma ShowsOn(specs: seq<Spec>, snoopMode: bool, nodes: seq<Node>, rom: Rom)
    requires nodes != [] && Shows(specs, snoopMode, nodes[..|nodes| - 1], rom)
    ensures Shows(specs, snoopMode, nodes, rom)
  {
    var k :| 0 <= k < |nodes| - 1 && Admissible(specs, snoopMode, nodes[k]) && nodes[k].rom == rom;
  }

  /** The devices it adds have the config ROMs of admissible nodes. */
  lemma {:induction false} PickedRoms(specs: seq<Spec>, snoopMode: bool, f: Found, nodes: seq<Node>)
    ensures forall d :: d in PickAll(specs, snoopMode, f, nodes).devices ==>
              d in f.devices || Shows(specs, snoopMode, nodes, d.rom)
    decreases |nodes|
  {
    if nodes != [] {
      var front, node := nodes[..|nodes| - 1], nodes[|nodes| - 1];
      var before, e := PickAll(specs, snoopMode, f, front), PickAll(specs, snoopMode, f, nodes);
      PickedRoms(specs, snoopMode, f, front);
      hide Admissible;
      forall d | d in e.devices && d !in f.devices ensures Shows(specs, snoopMode, nodes, d.rom) {
        if d in before.devices {
          ShowsOn(specs, snoopMode, nodes, d.rom);
        }
      }
    }
  }

  // ----- the order -----

  /** Devices go by the position of the first spec string they match, then by descending GUID. */
  predicate Before(specs: seq<Spec>, a: Rom, b: Rom) {
    Position(specs, a) < Position(specs, b) || (Position(specs, a) == Position(specs, b) && a.guid > b.guid)
  }

  predicate Ordered(specs: seq<Spec>, ds: seq<Device>) {
    forall i, j :: 0 <= i < j < |ds| ==> Before(specs, ds[i].rom, ds[j].rom)
  }

  lemma NotBothBefore(specs: seq<Spec>, a: Rom, b: Rom)
    ensures !(Before(specs, a, b) && Before(specs, b, a))
  {}

  function Roms(ds: seq<Device>): (s: seq<Rom>)
    ensures |s| == |ds| && forall i :: 0 <= i < |s| ==> s[i] == ds[i].rom
  {
    seq(|ds|, i requires 0 <= i < |ds| => ds[i].rom)
  }

  /**
   The order depends on the devices present and the spec strings only: not on the bus, not on the object
   found first.
   */
  lemma {:induction false} CanonicalOrder(specs: seq<Spec>, a: seq<Device>, b: seq<Device>)
    requires Ordered(specs, a) && Ordered(specs, b)
    requires forall rom :: rom in Roms(a) <==> rom in Roms(b)
    ensures Roms(a) == Roms(b)
    decreases |a|
  {
    hide Before, Ordered, Roms;
    if a == [] || b == [] {
      BothEmpty(a, b);
    } else {
      SameFirst(specs, a, b);
      SameTails(specs, a, b);
      TailOrdered(specs, a);
      TailOrdered(specs, b);
      CanonicalOrder(specs, a[1..], b[1..]);
      RomsHead(a);
      RomsHead(b);
    }
  }

  lemma BothEmpty(a: seq<Device>, b: seq<Device>)
    requires a == [] || b == []
    requires forall rom :: rom in Roms(a) <==> rom in Roms(b)
    ensures Roms(a) == Roms(b) == []
  {
    FirstListed(a);
    FirstListed(b);
  }

  lemma FirstListed(ds: seq<Device>)
    ensures ds == [] || ds[0].rom in Roms(ds)
  {
    if ds != [] {
      RomsHead(ds);
    }
  }

  lemma RomsHead(ds: seq<Device>)
    requires ds != []
    ensures Roms(ds) == [ds[0].rom] + Roms(ds[1..])
  {}

  /** The first of both lists comes before all others of either. */
  lemma SameFirst(specs: seq<Spec>, a: seq<Device>, b: seq<Device>)
    requires a != [] && b != [] && Ordered(specs, a) && Ordered(specs, b)
    requires forall rom :: rom in Roms(a) <==> rom in Roms(b)
    ensures a[0].rom == b[0].rom
  {
    hide Before;
    var x, y := Roms(a)[0], Roms(b)[0];
    assert x in Roms(b) && y in Roms(a);
    var k :| 0 <= k < |b| && Roms(b)[k] == x;
    var l :| 0 <= l < |a| && Roms(a)[l] == y;
    assert l > 0 ==> Before(specs, x, y);
    assert k > 0 ==> Before(specs, y, x);
    NotBothBefore(specs, x, y);
  }

  lemma SameTails(specs: seq<Spec>, a: seq<Device>, b: seq<Device>)
    requires a != [] && b != [] && Ordered(specs, a) && Ordered(specs, b) && a[0].rom == b[0].rom
    requires forall rom :: rom in Roms(a) <==> rom in Roms(b)
    ensures forall rom :: rom in Roms(a[1..]) <==> rom in Roms(b[1..])
  {
    hide Before, Ordered, Roms;
    forall rom ensures rom in Roms(a[1..]) <==> rom in Roms(b[1..]) {
      InTail(specs, a, rom);
      InTail(specs, b, rom);
    }
  }

  lemma TailOrdered(specs: seq<Spec>, ds: seq<Device>)
    requires ds != [] && Ordered(specs, ds)
    ensures Ordered(specs, ds[1..])
  {}

  lemma InTail(specs: seq<Spec>, ds: seq<Device>, rom: Rom)
    requires ds != [] && Ordered(specs, ds)
    ensures rom in Roms(ds[1..]) <==> rom in Roms(ds) && rom != ds[0].rom
  {
    if rom in Roms(ds) && rom != ds[0].rom {
      var k :| 0 <= k < |ds| && Roms(ds)[k] == rom;
      assert Roms(ds[1..])[k - 1] == rom;
    }
    if rom in Roms(ds[1..]) {
      var k :| 0 <= k < |ds| - 1 && Roms(ds[1..])[k] == rom;
      assert Roms(ds)[k + 1] == rom && Before(specs, ds[0].rom, ds[k + 1].rom);
    }
  }

  predicate Descending(ds: seq<Device>) {
    forall i, j :: 0 <= i < j < |ds| ==> ds[i].rom.guid > ds[j].rom.guid
  }

  function AtPositions(specs: seq<Spec>, lo: int, hi: int): Device -> bool {
    (d: Device) => lo <= Position(specs, d.rom) < hi
  }

  /** The devices position by position, for the first n positions */
  function Buckets(specs: seq<Spec>, ds: seq<Device>, n: nat): seq<Device> {
    if n == 0 then [] else Buckets(specs, ds, n - 1) + Filter(ds, AtPositions(specs, n - 1, n))
  }

  lemma {:induction false} FilterDescends(ds: seq<Device>, p: Device -> bool)
    requires Descending(ds)
    ensures Descending(Filter(ds, p))
    decreases |ds|
  {
    if ds != [] {
      var front, x := ds[..|ds| - 1], ds[|ds| - 1];
      FilterDescends(front, p);
      FilterMembers(front, p);
      forall i | 0 <= i < |Filter(front, p)| ensures Filter(front, p)[i].rom.guid > x.rom.guid {
        assert Filter(front, p)[i] in front;
      }
    }
  }

  lemma {:induction false} BucketsOrdered(specs: seq<Spec>, ds: seq<Device>, n: nat)
    requires Descending(ds)
    ensures Ordered(specs, Buckets(specs, ds, n))
    ensures forall d :: d in Buckets(specs, ds, n) <==> d in ds && 0 <= Position(specs, d.rom) < n
    decreases n
  {
    hide Descending, Position, Filter, AtPositions, Before;
    if n > 0 {
      var front, last := Buckets(specs, ds, n - 1), Filter(ds, AtPositions(specs, n - 1, n));
      BucketsOrdered(specs, ds, n - 1);
      FilterDescends(ds, AtPositions(specs, n - 1, n));
      BucketMembers(specs, ds, n - 1, n);
      hide Ordered;
      OrderedConcat(specs, front, last, n - 1);
    }
  }

  lemma BucketMembers(specs: seq<Spec>, ds: seq<Device>, lo: int, hi: int)
    ensures forall d :: d in Filter(ds, AtPositions(specs, lo, hi)) <==> d in ds && lo <= Position(specs, d.rom) < hi
  {
    FilterMembers(ds, AtPositions(specs, lo, hi));
  }

  lemma OrderedConcat(specs: seq<Spec>, a: seq<Device>, b: seq<Device>, n: int)
    requires Ordered(specs, a) && Descending(b)
    requires forall d :: d in a ==> Position(specs, d.rom) < n
    requires forall d :: d in b ==> Position(specs, d.rom) == n
    ensures Ordered(specs, a + b)
  {
    var c := a + b;
    forall i, j | 0 <= i < j < |c| ensures Before(specs, c[i].rom, c[j].rom) {
      assert i < |a| ==> c[i] in a;
      assert j >= |a| ==> c[j] in b;
      assert i >= |a| ==> c[i] in b;
    }
  }

  lemma {:induction false} FilterSplits(specs: seq<Spec>, ds: seq<Device>, n: nat)
    ensures multiset(Filter(ds, AtPositions(specs, 0, n + 1))) ==
            multiset(Filter(ds, AtPositions(specs, 0, n))) + multiset(Filter(ds, AtPositions(specs, n, n + 1)))
    decreases |ds|
  {
    if ds != [] {
      FilterSplits(specs, ds[..|ds| - 1], n);
    }
  }

  lemma {:induction false} BucketsHold(specs: seq<Spec>, ds: seq<Device>, n: nat)
    ensures multiset(Buckets(specs, ds, n)) == multiset(Filter(ds, AtPositions(specs, 0, n)))
    decreases n
  {
    hide Filter, AtPositions;
    if n > 0 {
      BucketsHold(specs, ds, n - 1);
      FilterSplits(specs, ds, n - 1);
    } else {
      NoneAt(specs, ds);
    }
  }

  lemma {:induction false} NoneAt(specs: seq<Spec>, ds: seq<Device>)
    ensures Filter(ds, AtPositions(specs, 0, 0)) == []
    decreases |ds|
  {
    if ds != [] {
      NoneAt(specs, ds[..|ds| - 1]);
    }
  }

  lemma SameSize(a: seq<Device>, b: seq<Device>)
    requires multiset(a) == multiset(b)
    ensures |a| == |b|
  {
    assert |multiset(a)| == |a| && |multiset(b)| == |b|;
  }

  /** The buckets hold every device exactly when every device matches some spec string. */
  lemma BucketsComplete(specs: seq<Spec>, ds: seq<Device>)
    ensures |Buckets(specs, ds, |specs|)| == |ds| <==>
            forall i :: 0 <= i < |ds| ==> MatchedBy(specs, ds[i].rom)
    ensures |Buckets(specs, ds, |specs|)| == |ds| ==> multiset(Buckets(specs, ds, |specs|)) == multiset(ds)
  {
    var p := AtPositions(specs, 0, |specs|);
    BucketsHold(specs, ds, |specs|);
    SameSize(Buckets(specs, ds, |specs|), Filter(ds, p));
    FilterCount(ds, p);
    forall i | 0 <= i < |ds| ensures p(ds[i]) <==> MatchedBy(specs, ds[i].rom) {
      PositionIsFirst(specs, ds[i].rom, 0);
    }
    if |Filter(ds, p)| == |ds| {
      FilterAll(ds, p);
    }
  }

  lemma SortedBuckets(specs: seq<Spec>, ds: seq<Device>)
    requires Descending(ds) && specs != []
    ensures var sorted := Buckets(specs, ds, |specs|);
            && (|sorted| == |ds| <==> Specified(specs, ds))
            && (|sorted| == |ds| ==>
                  multiset(sorted) == multiset(ds) && Ordered(specs, sorted) && Specified(specs, sorted))
  {
    hide Buckets, Position, MatchedBy;
    BucketsComplete(specs, ds);
    BucketsOrdered(specs, ds, |specs|);
    var sorted := Buckets(specs, ds, |specs|);
    if |sorted| == |ds| {
      forall k | 0 <= k < |sorted| ensures MatchedBy(specs, sorted[k].rom) {
        assert sorted[k] in ds;
      }
    }
  }

  lemma OrderedByGuid(ds: seq<Device>)
    requires Descending(ds)
    ensures Ordered([], ds)
  {}

  lemma {:induction false} FilterAll(ds: seq<Device>, p: Device -> bool)
    requires forall i :: 0 <= i < |ds| ==> p(ds[i])
    ensures Filter(ds, p) == ds
    decreases |ds|
  {
    if ds != [] {
      FilterAll(ds[..|ds| - 1], p);
    }
  }

  // ----- the manager -----

  function DeviceHandles(ds: seq<Device>): (s: seq<nat>)
    ensures |s| == |ds| && forall i :: 0 <= i < |s| ==> s[i] == ds[i].handle
  {
    seq(|ds|, i requires 0 <= i < |ds| => ds[i].handle)
  }

  /** All objects there ever were: the listed ones and the deleted ones */
  ghost function AllObjects(ds: seq<Device>, freed: seq<nat>): multiset<nat> {
    multiset(DeviceHandles(ds)) + multiset(freed)
  }

  lemma ObjectsSnoc(ds: seq<Device>, freed: seq<nat>, d: Device)
    ensures AllObjects(ds + [d], freed) == AllObjects(ds, freed) + multiset{d.handle}
    ensures AllObjects(ds, freed + [d.handle]) == AllObjects(ds, freed) + multiset{d.handle}
  {
    assert DeviceHandles(ds + [d]) == DeviceHandles(ds) + [d.handle];
  }

  lemma TakenOut(x: seq<Device>, d: Device, y: seq<Device>)
    ensures multiset(x + [d] + y) == multiset(x + y) + multiset{d}
    ensures multiset(DeviceHandles(x + [d] + y)) == multiset(DeviceHandles(x + y)) + multiset{d.handle}
  {
    assert DeviceHandles(x + [d] + y) == DeviceHandles(x) + [d.handle] + DeviceHandles(y);
    assert DeviceHandles(x + y) == DeviceHandles(x) + DeviceHandles(y);
  }

  lemma {:induction false} HandlesPermuted(a: seq<Device>, b: seq<Device>)
    requires multiset(a) == multiset(b)
    ensures multiset(DeviceHandles(a)) == multiset(DeviceHandles(b))
    decreases |a|
  {
    SameSize(a, b);
    if a != [] {
      var n := |a| - 1;
      assert a[..n] + [a[n]] + [] == a && a[..n] + [] == a[..n];
      TakenOut(a[..n], a[n], []);
      MultisetMembers(a, b);
      assert a[n] in b;
      var k :| 0 <= k < |b| && b[k] == a[n];
      assert b[..k] + [b[k]] + b[k + 1..] == b;
      TakenOut(b[..k], b[k], b[k + 1..]);
      CancelOne(multiset(a[..n]), multiset(b[..k] + b[k + 1..]), a[n]);
      HandlesPermuted(a[..n], b[..k] + b[k + 1..]);
    }
  }

  lemma CancelOne(m: multiset<Device>, n: multiset<Device>, d: Device)
    requires m + multiset{d} == n + multiset{d}
    ensures m == n
  {
    assert m == m + multiset{d} - multiset{d};
  }

  lemma {:induction false} CreatedOnce(n: nat, h: nat)
    ensures Created(n)[h] == if h < n then 1 else 0
    decreases n
  {
    if n > 0 {
      CreatedOnce(n - 1, h);
    }
  }

  /** The control tree has the listed devices as children, and every object is listed or has been deleted. */
  ghost predicate Accounted(ds: seq<Device>, children: seq<Device>, freed: seq<nat>, created: nat) {
    multiset(children) == multiset(ds) && AllObjects(ds, freed) == Created(created)
  }

  lemma DeviceDropped(kept: seq<Device>, d: Device, rest: seq<Device>, freed: seq<nat>)
    ensures multiset(kept + rest) == multiset(kept + [d] + rest) - multiset{d}
    ensures AllObjects(kept + rest, freed + [d.handle]) == AllObjects(kept + [d] + rest, freed)
  {
    TakenOut(kept, d, rest);
  }

  lemma DroppedIsChild(kept: seq<Device>, d: Device, rest: seq<Device>, children: seq<Device>)
    requires multiset(children) == multiset(kept + [d] + rest)
    ensures d in children
  {
    assert (kept + [d] + rest)[|kept|] == d;
    MultisetMembers(children, kept + [d] + rest);
  }

  lemma Reordered(a: seq<Device>, b: seq<Device>, children: seq<Device>, freed: seq<nat>, created: nat)
    requires Accounted(a, children, freed, created) && multiset(a) == multiset(b)
    ensures Accounted(b, children, freed, created)
  {
    HandlesPermuted(a, b);
  }

  lemma ObjectRejected(ds: seq<Device>, children: seq<Device>, freed: seq<nat>, created: nat)
    requires Accounted(ds, children, freed, created)
    ensures Accounted(ds, children, freed + [created], created + 1)
  {
    ObjectsSnoc(ds, freed, Device(created, Rom(0, 0, 0)));
  }

  lemma ObjectListed(ds: seq<Device>, children: seq<Device>, freed: seq<nat>, d: Device)
    requires Accounted(ds, children, freed, d.handle)
    ensures d !in children
    ensures Accounted(ds + [d], children + [d], freed, d.handle + 1)
  {
    ObjectsSnoc(ds, freed, d);
    EachObjectOnce(ds, freed, d.handle);
    forall k | 0 <= k < |ds| ensures ds[k] != d {
      assert DeviceHandles(ds)[k] in DeviceHandles(ds);
    }
    MultisetMembers(children, ds);
  }

  /** ConfigRom::updatedNodeId for a device on the port: the node number at which the bus shows its GUID now */
  function Renumbered(d: Device, port: int, nodes: map<nat, nat>): Device {
    if d.rom.port == port && d.rom.guid in nodes then d.(rom := d.rom.(node := nodes[d.rom.guid])) else d
  }

  function AllRenumbered(ds: seq<Device>, port: int, nodes: map<nat, nat>): (s: seq<Device>)
    ensures |s| == |ds| && forall i :: 0 <= i < |s| ==> s[i] == Renumbered(ds[i], port, nodes)
  {
    seq(|ds|, i requires 0 <= i < |ds| => Renumbered(ds[i], port, nodes))
  }

  lemma RenumberedSplit(x: seq<Device>, d: Device, y: seq<Device>, port: int, nodes: map<nat, nat>)
    ensures multiset(AllRenumbered(x + [d] + y, port, nodes)) ==
            multiset(AllRenumbered(x + y, port, nodes)) + multiset{Renumbered(d, port, nodes)}
  {
    hide Renumbered;
    assert AllRenumbered(x + [d] + y, port, nodes) ==
           AllRenumbered(x, port, nodes) + [Renumbered(d, port, nodes)] + AllRenumbered(y, port, nodes);
    assert AllRenumbered(x + y, port, nodes) == AllRenumbered(x, port, nodes) + AllRenumbered(y, port, nodes);
  }

  lemma {:induction false} RenumberedPermuted(a: seq<Device>, b: seq<Device>, port: int, nodes: map<nat, nat>)
    requires multiset(a) == multiset(b)
    ensures multiset(AllRenumbered(a, port, nodes)) == multiset(AllRenumbered(b, port, nodes))
    decreases |a|
  {
    hide AllRenumbered, Renumbered;
    SameSize(a, b);
    if a != [] {
      var n := |a| - 1;
      assert a[..n] + [a[n]] + [] == a && a[..n] + [] == a[..n];
      MultisetMembers(a, b);
      assert a[n] in b;
      var k :| 0 <= k < |b| && b[k] == a[n];
      assert b[..k] + [b[k]] + b[k + 1..] == b;
      TakenOut(a[..n], a[n], []);
      TakenOut(b[..k], b[k], b[k + 1..]);
      CancelOne(multiset(a[..n]), multiset(b[..k] + b[k + 1..]), a[n]);
      RenumberedPermuted(a[..n], b[..k] + b[k + 1..], port, nodes);
      RenumberedSplit(a[..n], a[n], [], port, nodes);
      RenumberedSplit(b[..k], b[k], b[k + 1..], port, nodes);
    } else {
      assert a == b;
    }
  }

  lemma NothingRenumbered(ds: seq<Device>, port: int, nodes: map<nat, nat>)
    ensures AllRenumbered(ds[..0], port, nodes) + ds[0..] == ds
  {}

  lemma NextRenumbered(ds: seq<Device>, k: nat, port: int, nodes: map<nat, nat>)
    requires k < |ds|
    ensures var now := AllRenumbered(ds[..k], port, nodes) + ds[k..];
            && |now| == |ds| && now[k] == ds[k]
            && now[k := Renumbered(ds[k], port, nodes)] == AllRenumbered(ds[..k + 1], port, nodes) + ds[k + 1..]
  {
    hide Renumbered;
  }

  /** New node numbers leave GUIDs distinct and every object accounted for. */
  lemma RenumberingKeeps(ds: seq<Device>, children: seq<Device>, freed: seq<nat>, created: nat,
                         port: int, nodes: map<nat, nat>)
    requires DistinctGuids(ds) && Accounted(ds, children, freed, created)
    ensures DistinctGuids(AllRenumbered(ds, port, nodes))
    ensures Accounted(AllRenumbered(ds, port, nodes), AllRenumbered(children, port, nodes), freed, created)
  {
    RenumberedPermuted(children, ds, port, nodes);
    assert DeviceHandles(AllRenumbered(ds, port, nodes)) == DeviceHandles(ds);
  }

  /** No object is listed twice, deleted twice, or both. */
  lemma EachObjectOnce(ds: seq<Device>, freed: seq<nat>, n: nat)
    requires AllObjects(ds, freed) == Created(n)
    ensures forall h :: h in freed ==> h < n && multiset(freed)[h] == 1 && h !in DeviceHandles(ds)
    ensures forall h :: h in DeviceHandles(ds) ==> h < n && multiset(DeviceHandles(ds))[h] == 1
    ensures forall h: nat :: h < n ==> h in freed || h in DeviceHandles(ds)
  {
    forall h: nat ensures multiset(DeviceHandles(ds))[h] + multiset(freed)[h] == if h < n then 1 else 0 {
      CreatedOnce(n, h);
      assert AllObjects(ds, freed)[h] == Created(n)[h];
    }
    forall h | h in freed ensures h < n && multiset(freed)[h] == 1 && h !in DeviceHandles(ds) {
      assert h in multiset(freed);
      assert h in DeviceHandles(ds) ==> h in multiset(DeviceHandles(ds));
    }
    forall h | h in DeviceHandles(ds) ensures h < n && multiset(DeviceHandles(ds))[h] == 1 {
      assert h in multiset(DeviceHandles(ds));
    }
    forall h: nat | h < n ensures h in freed || h in DeviceHandles(ds) {
      assert h in multiset(freed) || h in multiset(DeviceHandles(ds));
    }
  }

  class DeviceManager {
    var specs: seq<Spec>
    var devices: seq<Device>
    // The children of the control container that are devices.
    var children: seq<Device>
    var freed: seq<nat>
    var created: nat

    ghost predicate Valid()
      reads this
    {
      DistinctGuids(devices) && Accounted(devices, children, freed, created)
    }

    constructor (specs: seq<Spec>)
      ensures Valid() && devices == [] && freed == [] && this.specs == specs
    {
      this.specs, devices, children, freed, created := specs, [], [], [], 0;
    }

    /** Container::addElement (libcontrol/Element.cpp) */
    method AddElement(d: Device) returns (ok: bool)
      modifies this`children
      ensures ok <==> d !in old(children)
      ensures children == if ok then old(children) + [d] else old(children)
    {
      if d in children {
        return false;
      }
      children := children + [d];
      return true;
    }

    /** Container::deleteElement */
    method DeleteElement(d: Device) returns (ok: bool)
      modifies this`children
      ensures ok <==> d in old(children)
      ensures multiset(children) == if ok then multiset(old(children)) - multiset{d} else multiset(old(children))
    {
      var i := 0;
      while i < |children|
        invariant 0 <= i <= |children| && children == old(children)
        invariant d !in children[..i]
      {
        if children[i] == d {
          assert children == children[..i] + [d] + children[i + 1..];
          children := children[..i] + children[i + 1..];
          return true;
        }
        i := i + 1;
      }
      return false;
    }

    /** A device leaves the control tree and is deleted. */
    method Drop(d: Device, ghost kept: seq<Device>, ghost rest: seq<Device>)
      requires Accounted(kept + [d] + rest, children, freed, created)
      modifies this`children, this`freed
      ensures Accounted(kept + rest, children, freed, created)
      ensures freed == old(freed) + [d.handle]
    {
      hide AllObjects, Created;
      DeviceDropped(kept, d, rest, freed);
      DroppedIsChild(kept, d, rest, children);
      var _ := DeleteElement(d);
      freed := freed + [d.handle];
    }

    /** The GUIDs of all config ROMs a scan can read, except those of the local nodes */
    method ScanGuids(ports: seq<seq<Node>>) returns (guids: seq<nat>)
      ensures forall g :: g in guids <==> Readable(AllNodes(ports), g)
    {
      guids := [];
      var p := 0;
      while p < |ports|
        invariant 0 <= p <= |ports|
        invariant forall g :: g in guids <==> Readable(AllNodes(ports[..p]), g)
      {
        var n := 0;
        assert ports[..p + 1][..p] == ports[..p];
        assert AllNodes(ports[..p]) + ports[p][..0] == AllNodes(ports[..p]);
        while n < |ports[p]|
          invariant 0 <= n <= |ports[p]|
          invariant forall g :: g in guids <==> Readable(AllNodes(ports[..p]) + ports[p][..n], g)
        {
          var node := ports[p][n];
          ReadableSnoc(AllNodes(ports[..p]) + ports[p][..n], node);
          assert AllNodes(ports[..p]) + ports[p][..n] + [node] == AllNodes(ports[..p]) + ports[p][..n + 1];
          if !node.local && node.readable {
            guids := guids + [node.rom.guid];
          }
          n := n + 1;
        }
        assert ports[p][..n] == ports[p];
        p := p + 1;
      }
      assert ports[..p] == ports;
    }

    /** Rediscovery keeps the devices that are still on the bus; otherwise everything goes. */
    method Reconcile(guids: seq<nat>, rediscover: bool)
      requires Valid()
      modifies this`devices, this`children, this`freed
      ensures Valid() && old(freed) <= freed
      ensures devices == if rediscover then Filter(old(devices), InGuids(guids)) else []
    {
      hide Accounted, Filter, InGuids;
      var kept: seq<Device> := [];
      var k := 0;
      NothingDecided(devices, InGuids(guids));
      while k < |devices|
        invariant 0 <= k <= |devices| && devices == old(devices) && created == old(created)
        invariant kept == if rediscover then Filter(devices[..k], InGuids(guids)) else []
        invariant Accounted(kept + devices[k..], children, freed, created)
        invariant old(freed) <= freed
      {
        var d := devices[k];
        FilterNext(devices, InGuids(guids), k);
        NextDecided(kept, devices, k);
        assert InGuids(guids)(d) <==> d.rom.guid in guids by {
          InGuidsMeans(guids, d);
        }
        if rediscover && d.rom.guid in guids {
          kept := kept + [d];
        } else {
          Drop(d, kept, devices[k + 1..]);
        }
        k := k + 1;
      }
      assert devices[..k] == devices && kept + devices[k..] == kept;
      if rediscover {
        FilterDistinct(devices, InGuids(guids));
      }
      devices := kept;
    }

    /** survives tells for a device whether it needs no rediscovery or passes it. */
    method Rediscover(survives: Device -> bool)
      requires Valid()
      modifies this`devices, this`children, this`freed
      ensures Valid() && old(freed) <= freed
      ensures devices == Filter(old(devices), survives)
    {
      hide Accounted, Filter, DistinctGuids;
      var failed := FailedToRediscover(survives);
      var toKeep: seq<Device> := [];
      var k := 0;
      NothingDecided(devices, survives);
      while k < |devices|
        invariant 0 <= k <= |devices| && devices == old(devices) && created == old(created)
        invariant toKeep == Filter(devices[..k], survives)
        invariant Accounted(toKeep + devices[k..], children, freed, created)
        invariant old(freed) <= freed
      {
        var d := devices[k];
        FilterNext(devices, survives, k);
        NextDecided(toKeep, devices, k);
        if d in failed {
          Drop(d, toKeep, devices[k + 1..]);
        } else {
          toKeep := toKeep + [d];
        }
        k := k + 1;
      }
      assert devices[..k] == devices && toKeep + devices[k..] == toKeep;
      FilterDistinct(devices, survives);
      devices := toKeep;
    }

    method FailedToRediscover(survives: Device -> bool) returns (failed: seq<Device>)
      ensures forall d :: d in failed <==> d in devices && !survives(d)
    {
      failed := [];
      var k := 0;
      while k < |devices|
        invariant 0 <= k <= |devices|
        invariant forall d :: d in failed <==> d in devices[..k] && !survives(d)
      {
        if !survives(devices[k]) {
          failed := failed + [devices[k]];
        }
        assert devices[..k + 1] == devices[..k] + [devices[k]];
        k := k + 1;
      }
      assert devices[..k] == devices;
    }

    ghost function State(): Found
      reads this
    {
      Found(devices, created, freed)
    }

    /** One node of the second scan */
    method PickUpNode(node: Node, snoopMode: bool)
      requires Valid()
      modifies this`devices, this`children, this`freed, this`created
      ensures Valid()
      ensures State() == PickNode(specs, snoopMode, old(State()), node)
    {
      hide Accounted, HasGuid, PositionFrom, DistinctGuids;
      PositionIsFirst(specs, node.rom, 0);
      if node.local || !node.readable {
        return;
      }
      var already := AlreadyInVector(node.rom.guid);
      if already {
        return;
      }
      if specs != [] && Position(specs, node.rom) == -1 {
        return;
      }
      if !node.driver {
        return;
      }
      var avDevice := Device(created, node.rom);
      created := created + 1;
      if !node.discovers || (snoopMode && !node.snoops) {
        ObjectRejected(devices, children, freed, avDevice.handle);
        freed := freed + [avDevice.handle];
        return;
      }
      ObjectListed(devices, children, freed, avDevice);
      DistinctSnoc(devices, avDevice);
      devices := devices + [avDevice];
      var _ := AddElement(avDevice);
    }

    method AlreadyInVector(g: nat) returns (already: bool)
      ensures already <==> HasGuid(devices, g)
    {
      var k := 0;
      while k < |devices|
        invariant 0 <= k <= |devices|
        invariant forall i :: 0 <= i < k ==> devices[i].rom.guid != g
      {
        if devices[k].rom.guid == g {
          return true;
        }
        k := k + 1;
      }
      return false;
    }

    method PickUp(ports: seq<seq<Node>>, snoopMode: bool)
      requires Valid()
      modifies this`devices, this`children, this`freed, this`created
      ensures Valid()
      ensures State() == PickAll(specs, snoopMode, old(State()), AllNodes(ports))
    {
      hide PickNode, Accounted, DistinctGuids;
      var p := 0;
      while p < |ports|
        invariant 0 <= p <= |ports| && Valid() && specs == old(specs)
        invariant State() == PickAll(specs, snoopMode, old(State()), AllNodes(ports[..p]))
      {
        PickUpPort(ports[p], snoopMode, old(State()), AllNodes(ports[..p]));
        assert ports[..p + 1][..p] == ports[..p];
        p := p + 1;
      }
      assert ports[..p] == ports;
    }

    method PickUpPort(nodes: seq<Node>, snoopMode: bool, ghost start: Found, ghost before: seq<Node>)
      requires Valid() && State() == PickAll(specs, snoopMode, start, before)
      modifies this`devices, this`children, this`freed, this`created
      ensures Valid() && State() == PickAll(specs, snoopMode, start, before + nodes)
    {
      hide PickNode, PickAll, Accounted, DistinctGuids;
      var n := 0;
      assert before + nodes[..0] == before;
      while n < |nodes|
        invariant 0 <= n <= |nodes| && Valid() && specs == old(specs)
        invariant State() == PickAll(specs, snoopMode, start, before + nodes[..n])
      {
        assert before + nodes[..n + 1] == before + nodes[..n] + [nodes[n]];
        PickSnoc(specs, snoopMode, start, before + nodes[..n], nodes[n]);
        PickUpNode(nodes[n], snoopMode);
        n := n + 1;
      }
      assert nodes[..n] == nodes;
    }

    /** std::sort with FFADODevice::compareGUID, which puts greater GUIDs first */
    method SortByGuid()
      requires Valid()
      modifies this`devices
      ensures Valid() && Descending(devices) && multiset(devices) == multiset(old(devices))
    {
      hide Accounted;
      var sorted: seq<Device> := [];
      var k := 0;
      while k < |devices|
        invariant 0 <= k <= |devices| && devices == old(devices)
        invariant Descending(sorted) && multiset(sorted) == multiset(devices[..k])
      {
        var d := devices[k];
        assert devices[..k + 1] == devices[..k] + [d];
        MultisetMembers(sorted, devices[..k]);
        sorted := Insert(sorted, d);
        k := k + 1;
      }
      assert devices[..k] == devices;
      Reordered(devices, sorted, children, freed, created);
      DistinctPermuted(devices, sorted);
      devices := sorted;
    }

    static method Insert(sorted: seq<Device>, d: Device) returns (r: seq<Device>)
      requires Descending(sorted) && forall s :: s in sorted ==> s.rom.guid != d.rom.guid
      ensures Descending(r) && multiset(r) == multiset(sorted) + multiset{d}
    {
      var i := 0;
      while i < |sorted| && sorted[i].rom.guid > d.rom.guid
        invariant 0 <= i <= |sorted|
        invariant forall j :: 0 <= j < i ==> sorted[j].rom.guid > d.rom.guid
      {
        i := i + 1;
      }
      InsertedAt(sorted, d, i);
      r := sorted[..i] + [d] + sorted[i..];
    }

    /**
     The devices in the order of the spec strings. ok is what the code asserts: it holds exactly
     when every device matches some spec string, in case there are any.
     */
    method Arrange() returns (ok: bool)
      requires Valid() && Descending(devices)
      modifies this`devices
      ensures ok <==> Specified(specs, old(devices))
      ensures ok ==> Valid() && Ordered(specs, devices) && multiset(devices) == multiset(old(devices))
      ensures ok ==> Specified(specs, devices)
      ensures !ok ==> devices == old(devices)
    {
      hide Accounted, DistinctGuids, Descending, Ordered;
      if specs == [] {
        OrderedByGuid(devices);
        return true;
      }
      var sorted := BucketSort();
      SortedBuckets(specs, devices);
      if |sorted| != |devices| {
        return false;
      }
      Reordered(devices, sorted, children, freed, created);
      DistinctPermuted(devices, sorted);
      devices := sorted;
      return true;
    }

    method BucketSort() returns (sorted: seq<Device>)
      requires DistinctGuids(devices)
      ensures sorted == Buckets(specs, devices, |specs|)
    {
      var positionMap := PositionMap();
      sorted := [];
      var i := 0;
      while i < |specs|
        invariant 0 <= i <= |specs|
        invariant sorted == Buckets(specs, devices, i)
      {
        var bucket := AtPosition(positionMap, i);
        sorted := sorted + bucket;
        i := i + 1;
      }
    }

    method PositionMap() returns (positions: map<nat, int>)
      requires DistinctGuids(devices)
      ensures forall i :: 0 <= i < |devices| ==>
                devices[i].rom.guid in positions && positions[devices[i].rom.guid] == Position(specs, devices[i].rom)
    {
      positions := map[];
      var k := 0;
      while k < |devices|
        invariant 0 <= k <= |devices|
        invariant forall i :: 0 <= i < k ==>
          devices[i].rom.guid in positions && positions[devices[i].rom.guid] == Position(specs, devices[i].rom)
      {
        positions := positions[devices[k].rom.guid := Position(specs, devices[k].rom)];
        k := k + 1;
      }
    }

    method AtPosition(positions: map<nat, int>, i: nat) returns (bucket: seq<Device>)
      requires forall k :: 0 <= k < |devices| ==>
                 devices[k].rom.guid in positions && positions[devices[k].rom.guid] == Position(specs, devices[k].rom)
      ensures bucket == Filter(devices, AtPositions(specs, i, i + 1))
    {
      bucket := [];
      var k := 0;
      while k < |devices|
        invariant 0 <= k <= |devices|
        invariant bucket == Filter(devices[..k], AtPositions(specs, i, i + 1))
      {
        FilterNext(devices, AtPositions(specs, i, i + 1), k);
        if positions[devices[k].rom.guid] == i {
          bucket := bucket + [devices[k]];
        }
        k := k + 1;
      }
      assert devices[..k] == devices;
    }

    /**
     DeviceManager::discover. Unless the assertion about the spec strings fails, the listed GUIDs are
     those of the known devices that are still there and survive rediscovery, and of the new ones
     the second scan finds; the list is in canonical order.
     */
    method Discover(rediscover: bool, firstScan: seq<seq<Node>>, secondScan: seq<seq<Node>>,
                    survives: Device -> bool, snoopMode: bool) returns (ok: bool)
      requires Valid()
      modifies this
      ensures specs == old(specs) && old(freed) <= freed
      ensures ok <==> specs == [] || forall d :: d in old(devices)
                                       && Stays(d, rediscover, AllNodes(firstScan), survives)
                                       ==> MatchedBy(specs, d.rom)
      ensures old(Specified(specs, devices)) ==> ok
      ensures ok ==> Valid() && Ordered(specs, devices) && Specified(specs, devices)
      ensures ok ==> forall g :: HasGuid(devices, g) <==>
                       Offers(specs, snoopMode, AllNodes(secondScan), g)
                       || exists d :: d in old(devices) && d.rom.guid == g
                                      && Stays(d, rediscover, AllNodes(firstScan), survives)
      ensures ok ==> forall d :: d in old(devices) ==>
                       (d in devices <==> Stays(d, rediscover, AllNodes(firstScan), survives))
      ensures ok ==> forall d :: d in devices ==>
                       d in old(devices) || Shows(specs, snoopMode, AllNodes(secondScan), d.rom)
    {
      hide Accounted, DistinctGuids, Descending, Ordered, Specified, Filter, InGuids, Readable, Offers, HasGuid;
      hide PickAll, Stays, AllNodes, MatchedBy, Shows;
      ghost var known := devices;
      ghost var total := created;
      SpecifiedMembers(specs, known);
      OldObjects(known, children, freed, total);
      var guids := ScanGuids(firstScan);
      Reconcile(guids, rediscover);
      Rediscover(survives);
      ghost var f := State();
      KeptDevices(known, guids, AllNodes(firstScan), rediscover, survives);
      PickUp(secondScan, snoopMode);
      ghost var picked := devices;
      SecondScan(specs, snoopMode, f, AllNodes(secondScan));
      SortByGuid();
      SameMembers(specs, picked, devices);
      ok := Arrange();
      SameMembers(specs, picked, devices);
      SpecifiedMembers(specs, f.devices);
      if ok {
        HasGuidMembers(f.devices);
      }
    }

    /** DeviceManager::addSpecString, for a string that parses into these specs */
    method AddSpecString(parsed: seq<Spec>)
      requires Valid()
      modifies this`specs
      ensures Valid() && specs == Kept(old(specs) + parsed)
    {
      specs := Kept(specs + parsed);
    }

    /** The devices on a port that was reset get their new node numbers; the children are the same objects. */
    method HandleBusReset(port: int, nodes: map<nat, nat>)
      requires Valid()
      modifies this`devices, this`children
      ensures Valid() && devices == AllRenumbered(old(devices), port, nodes)
    {
      hide Accounted, DistinctGuids, Renumbered;
      RenumberingKeeps(devices, children, freed, created, port, nodes);
      ghost var known := devices;
      hide AllRenumbered;
      NothingRenumbered(known, port, nodes);
      var k := 0;
      while k < |devices|
        invariant 0 <= k <= |devices| == |known| && children == old(children)
        invariant devices == AllRenumbered(known[..k], port, nodes) + known[k..]
      {
        NextRenumbered(known, k, port, nodes);
        devices := devices[k := Renumbered(devices[k], port, nodes)];
        k := k + 1;
      }
      assert known[..k] == known && known[k..] == [];
      assert devices == AllRenumbered(known, port, nodes);
      children := AllRenumbered(children, port, nodes);
    }

    /**
     DeviceManager::busresetHandler: the node numbers are updated, then the bus is discovered again. The
     assertion holds exactly when every device that stays still matches under its new node number.
     */
    method BusresetHandler(port: int, nodes: map<nat, nat>, firstScan: seq<seq<Node>>, secondScan: seq<seq<Node>>,
                           survives: Device -> bool, snoopMode: bool) returns (ok: bool)
      requires Valid()
      modifies this
      ensures specs == old(specs) && old(freed) <= freed
      ensures ok <==> specs == [] || forall d :: d in old(devices)
                                       && Stays(Renumbered(d, port, nodes), true, AllNodes(firstScan), survives)
                                       ==> MatchedBy(specs, Renumbered(d, port, nodes).rom)
      ensures ok ==> Valid() && Ordered(specs, devices) && Specified(specs, devices)
    {
      hide Accounted, DistinctGuids, Ordered, Specified, Stays, AllNodes, MatchedBy, Renumbered, Offers, HasGuid;
      HandleBusReset(port, nodes);
      RenumberedMembers(old(devices), port, nodes);
      ok := Discover(true, firstScan, secondScan, survives, snoopMode);
    }
  }

  lemma RenumberedMembers(ds: seq<Device>, port: int, nodes: map<nat, nat>)
    ensures forall d :: d in ds ==> Renumbered(d, port, nodes) in AllRenumbered(ds, port, nodes)
    ensures forall e :: e in AllRenumbered(ds, port, nodes) ==> exists d :: d in ds && e == Renumbered(d, port, nodes)
  {
    hide Renumbered;
    forall d | d in ds ensures Renumbered(d, port, nodes) in AllRenumbered(ds, port, nodes) {
      var k :| 0 <= k < |ds| && ds[k] == d;
      assert AllRenumbered(ds, port, nodes)[k] == Renumbered(d, port, nodes);
    }
    forall e | e in AllRenumbered(ds, port, nodes) ensures exists d :: d in ds && e == Renumbered(d, port, nodes) {
      var k :| 0 <= k < |ds| && AllRenumbered(ds, port, nodes)[k] == e;
      assert ds[k] in ds;
    }
  }

  lemma OldObjects(ds: seq<Device>, children: seq<Device>, freed: seq<nat>, created: nat)
    requires Accounted(ds, children, freed, created)
    ensures forall d :: d in ds ==> d.handle < created
  {
    EachObjectOnce(ds, freed, created);
    forall k | 0 <= k < |ds| ensures ds[k].handle < created {
      assert DeviceHandles(ds)[k] in DeviceHandles(ds);
    }
  }

  lemma HasGuidMembers(ds: seq<Device>)
    ensures forall g :: HasGuid(ds, g) <==> exists d :: d in ds && d.rom.guid == g
  {
    forall g | HasGuid(ds, g) ensures exists d :: d in ds && d.rom.guid == g {
      var k :| 0 <= k < |ds| && ds[k].rom.guid == g;
      assert ds[k] in ds;
    }
    forall g | exists d :: d in ds && d.rom.guid == g ensures HasGuid(ds, g) {
      var d :| d in ds && d.rom.guid == g;
      var k :| 0 <= k < |ds| && ds[k] == d;
    }
  }

  lemma SpecifiedMembers(specs: seq<Spec>, ds: seq<Device>)
    ensures Specified(specs, ds) <==> specs == [] || forall d :: d in ds ==> MatchedBy(specs, d.rom)
  {
    if Specified(specs, ds) && specs != [] {
      forall d | d in ds ensures MatchedBy(specs, d.rom) {
        var k :| 0 <= k < |ds| && ds[k] == d;
      }
    }
  }

  lemma SameMembers(specs: seq<Spec>, a: seq<Device>, b: seq<Device>)
    requires multiset(a) == multiset(b)
    ensures forall d :: d in a <==> d in b
    ensures Specified(specs, a) <==> Specified(specs, b)
    ensures forall g :: HasGuid(a, g) <==> HasGuid(b, g)
  {
    MultisetMembers(a, b);
    SpecifiedMembers(specs, a);
    SpecifiedMembers(specs, b);
    HasGuidMembers(a);
    HasGuidMembers(b);
  }

  /** What the second scan leaves of the list it starts from, and what it adds */
  lemma SecondScan(specs: seq<Spec>, snoopMode: bool, f: Found, nodes: seq<Node>)
    requires DistinctGuids(f.devices)
    ensures var e := PickAll(specs, snoopMode, f, nodes);
            && (Specified(specs, e.devices) <==> Specified(specs, f.devices))
            && (forall g :: HasGuid(e.devices, g) <==> HasGuid(f.devices, g) || Offers(specs, snoopMode, nodes, g))
            && (forall d :: d in f.devices ==> d in e.devices)
            && (forall d :: d in e.devices ==> d in f.devices || d.handle >= f.created)
            && (forall d :: d in e.devices ==> d in f.devices || Shows(specs, snoopMode, nodes, d.rom))
            && f.freed <= e.freed
  {
    hide PickAll, HasGuid, Offers, Shows, DistinctGuids, MatchedBy;
    PickedRoms(specs, snoopMode, f, nodes);
    var e := PickAll(specs, snoopMode, f, nodes);
    PickedDevices(specs, snoopMode, f, nodes);
    var added := e.devices[|f.devices|..];
    assert e.devices == f.devices + added;
    SpecifiedMembers(specs, e.devices);
    SpecifiedMembers(specs, f.devices);
    SpecifiedMembers(specs, added);
    forall g ensures HasGuid(e.devices, g) <==> HasGuid(f.devices, g) || Offers(specs, snoopMode, nodes, g) {
      PickedGuids(specs, snoopMode, f, nodes, g);
    }
  }

  /** A known device that the first scan sees and that needs no rediscovery or passes it */
  predicate Stays(d: Device, rediscover: bool, nodes: seq<Node>, survives: Device -> bool) {
    rediscover && Readable(nodes, d.rom.guid) && survives(d)
  }

  lemma KeptDevices(known: seq<Device>, guids: seq<nat>, nodes: seq<Node>, rediscover: bool, survives: Device -> bool)
    requires forall g :: g in guids <==> Readable(nodes, g)
    ensures var seen := if rediscover then Filter(known, InGuids(guids)) else [];
            forall d :: d in Filter(seen, survives) <==> d in known && Stays(d, rediscover, nodes, survives)
  {
    hide Filter;
    FilterMembers(known, InGuids(guids));
    FilterMembers(if rediscover then Filter(known, InGuids(guids)) else [], survives);
  }

  predicate Readable(nodes: seq<Node>, g: nat) {
    exists k :: 0 <= k < |nodes| && !nodes[k].local && nodes[k].readable && nodes[k].rom.guid == g
  }

  lemma ReadableSnoc(nodes: seq<Node>, node: Node)
    ensures forall g :: Readable(nodes + [node], g) <==>
                        Readable(nodes, g) || (!node.local && node.readable && node.rom.guid == g)
  {
    var all := nodes + [node];
    assert all[|nodes|] == node;
    forall g | Readable(nodes, g) ensures Readable(all, g) {
      var k :| 0 <= k < |nodes| && !nodes[k].local && nodes[k].readable && nodes[k].rom.guid == g;
      assert all[k] == nodes[k];
    }
  }

  lemma NothingDecided(ds: seq<Device>, p: Device -> bool)
    ensures [] + ds[0..] == ds && Filter(ds[..0], p) == []
  {}

  lemma NextDecided(kept: seq<Device>, ds: seq<Device>, k: nat)
    requires k < |ds|
    ensures kept + ds[k..] == kept + [ds[k]] + ds[k + 1..]
  {}

  lemma InsertedAt(sorted: seq<Device>, d: Device, i: nat)
    requires Descending(sorted) && i <= |sorted| && forall s :: s in sorted ==> s.rom.guid != d.rom.guid
    requires forall j :: 0 <= j < i ==> sorted[j].rom.guid > d.rom.guid
    requires i < |sorted| ==> sorted[i].rom.guid <= d.rom.guid
    ensures Descending(sorted[..i] + [d] + sorted[i..])
    ensures multiset(sorted[..i] + [d] + sorted[i..]) == multiset(sorted) + multiset{d}
  {
    assert i < |sorted| ==> sorted[i] in sorted;
    assert sorted == sorted[..i] + sorted[i..];
    TakenOut(sorted[..i], d, sorted[i..]);
    assert forall j :: i <= j < |sorted| ==> sorted[j].rom.guid < d.rom.guid;
  }

  lemma MultisetMembers(a: seq<Device>, b: seq<Device>)
    requires multiset(a) == multiset(b)
    ensures forall d :: d in a <==> d in b
  {
    forall d ensures d in a <==> d in b {
      assert d in a <==> d in multiset(a);
      assert d in b <==> d in multiset(b);
    }
  }

  lemma DistinctPermuted(a: seq<Device>, b: seq<Device>)
    requires DistinctGuids(a) && multiset(a) == multiset(b)
    ensures DistinctGuids(b)
  {
    forall i, j | 0 <= i < j < |b| ensures b[i].rom.guid != b[j].rom.guid {
      MultisetMembers(a, b);
      assert b[i] in a && b[j] in a;
      if b[i] == b[j] {
        assert b == b[..i] + [b[i]] + b[i + 1..j] + [b[j]] + b[j + 1..];
        assert multiset(b)[b[i]] >= 2;
        Once(a, b[i]);
      }
    }
  }

  lemma {:induction false} Once(a: seq<Device>, d: Device)
    requires DistinctGuids(a)
    ensures multiset(a)[d] <= 1
    decreases |a|
  {
    if a != [] {
      var n := |a| - 1;
      Once(a[..n], d);
      assert a == a[..n] + [a[n]];
      assert d in multiset(a[..n]) ==> d in a[..n];
    }
  }

  // ----- runs in which the assertion fails -----

  /** A scan of one port with one node that has a driver and can be discovered */
  function OneNode(rom: Rom): seq<seq<Node>> {
    [[Node(false, true, rom, true, true, true)]]
  }

  lemma OneNodeScanned(specs: seq<Spec>, rom: Rom)
    requires specs == [] || MatchedBy(specs, rom)
    ensures Offers(specs, false, AllNodes(OneNode(rom)), rom.guid)
    ensures forall r :: Shows(specs, false, AllNodes(OneNode(rom)), r) ==> r == rom
  {
    var nodes := OneNode(rom)[0];
    assert OneNode(rom)[..0] == [] && AllNodes(OneNode(rom)) == [] + nodes == nodes;
    assert nodes[0].rom == rom;
  }

  lemma OneNodeStays(rom: Rom, d: Device)
    requires d.rom.guid == rom.guid
    ensures Stays(d, true, AllNodes(OneNode(rom)), Always())
  {
    var nodes := OneNode(rom)[0];
    assert OneNode(rom)[..0] == [] && AllNodes(OneNode(rom)) == [] + nodes == nodes;
    assert nodes[0].rom.guid == d.rom.guid;
  }

  function Always(): Device -> bool {
    _ => true
  }

  /** The first discovery, on a bus with one node */
  method FoundOne(specs: seq<Spec>, rom: Rom) returns (m: DeviceManager, ghost d: Device, ok: bool)
    requires specs == [] || MatchedBy(specs, rom)
    ensures fresh(m) && m.Valid() && m.specs == specs && ok && d in m.devices && d.rom == rom
  {
    hide HasGuid, Offers, Shows, Stays, AllNodes, MatchedBy;
    m := new DeviceManager(specs);
    OneNodeScanned(specs, rom);
    ok := m.Discover(true, OneNode(rom), OneNode(rom), Always(), false);
    HasGuidMembers(m.devices);
    d :| d in m.devices && d.rom.guid == rom.guid;
  }

  /** A device found as node 1 by its node number becomes node 2 in a bus reset. */
  method RenumberedDevice() returns (first: bool, second: bool)
    ensures first && !second
  {
    var specs, before, after := [BusNode(0, 1)], Rom(7, 0, 1), Rom(7, 0, 2);
    assert Matches(specs[0], before) && !MatchedBy(specs, after);
    var m;
    ghost var d;
    m, d, first := FoundOne(specs, before);
    assert Renumbered(d, 0, map[7 := 2]).rom == after;
    OneNodeStays(after, Renumbered(d, 0, map[7 := 2]));
    hide Stays, AllNodes, MatchedBy;
    second := m.BusresetHandler(0, map[7 := 2], OneNode(after), OneNode(after), Always(), false);
  }

  /** A spec string added later does not match a device found when there was none. */
  method LateSpecString() returns (first: bool, second: bool)
    ensures first && !second
  {
    var added, rom := [BusNode(0, 2)], Rom(7, 0, 1);
    assert Kept([] + added) == added && !MatchedBy(added, rom);
    var m;
    ghost var d;
    m, d, first := FoundOne([], rom);
    OneNodeStays(rom, d);
    hide Stays, AllNodes, MatchedBy, Kept;
    m.AddSpecString(added);
    second := m.Discover(true, OneNode(rom), OneNode(rom), Always(), false);
  }

  // ----- a bus with one node -----

  lemma OneNodeOffers(specs: seq<Spec>, snoopMode: bool, node: Node)
    ensures AllNodes([[node]]) == [node]
    ensures forall g :: Offers(specs, snoopMode, [node], g) <==>
                        Admissible(specs, snoopMode, node) && g == node.rom.guid
    ensures forall r :: Shows(specs, snoopMode, [node], r) ==> r == node.rom
    ensures forall g :: Readable([node], g) <==> !node.local && node.readable && node.rom.guid == g
  {
    assert [[node]][..0] == [] && AllNodes([[node]]) == [] + [node];
    assert [node][0] == node;
  }

  lemma OneListed(ds: seq<Device>, rom: Rom)
    requires DistinctGuids(ds) && forall d :: d in ds ==> d.rom == rom
    ensures if HasGuid(ds, rom.guid) then |ds| == 1 && ds[0].rom == rom else ds == []
  {
    AtMostOne(ds);
    assert ds != [] ==> ds[0] in ds && ds[0].rom == rom && HasGuid(ds, rom.guid);
  }

  lemma AtMostOne(ds: seq<Device>)
    requires DistinctGuids(ds) && forall d, e :: d in ds && e in ds ==> d.rom.guid == e.rom.guid
    ensures |ds| <= 1
  {
    TwoDiffer(ds);
  }

  lemma TwoDiffer(ds: seq<Device>)
    requires DistinctGuids(ds)
    ensures |ds| <= 1 || (ds[0] in ds && ds[1] in ds && ds[0].rom.guid != ds[1].rom.guid)
  {}

  /**
   The first discovery lists the device of a node that is not local, can be read, has a driver that accepts it
   and matches a spec string, if there are any, and in snoop mode only if it can be snooped; no other device.
   */
  method DiscoverOne(specs: seq<Spec>, node: Node, snoopMode: bool) returns (m: DeviceManager, ok: bool)
    ensures fresh(m) && m.Valid() && m.specs == specs && ok
    ensures if && !node.local && node.readable && node.driver && node.discovers && (snoopMode ==> node.snoops)
               && (specs == [] || exists i :: 0 <= i < |specs| && Matches(specs[i], node.rom))
            then |m.devices| == 1 && m.devices[0].rom == node.rom
            else m.devices == []
  {
    hide HasGuid, Offers, Shows, Stays, AllNodes, DistinctGuids, Matches;
    m := new DeviceManager(specs);
    OneNodeOffers(specs, snoopMode, node);
    ok := m.Discover(true, [[node]], [[node]], Always(), snoopMode);
    OneListed(m.devices, node.rom);
  }

  /** A later discovery without new devices keeps the device if it rediscovers, sees it and the device survives. */
  method DiscoverAgain(m: DeviceManager, d: Device, node: Node, rediscover: bool, survives: bool) returns (ok: bool)
    requires m.Valid() && m.devices == [d] && m.specs == []
    modifies m
    ensures ok
    ensures m.devices ==
            if rediscover && survives && !node.local && node.readable && node.rom.guid == d.rom.guid then [d] else []
  {
    hide HasGuid, Offers, Shows, AllNodes, DistinctGuids, MatchedBy;
    OneNodeOffers([], false, node);
    NothingShown();
    ok := m.Discover(rediscover, [[node]], [], _ => survives, false);
    OnlyMember(m.devices, d);
  }

  lemma NothingShown()
    ensures AllNodes([]) == []
    ensures forall g :: !Offers([], false, [], g)
    ensures forall r :: !Shows([], false, [], r)
  {}

  lemma OnlyMember(ds: seq<Device>, d: Device)
    requires DistinctGuids(ds) && forall e :: e in ds ==> e == d
    ensures ds == if d in ds then [d] else []
  {
    AtMostOne(ds);
    assert ds != [] ==> ds[0] in ds && ds == [ds[0]];
  }

  // ----- what the order means -----

  /** The earlier of two devices matches an earlier spec string first, or the same one and has the greater GUID. */
  lemma OrderMeans(specs: seq<Spec>, ds: seq<Device>, i: nat, j: nat)
    requires Ordered(specs, ds) && i < j < |ds| && specs != [] && Specified(specs, ds)
    ensures exists p, q ::
              && 0 <= p <= q < |specs| && Matches(specs[p], ds[i].rom) && Matches(specs[q], ds[j].rom)
              && (forall k :: 0 <= k < p ==> !Matches(specs[k], ds[i].rom))
              && (forall k :: 0 <= k < q ==> !Matches(specs[k], ds[j].rom))
              && (p == q ==> ds[i].rom.guid > ds[j].rom.guid)
  {
    hide Matches;
    PositionIsFirst(specs, ds[i].rom, 0);
    PositionIsFirst(specs, ds[j].rom, 0);
    var p, q := Position(specs, ds[i].rom), Position(specs, ds[j].rom);
    assert MatchedBy(specs, ds[i].rom) && MatchedBy(specs, ds[j].rom);
    assert Before(specs, ds[i].rom, ds[j].rom);
  }
}
