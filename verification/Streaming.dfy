/**
 Starting and stopping the streams of all devices (devicemanager.cpp, DeviceManager::startStreaming,
 startStreamingOnDevice and stopStreamingOnDevice), with the roll-back on failure.
 */
module Streaming {

  /** How a device answers the calls of one attempt to start streaming */
  datatype Plan = Plan(streams: nat, resets: bool, starts: nat -> bool, enables: bool,
                       stops: nat -> bool, disables: bool)

  datatype Streams = Streams(running: seq<bool>, enabled: bool)

  function FirstFailure(plan: Plan, j: nat): (k: nat)
    requires j <= plan.streams
    ensures j <= k <= plan.streams
    decreases plan.streams - j
  {
    if j == plan.streams || !plan.starts(j) then j else FirstFailure(plan, j + 1)
  }

  lemma {:induction false} FailureIsFirst(plan: Plan, j: nat)
    requires j <= plan.streams
    ensures FirstFailure(plan, j) < plan.streams ==> !plan.starts(FirstFailure(plan, j))
    ensures forall i: nat :: j <= i < FirstFailure(plan, j) ==> plan.starts(i)
    decreases plan.streams - j
  {
    if j < plan.streams && plan.starts(j) {
      FailureIsFirst(plan, j + 1);
    }
  }

  predicate AllStart(plan: Plan) {
    forall j: nat :: j < plan.streams ==> plan.starts(j)
  }

  predicate Starts(plan: Plan) {
    plan.resets && AllStart(plan) && plan.enables
  }

  predicate AllStop(plan: Plan) {
    forall j: nat :: j < plan.streams ==> plan.stops(j)
  }

  predicate Fits(plan: Plan, s: Streams) {
    |s.running| == plan.streams
  }

  /** One device after an attempt to start it */
  function AfterStart(plan: Plan, s: Streams): (r: Streams)
    requires Fits(plan, s)
    ensures Fits(plan, r)
  {
    var k := FirstFailure(plan, 0);
    if !plan.resets then s
    else if k < plan.streams then
      s.(running := seq(plan.streams, j requires 0 <= j < plan.streams =>
        if j < k then !plan.stops(j) else s.running[j]))
    else Streams(seq(plan.streams, _ => true), s.enabled || plan.enables)
  }

  /** One device after an attempt to stop it */
  function AfterStop(plan: Plan, s: Streams): (r: Streams)
    requires Fits(plan, s)
    ensures Fits(plan, r)
  {
    Streams(seq(plan.streams, j requires 0 <= j < plan.streams => s.running[j] && !plan.stops(j)),
            s.enabled && !plan.disables)
  }

  predicate FitsAll(plans: seq<Plan>, states: seq<Streams>) {
    |states| == |plans| && forall i :: 0 <= i < |plans| ==> Fits(plans[i], states[i])
  }

  /** The first device that does not start; the number of devices if all do */
  function FirstDown(plans: seq<Plan>, i: nat): (m: nat)
    requires i <= |plans|
    ensures i <= m <= |plans|
    decreases |plans| - i
  {
    if i == |plans| || !Starts(plans[i]) then i else FirstDown(plans, i + 1)
  }

  lemma {:induction false} DownIsFirst(plans: seq<Plan>, i: nat)
    requires i <= |plans|
    ensures FirstDown(plans, i) < |plans| ==> !Starts(plans[FirstDown(plans, i)])
    ensures forall k :: i <= k < FirstDown(plans, i) ==> Starts(plans[k])
    decreases |plans| - i
  {
    if i < |plans| && Starts(plans[i]) {
      DownIsFirst(plans, i + 1);
    }
  }

  lemma DownStep(plans: seq<Plan>, i: nat)
    requires i < |plans|
    ensures FirstDown(plans, i) == if Starts(plans[i]) then FirstDown(plans, i + 1) else i
  {}

  lemma DownAtEnd(plans: seq<Plan>)
    ensures FirstDown(plans, |plans|) == |plans|
  {}

  predicate StreamingStarts(plans: seq<Plan>, spmStarts: bool) {
    FirstDown(plans, 0) == |plans| && spmStarts
  }

  /** All devices after startStreaming */
  function AfterStreaming(plans: seq<Plan>, states: seq<Streams>, spmStarts: bool): (r: seq<Streams>)
    requires FitsAll(plans, states)
    ensures FitsAll(plans, r)
  {
    var m := FirstDown(plans, 0);
    seq(|plans|, i requires 0 <= i < |plans| =>
      if i > m then states[i]
      else if i == m || StreamingStarts(plans, spmStarts) then AfterStart(plans[i], states[i])
      else AfterStop(plans[i], AfterStart(plans[i], states[i])))
  }

  predicate Idle(states: seq<Streams>) {
    forall i, j :: 0 <= i < |states| && 0 <= j < |states[i].running| ==> !states[i].running[j]
  }

  /** The device whose streams all started but which could not be enabled */
  predicate EnableFailed(plans: seq<Plan>, i: nat) {
    i < |plans| && i == FirstDown(plans, 0) && plans[i].resets && AllStart(plans[i]) && !plans[i].enables
  }

  /** A device before the one that fails, which was enabled and cannot be disabled again */
  predicate Unpaired(plans: seq<Plan>, i: nat) {
    i < FirstDown(plans, 0) && i < |plans| && !plans[i].disables
  }

  /**
   Start is all or nothing, up to one case. If it succeeds, every stream of every device runs and
   every device is enabled. If it fails, stops succeeding and nothing having run before, exactly the
   streams of a device that failed in enableStreaming are left running: startStreamingOnDevice
   does not stop them, and startStreaming only stops the devices before. No device is left enabled that
   was not enabled before, unless it cannot be disabled again.
   */
  lemma AllOrNothing(plans: seq<Plan>, states: seq<Streams>, spmStarts: bool)
    requires FitsAll(plans, states) && Idle(states)
    requires forall i :: 0 <= i < |plans| ==> AllStop(plans[i])
    ensures var after := AfterStreaming(plans, states, spmStarts);
            && (StreamingStarts(plans, spmStarts) ==>
                  forall i :: 0 <= i < |plans| ==>
                    after[i].enabled && forall j :: 0 <= j < plans[i].streams ==> after[i].running[j])
            && (!StreamingStarts(plans, spmStarts) ==>
                  forall i, j :: 0 <= i < |plans| && 0 <= j < plans[i].streams ==>
                    (after[i].running[j] <==> EnableFailed(plans, i)))
            && (!StreamingStarts(plans, spmStarts) ==>
                  forall i :: 0 <= i < |plans| && !states[i].enabled ==>
                    (after[i].enabled <==> Unpaired(plans, i)))
  {
    var m := FirstDown(plans, 0);
    DownIsFirst(plans, 0);
    forall i | 0 <= i < |plans| ensures FirstFailure(plans[i], 0) == plans[i].streams <==> AllStart(plans[i]) {
      FailureIsFirst(plans[i], 0);
    }
  }

  /** So a failed start leaves nothing running exactly when no device with streams failed in enableStreaming. */
  lemma NothingLeftRunningIff(plans: seq<Plan>, states: seq<Streams>, spmStarts: bool)
    requires FitsAll(plans, states) && Idle(states)
    requires forall i :: 0 <= i < |plans| ==> AllStop(plans[i])
    requires !StreamingStarts(plans, spmStarts)
    ensures Idle(AfterStreaming(plans, states, spmStarts)) <==>
            forall i: nat :: EnableFailed(plans, i) ==> plans[i].streams == 0
  {
    AllOrNothing(plans, states, spmStarts);
    var after := AfterStreaming(plans, states, spmStarts);
    if i: nat :| EnableFailed(plans, i) && plans[i].streams > 0 {
      assert after[i].running[0];
    }
  }

  // ----- the devices -----

  class FFADODevice {
    const plan: Plan
    var running: seq<bool>
    var enabled: bool

    function State(): Streams
      reads this
    {
      Streams(running, enabled)
    }

    constructor (plan: Plan)
      ensures this.plan == plan && Fits(plan, State())
      ensures forall j :: 0 <= j < |running| ==> !running[j]
      ensures !enabled
    {
      this.plan, running, enabled := plan, seq(plan.streams, _ => false), false;
    }

    method StartStreamByIndex(j: nat) returns (ok: bool)
      requires Fits(plan, State()) && j < plan.streams
      modifies this
      ensures ok == plan.starts(j) && enabled == old(enabled)
      ensures running == if ok then old(running)[j := true] else old(running)
    {
      if plan.starts(j) {
        running := running[j := true];
      }
      return plan.starts(j);
    }

    method StopStreamByIndex(j: nat) returns (ok: bool)
      requires Fits(plan, State()) && j < plan.streams
      modifies this
      ensures ok == plan.stops(j) && enabled == old(enabled)
      ensures running == if ok then old(running)[j := false] else old(running)
    {
      if plan.stops(j) {
        running := running[j := false];
      }
      return plan.stops(j);
    }

    method EnableStreaming() returns (ok: bool)
      modifies this
      ensures ok == plan.enables && running == old(running) && enabled == (old(enabled) || ok)
    {
      enabled := enabled || plan.enables;
      return plan.enables;
    }

    method DisableStreaming() returns (ok: bool)
      modifies this
      ensures ok == plan.disables && running == old(running) && enabled == (old(enabled) && !ok)
    {
      enabled := enabled && !plan.disables;
      return plan.disables;
    }
  }

  method StartStreamingOnDevice(device: FFADODevice) returns (ok: bool)
    requires Fits(device.plan, device.State())
    modifies device
    ensures ok == Starts(device.plan)
    ensures ok <==> && device.plan.resets && device.plan.enables
                    && forall j: nat :: j < device.plan.streams ==> device.plan.starts(j)
    ensures ok ==> device.enabled && forall j :: 0 <= j < |device.running| ==> device.running[j]
    ensures !device.plan.resets ==> device.running == old(device.running)
    ensures !ok ==> device.enabled == old(device.enabled)
    ensures device.State() == AfterStart(device.plan, old(device.State()))
  {
    ghost var plan, was := device.plan, device.State();
    FailureIsFirst(plan, 0);
    if !device.plan.resets {
      return false;
    }
    var allStreamsStarted := true;
    var j: nat := 0;
    while j < device.plan.streams
      invariant j <= plan.streams && allStreamsStarted
      invariant FirstFailure(plan, j) == FirstFailure(plan, 0)
      invariant Fits(plan, device.State()) && device.enabled == was.enabled
      invariant forall i :: 0 <= i < plan.streams ==> device.running[i] == (i < j || was.running[i])
    {
      var started := device.StartStreamByIndex(j);
      if !started {
        allStreamsStarted := false;
        break;
      }
      j := j + 1;
    }
    if !allStreamsStarted {
      ghost var k := j;
      while j > 0
        invariant j <= k == FirstFailure(plan, 0)
        invariant Fits(plan, device.State()) && device.enabled == was.enabled
        invariant forall i :: 0 <= i < plan.streams ==>
          device.running[i] == (if i < j then true else if i < k then !plan.stops(i) else was.running[i])
      {
        j := j - 1;
        var _ := device.StopStreamByIndex(j);
      }
      assert device.running == AfterStart(plan, was).running;
      return false;
    }
    ok := device.EnableStreaming();
    assert device.running == AfterStart(plan, was).running;
  }

  method StopStreamingOnDevice(device: FFADODevice) returns (ok: bool)
    requires Fits(device.plan, device.State())
    modifies device
    ensures ok == AllStop(device.plan)
    ensures ok <==> forall j: nat :: j < device.plan.streams ==> device.plan.stops(j)
    ensures device.enabled == (old(device.enabled) && !device.plan.disables)
    ensures |device.running| == |old(device.running)|
    ensures forall j :: 0 <= j < |device.running| ==>
              (device.running[j] <==> old(device.running)[j] && !device.plan.stops(j))
    ensures device.State() == AfterStop(device.plan, old(device.State()))
  {
    ghost var plan, was := device.plan, device.State();
    ok := true;
    var _ := device.DisableStreaming();
    var j: nat := 0;
    while j < device.plan.streams
      invariant j <= plan.streams
      invariant ok == forall i: nat :: i < j ==> plan.stops(i)
      invariant Fits(plan, device.State()) && device.enabled == (was.enabled && !plan.disables)
      invariant forall i :: 0 <= i < plan.streams ==>
        device.running[i] == (was.running[i] && (i < j ==> !plan.stops(i)))
    {
      var stopped := device.StopStreamByIndex(j);
      if !stopped {
        ok := false;
      }
      j := j + 1;
    }
    assert device.running == AfterStop(plan, was).running;
  }

  // ----- the manager -----

  ghost function Plans(devices: seq<FFADODevice>): (s: seq<Plan>)
    ensures |s| == |devices| && forall i :: 0 <= i < |s| ==> s[i] == devices[i].plan
  {
    seq(|devices|, i requires 0 <= i < |devices| => devices[i].plan)
  }

  ghost function States(devices: seq<FFADODevice>): (s: seq<Streams>)
    reads devices
    ensures |s| == |devices| && forall i :: 0 <= i < |s| ==> s[i] == devices[i].State()
  {
    if devices == [] then []
    else States(devices[..|devices| - 1]) + [devices[|devices| - 1].State()]
  }

  predicate Distinct(devices: seq<FFADODevice>) {
    forall i, j :: 0 <= i < j < |devices| ==> devices[i] != devices[j]
  }

  class DeviceManager {
    const devices: seq<FFADODevice>

    constructor (devices: seq<FFADODevice>)
      ensures this.devices == devices
    {
      this.devices := devices;
    }

    /** spmStarts tells whether the stream processor manager starts. */
    method StartStreaming(spmStarts: bool) returns (ok: bool)
      requires Distinct(devices) && FitsAll(Plans(devices), States(devices))
      modifies devices
      ensures ok == StreamingStarts(Plans(devices), spmStarts)
      ensures ok <==> spmStarts && forall i :: 0 <= i < |devices| ==> Starts(devices[i].plan)
      ensures States(devices) == AfterStreaming(Plans(devices), old(States(devices)), spmStarts)
    {
      hide AfterStart, AfterStop, Starts, FirstDown;
      ghost var plans, was := Plans(devices), States(devices);
      DownIsFirst(plans, 0);
      var m := StartDevices();
      if m < |devices| {
        StopFirst(m);
        assert States(devices) == AfterStreaming(plans, was, spmStarts);
        return false;
      }
      if spmStarts {
        assert States(devices) == AfterStreaming(plans, was, spmStarts);
        return true;
      }
      StopFirst(|devices|);
      assert States(devices) == AfterStreaming(plans, was, spmStarts);
      return false;
    }

    /** The first loop of startStreaming: m is the device it breaks at. */
    method StartDevices() returns (m: nat)
      requires Distinct(devices) && FitsAll(Plans(devices), States(devices))
      modifies devices
      ensures m == FirstDown(Plans(devices), 0)
      ensures forall i :: 0 <= i < |devices| ==>
        devices[i].State() ==
          if i <= m then AfterStart(devices[i].plan, old(devices[i].State())) else old(devices[i].State())
    {
      hide AfterStart, Starts, FirstDown, Plans, States;
      ghost var plans, was := Plans(devices), States(devices);
      m := 0;
      while m < |devices|
        invariant m <= |devices|
        invariant FirstDown(plans, m) == FirstDown(plans, 0)
        invariant forall i :: 0 <= i < |devices| ==>
          devices[i].State() == if i < m then AfterStart(plans[i], was[i]) else was[i]
      {
        DownStep(plans, m);
        var started := StartStreamingOnDevice(devices[m]);
        if !started {
          break;
        }
        m := m + 1;
      }
      DownAtEnd(plans);
    }

    /** stopStreaming reports success even when streams could not be stopped. */
    method StopStreaming() returns (ok: bool)
      requires Distinct(devices) && FitsAll(Plans(devices), States(devices))
      modifies devices
      ensures ok
      ensures forall i :: 0 <= i < |devices| ==>
        devices[i].State() == AfterStop(devices[i].plan, old(devices[i].State()))
    {
      StopFirst(|devices|);
      return true;
    }

    /** The clean-up loops: stop the first n devices. */
    method StopFirst(n: nat)
      requires Distinct(devices) && FitsAll(Plans(devices), States(devices)) && n <= |devices|
      modifies devices
      ensures forall i :: 0 <= i < |devices| ==>
        devices[i].State() ==
          if i < n then AfterStop(devices[i].plan, old(devices[i].State())) else old(devices[i].State())
    {
      hide AfterStop, Plans, States;
      ghost var was := States(devices);
      var it := 0;
      while it < n
        invariant 0 <= it <= n
        invariant forall i :: 0 <= i < |devices| ==>
          devices[i].State() == if i < it then AfterStop(devices[i].plan, was[i]) else was[i]
      {
        var _ := StopStreamingOnDevice(devices[it]);
        it := it + 1;
      }
    }
  }

  /** One device with one stream that starts, and enableStreaming fails: the stream runs after the failed start. */
  method LeftRunning() returns (device: FFADODevice, ok: bool)
    ensures !ok && device.running == [true]
  {
    var plan := Plan(1, true, _ => true, false, _ => true, true);
    device := new FFADODevice(plan);
    var manager := new DeviceManager([device]);
    FailureIsFirst(plan, 0);
    DownIsFirst([plan], 0);
    assert Plans(manager.devices) == [plan] && States(manager.devices)[0] == device.State();
    ok := manager.StartStreaming(true);
    assert States(manager.devices)[0] == AfterStart(plan, Streams([false], false));
  }
}
