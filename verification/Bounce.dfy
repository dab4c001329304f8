/**
 The Bounce channel handshake (bounce_avdevice.cpp, bounce_slave_avdevice.cpp). A master starts
 and stops streams by allocating isochronous channels and publishing them in two registers that
 live at the slave; the slave polls these registers and adopts what it finds. Each register
 access and each channel allocation is one atomic step; the slave and the other nodes of the bus
 act between any two of them.
 */
module Bounce {
  import opened Wrappers

  // What an unused ISO channel register holds. As an int it is channel -1.
  const FREE: int := 0xFFFF_FFFF
  const NO_CHANNEL: int := -1
  const LAST_CHANNEL: int := 62

  datatype Register = TxIsoChannel | RxIsoChannel

  /** Where the master is inside startStreamByIndex or stopStreamByIndex. */
  datatype Phase =
    | Idle
    | Probing(i: nat, c: int)
    | Claiming(i: nat, c: int)
    | Checking(i: nat, c: int)
    | Clearing(i: nat, c: int)
    | Freeing(i: nat, c: int)

  /**
   channels holds the channel of every stream processor, receive processors first; mine are the
   channels the master's service has registered, foreign those allocated by other nodes.
   */
  datatype World = World(receivers: nat, channels: seq<int>, tx: int, rx: int,
                         mine: set<int>, foreign: set<int>, phase: Phase)
  {
    // What the slave sends on TX the master receives, and the other way round.
    function RegisterOf(i: nat): Register {
      if i < receivers then TxIsoChannel else RxIsoChannel
    }

    function Value(r: Register): int {
      if r.TxIsoChannel? then tx else rx
    }

    function Written(r: Register, v: int): World {
      if r.TxIsoChannel? then this.(tx := v) else this.(rx := v)
    }

    function Freed(c: int): World {
      this.(mine := mine - {c})
    }

    function Assigned(i: nat, c: int): World
      requires i < |channels|
    {
      this.(channels := channels[i := c])
    }

    function At(p: Phase): World {
      this.(phase := p)
    }

    // Streams whose channel is published: all but the one in the middle of a start or stop.
    predicate Settled(i: nat) {
      !((phase.Probing? || phase.Claiming? || phase.Freeing?) && phase.i == i)
    }

    predicate Publishes(i: nat, r: Register) {
      && i < |channels| && RegisterOf(i) == r && Settled(i)
      && channels[i] != NO_CHANNEL && channels[i] == Value(r)
    }
  }

  /** The conversion of a channel number to the unsigned quadlet it is compared with */
  function AsQuadlet(c: int): int {
    if c == NO_CHANNEL then FREE else c
  }

  /** The conversion back, when the slave hands a register value to setChannel */
  function AsChannel(v: int): int {
    if v == FREE then NO_CHANNEL else v
  }

  // ----- the step relation -----

  datatype Step =
    | Allocate(i: nat, got: int)
    | Probe(answered: bool)
    | Claim(answered: bool)
    | BeginStop(i: nat)
    | Check(answered: bool)
    | Clear(answered: bool)
    | Release
    | OthersAllocate(now: set<int>)

  predicate Allocatable(w: World, c: int) {
    0 <= c <= LAST_CHANNEL && c !in w.mine && c !in w.foreign
  }

  /** The master starts stopped streams only; everything else it may do at any time. */
  predicate Enabled(w: World, step: Step) {
    match step
    case Allocate(i, got) =>
      && w.phase.Idle? && i < |w.channels| && w.channels[i] == NO_CHANNEL
      && (got == NO_CHANNEL || Allocatable(w, got))
    case Probe(_) => w.phase.Probing? && w.phase.i < |w.channels|
    case Claim(_) => w.phase.Claiming? && w.phase.i < |w.channels|
    case BeginStop(i) => w.phase.Idle? && i < |w.channels|
    case Check(_) => w.phase.Checking?
    case Clear(_) => w.phase.Clearing?
    case Release => w.phase.Freeing? && w.phase.i < |w.channels|
    case OthersAllocate(now) => now !! w.mine
  }

  function RolledBack(w: World): World
    requires (w.phase.Probing? || w.phase.Claiming?) && w.phase.i < |w.channels|
  {
    w.Assigned(w.phase.i, NO_CHANNEL).Freed(w.phase.c).At(Idle)
  }

  function After(w: World, step: Step): World
    requires Enabled(w, step)
  {
    match step
    case Allocate(i, got) =>
      if got == NO_CHANNEL then w
      else w.(mine := w.mine + {got}).Assigned(i, got).At(Probing(i, got))
    case Probe(answered) =>
      if answered && w.Value(w.RegisterOf(w.phase.i)) == FREE then w.At(Claiming(w.phase.i, w.phase.c))
      else RolledBack(w)
    case Claim(answered) =>
      if answered then w.Written(w.RegisterOf(w.phase.i), w.phase.c).At(Idle) else RolledBack(w)
    case BeginStop(i) => w.At(Checking(i, w.channels[i]))
    case Check(answered) =>
      if answered && w.Value(w.RegisterOf(w.phase.i)) == AsQuadlet(w.phase.c)
      then w.At(Clearing(w.phase.i, w.phase.c)) else w.At(Idle)
    case Clear(answered) =>
      if answered then w.Written(w.RegisterOf(w.phase.i), FREE).At(Freeing(w.phase.i, w.phase.c)) else w.At(Idle)
    case Release =>
      if w.phase.c == NO_CHANNEL then w.At(Idle)
      else w.Freed(w.phase.c).Assigned(w.phase.i, NO_CHANNEL).At(Idle)
    case OthersAllocate(now) => w.(foreign := now)
  }

  predicate Possible(w: World, run: seq<Step>)
    decreases |run|
  {
    run == [] || (Enabled(w, run[0]) && Possible(After(w, run[0]), run[1..]))
  }

  function Reached(w: World, run: seq<Step>): World
    requires Possible(w, run)
    decreases |run|
  {
    if run == [] then w else Reached(After(w, run[0]), run[1..])
  }

  // ----- what every step keeps -----

  ghost predicate ChannelsHeld(w: World) {
    && w.mine !! w.foreign
    && (forall i :: 0 <= i < |w.channels| && w.channels[i] != NO_CHANNEL ==> 0 <= w.channels[i] <= LAST_CHANNEL)
    && (forall c :: c in w.mine <==> c in w.channels && c != NO_CHANNEL)
    && (forall i, j :: 0 <= i < j < |w.channels| && w.channels[i] != NO_CHANNEL ==> w.channels[i] != w.channels[j])
  }

  ghost predicate RegistersAgree(w: World) {
    && (forall i :: 0 <= i < |w.channels| && w.channels[i] != NO_CHANNEL && w.Settled(i) ==>
          w.Value(w.RegisterOf(i)) == w.channels[i])
    && (forall r: Register :: w.Value(r) != FREE ==> exists i: nat :: w.Publishes(i, r))
  }

  ghost predicate PhaseFits(w: World) {
    match w.phase
    case Idle => true
    case Probing(i, c) => i < |w.channels| && w.channels[i] == c != NO_CHANNEL
    case Claiming(i, c) => i < |w.channels| && w.channels[i] == c != NO_CHANNEL && w.Value(w.RegisterOf(i)) == FREE
    case Checking(i, c) => i < |w.channels| && w.channels[i] == c
    case Clearing(i, c) => i < |w.channels| && w.channels[i] == c && w.Value(w.RegisterOf(i)) == AsQuadlet(c)
    case Freeing(i, c) => i < |w.channels| && w.channels[i] == c && w.Value(w.RegisterOf(i)) == FREE
  }

  ghost predicate Agreement(w: World) {
    ChannelsHeld(w) && RegistersAgree(w) && PhaseFits(w)
  }

  lemma ReplacedChannel(w: World, i: nat, c: int)
    requires ChannelsHeld(w) && i < |w.channels|
    requires w.channels[i] == NO_CHANNEL && Allocatable(w, c)
    ensures ChannelsHeld(w.(mine := w.mine + {c}).Assigned(i, c))
  {
    var w' := w.(mine := w.mine + {c}).Assigned(i, c);
    forall d ensures d in w'.mine <==> d in w'.channels && d != NO_CHANNEL {
      if d in w.channels && d != NO_CHANNEL {
        var k :| 0 <= k < |w.channels| && w.channels[k] == d;
        assert w'.channels[k] == d;
      }
      assert w'.channels[i] == c;
    }
    forall k | 0 <= k < |w.channels| ensures w.channels[k] != c {
      assert w.channels[k] in w.channels;
    }
  }

  lemma DroppedChannel(w: World, i: nat)
    requires ChannelsHeld(w) && i < |w.channels| && w.channels[i] != NO_CHANNEL
    ensures ChannelsHeld(w.Freed(w.channels[i]).Assigned(i, NO_CHANNEL))
  {
    var w' := w.Freed(w.channels[i]).Assigned(i, NO_CHANNEL);
    forall d ensures d in w'.mine <==> d in w'.channels && d != NO_CHANNEL {
      if d in w'.mine {
        var k :| 0 <= k < |w.channels| && w.channels[k] == d;
        assert w'.channels[k] == d;
      }
      if d in w'.channels && d != NO_CHANNEL {
        var k :| 0 <= k < |w'.channels| && w'.channels[k] == d;
        assert w.channels[k] == d && k != i;
      }
    }
  }

  lemma Publisher(w: World, r: Register) returns (i: nat)
    requires RegistersAgree(w) && w.Value(r) != FREE
    ensures w.Publishes(i, r)
  {
    i :| w.Publishes(i, r);
  }

  /** The registers of w2 agree if no settled, published stream differs between w and w2. */
  lemma SamePublished(w: World, w2: World)
    requires RegistersAgree(w)
    requires w2.receivers == w.receivers && |w2.channels| == |w.channels|
    requires w2.tx == w.tx && w2.rx == w.rx
    requires forall i: nat :: i < |w.channels| && w.Settled(i) && w.channels[i] != NO_CHANNEL ==>
                 w2.Settled(i) && w2.channels[i] == w.channels[i]
    requires forall i: nat :: i < |w.channels| && w2.Settled(i) && w2.channels[i] != NO_CHANNEL ==>
                 w.Settled(i) && w2.channels[i] == w.channels[i]
    ensures RegistersAgree(w2)
  {
    forall r: Register | w2.Value(r) != FREE ensures exists i: nat :: w2.Publishes(i, r) {
      var i := Publisher(w, r);
      assert w2.Publishes(i, r);
    }
  }

  lemma ClaimAgrees(w: World)
    requires Agreement(w) && w.phase.Claiming?
    ensures Agreement(After(w, Claim(true)))
  {
    var w' := After(w, Claim(true));
    var i, r := w.phase.i, w.RegisterOf(w.phase.i);
    assert w'.Publishes(i, r);
    forall q: Register | q != r && w'.Value(q) != FREE ensures exists k: nat :: w'.Publishes(k, q) {
      var k := Publisher(w, q);
      assert w'.Publishes(k, q);
    }
  }

  lemma ClearAgrees(w: World)
    requires Agreement(w) && w.phase.Clearing?
    ensures Agreement(After(w, Clear(true)))
  {
    var w' := After(w, Clear(true));
    var i, r := w.phase.i, w.RegisterOf(w.phase.i);
    forall q: Register | q != r && w'.Value(q) != FREE ensures exists k: nat :: w'.Publishes(k, q) {
      var k := Publisher(w, q);
      assert w'.Publishes(k, q);
    }
    forall k | 0 <= k < |w.channels| && w.channels[k] != NO_CHANNEL && w'.Settled(k)
      ensures w'.Value(w'.RegisterOf(k)) == w'.channels[k]
    {
      assert w.Value(w.RegisterOf(k)) == w.channels[k];
    }
  }

  lemma ReleaseAgrees(w: World)
    requires Agreement(w) && w.phase.Freeing?
    ensures Agreement(After(w, Release))
  {
    if w.phase.c != NO_CHANNEL {
      DroppedChannel(w, w.phase.i);
    }
    SamePublished(w, After(w, Release));
  }

  lemma AllocationAgrees(w: World, i: nat, got: int)
    requires Agreement(w) && Enabled(w, Allocate(i, got))
    ensures Agreement(After(w, Allocate(i, got)))
  {
    if got != NO_CHANNEL {
      ReplacedChannel(w, i, got);
      SamePublished(w, After(w, Allocate(i, got)));
    }
  }

  lemma RollbackAgrees(w: World)
    requires Agreement(w) && (w.phase.Probing? || w.phase.Claiming?)
    ensures Agreement(RolledBack(w))
  {
    DroppedChannel(w, w.phase.i);
    SamePublished(w, RolledBack(w));
  }

  lemma StepKeepsAgreement(w: World, step: Step)
    requires Agreement(w) && Enabled(w, step)
    ensures Agreement(After(w, step))
  {
    hide ChannelsHeld, RegistersAgree;
    if step.Claim? && step.answered {
      ClaimAgrees(w);
    } else if step.Clear? && step.answered {
      ClearAgrees(w);
    } else if step.Release? {
      ReleaseAgrees(w);
    } else if step.Allocate? {
      AllocationAgrees(w, step.i, step.got);
    } else if (step.Probe? || step.Claim?) && After(w, step) == RolledBack(w) {
      RollbackAgrees(w);
    } else {
      OtherStepAgrees(w, step);
    }
  }

  /** A step that touches neither registers nor channels */
  lemma OtherStepAgrees(w: World, step: Step)
    requires Agreement(w) && Enabled(w, step)
    requires After(w, step) == w.(phase := After(w, step).phase, foreign := After(w, step).foreign)
    requires step.Probe? ==> After(w, step).phase.Claiming?
    requires !step.Allocate? && !step.Release? && !step.Claim? && !(step.Clear? && step.answered)
    ensures Agreement(After(w, step))
  {
    SamePublished(w, After(w, step));
  }

  /** Both registers as initMemSpace leaves them, before any stream is started */
  function Initial(receivers: nat, transmitters: nat, foreign: set<int>): World {
    World(receivers, seq(receivers + transmitters, _ => NO_CHANNEL), FREE, FREE, {}, foreign, Idle)
  }

  lemma InitialAgrees(receivers: nat, transmitters: nat, foreign: set<int>)
    ensures Agreement(Initial(receivers, transmitters, foreign))
  {}

  lemma {:induction false} RunKeepsAgreement(w: World, run: seq<Step>)
    requires Agreement(w) && Possible(w, run)
    ensures Agreement(Reached(w, run))
    decreases |run|
  {
    if run != [] {
      StepKeepsAgreement(w, run[0]);
      RunKeepsAgreement(After(w, run[0]), run[1..]);
    }
  }

  // ----- what agreement means between calls -----

  function InUse(w: World): set<int> {
    (if w.tx == FREE then {} else {w.tx}) + (if w.rx == FREE then {} else {w.rx})
  }

  /**
   Between calls a stream has a channel exactly when its register holds that channel, a register
   in use belongs to one stream only, the two registers differ, and the channels allocated for
   the master are exactly those in the registers.
   */
  lemma HandshakeAgreement(receivers: nat, transmitters: nat, foreign: set<int>, run: seq<Step>)
    requires Possible(Initial(receivers, transmitters, foreign), run)
    requires Reached(Initial(receivers, transmitters, foreign), run).phase.Idle?
    ensures var w := Reached(Initial(receivers, transmitters, foreign), run);
            && (forall i :: 0 <= i < |w.channels| && w.channels[i] != NO_CHANNEL ==>
                  w.Value(w.RegisterOf(i)) == w.channels[i])
            && (forall r: Register :: w.Value(r) != FREE ==> exists i: nat :: w.Publishes(i, r))
            && (forall i, j :: 0 <= i < j < |w.channels| && w.RegisterOf(i) == w.RegisterOf(j) ==>
                  w.channels[i] == NO_CHANNEL || w.channels[j] == NO_CHANNEL)
            && (w.tx != FREE ==> w.tx != w.rx)
            && w.mine == InUse(w) && w.mine !! w.foreign && (forall c :: c in w.mine ==> 0 <= c <= 62)
  {
    InitialAgrees(receivers, transmitters, foreign);
    RunKeepsAgreement(Initial(receivers, transmitters, foreign), run);
    hide Agreement, Possible, Reached;
    var w := Reached(Initial(receivers, transmitters, foreign), run);
    IdleAgrees(w);
    AllocatedInUse(w);
  }

  lemma IdleAgrees(w: World)
    requires Agreement(w) && w.phase.Idle?
    ensures forall i :: 0 <= i < |w.channels| && w.channels[i] != NO_CHANNEL ==>
              w.Value(w.RegisterOf(i)) == w.channels[i]
    ensures forall r: Register :: w.Value(r) != FREE ==> exists i: nat :: w.Publishes(i, r)
    ensures forall i, j :: 0 <= i < j < |w.channels| && w.RegisterOf(i) == w.RegisterOf(j) ==>
              w.channels[i] == NO_CHANNEL || w.channels[j] == NO_CHANNEL
    ensures w.mine !! w.foreign
  {}

  lemma AllocatedInUse(w: World)
    requires Agreement(w) && w.phase.Idle?
    ensures w.tx != FREE ==> w.tx != w.rx
    ensures w.mine == InUse(w)
  {
    forall c ensures c in w.mine <==> c in InUse(w) {
      if c in w.mine {
        var k :| 0 <= k < |w.channels| && w.channels[k] == c;
        assert w.Value(w.RegisterOf(k)) == c;
      }
      if c in InUse(w) {
        var r := if c == w.tx then TxIsoChannel else RxIsoChannel;
        var k := Publisher(w, r);
        assert w.channels[k] == c;
      }
    }
    if w.tx != FREE && w.rx != FREE {
      var k := Publisher(w, TxIsoChannel);
      var l := Publisher(w, RxIsoChannel);
      assert k < l && w.tx == w.channels[k] && w.rx == w.channels[l];
    }
  }

  // ----- failed calls leave nothing behind -----

  /** The world without the traces of a start that is still under way. */
  ghost function Undone(w: World): World
    requires PhaseFits(w)
  {
    if w.phase.Probing? || w.phase.Claiming? then RolledBack(w) else w.At(Idle)
  }

  predicate TakesEffect(step: Step) {
    (step.Claim? && step.answered) || (step.Clear? && step.answered) || step.Release?
  }

  lemma StepShowsNothing(w: World, step: Step)
    requires Agreement(w) && Enabled(w, step) && !TakesEffect(step)
    ensures Agreement(After(w, step))
    ensures Undone(After(w, step)).(foreign := w.foreign) == Undone(w)
  {
    StepKeepsAgreement(w, step);
    if step.Allocate? && step.got != NO_CHANNEL {
      assert w.channels[step.i := step.got][step.i := NO_CHANNEL] == w.channels;
      assert w.mine + {step.got} - {step.got} == w.mine;
    }
  }

  /**
   Whatever the master attempted, as long as no register write was answered it is back where it
   was once it is idle: every start failed and every failed start gave back its channel.
   */
  lemma {:induction false} FailedStartsRestore(w: World, run: seq<Step>)
    requires Agreement(w) && Possible(w, run)
    requires forall k :: 0 <= k < |run| ==> !TakesEffect(run[k])
    ensures Agreement(Reached(w, run))
    ensures Undone(Reached(w, run)).(foreign := w.foreign) == Undone(w)
    decreases |run|
  {
    if run != [] {
      var w' := After(w, run[0]);
      StepShowsNothing(w, run[0]);
      FailedStartsRestore(w', run[1..]);
    }
  }

  // ----- the slave's side -----

  /** The values written to r over a run, in order. */
  function Writes(w: World, run: seq<Step>, r: Register): seq<int>
    requires Possible(w, run)
    decreases |run|
  {
    if run == [] then []
    else
      var step := run[0];
      var now :=
        if step.Claim? && step.answered && w.RegisterOf(w.phase.i) == r then [w.phase.c]
        else if step.Clear? && step.answered && w.RegisterOf(w.phase.i) == r then [FREE]
        else [];
      now + Writes(After(w, step), run[1..], r)
  }

  /** After the poll, the last thing the master did to the register was to stop its stream. */
  predicate Overtaken(w: World, run: seq<Step>, r: Register)
    requires Possible(w, run)
  {
    var ws := Writes(w, run, r);
    ws != [] && ws[|ws| - 1] == FREE
  }

  lemma {:induction false} RegisterHoldsLastWrite(w: World, run: seq<Step>, r: Register)
    requires Possible(w, run)
    ensures var ws := Writes(w, run, r);
            Reached(w, run).Value(r) == if ws == [] then w.Value(r) else ws[|ws| - 1]
    decreases |run|
  {
    if run != [] {
      RegisterHoldsLastWrite(After(w, run[0]), run[1..], r);
    }
  }

  /** A register in use is not written again before it has been cleared. */
  lemma {:induction false} FirstWriteClears(w: World, run: seq<Step>, r: Register)
    requires Agreement(w) && Possible(w, run) && w.Value(r) != FREE
    requires Writes(w, run, r) != []
    ensures Writes(w, run, r)[0] == FREE
    decreases |run|
  {
    StepKeepsAgreement(w, run[0]);
    var w' := After(w, run[0]);
    if w'.Value(r) != FREE {
      FirstWriteClears(w', run[1..], r);
    }
  }

  /**
   A slave whose poll found the register in use and whose final read comes at the end of the run:
   it ends up with no channel exactly when a stop of the master overtook it, otherwise with the
   channel one stream of the master, the peer of its own, has published. Without any stop in
   between that is the channel the poll saw.
   */
  lemma SlaveAdoptsPeerChannel(w: World, run: seq<Step>, r: Register)
    requires Agreement(w) && Possible(w, run) && w.Value(r) != FREE
    ensures var v := Reached(w, run).Value(r);
            && (AsChannel(v) == NO_CHANNEL <==> Overtaken(w, run, r))
            && (!Overtaken(w, run, r) ==> exists i: nat :: Reached(w, run).Publishes(i, r)
                                                           && Reached(w, run).channels[i] == AsChannel(v))
            && (FREE !in Writes(w, run, r) ==> v == w.Value(r))
  {
    var end := Reached(w, run);
    var ws := Writes(w, run, r);
    RunKeepsAgreement(w, run);
    RegisterHoldsLastWrite(w, run, r);
    if end.Value(r) != FREE {
      var i := Publisher(end, r);
      assert 0 <= end.channels[i];
    }
    if ws != [] {
      FirstWriteClears(w, run, r);
    }
  }

  /** The poll, if any, that ends the waiting (None is a failed readReg): a failed read or a value other than v. */
  predicate Ends(answers: nat -> Option<int>, v: int, k: nat) {
    answers(k) != Some(v) && forall j: nat :: j < k ==> answers(j) == Some(v)
  }

  /**
   SlaveDevice::waitForRegisterNotEqualTo with a time-out of timeoutSecs: the register has to
   change before the last of the polls, because a change seen by the last one counts as a time-out.
   */
  method WaitForRegisterNotEqualTo(answers: nat -> Option<int>, v: int, timeoutSecs: nat) returns (ok: bool, polls: nat)
    ensures ok <==> exists k: nat :: k + 1 < timeoutSecs * 10 && Ends(answers, v, k) && answers(k).Some?
    ensures ok ==> 0 < polls < timeoutSecs * 10 && Ends(answers, v, polls - 1) && answers(polls - 1).Some?
    ensures polls <= timeoutSecs * 10
    ensures polls == timeoutSecs * 10 || (polls > 0 && Ends(answers, v, polls - 1))
  {
    var waitCycles: nat := timeoutSecs * 10;
    var reg := v;
    polls := 0;
    while v == reg && waitCycles != 0
      invariant waitCycles + polls == timeoutSecs * 10
      invariant v == reg ==> forall j: nat :: j < polls ==> answers(j) == Some(v)
      invariant v != reg ==> polls > 0 && Ends(answers, v, polls - 1) && answers(polls - 1).Some?
      decreases waitCycles
    {
      waitCycles := waitCycles - 1;
      var answer := answers(polls);
      polls := polls + 1;
      if answer == None {
        assert Ends(answers, v, polls - 1);
        return false, polls;
      }
      reg := answer.value;
    }
    if waitCycles == 0 {
      return false, polls;
    }
    assert polls < timeoutSecs * 10 && Ends(answers, v, polls - 1);
    return true, polls;
  }

  /** A change that the very last poll sees is reported as a time-out, whatever the time-out is. */
  method LastRegisterPoll(timeoutSecs: nat) returns (answers: nat -> Option<int>, ok: bool, polls: nat)
    requires timeoutSecs > 0
    ensures !ok && 0 < polls && answers(polls - 1) == Some(0) && Ends(answers, FREE, polls - 1)
  {
    answers := k => Some(if k + 1 < timeoutSecs * 10 then FREE else 0);
    assert Ends(answers, FREE, timeoutSecs * 10 - 1);
    ok, polls := WaitForRegisterNotEqualTo(answers, FREE, timeoutSecs);
  }

  // ----- the calls as the master makes them -----

  /** The two registers in the slave's memory space. A failed access changes nothing. */
  class SlaveMemory {
    var tx: int
    var rx: int

    ghost function Value(r: Register): int
      reads this
    {
      if r.TxIsoChannel? then tx else rx
    }

    constructor ()
      ensures tx == FREE && rx == FREE
    {
      tx, rx := FREE, FREE;
    }

    method ReadReg(r: Register, answered: bool) returns (ok: bool, result: int)
      ensures ok == answered && (ok ==> result == Value(r))
    {
      if !answered {
        return false, 0;
      }
      return true, if r.TxIsoChannel? then tx else rx;
    }

    method WriteReg(r: Register, v: int, answered: bool) returns (ok: bool)
      modifies this
      ensures ok == answered
      ensures tx == if answered && r.TxIsoChannel? then v else old(tx)
      ensures rx == if answered && r.RxIsoChannel? then v else old(rx)
    {
      if answered {
        if r.TxIsoChannel? { tx := v; } else { rx := v; }
      }
      return answered;
    }
  }

  /** The 1394 service of the master, as far as generic channel allocation goes */
  class IsoService {
    var mine: set<int>
    var foreign: set<int>

    constructor (foreign: set<int>)
      ensures mine == {} && this.foreign == foreign
    {
      this.mine, this.foreign := {}, foreign;
    }

    /** got is the channel the bus grants, or NO_CHANNEL. */
    method AllocateIsoChannelGeneric(got: int) returns (c: int)
      requires got == NO_CHANNEL || (0 <= got <= LAST_CHANNEL && got !in mine && got !in foreign)
      modifies this
      ensures c == got && foreign == old(foreign)
      ensures mine == if got == NO_CHANNEL then old(mine) else old(mine) + {got}
    {
      if got != NO_CHANNEL {
        mine := mine + {got};
      }
      return got;
    }

    method FreeIsoChannel(c: int) returns (ok: bool)
      modifies this
      ensures ok <==> 0 <= c <= 63 && c in old(mine)
      ensures mine == (if ok then old(mine) - {c} else old(mine)) && foreign == old(foreign)
    {
      if c < 0 || c > 63 || c !in mine {
        return false;
      }
      mine := mine - {c};
      return true;
    }
  }

  /** Whether a start claims the register of stream i. */
  predicate StartSucceeds(w: World, i: nat, got: int, probed: bool, claimed: bool) {
    got != NO_CHANNEL && probed && w.Value(w.RegisterOf(i)) == FREE && claimed
  }

  function Started(w: World, i: nat, got: int, probed: bool, claimed: bool): World
    requires i < |w.channels|
  {
    if got == NO_CHANNEL then w
    else if StartSucceeds(w, i, got, probed, claimed) then
      w.(mine := w.mine + {got}).Assigned(i, got).Written(w.RegisterOf(i), got)
    else w.Assigned(i, NO_CHANNEL)
  }

  /** Whether a stop finds its channel in the register and clears it. */
  predicate StopClears(w: World, i: nat, checked: bool, cleared: bool)
    requires i < |w.channels|
  {
    checked && w.Value(w.RegisterOf(i)) == AsQuadlet(w.channels[i]) && cleared
  }

  function Stopped(w: World, i: nat, checked: bool, cleared: bool): World
    requires i < |w.channels|
  {
    if !StopClears(w, i, checked, cleared) then w
    else if w.channels[i] !in w.mine then w.Written(w.RegisterOf(i), FREE)
    else w.Written(w.RegisterOf(i), FREE).Freed(w.channels[i]).Assigned(i, NO_CHANNEL)
  }

  /**
   In the registers' own terms: a start succeeds when a channel was granted, both accesses are answered and the
   stream's register was free; it then holds the channel, and nothing else has changed.
   */
  lemma StartOutcome(w: World, i: nat, got: int, probed: bool, claimed: bool)
    requires i < |w.channels| && (got == -1 || Allocatable(w, got))
    ensures var register := if i < w.receivers then w.tx else w.rx;
            var w', ok := Started(w, i, got, probed, claimed), StartSucceeds(w, i, got, probed, claimed);
            && (ok <==> got != -1 && probed && claimed && register == 0xFFFF_FFFF)
            && w'.tx == (if ok && i < w.receivers then got else w.tx)
            && w'.rx == (if ok && i >= w.receivers then got else w.rx)
            && w'.mine == (if ok then w.mine + {got} else w.mine)
            && w'.channels == (if got == -1 then w.channels else w.channels[i := if ok then got else -1])
            && w'.phase == w.phase && w'.foreign == w.foreign && w'.receivers == w.receivers
  {}

  /** A stop clears the register when that holds the stream's channel (or is free, for a stream without one). */
  lemma StopOutcome(w: World, i: nat, checked: bool, cleared: bool)
    requires i < |w.channels|
    ensures var register := if i < w.receivers then w.tx else w.rx;
            var w', ok := Stopped(w, i, checked, cleared), StopClears(w, i, checked, cleared);
            var c := w.channels[i];
            && (ok <==> checked && cleared && register == if c == -1 then 0xFFFF_FFFF else c)
            && w'.tx == (if ok && i < w.receivers then 0xFFFF_FFFF else w.tx)
            && w'.rx == (if ok && i >= w.receivers then 0xFFFF_FFFF else w.rx)
            && w'.mine == (if ok then w.mine - {c} else w.mine)
            && w'.channels == (if ok && c in w.mine then w.channels[i := -1] else w.channels)
            && w'.phase == w.phase && w'.foreign == w.foreign && w'.receivers == w.receivers
  {}

  class MasterDevice {
    const receivers: nat
    var channels: seq<int>
    const memory: SlaveMemory
    const service: IsoService

    ghost function Snapshot(): World
      reads this, memory, service
    {
      World(receivers, channels, memory.tx, memory.rx, service.mine, service.foreign, Idle)
    }

    constructor (receivers: nat, transmitters: nat, memory: SlaveMemory, service: IsoService)
      ensures this.receivers == receivers && this.memory == memory && this.service == service
      ensures channels == seq(receivers + transmitters, _ => NO_CHANNEL)
    {
      this.receivers, this.memory, this.service := receivers, memory, service;
      this.channels := seq(receivers + transmitters, _ => NO_CHANNEL);
    }

    method IsoChannelRegister(i: nat) returns (r: Register)
      ensures r == Snapshot().RegisterOf(i)
    {
      return if i < receivers then TxIsoChannel else RxIsoChannel;
    }

    method StartStreamByIndex(i: nat, got: int, probed: bool, claimed: bool) returns (ok: bool)
      requires got == NO_CHANNEL || Allocatable(Snapshot(), got)
      modifies this, memory, service
      ensures i >= |old(channels)| ==> !ok && Snapshot() == old(Snapshot())
      ensures i < |old(channels)| ==>
                && ok == StartSucceeds(old(Snapshot()), i, got, probed, claimed)
                && Snapshot() == Started(old(Snapshot()), i, got, probed, claimed)
    {
      if i >= |channels| {
        return false;
      }
      var r := IsoChannelRegister(i);
      var isochannel := service.AllocateIsoChannelGeneric(got);
      if isochannel < 0 {
        return false;
      }
      channels := channels[i := isochannel];
      var answered, reg := memory.ReadReg(r, probed);
      if !answered || reg != FREE {
        channels := channels[i := NO_CHANNEL];
        var _ := service.FreeIsoChannel(isochannel);
        return false;
      }
      var written := memory.WriteReg(r, isochannel, claimed);
      if !written {
        channels := channels[i := NO_CHANNEL];
        var _ := service.FreeIsoChannel(isochannel);
        return false;
      }
      return true;
    }

    method StopStreamByIndex(i: nat, checked: bool, cleared: bool) returns (ok: bool)
      requires forall c :: c in service.mine ==> 0 <= c <= LAST_CHANNEL
      modifies this, memory, service
      ensures i >= |old(channels)| ==> !ok && Snapshot() == old(Snapshot())
      ensures i < |old(channels)| ==>
                && ok == (StopClears(old(Snapshot()), i, checked, cleared) && old(channels)[i] in old(service.mine))
                && Snapshot() == Stopped(old(Snapshot()), i, checked, cleared)
    {
      if i >= |channels| {
        return false;
      }
      var r := IsoChannelRegister(i);
      var isochannel := channels[i];
      var answered, reg := memory.ReadReg(r, checked);
      if !answered || reg != AsQuadlet(isochannel) {
        return false;
      }
      var written := memory.WriteReg(r, FREE, cleared);
      if !written {
        return false;
      }
      var freed := service.FreeIsoChannel(isochannel);
      if !freed {
        return false;
      }
      channels := channels[i := NO_CHANNEL];
      return true;
    }
  }

  // ----- the calls as runs of the step relation -----

  function StartRun(w: World, i: nat, got: int, probed: bool, claimed: bool): seq<Step> {
    if got == NO_CHANNEL then [Allocate(i, got)]
    else if !probed || w.Value(w.RegisterOf(i)) != FREE then [Allocate(i, got), Probe(probed)]
    else [Allocate(i, got), Probe(probed), Claim(claimed)]
  }

  function StopRun(w: World, i: nat, checked: bool, cleared: bool): seq<Step>
    requires i < |w.channels|
  {
    if !checked || w.Value(w.RegisterOf(i)) != AsQuadlet(w.channels[i]) then [BeginStop(i), Check(checked)]
    else if !cleared then [BeginStop(i), Check(checked), Clear(cleared)]
    else [BeginStop(i), Check(checked), Clear(cleared), Release]
  }

  lemma Reached1(w: World, a: Step)
    requires Enabled(w, a)
    ensures Possible(w, [a]) && Reached(w, [a]) == After(w, a)
  {
    assert [a][1..] == [];
  }

  lemma ReachedMore(w: World, a: Step, run: seq<Step>)
    requires Enabled(w, a) && Possible(After(w, a), run)
    ensures Possible(w, [a] + run) && Reached(w, [a] + run) == Reached(After(w, a), run)
  {
    assert ([a] + run)[1..] == run;
  }

  /** Starting a stopped stream is a run of the step relation. */
  lemma StartIsRun(w: World, i: nat, got: int, probed: bool, claimed: bool)
    requires Enabled(w, Allocate(i, got))
    ensures Possible(w, StartRun(w, i, got, probed, claimed))
    ensures Reached(w, StartRun(w, i, got, probed, claimed)) == Started(w, i, got, probed, claimed)
  {
    if got == NO_CHANNEL {
      Reached1(w, Allocate(i, got));
    } else {
      var w1 := After(w, Allocate(i, got));
      var w2 := After(w1, Probe(probed));
      assert w1.channels[i := NO_CHANNEL] == w.channels && w1.mine - {got} == w.mine;
      if w2.phase.Claiming? {
        Reached1(w2, Claim(claimed));
        ReachedMore(w1, Probe(probed), [Claim(claimed)]);
        ReachedMore(w, Allocate(i, got), [Probe(probed), Claim(claimed)]);
        assert [Allocate(i, got)] + [Probe(probed), Claim(claimed)] == StartRun(w, i, got, probed, claimed);
        assert w1.Assigned(i, NO_CHANNEL).Freed(got).At(Idle) == w;
      } else {
        Reached1(w1, Probe(probed));
        ReachedMore(w, Allocate(i, got), [Probe(probed)]);
      }
    }
  }

  /** So is every stop, also of a stopped stream. */
  lemma StopIsRun(w: World, i: nat, checked: bool, cleared: bool)
    requires Agreement(w) && w.phase.Idle? && i < |w.channels|
    ensures Possible(w, StopRun(w, i, checked, cleared))
    ensures Reached(w, StopRun(w, i, checked, cleared)) == Stopped(w, i, checked, cleared)
  {
    var w1 := After(w, BeginStop(i));
    var w2 := After(w1, Check(checked));
    if w2.phase.Clearing? {
      var w3 := After(w2, Clear(cleared));
      if cleared {
        Reached1(w3, Release);
        ReachedMore(w2, Clear(cleared), [Release]);
        ReachedMore(w1, Check(checked), [Clear(cleared), Release]);
        ReachedMore(w, BeginStop(i), [Check(checked), Clear(cleared), Release]);
      } else {
        Reached1(w2, Clear(cleared));
        ReachedMore(w1, Check(checked), [Clear(cleared)]);
        ReachedMore(w, BeginStop(i), [Check(checked), Clear(cleared)]);
      }
    } else {
      Reached1(w1, Check(checked));
      ReachedMore(w, BeginStop(i), [Check(checked)]);
    }
  }

  // ----- where the agreement ends -----

  /** Starting a running stream again keeps the agreement exactly when no channel could be allocated. */
  lemma RestartBreaksAgreement(w: World, i: nat, got: int, probed: bool, claimed: bool)
    requires Agreement(w) && w.phase.Idle? && i < |w.channels| && w.channels[i] != NO_CHANNEL
    requires got == NO_CHANNEL || Allocatable(w, got)
    ensures Agreement(Started(w, i, got, probed, claimed)) <==> got == NO_CHANNEL
  {
    var w' := Started(w, i, got, probed, claimed);
    var r := w.RegisterOf(i);
    if got != NO_CHANNEL {
      assert w.Value(r) == w.channels[i] == w'.Value(r);
      forall k: nat ensures !w'.Publishes(k, r) {
        if k < |w.channels| && k != i {
          assert w'.channels[k] == w.channels[k];
        }
      }
    }
  }

  /** A stream that was started twice: its register holds the first channel, the stream knows the second. */
  lemma StartedTwice()
    ensures var up := Started(Initial(1, 1, {}), 0, 0, true, true);
            var again := Started(up, 0, 1, true, true);
            && Agreement(up) && up.channels[0] == up.tx == 0
            && !Agreement(again) && again.tx == 0 && again.channels[0] == NO_CHANNEL && 0 in again.mine
  {
    var w := Initial(1, 1, {});
    var up := Started(w, 0, 0, true, true);
    InitialAgrees(1, 1, {});
    StartIsRun(w, 0, 0, true, true);
    assert up.channels[0] == 0;
    hide Agreement;
    RunKeepsAgreement(w, StartRun(w, 0, 0, true, true));
    RestartBreaksAgreement(up, 0, 1, true, true);
  }

  /** A slave that initialises its memory while the master streams cuts the master off. */
  lemma ReinitialisedMemory(w: World)
    requires Agreement(w) && w.phase.Idle?
    ensures Agreement(w.(tx := FREE, rx := FREE)) <==> w.mine == {}
  {
    var w' := w.(tx := FREE, rx := FREE);
    if k :| 0 <= k < |w.channels| && w.channels[k] != NO_CHANNEL {
      assert w.channels[k] in w.mine;
      assert w'.channels[k] != FREE && w'.Settled(k);
    } else {
      forall c ensures c !in w.mine {}
    }
  }

  // ----- the slave's start -----

  const TX_ISOCHANNEL: nat := 0x10
  const RX_ISOCHANNEL: nat := 0x14

  /** The address the slave polls for a stream: one register a stream, counted within its kind */
  function PolledAddress(receivers: nat, i: nat): nat {
    if i < receivers then RX_ISOCHANNEL + 4 * i else TX_ISOCHANNEL + 4 * (i - receivers)
  }

  /** Which of the registers a master writes is at an address */
  function RegisterAt(address: nat): Option<Register> {
    if address == TX_ISOCHANNEL then Some(TxIsoChannel)
    else if address == RX_ISOCHANNEL then Some(RxIsoChannel)
    else None
  }

  /** The register of the slave's peer: the master's transmit streams feed RX, its receive streams TX. */
  function PeerRegister(receivers: nat, i: nat): Register {
    if i < receivers then RxIsoChannel else TxIsoChannel
  }

  /**
   A slave stream polls its peer's register exactly when it is the first of its kind; the second
   transmit stream would poll the register of the receive streams.
   */
  lemma FirstStreamsPollPeers(receivers: nat, i: nat)
    ensures RegisterAt(PolledAddress(receivers, i)) == Some(PeerRegister(receivers, i)) <==>
            i == 0 || i == receivers
    ensures i == receivers + 1 ==> RegisterAt(PolledAddress(receivers, i)) == Some(RxIsoChannel)
    ensures PolledAddress(receivers, receivers) == 0x10 && (receivers > 0 ==> PolledAddress(receivers, 0) == 0x14)
    ensures i + 1 != receivers ==> PolledAddress(receivers, i + 1) == PolledAddress(receivers, i) + 4
  {}

  class SlaveDevice {
    const receivers: nat
    const timeoutSecs: nat
    var channels: seq<int>

    constructor (receivers: nat, transmitters: nat, timeoutSecs: nat)
      ensures this.receivers == receivers && this.timeoutSecs == timeoutSecs
      ensures channels == seq(receivers + transmitters, _ => NO_CHANNEL)
    {
      this.receivers, this.timeoutSecs := receivers, timeoutSecs;
      this.channels := seq(receivers + transmitters, _ => NO_CHANNEL);
    }

    /**
     SlaveDevice::startStreamByIndex: wait until the polled register is in use, read it once more and
     adopt what it holds then. answers are the results of successive reads at the polled address.
     */
    method StartStreamByIndex(i: nat, answers: nat -> Option<int>) returns (ok: bool, address: nat)
      modifies this
      ensures address == PolledAddress(receivers, i)
      ensures ok <==> i < |old(channels)| && exists k: nat :: Adopts(answers, timeoutSecs, k)
      ensures !ok ==> channels == old(channels)
      ensures ok ==> forall k: nat :: Adopts(answers, timeoutSecs, k) ==>
                channels == old(channels)[i := AsChannel(answers(k + 1).value)]
    {
      address := PolledAddress(receivers, i);
      if i >= |channels| {
        return false, address;
      }
      forall j: nat, k: nat | Ends(answers, FREE, j) && Ends(answers, FREE, k) ensures j == k {
        EndsOnce(answers, FREE, j, k);
      }
      var seen, polls := WaitForRegisterNotEqualTo(answers, FREE, timeoutSecs);
      if !seen {
        return false, address;
      }
      var result := answers(polls);
      if result == None {
        return false, address;
      }
      assert Adopts(answers, timeoutSecs, polls - 1);
      channels := channels[i := AsChannel(result.value)];
      return true, address;
    }
  }

  lemma EndsOnce(answers: nat -> Option<int>, v: int, j: nat, k: nat)
    requires Ends(answers, v, j) && Ends(answers, v, k)
    ensures j == k
  {}

  /** Poll k is the first to find the register in use, in time, and the read after it is answered. */
  predicate Adopts(answers: nat -> Option<int>, timeoutSecs: nat, k: nat) {
    k + 1 < timeoutSecs * 10 && Ends(answers, FREE, k) && answers(k).Some? && answers(k + 1).Some?
  }

  /**
   All earlier polls found the register free, this one a value in it, before the last poll; the next read is
   answered.
   */
  lemma AdoptsNeeds(answers: nat -> Option<int>, timeoutSecs: nat, k: nat)
    requires Adopts(answers, timeoutSecs, k)
    ensures k + 2 <= 10 * timeoutSecs && answers(k).Some? && answers(k).value != 0xFFFF_FFFF && answers(k + 1).Some?
    ensures forall j: nat :: j < k ==> answers(j) == Some(0xFFFF_FFFF)
  {}

  // ----- the slave's start while the master runs -----

  lemma {:induction false} RunSplits(w: World, run: seq<Step>, m: nat)
    requires Possible(w, run) && m <= |run|
    ensures Possible(w, run[..m]) && Possible(Reached(w, run[..m]), run[m..])
    ensures Reached(Reached(w, run[..m]), run[m..]) == Reached(w, run)
    decreases m
  {
    hide Enabled, After;
    if m > 0 {
      RunSplits(After(w, run[0]), run[1..], m - 1);
      assert run[..m][0] == run[0] && run[..m][1..] == run[1..][..m - 1] && run[m..] == run[1..][m - 1..];
    } else {
      assert run[0..] == run;
    }
  }

  /** The world after the first m steps of a run */
  function Moment(w: World, run: seq<Step>, m: nat): World
    requires Possible(w, run) && m <= |run|
  {
    RunSplits(w, run, m);
    Reached(w, run[..m])
  }

  lemma RunJoins(w: World, run: seq<Step>, m: nat, n: nat)
    requires Possible(w, run) && m <= n <= |run|
    ensures Possible(w, run[..m]) && Possible(Moment(w, run, m), run[m..n])
    ensures Moment(w, run, n) == Reached(Moment(w, run, m), run[m..n])
  {
    RunSplits(w, run, n);
    RunSplits(w, run[..n], m);
    assert run[..n][..m] == run[..m] && run[..n][m..] == run[m..n];
  }

  /** The last thing the master did to the register between steps m and n was to stop its stream. */
  predicate OvertakenBetween(w: World, run: seq<Step>, m: nat, n: nat, r: Register)
    requires Possible(w, run) && m <= n <= |run|
  {
    RunJoins(w, run, m, n);
    Overtaken(Moment(w, run, m), run[m..n], r)
  }

  /** The k-th read takes place after moments(k) steps of the master's run; a failed read sees nothing. */
  ghost predicate Observed(w: World, run: seq<Step>, moments: nat -> nat, answers: nat -> Option<int>, r: Register)
    requires Possible(w, run)
  {
    forall k: nat ::
      && moments(k) <= moments(k + 1) && moments(k) <= |run|
      && (answers(k).Some? ==> answers(k).value == Moment(w, run, moments(k)).Value(r))
  }

  /**
   A slave start that succeeds while the master runs: the stream ends up with no channel exactly when
   a stop of the master overtook it between the poll and the final read, otherwise with the channel
   that one stream of the master publishes in the polled register. For the first stream of its kind
   this is a stream of the other kind, the slave's peer.
   */
  lemma SlaveStartAgrees(w: World, run: seq<Step>, moments: nat -> nat, answers: nat -> Option<int>,
                         receivers: nat, i: nat, r: Register, timeoutSecs: nat, k: nat)
    requires Agreement(w) && Possible(w, run) && Observed(w, run, moments, answers, r)
    requires RegisterAt(PolledAddress(receivers, i)) == Some(r) && Adopts(answers, timeoutSecs, k)
    ensures moments(k) <= moments(k + 1) <= |run|
    ensures AsChannel(answers(k + 1).value) == NO_CHANNEL <==>
            OvertakenBetween(w, run, moments(k), moments(k + 1), r)
    ensures !OvertakenBetween(w, run, moments(k), moments(k + 1), r) ==>
              var end := Moment(w, run, moments(k + 1));
              exists j: nat ::
                && end.Publishes(j, r) && end.channels[j] == AsChannel(answers(k + 1).value)
                && (i == 0 || i == receivers ==> (j < end.receivers <==> i >= receivers))
  {
    hide Overtaken;
    assert moments(k) <= moments(k + 1);
    var poll, read := moments(k), moments(k + 1);
    assert read <= |run|;
    RunJoins(w, run, poll, read);
    RunKeepsAgreement(w, run[..poll]);
    SlaveAdoptsPeerChannel(Moment(w, run, poll), run[poll..read], r);
    FirstStreamsPollPeers(receivers, i);
  }

  // ----- a start that is overtaken -----

  /** The master starts its transmit stream and stops it again. */
  function OvertakenSteps(): seq<Step> {
    StartRun(Initial(1, 1, {}), 1, 0, true, true)
    + StopRun(Started(Initial(1, 1, {}), 1, 0, true, true), 1, true, true)
  }

  lemma OvertakenWorlds()
    ensures var w := Initial(1, 1, {});
            var up := Started(w, 1, 0, true, true);
            var run := OvertakenSteps();
            && |run| == 7 && Possible(w, run) && Agreement(up)
            && Moment(w, run, 3) == up && Moment(w, run, 7) == Stopped(up, 1, true, true)
            && up.rx == 0 && Stopped(up, 1, true, true).rx == FREE
  {
    var w := Initial(1, 1, {});
    var start := StartRun(w, 1, 0, true, true);
    var up := Started(w, 1, 0, true, true);
    var stop := StopRun(up, 1, true, true);
    assert |start| == 3 && |stop| == 4 && up.rx == 0 && Stopped(up, 1, true, true).rx == FREE;
    InitialAgrees(1, 1, {});
    StartIsRun(w, 1, 0, true, true);
    hide StartRun, StopRun, Started, Stopped, Possible, Reached, Agreement;
    RunKeepsAgreement(w, start);
    StopIsRun(up, 1, true, true);
    RunsJoin(w, start, stop);
    assert (start + stop)[..3] == start && (start + stop)[..7] == start + stop;
  }

  /** A slave that polls after the start and reads again after the stop has been overtaken. */
  lemma OvertakenRun()
    ensures var w, run := Initial(1, 1, {}), OvertakenSteps();
            && |run| == 7 && Possible(w, run)
            && Observed(w, run, OvertakenMoments(), OvertakenAnswers(), RxIsoChannel)
            && OvertakenBetween(w, run, 3, 7, RxIsoChannel)
  {
    hide Possible, Reached, Moment, Agreement, OvertakenSteps, Started, Stopped, Overtaken;
    OvertakenWorlds();
    var w, run := Initial(1, 1, {}), OvertakenSteps();
    RunJoins(w, run, 3, 7);
    SlaveAdoptsPeerChannel(Moment(w, run, 3), run[3..7], RxIsoChannel);
  }

  function OvertakenMoments(): nat -> nat {
    k => if k == 0 then 3 else 7
  }

  function OvertakenAnswers(): nat -> Option<int> {
    k => if k == 0 then Some(0) else Some(FREE)
  }

  lemma {:induction false} RunsJoin(w: World, a: seq<Step>, b: seq<Step>)
    requires Possible(w, a) && Possible(Reached(w, a), b)
    ensures Possible(w, a + b) && Reached(w, a + b) == Reached(Reached(w, a), b)
    decreases |a|
  {
    if a == [] {
      assert a + b == b;
    } else {
      assert (a + b)[1..] == a[1..] + b;
      RunsJoin(After(w, a[0]), a[1..], b);
    }
  }

  /** In that run the start of the slave's receive stream reports success and leaves it without a channel. */
  method OvertakenStart() returns (slave: SlaveDevice, ok: bool)
    ensures ok && slave.channels == [NO_CHANNEL, NO_CHANNEL]
    ensures RegisterAt(PolledAddress(slave.receivers, 0)) == Some(RxIsoChannel)
  {
    slave := new SlaveDevice(1, 1, 120);
    assert Adopts(OvertakenAnswers(), 120, 0);
    var address;
    ok, address := slave.StartStreamByIndex(0, OvertakenAnswers());
  }
}
