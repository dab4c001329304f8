/**
 Device ownership among several hosts (dice_avdevice.cpp, Device::lock and Device::unlock): a
 host owns a DICE device while the OWNER register holds the host's node id and the address of
 its notifier. The register only ever changes by compare-and-swap.
 */
module DiceOwnership {
  import opened Wrappers

  const NO_OWNER: nat := 0xFFFF_0000_0000_0000
  const NOTIFIER_BASE_ADDRESS: nat := 0x0000_FFFF_E000_0000
  const ADDRESS_SPACE: nat := 0x1_0000_0000_0000
  const MAX_NODES: nat := 64

  /** The node id, marked as local bus, in the upper 16 bits, the notifier address in the lower 48. */
  function OwnerValue(node: nat, start: nat): nat {
    (0xFFC0 + node) * ADDRESS_SPACE + start
  }

  predicate ValidNotifier(start: nat) {
    NOTIFIER_BASE_ADDRESS <= start < ADDRESS_SPACE
  }

  lemma OwnerValueInjective(node: nat, start: nat, node': nat, start': nat)
    requires start < ADDRESS_SPACE && start' < ADDRESS_SPACE
    requires OwnerValue(node, start) == OwnerValue(node', start')
    ensures node == node' && start == start'
  {}

  /** The value as the register shows it: 0xFFC0 and the node in the upper 16 bits, the address below */
  lemma OwnerFields(node: nat, start: nat)
    requires node < 64 && start < 0x1_0000_0000_0000
    ensures OwnerValue(node, start) / 0x1_0000_0000_0000 == 0xFFC0 + node
    ensures OwnerValue(node, start) % 0x1_0000_0000_0000 == start
    ensures NO_OWNER / 0x1_0000_0000_0000 == 0xFFFF && NO_OWNER % 0x1_0000_0000_0000 == 0
    ensures ValidNotifier(start) <==> start >= 0xFFFF_E000_0000
  {}

  /** Only node 63 with a notifier at address zero would be mistaken for no owner. */
  lemma NoOwnerIsNobody(node: nat, start: nat)
    requires node < MAX_NODES && start < ADDRESS_SPACE
    ensures OwnerValue(node, start) == NO_OWNER <==> node == 63 && start == 0
  {}

  // ----- one call, seen from the host and the register -----

  /** How far a lock call gets. A failed transfer may still have reached the device. */
  datatype LockChoice =
    | NoFreeBlock
    | HandlerRefused
    | OffsetUnknown(start: nat)
    | LockTransferFailed(start: nat, arrived: bool)
    | LockAnswered(start: nat)

  datatype UnlockChoice =
    | UnlockOffsetUnknown
    | UnlockTransferFailed(arrived: bool)
    | UnlockAnswered

  datatype Call = Call(notifier: Option<nat>, owner: nat, result: bool)

  function Swap(owner: nat, compare: nat, swap: nat): nat {
    if owner == compare then swap else owner
  }

  function LockCall(node: nat, notifier: Option<nat>, owner: nat, choice: LockChoice): Call {
    match choice
    case NoFreeBlock => Call(notifier, owner, false)
    case HandlerRefused => Call(None, owner, false)
    case OffsetUnknown(start) => Call(Some(start), owner, false)
    case LockTransferFailed(start, arrived) =>
      Call(Some(start), if arrived then Swap(owner, NO_OWNER, OwnerValue(node, start)) else owner, false)
    case LockAnswered(start) =>
      var value := OwnerValue(node, start);
      Call(Some(start), Swap(owner, NO_OWNER, value), owner == NO_OWNER || owner == value)
  }

  function UnlockCall(node: nat, notifier: Option<nat>, owner: nat, choice: UnlockChoice): Call {
    match notifier
    case None => Call(None, owner, false)
    case Some(start) =>
      var released := Swap(owner, OwnerValue(node, start), NO_OWNER);
      match choice
      case UnlockOffsetUnknown => Call(notifier, owner, false)
      case UnlockTransferFailed(arrived) => Call(notifier, if arrived then released else owner, false)
      case UnlockAnswered => Call(None, released, true)
  }

  // ----- the calls as the driver makes them -----

  class OwnerRegister {
    var value: nat

    constructor ()
      ensures value == NO_OWNER
    {
      value := NO_OWNER;
    }

    method CompareSwap(compare: nat, swap: nat, answered: bool, arrived: bool) returns (ok: bool, result: nat)
      modifies this
      ensures ok == answered && result == old(value)
      ensures value == if answered || arrived then Swap(old(value), compare, swap) else old(value)
    {
      result := value;
      if (answered || arrived) && value == compare {
        value := swap;
      }
      return answered, result;
    }
  }

  class HostDevice {
    const node: nat
    var notifier: Option<nat>

    constructor (node: nat)
      ensures this.node == node && notifier == None
    {
      this.node, notifier := node, None;
    }

    /** Dice::Device::lock, outside snoop mode */
    method Lock(register: OwnerRegister, choice: LockChoice) returns (ok: bool)
      modifies this, register
      ensures Call(notifier, register.value, ok) == LockCall(node, old(notifier), old(register.value), choice)
      ensures ok <==> choice.LockAnswered?
                      && (old(register.value) == NO_OWNER || old(register.value) == OwnerValue(node, choice.start))
      ensures ok ==> register.value == OwnerValue(node, choice.start) && notifier == Some(choice.start)
      ensures old(register.value) != NO_OWNER ==> register.value == old(register.value)
    {
      if choice.NoFreeBlock? {
        return false;
      }
      if choice.HandlerRefused? {
        notifier := None;
        return false;
      }
      notifier := Some(choice.start);
      if choice.OffsetUnknown? {
        return false;
      }
      var swapValue := OwnerValue(node, notifier.value);
      var answered := choice.LockAnswered?;
      var sent, result := register.CompareSwap(NO_OWNER, swapValue, answered, !answered && choice.arrived);
      if !sent {
        return false;
      }
      if result != NO_OWNER && result != swapValue {
        return false;
      }
      return true;
    }

    /** Dice::Device::unlock, outside snoop mode; the old value of the register is not looked at. */
    method Unlock(register: OwnerRegister, choice: UnlockChoice) returns (ok: bool)
      modifies this, register
      ensures Call(notifier, register.value, ok) == UnlockCall(node, old(notifier), old(register.value), choice)
      ensures ok <==> old(notifier).Some? && choice.UnlockAnswered?
      ensures ok ==> notifier == None
      ensures ok && old(register.value) == OwnerValue(node, old(notifier).value) ==> register.value == NO_OWNER
      ensures !ok ==> notifier == old(notifier)
      ensures register.value != old(register.value) ==>
                && old(notifier).Some? && old(register.value) == OwnerValue(node, old(notifier).value)
                && register.value == NO_OWNER
    {
      if notifier == None {
        return false;
      }
      if choice.UnlockOffsetUnknown? {
        return false;
      }
      var compareValue := OwnerValue(node, notifier.value);
      var answered := choice.UnlockAnswered?;
      var sent, result := register.CompareSwap(compareValue, NO_OWNER, answered, !answered && choice.arrived);
      if !sent {
        return false;
      }
      notifier := None;
      return true;
    }
  }

  // ----- every interleaving of calls by any number of hosts -----

  /** A host holds the device from a lock that returned true to its next unlock call. */
  datatype Host = Host(notifier: Option<nat>, holds: bool)

  /** The index of a host is its node id. */
  datatype State = State(hosts: seq<Host>, owner: nat)

  datatype Action = DoLock(host: nat, lockChoice: LockChoice) | DoUnlock(host: nat, unlockChoice: UnlockChoice)

  predicate ValidChoice(c: LockChoice) {
    c.OffsetUnknown? || c.LockTransferFailed? || c.LockAnswered? ==> ValidNotifier(c.start)
  }

  predicate ValidAction(a: Action, n: nat) {
    a.host < n && (a.DoLock? ==> ValidChoice(a.lockChoice))
  }

  function Next(s: State, a: Action): State
    requires ValidAction(a, |s.hosts|)
  {
    var h := s.hosts[a.host];
    match a
    case DoLock(i, choice) =>
      var c := LockCall(i, h.notifier, s.owner, choice);
      State(s.hosts[i := Host(c.notifier, h.holds || c.result)], c.owner)
    case DoUnlock(i, choice) =>
      var c := UnlockCall(i, h.notifier, s.owner, choice);
      State(s.hosts[i := Host(c.notifier, false)], c.owner)
  }

  function Initial(n: nat): State {
    State(seq(n, i => Host(None, false)), NO_OWNER)
  }

  predicate ValidRun(actions: seq<Action>, n: nat) {
    forall k | 0 <= k < |actions| :: ValidAction(actions[k], n)
  }

  function Run(n: nat, actions: seq<Action>): (s: State)
    requires ValidRun(actions, n)
    ensures |s.hosts| == n
  {
    if actions == [] then Initial(n)
    else Next(Run(n, actions[..|actions| - 1]), actions[|actions| - 1])
  }

  /** The register names some notifier address of this node. */
  ghost predicate OwnedBy(owner: nat, node: nat) {
    exists start: nat | ValidNotifier(start) :: owner == OwnerValue(node, start)
  }

  ghost predicate Safe(s: State) {
    && |s.hosts| <= MAX_NODES
    && (forall i | 0 <= i < |s.hosts| && s.hosts[i].notifier.Some? :: ValidNotifier(s.hosts[i].notifier.value))
    && (forall i | 0 <= i < |s.hosts| && s.hosts[i].holds :: OwnedBy(s.owner, i))
  }

  lemma OwnedByOne(owner: nat, i: nat, j: nat)
    requires OwnedBy(owner, i) && OwnedBy(owner, j)
    ensures i == j
  {
    var a: nat :| ValidNotifier(a) && owner == OwnerValue(i, a);
    var b: nat :| ValidNotifier(b) && owner == OwnerValue(j, b);
    OwnerValueInjective(i, a, j, b);
  }

  lemma OwnedByAnother(owner: nat, i: nat, start: nat, j: nat)
    requires OwnedBy(owner, j) && i != j && ValidNotifier(start)
    ensures owner != OwnerValue(i, start)
  {
    var b: nat :| ValidNotifier(b) && owner == OwnerValue(j, b);
    if OwnerValue(i, start) == OwnerValue(j, b) {
      OwnerValueInjective(i, start, j, b);
    }
  }

  lemma OwnedIsNotFree(owner: nat, i: nat)
    requires OwnedBy(owner, i)
    ensures owner != NO_OWNER
  {
    var a: nat :| ValidNotifier(a) && owner == OwnerValue(i, a);
    assert a >= NOTIFIER_BASE_ADDRESS;
  }

  /** A call by one host never takes the register from another. */
  lemma OthersKeepOwnership(s: State, a: Action, j: nat)
    requires Safe(s) && ValidAction(a, |s.hosts|) && j < |s.hosts| && OwnedBy(s.owner, j)
    requires a.DoLock? || a.host != j
    ensures Next(s, a).owner == s.owner
  {
    OwnedIsNotFree(s.owner, j);
    if a.DoUnlock? && s.hosts[a.host].notifier.Some? {
      OwnedByAnother(s.owner, a.host, s.hosts[a.host].notifier.value, j);
    }
  }

  lemma StepKeepsSafe(s: State, a: Action)
    requires Safe(s) && ValidAction(a, |s.hosts|)
    ensures Safe(Next(s, a))
  {
    hide OwnedBy, ValidNotifier;
    var t := Next(s, a);
    forall j | 0 <= j < |t.hosts| && t.hosts[j].holds ensures OwnedBy(t.owner, j) {
      if s.hosts[j].holds {
        OthersKeepOwnership(s, a, j);
      } else {
        LockTakesRegister(s, a);
      }
    }
  }

  lemma LockTakesRegister(s: State, a: Action)
    requires ValidAction(a, |s.hosts|) && a.DoLock? && !s.hosts[a.host].holds && Next(s, a).hosts[a.host].holds
    ensures OwnedBy(Next(s, a).owner, a.host)
  {
    assert Next(s, a).owner == OwnerValue(a.host, a.lockChoice.start);
  }

  lemma {:induction false} RunsAreSafe(n: nat, actions: seq<Action>)
    requires n <= MAX_NODES && ValidRun(actions, n)
    ensures Safe(Run(n, actions))
    decreases |actions|
  {
    if actions != [] {
      RunsAreSafe(n, actions[..|actions| - 1]);
      StepKeepsSafe(Run(n, actions[..|actions| - 1]), actions[|actions| - 1]);
    }
  }

  /** At most one host holds the device, in every run, however its calls fail. */
  lemma MutualExclusion(n: nat, actions: seq<Action>, i: nat, j: nat)
    requires n <= MAX_NODES && ValidRun(actions, n) && i < n && j < n
    requires Run(n, actions).hosts[i].holds && Run(n, actions).hosts[j].holds
    ensures i == j
  {
    RunsAreSafe(n, actions);
    OwnedByOne(Run(n, actions).owner, i, j);
  }

  /** While a host holds the device, no call of another host, unlock included, changes the register. */
  lemma HolderUndisturbed(n: nat, actions: seq<Action>, a: Action, j: nat)
    requires n <= MAX_NODES && ValidRun(actions, n) && ValidAction(a, n) && j < n
    requires Run(n, actions).hosts[j].holds && a.host != j
    ensures Next(Run(n, actions), a).owner == Run(n, actions).owner && Next(Run(n, actions), a).hosts[j].holds
  {
    RunsAreSafe(n, actions);
    OthersKeepOwnership(Run(n, actions), a, j);
  }

  // ----- when a lock succeeds -----

  /**
   In every run, an answered lock makes its host a holder exactly when the register was free or held this
   very value already; a host that held before goes on holding. The register is then taken if it was free.
   */
  lemma LockSucceedsIff(n: nat, actions: seq<Action>, i: nat, start: nat)
    requires n <= MAX_NODES && ValidRun(actions, n) && i < n && ValidNotifier(start)
    ensures var s := Run(n, actions);
            var t := Next(s, DoLock(i, LockAnswered(start)));
            && (t.hosts[i].holds <==> s.hosts[i].holds || s.owner == NO_OWNER || s.owner == OwnerValue(i, start))
            && t.owner == (if s.owner == NO_OWNER then OwnerValue(i, start) else s.owner)
            && t.hosts[i].notifier == Some(start)
  {
    assert ValidAction(DoLock(i, LockAnswered(start)), n);
  }

  /** No other outcome of a lock makes a holder, although one that failed on the way back may take the register. */
  lemma FailedLockHoldsNothing(n: nat, actions: seq<Action>, a: Action)
    requires n <= MAX_NODES && ValidRun(actions, n) && ValidAction(a, n) && a.DoLock? && !a.lockChoice.LockAnswered?
    ensures var s, t := Run(n, actions), Next(Run(n, actions), a);
            && t.hosts[a.host].holds == s.hosts[a.host].holds
            && (t.owner != s.owner <==>
                  a.lockChoice.LockTransferFailed? && a.lockChoice.arrived && s.owner == NO_OWNER)
            && (t.owner != s.owner ==> t.owner == OwnerValue(a.host, a.lockChoice.start))
  {
    if a.lockChoice.LockTransferFailed? {
      assert OwnedBy(OwnerValue(a.host, a.lockChoice.start), a.host);
      OwnedIsNotFree(OwnerValue(a.host, a.lockChoice.start), a.host);
    }
  }

  /**
   A device goes from hand to hand: after any disciplined run a holder's answered unlock frees it, and the
   next answered lock, of whatever host, takes it over.
   */
  lemma HandedOver(n: nat, actions: seq<Action>, i: nat, j: nat, start: nat)
    requires n <= MAX_NODES && ValidRun(actions, n) && Disciplined(actions, n) && i < n && j < n
    requires Run(n, actions).hosts[i].holds && ValidNotifier(start)
    ensures var freed := Next(Run(n, actions), DoUnlock(i, UnlockAnswered));
            var taken := Next(freed, DoLock(j, LockAnswered(start)));
            && freed.owner == NO_OWNER && (forall k :: 0 <= k < n ==> !freed.hosts[k].holds)
            && taken.owner == OwnerValue(j, start) && taken.hosts[j].holds
  {
    var s := Run(n, actions);
    HolderReleases(n, actions, i);
    forall k | 0 <= k < n && k != i ensures !s.hosts[k].holds {
      if s.hosts[k].holds {
        MutualExclusion(n, actions, i, k);
      }
    }
  }

  // ----- runs without a second lock before an unlock -----

  /** Each lock call finds its host without a notifier. */
  predicate Disciplined(actions: seq<Action>, n: nat)
    requires ValidRun(actions, n)
  {
    actions == [] ||
    var init, a := actions[..|actions| - 1], actions[|actions| - 1];
    Disciplined(init, n) && (a.DoLock? ==> Run(n, init).hosts[a.host].notifier == None)
  }

  /** The register is free or holds the value of a host whose notifier is still in place. */
  ghost predicate Accounted(s: State) {
    && (s.owner == NO_OWNER || exists i: nat | i < |s.hosts| && s.hosts[i].notifier.Some? ::
          s.owner == OwnerValue(i, s.hosts[i].notifier.value))
    && forall i | 0 <= i < |s.hosts| && s.hosts[i].holds ::
         s.hosts[i].notifier.Some? && s.owner == OwnerValue(i, s.hosts[i].notifier.value)
  }

  lemma StepKeepsAccounted(s: State, a: Action)
    requires Safe(s) && Accounted(s) && ValidAction(a, |s.hosts|)
    requires a.DoLock? ==> s.hosts[a.host].notifier == None
    ensures Accounted(Next(s, a))
  {
    hide ValidNotifier, OwnerValue;
    var t := Next(s, a);
    forall j | 0 <= j < |t.hosts| && t.hosts[j].holds
      ensures t.hosts[j].notifier.Some? && t.owner == OwnerValue(j, t.hosts[j].notifier.value)
    {
      if s.hosts[j].holds {
        OthersKeepOwnership(s, a, j);
      }
    }
    AccountedOwner(s, a);
  }

  lemma AccountedOwner(s: State, a: Action)
    requires Accounted(s) && ValidAction(a, |s.hosts|)
    requires a.DoLock? ==> s.hosts[a.host].notifier == None
    ensures
      var t := Next(s, a);
      t.owner == NO_OWNER || exists i: nat | i < |t.hosts| && t.hosts[i].notifier.Some? ::
        t.owner == OwnerValue(i, t.hosts[i].notifier.value)
  {
    hide OwnerValue;
    var t := Next(s, a);
    if t.owner != NO_OWNER {
      if t.owner == s.owner {
        var i: nat :| i < |s.hosts| && s.hosts[i].notifier.Some? && s.owner == OwnerValue(i, s.hosts[i].notifier.value);
        assert t.hosts[i].notifier == s.hosts[i].notifier;
      } else {
        assert t.hosts[a.host].notifier.Some? && t.owner == OwnerValue(a.host, t.hosts[a.host].notifier.value);
      }
    }
  }

  lemma {:induction false} DisciplinedRunsAccounted(n: nat, actions: seq<Action>)
    requires n <= MAX_NODES && ValidRun(actions, n) && Disciplined(actions, n)
    ensures Accounted(Run(n, actions))
    decreases |actions|
  {
    if actions != [] {
      var init := actions[..|actions| - 1];
      DisciplinedRunsAccounted(n, init);
      RunsAreSafe(n, init);
      StepKeepsAccounted(Run(n, init), actions[|actions| - 1]);
    }
  }

  /** In a disciplined run a holder's own value stays in the register, and its answered unlock frees it. */
  lemma HolderReleases(n: nat, actions: seq<Action>, i: nat)
    requires n <= MAX_NODES && ValidRun(actions, n) && Disciplined(actions, n) && i < n
    requires Run(n, actions).hosts[i].holds
    ensures
      var s := Run(n, actions);
      && s.hosts[i].notifier.Some? && s.owner == OwnerValue(i, s.hosts[i].notifier.value)
      && Next(s, DoUnlock(i, UnlockAnswered)).owner == NO_OWNER
  {
    DisciplinedRunsAccounted(n, actions);
  }

  // ----- second locks -----

  /**
   A lock call does no harm unless its host's own value is in the register: then it must find no
   block for a notifier, or be given the block its notifier already has.
   */
  predicate Harmless(s: State, a: Action)
    requires ValidAction(a, |s.hosts|)
  {
    a.DoLock? ==>
      var own := s.hosts[a.host].notifier;
      own.Some? && s.owner == OwnerValue(a.host, own.value) ==>
        a.lockChoice.NoFreeBlock? || (!a.lockChoice.HandlerRefused? && a.lockChoice.start == own.value)
  }

  /** Exactly then the register stays accounted for. */
  lemma AccountedIff(s: State, a: Action)
    requires Safe(s) && Accounted(s) && ValidAction(a, |s.hosts|)
    ensures Accounted(Next(s, a)) <==> Harmless(s, a)
  {
    var own := s.hosts[a.host].notifier;
    if a.DoUnlock? || own == None {
      StepKeepsAccounted(s, a);
    } else if s.owner == OwnerValue(a.host, own.value) {
      OwnLock(s, a);
    } else {
      ForeignLock(s, a);
    }
  }

  /** A lock by the host whose value is in the register leaves the value, but may change the notifier. */
  lemma OwnLock(s: State, a: Action)
    requires Safe(s) && Accounted(s) && ValidAction(a, |s.hosts|) && a.DoLock?
    requires s.hosts[a.host].notifier.Some? && s.owner == OwnerValue(a.host, s.hosts[a.host].notifier.value)
    ensures Accounted(Next(s, a)) <==> Harmless(s, a)
  {
    var t, value := Next(s, a), s.hosts[a.host].notifier.value;
    assert OwnedBy(s.owner, a.host);
    OwnedIsNotFree(s.owner, a.host);
    assert t.owner == s.owner;
    if t.hosts[a.host].notifier == Some(value) {
      OnlyOwnHolds(s, a);
    } else {
      forall i: nat | i < |t.hosts| && t.hosts[i].notifier.Some?
        ensures t.owner != OwnerValue(i, t.hosts[i].notifier.value)
      {
        AnotherValue(s, a, value, i);
      }
    }
  }

  lemma AnotherValue(s: State, a: Action, value: nat, i: nat)
    requires Safe(s) && ValidAction(a, |s.hosts|) && a.DoLock? && ValidNotifier(value)
    requires Next(s, a).hosts[a.host].notifier != Some(value)
    requires i < |s.hosts| && Next(s, a).hosts[i].notifier.Some?
    ensures OwnerValue(a.host, value) != OwnerValue(i, Next(s, a).hosts[i].notifier.value)
  {
    var t := Next(s, a);
    assert ValidNotifier(t.hosts[i].notifier.value);
    if OwnerValue(a.host, value) == OwnerValue(i, t.hosts[i].notifier.value) {
      OwnerValueInjective(a.host, value, i, t.hosts[i].notifier.value);
    }
  }

  lemma OnlyOwnHolds(s: State, a: Action)
    requires Safe(s) && Accounted(s) && ValidAction(a, |s.hosts|) && a.DoLock?
    requires s.hosts[a.host].notifier.Some? && s.owner == OwnerValue(a.host, s.hosts[a.host].notifier.value)
    requires Next(s, a).owner == s.owner && Next(s, a).hosts[a.host].notifier == s.hosts[a.host].notifier
    ensures Accounted(Next(s, a))
  {
    hide OwnerValue, ValidNotifier;
  }

  /** A lock by a host whose value is not in the register: the register was free or belongs to another. */
  lemma ForeignLock(s: State, a: Action)
    requires Safe(s) && Accounted(s) && ValidAction(a, |s.hosts|) && a.DoLock?
    requires s.hosts[a.host].notifier.Some? && s.owner != OwnerValue(a.host, s.hosts[a.host].notifier.value)
    ensures Accounted(Next(s, a))
  {
    var t := Next(s, a);
    assert !s.hosts[a.host].holds;
    if s.owner != NO_OWNER {
      var i: nat :| i < |s.hosts| && s.hosts[i].notifier.Some? && s.owner == OwnerValue(i, s.hosts[i].notifier.value);
      assert OwnedBy(s.owner, i) && i != a.host;
      if a.lockChoice.LockAnswered? {
        OwnedByAnother(s.owner, a.host, a.lockChoice.start, i);
      }
      assert t.owner == s.owner && t.hosts[i].notifier == s.hosts[i].notifier;
    } else {
      forall j | 0 <= j < |s.hosts| ensures !s.hosts[j].holds {
        if s.hosts[j].holds {
          OwnedIsNotFree(s.owner, j);
        }
      }
      if t.owner != NO_OWNER {
        assert t.hosts[a.host].notifier.Some? && t.owner == OwnerValue(a.host, t.hosts[a.host].notifier.value);
      }
    }
  }

  predicate HarmlessRun(n: nat, actions: seq<Action>)
    requires ValidRun(actions, n)
  {
    actions == [] ||
    var init, a := actions[..|actions| - 1], actions[|actions| - 1];
    HarmlessRun(n, init) && Harmless(Run(n, init), a)
  }

  ghost predicate AccountedThroughout(n: nat, actions: seq<Action>)
    requires ValidRun(actions, n)
  {
    && Accounted(Run(n, actions))
    && (actions == [] || AccountedThroughout(n, actions[..|actions| - 1]))
  }

  /** Over whole runs: the register stays accounted for all along exactly when no lock does harm. */
  lemma {:induction false} AccountedRunsIff(n: nat, actions: seq<Action>)
    requires n <= MAX_NODES && ValidRun(actions, n)
    ensures AccountedThroughout(n, actions) <==> HarmlessRun(n, actions)
    decreases |actions|
  {
    if actions != [] {
      var init := actions[..|actions| - 1];
      AccountedRunsIff(n, init);
      RunsAreSafe(n, init);
      if HarmlessRun(n, init) {
        AccountedIff(Run(n, init), actions[|actions| - 1]);
      }
    }
  }

  // ----- blocks that stay registered -----

  /** The notifier blocks host i has registered and not unregistered: a second lock forgets one of them. */
  function Registered(n: nat, actions: seq<Action>, i: nat): set<nat>
    requires ValidRun(actions, n) && i < n
  {
    if actions == [] then {}
    else
      var init, a := actions[..|actions| - 1], actions[|actions| - 1];
      var before := Registered(n, init, i);
      if a.host != i then before
      else match a
        case DoLock(_, choice) =>
          if choice.NoFreeBlock? || choice.HandlerRefused? then before else before + {choice.start}
        case DoUnlock(_, choice) =>
          var own := Run(n, init).hosts[i].notifier;
          if choice.UnlockAnswered? && own.Some? then before - {own.value} else before
  }

  /** A lock is never given a block that is still registered. */
  predicate NewBlocks(n: nat, actions: seq<Action>)
    requires ValidRun(actions, n)
  {
    actions == [] ||
    var init, a := actions[..|actions| - 1], actions[|actions| - 1];
    && NewBlocks(n, init)
    && (a.DoLock? && !a.lockChoice.NoFreeBlock? && !a.lockChoice.HandlerRefused? ==>
          a.lockChoice.start !in Registered(n, init, a.host))
  }

  lemma {:induction false} OwnNotifierRegistered(n: nat, actions: seq<Action>, i: nat)
    requires ValidRun(actions, n) && i < n && Run(n, actions).hosts[i].notifier.Some?
    ensures Run(n, actions).hosts[i].notifier.value in Registered(n, actions, i)
    decreases |actions|
  {
    if actions != [] {
      var init, a := actions[..|actions| - 1], actions[|actions| - 1];
      if a.host != i || Run(n, actions).hosts[i].notifier == Run(n, init).hosts[i].notifier {
        OwnNotifierRegistered(n, init, i);
      }
    }
  }

  /** The register holds a value of host i whose block is registered, but which the host has forgotten. */
  predicate Stranded(n: nat, actions: seq<Action>, i: nat, start: nat)
    requires ValidRun(actions, n) && i < n
  {
    && Run(n, actions).owner == OwnerValue(i, start) && start in Registered(n, actions, i)
    && Run(n, actions).hosts[i].notifier != Some(start)
  }

  lemma StrandedStep(n: nat, actions: seq<Action>, a: Action, i: nat, start: nat)
    requires n <= MAX_NODES && ValidRun(actions + [a], n) && i < n && ValidNotifier(start)
    requires ValidRun(actions, n) && Stranded(n, actions, i, start) && NewBlocks(n, actions + [a])
    ensures Stranded(n, actions + [a], i, start)
  {
    var all := actions + [a];
    assert all[..|all| - 1] == actions;
    RunsAreSafe(n, actions);
    var s := Run(n, actions);
    assert OwnedBy(s.owner, i);
    OwnedIsNotFree(s.owner, i);
    if a.DoLock? || a.host != i {
      OthersKeepOwnership(s, a, i);
    } else if s.hosts[i].notifier.Some? && OwnerValue(i, s.hosts[i].notifier.value) == s.owner {
      OwnerValueInjective(i, s.hosts[i].notifier.value, i, start);
    }
  }

  /** A stranded register stays so, whatever any host does later. */
  lemma {:induction false} StrandedForGood(n: nat, actions: seq<Action>, later: seq<Action>, i: nat, start: nat)
    requires n <= MAX_NODES && ValidRun(actions + later, n) && i < n && ValidNotifier(start)
    requires ValidRun(actions, n) && Stranded(n, actions, i, start) && NewBlocks(n, actions + later)
    ensures Stranded(n, actions + later, i, start)
    decreases |later|
  {
    if later == [] {
      assert actions + later == actions;
    } else {
      var m := |later| - 1;
      assert (actions + later)[..|actions + later| - 1] == actions + later[..m];
      StrandedForGood(n, actions, later[..m], i, start);
      assert actions + later == actions + later[..m] + [later[m]];
      StrandedStep(n, actions + later[..m], later[m], i, start);
    }
  }

  /** With new blocks only, a lock that is not harmless strands the register. */
  lemma HarmStrands(n: nat, actions: seq<Action>, a: Action)
    requires n <= MAX_NODES && ValidRun(actions, n) && ValidAction(a, n)
    requires ValidRun(actions + [a], n) && NewBlocks(n, actions + [a]) && !Harmless(Run(n, actions), a)
    ensures var own := Run(n, actions).hosts[a.host].notifier;
            own.Some? && Stranded(n, actions + [a], a.host, own.value)
  {
    var all := actions + [a];
    assert all[..|all| - 1] == actions;
    RunsAreSafe(n, actions);
    OwnNotifierRegistered(n, actions, a.host);
    var s := Run(n, actions);
    assert OwnedBy(s.owner, a.host);
    OwnedIsNotFree(s.owner, a.host);
  }

  /** A second lock before the unlock strands the register: the host gives up and its first value stays. */
  lemma SecondLockStrands(a: nat, b: nat)
    requires ValidNotifier(a) && ValidNotifier(b) && a != b
    ensures
      var actions := [DoLock(0, LockAnswered(a)), DoLock(0, LockAnswered(b)), DoUnlock(0, UnlockAnswered)];
      ValidRun(actions, 1) && Run(1, actions).owner == OwnerValue(0, a) && Run(1, actions).hosts[0] == Host(None, false)
  {
    var first, second, third := DoLock(0, LockAnswered(a)), DoLock(0, LockAnswered(b)), DoUnlock(0, UnlockAnswered);
    var actions := [first, second, third];
    assert actions[..2] == [first, second] && [first, second][..1] == [first] && [first][..0] == [];
    var s1 := Next(Initial(1), first);
    assert Run(1, [first]) == s1;
    var s2 := Next(s1, second);
    assert Run(1, [first, second]) == s2;
    assert Run(1, actions) == Next(s2, third);
  }
}
