/**
 The debug message buffer (debugmodule.cpp, DebugModuleManager::print and mb_flush): any number
 of threads print into a ring of preallocated slots and any number of threads flush it. Printing
 gives up after a few attempts to get the write lock; flushing is serialised by another lock, and
 the two indices are shared without a common lock.
 */
module MessageBuffer {
  import opened Wrappers

  type Msg = string

  const LOCK_TRIES: nat := 6

  // ----- index arithmetic -----

  function Pow2(k: nat): (n: nat)
    ensures n > 0
  {
    if k == 0 then 1 else 2 * Pow2(k - 1)
  }

  predicate IsPow2(size: nat) {
    exists k: nat :: k <= size && size == Pow2(k)
  }

  /** The slot of the message at a position in the order of acceptance */
  function Home(position: nat, size: nat): (slot: nat)
    requires size > 0
    ensures slot < size
  {
    position % size
  }

  /** Bitwise and */
  function And(a: nat, b: nat): nat
    decreases a
  {
    if a == 0 || b == 0 then 0 else 2 * And(a / 2, b / 2) + (a % 2) * (b % 2)
  }

  /** MB_NEXT */
  function Next(index: nat, size: nat): nat
    requires size > 0
  {
    And(index + 1, size - 1)
  }

  lemma {:induction false} MulAtLeast(m: nat, d: nat)
    requires d >= 1
    ensures m * d >= m
  {
    if d > 1 {
      MulAtLeast(m, d - 1);
      assert m * d == m * (d - 1) + m;
    }
  }

  lemma QuotientUnique(m: nat, q: int, r: int, q': int, r': int)
    requires 0 <= r < m && 0 <= r' < m && m * q + r == m * q' + r'
    ensures q == q' && r == r'
  {
    assert m * (q - q') == m * q - m * q' && m * (q' - q) == m * q' - m * q;
    if q > q' {
      MulAtLeast(m, q - q');
    } else if q < q' {
      MulAtLeast(m, q' - q);
    }
  }

  lemma ModUnique(x: int, m: int, q: int, r: int)
    requires 0 <= r < m && x == m * q + r
    ensures x % m == r
  {
    QuotientUnique(m, q, r, x / m, x % m);
  }

  lemma DoubledModulo(x: nat, m: nat)
    requires m > 0
    ensures Home(x, 2 * m) == 2 * Home(x / 2, m) + x % 2
  {
    var h := x / 2;
    var q, r := h / m, h % m;
    assert h == m * q + r;
    assert (2 * m) * q == 2 * (m * q);
    ModUnique(x, 2 * m, q, 2 * r + x % 2);
  }

  lemma AndWithOdd(x: nat, n: nat)
    ensures And(x, 2 * n + 1) == 2 * And(x / 2, n) + x % 2
  {
    assert (2 * n + 1) / 2 == n && (2 * n + 1) % 2 == 1;
  }

  lemma AndZero(x: nat)
    ensures And(x, 0) == 0 == Home(x, 1)
  {}

  lemma {:induction false} MaskIsModulo(x: nat, k: nat)
    ensures And(x, Pow2(k) - 1) == Home(x, Pow2(k))
    decreases k
  {
    hide And, Home;
    if k == 0 {
      AndZero(x);
    } else {
      var m := Pow2(k - 1);
      MaskIsModulo(x / 2, k - 1);
      AndWithOdd(x, m - 1);
      DoubledModulo(x, m);
      assert 2 * (m - 1) + 1 == Pow2(k) - 1;
    }
  }

  lemma ModStep(a: nat, m: nat)
    requires m > 0
    ensures (a + 1) % m == (a % m + 1) % m
  {
    var q, r := a / m, a % m;
    assert a == m * q + r;
    if r + 1 < m {
      ModUnique(a + 1, m, q, r + 1);
      ModUnique(r + 1, m, 0, r + 1);
    } else {
      assert m * (q + 1) == m * q + m;
      ModUnique(a + 1, m, q + 1, 0);
      ModUnique(m, m, 1, 0);
    }
  }

  /** Two positions share a slot exactly when they lie a whole number of rounds apart. */
  lemma SameSlotIff(a: nat, b: nat, m: nat)
    requires m > 0 && a <= b
    ensures Home(a, m) == Home(b, m) <==> (b - a) % m == 0
  {
    var qa, ra, qb, rb := a / m, a % m, b / m, b % m;
    var q := if rb >= ra then qb - qa else qb - qa - 1;
    var r := if rb >= ra then rb - ra else rb - ra + m;
    Shifted(a, b, m, qa, ra, qb, rb);
    ModUnique(b - a, m, q, r);
  }

  lemma Shifted(a: int, b: int, m: int, qa: int, ra: int, qb: int, rb: int)
    requires a == m * qa + ra && b == m * qb + rb
    ensures b - a == m * (qb - qa) + (rb - ra)
    ensures b - a == m * (qb - qa - 1) + (rb - ra + m)
  {}

  lemma NextSlot(position: nat, size: nat, k: nat)
    requires size == Pow2(k)
    ensures Next(Home(position, size), size) == Home(position + 1, size)
  {
    MaskIsModulo(position % size + 1, k);
    ModStep(position, size);
  }

  lemma SmallModulo(x: nat, m: nat)
    requires x < m
    ensures x % m == x
  {
    ModUnique(x, m, 0, x);
  }

  // ----- threads and their steps -----

  /** Where a thread is inside print or mb_flush; the writer thread sleeps at its semaphore in between. */
  datatype Pc =
    | Outside
    | Trying(msg: Msg, tries: nat)
    | Copying(msg: Msg)
    | Publishing(msg: Msg)
    | Posting
    | Unlocking
    | Overrun
    | Incrementing(read: nat, at: nat)
    | Sleeping
    | Waiting
    | Looking
    | Putting
    | Advancing
    | Leaving

  /**
   The shared fields of the manager, the semaphore mb_writes among them, the two locks, the threads and
   which of them is the writer thread, followed by the history of the run: the messages accepted and
   those put out, how many have been taken from the buffer, how many print calls have returned, how many
   of them gave up, and whether the increments of the overrun counter ever got in each other's way.
   */
  datatype State = State(buffers: seq<Msg>, inbuffer: nat, outbuffer: nat, overruns: nat, writes: nat,
                         writeLock: Option<nat>, flushLock: Option<nat>, threads: seq<Pc>, writer: nat,
                         accepted: seq<Msg>, output: seq<Msg>, taken: nat,
                         completed: nat, dropped: nat, collided: bool)
  {
    function Moved(t: nat, pc: Pc): State
      requires t < |threads|
    {
      this.(threads := threads[t := pc])
    }

    function Pending(): int {
      |accepted| - taken
    }
  }

  datatype Action =
    | BeginPrint(msg: Msg)
    | TryLock
    | Copy
    | Publish
    | Post
    | UnlockWrite
    | ReadOverruns
    | WriteOverruns
    | BeginFlush
    | Wake
    | LockFlush
    | Look
    | Put
    | Advance
    | UnlockFlush

  datatype Step = Step(t: nat, action: Action)

  predicate InRange(s: State) {
    s.inbuffer < |s.buffers| && s.outbuffer < |s.buffers|
  }

  predicate Enabled(s: State, step: Step) {
    && step.t < |s.threads|
    && InRange(s)
    && var pc := s.threads[step.t];
       match step.action
       case BeginPrint(_) => pc.Outside?
       case TryLock => pc.Trying?
       case Copy => pc.Copying?
       case Publish => pc.Publishing?
       case Post => pc.Posting?
       case UnlockWrite => pc.Unlocking?
       case ReadOverruns => pc.Overrun?
       case WriteOverruns => pc.Incrementing?
       case BeginFlush => pc.Outside?
       case Wake => pc.Sleeping? && s.writes > 0
       case LockFlush => pc.Waiting? && s.flushLock == None
       case Look => pc.Looking?
       case Put => pc.Putting?
       case Advance => pc.Advancing?
       case UnlockFlush => pc.Leaving?
  }

  /** Where the thread of a step is after it */
  function NextPc(s: State, step: Step): Pc
    requires Enabled(s, step)
  {
    var pc := s.threads[step.t];
    match step.action
    case BeginPrint(msg) => Trying(msg, LOCK_TRIES)
    case TryLock =>
      if pc.tries == 0 then Overrun
      else if s.writeLock == None then Copying(pc.msg)
      else Trying(pc.msg, pc.tries - 1)
    case Copy => Publishing(pc.msg)
    case Publish => Posting
    case Post => Unlocking
    case UnlockWrite => Outside
    case ReadOverruns => Incrementing(s.overruns, s.dropped)
    case WriteOverruns => Outside
    case BeginFlush => Waiting
    case Wake => Waiting
    case LockFlush => Looking
    case Look => if s.outbuffer != s.inbuffer then Putting else Leaving
    case Put => Advancing
    case Advance => Looking
    case UnlockFlush => if step.t == s.writer then Sleeping else Outside
  }

  /** What a step does to the shared state */
  function Effect(s: State, step: Step): State
    requires Enabled(s, step)
  {
    var pc := s.threads[step.t];
    match step.action
    case TryLock => if pc.tries > 0 && s.writeLock == None then s.(writeLock := Some(step.t)) else s
    case Copy => s.(buffers := s.buffers[s.inbuffer := pc.msg])
    case Publish => s.(inbuffer := Next(s.inbuffer, |s.buffers|), accepted := s.accepted + [pc.msg])
    case Post => s.(writes := s.writes + 1)
    case UnlockWrite => s.(writeLock := None, completed := s.completed + 1)
    case WriteOverruns =>
      s.(overruns := pc.read + 1, dropped := s.dropped + 1, completed := s.completed + 1,
         collided := s.collided || pc.at != s.dropped)
    case Wake => s.(writes := s.writes - 1)
    case LockFlush => s.(flushLock := Some(step.t))
    case Put => s.(output := s.output + [s.buffers[s.outbuffer]])
    case Advance => s.(outbuffer := Next(s.outbuffer, |s.buffers|), taken := s.taken + 1)
    case UnlockFlush => s.(flushLock := None)
    case _ => s
  }

  function After(s: State, step: Step): State
    requires Enabled(s, step)
  {
    Effect(s, step).(threads := s.threads[step.t := NextPc(s, step)])
  }

  predicate Possible(s: State, run: seq<Step>)
    decreases |run|
  {
    run == [] || (Enabled(s, run[0]) && Possible(After(s, run[0]), run[1..]))
  }

  function Reached(s: State, run: seq<Step>): State
    requires Possible(s, run)
    decreases |run|
  {
    if run == [] then s else Reached(After(s, run[0]), run[1..])
  }

  /** Fewer messages than slots are pending all the time. */
  predicate NeverFull(s: State, run: seq<Step>)
    requires Possible(s, run)
    decreases |run|
  {
    s.Pending() < |s.buffers| && (run == [] || NeverFull(After(s, run[0]), run[1..]))
  }

  /** After init, with the writer thread waiting and any number of other threads about to use the buffer */
  predicate Initial(s: State) {
    && IsPow2(|s.buffers|)
    && s.inbuffer == s.outbuffer == s.overruns == s.writes == s.taken == s.completed == s.dropped == 0
    && s.writeLock == None && s.flushLock == None
    && (forall t :: 0 <= t < |s.threads| ==> s.threads[t] == if t == s.writer then Sleeping else Outside)
    && s.accepted == [] && s.output == [] && !s.collided
  }

  // ----- locks -----

  predicate InsideWrite(pc: Pc) {
    pc.Copying? || pc.Publishing? || pc.Posting? || pc.Unlocking?
  }

  predicate InsideFlush(pc: Pc) {
    pc.Looking? || pc.Putting? || pc.Advancing? || pc.Leaving?
  }

  /** The threads inside a critical section are exactly the holder of its lock. */
  predicate Held(threads: seq<Pc>, lock: Option<nat>, inside: Pc -> bool) {
    && (lock.Some? ==> lock.value < |threads|)
    && forall t: nat :: t < |threads| ==> (inside(threads[t]) <==> lock == Some(t))
  }

  predicate Locks(s: State) {
    Held(s.threads, s.writeLock, InsideWrite) && Held(s.threads, s.flushLock, InsideFlush)
  }

  lemma HeldAfter(threads: seq<Pc>, lock: Option<nat>, inside: Pc -> bool, t: nat, pc: Pc)
    requires t < |threads| && Held(threads, lock, inside)
    ensures inside(pc) == inside(threads[t]) ==> Held(threads[t := pc], lock, inside)
    ensures lock == None && inside(pc) ==> Held(threads[t := pc], Some(t), inside)
    ensures inside(threads[t]) && !inside(pc) ==> Held(threads[t := pc], None, inside)
  {}

  /** The lock after a step that takes its thread from one place to another */
  function LockAfter(lock: Option<nat>, inside: Pc -> bool, t: nat, pc: Pc, pc': Pc): Option<nat> {
    if inside(pc) == inside(pc') then lock else if inside(pc') then Some(t) else None
  }

  /** A lock is taken where its critical section begins, when it is free, and given back where it ends. */
  lemma LocksFollow(s: State, step: Step)
    requires Enabled(s, step)
    ensures step.t < |s.threads| == |After(s, step).threads|
    ensures var s', pc := After(s, step), s.threads[step.t];
            var pc' := s'.threads[step.t];
            && s'.threads == s.threads[step.t := pc']
            && s'.writeLock == LockAfter(s.writeLock, InsideWrite, step.t, pc, pc')
            && s'.flushLock == LockAfter(s.flushLock, InsideFlush, step.t, pc, pc')
            && (InsideWrite(pc') && !InsideWrite(pc) ==> s.writeLock == None)
            && (InsideFlush(pc') && !InsideFlush(pc) ==> s.flushLock == None)
  {}

  lemma StepKeepsLocks(s: State, step: Step)
    requires Locks(s) && Enabled(s, step)
    ensures Locks(After(s, step))
  {
    hide Held, Enabled, After;
    LocksFollow(s, step);
    var pc' := After(s, step).threads[step.t];
    HeldAfter(s.threads, s.writeLock, InsideWrite, step.t, pc');
    HeldAfter(s.threads, s.flushLock, InsideFlush, step.t, pc');
  }

  lemma OneWriter(s: State, t: nat)
    requires Locks(s) && t < |s.threads| && InsideWrite(s.threads[t])
    ensures forall u: nat :: u < |s.threads| && u != t ==> !InsideWrite(s.threads[u])
  {}

  lemma OneFlusher(s: State, t: nat)
    requires Locks(s) && t < |s.threads| && InsideFlush(s.threads[t])
    ensures s.flushLock != None
    ensures forall u: nat :: u < |s.threads| && u != t ==> !InsideFlush(s.threads[u])
  {}

  // ----- indices: what holds for every run -----

  ghost predicate Indices(s: State) {
    && IsPow2(|s.buffers|)
    && s.inbuffer == Home(|s.accepted|, |s.buffers|) && s.outbuffer == Home(s.taken, |s.buffers|)
    && s.taken <= |s.accepted|
    && (forall t: nat :: t < |s.threads| && (s.threads[t].Putting? || s.threads[t].Advancing?) ==>
          s.taken < |s.accepted|)
  }

  lemma StepKeepsIndices(s: State, step: Step)
    requires Locks(s) && Indices(s) && Enabled(s, step)
    ensures Indices(After(s, step))
  {
    hide Locks, Home, InsideWrite;
    if step.action.Publish? {
      NextSlotOf(|s.accepted|, |s.buffers|);
    } else if step.action.Advance? {
      NextSlotOf(s.taken, |s.buffers|);
      OneFlusher(s, step.t);
    } else if step.action.Look? {
      LooksEmptyIff(s);
      if s.Pending() == 0 {
        SmallModulo(0, |s.buffers|);
      }
    }
    hide IsPow2;
  }

  lemma NextSlotOf(position: nat, size: nat)
    requires IsPow2(size)
    ensures Next(Home(position, size), size) == Home(position + 1, size)
  {
    var k: nat :| k <= size && size == Pow2(k);
    NextSlot(position, size, k);
  }

  /** A flush finds the buffer empty exactly when the pending messages fill it a whole number of times. */
  lemma LooksEmptyIff(s: State)
    requires Indices(s)
    ensures s.outbuffer == s.inbuffer <==> s.Pending() % |s.buffers| == 0
  {
    SameSlotIff(s.taken, |s.accepted|, |s.buffers|);
  }

  // ----- contents, as long as the buffer is never full -----

  predicate SlotsHold(buffers: seq<Msg>, accepted: seq<Msg>, taken: nat)
    requires |buffers| > 0
  {
    forall p :: taken <= p < |accepted| ==> buffers[Home(p, |buffers|)] == accepted[p]
  }

  predicate CopyStands(s: State)
    requires s.inbuffer < |s.buffers|
  {
    forall t: nat :: t < |s.threads| && s.threads[t].Publishing? ==> s.buffers[s.inbuffer] == s.threads[t].msg
  }

  /** One message more than has been taken is out between fputs and the advance. */
  predicate OutputFollows(s: State) {
    && s.output <= s.accepted
    && (s.flushLock == None ==> |s.output| == s.taken)
    && FlushersAgree(s.threads, |s.output| - s.taken)
  }

  predicate FlushersAgree(threads: seq<Pc>, ahead: int) {
    forall t: nat :: t < |threads| && InsideFlush(threads[t]) ==> ahead == if threads[t].Advancing? then 1 else 0
  }

  lemma FlushersAfter(threads: seq<Pc>, ahead: int, t: nat, pc: Pc)
    requires t < |threads| && FlushersAgree(threads, ahead)
    requires InsideFlush(pc) ==> ahead == if pc.Advancing? then 1 else 0
    ensures FlushersAgree(threads[t := pc], ahead)
  {}

  ghost predicate Contents(s: State) {
    && Indices(s) && s.Pending() < |s.buffers|
    && SlotsHold(s.buffers, s.accepted, s.taken) && CopyStands(s) && OutputFollows(s)
  }

  lemma CopyKeepsSlots(s: State, msg: Msg)
    requires Contents(s)
    ensures SlotsHold(s.buffers[s.inbuffer := msg], s.accepted, s.taken)
  {
    forall p | s.taken <= p < |s.accepted|
      ensures s.buffers[s.inbuffer := msg][Home(p, |s.buffers|)] == s.accepted[p]
    {
      SameSlotIff(p, |s.accepted|, |s.buffers|);
      SmallModulo(|s.accepted| - p, |s.buffers|);
    }
  }

  lemma SlotsAfter(s: State, step: Step)
    requires Locks(s) && Contents(s) && Enabled(s, step)
    ensures var s' := After(s, step); SlotsHold(s'.buffers, s'.accepted, s'.taken)
  {
    hide OutputFollows, Locks;
    if step.action.Copy? {
      CopyKeepsSlots(s, s.threads[step.t].msg);
    }
  }

  lemma CopyStandsAfter(s: State, step: Step)
    requires Locks(s) && Contents(s) && Enabled(s, step)
    requires InRange(After(s, step))
    ensures CopyStands(After(s, step))
  {
    hide OutputFollows, SlotsHold;
    if InsideWrite(s.threads[step.t]) {
      OneWriter(s, step.t);
    }
    hide Locks;
  }

  lemma PutFollows(s: State, t: nat)
    requires Locks(s) && Contents(s) && Enabled(s, Step(t, Put))
    ensures OutputFollows(After(s, Step(t, Put)))
  {
    hide CopyStands;
    OneFlusher(s, t);
    assert s.buffers[Home(s.taken, |s.buffers|)] == s.accepted[s.taken];
    hide Locks, SlotsHold;
    assert s.output == s.accepted[..s.taken];
    assert s.output + [s.accepted[s.taken]] == s.accepted[..s.taken + 1];
  }

  lemma OutputAfter(s: State, step: Step)
    requires Locks(s) && Contents(s) && Enabled(s, step)
    ensures OutputFollows(After(s, step))
  {
    hide CopyStands, SlotsHold;
    if step.action.Put? {
      PutFollows(s, step.t);
    } else if step.action.Advance? {
      OneFlusher(s, step.t);
      hide Locks, Indices;
    } else {
      NoOutputFollows(s, step);
    }
  }

  lemma NoOutputAfter(s: State, step: Step)
    requires Enabled(s, step) && !step.action.Put? && !step.action.Advance?
    ensures var s' := After(s, step);
            && s'.threads == s.threads[step.t := s'.threads[step.t]]
            && s'.output == s.output && s'.taken == s.taken && s.accepted <= s'.accepted
            && !s.threads[step.t].Advancing? && !s'.threads[step.t].Advancing?
  {}

  lemma NoOutputFollows(s: State, step: Step)
    requires Locks(s) && OutputFollows(s) && Enabled(s, step)
    requires !step.action.Put? && !step.action.Advance?
    ensures OutputFollows(After(s, step))
  {
    StepKeepsLocks(s, step);
    NoOutputAfter(s, step);
    hide After, Enabled;
    var s' := After(s, step);
    var pc, pc' := s.threads[step.t], s'.threads[step.t];
    if InsideFlush(pc) {
      OneFlusher(s, step.t);
    } else if InsideFlush(pc') {
      OneFlusher(s', step.t);
      assert s.flushLock == None;
    } else if s.flushLock.Some? {
      assert InsideFlush(s'.threads[s.flushLock.value]);
    }
    hide InsideFlush;
    FlushersAfter(s.threads, |s.output| - s.taken, step.t, pc');
  }

  lemma StepKeepsContents(s: State, step: Step)
    requires Locks(s) && Contents(s) && Enabled(s, step)
    requires After(s, step).Pending() < |s.buffers|
    ensures Contents(After(s, step))
  {
    StepKeepsIndices(s, step);
    SlotsAfter(s, step);
    IndicesInRange(After(s, step));
    CopyStandsAfter(s, step);
    OutputAfter(s, step);
  }

  lemma IndicesInRange(s: State)
    requires Indices(s)
    ensures InRange(s)
  {}

  // ----- counting calls -----

  /** What a thread in the middle of an increment has read is what it would be if no increment had been lost. */
  predicate IncrementStands(pc: Pc, dropped: nat, collided: bool) {
    pc.Incrementing? ==>
      && pc.read <= pc.at <= dropped
      && (if collided then pc.read < pc.at || pc.at < dropped else pc.read == pc.at)
  }

  predicate Overruns(s: State) {
    && s.overruns <= s.dropped && (s.overruns == s.dropped <==> !s.collided)
    && forall t: nat :: t < |s.threads| ==> IncrementStands(s.threads[t], s.dropped, s.collided)
  }

  predicate Returned(s: State) {
    && (s.writeLock == None ==> |s.accepted| + s.dropped == s.completed)
    && WritersAgree(s.threads, |s.accepted| + s.dropped - s.completed)
  }

  predicate WritersAgree(threads: seq<Pc>, open: int) {
    forall t: nat :: t < |threads| && InsideWrite(threads[t]) ==> open == Unreturned(threads[t])
  }

  /** Messages accepted in a print call that has not returned */
  function Unreturned(pc: Pc): int {
    if pc.Posting? || pc.Unlocking? then 1 else 0
  }

  lemma WritersAfter(threads: seq<Pc>, open: int, t: nat, pc: Pc)
    requires t < |threads|
    requires WritersAgree(threads, open) || forall u: nat :: u < |threads| && u != t ==> !InsideWrite(threads[u])
    requires InsideWrite(pc) ==> open == Unreturned(pc)
    ensures WritersAgree(threads[t := pc], open)
  {}

  predicate Counts(s: State) {
    Overruns(s) && Returned(s)
  }

  lemma OverrunsAfter(s: State, step: Step)
    requires Overruns(s) && Enabled(s, step)
    ensures Overruns(After(s, step))
  {}

  /** Every step keeps the balance between accepted, dropped and returned messages, up to its own call. */
  lemma BalanceAfter(s: State, step: Step)
    requires Enabled(s, step)
    ensures var s' := After(s, step);
            && s'.threads == s.threads[step.t := s'.threads[step.t]]
            && |s'.accepted| + s'.dropped - s'.completed ==
               |s.accepted| + s.dropped - s.completed + Unreturned(s'.threads[step.t]) - Unreturned(s.threads[step.t])
  {}

  lemma ReturnedAfter(s: State, step: Step)
    requires Locks(s) && Returned(s) && Enabled(s, step)
    ensures Returned(After(s, step))
  {
    StepKeepsLocks(s, step);
    BalanceAfter(s, step);
    hide After, Enabled, Unreturned;
    var s' := After(s, step);
    var pc, pc' := s.threads[step.t], s'.threads[step.t];
    ReturnedInside(pc);
    ReturnedInside(pc');
    if InsideWrite(pc) {
      OneWriter(s, step.t);
    } else if InsideWrite(pc') {
      OneWriter(s', step.t);
      assert s.writeLock == None;
    } else if s.writeLock.Some? {
      assert InsideWrite(s'.threads[s.writeLock.value]);
    }
    hide InsideWrite;
    WritersAfter(s.threads, |s'.accepted| + s'.dropped - s'.completed, step.t, pc');
  }

  lemma ReturnedInside(pc: Pc)
    ensures Unreturned(pc) != 0 ==> InsideWrite(pc)
  {}

  lemma StepKeepsCounts(s: State, step: Step)
    requires Locks(s) && Counts(s) && Enabled(s, step)
    ensures Counts(After(s, step))
  {
    OverrunsAfter(s, step);
    ReturnedAfter(s, step);
  }

  // ----- runs -----

  lemma InitialHolds(s: State)
    requires Initial(s)
    ensures Locks(s) && Contents(s) && Counts(s)
  {
    SmallModulo(0, |s.buffers|);
  }

  lemma {:induction false} RunKeeps(s: State, run: seq<Step>)
    requires Locks(s) && Indices(s) && Counts(s) && Possible(s, run)
    ensures Locks(Reached(s, run)) && Indices(Reached(s, run)) && Counts(Reached(s, run))
    decreases |run|
  {
    if run != [] {
      StepKeepsLocks(s, run[0]);
      StepKeepsIndices(s, run[0]);
      StepKeepsCounts(s, run[0]);
      RunKeeps(After(s, run[0]), run[1..]);
    }
  }

  lemma {:induction false} RunKeepsContents(s: State, run: seq<Step>)
    requires Locks(s) && Contents(s) && Possible(s, run) && NeverFull(s, run)
    ensures Contents(Reached(s, run)) && Locks(Reached(s, run))
    decreases |run|
  {
    if run != [] {
      StepKeepsLocks(s, run[0]);
      StepKeepsContents(s, run[0]);
      RunKeepsContents(After(s, run[0]), run[1..]);
    }
  }

  /** So it is for whatever flusher looks in whatever run. */
  lemma RunLooksEmptyIff(s: State, run: seq<Step>)
    requires Initial(s) && Possible(s, run)
    ensures var e := Reached(s, run);
            e.outbuffer == e.inbuffer <==> e.Pending() % |s.buffers| == 0
  {
    InitialHolds(s);
    RunKeeps(s, run);
    SameSize(s, run);
    LooksEmptyIff(Reached(s, run));
  }

  /**
   The buffer is a FIFO while it is never full: what has been put out is a prefix of what has been
   accepted, everything but the pending messages has been put out, the difference of the indices
   is the number of pending messages, and a flusher sees the buffer empty exactly when it is.
   */
  lemma RefinesFifo(s: State, run: seq<Step>)
    requires Initial(s) && Possible(s, run) && NeverFull(s, run)
    ensures var e := Reached(s, run);
            && e.output <= e.accepted
            && |e.accepted| - e.Pending() <= |e.output| <= |e.accepted| - e.Pending() + 1
            && (e.flushLock == None ==> e.output == e.accepted[..|e.accepted| - e.Pending()])
            && (e.inbuffer - e.outbuffer) % |s.buffers| == e.Pending()
            && (e.outbuffer == e.inbuffer <==> e.Pending() == 0)
  {
    InitialHolds(s);
    RunKeepsContents(s, run);
    SameSize(s, run);
    FifoView(Reached(s, run));
  }

  lemma {:induction false} SameSize(s: State, run: seq<Step>)
    requires Possible(s, run)
    ensures |Reached(s, run).buffers| == |s.buffers| && Reached(s, run).writer == s.writer
    ensures |Reached(s, run).threads| == |s.threads|
    decreases |run|
  {
    if run != [] {
      SameSize(After(s, run[0]), run[1..]);
    }
  }

  lemma FifoView(e: State)
    requires Contents(e) && Locks(e) && |e.buffers| > 0
    ensures e.output <= e.accepted
    ensures e.taken <= |e.output| <= e.taken + 1
    ensures e.flushLock == None ==> e.output == e.accepted[..e.taken]
    ensures (e.inbuffer - e.outbuffer) % |e.buffers| == e.Pending()
    ensures e.outbuffer == e.inbuffer <==> e.Pending() == 0
  {
    hide SlotsHold, CopyStands;
    LooksEmptyIff(e);
    SmallModulo(e.Pending(), |e.buffers|);
    IndexDifference(e.taken, |e.accepted|, |e.buffers|);
  }

  lemma IndexDifference(a: nat, b: nat, m: nat)
    requires a <= b < a + m
    ensures (b % m - a % m) % m == b - a
  {
    var qa, ra, qb, rb := a / m, a % m, b / m, b % m;
    assert a == m * qa + ra && b == m * qb + rb;
    assert m * (qa - qb) == m * qa - m * qb;
    ModUnique(rb - ra, m, qa - qb, b - a);
  }

  /** Without the bound the oldest message is lost: a full buffer looks empty, and the next copy lands on it. */
  lemma FullBufferLosesOldest(s: State, producer: nat)
    requires Locks(s) && Indices(s) && s.Pending() == |s.buffers|
    requires producer < |s.threads| && s.threads[producer].Copying?
    ensures s.outbuffer == s.inbuffer
    ensures Enabled(s, Step(producer, Copy))
    ensures After(s, Step(producer, Copy)).buffers[Home(s.taken, |s.buffers|)] == s.threads[producer].msg
  {
    LooksEmptyIff(s);
    ModUnique(|s.buffers|, |s.buffers|, 1, 0);
  }

  /**
   Every print call that has returned is accounted for, up to increments of the unprotected
   counter that got lost; none is lost exactly when no thread wrote the counter between another
   thread's read and write of it.
   */
  lemma CallsAccounted(s: State, run: seq<Step>)
    requires Initial(s) && Possible(s, run)
    requires Reached(s, run).writeLock == None
    ensures var e := Reached(s, run);
            && |e.accepted| + e.overruns <= e.completed
            && (|e.accepted| + e.overruns == e.completed <==> !e.collided)
  {
    InitialHolds(s);
    RunKeeps(s, run);
  }

  /** Two threads that both read the counter before either writes it count one overrun for two. */
  lemma LostIncrement(s: State, t: nat, u: nat)
    requires InRange(s) && t < |s.threads| && u < |s.threads| && t != u
    requires s.threads[t] == Overrun && s.threads[u] == Overrun
    ensures var run := [Step(t, ReadOverruns), Step(u, ReadOverruns), Step(t, WriteOverruns), Step(u, WriteOverruns)];
            && Possible(s, run) && Reached(s, run).overruns == s.overruns + 1
            && Reached(s, run).completed == s.completed + 2 && Reached(s, run).accepted == s.accepted
  {
    var r0, r1 := Step(t, ReadOverruns), Step(u, ReadOverruns);
    var w0, w1 := Step(t, WriteOverruns), Step(u, WriteOverruns);
    var s1 := After(s, r0);
    var s2 := After(s1, r1);
    var s3 := After(s2, w0);
    Then(s3, w1, []);
    Then(s2, w0, [w1]);
    Then(s1, r1, [w0, w1]);
    Then(s, r0, [r1, w0, w1]);
    assert [w1] + [] == [w1] && [w0] + [w1] == [w0, w1];
    assert [r1] + [w0, w1] == [r1, w0, w1] && [r0] + [r1, w0, w1] == [r0, r1, w0, w1];
  }

  lemma Then(s: State, step: Step, run: seq<Step>)
    requires Enabled(s, step) && Possible(After(s, step), run)
    ensures Possible(s, [step] + run) && Reached(s, [step] + run) == Reached(After(s, step), run)
  {
    assert ([step] + run)[1..] == run;
  }

  // ----- the calls of one thread, undisturbed -----

  /** The slot p places after start, around the ring. */
  function Slot(start: nat, p: nat, size: nat): (slot: nat)
    requires size > 0
    ensures slot < size
  {
    (start + p) % size
  }

  /** The n messages from slot start onwards. */
  function Ring(buffers: seq<Msg>, start: nat, n: nat): (r: seq<Msg>)
    requires |buffers| > 0
    ensures |r| == n
  {
    seq(n, p requires 0 <= p => buffers[Slot(start, p, |buffers|)])
  }

  function Distance(size: nat, outbuffer: nat, inbuffer: nat): nat
    requires size > 0
  {
    (inbuffer - outbuffer) % size
  }

  lemma DistanceStep(size: nat, o: nat, i: nat)
    requires IsPow2(size) && o < size && i < size
    ensures Next(i, size) == (i + 1) % size < size
    ensures (o + Distance(size, o, i)) % size == i
    ensures Distance(size, o, Next(i, size)) == (Distance(size, o, i) + 1) % size
  {
    NextIndex(size, i);
    WrapStep(i, size);
    RingDistance(size, o, i);
    RingDistance(size, o, Next(i, size));
    hide Next, IsPow2, Distance;
    WrapStep(Distance(size, o, i), size);
  }

  lemma WrapStep(x: nat, size: nat)
    requires x < size
    ensures (x + 1) % size == if x + 1 < size then x + 1 else 0
  {
    if x + 1 < size {
      SmallModulo(x + 1, size);
    } else {
      ModUnique(size, size, 1, 0);
    }
  }

  lemma NextIndex(size: nat, i: nat)
    requires IsPow2(size) && i < size
    ensures Next(i, size) == if i + 1 < size then i + 1 else 0
  {
    SmallModulo(i, size);
    NextSlotOf(i, size);
    hide Next, IsPow2;
    WrapStep(i, size);
  }

  lemma RingDistance(size: nat, o: nat, i: nat)
    requires o < size && i < size
    ensures Distance(size, o, i) == if o <= i then i - o else i - o + size
    ensures (o + Distance(size, o, i)) % size == i
  {
    if o <= i {
      ModUnique(i - o, size, 0, i - o);
      ModUnique(i, size, 0, i);
    } else {
      ModUnique(i - o, size, -1, i - o + size);
      ModUnique(i + size, size, 1, i);
    }
  }

  lemma RingExtends(buffers: seq<Msg>, o: nat, i: nat, msg: Msg)
    requires IsPow2(|buffers|) && o < |buffers| && i < |buffers|
    ensures var d := Distance(|buffers|, o, i);
            Ring(buffers[i := msg], o, d + 1) == Ring(buffers, o, d) + [msg]
  {
    hide Slot, Distance, Next, IsPow2;
    var size, d := |buffers|, Distance(|buffers|, o, i);
    SlotReached(size, o, i);
    forall p: nat | p < d ensures Slot(o, p, size) != i {
      SlotsDiffer(o, p, d, size);
    }
  }

  lemma SlotReached(size: nat, o: nat, i: nat)
    requires o < size && i < size
    ensures Distance(size, o, i) < size && Slot(o, Distance(size, o, i), size) == i
  {
    RingDistance(size, o, i);
  }

  lemma SlotsDiffer(o: nat, p: nat, d: nat, size: nat)
    requires p < d < size
    ensures Slot(o, p, size) != Slot(o, d, size)
  {
    SameSlotIff(o + p, o + d, size);
    SmallModulo(d - p, size);
  }

  lemma SlotShift(o: nat, p: nat, size: nat)
    requires IsPow2(size) && o < size && Next(o, size) == (o + 1) % size
    ensures Slot(Next(o, size), p, size) == Slot(o, p + 1, size)
  {
    hide Next, IsPow2;
    AddModulo(o + 1, p, size);
  }

  lemma AddModulo(a: nat, p: nat, m: nat)
    requires m > 0
    ensures (a % m + p) % m == (a + p) % m
  {
    var q, r := a / m, a % m;
    var q', r' := (r + p) / m, (r + p) % m;
    Sum(a, p, m, q, r, q', r');
    ModUnique(a + p, m, q + q', r');
  }

  lemma Sum(a: int, p: int, m: int, q: int, r: int, q': int, r': int)
    requires a == m * q + r && r + p == m * q' + r'
    ensures a + p == m * (q + q') + r'
  {}

  lemma RingShrinks(buffers: seq<Msg>, o: nat, i: nat)
    requires IsPow2(|buffers|) && o < |buffers| && i < |buffers| && o != i
    ensures Next(o, |buffers|) < |buffers|
    ensures var size := |buffers|;
            Ring(buffers, o, Distance(size, o, i)) ==
            [buffers[o]] + Ring(buffers, Next(o, size), Distance(size, Next(o, size), i))
  {
    var size, n := |buffers|, Next(o, |buffers|);
    DistanceStep(size, i, o);
    RingDistance(size, o, i);
    SmallModulo(o, size);
    if o + 1 < size {
      SmallModulo(o + 1, size);
    } else {
      ModUnique(size, size, 1, 0);
    }
    RingDistance(size, n, i);
    assert Slot(o, 0, size) == o;
    forall p: nat ensures Slot(n, p, size) == Slot(o, p + 1, size) {
      SlotShift(o, p, size);
    }
    assert Distance(size, o, i) == Distance(size, n, i) + 1;
    hide Slot, Distance;
    forall p: nat | 1 <= p < Distance(size, o, i)
      ensures Ring(buffers, o, Distance(size, o, i))[p] == Ring(buffers, n, Distance(size, n, i))[p - 1]
    {
      assert Slot(n, p - 1, size) == Slot(o, p - 1 + 1, size);
    }
  }

  lemma NothingPending(buffers: seq<Msg>, i: nat)
    requires i < |buffers|
    ensures Ring(buffers, i, Distance(|buffers|, i, i)) == []
  {
    RingDistance(|buffers|, i, i);
  }

  /** DebugModuleManager; stderr is what has been written to the terminal. */
  class Manager {
    const buffers: array<Msg>
    var inbuffer: nat
    var outbuffer: nat
    var overruns: nat
    var writes: nat           // the semaphore mb_writes
    var initialized: bool
    var stderr: seq<Msg>

    ghost predicate Valid()
      reads this
    {
      IsPow2(buffers.Length) && inbuffer < buffers.Length && outbuffer < buffers.Length
    }

    ghost function Pending(): seq<Msg>
      requires Valid()
      reads this, buffers
    {
      Ring(buffers[..], outbuffer, Distance(buffers.Length, outbuffer, inbuffer))
    }

    constructor (size: nat)
      requires IsPow2(size)
      ensures Valid() && Pending() == [] && buffers.Length == size && stderr == [] && initialized
      ensures inbuffer == outbuffer == overruns == writes == 0
    {
      buffers := new Msg[size](_ => "");
      inbuffer, outbuffer, overruns, writes, initialized, stderr := 0, 0, 0, 0, true, [];
      new;
      RingDistance(size, 0, 0);
    }

    /**
     lockFree tells for every attempt whether the write lock could be taken. A message that finds
     all slots but one in use makes the buffer look empty.
     */
    method Print(msg: Msg, lockFree: nat -> bool)
      requires Valid()
      modifies this, buffers
      ensures Valid() && initialized == old(initialized) && outbuffer == old(outbuffer)
      ensures !initialized ==> stderr == old(stderr) + ["ERROR: messagebuffer not initialized: " + msg]
                               && Pending() == old(Pending()) && overruns == old(overruns) && writes == old(writes)
      ensures initialized ==> stderr == old(stderr)
      ensures initialized && (exists k: nat :: k < 6 && lockFree(k)) ==>
                && overruns == old(overruns) && writes == old(writes) + 1
                && buffers[..] == old(buffers[..])[old(inbuffer) := msg]
                && inbuffer == Next(old(inbuffer), buffers.Length)
                && Pending() == if |old(Pending())| + 1 < buffers.Length then old(Pending()) + [msg] else []
      ensures initialized && (forall k: nat :: k < 6 ==> !lockFree(k)) ==>
                && overruns == old(overruns) + 1 && writes == old(writes) && Pending() == old(Pending())
                && buffers[..] == old(buffers[..]) && inbuffer == old(inbuffer)
    {
      if !initialized {
        stderr := stderr + ["ERROR: messagebuffer not initialized: " + msg];
        return;
      }
      var ntries: nat := LOCK_TRIES;
      while ntries != 0
        invariant ntries <= LOCK_TRIES
        invariant forall k: nat :: k < LOCK_TRIES - ntries ==> !lockFree(k)
        invariant this.inbuffer == old(inbuffer) && this.outbuffer == old(outbuffer) && this.overruns == old(overruns)
        invariant this.writes == old(writes)
        invariant this.stderr == old(stderr) && this.initialized && buffers[..] == old(buffers[..])
        decreases ntries
      {
        if lockFree(LOCK_TRIES - ntries) {
          Enqueue(msg);
          break;
        }
        ntries := ntries - 1;
      }
      if ntries == 0 {
        overruns := overruns + 1;
      }
    }

    method Enqueue(msg: Msg)
      requires Valid()
      modifies this`inbuffer, this`writes, buffers
      ensures Valid() && writes == old(writes) + 1
      ensures buffers[..] == old(buffers[..])[old(inbuffer) := msg] && inbuffer == Next(old(inbuffer), buffers.Length)
      ensures Pending() == if |old(Pending())| + 1 < buffers.Length then old(Pending()) + [msg] else []
    {
      ghost var size, d := buffers.Length, Distance(buffers.Length, outbuffer, inbuffer);
      RingExtends(buffers[..], outbuffer, inbuffer, msg);
      DistanceStep(size, outbuffer, inbuffer);
      buffers[inbuffer] := msg;
      assert buffers[..] == old(buffers[..])[old(inbuffer) := msg];
      inbuffer := Next(inbuffer, buffers.Length);
      writes := writes + 1;
      if d + 1 < size {
        SmallModulo(d + 1, size);
      } else {
        RingDistance(size, outbuffer, old(inbuffer));
        ModUnique(size, size, 1, 0);
      }
    }

    method MbFlush()
      requires Valid()
      modifies this`outbuffer, this`stderr
      ensures Valid() && Pending() == [] && outbuffer == inbuffer
      ensures stderr == old(stderr) + old(Pending())
    {
      hide Ring, Distance, IsPow2, Next;
      ghost var all := Pending();
      while outbuffer != inbuffer
        invariant Valid() && stderr + Pending() == old(stderr) + all
        decreases |Pending()|
      {
        ghost var before := Pending();
        RingShrinks(buffers[..], outbuffer, inbuffer);
        stderr := stderr + [buffers[outbuffer]];
        outbuffer := Next(outbuffer, buffers.Length);
        assert before == [before[0]] + Pending();
      }
      NothingPending(buffers[..], inbuffer);
    }

    /** One turn of the writer thread's loop, mb_thread_func: it stays blocked while the semaphore is zero. */
    method ThreadTurn() returns (woken: bool)
      requires Valid()
      modifies this`outbuffer, this`stderr, this`writes
      ensures Valid() && (woken <==> old(writes) > 0)
      ensures !woken ==> writes == 0 && outbuffer == old(outbuffer) && stderr == old(stderr)
      ensures woken ==> writes == old(writes) - 1 && outbuffer == inbuffer && stderr == old(stderr) + old(Pending())
    {
      if writes == 0 {
        return false;
      }
      writes := writes - 1;
      MbFlush();
      return true;
    }
  }
}
