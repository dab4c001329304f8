/**
 The calls of the debug message buffer as runs of its step relation: what the methods of the
 manager do in one go is what a thread does step by step, and the states in which messages or
 counts get lost can be reached.
 */
module MessageBufferRuns {
  import opened MessageBuffer
  import opened Wrappers

  lemma {:induction false} RunsJoin(s: State, a: seq<Step>, b: seq<Step>)
    requires Possible(s, a) && Possible(Reached(s, a), b)
    ensures Possible(s, a + b) && Reached(s, a + b) == Reached(Reached(s, a), b)
    decreases |a|
  {
    if a == [] {
      assert a + b == b;
    } else {
      assert (a + b)[1..] == a[1..] + b;
      RunsJoin(After(s, a[0]), a[1..], b);
    }
  }

  lemma One(s: State, step: Step)
    requires Enabled(s, step)
    ensures Possible(s, [step]) && Reached(s, [step]) == After(s, step)
  {
    assert [step][1..] == [];
  }

  /** A run, followed by one more step */
  lemma AndThen(s: State, run: seq<Step>, step: Step)
    requires Possible(s, run) && Enabled(Reached(s, run), step)
    ensures Possible(s, run + [step]) && Reached(s, run + [step]) == After(Reached(s, run), step)
  {
    One(Reached(s, run), step);
    RunsJoin(s, run, [step]);
  }

  /** The same with every state named */
  lemma Extend(s: State, run: seq<Step>, e: State, step: Step, e': State)
    requires Possible(s, run) && Reached(s, run) == e && Enabled(e, step) && After(e, step) == e'
    ensures Possible(s, run + [step]) && Reached(s, run + [step]) == e'
  {
    AndThen(s, run, step);
  }

  lemma First(s: State, step: Step, e: State)
    requires Enabled(s, step) && After(s, step) == e
    ensures Possible(s, [step]) && Reached(s, [step]) == e
  {
    One(s, step);
  }

  lemma Overwritten(threads: seq<Pc>, t: nat, a: Pc, b: Pc)
    requires t < |threads|
    ensures threads[t := a][t := b] == threads[t := b] && threads[t := a][t] == a && |threads[t := a]| == |threads|
  {}

  lemma BackOutside(threads: seq<Pc>, t: nat, pc: Pc)
    requires t < |threads|
    ensures threads[t := pc][t := threads[t]] == threads
  {}

  // ----- printing -----

  /** What print does to the shared state when it gets the lock: the new state of Manager.Print */
  function Printed(s: State, msg: Msg): State
    requires InRange(s)
  {
    s.(buffers := s.buffers[s.inbuffer := msg], inbuffer := Next(s.inbuffer, |s.buffers|),
       accepted := s.accepted + [msg], writes := s.writes + 1, completed := s.completed + 1)
  }

  /** What it does when it gives up */
  function Dropped(s: State): State {
    s.(overruns := s.overruns + 1, dropped := s.dropped + 1, completed := s.completed + 1)
  }

  /** The rest of a print call that finds the lock free: one turn of its loop */
  function EnqueueRun(t: nat): seq<Step> {
    [Step(t, TryLock)] + [Step(t, Copy)] + [Step(t, Publish)] + [Step(t, Post)] + [Step(t, UnlockWrite)]
  }

  lemma EnqueueIsRun(s: State, t: nat, msg: Msg, tries: nat)
    requires InRange(s) && IsPow2(|s.buffers|) && t < |s.threads|
    requires s.threads[t] == Trying(msg, tries) && tries > 0 && s.writeLock == None
    ensures Possible(s, EnqueueRun(t))
    ensures Reached(s, EnqueueRun(t)) == Printed(s, msg).Moved(t, Outside)
  {
    hide Next, IsPow2, Enabled, After, Possible, Reached;
    var s1 := s.(writeLock := Some(t)).Moved(t, Copying(msg));
    var s2 := Copied(s, t, msg).Moved(t, Publishing(msg));
    var s3 := Published(s, t, msg).Moved(t, Posting);
    var s4 := Posted(s, t, msg).Moved(t, Unlocking);
    EnqueueSteps(s, t, msg, tries);
    First(s, Step(t, TryLock), s1);
    Extend(s, [Step(t, TryLock)], s1, Step(t, Copy), s2);
    Extend(s, [Step(t, TryLock)] + [Step(t, Copy)], s2, Step(t, Publish), s3);
    Extend(s, [Step(t, TryLock)] + [Step(t, Copy)] + [Step(t, Publish)], s3, Step(t, Post), s4);
    Extend(s, [Step(t, TryLock)] + [Step(t, Copy)] + [Step(t, Publish)] + [Step(t, Post)], s4, Step(t, UnlockWrite),
           Printed(s, msg).Moved(t, Outside));
  }

  function Copied(s: State, t: nat, msg: Msg): State
    requires InRange(s)
  {
    s.(writeLock := Some(t), buffers := s.buffers[s.inbuffer := msg])
  }

  function Published(s: State, t: nat, msg: Msg): State
    requires InRange(s)
  {
    Copied(s, t, msg).(inbuffer := Next(s.inbuffer, |s.buffers|), accepted := s.accepted + [msg])
  }

  function Posted(s: State, t: nat, msg: Msg): State
    requires InRange(s)
  {
    Published(s, t, msg).(writes := s.writes + 1)
  }

  lemma LockStep(s: State, t: nat, msg: Msg, tries: nat)
    requires InRange(s) && t < |s.threads| && s.threads[t] == Trying(msg, tries) && tries > 0 && s.writeLock == None
    ensures Enabled(s, Step(t, TryLock))
    ensures After(s, Step(t, TryLock)) == s.(writeLock := Some(t)).Moved(t, Copying(msg))
  {}

  lemma CopyStep(s: State, t: nat, msg: Msg)
    requires InRange(s) && t < |s.threads| && s.threads[t] == Copying(msg)
    ensures Enabled(s, Step(t, Copy))
    ensures After(s, Step(t, Copy)) == s.(buffers := s.buffers[s.inbuffer := msg]).Moved(t, Publishing(msg))
  {}

  lemma PublishStep(s: State, t: nat, msg: Msg)
    requires InRange(s) && IsPow2(|s.buffers|) && t < |s.threads| && s.threads[t] == Publishing(msg)
    ensures Next(s.inbuffer, |s.buffers|) < |s.buffers| && Enabled(s, Step(t, Publish))
    ensures After(s, Step(t, Publish)) ==
            s.(inbuffer := Next(s.inbuffer, |s.buffers|), accepted := s.accepted + [msg]).Moved(t, Posting)
  {
    DistanceStep(|s.buffers|, s.outbuffer, s.inbuffer);
    hide Next, IsPow2;
  }

  lemma PostStep(s: State, t: nat)
    requires InRange(s) && t < |s.threads| && s.threads[t] == Posting
    ensures Enabled(s, Step(t, Post)) && After(s, Step(t, Post)) == s.(writes := s.writes + 1).Moved(t, Unlocking)
  {}

  lemma UnlockStep(s: State, t: nat)
    requires InRange(s) && t < |s.threads| && s.threads[t] == Unlocking
    ensures Enabled(s, Step(t, UnlockWrite))
    ensures After(s, Step(t, UnlockWrite)) == s.(writeLock := None, completed := s.completed + 1).Moved(t, Outside)
  {}

  lemma EnqueueSteps(s: State, t: nat, msg: Msg, tries: nat)
    requires InRange(s) && IsPow2(|s.buffers|) && t < |s.threads|
    requires s.threads[t] == Trying(msg, tries) && tries > 0 && s.writeLock == None
    ensures var s1 := s.(writeLock := Some(t)).Moved(t, Copying(msg));
            var s2 := Copied(s, t, msg).Moved(t, Publishing(msg));
            var s3 := Published(s, t, msg).Moved(t, Posting);
            var s4 := Posted(s, t, msg).Moved(t, Unlocking);
            && Enabled(s, Step(t, TryLock)) && After(s, Step(t, TryLock)) == s1
            && Enabled(s1, Step(t, Copy)) && After(s1, Step(t, Copy)) == s2
            && Enabled(s2, Step(t, Publish)) && After(s2, Step(t, Publish)) == s3
            && Enabled(s3, Step(t, Post)) && After(s3, Step(t, Post)) == s4
            && Enabled(s4, Step(t, UnlockWrite))
            && After(s4, Step(t, UnlockWrite)) == Printed(s, msg).Moved(t, Outside)
  {
    hide Next, IsPow2, Enabled, After;
    Overwritten(s.threads, t, Copying(msg), Publishing(msg));
    Overwritten(s.threads, t, Publishing(msg), Posting);
    Overwritten(s.threads, t, Posting, Unlocking);
    Overwritten(s.threads, t, Unlocking, Outside);
    LockStep(s, t, msg, tries);
    CopyStep(s.(writeLock := Some(t)).Moved(t, Copying(msg)), t, msg);
    PublishStep(Copied(s, t, msg).Moved(t, Publishing(msg)), t, msg);
    PostStep(Published(s, t, msg).Moved(t, Posting), t);
    UnlockStep(Posted(s, t, msg).Moved(t, Unlocking), t);
  }

  function PrintRun(t: nat, msg: Msg): seq<Step> {
    [Step(t, BeginPrint(msg))] + EnqueueRun(t)
  }

  /** A print call that finds the lock free does, step by step, what Manager.Print does. */
  lemma PrintIsRun(s: State, t: nat, msg: Msg)
    requires InRange(s) && IsPow2(|s.buffers|) && t < |s.threads| && s.threads[t] == Outside && s.writeLock == None
    ensures Possible(s, PrintRun(t, msg)) && Reached(s, PrintRun(t, msg)) == Printed(s, msg)
  {
    hide EnqueueRun, Next, IsPow2, Enabled, After, Possible, Reached;
    var s1 := s.Moved(t, Trying(msg, LOCK_TRIES));
    BeginStep(s, t, msg);
    First(s, Step(t, BeginPrint(msg)), s1);
    EnqueueIsRun(s1, t, msg, LOCK_TRIES);
    RunsJoin(s, [Step(t, BeginPrint(msg))], EnqueueRun(t));
    BackOutside(s.threads, t, Trying(msg, LOCK_TRIES));
    assert Printed(s1, msg).Moved(t, Outside) == Printed(s, msg);
  }

  lemma BeginStep(s: State, t: nat, msg: Msg)
    requires InRange(s) && t < |s.threads| && s.threads[t] == Outside
    ensures Enabled(s, Step(t, BeginPrint(msg)))
    ensures After(s, Step(t, BeginPrint(msg))) == s.Moved(t, Trying(msg, LOCK_TRIES))
  {}

  /** The attempts of a thread that never gets the lock, the last of which ends the loop */
  function FailedTries(t: nat, tries: nat): seq<Step> {
    if tries == 0 then [Step(t, TryLock)] else [Step(t, TryLock)] + FailedTries(t, tries - 1)
  }

  lemma {:induction false} TriesFail(s: State, t: nat, msg: Msg, tries: nat)
    requires InRange(s) && t < |s.threads| && s.threads[t] == Trying(msg, tries) && s.writeLock != None
    ensures Possible(s, FailedTries(t, tries))
    ensures Reached(s, FailedTries(t, tries)) == s.Moved(t, Overrun)
    decreases tries
  {
    One(s, Step(t, TryLock));
    if tries > 0 {
      TriesFail(After(s, Step(t, TryLock)), t, msg, tries - 1);
      RunsJoin(s, [Step(t, TryLock)], FailedTries(t, tries - 1));
    }
  }

  /** Up to the point where the overrun is counted */
  function GiveUpRun(t: nat, msg: Msg): seq<Step> {
    [Step(t, BeginPrint(msg))] + FailedTries(t, LOCK_TRIES)
  }

  lemma GivesUp(s: State, t: nat, msg: Msg)
    requires InRange(s) && t < |s.threads| && s.threads[t] == Outside && s.writeLock != None
    ensures Possible(s, GiveUpRun(t, msg)) && Reached(s, GiveUpRun(t, msg)) == s.Moved(t, Overrun)
  {
    hide FailedTries;
    One(s, Step(t, BeginPrint(msg)));
    TriesFail(After(s, Step(t, BeginPrint(msg))), t, msg, LOCK_TRIES);
    RunsJoin(s, [Step(t, BeginPrint(msg))], FailedTries(t, LOCK_TRIES));
  }

  function DropRun(t: nat, msg: Msg): seq<Step> {
    GiveUpRun(t, msg) + [Step(t, ReadOverruns)] + [Step(t, WriteOverruns)]
  }

  /** A print call during which another thread holds the lock all the time does what Manager.Print does then. */
  lemma DropIsRun(s: State, t: nat, msg: Msg)
    requires InRange(s) && t < |s.threads| && s.threads[t] == Outside && s.writeLock != None
    ensures Possible(s, DropRun(t, msg)) && Reached(s, DropRun(t, msg)) == Dropped(s)
  {
    hide GiveUpRun, Enabled, After, Possible, Reached, Dropped;
    var read := s.Moved(t, Incrementing(s.overruns, s.dropped));
    GivesUp(s, t, msg);
    DropSteps(s, t);
    Extend(s, GiveUpRun(t, msg), s.Moved(t, Overrun), Step(t, ReadOverruns), read);
    Extend(s, GiveUpRun(t, msg) + [Step(t, ReadOverruns)], read, Step(t, WriteOverruns), Dropped(s));
  }

  lemma DropSteps(s: State, t: nat)
    requires InRange(s) && t < |s.threads| && s.threads[t] == Outside
    ensures var read := s.Moved(t, Incrementing(s.overruns, s.dropped));
            && Enabled(s.Moved(t, Overrun), Step(t, ReadOverruns))
            && After(s.Moved(t, Overrun), Step(t, ReadOverruns)) == read
            && Enabled(read, Step(t, WriteOverruns)) && After(read, Step(t, WriteOverruns)) == Dropped(s)
  {
    Overwritten(s.threads, t, Overrun, Incrementing(s.overruns, s.dropped));
    BackOutside(s.threads, t, Incrementing(s.overruns, s.dropped));
  }

  // ----- flushing -----

  /** The turns of the flush loop for n messages */
  function TakeRun(t: nat, n: nat): seq<Step> {
    if n == 0 then [] else [Step(t, Look)] + [Step(t, Put)] + [Step(t, Advance)] + TakeRun(t, n - 1)
  }

  /** What mb_flush does: the new state of Manager.MbFlush */
  function Flushed(s: State): State
    requires InRange(s)
  {
    var n := Distance(|s.buffers|, s.outbuffer, s.inbuffer);
    s.(output := s.output + Ring(s.buffers, s.outbuffer, n), outbuffer := s.inbuffer, taken := s.taken + n)
  }

  function Taken(s: State): State
    requires InRange(s)
  {
    s.(output := s.output + [s.buffers[s.outbuffer]], outbuffer := Next(s.outbuffer, |s.buffers|), taken := s.taken + 1)
  }

  lemma TakeOne(s: State, t: nat)
    requires InRange(s) && t < |s.threads| && s.threads[t] == Looking && s.outbuffer != s.inbuffer
    ensures var run := [Step(t, Look)] + [Step(t, Put)] + [Step(t, Advance)];
            Possible(s, run) && Reached(s, run) == Taken(s)
  {
    hide Next, Enabled, After, Possible, Reached, Taken;
    var s1, s2 := s.Moved(t, Putting), Shown(s).Moved(t, Advancing);
    TakeSteps(s, t);
    First(s, Step(t, Look), s1);
    Extend(s, [Step(t, Look)], s1, Step(t, Put), s2);
    Extend(s, [Step(t, Look)] + [Step(t, Put)], s2, Step(t, Advance), Taken(s));
  }

  function Shown(s: State): State
    requires InRange(s)
  {
    s.(output := s.output + [s.buffers[s.outbuffer]])
  }

  lemma TakeSteps(s: State, t: nat)
    requires InRange(s) && t < |s.threads| && s.threads[t] == Looking && s.outbuffer != s.inbuffer
    ensures Enabled(s, Step(t, Look)) && After(s, Step(t, Look)) == s.Moved(t, Putting)
    ensures var s1 := s.Moved(t, Putting);
            Enabled(s1, Step(t, Put)) && After(s1, Step(t, Put)) == Shown(s).Moved(t, Advancing)
    ensures var s2 := Shown(s).Moved(t, Advancing);
            Enabled(s2, Step(t, Advance)) && After(s2, Step(t, Advance)) == Taken(s)
  {
    hide Next;
    Overwritten(s.threads, t, Putting, Advancing);
    Overwritten(s.threads, t, Advancing, Looking);
    BackOutside(s.threads, t, Advancing);
  }

  lemma FlushedStep(s: State)
    requires InRange(s) && IsPow2(|s.buffers|)
    ensures s.outbuffer == s.inbuffer ==>
              Distance(|s.buffers|, s.outbuffer, s.inbuffer) == 0 && Flushed(s) == s
    ensures s.outbuffer != s.inbuffer ==>
              var n := Distance(|s.buffers|, s.outbuffer, s.inbuffer);
              && n > 0 && InRange(Taken(s)) && Flushed(Taken(s)) == Flushed(s)
              && Distance(|s.buffers|, Taken(s).outbuffer, s.inbuffer) == n - 1
  {
    RingDistance(|s.buffers|, s.outbuffer, s.inbuffer);
    if s.outbuffer != s.inbuffer {
      RingShrinks(s.buffers, s.outbuffer, s.inbuffer);
      var n := Distance(|s.buffers|, s.outbuffer, s.inbuffer);
      var rest := Ring(s.buffers, Taken(s).outbuffer, n - 1);
      hide Ring, Distance, Next, IsPow2;
      assert s.output + ([s.buffers[s.outbuffer]] + rest) == s.output + [s.buffers[s.outbuffer]] + rest;
    } else {
      assert s.output + [] == s.output;
    }
  }

  lemma {:induction false} TakesAll(s: State, t: nat, n: nat)
    requires InRange(s) && IsPow2(|s.buffers|) && t < |s.threads| && s.threads[t] == Looking
    requires n == Distance(|s.buffers|, s.outbuffer, s.inbuffer)
    ensures Possible(s, TakeRun(t, n)) && Reached(s, TakeRun(t, n)) == Flushed(s)
    decreases n
  {
    FlushedStep(s);
    hide Flushed, Distance, IsPow2;
    if s.outbuffer != s.inbuffer {
      TakeOne(s, t);
      TakesAll(Taken(s), t, n - 1);
      RunsJoin(s, [Step(t, Look)] + [Step(t, Put)] + [Step(t, Advance)], TakeRun(t, n - 1));
    }
  }

  /** Where a thread is outside the manager's calls, and how it begins a flush */
  function Rest(s: State, t: nat): Pc {
    if t == s.writer then Sleeping else Outside
  }

  function FlushStart(s: State, t: nat): Action {
    if t == s.writer then Wake else BeginFlush
  }

  /** The state after that: the writer thread has taken one post from its semaphore. */
  function Woken(s: State, t: nat): State
    requires t == s.writer ==> s.writes > 0
  {
    if t == s.writer then s.(writes := s.writes - 1) else s
  }

  function FlushRun(s: State, t: nat): seq<Step>
    requires InRange(s)
  {
    [Step(t, FlushStart(s, t))] + [Step(t, LockFlush)]
    + TakeRun(t, Distance(|s.buffers|, s.outbuffer, s.inbuffer)) + [Step(t, Look)] + [Step(t, UnlockFlush)]
  }

  lemma FlushedMoves(s: State, s': State)
    requires InRange(s) && s' == s.(flushLock := s'.flushLock, threads := s'.threads, writes := s'.writes)
    ensures Flushed(s).inbuffer == Flushed(s).outbuffer == s.inbuffer && |Flushed(s).buffers| == |s.buffers|
    ensures Flushed(s).flushLock == s.flushLock && Flushed(s).threads == s.threads
    ensures Flushed(s).writer == s.writer && Flushed(s).writes == s.writes
    ensures Flushed(s') == Flushed(s).(flushLock := s'.flushLock, threads := s'.threads, writes := s'.writes)
  {}

  lemma StartStep(s: State, t: nat)
    requires InRange(s) && t < |s.threads| && s.threads[t] == Rest(s, t) && (t == s.writer ==> s.writes > 0)
    ensures Enabled(s, Step(t, FlushStart(s, t)))
    ensures After(s, Step(t, FlushStart(s, t))) == Woken(s, t).Moved(t, Waiting)
  {}

  lemma LockFlushStep(s: State, t: nat)
    requires InRange(s) && t < |s.threads| && s.threads[t] == Waiting && s.flushLock == None
    ensures Enabled(s, Step(t, LockFlush))
    ensures After(s, Step(t, LockFlush)) == s.(flushLock := Some(t)).Moved(t, Looking)
  {}

  lemma LookEmptyStep(s: State, t: nat)
    requires InRange(s) && t < |s.threads| && s.threads[t] == Looking && s.outbuffer == s.inbuffer
    ensures Enabled(s, Step(t, Look)) && After(s, Step(t, Look)) == s.Moved(t, Leaving)
  {}

  lemma UnlockFlushStep(s: State, t: nat)
    requires InRange(s) && t < |s.threads| && s.threads[t] == Leaving
    ensures Enabled(s, Step(t, UnlockFlush))
    ensures After(s, Step(t, UnlockFlush)) == s.(flushLock := None).Moved(t, Rest(s, t))
  {}

  lemma FlushBegins(s: State, t: nat)
    requires InRange(s) && t < |s.threads| && s.threads[t] == Rest(s, t) && s.flushLock == None
    requires t == s.writer ==> s.writes > 0
    ensures var run := [Step(t, FlushStart(s, t))] + [Step(t, LockFlush)];
            Possible(s, run) && Reached(s, run) == Woken(s, t).(flushLock := Some(t)).Moved(t, Looking)
  {
    hide Possible, Reached, Enabled, After;
    var s1 := Woken(s, t).Moved(t, Waiting);
    Overwritten(s.threads, t, Waiting, Looking);
    StartStep(s, t);
    LockFlushStep(s1, t);
    First(s, Step(t, FlushStart(s, t)), s1);
    Extend(s, [Step(t, FlushStart(s, t))], s1, Step(t, LockFlush),
           Woken(s, t).(flushLock := Some(t)).Moved(t, Looking));
  }

  /**
   A flush that gets its lock does, step by step, what Manager.MbFlush does; for the writer thread it is
   the turn that takes one post from the semaphore.
   */
  lemma FlushIsRun(s: State, t: nat)
    requires InRange(s) && IsPow2(|s.buffers|) && t < |s.threads| && s.threads[t] == Rest(s, t) && s.flushLock == None
    requires t == s.writer ==> s.writes > 0
    ensures Possible(s, FlushRun(s, t)) && Reached(s, FlushRun(s, t)) == Flushed(Woken(s, t))
  {
    hide Ring, Distance, Next, IsPow2, TakeRun, Flushed, After, Enabled, Possible, Reached;
    var n := Distance(|s.buffers|, s.outbuffer, s.inbuffer);
    var begin := [Step(t, FlushStart(s, t))] + [Step(t, LockFlush)];
    var w := Woken(s, t);
    var s1 := w.(flushLock := Some(t)).Moved(t, Looking);
    FlushBegins(s, t);
    TakesAll(s1, t, n);
    RunsJoin(s, begin, TakeRun(t, n));
    FlushedMoves(w, s1);
    FlushedMoves(s1, s1);
    var s2 := Flushed(s1);
    LookEmptyStep(s2, t);
    UnlockFlushStep(s2.Moved(t, Leaving), t);
    Overwritten(s.threads, t, Looking, Leaving);
    Overwritten(s.threads, t, Leaving, s.threads[t]);
    BackOutside(s.threads, t, Leaving);
    Extend(s, begin + TakeRun(t, n), s2, Step(t, Look), s2.Moved(t, Leaving));
    Extend(s, begin + TakeRun(t, n) + [Step(t, Look)], s2.Moved(t, Leaving), Step(t, UnlockFlush), Flushed(w));
  }

  // ----- the manager and the step relation side by side -----

  /** The fields of the manager, and what has been put out, are those of a state. */
  ghost predicate Represents(m: Manager, s: State)
    reads m, m.buffers
  {
    && m.Valid() && m.initialized && m.buffers[..] == s.buffers && m.inbuffer == s.inbuffer
    && m.outbuffer == s.outbuffer && m.overruns == s.overruns && m.writes == s.writes && m.stderr == s.output
  }

  /** A print call of the manager and the run of a thread's steps, in a state where the lock is free or not, agree. */
  method PrintBoth(m: Manager, ghost s: State, ghost t: nat, msg: Msg, free: bool)
    requires Represents(m, s) && t < |s.threads| && s.threads[t] == Outside && (free <==> s.writeLock == None)
    modifies m, m.buffers
    ensures var run := if free then PrintRun(t, msg) else DropRun(t, msg);
            Possible(s, run) && Represents(m, Reached(s, run))
  {
    hide Possible, Reached, PrintRun, DropRun, Ring, Distance, Next, IsPow2;
    if free {
      PrintIsRun(s, t, msg);
    } else {
      DropIsRun(s, t, msg);
    }
    var lockFree := (k: nat) => free;
    assert lockFree(0) == free;
    m.Print(msg, lockFree);
  }

  /** So do a flush of the manager and the run of a thread's steps. */
  method FlushBoth(m: Manager, ghost s: State, ghost t: nat)
    requires Represents(m, s) && t < |s.threads| && s.threads[t] == Outside && s.flushLock == None && t != s.writer
    modifies m`outbuffer, m`stderr
    ensures Possible(s, FlushRun(s, t)) && Represents(m, Reached(s, FlushRun(s, t)))
  {
    hide Possible, Reached, FlushRun, Ring, Distance, Next, IsPow2;
    FlushIsRun(s, t);
    m.MbFlush();
  }

  /** And so do a turn of the writer thread and its steps: it is woken exactly when there is a run of them. */
  method TurnBoth(m: Manager, ghost s: State) returns (woken: bool)
    requires Represents(m, s) && s.writer < |s.threads| && s.threads[s.writer] == Sleeping && s.flushLock == None
    modifies m`outbuffer, m`stderr, m`writes
    ensures woken <==> Enabled(s, Step(s.writer, Wake))
    ensures woken ==> Possible(s, FlushRun(s, s.writer)) && Represents(m, Reached(s, FlushRun(s, s.writer)))
    ensures !woken ==> Represents(m, s)
  {
    hide Possible, Reached, FlushRun, Ring, Distance, Next, IsPow2;
    if s.writes > 0 {
      FlushIsRun(s, s.writer);
    }
    woken := m.ThreadTurn();
  }

  // ----- the states in which something gets lost can be reached -----

  lemma {:induction false} PrintsFill(s: State, t: nat, msgs: seq<Msg>) returns (run: seq<Step>)
    requires InRange(s) && Locks(s) && Indices(s) && t < |s.threads| && s.threads[t] == Outside && s.writeLock == None
    ensures Possible(s, run)
    ensures var e := Reached(s, run);
            && e.accepted == s.accepted + msgs && e.taken == s.taken && e.output == s.output
            && e.threads == s.threads && e.writeLock == None && |e.buffers| == |s.buffers|
            && e.writes == s.writes + |msgs| && e.flushLock == s.flushLock && e.writer == s.writer
    ensures Locks(Reached(s, run)) && Indices(Reached(s, run))
    decreases |msgs|
  {
    if msgs == [] {
      run := [];
      assert s.accepted + [] == s.accepted;
    } else {
      hide Locks, Indices, Next;
      var n := |msgs| - 1;
      var before := PrintsFill(s, t, msgs[..n]);
      var e := Reached(s, before);
      IndicesInRange(e);
      PrintIsRun(e, t, msgs[n]);
      RunsJoin(s, before, PrintRun(t, msgs[n]));
      run := before + PrintRun(t, msgs[n]);
      assert s.accepted + msgs[..n] + [msgs[n]] == s.accepted + msgs;
      RunKeepsLocksAndIndices(e, PrintRun(t, msgs[n]));
    }
  }

  lemma {:induction false} RunKeepsLocksAndIndices(s: State, run: seq<Step>)
    requires Locks(s) && Indices(s) && Possible(s, run)
    ensures Locks(Reached(s, run)) && Indices(Reached(s, run))
    decreases |run|
  {
    hide Locks, Indices;
    if run != [] {
      StepKeepsLocks(s, run[0]);
      StepKeepsIndices(s, run[0]);
      RunKeepsLocksAndIndices(After(s, run[0]), run[1..]);
    }
  }

  /**
   From the start, as many print calls as there are slots and one more message copied: nothing has been
   put out, a flusher sees the buffer empty, and the first message is gone from its slot.
   */
  lemma OverflowRun(s: State, t: nat, msgs: seq<Msg>, msg: Msg) returns (run: seq<Step>)
    requires Initial(s) && t < |s.threads| && t != s.writer && |msgs| == |s.buffers|
    ensures Possible(s, run)
    ensures var e := Reached(s, run);
            && e.accepted == msgs && e.output == [] && e.Pending() == |msgs|
            && e.outbuffer == e.inbuffer < |e.buffers| && e.buffers[e.outbuffer] == msg
  {
    InitialHolds(s);
    IndicesInRange(s);
    var fill := PrintsFill(s, t, msgs);
    var full := Reached(s, fill);
    hide Initial, Next;
    AndThen(s, fill, Step(t, BeginPrint(msg)));
    AndThen(s, fill + [Step(t, BeginPrint(msg))], Step(t, TryLock));
    var ready := fill + [Step(t, BeginPrint(msg))] + [Step(t, TryLock)];
    RunKeepsLocksAndIndices(s, ready);
    IndicesInRange(Reached(s, ready));
    FullBufferLosesOldest(Reached(s, ready), t);
    AndThen(s, ready, Step(t, Copy));
    run := ready + [Step(t, Copy)];
    assert [] + msgs == msgs;
  }

  /**
   From the start, one thread holds the lock while two others give up at the same time: two print calls
   have returned, one overrun has been counted.
   */
  lemma LostIncrementRun(s: State, holder: nat, t: nat, u: nat, msg: Msg) returns (run: seq<Step>)
    requires Initial(s) && holder < |s.threads| && t < |s.threads| && u < |s.threads|
    requires holder != t && holder != u && t != u && s.writer !in {holder, t, u}
    ensures Possible(s, run)
    ensures var e := Reached(s, run);
            e.accepted == [] && e.completed == 2 && e.overruns == 1
  {
    InitialHolds(s);
    IndicesInRange(s);
    hide Indices, Locks, Contents, Counts, GiveUpRun;
    One(s, Step(holder, BeginPrint(msg)));
    var hold := [Step(holder, BeginPrint(msg))] + [Step(holder, TryLock)];
    AndThen(s, [Step(holder, BeginPrint(msg))], Step(holder, TryLock));
    var held := Reached(s, hold);
    GivesUp(held, t, msg);
    var first := held.Moved(t, Overrun);
    GivesUp(first, u, msg);
    RunsJoin(s, hold, GiveUpRun(t, msg));
    RunsJoin(s, hold + GiveUpRun(t, msg), GiveUpRun(u, msg));
    var ready := hold + GiveUpRun(t, msg) + GiveUpRun(u, msg);
    var both := first.Moved(u, Overrun);
    LostIncrement(both, t, u);
    run := ready
      + [Step(t, ReadOverruns), Step(u, ReadOverruns), Step(t, WriteOverruns), Step(u, WriteOverruns)];
    RunsJoin(s, ready, [Step(t, ReadOverruns), Step(u, ReadOverruns), Step(t, WriteOverruns), Step(u, WriteOverruns)]);
  }
}
