/**
 The semaphore of the debug message buffer: every print call posts to it after its message is in the
 buffer, and the writer thread takes one post for every flush. As long as the buffer does not fill up,
 the writer thread never goes back to sleep for good while a message is waiting.
 */
module MessageBufferWakeUps {
  import opened MessageBuffer
  import opened MessageBufferRuns
  import opened Wrappers

  /** The writer thread is at its semaphore or flushing, and nobody else sleeps. */
  predicate Roles(s: State) {
    && s.writer < |s.threads|
    && (var pc := s.threads[s.writer]; pc.Sleeping? || pc.Waiting? || InsideFlush(pc))
    && forall t :: 0 <= t < |s.threads| && s.threads[t].Sleeping? ==> t == s.writer
  }

  /** The writer thread will still look whether the buffer is empty. */
  predicate WillLook(pc: Pc) {
    pc.Waiting? || pc.Looking? || pc.Putting? || pc.Advancing?
  }

  /** A print call is between its message and its post. */
  predicate SomeonePosting(threads: seq<Pc>) {
    exists t :: 0 <= t < |threads| && threads[t].Posting?
  }

  /** Nothing is pending, or the writer thread is up or going to be woken. */
  predicate Served(s: State)
    requires s.writer < |s.threads|
  {
    s.Pending() == 0 || s.writes > 0 || SomeonePosting(s.threads) || WillLook(s.threads[s.writer])
  }

  lemma StepKeepsRoles(s: State, step: Step)
    requires Roles(s) && Enabled(s, step)
    ensures Roles(After(s, step))
  {}

  lemma PostingAfter(threads: seq<Pc>, t: nat, pc: Pc)
    requires t < |threads|
    ensures pc.Posting? ==> SomeonePosting(threads[t := pc])
    ensures !threads[t].Posting? && SomeonePosting(threads) ==> SomeonePosting(threads[t := pc])
  {
    assert threads[t := pc][t] == pc;
    if !threads[t].Posting? && SomeonePosting(threads) {
      var u :| 0 <= u < |threads| && threads[u].Posting?;
      assert threads[t := pc][u] == threads[u];
    }
  }

  /** What a step does to the four reasons for which a message is served */
  lemma ServiceAfter(s: State, step: Step)
    requires Roles(s) && Enabled(s, step)
    ensures var s', pc := After(s, step), s.threads[step.t];
            && s'.threads == s.threads[step.t := s'.threads[step.t]] && s'.writer == s.writer
            && (step.action.Publish? ==> s'.threads[step.t].Posting?)
            && (step.action.Post? ==> s'.writes > 0)
            && (step.action.Wake? ==> step.t == s.writer && s'.threads[step.t].Waiting?)
            && (!step.action.Publish? ==> s'.Pending() <= s.Pending())
            && (!step.action.Post? ==> !pc.Posting?)
            && (!step.action.Wake? ==> s'.writes >= s.writes)
            && (WillLook(pc) && !WillLook(s'.threads[step.t]) ==> step.action.Look? && s.outbuffer == s.inbuffer)
  {}

  lemma StepKeepsServed(s: State, step: Step)
    requires Locks(s) && Indices(s) && s.Pending() < |s.buffers| && Roles(s) && Served(s) && Enabled(s, step)
    ensures var s' := After(s, step); s'.writer == s.writer && Served(s')
  {
    ServiceAfter(s, step);
    StepKeepsIndices(s, step);
    var s' := After(s, step);
    PostingAfter(s.threads, step.t, s'.threads[step.t]);
    LooksEmptyIff(s);
    SmallModulo(s.Pending(), |s.buffers|);
    hide After, Enabled, SomeonePosting, WillLook, Locks;
  }

  lemma {:induction false} RunKeepsServed(s: State, run: seq<Step>)
    requires Locks(s) && Contents(s) && Roles(s) && Served(s) && Possible(s, run) && NeverFull(s, run)
    ensures var e := Reached(s, run); Locks(e) && Contents(e) && Roles(e) && Served(e)
    decreases |run|
  {
    if run != [] {
      StepKeepsLocks(s, run[0]);
      StepKeepsContents(s, run[0]);
      StepKeepsRoles(s, run[0]);
      StepKeepsServed(s, run[0]);
      hide Locks, Indices, SlotsHold, CopyStands, OutputFollows, Served, Roles, After, Enabled;
      RunKeepsServed(After(s, run[0]), run[1..]);
    }
  }

  /**
   No wake-up is lost: whenever the writer thread sleeps, its semaphore is zero and no print call is
   between its message and its post, all messages accepted so far have been put out.
   */
  lemma NoWakeUpLost(s: State, run: seq<Step>)
    requires Initial(s) && s.writer < |s.threads| && Possible(s, run) && NeverFull(s, run)
    ensures var e := Reached(s, run);
            && e.writer < |e.threads|
            && (e.threads[e.writer].Sleeping? && e.writes == 0 && !SomeonePosting(e.threads) ==> e.output == e.accepted)
  {
    InitialHolds(s);
    assert Roles(s) && Served(s);
    RunKeepsServed(s, run);
    var e := Reached(s, run);
    FifoView(e);
    hide Locks, Indices, SlotsHold, CopyStands, NeverFull, Initial;
  }

  // ----- a buffer that fills up -----

  lemma IdleTurn(s: State)
    requires InRange(s) && IsPow2(|s.buffers|) && s.writer < |s.threads| && s.threads[s.writer] == Sleeping
    requires s.outbuffer == s.inbuffer && s.flushLock == None && s.writes > 0
    ensures Possible(s, FlushRun(s, s.writer))
    ensures Reached(s, FlushRun(s, s.writer)) == s.(writes := s.writes - 1)
  {
    hide Enabled, After, Possible, Reached, FlushRun, Flushed, Distance, IsPow2, Next;
    FlushIsRun(s, s.writer);
    FlushedStep(s.(writes := s.writes - 1));
  }

  /** Turns of the writer thread that find the buffer looking empty only use up its semaphore. */
  lemma {:induction false} IdleTurns(s: State, n: nat) returns (run: seq<Step>)
    requires InRange(s) && IsPow2(|s.buffers|) && s.writer < |s.threads| && s.threads[s.writer] == Sleeping
    requires s.outbuffer == s.inbuffer && s.flushLock == None && n <= s.writes
    ensures Possible(s, run) && Reached(s, run) == s.(writes := s.writes - n)
    decreases n
  {
    run := [];
    if n > 0 {
      IdleTurn(s);
      hide Enabled, After, FlushRun, IsPow2;
      var rest := IdleTurns(s.(writes := s.writes - 1), n - 1);
      RunsJoin(s, FlushRun(s, s.writer), rest);
      run := FlushRun(s, s.writer) + rest;
    }
  }

  /**
   From the start, as many print calls as there are slots: the writer thread wakes up for each of them, finds
   the buffer looking empty, and goes back to sleep with all messages pending and none put out.
   */
  lemma UnseenRun(s: State, t: nat, msgs: seq<Msg>) returns (run: seq<Step>)
    requires Initial(s) && s.writer < |s.threads| && t < |s.threads| && t != s.writer && |msgs| == |s.buffers|
    ensures Possible(s, run)
    ensures var e := Reached(s, run);
            && e.writer < |e.threads| && e.threads[e.writer].Sleeping? && e.writes == 0 && !SomeonePosting(e.threads)
            && e.accepted == msgs && e.output == []
  {
    InitialHolds(s);
    IndicesInRange(s);
    var fill := PrintsFill(s, t, msgs);
    var full := Reached(s, fill);
    IndicesInRange(full);
    LooksEmptyIff(full);
    ModUnique(|s.buffers|, |s.buffers|, 1, 0);
    assert [] + msgs == msgs;
    var idle := IdleTurns(full, full.writes);
    RunsJoin(s, fill, idle);
    run := fill + idle;
  }
}
